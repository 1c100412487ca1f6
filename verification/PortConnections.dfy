/**
  Port connections (source/PortConnectionHandler.cpp): the slice list of a port's
  nodes, and the bits each node is linked to when it is aligned with the actual
  expression.
  */
module PortConnections {
  import opened Assignments
  import opened BitRanges
  import opened BitSliceList
  import opened BitSlices
  import opened Cuts
  import opened Joints
  import opened Segments
  import opened Wrappers

  /** The registered nodes of a port; one without bounds covers nothing. */
  type PortNodes = seq<Option<BitRange>>

  /** Bounds are bit positions. */
  ghost predicate AreBits(nodes: PortNodes) {
    forall n :: 0 <= n < |nodes| && nodes[n].Some? ==> 0 <= nodes[n].value.Lower()
  }

  /** How far the slices of a port reach: over its width, and over any node that goes beyond it. */
  function Reach(nodes: PortNodes, w: nat): (r: nat)
    requires AreBits(nodes)
    ensures w <= r && forall n :: 0 <= n < |nodes| && nodes[n].Some? ==> nodes[n].value.Upper() < r
    ensures r == w || exists n :: 0 <= n < |nodes| && nodes[n].Some? && nodes[n].value.Upper() + 1 == r
  {
    if nodes == [] then w
    else
      var n := |nodes| - 1;
      assert AreBits(nodes[..n]);
      var r := Reach(nodes[..n], w);
      assert forall k :: 0 <= k < n ==> nodes[..n][k] == nodes[k];
      if nodes[n].Some? && nodes[n].value.Upper() >= r then nodes[n].value.Upper() + 1 else r
  }

  predicate Covers(nodes: PortNodes, n: nat, lo: nat, hi: nat) {
    n < |nodes| && nodes[n].Some? && nodes[n].value.Lower() <= lo && hi <= nodes[n].value.Upper() + 1
  }

  /** Both ends of every node's bounds are on the grid. */
  ghost predicate EndsOn(nodes: PortNodes, grid: seq<nat>) {
    forall n :: 0 <= n < |nodes| && nodes[n].Some? ==> nodes[n].value.Lower() in grid && nodes[n].value.Upper() + 1 in grid
  }

  /** Between neighbouring grid points a node covers all bits or none. */
  lemma CoversAllOrNone(nodes: PortNodes, n: nat, grid: seq<nat>, i: nat, p: nat)
    requires Increasing(grid) && EndsOn(nodes, grid) && i + 1 < |grid| && grid[i] <= p < grid[i + 1]
    ensures Covers(nodes, n, grid[i], grid[i + 1]) <==> Covers(nodes, n, p, p + 1)
  {
    if n < |nodes| && nodes[n].Some? {
      NoneBetween(grid, i, nodes[n].value.Lower());
      NoneBetween(grid, i, nodes[n].value.Upper() + 1);
    }
  }

  method CoveringNodes(nodes: PortNodes, segLo: nat, segHi: nat) returns (sources: seq<Source>)
    ensures forall src :: src in sources <==> exists n :: 0 <= n < |nodes| && Covers(nodes, n, segLo, segHi) && src == PortNode(n, segLo, segHi)
  {
    sources := [];
    for n := 0 to |nodes|
      invariant forall src :: src in sources <==> exists m :: 0 <= m < n && Covers(nodes, m, segLo, segHi) && src == PortNode(m, segLo, segHi)
    {
      if Covers(nodes, n, segLo, segHi) {
        sources := sources + [PortNode(n, segLo, segHi)];
      }
    }
  }

  /** A node of the port starts at `y`, or ends just before it. */
  ghost predicate IsNodeEnd(nodes: PortNodes, y: int) {
    exists n :: 0 <= n < |nodes| && nodes[n].Some? && (y == nodes[n].value.Lower() || y == nodes[n].value.Upper() + 1)
  }

  ghost predicate IsPortEnd(nodes: PortNodes, w: nat, y: int) {
    y == 0 || y == w || IsNodeEnd(nodes, y)
  }

  /** The ends of the port and of its nodes, ascending. */
  method NodeCuts(nodes: PortNodes, fullWidth: nat) returns (grid: seq<nat>)
    requires AreBits(nodes) && fullWidth > 0
    ensures Increasing(grid) && EndsOn(nodes, grid) && forall y: nat :: y in grid <==> IsPortEnd(nodes, fullWidth, y)
    ensures |grid| > 1 && grid[0] == 0 && grid[|grid| - 1] == Reach(nodes, fullWidth)
  {
    var cuts: seq<nat> := [0, fullWidth];
    for n := 0 to |nodes|
      invariant forall y: nat :: y in cuts <==> IsPortEnd(nodes[..n], fullWidth, y)
    {
      ghost var before := cuts;
      if nodes[n].Some? {
        cuts := cuts + [nodes[n].value.Lower(), nodes[n].value.Upper() + 1];
      }
      forall y: nat
        ensures y in cuts <==> IsPortEnd(nodes[..n + 1], fullWidth, y)
      {
        assert y in before <==> IsPortEnd(nodes[..n], fullWidth, y);
        MoreEnds(nodes, n, y);
      }
    }
    assert nodes[..|nodes|] == nodes;
    grid := SortedUnique(cuts);
    GridHasEnds(nodes, fullWidth, grid);
    GridSpans(grid, Reach(nodes, fullWidth));
  }

  lemma MoreEnds(nodes: PortNodes, n: nat, y: int)
    requires n < |nodes|
    ensures IsNodeEnd(nodes[..n + 1], y)
            <==> IsNodeEnd(nodes[..n], y) || (nodes[n].Some? && (y == nodes[n].value.Lower() || y == nodes[n].value.Upper() + 1))
  {
    var all, some := nodes[..n + 1], nodes[..n];
    if IsNodeEnd(some, y) {
      var k :| 0 <= k < |some| && some[k].Some? && (y == some[k].value.Lower() || y == some[k].value.Upper() + 1);
      assert all[k] == some[k];
    }
    if nodes[n].Some? && (y == nodes[n].value.Lower() || y == nodes[n].value.Upper() + 1) {
      assert all[n] == nodes[n];
    }
    if IsNodeEnd(all, y) {
      var k :| 0 <= k < |all| && all[k].Some? && (y == all[k].value.Lower() || y == all[k].value.Upper() + 1);
      assert k < n ==> some[k] == all[k];
    }
  }

  lemma GridHasEnds(nodes: PortNodes, w: nat, grid: seq<nat>)
    requires AreBits(nodes) && forall y: nat :: y in grid <==> IsPortEnd(nodes, w, y)
    ensures EndsOn(nodes, grid) && 0 in grid && Reach(nodes, w) in grid && forall y :: y in grid ==> y <= Reach(nodes, w)
  {
    forall n | 0 <= n < |nodes| && nodes[n].Some?
      ensures nodes[n].value.Lower() in grid && nodes[n].value.Upper() + 1 in grid
    {
      var lower: nat, upper: nat := nodes[n].value.Lower(), nodes[n].value.Upper() + 1;
      assert IsPortEnd(nodes, w, lower) && IsPortEnd(nodes, w, upper);
    }
    assert IsPortEnd(nodes, w, 0) && IsPortEnd(nodes, w, w);
    var reach := Reach(nodes, w);
    assert IsPortEnd(nodes, w, reach);
  }

  lemma GridSpans(grid: seq<nat>, reach: nat)
    requires Increasing(grid) && 0 in grid && reach in grid && reach > 0 && forall y :: y in grid ==> y <= reach
    ensures |grid| > 1 && grid[0] == 0 && grid[|grid| - 1] == reach
  {
    assert grid[0] in grid && grid[|grid| - 1] in grid;
    var i :| 0 <= i < |grid| && grid[i] == 0;
    var j :| 0 <= j < |grid| && grid[j] == reach;
    assert grid[0] <= grid[i] && grid[j] <= grid[|grid| - 1];
  }

  ghost predicate NamesCoveringNodes(slice: Slice, nodes: PortNodes) {
    forall src :: src in slice.sources <==>
      exists n :: 0 <= n < |nodes| && Covers(nodes, n, slice.lo, slice.hi) && src == PortNode(n, slice.lo, slice.hi)
  }

  ghost predicate NodeAt(sources: seq<Source>, n: nat) {
    exists src :: src in sources && src.PortNode? && src.node == n
  }

  /** At every bit of the port the list names exactly the nodes whose bounds hold it. */
  ghost predicate NamesNodes(slices: seq<Slice>, nodes: PortNodes, w: nat) {
    forall p: nat, n: nat {:trigger Covers(nodes, n, p, p + 1)} :: p < w ==>
      (NodeAt(SourcesAt(slices, p), n) <==> Covers(nodes, n, p, p + 1))
  }

  ghost predicate FollowsGrid(slices: seq<Slice>, grid: seq<nat>, nodes: PortNodes) {
    && |slices| <= |grid|
    && (forall k :: 0 <= k < |slices| && k + 1 < |grid| ==> slices[k].lo == grid[k] && slices[k].hi == grid[k + 1])
    && (forall k :: 0 <= k < |slices| ==> NamesCoveringNodes(slices[k], nodes))
  }

  lemma {:induction false} GridTilesPort(slices: seq<Slice>, grid: seq<nat>, nodes: PortNodes, k: nat)
    requires Increasing(grid) && FollowsGrid(slices, grid, nodes) && |slices| == |grid| - 1 && k < |grid|
    ensures Tiles(slices[k..], grid[k], grid[|grid| - 1])
    decreases |grid| - k
  {
    if k + 1 < |grid| {
      GridTilesPort(slices, grid, nodes, k + 1);
      assert slices[k..][1..] == slices[k + 1..];
    }
  }

  lemma PortListIsExact(slices: seq<Slice>, grid: seq<nat>, nodes: PortNodes, w: nat, p: nat, n: nat)
    requires Increasing(grid) && EndsOn(nodes, grid) && |grid| > 1 && grid[0] == 0 && grid[|grid| - 1] == w
    requires FollowsGrid(slices, grid, nodes) && |slices| == |grid| - 1 && p < w && Tiles(slices, 0, w)
    ensures NodeAt(SourcesAt(slices, p), n) <==> Covers(nodes, n, p, p + 1)
  {
    var k := TilesFind(slices, 0, w, p);
    assert NamesCoveringNodes(slices[k], nodes);
    CoversAllOrNone(nodes, n, grid, k, p);
    if n < |nodes| && Covers(nodes, n, grid[k], grid[k + 1]) {
      assert PortNode(n, grid[k], grid[k + 1]) in slices[k].sources;
    }
  }

  /** The slices of a port start at its ends and nowhere else. */
  lemma PortListStarts(slices: seq<Slice>, grid: seq<nat>, nodes: PortNodes, y: nat)
    requires Increasing(grid) && |grid| > 1 && FollowsGrid(slices, grid, nodes) && |slices| == |grid| - 1 && y < grid[|grid| - 1]
    ensures StartsAt(slices, y) <==> y in grid
  {
    if StartsAt(slices, y) {
      var k :| 0 <= k < |slices| && slices[k].lo == y;
      assert grid[k] == y;
    }
    if y in grid {
      var k :| 0 <= k < |grid| && grid[k] == y;
      assert slices[k].lo == y;
    }
  }

  lemma PortListNames(slices: seq<Slice>, grid: seq<nat>, nodes: PortNodes, w: nat)
    requires Increasing(grid) && EndsOn(nodes, grid) && |grid| > 1 && grid[0] == 0 && grid[|grid| - 1] == w
    requires FollowsGrid(slices, grid, nodes) && |slices| == |grid| - 1
    ensures Tiles(slices, 0, w) && NamesNodes(slices, nodes, w)
  {
    GridTilesPort(slices, grid, nodes, 0);
    assert slices[0..] == slices;
    forall p: nat, n: nat | p < w
      ensures NodeAt(SourcesAt(slices, p), n) <==> Covers(nodes, n, p, p + 1)
    {
      PortListIsExact(slices, grid, nodes, w, p, n);
    }
  }

  lemma MoreGrid(slices: seq<Slice>, slice: Slice, grid: seq<nat>, nodes: PortNodes)
    requires FollowsGrid(slices, grid, nodes) && |slices| + 1 < |grid| && NamesCoveringNodes(slice, nodes)
    requires slice.lo == grid[|slices|] && slice.hi == grid[|slices| + 1]
    ensures FollowsGrid(slices + [slice], grid, nodes)
  {
  }

  /** The slices of a port: one per stretch between its ends and those of its nodes, with the nodes that cover it. */
  method BuildPortSliceList(nodes: PortNodes, fullWidth: nat) returns (slices: seq<Slice>)
    requires AreBits(nodes)
    ensures var w := if fullWidth == 0 then 0 else Reach(nodes, fullWidth); Tiles(slices, 0, w) && NamesNodes(slices, nodes, w)
    ensures fullWidth > 0 ==> forall y: nat :: y < Reach(nodes, fullWidth) ==> (StartsAt(slices, y) <==> IsPortEnd(nodes, fullWidth, y))
  {
    slices := [];
    if fullWidth == 0 {
      return;
    }
    var cuts := NodeCuts(nodes, fullWidth);
    for i := 0 to |cuts| - 1
      invariant |slices| == i && FollowsGrid(slices, cuts, nodes)
    {
      var sources := CoveringNodes(nodes, cuts[i], cuts[i + 1]);
      var slice := Slice(cuts[i], cuts[i + 1], sources);
      MoreGrid(slices, slice, cuts, nodes);
      slices := slices + [slice];
    }
    PortListNames(slices, cuts, nodes, Reach(nodes, fullWidth));
    forall y: nat | y < Reach(nodes, fullWidth)
      ensures StartsAt(slices, y) <==> IsPortEnd(nodes, fullWidth, y)
    {
      PortListStarts(slices, cuts, nodes, y);
    }
  }

  /** A port node and what it is linked to: read by an input, driven by an output. */
  datatype Link = Link(node: nat, read: Read)

  method SegmentNodes(sources: seq<Source>) returns (nodes: seq<nat>)
    ensures forall n: nat :: n in nodes <==> NodeAt(sources, n)
  {
    nodes := [];
    for i := 0 to |sources|
      invariant forall n: nat :: n in nodes <==> NodeAt(sources[..i], n)
    {
      assert sources[..i + 1] == sources[..i] + [sources[i]];
      if sources[i].PortNode? {
        nodes := nodes + [sources[i].node];
      }
    }
    assert sources[..|sources|] == sources;
  }

  /** What a port does not take from its actual: the selectors of a path and, for an output, constants. */
  predicate Taken(r: Read, isOutput: bool) {
    !r.ReadSelector? && !(isOutput && r.ReadConstant?)
  }

  /** What of an actual's source every node of the segment is linked to, if anything. */
  function LinkedRead(src: Source, seg: Segment, isOutput: bool): Option<Read>
    requires Fits(src, seg.lo, seg.hi) && seg.lo < seg.hi
  {
    match src
    case Lsp(root, _, _, _) => Some(ReadBits(root.symbol, DriveRange(src, seg)))
    case Opaque(e) => Some(ReadExpr(e))
    case Constant(_, _, _) => if isOutput then None else Some(ReadConstant(ConstantForSegment(src, seg)))
    case _ => None
  }

  lemma LinkedReadIsTaken(src: Source, seg: Segment, isOutput: bool, r: Read)
    requires Fits(src, seg.lo, seg.hi) && seg.lo < seg.hi
    ensures r in ReadOf(src, seg) && Taken(r, isOutput) <==> LinkedRead(src, seg, isOutput) == Some(r)
  {
    if src.Lsp? && !r.ReadSelector? {
      assert r in ReadOf(src, seg) <==> r == ReadBits(src.root.symbol, DriveRange(src, seg));
    }
  }

  /** Every node of the segment is linked to every source on the other side. */
  method DrivePortSegment(seg: Segment, isOutput: bool) returns (links: seq<Link>)
    requires seg.lo < seg.hi && AllFit(seg.rhsSources, seg.lo, seg.hi)
    ensures forall n: nat, r :: Link(n, r) in links
                                <==> NodeAt(seg.lhsSources, n) && r in ReadsOf(seg.rhsSources, seg) && Taken(r, isOutput)
  {
    links := [];
    var portNodes := SegmentNodes(seg.lhsSources);
    if portNodes == [] {
      return;
    }
    var sources := seg.rhsSources;
    assert sources[..|sources|] == sources;
    for i := 0 to |sources|
      invariant AllFit(sources[..i], seg.lo, seg.hi) && LinksTo(links, portNodes, ReadsOf(sources[..i], seg), isOutput)
    {
      assert sources[i] in sources && sources[..i + 1][..i] == sources[..i];
      var read := LinkedRead(sources[i], seg, isOutput);
      ghost var before := links;
      if read.Some? {
        links := LinkAll(links, portNodes, read.value);
      }
      MoreLinks(before, links, portNodes, ReadsOf(sources[..i], seg), sources[i], seg, isOutput);
    }
  }

  /** The links are those of every node in `portNodes` to everything taken of `items`. */
  ghost predicate LinksTo(links: seq<Link>, portNodes: seq<nat>, items: seq<Read>, isOutput: bool) {
    forall l :: l in links <==> l.node in portNodes && l.read in items && Taken(l.read, isOutput)
  }

  lemma MoreLinks(links: seq<Link>, more: seq<Link>, portNodes: seq<nat>, items: seq<Read>, src: Source, seg: Segment, isOutput: bool)
    requires Fits(src, seg.lo, seg.hi) && seg.lo < seg.hi && LinksTo(links, portNodes, items, isOutput)
    requires var read := LinkedRead(src, seg, isOutput);
             forall l :: l in more <==> l in links || (l.node in portNodes && read == Some(l.read))
    ensures LinksTo(more, portNodes, items + ReadOf(src, seg), isOutput)
  {
    forall l
      ensures l in more <==> l.node in portNodes && l.read in items + ReadOf(src, seg) && Taken(l.read, isOutput)
    {
      LinkedReadIsTaken(src, seg, isOutput, l.read);
    }
  }

  method LinkAll(links: seq<Link>, portNodes: seq<nat>, r: Read) returns (more: seq<Link>)
    ensures forall l :: l in more <==> l in links || (l.node in portNodes && l.read == r)
  {
    more := links;
    for j := 0 to |portNodes|
      invariant forall l :: l in more <==> l in links || (l.node in portNodes[..j] && l.read == r)
    {
      assert portNodes[..j + 1] == portNodes[..j] + [portNodes[j]];
      more := more + [Link(portNodes[j], r)];
    }
    assert portNodes[..|portNodes|] == portNodes;
  }

  /** Bit `i` of what node `n` is linked to. */
  ghost predicate LinksDep(links: seq<Link>, i: int, n: nat, dep: Dep) {
    exists r :: Link(n, r) in links && Reaches(r, i) && ReadSays(r, i) == dep
  }

  /** What a link can stand for: no sign padding and no selector and, for an output, no constant. */
  predicate Carried(dep: Dep, isOutput: bool) {
    dep != SignBit && !dep.Chooser? && !(isOutput && dep.ConstantBit?)
  }

  /** The links at bit `p` are those of the nodes that cover it to what the actual depends on there. */
  ghost predicate IsLinked(links: seq<Link>, lo: nat, nodes: PortNodes, deps: set<Dep>, isOutput: bool, p: nat) {
    forall n: nat, dep {:trigger LinksDep(links, p - lo, n, dep)} ::
      LinksDep(links, p - lo, n, dep)
      <==> Covers(nodes, n, p, p + 1) && dep in deps && Carried(dep, isOutput)
  }

  ghost predicate LinksSegment(links: seq<Link>, seg: Segment, isOutput: bool) {
    && seg.lo < seg.hi && AllFit(seg.rhsSources, seg.lo, seg.hi)
    && forall n: nat, r :: Link(n, r) in links
                           <==> NodeAt(seg.lhsSources, n) && r in ReadsOf(seg.rhsSources, seg) && Taken(r, isOutput)
  }

  lemma SegmentIsLinked(seg: Segment, links: seq<Link>, nodes: PortNodes, isOutput: bool, p: nat, deps: set<Dep>, items: seq<Read>)
    requires LinksSegment(links, seg, isOutput) && seg.Has(p)
    requires deps == SaysAll(seg.rhsSources, p) && items == ReadsOf(seg.rhsSources, seg)
    requires forall n: nat :: NodeAt(seg.lhsSources, n) <==> Covers(nodes, n, p, p + 1)
    ensures IsLinked(links, seg.lo, nodes, deps, isOutput, p)
  {
    forall n: nat, dep {:trigger LinksDep(links, p - seg.lo, n, dep)}
      ensures LinksDep(links, p - seg.lo, n, dep) <==> Covers(nodes, n, p, p + 1) && dep in deps && Carried(dep, isOutput)
    {
      ReadsSay(seg.rhsSources, seg, p, dep);
      LinksSayWhatIsRead(links, seg, isOutput, items, p - seg.lo, n, dep);
    }
  }

  lemma LinksSayWhatIsRead(links: seq<Link>, seg: Segment, isOutput: bool, items: seq<Read>, i: int, n: nat, dep: Dep)
    requires LinksSegment(links, seg, isOutput) && items == ReadsOf(seg.rhsSources, seg)
    ensures LinksDep(links, i, n, dep)
            <==> NodeAt(seg.lhsSources, n) && ReadsDep(items, i, dep) && !dep.Chooser? && !(isOutput && dep.ConstantBit?)
  {
    if LinksDep(links, i, n, dep) {
      var r :| Link(n, r) in links && Reaches(r, i) && ReadSays(r, i) == dep;
      assert r in items && Taken(r, isOutput);
    }
    if NodeAt(seg.lhsSources, n) && ReadsDep(items, i, dep) && !dep.Chooser? && !(isOutput && dep.ConstantBit?) {
      var r :| r in items && Reaches(r, i) && ReadSays(r, i) == dep;
      assert Link(n, r) in links;
    }
  }

  /** The links span exactly the positions of the segment, and are right at each of them. */
  ghost predicate LinkedThroughout(links: seq<Link>, seg: Segment, nodes: PortNodes, e: Expr, isOutput: bool) {
    && (forall l :: l in links ==> Spans(l.read, seg.hi - seg.lo))
    && forall p: nat {:trigger seg.Has(p)} :: seg.Has(p) ==> IsLinked(links, seg.lo, nodes, Deps(e, p), isOutput, p)
  }

  lemma PortSegmentIsLinked(portList: seq<Slice>, nodes: PortNodes, e: Expr, w: nat, segs: seq<Segment>, k: nat, links: seq<Link>, isOutput: bool)
    requires Sized(e, map[]) && Width(e) == w && k < |segs|
    requires NamesNodes(portList, nodes, w) && Aligned(segs, portList, Slices(e, 0, map[]), w)
    requires LinksSegment(links, segs[k], isOutput)
    ensures LinkedThroughout(links, segs[k], nodes, e, isOutput)
  {
    Ascending(segs, 0, w);
    var seg := segs[k];
    ReadsSpan(seg.rhsSources, seg);
    forall l | l in links
      ensures Spans(l.read, seg.hi - seg.lo)
    {
      assert Link(l.node, l.read) == l;
    }
    forall p: nat | seg.Has(p)
      ensures IsLinked(links, seg.lo, nodes, Deps(e, p), isOutput, p)
    {
      PositionIsExact(e, map[], w, p);
      assert forall n: nat :: NodeAt(seg.lhsSources, n) <==> Covers(nodes, n, p, p + 1);
      SegmentIsLinked(seg, links, nodes, isOutput, p, Deps(e, p), ReadsOf(seg.rhsSources, seg));
    }
  }

  lemma LinkIsMeant(links: seq<Link>, lo: nat, nodes: PortNodes, deps: set<Dep>, isOutput: bool, p: nat, l: Link)
    requires IsLinked(links, lo, nodes, deps, isOutput, p) && l in links && Reaches(l.read, p - lo)
    ensures Covers(nodes, l.node, p, p + 1) && ReadSays(l.read, p - lo) in deps
  {
    var dep := ReadSays(l.read, p - lo);
    assert Link(l.node, l.read) in links;
    assert LinksDep(links, p - lo, l.node, dep);
  }

  /** No link reaches beyond its segment: each bit of a linked range is one the actual depends on where the node covers. */
  lemma LinkedBitsStand(links: seq<Link>, seg: Segment, nodes: PortNodes, e: Expr, isOutput: bool, l: Link, b: int)
    requires LinkedThroughout(links, seg, nodes, e, isOutput) && l in links && l.read.ReadBits? && l.read.bounds.Has(b)
    ensures var p := seg.lo + (b - l.read.bounds.Lower());
            seg.Has(p) && Covers(nodes, l.node, p, p + 1) && SymbolBit(l.read.symbol, b) in Deps(e, p)
  {
    var p: nat := seg.lo + (b - l.read.bounds.Lower());
    assert Spans(l.read, seg.hi - seg.lo) && seg.Has(p);
    LinkIsMeant(links, seg.lo, nodes, Deps(e, p), isOutput, p, l);
  }

  lemma ActualSourcesFit(portList: seq<Slice>, e: Expr, w: nat, segs: seq<Segment>, k: nat)
    requires Sized(e, map[]) && Width(e) == w && k < |segs| && Aligned(segs, portList, Slices(e, 0, map[]), w)
    ensures segs[k].lo < segs[k].hi && AllFit(segs[k].rhsSources, segs[k].lo, segs[k].hi)
  {
    Ascending(segs, 0, w);
    ListHasWidth(e, map[]);
    SlicesFit(e, 0, map[]);
    assert segs[k].Has(segs[k].lo) && segs[k].Has(segs[k].hi - 1);
    SegmentStaysFitting(Slices(e, 0, map[]), w, segs[k], segs[k].rhsSources);
  }

  /** The outcome of a connection: the whole-port walk takes over, or one list of links per segment. */
  datatype Connection = FallBack | Linked(segs: seq<Segment>, links: seq<seq<Link>>)

  /** Every bit of the port, in the one segment that holds it, links its nodes to what the actual depends on at that bit. */
  method HandlePortConnection(nodes: PortNodes, portWidth: nat, e: Expr, isOutput: bool) returns (c: Connection)
    requires AreBits(nodes) && Sized(e, map[])
    ensures c.FallBack? <==> portWidth > 0 && Width(e) != Reach(nodes, portWidth)
    ensures c.Linked? ==> |c.links| == |c.segs| && Consecutive(c.segs, 0, if portWidth == 0 then 0 else Width(e))
    ensures c.Linked? ==> forall k :: 0 <= k < |c.segs| ==> LinkedThroughout(c.links[k], c.segs[k], nodes, e, isOutput)
    ensures c.Linked? && portWidth > 0 ==>
              forall p: nat :: 0 < p < Width(e) ==> (SegmentStartsAt(c.segs, p) <==> IsPortEnd(nodes, portWidth, p) || IsJoint(e, p, map[]))
  {
    var portList := BuildPortSliceList(nodes, portWidth);
    TilesReach(portList, 0, if portWidth == 0 then 0 else Reach(nodes, portWidth));
    if EndOf(portList) == 0 {
      return Linked([], []);
    }
    var actualList := BuildList(e, map[]);
    ListHasWidth(e, map[]);
    if EndOf(portList) != EndOf(actualList) {
      return FallBack;
    }
    var segs := AlignSegments(portList, actualList, Width(e));
    forall p: nat | 0 < p < Width(e)
      ensures SegmentStartsAt(segs, p) <==> IsPortEnd(nodes, portWidth, p) || IsJoint(e, p, map[])
    {
      SegmentsStart(segs, portList, actualList, Width(e), p);
      SlicesStartAtJoints(e, 0, map[], p, p);
    }
    var links := DrivePortSegments(portList, nodes, e, Width(e), segs, isOutput);
    c := Linked(segs, links);
  }

  method DrivePortSegments(ghost portList: seq<Slice>, ghost nodes: PortNodes, ghost e: Expr, ghost w: nat, segs: seq<Segment>, isOutput: bool)
    returns (links: seq<seq<Link>>)
    requires Sized(e, map[]) && Width(e) == w
    requires NamesNodes(portList, nodes, w) && Aligned(segs, portList, Slices(e, 0, map[]), w)
    ensures |links| == |segs| && forall k :: 0 <= k < |segs| ==> LinkedThroughout(links[k], segs[k], nodes, e, isOutput)
  {
    links := [];
    for k := 0 to |segs|
      invariant |links| == k
      invariant forall j :: 0 <= j < k ==> LinkedThroughout(links[j], segs[j], nodes, e, isOutput)
    {
      ActualSourcesFit(portList, e, w, segs, k);
      var driven := DrivePortSegment(segs[k], isOutput);
      PortSegmentIsLinked(portList, nodes, e, w, segs, k, driven, isOutput);
      links := links + [driven];
    }
  }
}
