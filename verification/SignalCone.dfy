/**
  Bit-precise driver queries and bounded breadth-first cones of a signal
  (source/NetlistGraph.cpp, getBitDrivers, getSignalCombFanIn, getSignalCombFanOut).
  */
module SignalCone {
  import opened Wrappers
  import opened BitRanges
  import opened Netlist
  import opened DepthFirstSearch
  import opened CombFan
  import opened GraphSteps
  import opened Walks

  predicate Names(e: Edge, name: string) {
    e.note.symbol.Some? && e.note.symbol.value.path == name
  }

  datatype BitDriver = BitDriver(bounds: BitRange, driver: Node)

  /** Ascending by low bit, then high bit, then driver. */
  predicate Before(a: BitDriver, b: BitDriver) {
    if a.bounds.Lower() != b.bounds.Lower() then a.bounds.Lower() < b.bounds.Lower()
    else if a.bounds.Upper() != b.bounds.Upper() then a.bounds.Upper() < b.bounds.Upper()
    else a.driver < b.driver
  }

  /** Inserts `d` unless an equal entry is there already (std::sort with std::unique). */
  method InsertUnique(sorted: seq<BitDriver>, d: BitDriver) returns (r: seq<BitDriver>)
    requires forall i, j :: 0 <= i < j < |sorted| ==> Before(sorted[i], sorted[j])
    requires d.bounds == d.bounds.Normalized() && forall c :: c in sorted ==> c.bounds == c.bounds.Normalized()
    ensures forall i, j :: 0 <= i < j < |r| ==> Before(r[i], r[j])
    ensures forall c :: c in r <==> c in sorted || c == d
  {
    var k := 0;
    while k < |sorted| && Before(sorted[k], d)
      invariant k <= |sorted| && forall i :: 0 <= i < k ==> Before(sorted[i], d)
    {
      k := k + 1;
    }
    if k < |sorted| && sorted[k] == d {
      return sorted;
    }
    r := sorted[..k] + [d] + sorted[k..];
    assert sorted == sorted[..k] + sorted[k..];
  }

  ghost predicate IsEdge(g: Graph, e: Edge)
    requires g.Shaped()
  {
    g.HasNode(e.source) && e in g.outEdges[e.source]
  }

  /** What an edge contributes to the query: its source, over the queried bits its label covers. */
  function Clip(e: Edge, name: string, bounds: BitRange): Option<BitDriver> {
    if !Names(e, name) then
      None
    else
      match e.note.bounds.Intersection(bounds)
      case None => None
      case Some(clipped) => Some(BitDriver(clipped, e.source))
  }

  /**
    One entry per edge that drives some queried bit, clipped to the query, in bit
    order without duplicates. Node positions stand for the pointers the source sorts by.
    */
  method GetBitDrivers(g: Graph, name: string, bounds: BitRange) returns (r: seq<BitDriver>)
    requires g.Valid()
    ensures forall i, j :: 0 <= i < j < |r| ==> Before(r[i], r[j])
    ensures forall c :: c in r <==> exists e :: IsEdge(g, e) && Clip(e, name, bounds) == Some(c)
  {
    r := [];
    for n := 0 to |g.nodes|
      invariant forall i, j :: 0 <= i < j < |r| ==> Before(r[i], r[j])
      invariant forall c :: c in r <==> exists e :: IsEdge(g, e) && e.source < n && Clip(e, name, bounds) == Some(c)
      invariant forall c :: c in r ==> c.bounds == c.bounds.Normalized()
    {
      for k := 0 to |g.outEdges[n]|
        invariant forall i, j :: 0 <= i < j < |r| ==> Before(r[i], r[j])
        invariant forall c :: c in r <==> exists e :: IsEdge(g, e) && (e.source < n || e in g.outEdges[n][..k])
                                                     && Clip(e, name, bounds) == Some(c)
        invariant forall c :: c in r ==> c.bounds == c.bounds.Normalized()
      {
        var edge := g.outEdges[n][k];
        assert IsEdge(g, edge) && edge.source == n;
        assert g.outEdges[n][..k + 1] == g.outEdges[n][..k] + [edge];
        var clip := Clip(edge, name, bounds);
        if clip.Some? {
          r := InsertUnique(r, clip.value);
        }
      }
      assert g.outEdges[n][..|g.outEdges[n]|] == g.outEdges[n];
    }
  }

  /** Bit by bit, the entries name exactly the sources of edges labelled with that bit of the signal. */
  lemma BitDriversAreExact(g: Graph, name: string, bounds: BitRange, r: seq<BitDriver>, d: Node, b: int)
    requires g.Shaped() && forall c :: c in r <==> exists e :: IsEdge(g, e) && Clip(e, name, bounds) == Some(c)
    ensures (exists c :: c in r && c.driver == d && c.bounds.Has(b)) <==> bounds.Has(b) && DrivesBit(g, d, name, b)
  {
    if c :| c in r && c.driver == d && c.bounds.Has(b) {
      var e :| IsEdge(g, e) && Clip(e, name, bounds) == Some(c);
      assert e.note.bounds.Has(b);
    }
    if bounds.Has(b) && DrivesBit(g, d, name, b) {
      var e :| IsEdge(g, e) && e.source == d && Names(e, name) && e.note.bounds.Has(b);
      var clip := Clip(e, name, bounds);
      assert clip.Some? && clip.value in r;
    }
  }

  /** Some edge out of `d` is labelled with bit `b` of the signal. */
  ghost predicate DrivesBit(g: Graph, d: Node, name: string, b: int)
    requires g.Shaped()
  {
    exists e :: IsEdge(g, e) && e.source == d && Names(e, name) && e.note.bounds.Has(b)
  }

  /** Follows enabled edges backward, never past a State node. */
  function SignalFanInSearch(g: Graph): Search {
    Search(g, Backward, e => EntersComb(g, e))
  }

  /** The worklist entry `k` is reached in its depth. */
  ghost predicate InDepth(h: Hops, roots: set<Node>, entry: (Node, nat))
  {
    exists p :: WalkFromRoot(h, roots, p, entry.0) && |p| == entry.1 + 1
  }

  /** Every entry is reached in its depth; depths rise, by at most one over the entry at `index`. */
  ghost predicate WorkOk(h: Hops, roots: set<Node>, work: seq<(Node, nat)>, index: nat)
  {
    && (forall k {:trigger InDepth(h, roots, work[k])} :: 0 <= k < |work| ==> InDepth(h, roots, work[k]))
    && (forall i, j :: 0 <= i < j < |work| ==> work[i].0 != work[j].0 && work[i].1 <= work[j].1)
    && (forall k :: index <= k < |work| ==> work[k].1 <= work[index].1 + 1)
    && (forall v :: v in roots ==> (v, 0) in work)
  }

  ghost predicate Listed(work: seq<(Node, nat)>, v: Node, limit: nat) {
    exists k :: 0 <= k < |work| && work[k].0 == v && work[k].1 <= limit
  }

  /** Each hop of the entry leads to a listed node, at most one deeper. */
  ghost predicate Expanded(h: Hops, work: seq<(Node, nat)>, entry: (Node, nat))
  {
    forall v :: h(entry.0, v) ==> Listed(work, v, entry.1 + 1)
  }

  lemma ListedStays(work: seq<(Node, nat)>, more: seq<(Node, nat)>, v: Node, limit: nat)
    requires Listed(work, v, limit)
    ensures Listed(work + more, v, limit)
  {
    var k :| 0 <= k < |work| && work[k].0 == v && work[k].1 <= limit;
    assert (work + more)[k] == work[k];
  }

  lemma PushKeepsWork(h: Hops, roots: set<Node>, work: seq<(Node, nat)>, index: nat, v: Node)
    requires WorkOk(h, roots, work, index) && index < |work|
    requires h(work[index].0, v) && forall k :: 0 <= k < |work| ==> work[k].0 != v
    ensures WorkOk(h, roots, work + [(v, work[index].1 + 1)], index)
  {
    assert InDepth(h, roots, work[index]);
    var p :| WalkFromRoot(h, roots, p, work[index].0) && |p| == work[index].1 + 1;
    WalkExtends(h, p, v);
    assert WalkFromRoot(h, roots, p + [v], v);
    assert InDepth(h, roots, (v, work[index].1 + 1));
  }

  /** A worklist with no entry left to expand and none beyond the limit. */
  ghost predicate Finished(h: Hops, roots: set<Node>, work: seq<(Node, nat)>, maxDepth: nat) {
    && WorkOk(h, roots, work, |work|)
    && (forall k :: 0 <= k < |work| ==> maxDepth == 0 || work[k].1 <= maxDepth)
    && (forall k :: 0 <= k < |work| && (maxDepth == 0 || work[k].1 < maxDepth) ==> Expanded(h, work, work[k]))
  }

  /** With every entry below the limit expanded, a walk within the limit ends at a node listed no deeper. */
  lemma {:induction false} WalkIsListed(h: Hops, roots: set<Node>, work: seq<(Node, nat)>, maxDepth: nat, p: seq<Node>)
    requires Finished(h, roots, work, maxDepth) && p != [] && WalkFromRoot(h, roots, p, p[|p| - 1])
    requires maxDepth != 0 ==> |p| - 1 <= maxDepth
    ensures Listed(work, p[|p| - 1], |p| - 1)
    decreases |p|
  {
    if |p| == 1 {
      assert (p[0], 0) in work;
    } else {
      var q := p[..|p| - 1];
      WalkSplits(h, p);
      WalkIsListed(h, roots, work, maxDepth, q);
      var k :| 0 <= k < |work| && work[k].0 == q[|q| - 1] && work[k].1 <= |q| - 1;
      assert Expanded(h, work, work[k]);
    }
  }

  /** Then the listed depth of every entry is its distance. */
  lemma DepthIsDistance(h: Hops, roots: set<Node>, work: seq<(Node, nat)>, maxDepth: nat, k: nat)
    requires Finished(h, roots, work, maxDepth) && k < |work|
    ensures IsDistance(h, roots, work[k].0, work[k].1)
  {
    assert InDepth(h, roots, work[k]);
    forall p | WalkFromRoot(h, roots, p, work[k].0)
      ensures |p| >= work[k].1 + 1
    {
      if |p| < work[k].1 + 1 {
        WalkIsListed(h, roots, work, maxDepth, p);
      }
    }
  }

  /** The first components of the worklist, in order. */
  function NodesOf(work: seq<(Node, nat)>): (r: seq<Node>)
    ensures |r| == |work| && forall k :: 0 <= k < |work| ==> r[k] == work[k].0
  {
    seq(|work|, k requires 0 <= k < |work| => work[k].0)
  }

  /**
    `result` lists exactly the nodes within the depth limit, each once, by rising
    distance. A zero limit means none.
    */
  ghost predicate IsCone(h: Hops, roots: set<Node>, maxDepth: nat, result: seq<Node>) {
    && Distinct(result)
    && (forall v :: v in result <==> exists d: nat :: IsDistance(h, roots, v, d) && (maxDepth == 0 || d <= maxDepth))
    && (forall i, j, d: nat, e: nat :: 0 <= i < j < |result| && IsDistance(h, roots, result[i], d) && IsDistance(h, roots, result[j], e) ==> d <= e)
  }

  lemma OneDistance(h: Hops, roots: set<Node>, v: Node, d: nat, e: nat)
    requires IsDistance(h, roots, v, d) && IsDistance(h, roots, v, e)
    ensures d == e
  {
  }

  /** Every node within the limit is listed. */
  lemma WithinLimitIsListed(h: Hops, roots: set<Node>, work: seq<(Node, nat)>, maxDepth: nat, v: Node, d: nat)
    requires Finished(h, roots, work, maxDepth) && IsDistance(h, roots, v, d) && (maxDepth == 0 || d <= maxDepth)
    ensures v in NodesOf(work)
  {
    var p :| WalkFromRoot(h, roots, p, v) && |p| == d + 1;
    WalkIsListed(h, roots, work, maxDepth, p);
    var k :| 0 <= k < |work| && work[k].0 == v && work[k].1 <= d;
    assert NodesOf(work)[k] == v;
  }

  lemma FinishedWorkIsCone(h: Hops, roots: set<Node>, work: seq<(Node, nat)>, maxDepth: nat)
    requires Finished(h, roots, work, maxDepth)
    ensures IsCone(h, roots, maxDepth, NodesOf(work))
  {
    var result := NodesOf(work);
    forall v
      ensures v in result <==> exists d: nat :: IsDistance(h, roots, v, d) && (maxDepth == 0 || d <= maxDepth)
    {
      if v in result {
        var k :| 0 <= k < |result| && result[k] == v;
        DepthIsDistance(h, roots, work, maxDepth, k);
      }
      if d: nat :| IsDistance(h, roots, v, d) && (maxDepth == 0 || d <= maxDepth) {
        WithinLimitIsListed(h, roots, work, maxDepth, v, d);
      }
    }
    forall i, j, d: nat, e: nat | 0 <= i < j < |result| && IsDistance(h, roots, result[i], d) && IsDistance(h, roots, result[j], e)
      ensures d <= e
    {
      DepthIsDistance(h, roots, work, maxDepth, i);
      DepthIsDistance(h, roots, work, maxDepth, j);
      OneDistance(h, roots, result[i], d, work[i].1);
      OneDistance(h, roots, result[j], e, work[j].1);
    }
  }

  lemma ExpandedStays(h: Hops, work: seq<(Node, nat)>, more: seq<(Node, nat)>, entry: (Node, nat))
    requires Expanded(h, work, entry)
    ensures Expanded(h, work + more, entry)
  {
    forall v | h(entry.0, v)
      ensures Listed(work + more, v, entry.1 + 1)
    {
      ListedStays(work, more, v, entry.1 + 1);
    }
  }

  /** The usable ones among the first `i` edges of the entry lead to listed nodes. */
  ghost predicate ExpandedUpTo(s: Search, work: seq<(Node, nat)>, entry: (Node, nat), i: nat)
    requires s.g.Shaped() && s.g.HasNode(entry.0) && i <= |s.Edges(entry.0)|
  {
    forall j :: 0 <= j < i && s.admit(s.Edges(entry.0)[j]) ==> Listed(work, s.Next(s.Edges(entry.0)[j]), entry.1 + 1)
  }

  lemma ExpandedUpToStays(s: Search, work: seq<(Node, nat)>, more: seq<(Node, nat)>, entry: (Node, nat), i: nat)
    requires s.g.Shaped() && s.g.HasNode(entry.0) && i < |s.Edges(entry.0)|
    requires ExpandedUpTo(s, work, entry, i)
    requires s.admit(s.Edges(entry.0)[i]) ==> Listed(work + more, s.Next(s.Edges(entry.0)[i]), entry.1 + 1)
    ensures ExpandedUpTo(s, work + more, entry, i + 1)
  {
    forall j | 0 <= j < i && s.admit(s.Edges(entry.0)[j])
      ensures Listed(work + more, s.Next(s.Edges(entry.0)[j]), entry.1 + 1)
    {
      ListedStays(work, more, s.Next(s.Edges(entry.0)[j]), entry.1 + 1);
    }
  }

  lemma ExpandedToEnd(s: Search, work: seq<(Node, nat)>, entry: (Node, nat))
    requires s.g.Shaped() && s.g.HasNode(entry.0) && ExpandedUpTo(s, work, entry, |s.Edges(entry.0)|)
    ensures Expanded(s.Hops(), work, entry)
  {
    forall v | s.Hops()(entry.0, v)
      ensures Listed(work, v, entry.1 + 1)
    {
      var e :| s.Usable(entry.0, e) && s.Next(e) == v;
    }
  }

  /** Appends `v` at the next depth unless it has been seen. */
  method PushUnseen(s: Search, ghost roots: set<Node>, work: seq<(Node, nat)>, index: nat, v: Node)
    returns (work': seq<(Node, nat)>, ghost more: seq<(Node, nat)>)
    requires WorkOk(s.Hops(), roots, work, index) && index < |work| && s.Hops()(work[index].0, v) && InGraph(s.g, work)
    requires s.g.HasNode(v)
    ensures work' == work + more && WorkOk(s.Hops(), roots, work', index) && InGraph(s.g, work')
    ensures Listed(work', v, work[index].1 + 1)
    ensures forall k :: 0 <= k < |more| ==> more[k].1 == work[index].1 + 1
  {
    if v in NodesOf(work) {
      work', more := work, [];
      ghost var k :| 0 <= k < |work| && NodesOf(work)[k] == v;
      assert k < index ==> work[k].1 <= work[index].1;
    } else {
      assert forall k :: 0 <= k < |work| ==> NodesOf(work)[k] == work[k].0;
      PushKeepsWork(s.Hops(), roots, work, index, v);
      more := [(v, work[index].1 + 1)];
      work' := work + [(v, work[index].1 + 1)];
      assert work'[|work|].0 == v;
    }
  }

  ghost predicate InGraph(g: Graph, work: seq<(Node, nat)>) {
    forall k :: 0 <= k < |work| ==> g.HasNode(work[k].0)
  }

  /** Adds the unseen hops of the entry at `index` to the end of the worklist. */
  method Expand(s: Search, ghost roots: set<Node>, work: seq<(Node, nat)>, index: nat)
    returns (work': seq<(Node, nat)>, ghost more: seq<(Node, nat)>)
    requires s.Valid() && WorkOk(s.Hops(), roots, work, index) && index < |work| && InGraph(s.g, work)
    ensures work' == work + more && WorkOk(s.Hops(), roots, work', index) && InGraph(s.g, work')
    ensures Expanded(s.Hops(), work', work[index])
    ensures forall k :: 0 <= k < |more| ==> more[k].1 == work[index].1 + 1
  {
    work', more := work, [];
    var (node, depth) := work[index];
    for i := 0 to |s.Edges(node)|
      invariant work' == work + more && WorkOk(s.Hops(), roots, work', index) && InGraph(s.g, work')
      invariant forall k :: 0 <= k < |more| ==> more[k].1 == depth + 1
      invariant ExpandedUpTo(s, work', (node, depth), i)
    {
      var edge := s.Edges(node)[i];
      if !s.admit(edge) {
        continue;
      }
      s.EdgeLeadsToNode(node, i);
      assert s.Usable(node, edge) && s.Hops()(node, s.Next(edge));
      ghost var before, pushed := work', [];
      work', pushed := PushUnseen(s, roots, work', index, s.Next(edge));
      more := more + pushed;
      ExpandedUpToStays(s, before, pushed, (node, depth), i);
    }
    ExpandedToEnd(s, work', (node, depth));
  }

  /** Every entry before `index` that is below the limit has been expanded, and none is beyond it. */
  ghost predicate Explored(h: Hops, work: seq<(Node, nat)>, index: nat, maxDepth: nat) {
    && (forall k :: 0 <= k < |work| ==> maxDepth == 0 || work[k].1 <= maxDepth)
    && (forall k :: 0 <= k < index && k < |work| && (maxDepth == 0 || work[k].1 < maxDepth) ==> Expanded(h, work, work[k]))
  }

  lemma ExploredGrows(h: Hops, work: seq<(Node, nat)>, more: seq<(Node, nat)>, index: nat, maxDepth: nat)
    requires Explored(h, work, index, maxDepth) && index < |work| && Expanded(h, work + more, work[index])
    requires maxDepth == 0 || work[index].1 < maxDepth
    requires forall k :: 0 <= k < |more| ==> more[k].1 == work[index].1 + 1
    ensures Explored(h, work + more, index + 1, maxDepth)
  {
    forall k | 0 <= k < index && (maxDepth == 0 || work[k].1 < maxDepth)
      ensures Expanded(h, work + more, work[k])
    {
      ExpandedStays(h, work, more, work[k]);
    }
  }

  function NodesIn(nodes: seq<Node>): set<Node> {
    set v | v in nodes
  }

  lemma RootsAreWork(h: Hops, roots: seq<Node>, work: seq<(Node, nat)>)
    requires Distinct(roots) && |work| == |roots| && forall k :: 0 <= k < |roots| ==> work[k] == (roots[k], 0)
    ensures WorkOk(h, NodesIn(roots), work, 0)
  {
    forall k | 0 <= k < |work|
      ensures InDepth(h, NodesIn(roots), work[k])
    {
      assert WalkFromRoot(h, NodesIn(roots), [roots[k]], roots[k]);
    }
    forall v | v in roots
      ensures (v, 0) in work
    {
      var k :| 0 <= k < |roots| && roots[k] == v;
      assert work[k] == (v, 0);
    }
  }

  lemma IndexAdvances(h: Hops, roots: set<Node>, work: seq<(Node, nat)>, index: nat)
    requires WorkOk(h, roots, work, index) && index < |work|
    ensures WorkOk(h, roots, work, index + 1)
  {
  }

  /** Breadth-first worklist from `roots`; a zero `maxDepth` means no limit. */
  method Explore(s: Search, roots: seq<Node>, maxDepth: nat) returns (result: seq<Node>)
    requires s.Valid() && Distinct(roots) && forall v :: v in roots ==> s.g.HasNode(v)
    ensures IsCone(s.Hops(), NodesIn(roots), maxDepth, result)
  {
    var work: seq<(Node, nat)> := seq(|roots|, i requires 0 <= i < |roots| => (roots[i], 0));
    RootsAreWork(s.Hops(), roots, work);
    var index := 0;
    while index < |work|
      invariant index <= |work| && WorkOk(s.Hops(), NodesIn(roots), work, index) && InGraph(s.g, work)
      invariant Explored(s.Hops(), work, index, maxDepth)
      decreases |s.g.nodes| - index
    {
      PigeonHole(s.g, work);
      if maxDepth == 0 || work[index].1 < maxDepth {
        ghost var before, more := work, [];
        work, more := Expand(s, NodesIn(roots), work, index);
        ExploredGrows(s.Hops(), before, more, index, maxDepth);
      }
      IndexAdvances(s.Hops(), NodesIn(roots), work, index);
      index := index + 1;
    }
    FinishedWorkIsCone(s.Hops(), NodesIn(roots), work, maxDepth);
    result := NodesOf(work);
  }

  /** Distinct nodes cannot outnumber the graph. */
  lemma PigeonHole(g: Graph, work: seq<(Node, nat)>)
    requires forall i, j :: 0 <= i < j < |work| ==> work[i].0 != work[j].0
    requires forall k :: 0 <= k < |work| ==> g.HasNode(work[k].0)
    ensures |work| <= |g.nodes|
  {
    var listed := set k | 0 <= k < |work| :: work[k].0;
    CountDistinct(work);
    AtMost(listed, |g.nodes|);
  }

  lemma {:induction false} CountDistinct(work: seq<(Node, nat)>)
    requires forall i, j :: 0 <= i < j < |work| ==> work[i].0 != work[j].0
    ensures |set k | 0 <= k < |work| :: work[k].0| == |work|
  {
    if work != [] {
      var front := work[..|work| - 1];
      CountDistinct(front);
      assert (set k | 0 <= k < |work| :: work[k].0) == (set k | 0 <= k < |front| :: front[k].0) + {work[|work| - 1].0};
    }
  }

  lemma {:induction false} AtMost(s: set<Node>, n: nat)
    requires forall x :: x in s ==> x < n
    ensures |s| <= n
  {
    if n > 0 {
      AtMost(s - {n - 1}, n - 1);
    }
  }

  /** The distinct drivers of the queried bits, in entry order. */
  method DriverRoots(drivers: seq<BitDriver>) returns (roots: seq<Node>)
    ensures forall v :: v in roots <==> exists d :: d in drivers && d.driver == v
    ensures Distinct(roots)
  {
    roots := [];
    for k := 0 to |drivers|
      invariant forall v :: v in roots <==> exists i :: 0 <= i < k && drivers[i].driver == v
      invariant Distinct(roots)
    {
      if drivers[k].driver !in roots {
        roots := roots + [drivers[k].driver];
      }
    }
  }

  /** An edge from `v` drives some queried bit. */
  ghost predicate DrivesSome(g: Graph, v: Node, name: string, bounds: BitRange)
    requires g.Shaped()
  {
    exists e :: IsEdge(g, e) && e.source == v && Clip(e, name, bounds).Some?
  }

  ghost function DrivingNodes(g: Graph, name: string, bounds: BitRange): set<Node>
    requires g.Shaped()
  {
    set v: Node | v < |g.nodes| && DrivesSome(g, v, name, bounds)
  }

  lemma SameCone(h: Hops, k: Hops, roots: set<Node>, maxDepth: nat, result: seq<Node>)
    requires SameHops(h, k) && IsCone(h, roots, maxDepth, result)
    ensures IsCone(k, roots, maxDepth, result)
  {
    forall v, d: nat ensures IsDistance(h, roots, v, d) <==> IsDistance(k, roots, v, d) { SameDistance(h, k, roots, v, d); }
  }

  /** A cone lists a node if and only if some walk within the limit leads to it from a root. */
  lemma ConeIsWalks(h: Hops, roots: set<Node>, maxDepth: nat, result: seq<Node>, v: Node)
    requires IsCone(h, roots, maxDepth, result)
    ensures v in result <==> exists p :: WalkFromRoot(h, roots, p, v) && (maxDepth == 0 || |p| - 1 <= maxDepth)
  {
    if p :| WalkFromRoot(h, roots, p, v) && (maxDepth == 0 || |p| - 1 <= maxDepth) {
      var d := DistanceExists(h, roots, p, v);
    }
  }

  lemma ConeIsAllWalks(h: Hops, roots: set<Node>, maxDepth: nat, result: seq<Node>)
    requires IsCone(h, roots, maxDepth, result)
    ensures forall v :: v in result <==> exists p :: WalkFromRoot(h, roots, p, v) && (maxDepth == 0 || |p| - 1 <= maxDepth)
  {
    forall v
      ensures v in result <==> exists p :: WalkFromRoot(h, roots, p, v) && (maxDepth == 0 || |p| - 1 <= maxDepth)
    {
      ConeIsWalks(h, roots, maxDepth, result, v);
    }
  }

  lemma SignalFanInSteps(g: Graph)
    requires g.Valid()
    ensures SameHops(SignalFanInSearch(g).Hops(), StepsBackToState(g))
  {
    forall u: Node, v: Node
      ensures SignalFanInSearch(g).Hops()(u, v) <==> StepsBackToState(g)(u, v)
    {
      var s := SignalFanInSearch(g);
      if s.Hop(u, v) {
        var e :| s.Usable(u, e) && s.Next(e) == v;
        assert e in g.inEdges[u] && !e.note.disabled && e.source == v;
      }
      if StepsIn(g, u, v) && !IsState(g, u) {
        var e :| e in g.inEdges[u] && !e.note.disabled && e.source == v;
        assert s.Usable(u, e) && s.Next(e) == v;
      }
    }
  }

  /** The combinational fan-in of the queried bits, from their drivers back. */
  method GetSignalCombFanIn(g: Graph, name: string, bounds: BitRange, maxDepth: nat) returns (result: seq<Node>)
    requires g.Valid()
    ensures IsCone(StepsBackToState(g), DrivingNodes(g, name, bounds), maxDepth, result)
    ensures forall v :: v in result
                        <==> exists p :: WalkFromRoot(StepsBackToState(g), DrivingNodes(g, name, bounds), p, v)
                                         && (maxDepth == 0 || |p| - 1 <= maxDepth)
  {
    var drivers := GetBitDrivers(g, name, bounds);
    var roots := DriverRoots(drivers);
    forall v
      ensures v in roots <==> DrivesSome(g, v, name, bounds)
    {
      if v in roots {
        var d :| d in drivers && d.driver == v;
        var e :| IsEdge(g, e) && Clip(e, name, bounds) == Some(d);
      }
      if e :| IsEdge(g, e) && e.source == v && Clip(e, name, bounds).Some? {
        assert Clip(e, name, bounds).value in drivers;
      }
    }
    assert NodesIn(roots) == DrivingNodes(g, name, bounds);
    result := Explore(SignalFanInSearch(g), roots, maxDepth);
    SignalFanInSteps(g);
    SameCone(SignalFanInSearch(g).Hops(), StepsBackToState(g), DrivingNodes(g, name, bounds), maxDepth, result);
    ConeIsAllWalks(StepsBackToState(g), DrivingNodes(g, name, bounds), maxDepth, result);
  }

  /** An enabled edge into `v` carries some queried bit. */
  ghost predicate ConsumesSome(g: Graph, v: Node, name: string, bounds: BitRange)
    requires g.Shaped()
  {
    exists e :: Consumes(g, e, name, bounds) && e.target == v
  }

  ghost function ConsumingNodes(g: Graph, name: string, bounds: BitRange): set<Node>
    requires g.Shaped()
  {
    set v: Node | v < |g.nodes| && ConsumesSome(g, v, name, bounds)
  }

  /** The combinational fan-out of the queried bits, from their consumers on. */
  method GetSignalCombFanOut(g: Graph, name: string, bounds: BitRange, maxDepth: nat) returns (result: seq<Node>)
    requires g.Valid()
    ensures IsCone(CombSteps(g), ConsumingNodes(g, name, bounds), maxDepth, result)
    ensures forall v :: v in result
                        <==> exists p :: WalkFromRoot(CombSteps(g), ConsumingNodes(g, name, bounds), p, v)
                                         && (maxDepth == 0 || |p| - 1 <= maxDepth)
  {
    var starts: seq<Node> := [];
    for n := 0 to |g.nodes|
      invariant forall v :: v in starts <==> exists e :: Consumes(g, e, name, bounds) && e.target == v && e.source < n
      invariant Distinct(starts)
    {
      for k := 0 to |g.outEdges[n]|
        invariant forall v :: v in starts <==> exists e :: Consumes(g, e, name, bounds) && e.target == v
                                                         && (e.source < n || e in g.outEdges[n][..k])
        invariant Distinct(starts)
      {
        var edge := g.outEdges[n][k];
        assert IsEdge(g, edge) && edge.source == n;
        assert g.outEdges[n][..k + 1] == g.outEdges[n][..k] + [edge];
        if !edge.note.disabled && Names(edge, name) && edge.note.bounds.Overlaps(bounds) && edge.target !in starts {
          starts := starts + [edge.target];
        }
      }
      assert g.outEdges[n][..|g.outEdges[n]|] == g.outEdges[n];
    }
    assert NodesIn(starts) == ConsumingNodes(g, name, bounds);
    result := Explore(FanOutSearch(g), starts, maxDepth);
    CombHops(FanOutSearch(g));
    SameCone(FanOutSearch(g).Hops(), CombSteps(g), ConsumingNodes(g, name, bounds), maxDepth, result);
    ConeIsAllWalks(CombSteps(g), ConsumingNodes(g, name, bounds), maxDepth, result);
  }

  /** An enabled edge whose label carries some queried bit. */
  ghost predicate Consumes(g: Graph, e: Edge, name: string, bounds: BitRange)
    requires g.Shaped()
  {
    IsEdge(g, e) && !e.note.disabled && Names(e, name) && e.note.bounds.Overlaps(bounds)
  }
}
