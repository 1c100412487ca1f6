/**
  The bit-aligned assignment (source/DataFlowAnalysis.cpp): each segment of the two
  sides becomes one Assignment node, which drives the left-hand bits of the segment
  and reads its right-hand bits (constants through source/NodeFactory.cpp). A path on
  the right has its dynamic selectors read too; one on the left has not.
  */
module Assignments {
  import opened BitRanges
  import opened BitSliceList
  import opened BitSlices
  import opened Joints
  import opened Segments
  import opened Wrappers

  /** Where a segment falls within the symbol a value path reads: the path's low bit, moved up by the segment's offset. */
  function DriveRange(src: Source, seg: Segment): BitRange
    requires src.Lsp? && src.srcLo <= seg.lo < seg.hi
  {
    var offset := seg.lo - src.srcLo;
    var width := seg.hi - seg.lo;
    BitRange(src.lspLo + offset, src.lspLo + offset + width - 1)
  }

  /** What a node reads for a segment: bits of a symbol, a selector that chooses them, all an expression mentions, or a constant. */
  datatype Read =
    | ReadBits(symbol: Symbol, bounds: BitRange)
    | ReadSelector(e: Expr)
    | ReadExpr(e: Expr)
    | ReadConstant(value: seq<Bit>)

  datatype Write = Write(symbol: Symbol, bounds: BitRange)

  /** What one Assignment node, standing for positions lo..hi - 1, drives and reads. */
  datatype Drive = Drive(lo: nat, hi: nat, lvalues: seq<Write>, rvalues: seq<Read>) {
    predicate Has(p: int) {
      lo <= p < hi
    }
  }

  /** The bits of a constant that belong to a segment; a constant as wide as the segment is taken whole. */
  function ConstantForSegment(src: Source, seg: Segment): seq<Bit>
    requires src.Constant? && Fits(src, seg.lo, seg.hi) && seg.lo < seg.hi
  {
    var offset := seg.lo - src.srcLo;
    var segWidth := seg.hi - seg.lo;
    if |src.value| != segWidth then src.value[offset..offset + segWidth] else src.value
  }

  /** What a source of an assignment's right-hand side is read as; sign padding is not read. */
  function ReadOf(src: Source, seg: Segment): seq<Read>
    requires Fits(src, seg.lo, seg.hi) && seg.lo < seg.hi
  {
    match src
    case Lsp(root, _, _, _) => SelectorsOf(root.selectors) + [ReadBits(root.symbol, DriveRange(src, seg))]
    case Opaque(e) => [ReadExpr(e)]
    case Constant(_, _, _) => [ReadConstant(ConstantForSegment(src, seg))]
    case _ => []
  }

  function SelectorsOf(selectors: seq<Expr>): (r: seq<Read>)
    ensures forall x :: x in r <==> x.ReadSelector? && x.e in selectors
  {
    if selectors == [] then []
    else
      var n := |selectors| - 1;
      assert forall x :: x in selectors <==> x in selectors[..n] || x == selectors[n];
      SelectorsOf(selectors[..n]) + [ReadSelector(selectors[n])]
  }

  function WriteOf(src: Source, seg: Segment): seq<Write>
    requires Fits(src, seg.lo, seg.hi) && seg.lo < seg.hi
  {
    if src.Lsp? then [Write(src.root.symbol, DriveRange(src, seg))] else []
  }

  ghost predicate SegmentFits(seg: Segment) {
    seg.lo < seg.hi && AllFit(seg.lhsSources, seg.lo, seg.hi) && AllFit(seg.rhsSources, seg.lo, seg.hi)
  }

  /** Bit `i` of what a node reads. */
  function ReadSays(r: Read, i: int): Dep {
    match r
    case ReadBits(s, bounds) => SymbolBit(s, bounds.Lower() + i)
    case ReadSelector(e) => Chooser(e)
    case ReadExpr(e) => Whole(e)
    case ReadConstant(v) => if 0 <= i < |v| then ConstantBit(v[i]) else ConstantBit(BX)
  }

  /** How many positions a read spans: none beyond its range or its constant; a selector or an expression is read at each of its positions. */
  predicate Spans(r: Read, n: int) {
    match r
    case ReadBits(_, bounds) => bounds.Upper() - bounds.Lower() + 1 == n
    case ReadConstant(v) => |v| == n
    case _ => true
  }

  /** Bit `i` is one of those a node reads. */
  predicate Reaches(r: Read, i: int) {
    match r
    case ReadBits(_, bounds) => bounds.Has(bounds.Lower() + i)
    case ReadConstant(v) => 0 <= i < |v|
    case _ => true
  }

  ghost predicate WritesBit(lvalues: seq<Write>, i: int, s: Symbol, b: int) {
    exists e :: e in lvalues && e.symbol == s && e.bounds.Has(b) && b == e.bounds.Lower() + i
  }

  ghost predicate ReadsDep(rvalues: seq<Read>, i: int, dep: Dep) {
    exists r :: r in rvalues && Reaches(r, i) && ReadSays(r, i) == dep
  }

  /** Every range driven and everything read has one bit for each of `n` positions. */
  ghost predicate AllSpan(lvalues: seq<Write>, rvalues: seq<Read>, n: int) {
    && (forall e :: e in lvalues ==> e.bounds.Upper() - e.bounds.Lower() + 1 == n)
    && (forall r :: r in rvalues ==> Spans(r, n))
  }

  function WritesOf(sources: seq<Source>, seg: Segment): seq<Write>
    requires AllFit(sources, seg.lo, seg.hi) && seg.lo < seg.hi
  {
    if sources == [] then []
    else
      var n := |sources| - 1;
      assert sources[n] in sources && forall src :: src in sources[..n] ==> src in sources;
      WritesOf(sources[..n], seg) + WriteOf(sources[n], seg)
  }

  function ReadsOf(sources: seq<Source>, seg: Segment): seq<Read>
    requires AllFit(sources, seg.lo, seg.hi) && seg.lo < seg.hi
  {
    if sources == [] then []
    else
      var n := |sources| - 1;
      assert sources[n] in sources && forall src :: src in sources[..n] ==> src in sources;
      ReadsOf(sources[..n], seg) + ReadOf(sources[n], seg)
  }

  lemma {:induction false} WritesSpan(sources: seq<Source>, seg: Segment)
    requires AllFit(sources, seg.lo, seg.hi) && seg.lo < seg.hi
    ensures AllSpan(WritesOf(sources, seg), [], seg.hi - seg.lo)
    decreases |sources|
  {
    if sources != [] {
      var n := |sources| - 1;
      assert sources[n] in sources && forall src :: src in sources[..n] ==> src in sources;
      WritesSpan(sources[..n], seg);
      assert forall e :: e in WritesOf(sources, seg) ==> e in WritesOf(sources[..n], seg) || e in WriteOf(sources[n], seg);
    }
  }

  lemma ReadSpans(src: Source, seg: Segment, x: Read)
    requires Fits(src, seg.lo, seg.hi) && seg.lo < seg.hi && x in ReadOf(src, seg)
    ensures Spans(x, seg.hi - seg.lo)
  {
    if src.Lsp? && !x.ReadSelector? {
      assert x == ReadBits(src.root.symbol, DriveRange(src, seg));
    }
  }

  lemma {:induction false} ReadsSpan(sources: seq<Source>, seg: Segment)
    requires AllFit(sources, seg.lo, seg.hi) && seg.lo < seg.hi
    ensures AllSpan([], ReadsOf(sources, seg), seg.hi - seg.lo)
    decreases |sources|
  {
    if sources != [] {
      var n := |sources| - 1;
      assert sources[n] in sources && forall src :: src in sources[..n] ==> src in sources;
      ReadsSpan(sources[..n], seg);
      MoreSpan(ReadsOf(sources, seg), ReadsOf(sources[..n], seg), sources[n], seg);
    }
  }

  lemma MoreSpan(all: seq<Read>, before: seq<Read>, src: Source, seg: Segment)
    requires Fits(src, seg.lo, seg.hi) && seg.lo < seg.hi && all == before + ReadOf(src, seg)
    requires AllSpan([], before, seg.hi - seg.lo)
    ensures AllSpan([], all, seg.hi - seg.lo)
  {
    forall x | x in all
      ensures Spans(x, seg.hi - seg.lo)
    {
      if x !in before {
        ReadSpans(src, seg, x);
      }
    }
  }

  /** The bit a path's range has at a position of the segment is the one the path says of it. */
  lemma {:induction false} WritesSay(sources: seq<Source>, seg: Segment, p: int, s: Symbol, b: int)
    requires AllFit(sources, seg.lo, seg.hi) && seg.Has(p)
    ensures WritesBit(WritesOf(sources, seg), p - seg.lo, s, b) <==> SymbolBit(s, b) in SaysAll(sources, p)
    decreases |sources|
  {
    if sources != [] {
      var n := |sources| - 1;
      assert sources[n] in sources && forall src :: src in sources[..n] ==> src in sources;
      WritesSay(sources[..n], seg, p, s, b);
      SaysLast(sources, p, SymbolBit(s, b));
      var a, c := WritesOf(sources[..n], seg), WriteOf(sources[n], seg);
      assert forall e :: e in a + c <==> e in a || e in c;
      assert WritesBit(c, p - seg.lo, s, b) <==> SymbolBit(s, b) in Says(sources[n], p) by {
        if sources[n].Lsp? { assert c[0] in c; }
      }
    }
  }

  lemma {:induction false} ReadsSay(sources: seq<Source>, seg: Segment, p: int, dep: Dep)
    requires AllFit(sources, seg.lo, seg.hi) && seg.Has(p)
    ensures ReadsDep(ReadsOf(sources, seg), p - seg.lo, dep) <==> dep in SaysAll(sources, p) && dep != SignBit
    decreases |sources|
  {
    if sources != [] {
      var n := |sources| - 1;
      assert sources[n] in sources && forall src :: src in sources[..n] ==> src in sources;
      ReadsSay(sources[..n], seg, p, dep);
      SaysLast(sources, p, dep);
      var a, c := ReadsOf(sources[..n], seg), ReadOf(sources[n], seg);
      assert forall r :: r in a + c <==> r in a || r in c;
      ReadSaysTheSame(sources[n], seg, p, dep);
    }
  }

  lemma PathReads(src: Source, seg: Segment, p: int, range: Read, dep: Dep)
    requires src.Lsp? && Fits(src, seg.lo, seg.hi) && seg.Has(p) && range == ReadBits(src.root.symbol, DriveRange(src, seg))
    ensures ReadsDep(ReadOf(src, seg), p - seg.lo, dep) <==> dep in Says(src, p)
  {
    var i, choosers := p - seg.lo, SelectorsOf(src.root.selectors);
    assert Reaches(range, i) && ReadSays(range, i) == SymbolBit(src.root.symbol, src.lspLo + (p - src.srcLo));
    assert forall r :: r in ReadOf(src, seg) <==> r in choosers || r == range;
    if dep in Choosers(src.root) {
      assert ReadSelector(dep.e) in choosers;
    }
  }

  lemma ConstantReads(src: Source, seg: Segment, p: int)
    requires src.Constant? && Fits(src, seg.lo, seg.hi) && seg.Has(p)
    ensures Reaches(ReadConstant(ConstantForSegment(src, seg)), p - seg.lo)
    ensures Says(src, p) == {ReadSays(ReadConstant(ConstantForSegment(src, seg)), p - seg.lo)}
  {
    var offset, segWidth, i := seg.lo - src.srcLo, seg.hi - seg.lo, p - seg.lo;
    SliceAt(src.value, offset, segWidth, i);
    assert ConstantForSegment(src, seg)[i] == src.value[offset + i];
  }

  lemma SliceAt(v: seq<Bit>, offset: nat, n: nat, i: nat)
    requires offset + n <= |v| && i < n
    ensures (if |v| != n then v[offset..offset + n] else v)[i] == v[offset + i]
  {
  }

  lemma ReadSaysTheSame(src: Source, seg: Segment, p: int, dep: Dep)
    requires Fits(src, seg.lo, seg.hi) && seg.Has(p)
    ensures ReadsDep(ReadOf(src, seg), p - seg.lo, dep) <==> dep in Says(src, p) && dep != SignBit
  {
    var i := p - seg.lo;
    if src.Lsp? {
      PathReads(src, seg, p, ReadBits(src.root.symbol, DriveRange(src, seg)), dep);
    } else if src.Constant? {
      ConstantReads(src, seg, p);
      OneRead(ReadConstant(ConstantForSegment(src, seg)), i, dep);
    } else if src.Opaque? {
      OneRead(ReadExpr(src.e), i, dep);
    }
  }

  lemma OneRead(r: Read, i: int, dep: Dep)
    requires Reaches(r, i)
    ensures ReadsDep([r], i, dep) <==> ReadSays(r, i) == dep
  {
    assert r in [r];
  }

  lemma SaysLast(sources: seq<Source>, p: int, dep: Dep)
    requires sources != []
    ensures dep in SaysAll(sources, p)
            <==> dep in SaysAll(sources[..|sources| - 1], p) || dep in Says(sources[|sources| - 1], p)
  {
    var n := |sources| - 1;
    assert sources == sources[..n] + [sources[n]];
  }

  method DriveLhs(seg: Segment) returns (lvalues: seq<Write>)
    requires SegmentFits(seg)
    ensures lvalues == WritesOf(seg.lhsSources, seg)
  {
    lvalues := [];
    var i := 0;
    assert seg.lhsSources[..|seg.lhsSources|] == seg.lhsSources;
    while i < |seg.lhsSources|
      invariant i <= |seg.lhsSources| && AllFit(seg.lhsSources[..i], seg.lo, seg.hi)
      invariant lvalues == WritesOf(seg.lhsSources[..i], seg)
    {
      var src := seg.lhsSources[i];
      assert src in seg.lhsSources;
      assert seg.lhsSources[..i + 1][..i] == seg.lhsSources[..i];
      if src.Lsp? {
        lvalues := lvalues + [Write(src.root.symbol, DriveRange(src, seg))];
      }
      i := i + 1;
    }
  }

  /** The selectors along the path, in its order, and the range of its symbol. */
  method DriveRhsPath(src: Source, seg: Segment, before: seq<Read>) returns (rvalues: seq<Read>)
    requires src.Lsp? && Fits(src, seg.lo, seg.hi) && seg.lo < seg.hi
    ensures rvalues == before + ReadOf(src, seg)
  {
    var selectors := src.root.selectors;
    rvalues := before;
    for j := 0 to |selectors|
      invariant rvalues == before + SelectorsOf(selectors[..j])
    {
      assert selectors[..j + 1][..j] == selectors[..j];
      rvalues := rvalues + [ReadSelector(selectors[j])];
    }
    assert selectors[..|selectors|] == selectors;
    rvalues := rvalues + [ReadBits(src.root.symbol, DriveRange(src, seg))];
  }

  method DriveRhsSource(src: Source, seg: Segment, before: seq<Read>) returns (rvalues: seq<Read>)
    requires Fits(src, seg.lo, seg.hi) && seg.lo < seg.hi
    ensures rvalues == before + ReadOf(src, seg)
  {
    rvalues := before;
    match src {
      case Lsp(_, _, _, _) => rvalues := DriveRhsPath(src, seg, before);
      case Opaque(e) => rvalues := before + [ReadExpr(e)];
      case Constant(_, _, _) => rvalues := before + [ReadConstant(ConstantForSegment(src, seg))];
      case Padding =>
      case PortNode(_, _, _) => assert false;
    }
  }

  method DriveRhs(seg: Segment) returns (rvalues: seq<Read>)
    requires SegmentFits(seg)
    ensures rvalues == ReadsOf(seg.rhsSources, seg)
  {
    rvalues := [];
    var sources := seg.rhsSources;
    var i := 0;
    assert sources[..|sources|] == sources;
    while i < |sources|
      invariant i <= |sources| && AllFit(sources[..i], seg.lo, seg.hi)
      invariant rvalues == ReadsOf(sources[..i], seg)
    {
      assert sources[i] in sources && sources[..i + 1][..i] == sources[..i];
      rvalues := DriveRhsSource(sources[i], seg, rvalues);
      i := i + 1;
    }
  }

  /** All sources of a segment reach over it. */
  lemma SegmentSourcesFit(l: Expr, r: Expr, cuts: Registry, segs: seq<Segment>, i: nat)
    requires ValidRegistry(cuts) && Sized(l, cuts) && Sized(r, cuts) && Width(l) == Width(r) && i < |segs|
    requires Aligned(segs, Slices(l, 0, cuts), Slices(r, 0, cuts), Width(l))
    ensures SegmentFits(segs[i])
  {
    var seg, w := segs[i], Width(l);
    Ascending(segs, 0, w);
    SourcesFit(l, cuts, Slices(l, 0, cuts), w, seg, seg.lhsSources);
    SourcesFit(r, cuts, Slices(r, 0, cuts), w, seg, seg.rhsSources);
  }

  /** A segment carries what the two expressions depend on at each of its positions. */
  lemma SegmentIsExact(l: Expr, r: Expr, cuts: Registry, segs: seq<Segment>, i: nat, seg: Segment, d: Drive)
    requires ValidRegistry(cuts) && Sized(l, cuts) && Sized(r, cuts) && Width(l) == Width(r) && i < |segs| && seg == segs[i]
    requires Aligned(segs, Slices(l, 0, cuts), Slices(r, 0, cuts), Width(l)) && SegmentFits(seg)
    requires d == Drive(seg.lo, seg.hi, WritesOf(seg.lhsSources, seg), ReadsOf(seg.rhsSources, seg))
    ensures DrivesSegment(d, seg, l, r)
  {
    Ascending(segs, 0, Width(l));
    WritesSpan(seg.lhsSources, seg);
    ReadsSpan(seg.rhsSources, seg);
    forall p: nat | d.Has(p)
      ensures IsBitAligned(d, Deps(l, p), Deps(r, p), p)
    {
      assert seg.Has(p);
      PositionDrivesExactly(l, r, cuts, Width(l), seg, d, p);
    }
  }

  lemma PositionDrivesExactly(l: Expr, r: Expr, cuts: Registry, w: nat, seg: Segment, d: Drive, p: nat)
    requires ValidRegistry(cuts) && Sized(l, cuts) && Sized(r, cuts) && Width(l) == w && Width(r) == w && p < w
    requires SegmentFits(seg) && seg.Has(p)
    requires seg.lhsSources == SourcesAt(Slices(l, 0, cuts), p) && seg.rhsSources == SourcesAt(Slices(r, 0, cuts), p)
    requires d == Drive(seg.lo, seg.hi, WritesOf(seg.lhsSources, seg), ReadsOf(seg.rhsSources, seg))
    ensures IsBitAligned(d, Deps(l, p), Deps(r, p), p)
  {
    PositionIsExact(l, cuts, w, p);
    PositionIsExact(r, cuts, w, p);
    SegmentDrivesExactly(seg, d, Deps(l, p), Deps(r, p), p);
  }

  lemma SourcesFit(e: Expr, cuts: Registry, slices: seq<Slice>, w: nat, seg: Segment, sources: seq<Source>)
    requires ValidRegistry(cuts) && Sized(e, cuts) && Width(e) == w && slices == Slices(e, 0, cuts) && seg.lo < seg.hi <= w
    requires forall p: nat :: seg.Has(p) ==> sources == SourcesAt(slices, p)
    ensures AllFit(sources, seg.lo, seg.hi)
  {
    SlicesAreExact(e, 0, cuts, 0);
    SlicesFit(e, 0, cuts);
    assert seg.Has(seg.lo) && seg.Has(seg.hi - 1);
    SegmentStaysFitting(slices, w, seg, sources);
  }

  lemma PositionIsExact(e: Expr, cuts: Registry, w: nat, p: nat)
    requires ValidRegistry(cuts) && Sized(e, cuts) && Width(e) == w && p < w
    ensures SaysAll(SourcesAt(Slices(e, 0, cuts), p), p) == Deps(e, p)
  {
    SlicesAreExact(e, 0, cuts, p);
  }

  lemma SegmentStaysFitting(slices: seq<Slice>, w: nat, seg: Segment, sources: seq<Source>)
    requires Tiles(slices, 0, w) && ListFits(slices) && seg.lo < seg.hi <= w
    requires sources == SourcesAt(slices, seg.lo) && sources == SourcesAt(slices, seg.hi - 1)
    ensures AllFit(sources, seg.lo, seg.hi)
  {
    var k := TilesFind(slices, 0, w, seg.lo);
    var j := TilesFind(slices, 0, w, seg.hi - 1);
    assert SliceFits(slices[k]) && SliceFits(slices[j]);
  }

  /** At position `p`, a node drives the symbol bits in `left` and reads what is in `right`, but for sign padding. */
  ghost predicate IsBitAligned(d: Drive, left: set<Dep>, right: set<Dep>, p: nat) {
    && (forall s, b :: WritesBit(d.lvalues, p - d.lo, s, b) <==> SymbolBit(s, b) in left)
    && (forall dep :: ReadsDep(d.rvalues, p - d.lo, dep) <==> dep in right && dep != SignBit)
  }

  /** The node spans exactly its positions, and is bit-aligned at each of them. */
  ghost predicate StaysBitAligned(d: Drive, l: Expr, r: Expr) {
    AllSpan(d.lvalues, d.rvalues, d.hi - d.lo) && forall p: nat {:trigger d.Has(p)} :: d.Has(p) ==> IsBitAligned(d, Deps(l, p), Deps(r, p), p)
  }

  ghost predicate DrivesSegment(d: Drive, seg: Segment, l: Expr, r: Expr) {
    d.lo == seg.lo && d.hi == seg.hi && StaysBitAligned(d, l, r)
  }

  lemma SegmentWritesExactly(seg: Segment, lvalues: seq<Write>, left: set<Dep>, p: nat)
    requires SegmentFits(seg) && seg.Has(p) && left == SaysAll(seg.lhsSources, p) && lvalues == WritesOf(seg.lhsSources, seg)
    ensures forall s, b :: WritesBit(lvalues, p - seg.lo, s, b) <==> SymbolBit(s, b) in left
  {
    forall s, b
      ensures WritesBit(lvalues, p - seg.lo, s, b) <==> SymbolBit(s, b) in left
    {
      WritesSay(seg.lhsSources, seg, p, s, b);
    }
  }

  lemma SegmentReadsExactly(seg: Segment, rvalues: seq<Read>, right: set<Dep>, p: nat)
    requires SegmentFits(seg) && seg.Has(p) && right == SaysAll(seg.rhsSources, p) && rvalues == ReadsOf(seg.rhsSources, seg)
    ensures forall dep :: ReadsDep(rvalues, p - seg.lo, dep) <==> dep in right && dep != SignBit
  {
    forall dep
      ensures ReadsDep(rvalues, p - seg.lo, dep) <==> dep in right && dep != SignBit
    {
      ReadsSay(seg.rhsSources, seg, p, dep);
    }
  }

  lemma SegmentDrivesExactly(seg: Segment, d: Drive, left: set<Dep>, right: set<Dep>, p: nat)
    requires SegmentFits(seg) && seg.Has(p) && left == SaysAll(seg.lhsSources, p) && right == SaysAll(seg.rhsSources, p)
    requires d == Drive(seg.lo, seg.hi, WritesOf(seg.lhsSources, seg), ReadsOf(seg.rhsSources, seg))
    ensures IsBitAligned(d, left, right, p)
  {
    SegmentWritesExactly(seg, d.lvalues, left, p);
    SegmentReadsExactly(seg, d.rvalues, right, p);
  }

  ghost predicate Partition(drives: seq<Drive>, w: nat) {
    && (forall k :: 0 <= k < |drives| ==> drives[k].lo < drives[k].hi)
    && (forall k :: 0 <= k < |drives| - 1 ==> drives[k].hi == drives[k + 1].lo)
    && (if drives == [] then w == 0 else drives[0].lo == 0 && drives[|drives| - 1].hi == w)
  }

  /** One Assignment node per segment. */
  method DriveSegments(l: Expr, r: Expr, ghost cuts: Registry, segs: seq<Segment>) returns (nodes: seq<Drive>)
    requires ValidRegistry(cuts) && Sized(l, cuts) && Sized(r, cuts) && Width(l) == Width(r)
    requires Aligned(segs, Slices(l, 0, cuts), Slices(r, 0, cuts), Width(l))
    ensures |nodes| == |segs| && forall k :: 0 <= k < |segs| ==> DrivesSegment(nodes[k], segs[k], l, r)
  {
    nodes := [];
    for i := 0 to |segs|
      invariant |nodes| == i
      invariant forall k :: 0 <= k < i ==> DrivesSegment(nodes[k], segs[k], l, r)
    {
      var seg := segs[i];
      SegmentSourcesFit(l, r, cuts, segs, i);
      var lvalues := DriveLhs(seg);
      var rvalues := DriveRhs(seg);
      var d := Drive(seg.lo, seg.hi, lvalues, rvalues);
      SegmentIsExact(l, r, cuts, segs, i, seg, d);
      nodes := nodes + [d];
    }
  }

  /**
    A bit-aligned assignment, or nothing when the two sides differ in width and the
    whole-path walk takes over. The nodes partition the width, so each position of
    the two sides is paired once, and with its own; inside, a node starts exactly at
    the joints of either side.
    */
  method AssignBits(l: Expr, r: Expr, cuts: Registry) returns (drives: Option<seq<Drive>>)
    requires ValidRegistry(cuts) && Sized(l, cuts) && Sized(r, cuts)
    ensures drives.None? <==> Width(l) != Width(r)
    ensures drives.Some? ==> Partition(drives.value, Width(l))
    ensures drives.Some? ==> forall k :: 0 <= k < |drives.value| ==> StaysBitAligned(drives.value[k], l, r)
    ensures drives.Some? ==>
              forall p: nat :: 0 < p < Width(l) ==> (NodeStartsAt(drives.value, p) <==> IsJoint(l, p, cuts) || IsJoint(r, p, cuts))
  {
    var lhsList := BuildList(l, cuts);
    var rhsList := BuildList(r, cuts);
    ListHasWidth(l, cuts);
    ListHasWidth(r, cuts);
    if EndOf(lhsList) != EndOf(rhsList) {
      return None;
    }
    var segs := AlignSegments(lhsList, rhsList, EndOf(lhsList));
    var nodes := DriveSegments(l, r, cuts, segs);
    NodesPartition(l, r, segs, nodes, Width(l));
    forall p: nat | 0 < p < Width(l)
      ensures NodeStartsAt(nodes, p) <==> IsJoint(l, p, cuts) || IsJoint(r, p, cuts)
    {
      NodesStartAtJoints(l, r, cuts, segs, nodes, p);
    }
    drives := Some(nodes);
  }

  /** Some node starts at position `p`. */
  ghost predicate NodeStartsAt(drives: seq<Drive>, p: nat) {
    exists k :: 0 <= k < |drives| && drives[k].lo == p
  }

  lemma NodesStart(segs: seq<Segment>, nodes: seq<Drive>, l: Expr, r: Expr, p: nat)
    requires |nodes| == |segs| && forall k :: 0 <= k < |segs| ==> DrivesSegment(nodes[k], segs[k], l, r)
    ensures NodeStartsAt(nodes, p) <==> SegmentStartsAt(segs, p)
  {
    if NodeStartsAt(nodes, p) {
      var k :| 0 <= k < |nodes| && nodes[k].lo == p;
      assert segs[k].lo == p;
    }
    if SegmentStartsAt(segs, p) {
      var k :| 0 <= k < |segs| && segs[k].lo == p;
      assert nodes[k].lo == p;
    }
  }

  lemma NodesStartAtJoints(l: Expr, r: Expr, cuts: Registry, segs: seq<Segment>, nodes: seq<Drive>, p: nat)
    requires ValidRegistry(cuts) && Sized(l, cuts) && Sized(r, cuts) && Width(l) == Width(r) && 0 < p < Width(l)
    requires Aligned(segs, Slices(l, 0, cuts), Slices(r, 0, cuts), Width(l))
    requires |nodes| == |segs| && forall k :: 0 <= k < |segs| ==> DrivesSegment(nodes[k], segs[k], l, r)
    ensures NodeStartsAt(nodes, p) <==> IsJoint(l, p, cuts) || IsJoint(r, p, cuts)
  {
    ListHasWidth(l, cuts);
    ListHasWidth(r, cuts);
    SegmentsStart(segs, Slices(l, 0, cuts), Slices(r, 0, cuts), Width(l), p);
    NodesStart(segs, nodes, l, r, p);
    SlicesStartAtJoints(l, 0, cuts, p, p);
    SlicesStartAtJoints(r, 0, cuts, p, p);
  }

  lemma NodesPartition(l: Expr, r: Expr, segs: seq<Segment>, nodes: seq<Drive>, w: nat)
    requires Consecutive(segs, 0, w) && |nodes| == |segs| && forall k :: 0 <= k < |segs| ==> DrivesSegment(nodes[k], segs[k], l, r)
    ensures Partition(nodes, w) && forall k :: 0 <= k < |nodes| ==> StaysBitAligned(nodes[k], l, r)
  {
  }

  lemma ListHasWidth(e: Expr, cuts: Registry)
    requires ValidRegistry(cuts) && Sized(e, cuts)
    ensures Tiles(Slices(e, 0, cuts), 0, Width(e)) && EndOf(Slices(e, 0, cuts)) == Width(e)
  {
    SlicesAreExact(e, 0, cuts, 0);
    TilesReach(Slices(e, 0, cuts), 0, Width(e));
  }

  /** Bits of one symbol meet bits of another in the node that holds both; they are paired there by position. */
  ghost predicate Paired(drives: seq<Drive>, s: Symbol, b: int, t: Symbol, c: int) {
    exists k, p: nat :: 0 <= k < |drives| && drives[k].Has(p) && PairedAt(drives[k], p, s, b, t, c)
  }

  ghost predicate PairedAt(d: Drive, p: int, s: Symbol, b: int, t: Symbol, c: int) {
    WritesBit(d.lvalues, p - d.lo, s, b) && ReadsDep(d.rvalues, p - d.lo, SymbolBit(t, c))
  }

  ghost predicate StandAt(l: Expr, r: Expr, p: nat, s: Symbol, b: int, t: Symbol, c: int) {
    SymbolBit(s, b) in Deps(l, p) && SymbolBit(t, c) in Deps(r, p)
  }

  lemma PairedIsStanding(d: Drive, l: Expr, r: Expr, p: nat, s: Symbol, b: int, t: Symbol, c: int)
    requires StaysBitAligned(d, l, r) && d.Has(p)
    ensures PairedAt(d, p, s, b, t, c) <==> StandAt(l, r, p, s, b, t, c)
  {
    assert IsBitAligned(d, Deps(l, p), Deps(r, p), p);
  }

  /** Over the whole assignment, bit `b` of `s` is driven by bit `c` of `t` exactly when they stand at the same position. */
  lemma PairsStandTogether(drives: seq<Drive>, l: Expr, r: Expr, w: nat, s: Symbol, b: int, t: Symbol, c: int)
    requires Partition(drives, w) && forall k :: 0 <= k < |drives| ==> StaysBitAligned(drives[k], l, r)
    ensures Paired(drives, s, b, t, c) <==> exists p: nat :: p < w && StandAt(l, r, p, s, b, t, c)
  {
    if Paired(drives, s, b, t, c) {
      var k, p: nat :| 0 <= k < |drives| && drives[k].Has(p) && PairedAt(drives[k], p, s, b, t, c);
      PairedIsStanding(drives[k], l, r, p, s, b, t, c);
      DrivesReach(drives, w, k);
    }
    if p: nat :| p < w && StandAt(l, r, p, s, b, t, c) {
      var k := DriveOf(drives, w, p);
      PairedIsStanding(drives[k], l, r, p, s, b, t, c);
    }
  }

  /** The bit stands at some position of the expression. */
  ghost predicate IsTaken(e: Expr, s: Symbol, b: int) {
    exists p: nat :: p < Width(e) && SymbolBit(s, b) in Deps(e, p)
  }

  /** Some node drives the bit, wherever in the driven range it lies. */
  ghost predicate DrivesBit(drives: seq<Drive>, s: Symbol, b: int) {
    exists k, e :: 0 <= k < |drives| && e in drives[k].lvalues && e.symbol == s && e.bounds.Has(b)
  }

  /** Some node reads the bit, wherever in the read range it lies. */
  ghost predicate ReadsBit(drives: seq<Drive>, s: Symbol, b: int) {
    exists k, r :: 0 <= k < |drives| && r in drives[k].rvalues && r.ReadBits? && r.symbol == s && r.bounds.Has(b)
  }

  lemma WrittenBitIsMeant(d: Drive, left: set<Dep>, right: set<Dep>, p: nat, e: Write, b: int)
    requires IsBitAligned(d, left, right, p) && e in d.lvalues && e.bounds.Has(b) && b == e.bounds.Lower() + (p - d.lo)
    ensures SymbolBit(e.symbol, b) in left
  {
    assert WritesBit(d.lvalues, p - d.lo, e.symbol, b);
  }

  lemma ReadIsMeant(d: Drive, left: set<Dep>, right: set<Dep>, p: nat, x: Read)
    requires IsBitAligned(d, left, right, p) && x in d.rvalues && Reaches(x, p - d.lo)
    ensures ReadSays(x, p - d.lo) in right
  {
    assert ReadsDep(d.rvalues, p - d.lo, ReadSays(x, p - d.lo));
  }

  /** Each bit of a range a node drives stands on the left, at that position of the node. */
  lemma DrivenBitStands(d: Drive, l: Expr, r: Expr, e: Write, b: int)
    requires StaysBitAligned(d, l, r) && d.lo <= d.hi <= Width(l) && e in d.lvalues && e.bounds.Has(b)
    ensures IsTaken(l, e.symbol, b)
  {
    var p: nat := d.lo + (b - e.bounds.Lower());
    assert e.bounds.Upper() - e.bounds.Lower() + 1 == d.hi - d.lo;
    assert d.Has(p);
    WrittenBitIsMeant(d, Deps(l, p), Deps(r, p), p, e, b);
  }

  /** Each bit of a range a node reads stands on the right, at that position of the node. */
  lemma ReadBitStands(d: Drive, l: Expr, r: Expr, x: Read, b: int)
    requires StaysBitAligned(d, l, r) && d.lo <= d.hi <= Width(r) && x in d.rvalues && x.ReadBits? && x.bounds.Has(b)
    ensures IsTaken(r, x.symbol, b)
  {
    var p: nat := d.lo + (b - x.bounds.Lower());
    assert Spans(x, d.hi - d.lo);
    assert d.Has(p);
    ReadIsMeant(d, Deps(l, p), Deps(r, p), p, x);
  }

  lemma DrivenThere(drives: seq<Drive>, k: nat, i: int, s: Symbol, b: int)
    requires k < |drives| && WritesBit(drives[k].lvalues, i, s, b)
    ensures DrivesBit(drives, s, b)
  {
    var e :| e in drives[k].lvalues && e.symbol == s && e.bounds.Has(b);
  }

  lemma ReadThere(drives: seq<Drive>, k: nat, i: int, s: Symbol, b: int)
    requires k < |drives| && ReadsDep(drives[k].rvalues, i, SymbolBit(s, b))
    ensures ReadsBit(drives, s, b)
  {
    var x :| x in drives[k].rvalues && Reaches(x, i) && ReadSays(x, i) == SymbolBit(s, b);
    assert x.ReadBits? && x.symbol == s && x.bounds.Has(b);
  }

  lemma StandingBitIsDriven(drives: seq<Drive>, l: Expr, r: Expr, k: nat, p: nat, s: Symbol, b: int)
    requires k < |drives| && StaysBitAligned(drives[k], l, r) && drives[k].Has(p)
    ensures SymbolBit(s, b) in Deps(l, p) ==> DrivesBit(drives, s, b)
    ensures SymbolBit(s, b) in Deps(r, p) ==> ReadsBit(drives, s, b)
  {
    assert IsBitAligned(drives[k], Deps(l, p), Deps(r, p), p);
    if SymbolBit(s, b) in Deps(l, p) {
      DrivenThere(drives, k, p - drives[k].lo, s, b);
    }
    if SymbolBit(s, b) in Deps(r, p) {
      ReadThere(drives, k, p - drives[k].lo, s, b);
    }
  }

  /** The bits driven are those on the left and the bits read those on the right: no range reaches beyond them. */
  lemma RangesAreExact(drives: seq<Drive>, l: Expr, r: Expr, w: nat, s: Symbol, b: int)
    requires w == Width(l) == Width(r) && Partition(drives, w) && forall k :: 0 <= k < |drives| ==> StaysBitAligned(drives[k], l, r)
    ensures DrivesBit(drives, s, b) <==> IsTaken(l, s, b)
    ensures ReadsBit(drives, s, b) <==> IsTaken(r, s, b)
  {
    if DrivesBit(drives, s, b) {
      var k, e :| 0 <= k < |drives| && e in drives[k].lvalues && e.symbol == s && e.bounds.Has(b);
      DrivesReach(drives, w, k);
      DrivenBitStands(drives[k], l, r, e, b);
    }
    if ReadsBit(drives, s, b) {
      var k, x :| 0 <= k < |drives| && x in drives[k].rvalues && x.ReadBits? && x.symbol == s && x.bounds.Has(b);
      DrivesReach(drives, w, k);
      ReadBitStands(drives[k], l, r, x, b);
    }
    forall p: nat | p < w
      ensures SymbolBit(s, b) in Deps(l, p) ==> DrivesBit(drives, s, b)
      ensures SymbolBit(s, b) in Deps(r, p) ==> ReadsBit(drives, s, b)
    {
      var k := DriveOf(drives, w, p);
      StandingBitIsDriven(drives, l, r, k, p, s, b);
    }
  }

  lemma {:induction false} DrivesReach(drives: seq<Drive>, w: nat, k: nat)
    requires Partition(drives, w) && k < |drives|
    ensures drives[k].hi <= w
  {
    var n := |drives| - 1;
    if k < n {
      DrivesReach(drives[..n], drives[n].lo, k);
    }
  }

  lemma {:induction false} DriveOf(drives: seq<Drive>, w: nat, p: nat) returns (k: nat)
    requires Partition(drives, w) && p < w
    ensures k < |drives| && drives[k].Has(p)
    ensures forall j :: 0 <= j < |drives| && drives[j].Has(p) ==> j == k
  {
    var n := |drives| - 1;
    if p < drives[n].lo {
      k := DriveOf(drives[..n], drives[n].lo, p);
      assert forall j :: 0 <= j < n ==> drives[j] == drives[..n][j];
    } else {
      k := n;
      forall j | 0 <= j < n ensures drives[j].hi <= drives[n].lo { DrivesReach(drives[..n], drives[n].lo, j); }
    }
  }

  /** The parts of a constant that consecutive segments take, put together. */
  function Rejoined(src: Source, segs: seq<Segment>): seq<Bit>
    requires src.Constant? && forall k :: 0 <= k < |segs| ==> segs[k].lo < segs[k].hi && Fits(src, segs[k].lo, segs[k].hi)
  {
    if segs == [] then [] else Rejoined(src, segs[..|segs| - 1]) + ConstantForSegment(src, segs[|segs| - 1])
  }

  lemma ConstantPart(src: Source, seg: Segment)
    requires src.Constant? && Fits(src, seg.lo, seg.hi) && seg.lo < seg.hi
    ensures ConstantForSegment(src, seg) == src.value[seg.lo - src.srcLo..seg.hi - src.srcLo]
  {
  }

  lemma PartsFit(src: Source, segs: seq<Segment>, to: nat)
    requires src.Constant? && |src.value| == src.srcHi - src.srcLo && to <= src.srcHi && Consecutive(segs, src.srcLo, to)
    ensures forall k :: 0 <= k < |segs| ==> segs[k].lo < segs[k].hi && Fits(src, segs[k].lo, segs[k].hi)
  {
    Ascending(segs, src.srcLo, to);
  }

  lemma LastPart(src: Source, segs: seq<Segment>, to: nat)
    requires src.Constant? && |src.value| == src.srcHi - src.srcLo && to <= src.srcHi && Consecutive(segs, src.srcLo, to) && segs != []
    ensures var n := |segs| - 1;
            && src.srcLo <= segs[n].lo <= to && Consecutive(segs[..n], src.srcLo, segs[n].lo) && Fits(src, segs[n].lo, to)
            && src.value[..segs[n].lo - src.srcLo] + ConstantForSegment(src, segs[n]) == src.value[..to - src.srcLo]
  {
    Ascending(segs, src.srcLo, to);
    ConstantPart(src, segs[|segs| - 1]);
  }

  lemma OneMorePart(src: Source, segs: seq<Segment>, rest: seq<Segment>, last: Segment)
    requires src.Constant? && segs == rest + [last]
    requires forall k :: 0 <= k < |segs| ==> segs[k].lo < segs[k].hi && Fits(src, segs[k].lo, segs[k].hi)
    ensures forall k :: 0 <= k < |rest| ==> rest[k].lo < rest[k].hi && Fits(src, rest[k].lo, rest[k].hi)
    ensures last.lo < last.hi && Fits(src, last.lo, last.hi)
    ensures Rejoined(src, segs) == Rejoined(src, rest) + ConstantForSegment(src, last)
  {
    assert forall k :: 0 <= k < |rest| ==> rest[k] == segs[k];
    assert segs[..|segs| - 1] == rest && segs[|segs| - 1] == last;
  }

  /** Segments over the whole reach of a constant give back the whole constant, in order. */
  lemma {:induction false} ConstantsRejoin(src: Source, segs: seq<Segment>, to: nat)
    requires src.Constant? && |src.value| == src.srcHi - src.srcLo && src.srcLo <= to <= src.srcHi
    requires Consecutive(segs, src.srcLo, to)
    ensures forall k :: 0 <= k < |segs| ==> Fits(src, segs[k].lo, segs[k].hi)
    ensures Rejoined(src, segs) == src.value[..to - src.srcLo]
    decreases |segs|
  {
    PartsFit(src, segs, to);
    if segs != [] {
      var rest, last := segs[..|segs| - 1], segs[|segs| - 1];
      LastPart(src, segs, to);
      ConstantsRejoin(src, rest, last.lo);
      OneMorePart(src, segs, rest, last);
    }
  }
}
