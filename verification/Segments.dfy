/** Two slice lists of equal width laid on a common grid (alignSegments in source/BitSliceList.cpp). */
module Segments {
  import opened BitSlices
  import opened Cuts
  import opened Joints

  datatype Segment = Segment(lo: nat, hi: nat, lhsSources: seq<Source>, rhsSources: seq<Source>) {
    predicate Has(p: int) {
      lo <= p < hi
    }
  }

  /** A source of an expression's slice reaches over the slice, and a constant has one bit per position it reaches. */
  predicate Fits(src: Source, lo: nat, hi: nat) {
    match src
    case Lsp(_, _, a, b) => a <= lo && hi <= b
    case Constant(v, a, b) => a <= lo && hi <= b && |v| == b - a
    case PortNode(_, _, _) => false
    case _ => true
  }

  ghost predicate AllFit(sources: seq<Source>, lo: nat, hi: nat) {
    forall src :: src in sources ==> Fits(src, lo, hi)
  }

  ghost predicate SliceFits(s: Slice) {
    AllFit(s.sources, s.lo, s.hi)
  }

  ghost predicate ListFits(slices: seq<Slice>) {
    forall k {:trigger SliceFits(slices[k])} :: 0 <= k < |slices| ==> SliceFits(slices[k])
  }

  lemma JoinFits(a: seq<Slice>, b: seq<Slice>)
    requires ListFits(a) && ListFits(b)
    ensures ListFits(a + b)
  {
    forall k | 0 <= k < |a + b|
      ensures SliceFits((a + b)[k])
    {
      if k < |a| {
        assert SliceFits(a[k]);
      } else {
        assert SliceFits(b[k - |a|]);
      }
    }
  }

  lemma {:induction false} StretchesFit(root: Root, lspLo: nat, lspHi: nat, base: nat, prev: nat, inside: seq<nat>)
    requires lspLo <= prev < lspHi && Increasing(inside) && forall y :: y in inside ==> prev < y < lspHi
    ensures ListFits(Stretches(root, lspLo, lspHi, base, prev, inside))
    decreases |inside|
  {
    if inside != [] {
      assert inside[0] in inside && forall j :: 0 < j < |inside| ==> inside[j] in inside;
      StretchesFit(root, lspLo, lspHi, base, inside[0], inside[1..]);
      JoinFits(Stretches(root, lspLo, lspHi, base, prev, inside)[..1], Stretches(root, lspLo, lspHi, base, inside[0], inside[1..]));
    }
  }

  lemma SourcesFitOnGrid(a: seq<Slice>, w: nat, grid: seq<nat>, i: nat)
    requires Tiles(a, 0, w) && ListFits(a) && Increasing(grid) && OnGrid(a, grid)
    requires i + 1 < |grid| && grid[i + 1] <= w
    ensures AllFit(SourcesAt(a, grid[i]), grid[i], grid[i + 1])
  {
    var k := TilesFind(a, 0, w, grid[i]);
    assert SliceFits(a[k]);
    NoneBetween(grid, i, a[k].hi);
  }

  lemma TranslatedFit(sources: seq<Source>, offset: nat, lo: nat, hi: nat)
    requires AllFit(sources, lo, hi)
    ensures AllFit(TranslateAll(sources, offset), offset + lo, offset + hi)
  {
    forall src | src in TranslateAll(sources, offset)
      ensures Fits(src, offset + lo, offset + hi)
    {
      var i :| 0 <= i < |sources| && Translate(sources[i], offset) == src;
      assert sources[i] in sources;
    }
  }

  lemma {:induction false} GridFits(l: seq<Slice>, r: seq<Slice>, c: Expr, base: nat, w: nat, grid: seq<nat>, k: nat)
    requires Tiles(l, 0, w) && Tiles(r, 0, w) && CommonGrid(l, r, grid, w) && ListFits(l) && ListFits(r) && k < |grid|
    ensures ListFits(GridSlices(l, r, c, base, grid, k))
    decreases |grid| - k
  {
    if k + 1 < |grid| {
      GridFits(l, r, c, base, w, grid, k + 1);
      assert grid[k + 1] <= grid[|grid| - 1];
      SourcesFitOnGrid(l, w, grid, k);
      SourcesFitOnGrid(r, w, grid, k);
      TranslatedFit(SourcesAt(l, grid[k]), base, grid[k], grid[k + 1]);
      TranslatedFit(SourcesAt(r, grid[k]), base, grid[k], grid[k + 1]);
      var slices := GridSlices(l, r, c, base, grid, k);
      assert SliceFits(slices[0]);
      JoinFits(slices[..1], GridSlices(l, r, c, base, grid, k + 1));
    }
  }

  lemma PathFits(root: Root, lo: nat, hi: nat, w: nat, base: nat, cuts: Registry)
    requires ValidRegistry(cuts) && lo <= hi
    ensures ListFits(LspSlices(root, lo, hi, w, base, cuts))
  {
    var inside := if root.symbol in cuts then Between(cuts[root.symbol], lo, hi + 1) else [];
    if inside != [] {
      StretchesFit(root, lo, hi + 1, base, lo, inside);
    }
  }

  /** Every source decomposition puts on a slice reaches over that slice. */
  lemma {:induction false} SlicesFit(e: Expr, base: nat, cuts: Registry)
    requires ValidRegistry(cuts) && Sized(e, cuts)
    ensures ListFits(Slices(e, base, cuts))
    decreases e, 3
  {
    match e
    case ValuePath(root, lo, hi, w) => PathFits(root, lo, hi, w, base, cuts);
    case Concat(ops) => OperandsFit(ops, base, cuts);
    case Replicate(count, unit, _) =>
      if count.Some? {
        CopiesFit(count.value, unit, base, cuts);
      }
    case Convert(_, _, _, _) => ConvertFits(e, base, cuts);
    case Select(_, _, _, _, _) => SelectFits(e, base, cuts);
    case Other(_, _, _) =>
  }

  lemma {:induction false} ConvertFits(e: Expr, base: nat, cuts: Registry)
    requires ValidRegistry(cuts) && Sized(e, cuts) && e.Convert?
    ensures ListFits(Slices(e, base, cuts))
    decreases e, 2
  {
    var w := Width(e.inner);
    if !Folds(e.folded, e.width) && e.width >= w {
      SlicesFit(e.inner, base, cuts);
      if e.width > w {
        var low := Slices(e.inner, base, cuts);
        var top := ExtensionSlice(if low == [] then base else EndOf(low), e.width - w, e.signExtend);
        assert SliceFits(top);
        JoinFits(low, [top]);
      }
    }
  }

  lemma {:induction false} SelectFits(e: Expr, base: nat, cuts: Registry)
    requires ValidRegistry(cuts) && Sized(e, cuts) && e.Select?
    ensures ListFits(Slices(e, base, cuts))
    decreases e, 2
  {
    if e.plain && Width(e.left) == Width(e.right) == e.width {
      SlicesFit(e.left, 0, cuts);
      SlicesFit(e.right, 0, cuts);
      SlicesAreExact(e.left, 0, cuts, 0);
      SlicesAreExact(e.right, 0, cuts, 0);
      var l, r := Slices(e.left, 0, cuts), Slices(e.right, 0, cuts);
      TilesOnGrid(l, r, e.width);
      GridFits(l, r, e.condition, base, e.width, Grid(l, r), 0);
    }
  }

  lemma {:induction false} OperandsFit(ops: seq<Expr>, base: nat, cuts: Registry)
    requires ValidRegistry(cuts) && forall i :: 0 <= i < |ops| ==> Sized(ops[i], cuts)
    ensures ListFits(SlicesOfAll(ops, base, cuts))
    decreases ops, 0
  {
    if ops != [] {
      var low := Slices(ops[|ops| - 1], base, cuts);
      var next := if low == [] then base else EndOf(low);
      SlicesFit(ops[|ops| - 1], base, cuts);
      OperandsFit(ops[..|ops| - 1], next, cuts);
      JoinFits(low, SlicesOfAll(ops[..|ops| - 1], next, cuts));
    }
  }

  lemma {:induction false} CopiesFit(count: int, unit: Expr, base: nat, cuts: Registry)
    requires ValidRegistry(cuts) && (count > 0 ==> Sized(unit, cuts))
    ensures ListFits(SlicesOfCopies(count, unit, base, cuts))
    decreases unit, 4, if count <= 0 then 0 else count
  {
    if count > 0 {
      var low := Slices(unit, base, cuts);
      var next := if low == [] then base else EndOf(low);
      SlicesFit(unit, base, cuts);
      CopiesFit(count - 1, unit, next, cuts);
      JoinFits(low, SlicesOfCopies(count - 1, unit, next, cuts));
    }
  }

  /** Consecutive, non-empty segments from `from` to `w`. */
  ghost predicate Consecutive(segs: seq<Segment>, from: nat, w: nat) {
    && (forall k :: 0 <= k < |segs| ==> segs[k].lo < segs[k].hi)
    && (forall k :: 0 <= k < |segs| - 1 ==> segs[k].hi == segs[k + 1].lo)
    && (if segs == [] then from == w else segs[0].lo == from && segs[|segs| - 1].hi == w)
  }

  /** Throughout a segment, both lists have the sources it carries. */
  ghost predicate Carries(seg: Segment, lhs: seq<Slice>, rhs: seq<Slice>) {
    forall p: nat :: seg.Has(p) ==> seg.lhsSources == SourcesAt(lhs, p) && seg.rhsSources == SourcesAt(rhs, p)
  }

  ghost predicate EndsASegment(y: nat, segs: seq<Segment>) {
    exists k :: 0 <= k < |segs| && segs[k].hi == y
  }

  ghost predicate EndsAll(slices: seq<Slice>, segs: seq<Segment>) {
    forall k {:trigger slices[k]} :: 0 <= k < |slices| ==> EndsASegment(slices[k].hi, segs)
  }

  /** The segments partition the width and end exactly where a slice of either list ends; each carries what the lists have there. */
  ghost predicate Aligned(segs: seq<Segment>, lhs: seq<Slice>, rhs: seq<Slice>, w: nat) {
    && Consecutive(segs, 0, w)
    && EndsAll(lhs, segs) && EndsAll(rhs, segs)
    && (forall k :: 0 <= k < |segs| ==> EndsAt(lhs, segs[k].hi) || EndsAt(rhs, segs[k].hi))
    && (forall k :: 0 <= k < |segs| ==> Carries(segs[k], lhs, rhs))
  }

  ghost predicate SegmentStartsAt(segs: seq<Segment>, p: nat) {
    exists k :: 0 <= k < |segs| && segs[k].lo == p
  }

  lemma SegmentsEndWhereNextStarts(segs: seq<Segment>, w: nat, p: nat)
    requires Consecutive(segs, 0, w) && 0 < p < w
    ensures SegmentStartsAt(segs, p) <==> EndsASegment(p, segs)
  {
    if SegmentStartsAt(segs, p) {
      var k :| 0 <= k < |segs| && segs[k].lo == p;
      assert segs[k - 1].hi == p;
    }
    if EndsASegment(p, segs) {
      var k :| 0 <= k < |segs| && segs[k].hi == p;
      assert segs[k + 1].lo == p;
    }
  }

  /** Strictly inside, a segment starts exactly where a slice of either list does. */
  lemma SegmentsStart(segs: seq<Segment>, lhs: seq<Slice>, rhs: seq<Slice>, w: nat, p: nat)
    requires Aligned(segs, lhs, rhs, w) && Tiles(lhs, 0, w) && Tiles(rhs, 0, w) && 0 < p < w
    ensures SegmentStartsAt(segs, p) <==> StartsAt(lhs, p) || StartsAt(rhs, p)
  {
    EndsWhereNextStarts(lhs, 0, w, p);
    EndsWhereNextStarts(rhs, 0, w, p);
    SegmentsEndWhereNextStarts(segs, w, p);
    EndsMatch(segs, lhs, rhs, w, p);
  }

  lemma EndsMatch(segs: seq<Segment>, lhs: seq<Slice>, rhs: seq<Slice>, w: nat, p: nat)
    requires Aligned(segs, lhs, rhs, w)
    ensures EndsASegment(p, segs) <==> EndsAt(lhs, p) || EndsAt(rhs, p)
  {
    if EndsASegment(p, segs) {
      var k :| 0 <= k < |segs| && segs[k].hi == p;
      assert EndsAt(lhs, segs[k].hi) || EndsAt(rhs, segs[k].hi);
    }
    if EndsAt(lhs, p) {
      var k :| 0 <= k < |lhs| && lhs[k].hi == p;
      assert EndsASegment(lhs[k].hi, segs);
    }
    if EndsAt(rhs, p) {
      var k :| 0 <= k < |rhs| && rhs[k].hi == p;
      assert EndsASegment(rhs[k].hi, segs);
    }
  }

  function SegmentAt(lhs: seq<Slice>, rhs: seq<Slice>, grid: seq<nat>, i: nat): Segment
    requires i + 1 < |grid|
  {
    Segment(grid[i], grid[i + 1], SourcesAt(lhs, grid[i]), SourcesAt(rhs, grid[i]))
  }

  method AlignSegments(lhs: seq<Slice>, rhs: seq<Slice>, ghost w: nat) returns (result: seq<Segment>)
    requires Tiles(lhs, 0, w) && Tiles(rhs, 0, w)
    ensures Aligned(result, lhs, rhs, w)
  {
    result := [];
    var cuts := MergeCuts(CollectCuts(lhs), CollectCuts(rhs));
    assert cuts == Grid(lhs, rhs);
    var i := 0;
    while i + 1 < |cuts|
      invariant |result| == i < |cuts|
      invariant forall k :: 0 <= k < i ==> result[k] == SegmentAt(lhs, rhs, cuts, k)
    {
      var mid := cuts[i];
      result := result + [Segment(cuts[i], cuts[i + 1], SourcesAt(lhs, mid), SourcesAt(rhs, mid))];
      i := i + 1;
    }
    GridIsAligned(lhs, rhs, w, cuts, result);
  }

  /** One segment per stretch of the grid. */
  ghost predicate FromGrid(segs: seq<Segment>, lhs: seq<Slice>, rhs: seq<Slice>, grid: seq<nat>) {
    |segs| == |grid| - 1 && forall k :: 0 <= k < |segs| ==> segs[k] == SegmentAt(lhs, rhs, grid, k)
  }

  lemma GridIsAligned(lhs: seq<Slice>, rhs: seq<Slice>, w: nat, grid: seq<nat>, segs: seq<Segment>)
    requires Tiles(lhs, 0, w) && Tiles(rhs, 0, w) && grid == Grid(lhs, rhs) && FromGrid(segs, lhs, rhs, grid)
    ensures Aligned(segs, lhs, rhs, w)
  {
    TilesOnGrid(lhs, rhs, w);
    GridIsConsecutive(lhs, rhs, w, grid, segs);
    GridCarries(lhs, rhs, w, grid, segs);
    SlicesEndOnGrid(lhs, rhs, lhs, w, grid, segs);
    SlicesEndOnGrid(lhs, rhs, rhs, w, grid, segs);
  }

  lemma GridIsConsecutive(lhs: seq<Slice>, rhs: seq<Slice>, w: nat, grid: seq<nat>, segs: seq<Segment>)
    requires CommonGrid(lhs, rhs, grid, w) && FromGrid(segs, lhs, rhs, grid)
    ensures Consecutive(segs, 0, w)
  {
    assert forall k :: 0 <= k < |segs| ==> segs[k].lo == grid[k] && segs[k].hi == grid[k + 1];
  }

  lemma GridCarries(lhs: seq<Slice>, rhs: seq<Slice>, w: nat, grid: seq<nat>, segs: seq<Segment>)
    requires Tiles(lhs, 0, w) && Tiles(rhs, 0, w) && CommonGrid(lhs, rhs, grid, w)
    requires grid == Grid(lhs, rhs) && FromGrid(segs, lhs, rhs, grid)
    ensures forall k :: 0 <= k < |segs| ==> EndsAt(lhs, segs[k].hi) || EndsAt(rhs, segs[k].hi)
    ensures forall k :: 0 <= k < |segs| ==> Carries(segs[k], lhs, rhs)
  {
    forall k | 0 <= k < |segs|
      ensures (EndsAt(lhs, segs[k].hi) || EndsAt(rhs, segs[k].hi)) && Carries(segs[k], lhs, rhs)
    {
      assert segs[k] == SegmentAt(lhs, rhs, grid, k);
      GridSegmentCarries(lhs, rhs, w, grid, k);
      GridPointEndsASlice(lhs, rhs, grid[k + 1]);
    }
  }

  lemma SlicesEndOnGrid(lhs: seq<Slice>, rhs: seq<Slice>, slices: seq<Slice>, w: nat, grid: seq<nat>, segs: seq<Segment>)
    requires Tiles(slices, 0, w) && OnGrid(slices, grid) && grid != [] && grid[0] == 0 && FromGrid(segs, lhs, rhs, grid)
    ensures EndsAll(slices, segs)
  {
    forall k | 0 <= k < |slices|
      ensures EndsASegment(slices[k].hi, segs)
    {
      TilesStartsLate(slices, 0, w, k);
      var i :| 0 <= i < |grid| && grid[i] == slices[k].hi;
      assert segs[i - 1].hi == slices[k].hi;
    }
  }

  lemma RunIsConsecutive(segs: seq<Segment>, from: nat, w: nat, i: nat, j: nat)
    requires Consecutive(segs, from, w) && i < j <= |segs|
    ensures Consecutive(segs[i..j], segs[i].lo, segs[j - 1].hi)
  {
    var run := segs[i..j];
    assert forall k :: 0 <= k < |run| ==> run[k] == segs[i + k];
  }

  lemma EndsInOrder(segs: seq<Segment>, w: nat, before: nat, last: nat)
    requires Consecutive(segs, 0, w) && before < |segs| && last < |segs| && segs[before].hi < segs[last].hi
    ensures before < last && segs[before + 1].lo == segs[before].hi
  {
    Ascending(segs, 0, w);
  }

  lemma SegmentsBetween(segs: seq<Segment>, w: nat, lo: nat, hi: nat) returns (i: nat, j: nat)
    requires Consecutive(segs, 0, w) && lo < hi && EndsASegment(hi, segs) && (lo == 0 || EndsASegment(lo, segs))
    ensures i < j <= |segs| && Consecutive(segs[i..j], lo, hi)
  {
    var last: nat :| last < |segs| && segs[last].hi == hi;
    i, j := 0, last + 1;
    if lo > 0 {
      var before: nat :| before < |segs| && segs[before].hi == lo;
      EndsInOrder(segs, w, before, last);
      i := before + 1;
    }
    RunIsConsecutive(segs, 0, w, i, j);
  }

  /** A slice is covered by consecutive segments, from its first position to its last. */
  lemma SegmentsCoverSlice(segs: seq<Segment>, slices: seq<Slice>, w: nat, k: nat) returns (i: nat, j: nat)
    requires Consecutive(segs, 0, w) && Tiles(slices, 0, w) && EndsAll(slices, segs) && k < |slices|
    ensures i < j <= |segs| && Consecutive(segs[i..j], slices[k].lo, slices[k].hi)
  {
    TilesStartsLate(slices, 0, w, k);
    if k > 0 {
      TilesStartsWhereBefore(slices, 0, w, k);
      assert EndsASegment(slices[k - 1].hi, segs);
    }
    i, j := SegmentsBetween(segs, w, slices[k].lo, slices[k].hi);
  }

  lemma {:induction false} TilesStartsWhereBefore(a: seq<Slice>, base: nat, end: nat, k: nat)
    requires Tiles(a, base, end) && 0 < k < |a|
    ensures a[k - 1].hi == a[k].lo
  {
    if k > 1 {
      TilesStartsWhereBefore(a[1..], a[0].hi, end, k - 1);
    }
  }

  lemma GridSegmentCarries(lhs: seq<Slice>, rhs: seq<Slice>, w: nat, grid: seq<nat>, i: nat)
    requires Tiles(lhs, 0, w) && Tiles(rhs, 0, w) && CommonGrid(lhs, rhs, grid, w) && i + 1 < |grid|
    ensures Carries(SegmentAt(lhs, rhs, grid, i), lhs, rhs)
  {
    assert grid[i + 1] <= grid[|grid| - 1];
    forall p: nat | grid[i] <= p < grid[i + 1]
      ensures SourcesAt(lhs, grid[i]) == SourcesAt(lhs, p) && SourcesAt(rhs, grid[i]) == SourcesAt(rhs, p)
    {
      GridStaysInSlice(lhs, w, grid, i, p);
      GridStaysInSlice(rhs, w, grid, i, p);
    }
  }

  lemma GridPointEndsASlice(lhs: seq<Slice>, rhs: seq<Slice>, y: nat)
    requires y in Grid(lhs, rhs) && y > 0
    ensures EndsAt(lhs, y) || EndsAt(rhs, y)
  {
    assert y in CollectCuts(lhs) + CollectCuts(rhs);
  }

  /** Each position lies in exactly one of consecutive segments. */
  lemma {:induction false} OneSegmentHas(segs: seq<Segment>, from: nat, w: nat, p: nat) returns (k: nat)
    requires Consecutive(segs, from, w) && from <= p < w
    ensures k < |segs| && segs[k].Has(p)
    ensures forall j :: 0 <= j < |segs| && segs[j].Has(p) ==> j == k
  {
    if p < segs[0].hi {
      k := 0;
      Ascending(segs, from, w);
    } else {
      k := OneSegmentHas(segs[1..], segs[0].hi, w, p);
      assert forall j :: 0 < j < |segs| ==> segs[j] == segs[1..][j - 1];
      k := k + 1;
    }
  }

  lemma {:induction false} Ascending(segs: seq<Segment>, from: nat, w: nat)
    requires Consecutive(segs, from, w)
    ensures from <= w
    ensures forall j :: 0 <= j < |segs| ==> from <= segs[j].lo && segs[j].hi <= w
    ensures forall j, k :: 0 <= j < k < |segs| ==> segs[j].hi <= segs[k].lo
  {
    if segs != [] {
      Ascending(segs[1..], segs[0].hi, w);
      assert forall j :: 0 < j < |segs| ==> segs[j] == segs[1..][j - 1];
    }
  }
}
