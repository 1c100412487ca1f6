/**
  Where the slices of an expression meet (source/BitSliceList.cpp), read off its
  structure and the cut hints: at every position inside it, whether a slice starts there.
  */
module Joints {
  import opened BitSlices
  import opened Cuts
  import opened UnsplitSlices

  /**
    A part of the expression begins at bit `p`: an operand, a copy or padding, or a
    registered cut within a path, and through both arms of a conditional.
    */
  predicate IsJoint(e: Expr, p: nat, cuts: Registry)
    decreases e, 0
  {
    match e
    case ValuePath(root, lo, hi, _) => 0 < p && lo + p <= hi && root.symbol in cuts && lo + p in cuts[root.symbol]
    case Concat(ops) => IsJointOfAll(ops, p, cuts)
    case Replicate(count, unit, _) => count.Some? && IsJointOfCopies(count.value, unit, p, cuts)
    case Convert(inner, w, _, folded) =>
      !Folds(folded, w) && w >= Width(inner) && if p < Width(inner) then IsJoint(inner, p, cuts) else p == Width(inner)
    case Select(_, plain, left, right, w) => plain && Width(left) == Width(right) == w && (IsJoint(left, p, cuts) || IsJoint(right, p, cuts))
    case Other(_, _, _) => false
  }

  predicate IsJointOfAll(ops: seq<Expr>, p: nat, cuts: Registry)
    decreases ops, 0
  {
    ops != []
    && (var low := ops[|ops| - 1];
        if p < Width(low) then IsJoint(low, p, cuts)
        else p == Width(low) || IsJointOfAll(ops[..|ops| - 1], p - Width(low), cuts))
  }

  predicate IsJointOfCopies(count: int, unit: Expr, p: nat, cuts: Registry)
    decreases unit, 1, if count <= 0 then 0 else count
  {
    count > 0
    && (if p < Width(unit) then IsJoint(unit, p, cuts)
        else p == Width(unit) || IsJointOfCopies(count - 1, unit, p - Width(unit), cuts))
  }

  ghost predicate StartsAt(slices: seq<Slice>, q: nat) {
    exists k {:trigger slices[k]} :: 0 <= k < |slices| && slices[k].lo == q
  }

  ghost predicate EndsAt(slices: seq<Slice>, q: nat) {
    exists k {:trigger slices[k]} :: 0 <= k < |slices| && slices[k].hi == q
  }

  lemma AppendStarts(a: seq<Slice>, b: seq<Slice>, q: nat)
    ensures StartsAt(a + b, q) <==> StartsAt(a, q) || StartsAt(b, q)
  {
    var all := a + b;
    if StartsAt(a, q) {
      var k :| 0 <= k < |a| && a[k].lo == q;
      assert all[k] == a[k];
    }
    if StartsAt(b, q) {
      var k :| 0 <= k < |b| && b[k].lo == q;
      assert all[|a| + k] == b[k];
    }
    if StartsAt(all, q) {
      var k :| 0 <= k < |all| && all[k].lo == q;
      assert all[k] == if k < |a| then a[k] else b[k - |a|];
    }
  }

  lemma StartsInside(a: seq<Slice>, base: nat, end: nat, q: nat)
    requires Tiles(a, base, end)
    ensures StartsAt(a, q) ==> base <= q < end
    ensures base < end ==> StartsAt(a, base)
  {
    if StartsAt(a, q) {
      var k :| 0 <= k < |a| && a[k].lo == q;
      TilesStartsLate(a, base, end, k);
    }
    if base < end {
      assert a[0].lo == base;
    }
  }

  /** Consecutive slices: strictly inside, one ends where another starts. */
  lemma {:induction false} EndsWhereNextStarts(a: seq<Slice>, base: nat, end: nat, q: nat)
    requires Tiles(a, base, end) && base < q < end
    ensures EndsAt(a, q) <==> StartsAt(a, q)
  {
    var low, rest := a[..1], a[1..];
    assert a == low + rest;
    AppendStarts(low, rest, q);
    StartsInside(rest, a[0].hi, end, q);
    TilesReach(rest, a[0].hi, end);
    if a[0].hi < q {
      EndsWhereNextStarts(rest, a[0].hi, end, q);
      if EndsAt(a, q) {
        var k :| 0 <= k < |a| && a[k].hi == q;
        assert rest[k - 1] == a[k];
      }
      if EndsAt(rest, q) {
        var k :| 0 <= k < |rest| && rest[k].hi == q;
        assert a[k + 1] == rest[k];
      }
    } else if a[0].hi == q {
      assert a[0].hi == q;
    } else if EndsAt(a, q) {
      var k :| 0 <= k < |a| && a[k].hi == q;
      assert k > 0;
      TilesStartsLate(rest, a[0].hi, end, k - 1);
    }
  }

  /** A list joined from two has the joints of both, and one where they meet. */
  lemma JoinStarts(all: seq<Slice>, low: seq<Slice>, high: seq<Slice>, base: nat, mid: nat, end: nat, q: nat)
    requires all == low + high && Tiles(low, base, mid) && Tiles(high, mid, end) && q < end
    ensures StartsAt(all, q) <==> if q < mid then StartsAt(low, q) else q == mid || StartsAt(high, q)
  {
    AppendStarts(low, high, q);
    StartsInside(low, base, mid, q);
    StartsInside(high, mid, end, q);
  }

  lemma OneSliceStarts(slices: seq<Slice>, base: nat, q: nat)
    requires |slices| <= 1 && (slices != [] ==> slices[0].lo == base) && base < q
    ensures !StartsAt(slices, q)
  {
  }

  lemma {:induction false} StretchesStart(root: Root, lspLo: nat, lspHi: nat, base: nat, prev: nat, inside: seq<nat>, y: nat)
    requires lspLo <= prev < lspHi && Increasing(inside) && (forall y :: y in inside ==> prev < y < lspHi) && prev < y
    ensures StartsAt(Stretches(root, lspLo, lspHi, base, prev, inside), base + (y - lspLo)) <==> y in inside
    decreases |inside|
  {
    var slices := Stretches(root, lspLo, lspHi, base, prev, inside);
    if inside != [] {
      assert inside[0] in inside && forall j :: 0 < j < |inside| ==> inside[j] in inside;
      var next, rest := inside[0], Stretches(root, lspLo, lspHi, base, inside[0], inside[1..]);
      assert inside == [next] + inside[1..];
      StretchesTile(root, lspLo, lspHi, base, next, inside[1..]);
      StartsInside(rest, base + (next - lspLo), base + (lspHi - lspLo), base + (y - lspLo));
      AppendStarts(slices[..1], rest, base + (y - lspLo));
      assert slices == slices[..1] + rest;
      if next < y {
        StretchesStart(root, lspLo, lspHi, base, next, inside[1..], y);
      }
    }
  }

  lemma PathStarts(slices: seq<Slice>, root: Root, lo: nat, hi: nat, w: nat, base: nat, inside: seq<nat>, p: nat, q: nat)
    requires lo <= hi && Increasing(inside) && (forall y :: y in inside ==> lo < y < hi + 1) && 0 < p < w && q == base + p
    requires inside == [] ==> |slices| == 1 && slices[0].lo == base
    requires inside != [] ==> slices == Stretches(root, lo, hi + 1, base, lo, inside)
    ensures StartsAt(slices, q) <==> lo + p in inside
  {
    if inside == [] {
      OneSliceStarts(slices, base, q);
    } else {
      StretchesStart(root, lo, hi + 1, base, lo, inside, lo + p);
    }
  }

  lemma PathStartsAtCuts(root: Root, s: Symbol, lo: nat, hi: nat, w: nat, base: nat, cuts: Registry, p: nat)
    requires ValidRegistry(cuts) && lo <= hi && 0 < p < w && s == root.symbol
    ensures StartsAt(LspSlices(root, lo, hi, w, base, cuts), base + p) <==> lo + p <= hi && s in cuts && lo + p in cuts[s]
  {
    var inside := if s in cuts then Between(cuts[s], lo, hi + 1) else [];
    PathStarts(LspSlices(root, lo, hi, w, base, cuts), root, lo, hi, w, base, inside, p, base + p);
  }

  lemma PrependStarts(slices: seq<Slice>, rest: seq<Slice>, q: nat)
    requires slices != [] && rest == slices[1..]
    ensures StartsAt(slices, q) <==> slices[0].lo == q || StartsAt(rest, q)
  {
    assert slices == slices[..1] + rest;
    AppendStarts(slices[..1], rest, q);
    if slices[0].lo == q {
      assert slices[..1][0] == slices[0];
    }
  }

  lemma {:induction false} GridStarts(l: seq<Slice>, r: seq<Slice>, c: Expr, base: nat, grid: seq<nat>, k: nat, p: nat)
    requires Increasing(grid) && k < |grid|
    ensures StartsAt(GridSlices(l, r, c, base, grid, k), base + p) <==> p in grid[k..|grid| - 1]
    decreases |grid| - k
  {
    if k + 1 < |grid| {
      GridStarts(l, r, c, base, grid, k + 1, p);
      PrependStarts(GridSlices(l, r, c, base, grid, k), GridSlices(l, r, c, base, grid, k + 1), base + p);
      assert grid[k..|grid| - 1] == [grid[k]] + grid[k + 1..|grid| - 1];
    }
  }

  /** A common grid has an inner point exactly where a slice of either list starts. */
  lemma GridIsJoints(l: seq<Slice>, r: seq<Slice>, w: nat, grid: seq<nat>, p: nat)
    requires Tiles(l, 0, w) && Tiles(r, 0, w) && grid == Grid(l, r) && CommonGrid(l, r, grid, w) && 0 < p < w
    ensures p in grid[0..|grid| - 1] <==> StartsAt(l, p) || StartsAt(r, p)
  {
    EndsWhereNextStarts(l, 0, w, p);
    EndsWhereNextStarts(r, 0, w, p);
    CutsAreEnds(l, p);
    CutsAreEnds(r, p);
    GridHas(l, r, p);
    FrontHas(grid, w, p);
  }

  lemma GridHas(l: seq<Slice>, r: seq<Slice>, p: nat)
    ensures p in Grid(l, r) <==> p in CollectCuts(l) || p in CollectCuts(r)
  {
  }

  lemma FrontHas(grid: seq<nat>, w: nat, p: nat)
    requires grid != [] && grid[|grid| - 1] == w && p < w
    ensures p in grid[0..|grid| - 1] <==> p in grid
  {
    assert grid == grid[0..|grid| - 1] + [w];
  }

  lemma CutsAreEnds(slices: seq<Slice>, p: nat)
    requires p > 0
    ensures p in CollectCuts(slices) <==> EndsAt(slices, p)
  {
  }

  lemma ArmsStart(l: seq<Slice>, r: seq<Slice>, c: Expr, base: nat, w: nat, grid: seq<nat>, p: nat)
    requires Tiles(l, 0, w) && Tiles(r, 0, w) && grid == Grid(l, r) && 0 < p < w
    ensures StartsAt(GridSlices(l, r, c, base, grid, 0), base + p) <==> StartsAt(l, p) || StartsAt(r, p)
  {
    GridOfTwo(l, r, w);
    GridStarts(l, r, c, base, grid, 0, p);
    GridIsJoints(l, r, w, grid, p);
  }

  /** Strictly inside an expression, a slice starts exactly at its joints. */
  lemma {:induction false} SlicesStartAtJoints(e: Expr, base: nat, cuts: Registry, p: nat, q: nat)
    requires ValidRegistry(cuts) && Sized(e, cuts) && 0 < p < Width(e) && q == base + p
    ensures StartsAt(Slices(e, base, cuts), q) <==> IsJoint(e, p, cuts)
    decreases e, 3
  {
    match e
    case ValuePath(root, lo, hi, w) => PathStartsAtCuts(root, root.symbol, lo, hi, w, base, cuts, p);
    case Concat(ops) => OperandsStart(ops, base, base + WidthOfAll(ops), cuts, p, q);
    case Replicate(count, unit, _) =>
      if count.Some? {
        CopiesStart(count.value, unit, base, base + Width(e), cuts, p, q);
      } else {
        OneSliceStarts(Slices(e, base, cuts), base, q);
      }
    case Convert(_, _, _, _) => ConversionStarts(e, e.inner, Width(e.inner), base, cuts, p, q);
    case Select(_, _, _, _, _) => ConditionalStarts(e, base, cuts, p, q);
    case Other(_, _, _) => OneSliceStarts(Slices(e, base, cuts), base, q);
  }

  lemma {:induction false} ConversionStarts(e: Expr, inner: Expr, w: nat, base: nat, cuts: Registry, p: nat, q: nat)
    requires ValidRegistry(cuts) && Sized(e, cuts) && e.Convert? && 0 < p < e.width && inner == e.inner && w == Width(inner) && q == base + p
    ensures StartsAt(Slices(e, base, cuts), q) <==> IsJoint(e, p, cuts)
    decreases e, 2
  {
    if Folds(e.folded, e.width) || e.width < w {
      OneSliceStarts(Slices(e, base, cuts), base, q);
    } else {
      if p < w {
        SlicesStartAtJoints(inner, base, cuts, p, q);
      }
      if e.width > w {
        ExpressionTiles(inner, base, cuts);
        WidenedStarts(Slices(e, base, cuts), Slices(inner, base, cuts), base, w, e.width, e.signExtend, q);
      }
    }
  }

  lemma WidenedStarts(all: seq<Slice>, low: seq<Slice>, base: nat, w: nat, total: nat, signExtend: bool, q: nat)
    requires Tiles(low, base, base + w) && w < total && all == Widened(low, base, total - w, signExtend) && base < q < base + total
    ensures StartsAt(all, q) <==> if q < base + w then StartsAt(low, q) else q == base + w
  {
    TilesReach(low, base, base + w);
    var top := [ExtensionSlice(base + w, total - w, signExtend)];
    assert top[1..] == [];
    JoinStarts(all, low, top, base, base + w, base + total, q);
    if q > base + w {
      OneSliceStarts(top, base + w, q);
    }
  }

  /** Of a conditional that is taken apart, every slice starts where one of its arms' slices does. */
  lemma ConditionalSplit(e: Expr, base: nat, cuts: Registry, l: seq<Slice>, r: seq<Slice>, p: nat, q: nat)
    requires ValidRegistry(cuts) && Sized(e, cuts) && e.Select? && 0 < p < e.width && q == base + p
    requires e.plain && Width(e.left) == Width(e.right) == e.width
    requires l == Slices(e.left, 0, cuts) && r == Slices(e.right, 0, cuts)
    ensures StartsAt(Slices(e, base, cuts), q) <==> StartsAt(l, p) || StartsAt(r, p)
  {
    LowTiles(e.left, 0, e.width, cuts, l);
    LowTiles(e.right, 0, e.width, cuts, r);
    TilesOnGrid(l, r, e.width);
    ArmsStart(l, r, e.condition, base, e.width, Grid(l, r), p);
  }

  lemma {:induction false} ConditionalStarts(e: Expr, base: nat, cuts: Registry, p: nat, q: nat)
    requires ValidRegistry(cuts) && Sized(e, cuts) && e.Select? && 0 < p < e.width && q == base + p
    ensures StartsAt(Slices(e, base, cuts), q) <==> IsJoint(e, p, cuts)
    decreases e, 2
  {
    if e.plain && Width(e.left) == Width(e.right) == e.width {
      SlicesStartAtJoints(e.left, 0, cuts, p, p);
      SlicesStartAtJoints(e.right, 0, cuts, p, p);
      ConditionalSplit(e, base, cuts, Slices(e.left, 0, cuts), Slices(e.right, 0, cuts), p, q);
    } else {
      OneSliceStarts(Slices(e, base, cuts), base, q);
    }
  }

  lemma JointsOfAllJoin(ops: seq<Expr>, e: Expr, rest: seq<Expr>, w: nat, cuts: Registry, p: nat)
    requires ops != [] && e == ops[|ops| - 1] && rest == ops[..|ops| - 1] && w == Width(e)
    ensures WidthOfAll(ops) == w + WidthOfAll(rest)
    ensures IsJointOfAll(ops, p, cuts) <==> if p < w then IsJoint(e, p, cuts) else p == w || IsJointOfAll(rest, p - w, cuts)
  {
  }

  lemma LowTiles(e: Expr, base: nat, mid: nat, cuts: Registry, low: seq<Slice>)
    requires ValidRegistry(cuts) && Sized(e, cuts) && mid == base + Width(e) && low == Slices(e, base, cuts)
    ensures Tiles(low, base, mid)
  {
    ExpressionTiles(e, base, cuts);
  }

  lemma HighTiles(rest: seq<Expr>, mid: nat, end: nat, cuts: Registry, high: seq<Slice>)
    requires ValidRegistry(cuts) && forall i :: 0 <= i < |rest| ==> Sized(rest[i], cuts)
    requires end == mid + WidthOfAll(rest) && high == SlicesOfAll(rest, mid, cuts)
    ensures Tiles(high, mid, end)
  {
    OperandsTile(rest, mid, cuts);
  }

  lemma OperandsSplit(ops: seq<Expr>, e: Expr, rest: seq<Expr>, base: nat, mid: nat, end: nat, cuts: Registry,
                      all: seq<Slice>, low: seq<Slice>, high: seq<Slice>, q: nat)
    requires ValidRegistry(cuts) && ops != [] && e == ops[|ops| - 1] && rest == ops[..|ops| - 1] && Sized(e, cuts)
    requires mid == base + Width(e) && Tiles(low, base, mid) && Tiles(high, mid, end) && q < end
    requires all == SlicesOfAll(ops, base, cuts) && low == Slices(e, base, cuts) && high == SlicesOfAll(rest, mid, cuts)
    ensures StartsAt(all, q) <==> if q < mid then StartsAt(low, q) else q == mid || StartsAt(high, q)
  {
    LowOperand(ops, e, rest, base, mid, cuts);
    JoinStarts(all, low, high, base, mid, end, q);
  }

  lemma {:induction false} OperandsStart(ops: seq<Expr>, base: nat, end: nat, cuts: Registry, p: nat, q: nat)
    requires ValidRegistry(cuts) && (forall i :: 0 <= i < |ops| ==> Sized(ops[i], cuts)) && 0 < p < WidthOfAll(ops)
    requires end == base + WidthOfAll(ops) && q == base + p
    ensures StartsAt(SlicesOfAll(ops, base, cuts), q) <==> IsJointOfAll(ops, p, cuts)
    decreases ops, 0
  {
    var e, rest := ops[|ops| - 1], ops[..|ops| - 1];
    var w := Width(e);
    var mid := base + w;
    JointsOfAllJoin(ops, e, rest, w, cuts, p);
    var all, low, high := SlicesOfAll(ops, base, cuts), Slices(e, base, cuts), SlicesOfAll(rest, mid, cuts);
    LowTiles(e, base, mid, cuts, low);
    HighTiles(rest, mid, end, cuts, high);
    OperandsSplit(ops, e, rest, base, mid, end, cuts, all, low, high, q);
    if p < w {
      SlicesStartAtJoints(e, base, cuts, p, q);
    } else if p > w {
      OperandsStart(rest, mid, end, cuts, p - w, q);
    }
  }

  lemma JointsOfCopiesJoin(count: int, rest: int, unit: Expr, w: nat, cuts: Registry, p: nat)
    requires rest >= 0 && count == rest + 1 && w == Width(unit)
    ensures Times(count, w) == w + Times(rest, w)
    ensures IsJointOfCopies(count, unit, p, cuts)
            <==> if p < w then IsJoint(unit, p, cuts) else p == w || IsJointOfCopies(rest, unit, p - w, cuts)
  {
  }

  lemma CopiesSplit(count: nat, rest: nat, unit: Expr, base: nat, mid: nat, end: nat, cuts: Registry, q: nat)
    requires ValidRegistry(cuts) && count == rest + 1 && Sized(unit, cuts)
    requires mid == base + Width(unit) && end == mid + Times(rest, Width(unit)) && q < end
    ensures StartsAt(SlicesOfCopies(count, unit, base, cuts), q)
            <==> if q < mid then StartsAt(Slices(unit, base, cuts), q) else q == mid || StartsAt(SlicesOfCopies(rest, unit, mid, cuts), q)
  {
    LowCopy(count, rest, unit, base, mid, cuts);
    ExpressionTiles(unit, base, cuts);
    CopiesTile(rest, unit, mid, cuts);
    JoinStarts(SlicesOfCopies(count, unit, base, cuts), Slices(unit, base, cuts), SlicesOfCopies(rest, unit, mid, cuts), base, mid, end, q);
  }

  lemma {:induction false} CopiesStart(count: int, unit: Expr, base: nat, end: nat, cuts: Registry, p: nat, q: nat)
    requires ValidRegistry(cuts) && (count > 0 ==> Sized(unit, cuts)) && 0 < p < Times(count, Width(unit))
    requires end == base + Times(count, Width(unit)) && q == base + p
    ensures StartsAt(SlicesOfCopies(count, unit, base, cuts), q) <==> IsJointOfCopies(count, unit, p, cuts)
    decreases unit, 4, if count <= 0 then 0 else count
  {
    var w, rest := Width(unit), count - 1;
    var mid := base + w;
    JointsOfCopiesJoin(count, rest, unit, w, cuts, p);
    CopiesSplit(count, rest, unit, base, mid, end, cuts, q);
    if p < w {
      SlicesStartAtJoints(unit, base, cuts, p, q);
    } else if p > w {
      CopiesStart(rest, unit, mid, end, cuts, p - w, q);
    }
  }
}
