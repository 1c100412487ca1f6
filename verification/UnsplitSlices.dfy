/**
  When decomposition leaves an expression in one piece (source/BitSliceList.cpp), read
  off its structure and the cut hints.
  */
module UnsplitSlices {
  import opened BitSlices
  import opened Cuts

  /** The expression becomes at most one slice. */
  predicate Unsplit(e: Expr, hints: Registry)
    decreases e, 0
  {
    match e
    case ValuePath(root, lo, hi, w) => w == 0 || Uncut(root.symbol, lo, hi, hints)
    case Concat(ops) => UnsplitAll(ops, hints)
    case Replicate(count, unit, _) =>
      count.None? || count.value <= 0 || Width(unit) == 0 || (count.value == 1 && Unsplit(unit, hints))
    case Convert(inner, w, _, folded) =>
      if Folds(folded, w) || w < Width(inner) then true
      else if w == Width(inner) then Unsplit(inner, hints)
      else Width(inner) == 0
    case Select(_, plain, left, right, w) =>
      !plain || Width(left) != Width(right) || Width(left) != w || (Unsplit(left, hints) && Unsplit(right, hints))
    case Other(_, _, _) => true
  }

  /** At most one operand has bits, and none is split. */
  predicate UnsplitAll(ops: seq<Expr>, hints: Registry)
    decreases ops, 0
  {
    ops == []
    || (var n := |ops| - 1;
        Unsplit(ops[n], hints) && UnsplitAll(ops[..n], hints) && (Width(ops[n]) == 0 || WidthOfAll(ops[..n]) == 0))
  }

  /** Consecutive slices are none exactly over no bits. */
  lemma NoneOverNothing(slices: seq<Slice>, base: nat, w: nat, q: nat, deps: set<Dep>)
    requires Spells(slices, base, w, q, deps)
    ensures Tiles(slices, base, base + w) && (slices == [] <==> w == 0)
  {
    TilesReach(slices, base, base + w);
  }

  lemma ExpressionTiles(e: Expr, base: nat, hints: Registry)
    requires ValidRegistry(hints) && Sized(e, hints)
    ensures Tiles(Slices(e, base, hints), base, base + Width(e))
    ensures Slices(e, base, hints) == [] <==> Width(e) == 0
  {
    SlicesAreExact(e, base, hints, 0);
    NoneOverNothing(Slices(e, base, hints), base, Width(e), 0, Deps(e, 0));
  }

  lemma OperandsTile(ops: seq<Expr>, base: nat, hints: Registry)
    requires ValidRegistry(hints) && forall i :: 0 <= i < |ops| ==> Sized(ops[i], hints)
    ensures Tiles(SlicesOfAll(ops, base, hints), base, base + WidthOfAll(ops))
    ensures SlicesOfAll(ops, base, hints) == [] <==> WidthOfAll(ops) == 0
  {
    OperandsAreExact(ops, base, hints, 0);
    NoneOverNothing(SlicesOfAll(ops, base, hints), base, WidthOfAll(ops), 0, DepsOfAll(ops, 0));
  }

  lemma CopiesTile(count: int, unit: Expr, base: nat, hints: Registry)
    requires ValidRegistry(hints) && Sized(unit, hints)
    ensures Tiles(SlicesOfCopies(count, unit, base, hints), base, base + Times(count, Width(unit)))
    ensures SlicesOfCopies(count, unit, base, hints) == [] <==> Times(count, Width(unit)) == 0
  {
    CopiesAreExact(count, unit, base, hints, 0);
    NoneOverNothing(SlicesOfCopies(count, unit, base, hints), base, Times(count, Width(unit)), 0, DepsOfCopies(count, unit, 0));
  }

  /** An expression is unsplit exactly when its slices are at most one. */
  lemma {:induction false} UnsplitIsOneSlice(e: Expr, base: nat, hints: Registry)
    requires ValidRegistry(hints) && Sized(e, hints)
    ensures Unsplit(e, hints) <==> |Slices(e, base, hints)| <= 1
    decreases e, 1
  {
    match e
    case ValuePath(root, lo, hi, w) => UnsplitPath(root, lo, hi, w, base, hints);
    case Concat(ops) => UnsplitOperands(ops, base, hints);
    case Replicate(count, unit, _) =>
      if count.Some? && count.value > 0 {
        UnsplitIsOneSlice(unit, base, hints);
        UnsplitCopies(count.value, unit, base, hints);
      }
    case Convert(inner, w, _, folded) =>
      if !Folds(folded, w) && w >= Width(inner) {
        UnsplitIsOneSlice(inner, base, hints);
        ExpressionTiles(inner, base, hints);
      }
    case Select(_, plain, left, right, w) =>
      if plain && Width(left) == Width(right) == w {
        UnsplitIsOneSlice(left, 0, hints);
        UnsplitIsOneSlice(right, 0, hints);
        UnsplitArms(e, base, hints);
      }
    case Other(_, _, _) =>
  }

  lemma {:induction false} StretchesLength(root: Root, lspLo: nat, lspHi: nat, base: nat, prev: nat, inside: seq<nat>)
    requires lspLo <= prev < lspHi && Increasing(inside) && forall y :: y in inside ==> prev < y < lspHi
    ensures |Stretches(root, lspLo, lspHi, base, prev, inside)| == |inside| + 1
    decreases |inside|
  {
    if inside != [] {
      assert inside[0] in inside && forall j :: 0 < j < |inside| ==> inside[j] in inside;
      StretchesLength(root, lspLo, lspHi, base, inside[0], inside[1..]);
    }
  }

  lemma UnsplitPath(root: Root, lo: nat, hi: nat, w: nat, base: nat, hints: Registry)
    requires ValidRegistry(hints) && lo <= hi && (w == hi - lo + 1 || w == 0 || Uncut(root.symbol, lo, hi, hints))
    ensures |LspSlices(root, lo, hi, w, base, hints)| <= 1 <==> w == 0 || Uncut(root.symbol, lo, hi, hints)
  {
    if root.symbol in hints {
      var inside := Between(hints[root.symbol], lo, hi + 1);
      NoneInside(hints[root.symbol], lo, hi + 1);
      if inside != [] {
        StretchesLength(root, lo, hi + 1, base, lo, inside);
      }
    }
  }

  lemma {:induction false} UnsplitOperands(ops: seq<Expr>, base: nat, hints: Registry)
    requires ValidRegistry(hints) && forall i :: 0 <= i < |ops| ==> Sized(ops[i], hints)
    ensures UnsplitAll(ops, hints) <==> |SlicesOfAll(ops, base, hints)| <= 1
    decreases ops, 0
  {
    if ops != [] {
      var n := |ops| - 1;
      var next := base + Width(ops[n]);
      UnsplitIsOneSlice(ops[n], base, hints);
      UnsplitOperands(ops[..n], next, hints);
      ExpressionTiles(ops[n], base, hints);
      OperandsTile(ops[..n], next, hints);
      LowOperand(ops, ops[n], ops[..n], base, next, hints);
    }
  }

  lemma LowOperand(ops: seq<Expr>, e: Expr, rest: seq<Expr>, offset: nat, next: nat, hints: Registry)
    requires ValidRegistry(hints) && ops != [] && e == ops[|ops| - 1] && rest == ops[..|ops| - 1]
    requires Sized(e, hints) && next == offset + Width(e)
    ensures SlicesOfAll(ops, offset, hints) == Slices(e, offset, hints) + SlicesOfAll(rest, next, hints)
  {
    NextStart(e, offset, hints);
    OperandsJoin(ops, e, rest, offset, hints, Width(e), Slices(e, offset, hints), 0);
  }

  lemma LowCopy(count: nat, rest: nat, unit: Expr, offset: nat, next: nat, hints: Registry)
    requires ValidRegistry(hints) && count == rest + 1 && Sized(unit, hints) && next == offset + Width(unit)
    ensures SlicesOfCopies(count, unit, offset, hints) == Slices(unit, offset, hints) + SlicesOfCopies(rest, unit, next, hints)
  {
    NextStart(unit, offset, hints);
    CopySlicesJoin(count, rest, unit, offset, next, hints, Slices(unit, offset, hints));
  }

  lemma UnsplitCopies(count: nat, unit: Expr, base: nat, hints: Registry)
    requires ValidRegistry(hints) && Sized(unit, hints) && count > 0
    requires Unsplit(unit, hints) <==> |Slices(unit, base, hints)| <= 1
    ensures |SlicesOfCopies(count, unit, base, hints)| <= 1 <==> Width(unit) == 0 || (count == 1 && Unsplit(unit, hints))
  {
    var rest, next := count - 1, base + Width(unit);
    LowCopy(count, rest, unit, base, next, hints);
    ExpressionTiles(unit, base, hints);
    CopiesTile(rest, unit, next, hints);
    TimesIsZero(rest, Width(unit));
    var all, low, high := SlicesOfCopies(count, unit, base, hints), Slices(unit, base, hints), SlicesOfCopies(rest, unit, next, hints);
    assert |all| == |low| + |high|;
  }

  lemma {:induction false} TimesIsZero(count: nat, w: nat)
    ensures Times(count, w) == 0 <==> count == 0 || w == 0
  {
    if count > 0 {
      TimesIsZero(count - 1, w);
    }
  }

  lemma UnsplitArms(e: Expr, base: nat, hints: Registry)
    requires ValidRegistry(hints) && Sized(e, hints) && e.Select? && e.plain && Width(e.left) == Width(e.right) == e.width
    ensures |Slices(e, base, hints)| <= 1 <==> |Slices(e.left, 0, hints)| <= 1 && |Slices(e.right, 0, hints)| <= 1
  {
    var l, r, w := Slices(e.left, 0, hints), Slices(e.right, 0, hints), e.width;
    ExpressionTiles(e.left, 0, hints);
    ExpressionTiles(e.right, 0, hints);
    TilesOnGrid(l, r, w);
    GridLength(l, r, e.condition, base, Grid(l, r), 0);
    UnsplitGrid(l, r, w);
  }

  lemma {:induction false} GridLength(l: seq<Slice>, r: seq<Slice>, c: Expr, base: nat, grid: seq<nat>, k: nat)
    requires k < |grid|
    ensures |GridSlices(l, r, c, base, grid, k)| == |grid| - 1 - k
    decreases |grid| - k
  {
    if k + 1 < |grid| {
      GridLength(l, r, c, base, grid, k + 1);
    }
  }

  /** The common grid of two lists has an inner point exactly when one of them has more than one slice. */
  lemma UnsplitGrid(l: seq<Slice>, r: seq<Slice>, w: nat)
    requires Tiles(l, 0, w) && Tiles(r, 0, w) && CommonGrid(l, r, Grid(l, r), w)
    ensures |Grid(l, r)| <= 2 <==> |l| <= 1 && |r| <= 1
  {
    var grid := Grid(l, r);
    if |l| > 1 {
      InnerEnd(l, w);
      InnerPoint(grid, w, l[0].hi);
    }
    if |r| > 1 {
      InnerEnd(r, w);
      InnerPoint(grid, w, r[0].hi);
    }
    if |grid| > 2 {
      var y := grid[1];
      assert y in grid && 0 < y < w;
      assert y in CollectCuts(l) + CollectCuts(r);
      if |l| <= 1 && |r| <= 1 {
        OnlyEnd(l, w);
        OnlyEnd(r, w);
        assert false;
      }
    }
  }

  lemma InnerEnd(a: seq<Slice>, w: nat)
    requires Tiles(a, 0, w) && |a| > 1
    ensures 0 < a[0].hi < w
  {
    TilesStartsLate(a[1..], a[0].hi, w, 0);
  }

  lemma OnlyEnd(a: seq<Slice>, w: nat)
    requires Tiles(a, 0, w) && |a| <= 1
    ensures forall i :: 0 <= i < |a| ==> a[i].hi == w
  {
    TilesReach(a, 0, w);
  }

  lemma InnerPoint(grid: seq<nat>, w: nat, y: nat)
    requires Increasing(grid) && grid != [] && grid[0] == 0 && grid[|grid| - 1] == w && y in grid && 0 < y < w
    ensures |grid| > 2
  {
  }
}
