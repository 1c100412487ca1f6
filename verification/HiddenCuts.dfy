/**
  Conditionals hide cuts (source/PortConnectionHandler.cpp): the walk that collects the
  cuts of an actual does not enter a `?:`, although decomposition takes it apart. The
  cuts are complete exactly when no such conditional has an arm in several slices.
  */
module HiddenCuts {
  import opened BitSlices
  import opened Cuts
  import opened PortCuts
  import opened UnsplitSlices

  /** All cuts lie between the ends of the expression. */
  ghost predicate Inside(cuts: seq<nat>, lo: nat, hi: nat) {
    forall y :: y in cuts ==> lo <= y <= hi
  }

  lemma JoinInside(cuts: seq<nat>, a: seq<nat>, mid: seq<nat>, b: seq<nat>, lo: nat, next: nat, hi: nat)
    requires lo <= next <= hi && cuts == a + mid + b && (mid == [] || mid == [next])
    requires Inside(a, lo, next) && Inside(b, next, hi)
    ensures Inside(cuts, lo, hi)
  {
  }

  /**
    No cut is collected beyond an expression: a path with a dynamic index, narrower than
    the bits it may read, has no cut inside those bits.
    */
  predicate NoStrayCut(e: Expr, registry: Registry)
    decreases e, 0
  {
    match e
    case ValuePath(root, lo, hi, w) => w == hi - lo + 1 || Uncut(root.symbol, lo, hi, registry)
    case Concat(ops) => forall i :: 0 <= i < |ops| ==> NoStrayCut(ops[i], registry)
    case Replicate(count, unit, _) => count.None? || count.value <= 0 || NoStrayCut(unit, registry)
    case Convert(inner, w, _, _) => w < Width(inner) || NoStrayCut(inner, registry)
    case _ => true
  }

  lemma {:induction false} CutsStayInside(e: Expr, base: nat, registry: Registry)
    requires ValidRegistry(registry) && NoStrayCut(e, registry)
    ensures Inside(ActualCuts(e, base, registry), base, base + Width(e))
    decreases e, 1
  {
    match e
    case ValuePath(root, lo, hi, w) =>
      if root.symbol in registry {
        NoneInside(registry[root.symbol], lo, hi + 1);
        PathCutsStayInside(Between(registry[root.symbol], lo, hi + 1), base, lo, hi, w);
      }
    case Concat(ops) => OperandCutsStayInside(ops, base, base + WidthOfAll(ops), registry);
    case Replicate(count, unit, _) =>
      if count.Some? && count.value > 0 {
        CopyCutsStayInside(count.value, unit, base, base + Width(e), registry);
      }
    case Convert(inner, w, _, _) =>
      if w >= Width(inner) {
        CutsStayInside(inner, base, registry);
      }
    case _ =>
  }

  lemma {:induction false} MovedInside(inside: seq<nat>, base: nat, lo: nat, hi: nat)
    requires lo <= hi && forall y :: y in inside ==> lo < y < hi
    ensures Inside(Moved(inside, base, lo), base, base + (hi - lo))
  {
    if inside != [] {
      assert inside[0] in inside && forall y :: y in inside[1..] ==> y in inside;
      MovedInside(inside[1..], base, lo, hi);
    }
  }

  lemma PathCutsStayInside(inside: seq<nat>, base: nat, lo: nat, hi: nat, w: nat)
    requires (forall y :: y in inside ==> lo < y < hi + 1) && (inside == [] || w == hi - lo + 1)
    ensures Inside(Moved(inside, base, lo), base, base + w)
  {
    if inside != [] {
      assert inside[0] in inside;
      MovedInside(inside, base, lo, hi + 1);
    }
  }

  lemma {:induction false} OperandCutsStayInside(ops: seq<Expr>, offset: nat, end: nat, registry: Registry)
    requires ValidRegistry(registry) && (forall i :: 0 <= i < |ops| ==> NoStrayCut(ops[i], registry)) && end == offset + WidthOfAll(ops)
    ensures Inside(OperandCuts(ops, offset, end, registry), offset, end)
    decreases ops, 0
  {
    if ops != [] {
      var n := |ops| - 1;
      var next := offset + Width(ops[n]);
      CutsStayInside(ops[n], offset, registry);
      OperandCutsStayInside(ops[..n], next, end, registry);
      JoinInside(OperandCuts(ops, offset, end, registry), ActualCuts(ops[n], offset, registry), if next != end then [next] else [],
                 OperandCuts(ops[..n], next, end, registry), offset, next, end);
    }
  }

  lemma {:induction false} CopyCutsStayInside(count: nat, unit: Expr, offset: nat, end: nat, registry: Registry)
    requires ValidRegistry(registry) && NoStrayCut(unit, registry) && end == offset + Times(count, Width(unit))
    ensures Inside(CopyCuts(count, unit, offset, end, registry), offset, end)
    decreases unit, 2, count
  {
    if count > 0 {
      var next := offset + Width(unit);
      CutsStayInside(unit, offset, registry);
      CopyCutsStayInside(count - 1, unit, next, end, registry);
      JoinInside(CopyCuts(count, unit, offset, end, registry), ActualCuts(unit, offset, registry), if next != end then [next] else [],
                 CopyCuts(count - 1, unit, next, end, registry), offset, next, end);
    }
  }

  /** A slice ends strictly inside, where no cut is. */
  ghost predicate HidesEnd(slices: seq<Slice>, base: nat, end: nat, cuts: seq<nat>) {
    exists k {:trigger slices[k]} :: 0 <= k < |slices| && base < slices[k].hi < end && slices[k].hi !in cuts
  }

  /** What hides in the low part still hides in the whole: the other part's cuts lie above it. */
  lemma LowHides(all: seq<Slice>, a: seq<Slice>, b: seq<Slice>, base: nat, next: nat, end: nat,
                 cuts: seq<nat>, aCuts: seq<nat>, mid: seq<nat>, bCuts: seq<nat>)
    requires all == a + b && cuts == aCuts + mid + bCuts && (mid == [] || mid == [next]) && next <= end
    requires HidesEnd(a, base, next, aCuts) && Inside(bCuts, next, end)
    ensures HidesEnd(all, base, end, cuts)
  {
    var k :| 0 <= k < |a| && base < a[k].hi < next && a[k].hi !in aCuts;
    assert all[k] == a[k];
  }

  lemma HighHides(all: seq<Slice>, a: seq<Slice>, b: seq<Slice>, base: nat, next: nat, end: nat,
                  cuts: seq<nat>, aCuts: seq<nat>, mid: seq<nat>, bCuts: seq<nat>)
    requires all == a + b && cuts == aCuts + mid + bCuts && (mid == [] || mid == [next]) && base <= next
    requires HidesEnd(b, next, end, bCuts) && Inside(aCuts, base, next)
    ensures HidesEnd(all, base, end, cuts)
  {
    var k :| 0 <= k < |b| && next < b[k].hi < end && b[k].hi !in bCuts;
    assert all[|a| + k] == b[k];
  }

  /** Where an arm of a conditional is in several slices, an end is hidden. */
  lemma {:induction false} EndIsHidden(e: Expr, base: nat, hints: Registry, registry: Registry)
    requires ValidRegistry(registry) && ValidRegistry(hints) && Sized(e, hints) && NoStrayCut(e, registry) && !NoHiddenEnd(e, hints)
    ensures HidesEnd(Slices(e, base, hints), base, base + Width(e), ActualCuts(e, base, registry))
    decreases e, 1
  {
    match e
    case Concat(ops) =>
      var i :| 0 <= i < |ops| && !NoHiddenEnd(ops[i], hints);
      OperandHides(ops, i, base, base + WidthOfAll(ops), hints, registry);
    case Replicate(count, unit, _) => CopyHides(count.value, unit, base, base + Width(e), hints, registry);
    case Convert(inner, _, _, _) =>
      EndIsHidden(inner, base, hints, registry);
      ConversionHides(e, inner, base, hints, registry, Slices(inner, base, hints), ActualCuts(inner, base, registry), Width(inner));
    case Select(_, _, _, _, _) => ConditionalHides(e, base, hints, registry);
  }

  lemma ConversionHides(e: Expr, inner: Expr, base: nat, hints: Registry, registry: Registry, low: seq<Slice>, lowCuts: seq<nat>, w: nat)
    requires ValidRegistry(registry) && ValidRegistry(hints) && e.Convert? && e.inner == inner && !Folds(e.folded, e.width) && e.width >= w
    requires low == Slices(inner, base, hints) && lowCuts == ActualCuts(inner, base, registry) && w == Width(inner)
    requires HidesEnd(low, base, base + w, lowCuts)
    ensures HidesEnd(Slices(e, base, hints), base, base + e.width, ActualCuts(e, base, registry))
  {
    ConversionSlices(e, inner, base, hints, low, w);
    ConversionCuts(e, inner, base, registry, lowCuts, w);
    if e.width > w {
      WidenedHides(Slices(e, base, hints), low, base, w, e.width, e.signExtend, ActualCuts(e, base, registry), lowCuts);
    }
  }

  lemma ConversionSlices(e: Expr, inner: Expr, base: nat, hints: Registry, low: seq<Slice>, w: nat)
    requires ValidRegistry(hints) && e.Convert? && e.inner == inner && !Folds(e.folded, e.width) && e.width >= w
    requires low == Slices(inner, base, hints) && w == Width(inner)
    ensures Slices(e, base, hints) == if e.width == w then low else Widened(low, base, e.width - w, e.signExtend)
  {
  }

  lemma ConversionCuts(e: Expr, inner: Expr, base: nat, registry: Registry, lowCuts: seq<nat>, w: nat)
    requires ValidRegistry(registry) && e.Convert? && e.inner == inner && e.width >= w
    requires lowCuts == ActualCuts(inner, base, registry) && w == Width(inner)
    ensures ActualCuts(e, base, registry) == if e.width == w then lowCuts else lowCuts + [base + w]
  {
  }

  lemma WidenedHides(all: seq<Slice>, low: seq<Slice>, base: nat, w: nat, total: nat, signExtend: bool, cuts: seq<nat>, lowCuts: seq<nat>)
    requires total > w && all == Widened(low, base, total - w, signExtend) && cuts == lowCuts + [base + w]
    requires HidesEnd(low, base, base + w, lowCuts)
    ensures HidesEnd(all, base, base + total, cuts)
  {
    var k :| 0 <= k < |low| && base < low[k].hi < base + w && low[k].hi !in lowCuts;
    assert all[k] == low[k];
  }

  lemma ConditionalHides(e: Expr, base: nat, hints: Registry, registry: Registry)
    requires ValidRegistry(registry) && ValidRegistry(hints) && Sized(e, hints) && e.Select? && !NoHiddenEnd(e, hints)
    ensures HidesEnd(Slices(e, base, hints), base, base + Width(e), ActualCuts(e, base, registry))
  {
    UnsplitIsOneSlice(e, base, hints);
    ExpressionTiles(e, base, hints);
    FirstEndsInside(Slices(e, base, hints), base, base + Width(e));
  }

  lemma FirstEndsInside(slices: seq<Slice>, base: nat, end: nat)
    requires Tiles(slices, base, end) && |slices| > 1
    ensures HidesEnd(slices, base, end, [])
  {
    TilesStartsLate(slices[1..], slices[0].hi, end, 0);
    assert base < slices[0].hi < end;
  }

  lemma OperandCutsJoin(ops: seq<Expr>, low: Expr, rest: seq<Expr>, offset: nat, next: nat, end: nat, registry: Registry)
    requires ValidRegistry(registry) && ops != [] && low == ops[|ops| - 1] && rest == ops[..|ops| - 1] && next == offset + Width(low)
    ensures OperandCuts(ops, offset, end, registry)
            == ActualCuts(low, offset, registry) + (if next != end then [next] else []) + OperandCuts(rest, next, end, registry)
  {
  }

  lemma {:induction false} OperandHides(ops: seq<Expr>, i: nat, offset: nat, end: nat, hints: Registry, registry: Registry)
    requires ValidRegistry(registry) && ValidRegistry(hints) && (forall k :: 0 <= k < |ops| ==> Sized(ops[k], hints) && NoStrayCut(ops[k], registry))
    requires end == offset + WidthOfAll(ops) && i < |ops| && !NoHiddenEnd(ops[i], hints)
    ensures HidesEnd(SlicesOfAll(ops, offset, hints), offset, end, OperandCuts(ops, offset, end, registry))
    decreases ops, 1
  {
    var n := |ops| - 1;
    var low, rest, next := ops[n], ops[..n], offset + Width(ops[n]);
    LowOperand(ops, low, rest, offset, next, hints);
    OperandCutsJoin(ops, low, rest, offset, next, end, registry);
    CutsStayInside(low, offset, registry);
    OperandCutsStayInside(rest, next, end, registry);
    var all, a, b := SlicesOfAll(ops, offset, hints), Slices(low, offset, hints), SlicesOfAll(rest, next, hints);
    var cuts, aCuts := OperandCuts(ops, offset, end, registry), ActualCuts(low, offset, registry);
    var bCuts := OperandCuts(rest, next, end, registry);
    if i == n {
      EndIsHidden(low, offset, hints, registry);
      LowHides(all, a, b, offset, next, end, cuts, aCuts, if next != end then [next] else [], bCuts);
    } else {
      OperandHides(rest, i, next, end, hints, registry);
      HighHides(all, a, b, offset, next, end, cuts, aCuts, if next != end then [next] else [], bCuts);
    }
  }

  lemma CopyCutsJoin(count: nat, rest: nat, unit: Expr, offset: nat, next: nat, end: nat, registry: Registry)
    requires ValidRegistry(registry) && count == rest + 1 && next == offset + Width(unit)
    ensures CopyCuts(count, unit, offset, end, registry)
            == ActualCuts(unit, offset, registry) + (if next != end then [next] else []) + CopyCuts(rest, unit, next, end, registry)
  {
  }

  lemma {:induction false} CopyHides(count: nat, unit: Expr, offset: nat, end: nat, hints: Registry, registry: Registry)
    requires ValidRegistry(registry) && ValidRegistry(hints) && Sized(unit, hints) && NoStrayCut(unit, registry) && !NoHiddenEnd(unit, hints)
    requires count > 0 && end == offset + Times(count, Width(unit))
    ensures HidesEnd(SlicesOfCopies(count, unit, offset, hints), offset, end, CopyCuts(count, unit, offset, end, registry))
    decreases unit, 3
  {
    EndIsHidden(unit, offset, hints, registry);
    FirstCopyHides(count, count - 1, unit, offset, offset + Width(unit), end, hints, registry);
  }

  lemma FirstCopyHides(count: nat, rest: nat, unit: Expr, offset: nat, next: nat, end: nat, hints: Registry, registry: Registry)
    requires ValidRegistry(registry) && ValidRegistry(hints) && Sized(unit, hints) && NoStrayCut(unit, registry)
    requires count == rest + 1 && next == offset + Width(unit) && end == next + Times(rest, Width(unit))
    requires HidesEnd(Slices(unit, offset, hints), offset, next, ActualCuts(unit, offset, registry))
    ensures HidesEnd(SlicesOfCopies(count, unit, offset, hints), offset, end, CopyCuts(count, unit, offset, end, registry))
  {
    LowCopy(count, rest, unit, offset, next, hints);
    CopyCutsJoin(count, rest, unit, offset, next, end, registry);
    CopyCutsStayInside(rest, unit, next, end, registry);
    var all, a, b := SlicesOfCopies(count, unit, offset, hints), Slices(unit, offset, hints), SlicesOfCopies(rest, unit, next, hints);
    var cuts, aCuts := CopyCuts(count, unit, offset, end, registry), ActualCuts(unit, offset, registry);
    var bCuts := CopyCuts(rest, unit, next, end, registry);
    LowHides(all, a, b, offset, next, end, cuts, aCuts, if next != end then [next] else [], bCuts);
  }

  /** The cuts collected from an expression cover every inner end of its slices exactly when no conditional in it hides one. */
  lemma CutsAreCompleteIffNoHiddenEnd(e: Expr, base: nat, hints: Registry, registry: Registry)
    requires ValidRegistry(registry) && ValidRegistry(hints) && hints.Items <= registry.Items && Sized(e, hints) && NoStrayCut(e, registry)
    ensures EndsOnCuts(Slices(e, base, hints), base + Width(e), ActualCuts(e, base, registry)) <==> NoHiddenEnd(e, hints)
  {
    if NoHiddenEnd(e, hints) {
      BoundariesAreCuts(e, base, hints, registry);
    } else {
      EndIsHidden(e, base, hints, registry);
    }
  }

  lemma OneOperand(e: Expr, hints: Registry)
    ensures WidthOfAll([e]) == Width(e) && (UnsplitAll([e], hints) <==> Unsplit(e, hints))
  {
    assert [e][..0] == [];
  }

  /** A concatenation of two. */
  lemma PairOf(high: Expr, low: Expr, e: Expr, hints: Registry)
    requires e == Concat([high, low])
    ensures Width(e) == Width(high) + Width(low) && (Sized(e, hints) <==> Sized(high, hints) && Sized(low, hints))
    ensures NoStrayCut(e, hints) <==> NoStrayCut(high, hints) && NoStrayCut(low, hints)
    ensures NoHiddenEnd(e, hints) <==> NoHiddenEnd(high, hints) && NoHiddenEnd(low, hints)
    ensures Unsplit(e, hints) <==> Unsplit(high, hints) && Unsplit(low, hints) && (Width(low) == 0 || Width(high) == 0)
  {
    var ops := e.operands;
    assert ops[..|ops| - 1] == [high] && ops[|ops| - 1] == low && ops[0] == high;
    OneOperand(high, hints);
  }

  lemma HiddenEndIsNoCut(e: Expr, hints: Registry)
    requires ValidRegistry(hints) && Sized(e, hints) && NoStrayCut(e, hints) && !NoHiddenEnd(e, hints)
    ensures !EndsOnCuts(Slices(e, 0, hints), Width(e), ActualCuts(e, 0, hints))
  {
    EndIsHidden(e, 0, hints, hints);
  }

  lemma SplitChoice(choice: Expr, arm: Expr, hints: Registry)
    requires choice.Select? && choice.plain && choice.left == arm && Width(arm) == Width(choice.right) == choice.width
    requires Sized(arm, hints) && Sized(choice.right, hints) && !Unsplit(arm, hints)
    ensures Sized(choice, hints) && NoStrayCut(choice, hints) && Width(choice) == choice.width && !NoHiddenEnd(choice, hints)
  {
  }

  lemma SplitPair(a: Expr, b: Expr, arm: Expr, hints: Registry)
    requires Sized(a, hints) && Sized(b, hints) && Width(a) > 0 && Width(b) > 0 && arm == Concat([a, b])
    ensures Sized(arm, hints) && Width(arm) == Width(a) + Width(b) && !Unsplit(arm, hints)
  {
    PairOf(a, b, arm, hints);
  }

  lemma HiddenInPair(choice: Expr, z: Expr, e: Expr, hints: Registry)
    requires Sized(choice, hints) && NoStrayCut(choice, hints) && !NoHiddenEnd(choice, hints) && e == Concat([choice, z])
    requires Sized(z, hints) && NoStrayCut(z, hints)
    ensures Sized(e, hints) && NoStrayCut(e, hints) && Width(e) == Width(choice) + Width(z) && !NoHiddenEnd(e, hints)
  {
    PairOf(choice, z, e, hints);
  }

  /** `{c ? {a, b} : d, z}` with one-bit paths a, b and z and a two-bit path d: the end between a and b is no cut. */
  lemma ConcatenatedArmIsHidden(a: Expr, b: Expr, d: Expr, z: Expr, c: Expr, arm: Expr, choice: Expr, e: Expr, hints: Registry)
    requires a == ValuePath(Root(0, []), 0, 0, 1) && b == ValuePath(Root(1, []), 0, 0, 1)
    requires d == ValuePath(Root(2, []), 0, 1, 2) && z == ValuePath(Root(3, []), 0, 0, 1)
    requires arm == Concat([a, b]) && choice == Select(c, true, arm, d, 2) && e == Concat([choice, z]) && ValidRegistry(hints)
    ensures Sized(e, hints) && !EndsOnCuts(Slices(e, 0, hints), Width(e), ActualCuts(e, 0, hints))
  {
    SplitPair(a, b, arm, hints);
    SplitChoice(choice, arm, hints);
    HiddenInPair(choice, z, e, hints);
    HiddenEndIsNoCut(e, hints);
  }
}
