/**
  Which cuts the walk over an actual collects (source/PortConnectionHandler.cpp), read
  off its structure, and when all of them are ends of its slices: exactly when no
  conversion that folds to a constant has a collected cut inside it. Then the port nodes
  made by splitting a driver meet at such ends only.
  */
module CollectedCuts {
  import opened BitRanges
  import opened BitSlices
  import opened Cuts
  import opened HiddenCuts
  import opened Joints
  import opened PortCuts
  import opened UnsplitSlices
  import opened Wrappers

  /**
    The walk notes position `p` inside the expression: an operand, a copy or padding
    begins there, or it is a registered cut within a path. It does not enter
    conditionals, and enters conversions whether they fold or not.
    */
  predicate IsCollected(e: Expr, p: nat, registry: Registry)
    decreases e, 0
  {
    match e
    case ValuePath(root, lo, hi, _) => 0 < p && lo + p <= hi && root.symbol in registry && lo + p in registry[root.symbol]
    case Concat(ops) => IsCollectedOfAll(ops, p, registry)
    case Replicate(count, unit, _) => count.Some? && IsCollectedOfCopies(count.value, unit, p, registry)
    case Convert(inner, w, _, _) => w >= Width(inner) && if p < Width(inner) then IsCollected(inner, p, registry) else p == Width(inner)
    case _ => false
  }

  predicate IsCollectedOfAll(ops: seq<Expr>, p: nat, registry: Registry)
    decreases ops, 0
  {
    ops != []
    && (var low := ops[|ops| - 1];
        if p < Width(low) then IsCollected(low, p, registry)
        else p == Width(low) || IsCollectedOfAll(ops[..|ops| - 1], p - Width(low), registry))
  }

  predicate IsCollectedOfCopies(count: int, unit: Expr, p: nat, registry: Registry)
    decreases unit, 1, if count <= 0 then 0 else count
  {
    count > 0
    && (if p < Width(unit) then IsCollected(unit, p, registry)
        else p == Width(unit) || IsCollectedOfCopies(count - 1, unit, p - Width(unit), registry))
  }

  /** The cuts of two parts and of where they meet, when each part's lie within it. */
  lemma JoinCollects(cuts: seq<nat>, a: seq<nat>, b: seq<nat>, base: nat, w: nat, total: nat, p: nat)
    requires w <= total && cuts == a + (if base + w != base + total then [base + w] else []) + b && p < total
    requires Inside(a, base, base + w) && Inside(b, base + w, base + total)
    ensures base + p in cuts <==> if p < w then base + p in a else p == w || base + p in b
  {
  }

  lemma {:induction false} MovedHas(inside: seq<nat>, base: nat, lo: nat, p: nat)
    requires forall y :: y in inside ==> lo < y
    ensures base + p in Moved(inside, base, lo) <==> lo + p in inside
  {
    if inside != [] {
      assert inside[0] in inside && forall y :: y in inside[1..] ==> y in inside;
      assert inside == [inside[0]] + inside[1..];
      MovedHas(inside[1..], base, lo, p);
    }
  }

  /** Strictly inside an expression, its cuts are exactly the positions the walk notes. */
  lemma {:induction false} CutsAreCollected(e: Expr, base: nat, registry: Registry, p: nat)
    requires ValidRegistry(registry) && NoStrayCut(e, registry) && 0 < p < Width(e)
    ensures base + p in ActualCuts(e, base, registry) <==> IsCollected(e, p, registry)
    decreases e, 1
  {
    match e
    case ValuePath(root, lo, hi, _) =>
      if root.symbol in registry {
        MovedHas(Between(registry[root.symbol], lo, hi + 1), base, lo, p);
      }
    case Concat(ops) => OperandsCollect(ops, base, base + WidthOfAll(ops), registry, p);
    case Replicate(count, unit, _) =>
      if count.Some? && count.value > 0 {
        CopiesCollect(count.value, unit, base, base + Width(e), registry, p);
      }
    case Convert(inner, w, _, _) =>
      if w >= Width(inner) {
        CutsStayInside(inner, base, registry);
        if p < Width(inner) {
          CutsAreCollected(inner, base, registry, p);
        }
      }
    case _ =>
  }

  lemma {:induction false} OperandsCollect(ops: seq<Expr>, base: nat, end: nat, registry: Registry, p: nat)
    requires ValidRegistry(registry) && (forall i :: 0 <= i < |ops| ==> NoStrayCut(ops[i], registry))
    requires end == base + WidthOfAll(ops) && 0 < p < WidthOfAll(ops)
    ensures base + p in OperandCuts(ops, base, end, registry) <==> IsCollectedOfAll(ops, p, registry)
    decreases ops, 0
  {
    var low, rest := ops[|ops| - 1], ops[..|ops| - 1];
    var w := Width(low);
    var cuts, a, b := OperandCuts(ops, base, end, registry), ActualCuts(low, base, registry), OperandCuts(rest, base + w, end, registry);
    CutsStayInside(low, base, registry);
    OperandCutsStayInside(rest, base + w, end, registry);
    OperandCutsJoin(ops, low, rest, base, base + w, end, registry);
    JoinCollects(cuts, a, b, base, w, WidthOfAll(ops), p);
    if p < w {
      CutsAreCollected(low, base, registry, p);
    } else if p > w {
      OperandsCollect(rest, base + w, end, registry, p - w);
    }
  }

  lemma {:induction false} CopiesCollect(count: nat, unit: Expr, base: nat, end: nat, registry: Registry, p: nat)
    requires ValidRegistry(registry) && NoStrayCut(unit, registry)
    requires end == base + Times(count, Width(unit)) && 0 < p < Times(count, Width(unit))
    ensures base + p in CopyCuts(count, unit, base, end, registry) <==> IsCollectedOfCopies(count, unit, p, registry)
    decreases unit, 2, count
  {
    var w, rest := Width(unit), count - 1;
    var cuts, a, b := CopyCuts(count, unit, base, end, registry), ActualCuts(unit, base, registry), CopyCuts(rest, unit, base + w, end, registry);
    CutsStayInside(unit, base, registry);
    CopyCutsStayInside(rest, unit, base + w, end, registry);
    CopyCutsJoin(count, rest, unit, base, base + w, end, registry);
    JoinCollects(cuts, a, b, base, w, Times(count, w), p);
    if p < w {
      CutsAreCollected(unit, base, registry, p);
    } else if p > w {
      CopiesCollect(rest, unit, base + w, end, registry, p - w);
    }
  }

  /** No conversion that the walk comes to and that folds to a constant has a collected cut inside it. */
  predicate NoFoldedCut(e: Expr, registry: Registry)
    decreases e, 0
  {
    match e
    case Concat(ops) => forall i :: 0 <= i < |ops| ==> NoFoldedCut(ops[i], registry)
    case Replicate(count, unit, _) => count.None? || count.value <= 0 || NoFoldedCut(unit, registry)
    case Convert(inner, w, _, folded) =>
      w < Width(inner)
      || if Folds(folded, w) then forall p: nat :: 0 < p < w ==> !IsCollected(e, p, registry) else NoFoldedCut(inner, registry)
    case _ => true
  }

  lemma {:induction false} CollectedIsJoint(e: Expr, p: nat, registry: Registry)
    requires NoFoldedCut(e, registry) && 0 < p < Width(e) && IsCollected(e, p, registry)
    ensures IsJoint(e, p, registry)
    decreases e, 1
  {
    match e
    case Concat(ops) => CollectedOperandIsJoint(ops, p, registry);
    case Replicate(count, unit, _) => CollectedCopyIsJoint(count.value, unit, p, registry);
    case Convert(inner, _, _, _) =>
      if p < Width(inner) {
        CollectedIsJoint(inner, p, registry);
      }
    case _ =>
  }

  lemma {:induction false} CollectedOperandIsJoint(ops: seq<Expr>, p: nat, registry: Registry)
    requires (forall i :: 0 <= i < |ops| ==> NoFoldedCut(ops[i], registry)) && 0 < p < WidthOfAll(ops) && IsCollectedOfAll(ops, p, registry)
    ensures IsJointOfAll(ops, p, registry)
    decreases ops, 0
  {
    var n := |ops| - 1;
    if p < Width(ops[n]) {
      CollectedIsJoint(ops[n], p, registry);
    } else if p > Width(ops[n]) {
      CollectedOperandIsJoint(ops[..n], p - Width(ops[n]), registry);
    }
  }

  lemma {:induction false} CollectedCopyIsJoint(count: int, unit: Expr, p: nat, registry: Registry)
    requires (count > 0 ==> NoFoldedCut(unit, registry)) && 0 < p < Times(count, Width(unit)) && IsCollectedOfCopies(count, unit, p, registry)
    ensures IsJointOfCopies(count, unit, p, registry)
    decreases unit, 2, if count <= 0 then 0 else count
  {
    if p < Width(unit) {
      CollectedIsJoint(unit, p, registry);
    } else if p > Width(unit) {
      CollectedCopyIsJoint(count - 1, unit, p - Width(unit), registry);
    }
  }

  lemma {:induction false} FindSpurious(e: Expr, registry: Registry) returns (p: nat)
    requires !NoFoldedCut(e, registry)
    ensures 0 < p < Width(e) && IsCollected(e, p, registry) && !IsJoint(e, p, registry)
    decreases e, 1
  {
    match e
    case Concat(ops) =>
      var i :| 0 <= i < |ops| && !NoFoldedCut(ops[i], registry);
      p := FindSpuriousOperand(ops, i, registry);
    case Replicate(_, unit, _) => p := FindSpurious(unit, registry);
    case Convert(inner, w, _, folded) =>
      if Folds(folded, w) {
        p :| 0 < p < w && IsCollected(e, p, registry);
      } else {
        p := FindSpurious(inner, registry);
      }
  }

  lemma {:induction false} FindSpuriousOperand(ops: seq<Expr>, i: nat, registry: Registry) returns (p: nat)
    requires i < |ops| && !NoFoldedCut(ops[i], registry)
    ensures 0 < p < WidthOfAll(ops) && IsCollectedOfAll(ops, p, registry) && !IsJointOfAll(ops, p, registry)
    decreases ops, 0
  {
    var n := |ops| - 1;
    if i == n {
      p := FindSpurious(ops[n], registry);
    } else {
      p := FindSpuriousOperand(ops[..n], i, registry);
      p := p + Width(ops[n]);
    }
  }

  /** Each cut strictly inside is where a slice starts. */
  ghost predicate CutsAreStarts(slices: seq<Slice>, base: nat, end: nat, cuts: seq<nat>) {
    forall y :: y in cuts && base < y < end ==> StartsAt(slices, y)
  }

  /** Every cut collected strictly inside an expression is an end of its slices exactly when no folded conversion has one inside. */
  lemma CutsAreEndsIffNoFoldedCut(e: Expr, base: nat, registry: Registry)
    requires ValidRegistry(registry) && Sized(e, registry) && NoStrayCut(e, registry)
    ensures CutsAreStarts(Slices(e, base, registry), base, base + Width(e), ActualCuts(e, base, registry)) <==> NoFoldedCut(e, registry)
  {
    if NoFoldedCut(e, registry) {
      forall y | y in ActualCuts(e, base, registry) && base < y < base + Width(e)
        ensures StartsAt(Slices(e, base, registry), y)
      {
        var p: nat := y - base;
        CutsAreCollected(e, base, registry, p);
        CollectedIsJoint(e, p, registry);
        SlicesStartAtJoints(e, base, registry, p, base + p);
      }
    } else {
      var p := FindSpurious(e, registry);
      CutsAreCollected(e, base, registry, p);
      SlicesStartAtJoints(e, base, registry, p, base + p);
    }
  }

  lemma EndsAreStarts(slices: seq<Slice>, base: nat, end: nat, cuts: seq<nat>)
    requires Tiles(slices, base, end)
    ensures EndsOnCuts(slices, end, cuts) <==> forall y {:trigger StartsAt(slices, y)} :: base < y < end && StartsAt(slices, y) ==> y in cuts
  {
    forall y | base < y < end
      ensures EndsAt(slices, y) <==> StartsAt(slices, y)
    {
      EndsWhereNextStarts(slices, base, end, y);
    }
    forall k | 0 <= k < |slices|
      ensures base < slices[k].hi <= end
    {
      TilesStartsLate(slices, base, end, k);
    }
    if forall y {:trigger StartsAt(slices, y)} :: base < y < end && StartsAt(slices, y) ==> y in cuts {
      forall k | 0 <= k < |slices|
        ensures slices[k].hi == end || slices[k].hi in cuts
      {
        assert EndsAt(slices, slices[k].hi);
      }
    }
  }

  lemma ExactCuts(slices: seq<Slice>, base: nat, end: nat, cuts: seq<nat>)
    requires Tiles(slices, base, end)
    ensures (forall y: nat :: base < y < end ==> (y in cuts <==> StartsAt(slices, y)))
            <==> EndsOnCuts(slices, end, cuts) && CutsAreStarts(slices, base, end, cuts)
  {
    EndsAreStarts(slices, base, end, cuts);
  }

  /** The collected cuts inside an expression are exactly the ends of its slices if and only if none is hidden and none is folded away. */
  lemma CutsAreExactIff(e: Expr, base: nat, end: nat, registry: Registry, slices: seq<Slice>, cuts: seq<nat>)
    requires ValidRegistry(registry) && Sized(e, registry) && NoStrayCut(e, registry)
    requires slices == Slices(e, base, registry) && cuts == ActualCuts(e, base, registry) && end == base + Width(e)
    ensures (forall y: nat :: base < y < end ==> (y in cuts <==> StartsAt(slices, y)))
            <==> NoHiddenEnd(e, registry) && NoFoldedCut(e, registry)
  {
    ExpressionTiles(e, base, registry);
    ExactCuts(slices, base, end, cuts);
    CutsAreCompleteIffNoHiddenEnd(e, base, registry, registry);
    CutsAreEndsIffNoFoldedCut(e, base, registry);
  }

  /** An actual whose cuts were recorded, and the registry at the time. */
  datatype Actual = Actual(e: Expr, registry: Registry)

  ghost predicate IsRegular(a: Actual, w: nat) {
    ValidRegistry(a.registry) && Width(a.e) == w && NoStrayCut(a.e, a.registry)
  }

  ghost predicate AreRegular(actuals: seq<Actual>, w: nat) {
    forall i :: 0 <= i < |actuals| ==> IsRegular(actuals[i], w)
  }

  /** Some of the actuals has position `y` noted by the walk. */
  ghost predicate SomeCollects(actuals: seq<Actual>, y: nat) {
    exists i :: 0 <= i < |actuals| && IsCollected(actuals[i].e, y, actuals[i].registry)
  }

  function CutsOf(entries: Registry, port: Symbol): seq<nat> {
    if port in entries then entries[port] else []
  }

  /** The port's cuts are the inner positions noted in its actuals. */
  ghost predicate Recorded(cuts: seq<nat>, w: nat, actuals: seq<Actual>) {
    forall y: nat :: y in cuts <==> 0 < y < w && SomeCollects(actuals, y)
  }

  lemma SomeCollectsMore(actuals: seq<Actual>, a: Actual, y: nat)
    ensures SomeCollects(actuals + [a], y) <==> SomeCollects(actuals, y) || IsCollected(a.e, y, a.registry)
  {
    var all := actuals + [a];
    if SomeCollects(actuals, y) {
      var i :| 0 <= i < |actuals| && IsCollected(actuals[i].e, y, actuals[i].registry);
      assert all[i] == actuals[i];
    }
    if IsCollected(a.e, y, a.registry) {
      assert all[|actuals|] == a;
    }
  }

  /** Recording one more connection of the port's width. */
  lemma RecordedGrows(before: Registry, after: Registry, port: Symbol, w: nat, e: Expr, actuals: seq<Actual>)
    requires IsRegular(Actual(e, before), w) && Recorded(CutsOf(before, port), w, actuals)
    requires forall y :: port in after && y in after[port]
                         <==> (port in before && y in before[port]) || (0 < y < w && y in ActualCuts(e, 0, before))
    ensures Recorded(CutsOf(after, port), w, actuals + [Actual(e, before)])
  {
    forall y: nat
      ensures y in CutsOf(after, port) <==> 0 < y < w && SomeCollects(actuals + [Actual(e, before)], y)
    {
      SomeCollectsMore(actuals, Actual(e, before), y);
      assert y in CutsOf(before, port) <==> 0 < y < w && SomeCollects(actuals, y);
      if 0 < y < w {
        CutsAreCollected(e, 0, before, y);
      }
    }
  }

  /** A port node other than the driver's lowest starts at `y`. */
  ghost predicate PieceStartsAt(pieces: seq<BitRange>, y: int) {
    exists k :: 0 < k < |pieces| && pieces[k].left == y
  }

  /** Inside a driver, port nodes start exactly where the walk noted a position of some actual. */
  lemma PiecesStartWhereCollected(pieces: seq<BitRange>, lo: nat, hi: nat, cuts: seq<nat>, w: nat, actuals: seq<Actual>, y: nat)
    requires Recorded(cuts, w, actuals) && Split(pieces, lo, hi + 1, cuts) && lo < y <= hi < w
    ensures PieceStartsAt(pieces, y) <==> SomeCollects(actuals, y)
  {
    if PieceStartsAt(pieces, y) {
      var k :| 0 < k < |pieces| && pieces[k].left == y;
      assert y in cuts;
    }
    if SomeCollects(actuals, y) {
      assert y in cuts;
      var k := PiecesPartition(pieces, lo, hi, y);
      assert Undivided(pieces[k], cuts);
    }
  }

  /** So where no folded conversion has a cut inside, a port node starts inside a driver only where a slice of some actual does. */
  lemma PiecesStartAtJoints(pieces: seq<BitRange>, lo: nat, hi: nat, cuts: seq<nat>, w: nat, actuals: seq<Actual>, y: nat)
    returns (i: nat)
    requires Recorded(cuts, w, actuals) && Split(pieces, lo, hi + 1, cuts) && lo < y <= hi < w && PieceStartsAt(pieces, y)
    requires AreRegular(actuals, w)
    requires forall i :: 0 <= i < |actuals| ==> Sized(actuals[i].e, actuals[i].registry) && NoFoldedCut(actuals[i].e, actuals[i].registry)
    ensures i < |actuals| && StartsAt(Slices(actuals[i].e, 0, actuals[i].registry), y)
  {
    PiecesStartWhereCollected(pieces, lo, hi, cuts, w, actuals, y);
    i :| 0 <= i < |actuals| && IsCollected(actuals[i].e, y, actuals[i].registry);
    assert IsRegular(actuals[i], w);
    CollectedIsJoint(actuals[i].e, y, actuals[i].registry);
    SlicesStartAtJoints(actuals[i].e, 0, actuals[i].registry, y, y);
  }

  /** A conversion of `{a, b}` that folds to a constant: the walk cuts it between the two, but it is one slice. */
  lemma FoldedCutIsSpurious(a: Expr, b: Expr, inner: Expr, e: Expr, value: seq<Bit>, w: nat, registry: Registry)
    requires 0 < Width(b) < w && w == Width(a) + Width(b) && |value| == w && ValidRegistry(registry)
    requires inner == Concat([a, b]) && e == Convert(inner, w, false, Some(value))
    ensures Width(b) in ActualCuts(e, 0, registry) && !StartsAt(Slices(e, 0, registry), Width(b))
  {
    var ops := inner.operands;
    assert ops[..|ops| - 1] == [a] && [a][..0] == [];
    assert WidthOfAll(ops) == WidthOfAll([a]) + Width(b) == w;
    OperandCutsJoin(ops, b, [a], 0, Width(b), w, registry);
    OneSliceStarts(Slices(e, 0, registry), 0, Width(b));
  }
}
