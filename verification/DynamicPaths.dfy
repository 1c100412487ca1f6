/**
  Paths with a dynamic index (source/DataFlowAnalysis.cpp, source/PortConnectionHandler.cpp).
  Decomposition takes the lowest bits such a path may read; what the index may choose is
  wider. An assignment reads the selectors of paths on its right, but neither those on
  its left nor those of a port's actual are read. Here: what is meant, what of it is
  read, and exactly when that is all.
  */
module DynamicPaths {
  import opened Assignments
  import opened BitSlices
  import opened PortConnections
  import opened Segments

  /** Bit `p` of every stretch of `w` bits within lo..hi of a symbol. */
  function BitOfStretches(s: Symbol, lo: nat, hi: nat, w: nat, p: nat): set<Dep> {
    set b: int | lo + p <= b < hi + p + 2 - w :: SymbolBit(s, b)
  }

  /**
    What bit `p` of an expression is meant to depend on: as taken, but of a path on every
    bit its selectors may choose, and on the selectors.
    */
  function Meant(e: Expr, p: nat): set<Dep>
    decreases e, 0
  {
    match e
    case ValuePath(root, lo, hi, w) => BitOfStretches(root.symbol, lo, hi, w, p) + Choosers(root)
    case Concat(ops) => MeantOfAll(ops, p)
    case Replicate(count, unit, _) => if count.None? then {Whole(e)} else MeantOfCopies(count.value, unit, p)
    case Convert(inner, w, _, folded) =>
      if Folds(folded, w) || w < Width(inner) || p >= Width(inner) then Deps(e, p) else Meant(inner, p)
    case Select(c, _, left, right, _) => if IsApart(e) then Meant(left, p) + Meant(right, p) + {Whole(c)} else {Whole(e)}
    case Other(_, _, _) => Deps(e, p)
  }

  function MeantOfAll(ops: seq<Expr>, p: nat): set<Dep>
    decreases ops, 0
  {
    if ops == [] then {}
    else
      var low := ops[|ops| - 1];
      if p < Width(low) then Meant(low, p) else MeantOfAll(ops[..|ops| - 1], p - Width(low))
  }

  function MeantOfCopies(count: int, unit: Expr, p: nat): set<Dep>
    decreases unit, 1, if count <= 0 then 0 else count
  {
    if count <= 0 then {}
    else if p < Width(unit) then Meant(unit, p)
    else MeantOfCopies(count - 1, unit, p - Width(unit))
  }

  /** A conditional is taken apart arm by arm. */
  predicate IsApart(e: Expr) {
    e.Select? && e.plain && Width(e.left) == Width(e.right) == e.width
  }

  /** Every path and conditional that decomposition comes to in taking an expression apart. */
  predicate EveryPart(e: Expr, ok: Expr -> bool)
    decreases e, 0
  {
    match e
    case ValuePath(_, _, _, _) => ok(e)
    case Concat(ops) => forall i :: 0 <= i < |ops| ==> EveryPart(ops[i], ok)
    case Replicate(count, unit, _) => count.None? || count.value <= 0 || EveryPart(unit, ok)
    case Convert(inner, w, _, folded) => Folds(folded, w) || w < Width(inner) || EveryPart(inner, ok)
    case Select(_, _, left, right, _) => ok(e) && (IsApart(e) ==> EveryPart(left, ok) && EveryPart(right, ok))
    case Other(_, _, _) => true
  }

  /** A path has no more bits than it may read. */
  predicate InBounds(e: Expr) {
    e.ValuePath? ==> e.width <= e.hi - e.lo + 1
  }

  /** A path has all the bits it may read: no index chooses among them. */
  predicate FullWidth(e: Expr) {
    e.ValuePath? ==> e.width == 0 || e.width == e.hi - e.lo + 1
  }

  /** A path has no dynamic selectors. */
  predicate Unselected(e: Expr) {
    e.ValuePath? ==> e.width == 0 || e.root.selectors == []
  }

  predicate NotApart(e: Expr) {
    !IsApart(e)
  }

  /** What is taken is among what is meant, all of it if paths have their full width, and no selector if they have none. */
  ghost predicate WellTaken(taken: set<Dep>, meant: set<Dep>, full: bool, unselected: bool) {
    && taken <= meant
    && (full ==> meant <= taken)
    && (unselected ==> forall x {:trigger Chooser(x)} :: Chooser(x) !in taken)
  }

  lemma PathIsWellTaken(e: Expr, p: nat)
    requires e.ValuePath? && InBounds(e) && p < Width(e)
    ensures WellTaken(Deps(e, p), Meant(e, p), FullWidth(e), Unselected(e))
  {
    assert SymbolBit(e.root.symbol, e.lo + p) in BitOfStretches(e.root.symbol, e.lo, e.hi, e.width, p);
  }

  lemma {:induction false} IsWellTaken(e: Expr, p: nat)
    requires EveryPart(e, InBounds) && p < Width(e)
    ensures WellTaken(Deps(e, p), Meant(e, p), EveryPart(e, FullWidth), EveryPart(e, Unselected))
    decreases e, 1
  {
    match e
    case ValuePath(_, _, _, _) => PathIsWellTaken(e, p);
    case Concat(ops) => OperandsAreWellTaken(ops, p, EveryPart(e, FullWidth), EveryPart(e, Unselected));
    case Replicate(count, unit, _) =>
      if count.Some? {
        CopiesAreWellTaken(count.value, unit, p);
      }
    case Convert(inner, w, _, folded) =>
      if !Folds(folded, w) && w >= Width(inner) && p < Width(inner) {
        IsWellTaken(inner, p);
      }
    case Select(_, _, left, right, _) =>
      if IsApart(e) {
        IsWellTaken(left, p);
        IsWellTaken(right, p);
      }
    case Other(_, _, _) =>
  }

  ghost predicate EveryOperand(ops: seq<Expr>, ok: Expr -> bool) {
    forall i :: 0 <= i < |ops| ==> EveryPart(ops[i], ok)
  }

  lemma {:induction false} OperandsAreWellTaken(ops: seq<Expr>, p: nat, full: bool, unselected: bool)
    requires EveryOperand(ops, InBounds) && p < WidthOfAll(ops)
    requires (full ==> EveryOperand(ops, FullWidth)) && (unselected ==> EveryOperand(ops, Unselected))
    ensures WellTaken(DepsOfAll(ops, p), MeantOfAll(ops, p), full, unselected)
    decreases ops, 0
  {
    var n := |ops| - 1;
    if p < Width(ops[n]) {
      IsWellTaken(ops[n], p);
    } else {
      OperandsAreWellTaken(ops[..n], p - Width(ops[n]), full, unselected);
    }
  }

  lemma {:induction false} CopiesAreWellTaken(count: int, unit: Expr, p: nat)
    requires (count > 0 ==> EveryPart(unit, InBounds)) && p < Times(count, Width(unit))
    ensures WellTaken(DepsOfCopies(count, unit, p), MeantOfCopies(count, unit, p), EveryPart(unit, FullWidth), EveryPart(unit, Unselected))
    decreases unit, 2, if count <= 0 then 0 else count
  {
    if p < Width(unit) {
      IsWellTaken(unit, p);
    } else {
      CopiesAreWellTaken(count - 1, unit, p - Width(unit));
    }
  }

  /** A path narrower than the bits it may read misses one. */
  lemma {:induction false} FindMissed(e: Expr) returns (p: nat, s: Symbol, b: int)
    requires EveryPart(e, InBounds) && EveryPart(e, NotApart) && !EveryPart(e, FullWidth)
    ensures p < Width(e) && SymbolBit(s, b) in Meant(e, p) && SymbolBit(s, b) !in Deps(e, p)
    decreases e, 1
  {
    match e
    case ValuePath(root, lo, hi, w) =>
      p, s, b := 0, root.symbol, lo + 1;
      assert SymbolBit(s, b) in BitOfStretches(s, lo, hi, w, p);
    case Concat(ops) =>
      var i :| 0 <= i < |ops| && !EveryPart(ops[i], FullWidth);
      p, s, b := FindMissedOperand(ops, i);
    case Replicate(count, unit, _) => p, s, b := FindMissed(unit); FirstCopy(count.value, unit, p);
    case Convert(inner, _, _, _) => p, s, b := FindMissed(inner);
    case Select(_, _, _, _, _) => assert false;
  }

  lemma {:induction false} FindMissedOperand(ops: seq<Expr>, i: nat) returns (p: nat, s: Symbol, b: int)
    requires forall k :: 0 <= k < |ops| ==> EveryPart(ops[k], InBounds) && EveryPart(ops[k], NotApart)
    requires i < |ops| && !EveryPart(ops[i], FullWidth)
    ensures p < WidthOfAll(ops) && SymbolBit(s, b) in MeantOfAll(ops, p) && SymbolBit(s, b) !in DepsOfAll(ops, p)
    decreases ops, 0
  {
    var n := |ops| - 1;
    if i == n {
      p, s, b := FindMissed(ops[n]);
    } else {
      p, s, b := FindMissedOperand(ops[..n], i);
      p := p + Width(ops[n]);
    }
  }

  /** The lowest copy stands as the unit does alone. */
  lemma FirstCopy(count: int, unit: Expr, p: nat)
    requires count > 0 && p < Width(unit)
    ensures p < Times(count, Width(unit)) && DepsOfCopies(count, unit, p) == Deps(unit, p) && MeantOfCopies(count, unit, p) == Meant(unit, p)
  {
  }

  /** A path with dynamic selectors has them at its bits. */
  lemma {:induction false} FindChooser(e: Expr) returns (p: nat, x: Expr)
    requires !EveryPart(e, Unselected)
    ensures p < Width(e) && Chooser(x) in Deps(e, p)
    decreases e, 1
  {
    match e
    case ValuePath(root, _, _, _) => p, x := 0, root.selectors[0];
    case Concat(ops) =>
      var i :| 0 <= i < |ops| && !EveryPart(ops[i], Unselected);
      p, x := FindChooserInOperand(ops, i);
    case Replicate(count, unit, _) => p, x := FindChooser(unit); FirstCopy(count.value, unit, p);
    case Convert(inner, _, _, _) => p, x := FindChooser(inner);
    case Select(_, _, left, right, _) =>
      if !EveryPart(left, Unselected) {
        p, x := FindChooser(left);
      } else {
        p, x := FindChooser(right);
      }
  }

  lemma {:induction false} FindChooserInOperand(ops: seq<Expr>, i: nat) returns (p: nat, x: Expr)
    requires i < |ops| && !EveryPart(ops[i], Unselected)
    ensures p < WidthOfAll(ops) && Chooser(x) in DepsOfAll(ops, p)
    decreases ops, 0
  {
    var n := |ops| - 1;
    if i == n {
      p, x := FindChooser(ops[n]);
    } else {
      p, x := FindChooserInOperand(ops[..n], i);
      p := p + Width(ops[n]);
    }
  }

  /** Without a conditional taken apart, all that is meant is taken exactly when every path has the width of the bits it may read. */
  lemma TakenIsMeantIffFullWidth(e: Expr)
    requires EveryPart(e, InBounds) && EveryPart(e, NotApart)
    ensures (forall p: nat :: p < Width(e) ==> Deps(e, p) == Meant(e, p)) <==> EveryPart(e, FullWidth)
  {
    if EveryPart(e, FullWidth) {
      forall p: nat | p < Width(e)
        ensures Deps(e, p) == Meant(e, p)
      {
        IsWellTaken(e, p);
      }
    } else {
      var p, s, b := FindMissed(e);
    }
  }

  /** The nodes of an assignment partition its width and stay bit-aligned: what AssignBits ensures. */
  ghost predicate Assigns(drives: seq<Drive>, l: Expr, r: Expr, w: nat) {
    && Width(l) == w && Width(r) == w && Partition(drives, w)
    && forall k :: 0 <= k < |drives| ==> StaysBitAligned(drives[k], l, r)
  }

  /** Some node holds position `p` and reads `dep` there. */
  ghost predicate ReadsAt(drives: seq<Drive>, p: nat, dep: Dep) {
    exists k :: 0 <= k < |drives| && drives[k].Has(p) && ReadsDep(drives[k].rvalues, p - drives[k].lo, dep)
  }

  /** An assignment reads at each position what its right-hand side takes there, and nothing of its left-hand side. */
  lemma ReadsWhatIsTaken(drives: seq<Drive>, l: Expr, r: Expr, w: nat, p: nat, dep: Dep)
    requires Assigns(drives, l, r, w) && p < w
    ensures ReadsAt(drives, p, dep) <==> dep in Deps(r, p) && dep != SignBit
  {
    var k := DriveOf(drives, w, p);
    assert IsBitAligned(drives[k], Deps(l, p), Deps(r, p), p);
  }

  ghost predicate ReadsOnlyWhatIsMeant(drives: seq<Drive>, r: Expr, w: nat) {
    forall p: nat, dep :: p < w && ReadsAt(drives, p, dep) ==> dep in Meant(r, p)
  }

  ghost predicate ReadsAllThatIsMeant(drives: seq<Drive>, r: Expr, w: nat) {
    forall p: nat, dep :: p < w && dep in Meant(r, p) && dep != SignBit ==> ReadsAt(drives, p, dep)
  }

  lemma AssignmentReadsOnlyWhatIsMeant(drives: seq<Drive>, l: Expr, r: Expr, w: nat)
    requires Assigns(drives, l, r, w) && EveryPart(r, InBounds)
    ensures ReadsOnlyWhatIsMeant(drives, r, w)
  {
    forall p: nat, dep | p < w && ReadsAt(drives, p, dep)
      ensures dep in Meant(r, p)
    {
      ReadsWhatIsTaken(drives, l, r, w, p, dep);
      IsWellTaken(r, p);
    }
  }

  /**
    An assignment reads all that its right-hand side means if every path on the right has
    the width of the bits it may read, and only if so when no conditional is taken apart:
    one arm may take a bit that the other misses.
    */
  lemma AssignmentReadsAllIffFullWidth(drives: seq<Drive>, l: Expr, r: Expr, w: nat)
    requires Assigns(drives, l, r, w) && EveryPart(r, InBounds)
    ensures EveryPart(r, FullWidth) ==> ReadsAllThatIsMeant(drives, r, w)
    ensures EveryPart(r, NotApart) && ReadsAllThatIsMeant(drives, r, w) ==> EveryPart(r, FullWidth)
  {
    if EveryPart(r, FullWidth) {
      forall p: nat, dep | p < w && dep in Meant(r, p) && dep != SignBit
        ensures ReadsAt(drives, p, dep)
      {
        IsWellTaken(r, p);
        ReadsWhatIsTaken(drives, l, r, w, p, dep);
      }
    } else if EveryPart(r, NotApart) {
      var p, s, b := FindMissed(r);
      ReadsWhatIsTaken(drives, l, r, w, p, SymbolBit(s, b));
    }
  }

  /** Every selector that chooses among bits on the left is read where it does. */
  ghost predicate ReadsLeftSelectors(drives: seq<Drive>, l: Expr, w: nat) {
    forall p: nat, x :: p < w && Chooser(x) in Deps(l, p) ==> ReadsAt(drives, p, Chooser(x))
  }

  /** With none on the right to be read for them, the selectors on the left are read exactly when there are none. */
  lemma LeftSelectorsAreReadIffNone(drives: seq<Drive>, l: Expr, r: Expr, w: nat)
    requires Assigns(drives, l, r, w) && EveryPart(l, InBounds) && EveryPart(r, InBounds) && EveryPart(r, Unselected)
    ensures ReadsLeftSelectors(drives, l, w) <==> EveryPart(l, Unselected)
  {
    if EveryPart(l, Unselected) {
      forall p: nat | p < w
        ensures forall x {:trigger Chooser(x)} :: Chooser(x) !in Deps(l, p)
      {
        IsWellTaken(l, p);
      }
    } else {
      var p, x := FindChooser(l);
      IsWellTaken(r, p);
      ReadsWhatIsTaken(drives, l, r, w, p, Chooser(x));
    }
  }

  /** The links of a connection, segment by segment: what HandlePortConnection ensures. */
  ghost predicate Connects(segs: seq<Segment>, links: seq<seq<Link>>, nodes: PortNodes, e: Expr, isOutput: bool) {
    && |links| == |segs| && Consecutive(segs, 0, Width(e))
    && forall k :: 0 <= k < |segs| ==> LinkedThroughout(links[k], segs[k], nodes, e, isOutput)
  }

  /** Some segment holds position `p` and links node `n` to `dep` there. */
  ghost predicate LinksAt(segs: seq<Segment>, links: seq<seq<Link>>, p: nat, n: nat, dep: Dep)
    requires |links| == |segs|
  {
    exists k :: 0 <= k < |segs| && segs[k].Has(p) && LinksDep(links[k], p - segs[k].lo, n, dep)
  }

  lemma LinksWhatIsTaken(segs: seq<Segment>, links: seq<seq<Link>>, nodes: PortNodes, e: Expr, isOutput: bool, p: nat, n: nat, dep: Dep)
    requires Connects(segs, links, nodes, e, isOutput) && p < Width(e)
    ensures LinksAt(segs, links, p, n, dep) <==> Covers(nodes, n, p, p + 1) && dep in Deps(e, p) && Carried(dep, isOutput)
  {
    var k := OneSegmentHas(segs, 0, Width(e), p);
    assert IsLinked(links[k], segs[k].lo, nodes, Deps(e, p), isOutput, p);
  }

  ghost predicate IsCovered(nodes: PortNodes, p: nat) {
    exists n: nat {:trigger Covers(nodes, n, p, p + 1)} :: Covers(nodes, n, p, p + 1)
  }

  ghost predicate LinksSelectors(segs: seq<Segment>, links: seq<seq<Link>>, nodes: PortNodes, e: Expr)
    requires |links| == |segs|
  {
    forall p: nat, n: nat, x :: p < Width(e) && Covers(nodes, n, p, p + 1) && Chooser(x) in Deps(e, p) ==> LinksAt(segs, links, p, n, Chooser(x))
  }

  /** A port whose nodes cover every bit is linked to the selectors of its actual exactly when the actual has none. */
  lemma PortSelectorsAreLinkedIffNone(segs: seq<Segment>, links: seq<seq<Link>>, nodes: PortNodes, e: Expr, isOutput: bool)
    requires Connects(segs, links, nodes, e, isOutput) && EveryPart(e, InBounds)
    requires forall p: nat :: p < Width(e) ==> IsCovered(nodes, p)
    ensures LinksSelectors(segs, links, nodes, e) <==> EveryPart(e, Unselected)
  {
    if EveryPart(e, Unselected) {
      forall p: nat | p < Width(e)
        ensures forall x {:trigger Chooser(x)} :: Chooser(x) !in Deps(e, p)
      {
        IsWellTaken(e, p);
      }
    } else {
      var p, x := FindChooser(e);
      assert IsCovered(nodes, p);
      var n: nat :| Covers(nodes, n, p, p + 1);
      LinksWhatIsTaken(segs, links, nodes, e, isOutput, p, n, Chooser(x));
    }
  }

  /** `y = a[i]`, of four bits of `a`: bit 0 and the index are read, bits 1 to 3 are missed. */
  lemma IndexedReadIsNarrowed(drives: seq<Drive>, l: Expr, r: Expr, i: Expr, a: Symbol, b: int)
    requires r == ValuePath(Root(a, [i]), 0, 3, 1) && Assigns(drives, l, r, 1)
    ensures ReadsAt(drives, 0, Chooser(i))
    ensures SymbolBit(a, b) in Meant(r, 0) <==> 0 <= b <= 3
    ensures ReadsAt(drives, 0, SymbolBit(a, b)) <==> b == 0
  {
    ReadsWhatIsTaken(drives, l, r, 1, 0, Chooser(i));
    ReadsWhatIsTaken(drives, l, r, 1, 0, SymbolBit(a, b));
  }

  /** `a[i] = y`, with `y` a path without selectors: the index is not read. */
  lemma IndexOfTargetIsLost(drives: seq<Drive>, l: Expr, r: Expr, i: Expr, a: Symbol, y: Symbol)
    requires l == ValuePath(Root(a, [i]), 0, 3, 1) && r == ValuePath(Root(y, []), 0, 0, 1) && Assigns(drives, l, r, 1)
    ensures Chooser(i) in Deps(l, 0) && !ReadsAt(drives, 0, Chooser(i))
  {
    ReadsWhatIsTaken(drives, l, r, 1, 0, Chooser(i));
  }

  /** A port connected to `a[i]`: no node of it is linked to the index. */
  lemma IndexOfActualIsLost(segs: seq<Segment>, links: seq<seq<Link>>, nodes: PortNodes, e: Expr, i: Expr, a: Symbol, isOutput: bool, n: nat)
    requires e == ValuePath(Root(a, [i]), 0, 3, 1) && Connects(segs, links, nodes, e, isOutput)
    ensures Chooser(i) in Deps(e, 0) && !LinksAt(segs, links, 0, n, Chooser(i))
  {
    LinksWhatIsTaken(segs, links, nodes, e, isOutput, 0, n, Chooser(i));
  }
}
