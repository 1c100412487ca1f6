/**
  Equal neighbours in the driver map (source/ValueTracker.cpp): intervals that meet and
  hold the same drivers. Exactly when a replacing call leaves some: its low end falls
  into an interval that ends within its range, or a bit next to its range has the
  drivers it sets.
  */
module AdjacentIntervals {
  import opened ExternalManager
  import opened DriverIntervals
  import opened DriverRuns

  /** One interval is exactly the range. */
  ghost predicate IsWhole(m: DMap, lo: int, hi: int) {
    exists j :: j in m.ivs && j.lo == lo && j.hi == hi
  }

  /** The interval overlaps the low end of the range and ends before its high end. */
  predicate Straddles(i: Interval, lo: int, hi: int) {
    i.lo < lo <= i.hi < hi
  }

  /** One interval ends at bit `x`, the next starts right after it, and both hold the same drivers. */
  ghost predicate EqualAt(m: DMap, x: int) {
    exists j, k :: j in m.ivs && k in m.ivs && j.hi == x && k.lo == x + 1 && m.ListOf(j.handle) == m.ListOf(k.handle)
  }

  ghost predicate EqualNeighbours(m: DMap) {
    exists x :: EqualAt(m, x)
  }

  lemma {:induction false} CallKeepsOutside(m: DMap, lo: int, hi: int, drivers: set<Driver>, merge: bool, j: Interval)
    requires m.Disjoint() && m.lists.Valid() && lo <= hi && j in m.ivs && !j.Overlaps(lo, hi)
    ensures j in Add(m, lo, hi, drivers, merge).ivs
    decreases hi - lo, m.ivs
  {
    if Hit(m, lo, hi) {
      var r := Step(m, lo, hi, drivers, merge, First(m, lo, hi));
      assert j in r.m.ivs;
      if r.Go? {
        CallKeepsOutside(r.m, r.lo, hi, drivers, merge, j);
      }
    }
  }

  /** A replacing call leaves its range as one interval exactly when none straddles its low end. */
  lemma {:induction false} RangeIsWholeIff(m: DMap, lo: int, hi: int, drivers: set<Driver>)
    requires m.Disjoint() && m.lists.Valid() && lo <= hi
    ensures IsWhole(Add(m, lo, hi, drivers, false), lo, hi) <==> forall i :: i in m.ivs ==> !Straddles(i, lo, hi)
    decreases hi - lo, m.ivs
  {
    var m' := Add(m, lo, hi, drivers, false);
    if !Hit(m, lo, hi) {
      assert Interval(lo, hi, m.lists.NextHandle()) in m'.ivs;
    } else {
      var it := First(m, lo, hi);
      var r := Step(m, lo, hi, drivers, false, it);
      if Straddles(it, lo, hi) {
        LowPieceStays(m, lo, hi, drivers, it);
      } else {
        FirstIsTheStraddler(m, lo, hi, it);
        if r.Go? {
          RangeIsWholeIff(r.m, lo, hi, drivers);
        } else {
          StepFinishesWhole(m, lo, hi, drivers, it);
        }
      }
    }
  }

  lemma FirstIsTheStraddler(m: DMap, lo: int, hi: int, it: Interval)
    requires AtEntry(m, lo, hi, it) && !Straddles(it, lo, hi)
    ensures forall i :: i in m.ivs ==> !Straddles(i, lo, hi)
  {
    forall i | i in m.ivs
      ensures !Straddles(i, lo, hi)
    {
      assert i.lo < lo <= i.hi ==> i.Overlaps(lo, hi);
    }
  }

  lemma StepFinishesWhole(m: DMap, lo: int, hi: int, drivers: set<Driver>, it: Interval)
    requires AtEntry(m, lo, hi, it) && !Straddles(it, lo, hi) && Step(m, lo, hi, drivers, false, it).Done?
    ensures IsWhole(Step(m, lo, hi, drivers, false, it).m, lo, hi)
  {
    var m' := Step(m, lo, hi, drivers, false, it).m;
    if it.lo == lo && it.hi == hi {
      assert it in m'.ivs;
    } else {
      assert exists h: Handle :: Interval(lo, hi, h) in m'.ivs;
    }
  }

  /** The piece from the low end to the end of the straddling interval stays. */
  lemma LowPieceStays(m: DMap, lo: int, hi: int, drivers: set<Driver>, it: Interval)
    requires AtEntry(m, lo, hi, it) && Straddles(it, lo, hi) && it == First(m, lo, hi) && Hit(m, lo, hi)
    ensures exists h: Handle :: Interval(lo, it.hi, h) in Add(m, lo, hi, drivers, false).ivs
    ensures !IsWhole(Add(m, lo, hi, drivers, false), lo, hi)
  {
    var r := Step(m, lo, hi, drivers, false, it);
    var h: Handle :| Interval(lo, it.hi, h) in r.m.ivs;
    CallKeepsOutside(r.m, r.lo, hi, drivers, false, Interval(lo, it.hi, h));
    var m' := Add(m, lo, hi, drivers, false);
    assert Interval(lo, it.hi, h) in m'.ivs;
  }

  /** An interval outside the range, cut from interval `i` at most at the range's ends. */
  predicate IsCutFrom(i: Interval, j: Interval, lo: int, hi: int) {
    && i.lo <= j.lo && j.hi <= i.hi && !j.Overlaps(lo, hi)
    && (j.lo == i.lo || j.lo == hi + 1) && (j.hi == i.hi || j.hi == lo - 1)
  }

  ghost predicate IsInsideOrCut(m: DMap, lo: int, hi: int, j: Interval) {
    j.Within(lo, hi) || exists i :: i in m.ivs && IsCutFrom(i, j, lo, hi)
  }

  /** An interval that a turn leaves lies in the part of the range done with, in the rest, or was there, cut at most at the ends. */
  lemma StepOnlyCuts(m: DMap, lo: int, hi: int, drivers: set<Driver>, it: Interval, i: Interval, j: Interval)
    requires AtEntry(m, lo, hi, it)
    requires var r := Step(m, lo, hi, drivers, false, it);
             i in r.m.ivs && if r.Go? then IsCutFrom(i, j, r.lo, hi) && r.lo <= hi else i == j
    ensures IsInsideOrCut(m, lo, hi, j)
  {
    if i in m.ivs {
      assert i != it ==> i.hi < it.lo || it.hi < i.lo;
      assert IsCutFrom(i, j, lo, hi) || j.Within(lo, hi);
    } else if !j.Within(lo, hi) {
      assert IsCutFrom(it, j, lo, hi);
    }
  }

  /** After a call every interval lies in the range or was there before, cut at most at the range's ends. */
  lemma {:induction false} CallOnlyCuts(m: DMap, lo: int, hi: int, drivers: set<Driver>, j: Interval)
    requires m.Disjoint() && m.lists.Valid() && lo <= hi && j in Add(m, lo, hi, drivers, false).ivs
    ensures IsInsideOrCut(m, lo, hi, j)
    decreases hi - lo, m.ivs
  {
    if !Hit(m, lo, hi) {
      if j in m.ivs {
        assert IsCutFrom(j, j, lo, hi);
      }
    } else {
      var it := First(m, lo, hi);
      var r := Step(m, lo, hi, drivers, false, it);
      if r.Done? {
        StepOnlyCuts(m, lo, hi, drivers, it, j, j);
      } else {
        CallOnlyCuts(r.m, r.lo, hi, drivers, j);
        if !j.Within(r.lo, hi) {
          var i :| i in r.m.ivs && IsCutFrom(i, j, r.lo, hi);
          StepOnlyCuts(m, lo, hi, drivers, it, i, j);
        }
      }
    }
  }

  /** Where an interval ends and the next bit is covered too, the neighbours are equal exactly when the drivers of the bits are. */
  lemma EqualAtIsEqual(m: DMap, x: int)
    requires m.Disjoint() && m.Covered(x) && m.Covered(x + 1)
    ensures EqualAt(m, x) <==> m.At(x) == m.At(x + 1) && exists j :: j in m.ivs && j.hi == x
  {
    var j :| j in m.ivs && j.Has(x);
    var k :| k in m.ivs && k.Has(x + 1);
    m.AtIs(x, j);
    m.AtIs(x + 1, k);
    OnlyOneEnds(m, x, j);
    OnlyOneStarts(m, x + 1, k);
    if j.hi == x {
      assert j != k && k.lo == x + 1;
    }
  }

  lemma OnlyOneEnds(m: DMap, x: int, j: Interval)
    requires m.Disjoint() && j in m.ivs && j.Has(x)
    ensures forall i :: i in m.ivs && i.hi == x ==> i == j
  {
    assert forall i :: i in m.ivs && i.hi == x ==> i.Has(x);
  }

  lemma OnlyOneStarts(m: DMap, x: int, k: Interval)
    requires m.Disjoint() && k in m.ivs && k.Has(x)
    ensures forall i :: i in m.ivs && i.lo == x ==> i == k
  {
    assert forall i :: i in m.ivs && i.lo == x ==> i.Has(x);
  }

  lemma EqualAtIsCovered(m: DMap, x: int)
    requires m.Disjoint() && EqualAt(m, x)
    ensures m.Covered(x) && m.Covered(x + 1)
  {
    var j, k :| j in m.ivs && k in m.ivs && j.hi == x && k.lo == x + 1 && m.ListOf(j.handle) == m.ListOf(k.handle);
    assert j.Has(x) && k.Has(x + 1);
  }

  /** A map, and the same map after a replacing call that does no harm. */
  ghost predicate Replaced(m: DMap, m': DMap, lo: int, hi: int, drivers: set<Driver>) {
    && m.Ok() && m.NoDangling() && lo <= hi && NoHarm(m, lo, hi, drivers, false)
    && m' == Add(m, lo, hi, drivers, false)
  }

  /** The bits of the map after the call. */
  lemma BitsAfter(m: DMap, m': DMap, lo: int, hi: int, drivers: set<Driver>, b: int)
    requires Replaced(m, m', lo, hi, drivers)
    ensures m'.Disjoint() && (m'.Covered(b) <==> m.Covered(b) || lo <= b <= hi)
    ensures m'.At(b) == if lo <= b <= hi then Driven(drivers) else m.At(b)
  {
    CallIsRight(m, lo, hi, drivers, false);
    CallCovers(m, lo, hi, drivers, false, b);
  }

  lemma CutEnds(m: DMap, lo: int, hi: int, i: Interval, j: Interval, x: int)
    requires m.Disjoint() && i in m.ivs && IsCutFrom(i, j, lo, hi) && j.Has(x) && lo <= hi
    ensures j.hi == x <==> x == lo - 1 || exists k :: k in m.ivs && k.hi == x
  {
    OnlyOneEnds(m, x, i);
  }

  /** Outside the range an interval ends at a bit after the call exactly if one did before or the range starts next. */
  lemma EndsAfter(m: DMap, m': DMap, lo: int, hi: int, drivers: set<Driver>, x: int)
    requires Replaced(m, m', lo, hi, drivers) && (x < lo || hi < x) && m.Covered(x)
    ensures (exists j :: j in m'.ivs && j.hi == x) <==> x == lo - 1 || exists i :: i in m.ivs && i.hi == x
  {
    BitsAfter(m, m', lo, hi, drivers, x);
    var j :| j in m'.ivs && j.Has(x);
    CallOnlyCuts(m, lo, hi, drivers, j);
    var i :| i in m.ivs && IsCutFrom(i, j, lo, hi);
    CutEnds(m, lo, hi, i, j, x);
    OnlyOneEnds(m', x, j);
  }

  /** Away from the range, neighbours are equal exactly where they were. */
  lemma EqualOutsideStays(m: DMap, m': DMap, lo: int, hi: int, drivers: set<Driver>, x: int)
    requires Replaced(m, m', lo, hi, drivers) && (x + 1 < lo || hi < x)
    ensures EqualAt(m', x) <==> EqualAt(m, x)
  {
    BitsAfter(m, m', lo, hi, drivers, x);
    BitsAfter(m, m', lo, hi, drivers, x + 1);
    if m.Covered(x) && m.Covered(x + 1) {
      EqualAtIsEqual(m, x);
      EqualAtIsEqual(m', x);
      EndsAfter(m, m', lo, hi, drivers, x);
    } else {
      if EqualAt(m, x) { EqualAtIsCovered(m, x); }
      if EqualAt(m', x) { EqualAtIsCovered(m', x); }
    }
  }

  /** At the range's low end, exactly if the bit below has the drivers the call sets. */
  lemma EqualBelow(m: DMap, m': DMap, lo: int, hi: int, drivers: set<Driver>)
    requires Replaced(m, m', lo, hi, drivers)
    ensures EqualAt(m', lo - 1) <==> m.At(lo - 1) == Driven(drivers)
  {
    BitsAfter(m, m', lo, hi, drivers, lo - 1);
    BitsAfter(m, m', lo, hi, drivers, lo);
    if m.Covered(lo - 1) {
      EqualAtIsEqual(m', lo - 1);
      EndsAfter(m, m', lo, hi, drivers, lo - 1);
    } else if EqualAt(m', lo - 1) {
      EqualAtIsCovered(m', lo - 1);
    }
  }

  /** The interval over the range's high end ends there. */
  lemma EndsAtTop(m: DMap, m': DMap, lo: int, hi: int, drivers: set<Driver>)
    requires Replaced(m, m', lo, hi, drivers)
    ensures exists j :: j in m'.ivs && j.hi == hi
  {
    BitsAfter(m, m', lo, hi, drivers, hi);
    var j :| j in m'.ivs && j.Has(hi);
    CallOnlyCuts(m, lo, hi, drivers, j);
  }

  /** At its high end, exactly if the bit above has them. */
  lemma EqualAbove(m: DMap, m': DMap, lo: int, hi: int, drivers: set<Driver>)
    requires Replaced(m, m', lo, hi, drivers)
    ensures EqualAt(m', hi) <==> m.At(hi + 1) == Driven(drivers)
  {
    BitsAfter(m, m', lo, hi, drivers, hi);
    BitsAfter(m, m', lo, hi, drivers, hi + 1);
    if m.Covered(hi + 1) {
      EqualAtIsEqual(m', hi);
      EndsAtTop(m, m', lo, hi, drivers);
    } else if EqualAt(m', hi) {
      EqualAtIsCovered(m', hi);
    }
  }

  lemma WholeHasNoJoint(m: DMap, lo: int, hi: int, x: int)
    requires m.Disjoint() && IsWhole(m, lo, hi) && lo <= x < hi
    ensures !EqualAt(m, x)
  {
    var w :| w in m.ivs && w.lo == lo && w.hi == hi;
    OnlyOneEnds(m, x, w);
  }

  lemma PieceStartsRange(m: DMap, m': DMap, lo: int, hi: int, drivers: set<Driver>) returns (j: Interval)
    requires Replaced(m, m', lo, hi, drivers) && !IsWhole(m', lo, hi)
    ensures j in m'.ivs && lo <= j.hi < hi
  {
    BitsAfter(m, m', lo, hi, drivers, lo);
    j :| j in m'.ivs && j.Has(lo);
    CallOnlyCuts(m, lo, hi, drivers, j);
  }

  /** Within the range, exactly if an interval straddled its low end. */
  lemma EqualWithinIffStraddled(m: DMap, m': DMap, lo: int, hi: int, drivers: set<Driver>)
    requires Replaced(m, m', lo, hi, drivers)
    ensures (exists x :: lo <= x < hi && EqualAt(m', x)) <==> exists i :: i in m.ivs && Straddles(i, lo, hi)
  {
    RangeIsWholeIff(m, lo, hi, drivers);
    if IsWhole(m', lo, hi) {
      BitsAfter(m, m', lo, hi, drivers, lo);
      forall x | lo <= x < hi
        ensures !EqualAt(m', x)
      {
        WholeHasNoJoint(m', lo, hi, x);
      }
    } else {
      var j := PieceStartsRange(m, m', lo, hi, drivers);
      PieceEndsEqual(m, m', lo, hi, drivers, j, j.hi);
    }
  }

  lemma PieceEndsEqual(m: DMap, m': DMap, lo: int, hi: int, drivers: set<Driver>, j: Interval, x: int)
    requires Replaced(m, m', lo, hi, drivers) && j in m'.ivs && j.hi == x && lo <= x < hi
    ensures EqualAt(m', x)
  {
    BitsAfter(m, m', lo, hi, drivers, x);
    BitsAfter(m, m', lo, hi, drivers, x + 1);
    EqualAtIsEqual(m', x);
  }

  /** A replacing call leaves equal neighbours exactly if it straddles, meets its own drivers at an end, or some away from its range stay. */
  lemma EqualNeighboursAfter(m: DMap, m': DMap, lo: int, hi: int, drivers: set<Driver>)
    requires Replaced(m, m', lo, hi, drivers)
    ensures EqualNeighbours(m')
            <==> (exists i :: i in m.ivs && Straddles(i, lo, hi))
                 || m.At(lo - 1) == Driven(drivers) || m.At(hi + 1) == Driven(drivers)
                 || exists x :: (x + 1 < lo || hi < x) && EqualAt(m, x)
  {
    EqualWithinIffStraddled(m, m', lo, hi, drivers);
    EqualBelow(m, m', lo, hi, drivers);
    EqualAbove(m, m', lo, hi, drivers);
    forall x | x + 1 < lo || hi < x
      ensures EqualAt(m', x) <==> EqualAt(m, x)
    {
      EqualOutsideStays(m, m', lo, hi, drivers, x);
    }
    if EqualNeighbours(m') {
      var x :| EqualAt(m', x);
      assert x == lo - 1 || x == hi || lo <= x < hi || x + 1 < lo || hi < x;
    }
  }

  /** From a map without equal neighbours: exactly if an interval straddles its low end or a bit next to its range has its drivers. */
  lemma LeavesEqualNeighboursIff(m: DMap, lo: int, hi: int, drivers: set<Driver>)
    requires m.Ok() && m.NoDangling() && lo <= hi && NoHarm(m, lo, hi, drivers, false) && !EqualNeighbours(m)
    ensures EqualNeighbours(Add(m, lo, hi, drivers, false))
            <==> (exists i :: i in m.ivs && Straddles(i, lo, hi)) || m.At(lo - 1) == Driven(drivers) || m.At(hi + 1) == Driven(drivers)
  {
    EqualNeighboursAfter(m, Add(m, lo, hi, drivers, false), lo, hi, drivers);
  }

  lemma OneCall(c: Call)
    requires c.lo <= c.hi
    ensures Run([c]).ivs == {Interval(c.lo, c.hi, 0)} && Healthy(Run([c])) && Run([c]).At(c.hi) == Driven(c.drivers)
  {
    FirstCall(c);
    WithoutSplitsNothingEscapes([c]);
    NoEscapeIsHarmless([c]);
    RunIsRight([c]);
    assert [c][..0] == [];
    assert Meaning([c], c.hi) == Driven(c.drivers);
  }

  lemma AfterOneCall(c: Call, d: Call) returns (m: DMap, m': DMap)
    requires c.lo <= c.hi && d.lo <= d.hi && !d.merge
    ensures m' == Run([c, d]) && Replaced(m, m', d.lo, d.hi, d.drivers)
    ensures Interval(c.lo, c.hi, 0) in m.ivs && m.ivs == {Interval(c.lo, c.hi, 0)} && m.At(c.hi) == Driven(c.drivers)
  {
    OneCall(c);
    Extend([c], d);
    assert [c] + [d] == [c, d];
    m, m' := Run([c]), Run([c, d]);
  }

  /** Replacing a range and then one that straddles its end, as [0, 3] and [2, 5]: the second range is left in two pieces. */
  lemma NeighboursCanBeEqual(c1: Call, c2: Call)
    requires c1.lo < c2.lo <= c1.hi < c2.hi && !c2.merge
    ensures EqualNeighbours(Run([c1, c2])) && !IsWhole(Run([c1, c2]), c2.lo, c2.hi)
  {
    var m, m' := AfterOneCall(c1, c2);
    StraddlerSpoils(m, m', c2.lo, c2.hi, c2.drivers, Interval(c1.lo, c1.hi, 0));
  }

  lemma StraddlerSpoils(m: DMap, m': DMap, lo: int, hi: int, drivers: set<Driver>, i: Interval)
    requires Replaced(m, m', lo, hi, drivers) && i in m.ivs && Straddles(i, lo, hi)
    ensures EqualNeighbours(m') && !IsWhole(m', lo, hi)
  {
    EqualNeighboursAfter(m, m', lo, hi, drivers);
    RangeIsWholeIff(m, lo, hi, drivers);
  }

  /** Replacing a range and then the next one with the same drivers, as [0, 3] and [4, 7]: the second is whole, and they are equal neighbours. */
  lemma SameDriversMeet(c1: Call, c2: Call)
    requires c1.lo <= c1.hi && c2.lo == c1.hi + 1 <= c2.hi && !c2.merge && c1.drivers == c2.drivers
    ensures EqualNeighbours(Run([c1, c2])) && IsWhole(Run([c1, c2]), c2.lo, c2.hi)
  {
    var m, m' := AfterOneCall(c1, c2);
    EqualNeighboursAfter(m, m', c2.lo, c2.hi, c2.drivers);
    RangeIsWholeIff(m, c2.lo, c2.hi, c2.drivers);
  }
}
