/**
  Where one call of addDrivers (source/ValueTracker.cpp) leaves intervals to begin and
  end: for any two neighbouring bits, whether one interval has both afterwards.
  */
module IntervalExtents {
  import opened DriverIntervals

  /** One interval has bits x - 1 and x. */
  ghost predicate OneInterval(m: DMap, x: int) {
    exists i :: i in m.ivs && i.lo < x <= i.hi
  }

  /** An interval overlaps the low end of the range and ends within it, just before `x`. */
  ghost predicate StraddlerEndsBefore(m: DMap, lo: int, hi: int, x: int) {
    exists i :: i in m.ivs && i.lo < lo <= i.hi < hi && i.hi + 1 == x
  }

  /**
    Whether bits x - 1 and x are to be in one interval. The range's ends divide. Outside
    the range nothing changes. Inside, a merge joins bits that were joined or both free,
    and a replacement joins all but where an interval that straddles the low end ended.
    */
  ghost predicate MeantOneInterval(m: DMap, lo: int, hi: int, merge: bool, x: int) {
    && x != lo && x != hi + 1
    && if !(lo < x <= hi) then OneInterval(m, x)
       else if merge then OneInterval(m, x) || (!m.Covered(x - 1) && !m.Covered(x))
       else !StraddlerEndsBefore(m, lo, hi, x)
  }

  /** A turn leaves it as meant: finally, or with the rest of the call still to come. */
  ghost predicate TurnJoins(m: DMap, lo: int, hi: int, merge: bool, r: Turn, x: int) {
    match r
    case Done(m') => OneInterval(m', x) <==> MeantOneInterval(m, lo, hi, merge, x)
    case Go(m', lo') => MeantOneInterval(m', lo', hi, merge, x) <==> MeantOneInterval(m, lo, hi, merge, x)
  }

  /** Of disjoint intervals, one that has either bit decides. */
  lemma OneDecides(m: DMap, i: Interval, x: int)
    requires m.Disjoint() && i in m.ivs && (i.Has(x) || i.Has(x - 1))
    ensures OneInterval(m, x) <==> i.lo < x <= i.hi
  {
    if OneInterval(m, x) {
      var j :| j in m.ivs && j.lo < x <= j.hi;
      assert i == j;
    }
  }

  lemma ExactJoins(m: DMap, lo: int, hi: int, drivers: set<Driver>, merge: bool, it: Interval, x: int)
    requires AtEntry(m, lo, hi, it) && it.lo == lo && it.hi == hi
    ensures TurnJoins(m, lo, hi, merge, Exact(m, lo, hi, drivers, merge, it), x)
  {
    var m' := Exact(m, lo, hi, drivers, merge, it).m;
    assert m'.ivs == m.ivs;
    if lo <= x <= hi + 1 {
      OneDecides(m, it, x);
      OneDecides(m', it, x);
    }
  }

  lemma InsideJoins(m: DMap, lo: int, hi: int, drivers: set<Driver>, merge: bool, it: Interval, x: int)
    requires AtEntry(m, lo, hi, it) && it.Covers(lo, hi) && !it.Within(lo, hi)
    ensures TurnJoins(m, lo, hi, merge, Inside(m, lo, hi, drivers, merge, it), x)
  {
    var m' := Inside(m, lo, hi, drivers, merge, it).m;
    var middle := Interval(lo, hi, m.lists.NextHandle());
    assert middle in m'.ivs;
    if lo <= x <= hi + 1 {
      OneDecides(m', middle, x);
      if lo < x <= hi {
        OneDecides(m, it, x);
      }
    } else {
      assert it.lo < x < lo ==> Interval(it.lo, lo - 1, it.handle) in m'.ivs;
      assert hi + 1 < x <= it.hi ==> Interval(hi + 1, it.hi, it.handle) in m'.ivs;
    }
  }

  lemma ReplaceAroundJoins(m: DMap, lo: int, hi: int, drivers: set<Driver>, it: Interval, x: int)
    requires AtEntry(m, lo, hi, it) && it.Within(lo, hi)
    ensures TurnJoins(m, lo, hi, false, Around(m, lo, hi, drivers, false, it), x)
  {
    var m' := Around(m, lo, hi, drivers, false, it).m;
    assert m'.ivs == m.ivs - {it};
    assert StraddlerEndsBefore(m', lo, hi, x) <==> StraddlerEndsBefore(m, lo, hi, x);
    assert !(lo < x <= hi) && x != lo && x != hi + 1 ==> (OneInterval(m', x) <==> OneInterval(m, x));
  }

  lemma FreeBelow(m: DMap, lo: int, hi: int, it: Interval, b: int)
    requires IsFirst(m, lo, hi, it) && b < it.lo && b <= hi
    ensures lo <= b ==> !m.Covered(b)
  {
  }

  lemma AwayFrom(m: DMap, m': DMap, piece: Interval, x: int)
    requires m.ivs <= m'.ivs <= m.ivs + {piece} && !piece.Has(x) && !piece.Has(x - 1)
    ensures OneInterval(m', x) <==> OneInterval(m, x)
    ensures (m'.Covered(x) <==> m.Covered(x)) && (m'.Covered(x - 1) <==> m.Covered(x - 1))
  {
  }

  lemma MergeAroundJoins(m: DMap, lo: int, hi: int, drivers: set<Driver>, it: Interval, x: int)
    requires AtEntry(m, lo, hi, it) && it.Within(lo, hi)
    ensures TurnJoins(m, lo, hi, true, Around(m, lo, hi, drivers, true, it), x)
  {
    var r := Around(m, lo, hi, drivers, true, it);
    var gap := Interval(lo, it.lo - 1, m.lists.NextHandle());
    assert r.m.ivs == m.ivs + if it.lo > lo then {gap} else {};
    if it.lo <= x <= it.hi + 1 {
      OneDecides(m, it, x);
      OneDecides(r.m, it, x);
    } else if lo <= x < it.lo {
      OneDecides(r.m, gap, x);
      FreeBelow(m, lo, hi, it, x);
      FreeBelow(m, lo, hi, it, x - 1);
    } else {
      AwayFrom(m, r.m, gap, x);
    }
  }

  lemma LeftOverlapJoins(m: DMap, lo: int, hi: int, drivers: set<Driver>, merge: bool, it: Interval, x: int)
    requires AtEntry(m, lo, hi, it) && it.lo < lo && it.hi < hi
    ensures TurnJoins(m, lo, hi, merge, LeftOverlap(m, lo, hi, drivers, merge, it), x)
  {
    var r := LeftOverlap(m, lo, hi, drivers, merge, it);
    var left, low := Interval(it.lo, lo - 1, it.handle), Interval(lo, it.hi, m.lists.NextHandle());
    assert r == Go(r.m, it.hi + 1) && r.m.ivs == m.ivs - {it} + {left} + {low};
    assert forall x' :: StraddlerEndsBefore(m, lo, hi, x') <==> x' == it.hi + 1;
    if lo <= x <= it.hi + 1 {
      OneDecides(r.m, low, x);
      OneDecides(m, it, x);
    } else if it.lo <= x < lo {
      OneDecides(r.m, left, x);
      OneDecides(m, it, x);
    } else {
      LeftAway(m, r.m, it, left, low, x);
      assert !StraddlerEndsBefore(r.m, it.hi + 1, hi, x);
    }
  }

  lemma LeftAway(m: DMap, m': DMap, it: Interval, left: Interval, low: Interval, x: int)
    requires it in m.ivs && m'.ivs == m.ivs - {it} + {left} + {low}
    requires left.lo == it.lo && low.hi == it.hi && left.lo <= left.hi + 1 == low.lo <= low.hi && !it.Has(x) && !it.Has(x - 1)
    ensures OneInterval(m', x) <==> OneInterval(m, x)
    ensures (m'.Covered(x) <==> m.Covered(x)) && (m'.Covered(x - 1) <==> m.Covered(x - 1))
  {
  }

  lemma RightReplaceJoins(m: DMap, lo: int, hi: int, drivers: set<Driver>, it: Interval, x: int)
    requires AtEntry(m, lo, hi, it) && lo < it.lo && hi < it.hi
    ensures TurnJoins(m, lo, hi, false, RightOverlap(m, lo, hi, drivers, false, it), x)
  {
    var m' := RightOverlap(m, lo, hi, drivers, false, it).m;
    var right, whole := Interval(hi + 1, it.hi, it.handle), Interval(lo, hi, m.lists.NextHandle());
    assert m'.ivs == m.ivs - {it} + {right} + {whole};
    assert !StraddlerEndsBefore(m, lo, hi, x);
    if lo <= x <= hi + 1 {
      OneDecides(m', whole, x);
    } else if hi + 1 < x <= it.hi + 1 {
      OneDecides(m', right, x);
      OneDecides(m, it, x);
    } else {
      PiecesAway(m, m', it, [right, whole], x);
    }
  }

  /** Pieces and the interval they replace say nothing of bits that none of them has. */
  lemma PiecesAway(m: DMap, m': DMap, it: Interval, pieces: seq<Interval>, x: int)
    requires (forall i :: i in m'.ivs <==> (i in m.ivs && i != it) || i in pieces)
    requires !it.Has(x) && !it.Has(x - 1) && forall i :: i in pieces ==> !i.Has(x) && !i.Has(x - 1)
    ensures OneInterval(m', x) <==> OneInterval(m, x)
  {
    if OneInterval(m, x) {
      var i :| i in m.ivs && i.lo < x <= i.hi;
      assert i != it;
      assert i in m'.ivs;
    }
    if OneInterval(m', x) {
      var i :| i in m'.ivs && i.lo < x <= i.hi;
      assert i.Has(x) && i !in pieces;
    }
  }

  lemma RightMergeJoins(m: DMap, lo: int, hi: int, drivers: set<Driver>, it: Interval, x: int)
    requires AtEntry(m, lo, hi, it) && lo < it.lo && hi < it.hi
    ensures TurnJoins(m, lo, hi, true, RightOverlap(m, lo, hi, drivers, true, it), x)
  {
    var m' := RightOverlap(m, lo, hi, drivers, true, it).m;
    var right := Interval(hi + 1, it.hi, it.handle);
    var m1 := m.Without(it).With(hi + 1, it.hi, it.handle);
    var gap := Interval(lo, it.lo - 1, m1.lists.NextHandle());
    var m2 := m1.WithNew(lo, it.lo - 1, drivers);
    var middle := Interval(it.lo, hi, m2.lists.NextHandle());
    assert m'.ivs == m.ivs - {it} + {right} + {gap} + {middle};
    if it.lo <= x <= hi + 1 {
      OneDecides(m', middle, x);
      OneDecides(m, it, x);
    } else if lo <= x < it.lo {
      OneDecides(m', gap, x);
      FreeBelow(m, lo, hi, it, x);
      FreeBelow(m, lo, hi, it, x - 1);
    } else if hi + 1 < x <= it.hi + 1 {
      OneDecides(m', right, x);
      OneDecides(m, it, x);
    } else {
      PiecesAway(m, m', it, [right, gap, middle], x);
    }
  }

  /** Each turn of a call leaves the joints as meant. */
  lemma StepJoins(m: DMap, lo: int, hi: int, drivers: set<Driver>, merge: bool, it: Interval, x: int)
    requires AtEntry(m, lo, hi, it)
    ensures TurnJoins(m, lo, hi, merge, Step(m, lo, hi, drivers, merge, it), x)
  {
    if it.lo == lo && it.hi == hi {
      ExactJoins(m, lo, hi, drivers, merge, it, x);
    } else if it.Covers(lo, hi) {
      InsideJoins(m, lo, hi, drivers, merge, it, x);
    } else if it.Within(lo, hi) {
      if merge {
        MergeAroundJoins(m, lo, hi, drivers, it, x);
      } else {
        ReplaceAroundJoins(m, lo, hi, drivers, it, x);
      }
    } else if it.lo <= lo {
      LeftOverlapJoins(m, lo, hi, drivers, merge, it, x);
    } else if merge {
      RightMergeJoins(m, lo, hi, drivers, it, x);
    } else {
      RightReplaceJoins(m, lo, hi, drivers, it, x);
    }
  }

  lemma FreeRangeJoins(m: DMap, lo: int, hi: int, drivers: set<Driver>, merge: bool, x: int)
    requires m.Disjoint() && m.lists.Valid() && lo <= hi && !Hit(m, lo, hi)
    ensures OneInterval(m.WithNew(lo, hi, drivers), x) <==> MeantOneInterval(m, lo, hi, merge, x)
  {
    var m' := m.WithNew(lo, hi, drivers);
    var whole := Interval(lo, hi, m.lists.NextHandle());
    if lo <= x <= hi + 1 {
      OneDecides(m', whole, x);
      assert lo < x <= hi ==> !m.Covered(x - 1) && !m.Covered(x);
    } else {
      AwayFrom(m, m', whole, x);
    }
  }

  /**
    After a call two neighbouring bits are in one interval exactly when meant. With the
    bits that are covered, that says where every interval begins and ends.
    */
  lemma {:induction false} CallJoins(m: DMap, lo: int, hi: int, drivers: set<Driver>, merge: bool, x: int)
    requires m.Disjoint() && m.lists.Valid() && lo <= hi
    ensures OneInterval(Add(m, lo, hi, drivers, merge), x) <==> MeantOneInterval(m, lo, hi, merge, x)
    decreases hi - lo, m.ivs
  {
    if !Hit(m, lo, hi) {
      FreeRangeJoins(m, lo, hi, drivers, merge, x);
    } else {
      var it := First(m, lo, hi);
      StepJoins(m, lo, hi, drivers, merge, it, x);
      var r := Step(m, lo, hi, drivers, merge, it);
      if r.Go? {
        CallJoins(r.m, r.lo, hi, drivers, merge, x);
      }
    }
  }
}
