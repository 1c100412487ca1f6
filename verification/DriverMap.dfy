/**
  The mutable driver map of one symbol (source/DriverMap.hpp) and the per-symbol
  part of ValueTracker::addDrivers, getDrivers and the state join
  (source/ValueTracker.cpp, source/DataFlowAnalysis.cpp), proved against the
  one-call function of DriverIntervals.
  */
module DriverMap {
  import opened Wrappers
  import opened BitRanges
  import opened ExternalManager
  import opened DriverIntervals
  import opened DriverRuns
  import opened IntervalExtents

  class DriverMap {
    var driverIntervals: set<Interval>
    const driverLists: ExternalManager<set<Driver>>

    function Value(): DMap
      reads this, driverLists
    {
      DMap(driverIntervals, driverLists.Value())
    }

    constructor ()
      ensures Value() == Empty && fresh(driverLists)
    {
      driverIntervals := {};
      driverLists := new ExternalManager<set<Driver>>();
    }

    /** The deep copy: the same value in new objects. */
    constructor CloneOf(other: DriverMap)
      ensures Value() == other.Value() && fresh(driverLists)
    {
      driverIntervals := other.driverIntervals;
      driverLists := new ExternalManager<set<Driver>>.CopyOf(other.driverLists);
    }

    /** Copies a driver list in and returns its new handle. */
    method AddDriverList(list: set<Driver>) returns (handle: Handle)
      requires Value().lists.Valid()
      modifies driverLists
      ensures handle == old(Value()).lists.NextHandle()
      ensures forall lo, hi :: Value().With(lo, hi, handle) == old(Value()).WithNew(lo, hi, list)
    {
      handle := driverLists.Allocate(list);
    }

    method Insert(lo: int, hi: int, handle: Handle)
      modifies this`driverIntervals
      ensures Value() == old(Value()).With(lo, hi, handle)
    {
      driverIntervals := driverIntervals + {Interval(lo, hi, handle)};
    }

    method EraseInterval(it: Interval)
      modifies this`driverIntervals
      ensures Value() == old(Value()).Without(it)
    {
      driverIntervals := driverIntervals - {it};
    }

    /** The first entry, in ascending order, that overlaps the bounds. */
    method Find(lo: int, hi: int) returns (it: Option<Interval>)
      requires Value().Disjoint()
      ensures if Hit(Value(), lo, hi) then it == Some(First(Value(), lo, hi)) else it == None
    {
      it := None;
      var left := driverIntervals;
      while left != {}
        invariant left <= driverIntervals
        invariant it.None? ==> forall j :: j in driverIntervals - left ==> !j.Overlaps(lo, hi)
        invariant it.Some? ==> it.value in driverIntervals && it.value.Overlaps(lo, hi)
                               && forall j :: j in driverIntervals - left && j.Overlaps(lo, hi) ==> it.value.lo <= j.lo
        decreases left
      {
        var j :| j in left;
        left := left - {j};
        if j.Overlaps(lo, hi) && (it.None? || j.lo < it.value.lo) {
          it := Some(j);
        }
      }
      if it.Some? {
        var f := First(Value(), lo, hi);
        assert it.value.lo == f.lo;
      }
    }

    /** The current value with the rest of a call still to come makes up the whole call. */
    ghost predicate OnTheWay(start: DMap, low: int, m: DMap, lo: int, hi: int, drivers: set<Driver>, merge: bool) {
      && start.Disjoint() && start.lists.Valid() && low <= hi && lo <= hi && Safe(m, lo, hi, merge)
      && Add(m, lo, hi, drivers, merge) == Add(start, low, hi, drivers, merge)
    }

    /** Matching intervals: the list is edited in place. */
    method EditExact(drivers: set<Driver>, merge: bool, it: Interval)
      requires AtEntry(Value(), it.lo, it.hi, it) && Value().lists.Live(it.handle)
      modifies driverLists
      ensures Value() == Exact(old(Value()), it.lo, it.hi, drivers, merge, it).m
    {
      var existing := driverLists.Get(it.handle);
      driverLists.Set(it.handle, if merge then existing + drivers else drivers);
    }

    /** The entry contains the bounds: split it around a new list. */
    method SplitInside(lo: int, hi: int, drivers: set<Driver>, merge: bool, it: Interval)
      requires AtEntry(Value(), lo, hi, it) && it.Covers(lo, hi) && (merge ==> Value().lists.Live(it.handle))
      modifies this, driverLists
      ensures Value() == Inside(old(Value()), lo, hi, drivers, merge, it).m
    {
      EraseInterval(it);
      if it.lo < lo {
        Insert(it.lo, lo - 1, it.handle);
      }
      if it.hi > hi {
        Insert(hi + 1, it.hi, it.handle);
      }
      var list := drivers;
      if merge {
        var existing := driverLists.Get(it.handle);
        list := existing + drivers;
      }
      var newHandle := AddDriverList(list);
      Insert(lo, hi, newHandle);
    }

    /** Drops an entry inside the bounds and frees its list unless a sharing entry already did. */
    method DropAround(lo: int, hi: int, drivers: set<Driver>, it: Interval)
      requires AtEntry(Value(), lo, hi, it) && it.Within(lo, hi)
      modifies this, driverLists
      ensures Value() == Around(old(Value()), lo, hi, drivers, false, it).m
    {
      EraseInterval(it);
      if Value().lists.Live(it.handle) {
        driverLists.Erase(it.handle);
      }
    }

    /** Merges into an entry inside the bounds and fills the gap before it. */
    method MergeAround(lo: int, hi: int, drivers: set<Driver>, it: Interval)
      requires AtEntry(Value(), lo, hi, it) && it.Within(lo, hi) && Value().lists.Live(it.handle)
      modifies this, driverLists
      ensures Value() == Around(old(Value()), lo, hi, drivers, true, it).m
    {
      var existing := driverLists.Get(it.handle);
      driverLists.Set(it.handle, existing + drivers);
      if it.lo > lo {
        assert Value() == old(Value()).WithList(it.handle, existing + drivers);
        var newHandle := AddDriverList(drivers);
        Insert(lo, it.lo - 1, newHandle);
      }
    }

    /** The entry overlaps the low end of the bounds. */
    method SplitLeft(lo: int, hi: int, drivers: set<Driver>, merge: bool, it: Interval)
      requires AtEntry(Value(), lo, hi, it) && it.lo < lo && it.hi < hi && (merge ==> Value().lists.Live(it.handle))
      modifies this, driverLists
      ensures Value() == LeftOverlap(old(Value()), lo, hi, drivers, merge, it).m
    {
      EraseInterval(it);
      Insert(it.lo, lo - 1, it.handle);
      var list := drivers;
      if merge {
        var existing := driverLists.Get(it.handle);
        list := existing + drivers;
      }
      var newHandle := AddDriverList(list);
      Insert(lo, it.hi, newHandle);
    }

    /** The entry overlaps the high end of the bounds. */
    method SplitRight(lo: int, hi: int, drivers: set<Driver>, merge: bool, it: Interval)
      requires AtEntry(Value(), lo, hi, it) && lo < it.lo && hi < it.hi && (merge ==> Value().lists.Live(it.handle))
      modifies this, driverLists
      ensures Value() == RightOverlap(old(Value()), lo, hi, drivers, merge, it).m
    {
      ghost var m := Value();
      RightOverlapMade(m, lo, hi, drivers, merge, it);
      EraseInterval(it);
      var leftHandle := AddDriverList(drivers);
      if !merge {
        Insert(lo, hi, leftHandle);
      } else {
        Insert(lo, it.lo - 1, leftHandle);
        ghost var m2 := m.Without(it).WithNew(lo, it.lo - 1, drivers);
        assert Value() == m2 && m2.ListOf(it.handle) == m.ListOf(it.handle);
        var existing := driverLists.Get(it.handle);
        assert existing == m.Get(it.handle);
        var middleHandle := AddDriverList(existing + drivers);
        Insert(it.lo, hi, middleHandle);
      }
      Insert(hi + 1, it.hi, it.handle);
    }

    /** One turn of the loop: the five cases of how the entry meets the bounds, which are all there are. */
    method Examine(lo: int, hi: int, drivers: set<Driver>, merge: bool, e: Interval) returns (done: bool, next: int)
      requires Safe(Value(), lo, hi, merge) && AtEntry(Value(), lo, hi, e)
      modifies this, driverLists
      ensures Value() == Step(old(Value()), lo, hi, drivers, merge, e).m
      ensures done <==> Step(old(Value()), lo, hi, drivers, merge, e).Done?
      ensures !done ==> next == Step(old(Value()), lo, hi, drivers, merge, e).lo
    {
      next := lo;
      if e.lo == lo && e.hi == hi {
        ExactIsLive(Value(), lo, hi, merge, e);
        EditExact(drivers, merge, e);
        return true, next;
      }
      if e.Covers(lo, hi) {
        SplitInside(lo, hi, drivers, merge, e);
        return true, next;
      }
      if e.Within(lo, hi) {
        if !merge {
          DropAround(lo, hi, drivers, e);
          return false, next;
        }
        MergeAround(lo, hi, drivers, e);
        next := e.hi + 1;
        return next > hi, next;
      }
      if e.lo <= lo && e.hi >= lo {
        SplitLeft(lo, hi, drivers, merge, e);
        next := e.hi + 1;
        return next > hi, next;
      }
      if e.lo <= hi && e.hi >= hi {
        SplitRight(lo, hi, drivers, merge, e);
        return true, next;
      }
      assert false;
    }

    /**
      Adds drivers over a bit range, replacing or merging: the whole of one call.
      Where every list shared across the border of the range holds the merged drivers
      already, each bit ends as meant; a merge leaves each bit as meant only then. The
      intervals begin and end where they are meant to in any case.
      */
    method AddDrivers(range: BitRange, drivers: set<Driver>, merge: bool)
      requires Value().Ok() && Value().NoDangling()
      modifies this, driverLists
      ensures Value() == Add(old(Value()), range.Lower(), range.Upper(), drivers, merge)
      ensures merge || NoHarm(old(Value()), range.Lower(), range.Upper(), drivers, merge) ==> Value().Ok() && Value().NoDangling()
      ensures NoHarm(old(Value()), range.Lower(), range.Upper(), drivers, merge) ==>
                CallRight(old(Value()), range.Lower(), range.Upper(), drivers, merge)
      ensures merge && CallRight(old(Value()), range.Lower(), range.Upper(), drivers, merge) ==>
                NoHarm(old(Value()), range.Lower(), range.Upper(), drivers, merge)
      ensures forall x {:trigger OneInterval(Value(), x)} ::
                OneInterval(Value(), x) <==> MeantOneInterval(old(Value()), range.Lower(), range.Upper(), merge, x)
    {
      var bounds := range.Normalized();
      var lo, hi := bounds.left, bounds.right;
      ghost var start := Value();
      CallContract(start, lo, hi, drivers, merge);
      forall x ensures OneInterval(Add(start, lo, hi, drivers, merge), x) <==> MeantOneInterval(start, lo, hi, merge, x) {
        CallJoins(start, lo, hi, drivers, merge, x);
      }
      var it := Find(lo, hi);
      while it.Some?
        invariant OnTheWay(start, bounds.left, Value(), lo, hi, drivers, merge)
        invariant if Hit(Value(), lo, hi) then it == Some(First(Value(), lo, hi)) else it == None
        decreases hi - lo, Value().ivs
      {
        StepStaysSafe(Value(), lo, hi, drivers, merge, it.value);
        var done, next := Examine(lo, hi, drivers, merge, it.value);
        if done {
          return;
        }
        lo := next;
        it := Find(lo, hi);
      }
      var newHandle := AddDriverList(drivers);
      Insert(lo, hi, newHandle);
    }

    /** Merges in one entry of another map, which stays as it is. */
    method JoinEntry(other: DriverMap, it: Interval, drivers: set<Driver>)
      requires other != this && other.driverLists != driverLists && Value().Ok() && Value().NoDangling() && it.lo <= it.hi
      modifies this, driverLists
      ensures other.Value() == old(other.Value()) && Value().Ok() && Value().NoDangling()
      ensures Value() == Add(old(Value()), it.lo, it.hi, drivers, true)
    {
      AddDrivers(BitRange(it.lo, it.hi), drivers, true);
    }

    /** Joins another map of the same symbol into this one, entry by entry in ascending order. */
    method Join(other: DriverMap) returns (ghost entries: seq<Call>)
      requires other != this && other.driverLists != driverLists
      requires Value().Ok() && Value().NoDangling() && other.Value().Ok() && other.Value().NoDangling()
      modifies this, driverLists
      ensures other.Value() == old(other.Value()) && ListsEntries(other.Value(), entries)
      ensures Value() == AddAll(old(Value()), entries) && Value().Ok() && Value().NoDangling()
    {
      entries := [];
      ghost var start, m := Value(), other.Value();
      var left := other.driverIntervals;
      assert m.ivs - left == {};
      while left != {}
        invariant left <= m.ivs && other.Value() == m
        invariant Value().Ok() && Value().NoDangling()
        invariant PartlyListed(m, left, entries) && Value() == AddAll(start, entries)
        decreases left
      {
        var it := Lowest(left);
        var drivers := other.driverLists.Get(it.handle);
        ghost var c := Call(it.lo, it.hi, drivers, true);
        ListOneMore(m, left, entries, it, c);
        JoinEntry(other, it, drivers);
        AddAllLast(start, entries, c);
        entries := entries + [c];
        left := left - {it};
      }
      assert DMap(m.ivs - left, m.lists) == m;
    }
  }

  lemma AddAllLast(m: DMap, calls: seq<Call>, c: Call)
    requires m.Disjoint() && m.lists.Valid() && Ranged(calls) && c.lo <= c.hi
    ensures Ranged(calls + [c]) && AddAll(m, calls + [c]) == Add(AddAll(m, calls), c.lo, c.hi, c.drivers, c.merge)
  {
    assert (calls + [c])[..|calls|] == calls;
  }

  /** `entries` lists, in ascending order, the entries of `m` outside `left`, which come first. */
  ghost predicate PartlyListed(m: DMap, left: set<Interval>, entries: seq<Call>) {
    && left <= m.ivs && ListsEntries(DMap(m.ivs - left, m.lists), entries)
    && forall c, j :: c in entries && j in left ==> c.lo <= j.lo
  }

  lemma ListOneMore(m: DMap, left: set<Interval>, entries: seq<Call>, it: Interval, c: Call)
    requires m.Disjoint() && PartlyListed(m, left, entries)
    requires it in left && (forall j :: j in left ==> it.lo <= j.lo) && c.merge && Lists(m, it, c)
    ensures PartlyListed(m, left - {it}, entries + [c])
  {
    var m1, m2 := DMap(m.ivs - left, m.lists), DMap(m.ivs - (left - {it}), m.lists);
    forall d | d in entries + [c]
      ensures IsListed(m2, d)
    {
      var i := it;
      if d in entries {
        i := EntryOf(m1, entries, d);
      }
      assert i in m2.ivs && Lists(m2, i, d);
    }
    forall i | i in m2.ivs
      ensures HasCall(m2, i, entries + [c])
    {
      if i == it {
        assert c in entries + [c] && Lists(m2, i, c);
      } else {
        assert HasCall(m1, i, entries);
        var d :| d in entries && Lists(m1, i, d);
        assert d in entries + [c] && Lists(m2, i, d);
      }
    }
  }

  method Lowest(ivs: set<Interval>) returns (it: Interval)
    requires ivs != {}
    ensures it in ivs && forall j :: j in ivs ==> it.lo <= j.lo
  {
    it :| it in ivs;
    var left := ivs - {it};
    while left != {}
      invariant left <= ivs && it in ivs && forall j :: j in ivs - left ==> it.lo <= j.lo
      decreases left
    {
      var j :| j in left;
      left := left - {j};
      if j.lo < it.lo {
        it := j;
      }
    }
  }
}
