/**
  The driver map of one symbol as a value: disjoint bit intervals, each with a
  handle to a separately stored driver list (source/DriverMap.hpp), and one call
  of addDrivers on it (source/ValueTracker.cpp), case by case. Drivers are
  compared by node only, so a driver list is a set of nodes.
  */
module DriverIntervals {
  import opened ExternalManager

  type Driver = nat

  datatype Interval = Interval(lo: int, hi: int, handle: Handle) {
    predicate Has(b: int) {
      lo <= b <= hi
    }

    predicate Overlaps(l: int, h: int) {
      lo <= h && l <= hi
    }

    predicate Within(l: int, h: int) {
      l <= lo && hi <= h
    }

    predicate Covers(l: int, h: int) {
      lo <= l && h <= hi
    }
  }

  /** What the map says of one bit. A freed list that an interval still names is dangling. */
  datatype BitDrivers = Undriven | Dangling | Driven(drivers: set<Driver>)

  datatype DMap = DMap(ivs: set<Interval>, lists: Store<set<Driver>>) {
    ghost predicate Disjoint() {
      && (forall i :: i in ivs ==> i.lo <= i.hi)
      && (forall i, j :: i in ivs && j in ivs && i != j ==> i.hi < j.lo || j.hi < i.lo)
    }

    ghost predicate Ok() {
      && Disjoint() && lists.Valid()
      && forall i :: i in ivs ==> i.handle < |lists.slots|
    }

    /** No interval names a freed list. */
    ghost predicate NoDangling() {
      forall i :: i in ivs ==> lists.Live(i.handle)
    }

    /** No list is kept that no interval names. */
    ghost predicate NoLeak() {
      forall h: Handle :: lists.Live(h) ==> exists i :: i in ivs && i.handle == h
    }

    ghost predicate DistinctHandles() {
      forall i, j :: i in ivs && j in ivs && i != j ==> i.handle != j.handle
    }

    ghost predicate Covered(b: int) {
      exists i :: i in ivs && i.Has(b)
    }

    ghost function IntervalAt(b: int): (i: Interval)
      requires Covered(b)
      ensures i in ivs && i.Has(b)
    {
      var i :| i in ivs && i.Has(b);
      i
    }

    function ListOf(h: Handle): BitDrivers {
      if lists.Live(h) then Driven(lists.slots[h].value) else Dangling
    }

    /** The drivers of bit `b`. */
    ghost function At(b: int): BitDrivers {
      if Covered(b) then ListOf(IntervalAt(b).handle) else Undriven
    }

    lemma AtIs(b: int, i: Interval)
      requires Disjoint() && i in ivs && i.Has(b)
      ensures At(b) == ListOf(i.handle)
    {
      var j := IntervalAt(b);
      assert i != j ==> i.hi < j.lo || j.hi < i.lo;
    }

    lemma AtIsUndriven(b: int)
      requires !Covered(b)
      ensures At(b) == Undriven
    {
    }

    function Get(h: Handle): set<Driver> {
      if lists.Live(h) then lists.slots[h].value else {}
    }

    /** Drops an interval, keeping its list. */
    function Without(i: Interval): DMap {
      DMap(ivs - {i}, lists)
    }

    function With(lo: int, hi: int, h: Handle): DMap {
      DMap(ivs + {Interval(lo, hi, h)}, lists)
    }

    /** An interval with a copy of `drivers` under a new handle. */
    ghost function WithNew(lo: int, hi: int, drivers: set<Driver>): (r: DMap)
      requires lists.Valid()
      ensures r.ivs == ivs + {Interval(lo, hi, lists.NextHandle())} && !lists.Live(lists.NextHandle())
      ensures r.lists.Valid() && |lists.slots| <= |r.lists.slots| && r.ListOf(lists.NextHandle()) == Driven(drivers)
      ensures forall h: Handle :: h != lists.NextHandle() ==> r.ListOf(h) == ListOf(h)
    {
      lists.AllocatedIsValid(drivers);
      DMap(ivs + {Interval(lo, hi, lists.NextHandle())}, lists.Allocated(drivers))
    }

    /** Overwrites a live list in place; every interval with that handle sees it. */
    ghost function WithList(h: Handle, drivers: set<Driver>): (r: DMap)
      requires lists.Valid()
      ensures r.ivs == ivs && r.lists.Valid() && |r.lists.slots| == |lists.slots|
      ensures forall k: Handle :: r.ListOf(k) == if k == h && lists.Live(h) then Driven(drivers) else ListOf(k)
    {
      if lists.Live(h) then DMap(ivs, lists.Updated(h, drivers)) else this
    }

    /** Frees a list if it is live. */
    ghost function Freed(h: Handle): (r: DMap)
      requires lists.Valid()
      ensures r.ivs == ivs && r.lists.Valid() && |r.lists.slots| == |lists.slots|
      ensures forall k: Handle :: r.ListOf(k) == if k == h then Dangling else ListOf(k)
    {
      if lists.Live(h) then
        lists.ErasedIsValid(h);
        DMap(ivs, lists.Erased(h))
      else
        this
    }
  }

  const Empty := DMap({}, Store([], []))

  /** What a call over [lo, hi] is meant to make of bit `b`: union on merge, replacement otherwise. */
  ghost function Meant(m: DMap, lo: int, hi: int, drivers: set<Driver>, merge: bool, b: int): BitDrivers {
    if !(lo <= b <= hi) then m.At(b)
    else if merge && m.At(b).Driven? then Driven(m.At(b).drivers + drivers)
    else Driven(drivers)
  }

  /**
    No list is shared between an interval that lies inside [lo, hi] and one that
    does not. The left and right remainder of a split share their list.
    */
  ghost predicate NoEscape(m: DMap, lo: int, hi: int) {
    forall i, j :: i in m.ivs && j in m.ivs && i.Within(lo, hi) && !j.Within(lo, hi) ==> i.handle != j.handle
  }

  /** The first interval, in ascending order, that overlaps [lo, hi]. */
  ghost predicate IsFirst(m: DMap, lo: int, hi: int, it: Interval) {
    && it in m.ivs && it.Overlaps(lo, hi)
    && forall j :: j in m.ivs && j.Overlaps(lo, hi) ==> it.lo <= j.lo
  }

  ghost predicate Hit(m: DMap, lo: int, hi: int) {
    exists i :: i in m.ivs && i.Overlaps(lo, hi)
  }

  lemma {:induction false} FirstExists(m: DMap, lo: int, hi: int)
    requires Hit(m, lo, hi)
    ensures exists it :: IsFirst(m, lo, hi, it)
    decreases m.ivs
  {
    var i :| i in m.ivs && i.Overlaps(lo, hi);
    if k :| k in m.ivs && k.Overlaps(lo, hi) && k.lo < i.lo {
      var below := DMap((set j | j in m.ivs && j.lo < i.lo), m.lists);
      assert i !in below.ivs && k in below.ivs;
      FirstExists(below, lo, hi);
      var it :| IsFirst(below, lo, hi, it);
      assert IsFirst(m, lo, hi, it);
    } else {
      assert IsFirst(m, lo, hi, i);
    }
  }

  ghost function First(m: DMap, lo: int, hi: int): (it: Interval)
    requires Hit(m, lo, hi)
    ensures IsFirst(m, lo, hi, it)
  {
    FirstExists(m, lo, hi);
    var it :| IsFirst(m, lo, hi, it);
    it
  }

  /** One turn of the loop ends the call or goes on from a new low end. */
  datatype Turn = Done(m: DMap) | Go(m: DMap, lo: int)

  /** The first overlapping entry of a well-formed map. */
  ghost predicate AtEntry(m: DMap, lo: int, hi: int, it: Interval) {
    m.Disjoint() && m.lists.Valid() && lo <= hi && IsFirst(m, lo, hi, it)
  }

  /** The map stays well-formed, and the search goes on with fewer bits or fewer entries. */
  ghost predicate Progress(m: DMap, lo: int, hi: int, r: Turn) {
    && r.m.Disjoint() && r.m.lists.Valid()
    && (r.Go? ==> r.lo <= hi && (r.lo > lo || (r.lo == lo && r.m.ivs < m.ivs)))
  }

  /** The rest of [lo, hi] from `next` on, if any bits are left. */
  function Rest(m: DMap, next: int, hi: int): Turn {
    if next > hi then Done(m) else Go(m, next)
  }

  /** Matching intervals: the list is edited in place. */
  ghost function Exact(m: DMap, lo: int, hi: int, drivers: set<Driver>, merge: bool, it: Interval): (r: Turn)
    requires AtEntry(m, lo, hi, it)
    ensures Progress(m, lo, hi, r)
  {
    Done(m.WithList(it.handle, if merge then m.Get(it.handle) + drivers else drivers))
  }

  /** The entry contains the bounds: both remainders keep its handle, the middle gets a new list. */
  ghost function Inside(m: DMap, lo: int, hi: int, drivers: set<Driver>, merge: bool, it: Interval): (r: Turn)
    requires AtEntry(m, lo, hi, it) && it.Covers(lo, hi)
    ensures Progress(m, lo, hi, r)
  {
    var m1 := m.Without(it);
    var m2 := if it.lo < lo then m1.With(it.lo, lo - 1, it.handle) else m1;
    var m3 := if it.hi > hi then m2.With(hi + 1, it.hi, it.handle) else m2;
    Done(m3.WithNew(lo, hi, if merge then m.Get(it.handle) + drivers else drivers))
  }

  /** The bounds contain the entry. Replace: drop it and search again. Merge: add to its list, fill the gap before it. */
  ghost function Around(m: DMap, lo: int, hi: int, drivers: set<Driver>, merge: bool, it: Interval): (r: Turn)
    requires AtEntry(m, lo, hi, it) && it.Within(lo, hi)
    ensures Progress(m, lo, hi, r)
  {
    if !merge then
      Go(m.Without(it).Freed(it.handle), lo)
    else
      var m1 := m.WithList(it.handle, m.Get(it.handle) + drivers);
      var m2 := if it.lo > lo then m1.WithNew(lo, it.lo - 1, drivers) else m1;
      Rest(m2, it.hi + 1, hi)
  }

  /** The entry overlaps the low end of the bounds. */
  ghost function LeftOverlap(m: DMap, lo: int, hi: int, drivers: set<Driver>, merge: bool, it: Interval): (r: Turn)
    requires AtEntry(m, lo, hi, it) && it.lo < lo && it.hi < hi
    ensures Progress(m, lo, hi, r)
  {
    var m1 := m.Without(it).With(it.lo, lo - 1, it.handle);
    Rest(m1.WithNew(lo, it.hi, if merge then m.Get(it.handle) + drivers else drivers), it.hi + 1, hi)
  }

  /** The entry overlaps the high end of the bounds. (The order of the insertions does not matter.) */
  ghost function RightOverlap(m: DMap, lo: int, hi: int, drivers: set<Driver>, merge: bool, it: Interval): (r: Turn)
    requires AtEntry(m, lo, hi, it) && lo < it.lo && hi < it.hi
    ensures Progress(m, lo, hi, r)
  {
    var m1 := m.Without(it).With(hi + 1, it.hi, it.handle);
    Done(if !merge then m1.WithNew(lo, hi, drivers)
         else m1.WithNew(lo, it.lo - 1, drivers).WithNew(it.lo, hi, m.Get(it.handle) + drivers))
  }

  /** One turn of the loop on the first overlapping entry. */
  ghost function Step(m: DMap, lo: int, hi: int, drivers: set<Driver>, merge: bool, it: Interval): (r: Turn)
    requires AtEntry(m, lo, hi, it)
    ensures Progress(m, lo, hi, r)
  {
    if it.lo == lo && it.hi == hi then Exact(m, lo, hi, drivers, merge, it)
    else if it.Covers(lo, hi) then Inside(m, lo, hi, drivers, merge, it)
    else if it.Within(lo, hi) then Around(m, lo, hi, drivers, merge, it)
    else if it.lo <= lo then LeftOverlap(m, lo, hi, drivers, merge, it)
    else RightOverlap(m, lo, hi, drivers, merge, it)
  }

  /** A whole call over [lo, hi]. */
  ghost function Add(m: DMap, lo: int, hi: int, drivers: set<Driver>, merge: bool): (r: DMap)
    requires m.Disjoint() && m.lists.Valid() && lo <= hi
    ensures r.Disjoint() && r.lists.Valid()
    decreases hi - lo, m.ivs
  {
    if !Hit(m, lo, hi) then
      m.WithNew(lo, hi, drivers)
    else
      match Step(m, lo, hi, drivers, merge, First(m, lo, hi))
      case Done(m') => m'
      case Go(m', lo') => Add(m', lo', hi, drivers, merge)
  }

  /** Some bit of [lo, hi] is free and no entry straddles `lo`: what a replacing call has made room for. */
  ghost predicate Gap(m: DMap, lo: int, hi: int) {
    && (exists b :: lo <= b <= hi && !m.Covered(b))
    && (forall j :: j in m.ivs ==> !(j.lo < lo <= j.hi))
  }

  /** Every list a later turn reads is live: no dangling entry, or a replacing call that has begun to free. */
  ghost predicate Safe(m: DMap, lo: int, hi: int, merge: bool) {
    m.Ok() && (m.NoDangling() || (!merge && Gap(m, lo, hi)))
  }

  /** A list shared across the range's border already holds the drivers being merged in. */
  ghost predicate NoHarm(m: DMap, lo: int, hi: int, drivers: set<Driver>, merge: bool) {
    forall i, j :: i in m.ivs && j in m.ivs && i.Within(lo, hi) && !j.Within(lo, hi) && i.handle == j.handle
                   ==> merge && drivers <= m.Get(i.handle)
  }

  ghost predicate LiveOutside(m: DMap, lo: int, hi: int) {
    forall j :: j in m.ivs && !j.Within(lo, hi) ==> m.lists.Live(j.handle)
  }

  ghost predicate Inv(m: DMap, lo: int, hi: int, drivers: set<Driver>, merge: bool) {
    lo <= hi && Safe(m, lo, hi, merge) && NoHarm(m, lo, hi, drivers, merge) && LiveOutside(m, lo, hi)
  }

  /** The turn leaves bit `b` as meant: finally, or with the rest of the call still to come. */
  ghost predicate Keeps(m: DMap, lo: int, hi: int, drivers: set<Driver>, merge: bool, r: Turn, b: int) {
    match r
    case Done(m') => m'.At(b) == Meant(m, lo, hi, drivers, merge, b)
    case Go(m', lo') => Meant(m', lo', hi, drivers, merge, b) == Meant(m, lo, hi, drivers, merge, b)
  }

  /** Where the map covers bit `b`, if it does. */
  lemma Locate(m: DMap, b: int) returns (j: Interval)
    requires m.Disjoint()
    ensures m.Covered(b) ==> j in m.ivs && j.Has(b) && m.At(b) == m.ListOf(j.handle)
    ensures !m.Covered(b) ==> m.At(b) == Undriven
  {
    if m.Covered(b) {
      j :| j in m.ivs && j.Has(b);
      m.AtIs(b, j);
    } else {
      j := Interval(0, 0, 0);
    }
  }

  /** An entry that matches the bounds is live. */
  lemma ExactIsLive(m: DMap, lo: int, hi: int, merge: bool, it: Interval)
    requires Safe(m, lo, hi, merge) && it in m.ivs && it.lo == lo && it.hi == hi
    ensures m.lists.Live(it.handle)
  {
  }

  lemma ExactKeeps(m: DMap, lo: int, hi: int, drivers: set<Driver>, merge: bool, it: Interval, b: int)
    requires Inv(m, lo, hi, drivers, merge) && IsFirst(m, lo, hi, it) && it.lo == lo && it.hi == hi
    ensures Keeps(m, lo, hi, drivers, merge, Exact(m, lo, hi, drivers, merge, it), b)
  {
    ExactIsLive(m, lo, hi, merge, it);
    var m' := Exact(m, lo, hi, drivers, merge, it).m;
    var j := Locate(m, b);
    if m.Covered(b) {
      m'.AtIs(b, j);
      if lo <= b <= hi {
        m.AtIs(b, it);
        m'.AtIs(b, it);
      }
    } else {
      m'.AtIsUndriven(b);
    }
  }

  lemma InsideKeeps(m: DMap, lo: int, hi: int, drivers: set<Driver>, merge: bool, it: Interval, b: int)
    requires AtEntry(m, lo, hi, it) && LiveOutside(m, lo, hi) && it.Covers(lo, hi) && !it.Within(lo, hi)
    ensures Keeps(m, lo, hi, drivers, merge, Inside(m, lo, hi, drivers, merge, it), b)
  {
    var m' := Inside(m, lo, hi, drivers, merge, it).m;
    var j := Locate(m, b);
    if lo <= b <= hi {
      m.AtIs(b, it);
      m'.AtIs(b, Interval(lo, hi, m.lists.NextHandle()));
    } else if m.Covered(b) {
      if j == it {
        m'.AtIs(b, if b < lo then Interval(it.lo, lo - 1, it.handle) else Interval(hi + 1, it.hi, it.handle));
      } else {
        m'.AtIs(b, j);
      }
    } else {
      m'.AtIsUndriven(b);
    }
  }

  lemma FirstStartsTheRest(m: DMap, lo: int, hi: int, it: Interval, j: Interval)
    requires m.Disjoint() && IsFirst(m, lo, hi, it) && j in m.ivs && j != it && j.Overlaps(lo, hi)
    ensures it.hi < j.lo
  {
  }

  lemma ReplaceAroundKeeps(m: DMap, lo: int, hi: int, drivers: set<Driver>, it: Interval, b: int)
    requires AtEntry(m, lo, hi, it) && NoHarm(m, lo, hi, drivers, false) && it.Within(lo, hi)
    ensures Keeps(m, lo, hi, drivers, false, Around(m, lo, hi, drivers, false, it), b)
  {
    var m' := Around(m, lo, hi, drivers, false, it).m;
    var j := Locate(m, b);
    if !(lo <= b <= hi) {
      if m.Covered(b) {
        m'.AtIs(b, j);
      } else {
        m'.AtIsUndriven(b);
      }
    }
  }

  lemma MergeAroundKeeps(m: DMap, lo: int, hi: int, drivers: set<Driver>, it: Interval, b: int)
    requires AtEntry(m, lo, hi, it) && m.NoDangling() && NoHarm(m, lo, hi, drivers, true) && it.Within(lo, hi)
    ensures Keeps(m, lo, hi, drivers, true, Around(m, lo, hi, drivers, true, it), b)
  {
    var m' := Around(m, lo, hi, drivers, true, it).m;
    var j := Locate(m, b);
    if m.Covered(b) {
      m'.AtIs(b, j);
      if lo <= b <= it.hi {
        assert j == it;
      }
    } else if lo <= b < it.lo {
      m'.AtIs(b, Interval(lo, it.lo - 1, m.lists.NextHandle()));
    } else {
      m'.AtIsUndriven(b);
    }
  }

  lemma LeftOverlapKeeps(m: DMap, lo: int, hi: int, drivers: set<Driver>, merge: bool, it: Interval, b: int)
    requires AtEntry(m, lo, hi, it) && m.NoDangling() && it.lo < lo && it.hi < hi
    ensures Keeps(m, lo, hi, drivers, merge, LeftOverlap(m, lo, hi, drivers, merge, it), b)
  {
    var m' := LeftOverlap(m, lo, hi, drivers, merge, it).m;
    var j := Locate(m, b);
    if lo <= b <= it.hi {
      m.AtIs(b, it);
      m'.AtIs(b, Interval(lo, it.hi, m.lists.NextHandle()));
    } else if m.Covered(b) {
      m'.AtIs(b, if j == it then Interval(it.lo, lo - 1, it.handle) else j);
    } else {
      m'.AtIsUndriven(b);
    }
  }

  lemma ReplaceRightOverlapKeeps(m: DMap, lo: int, hi: int, drivers: set<Driver>, it: Interval, b: int)
    requires AtEntry(m, lo, hi, it) && LiveOutside(m, lo, hi) && lo < it.lo && hi < it.hi
    ensures Keeps(m, lo, hi, drivers, false, RightOverlap(m, lo, hi, drivers, false, it), b)
  {
    var m' := RightOverlap(m, lo, hi, drivers, false, it).m;
    var j := Locate(m, b);
    if lo <= b <= hi {
      m'.AtIs(b, Interval(lo, hi, m.lists.NextHandle()));
    } else if m.Covered(b) {
      m'.AtIs(b, if j == it then Interval(hi + 1, it.hi, it.handle) else j);
    } else {
      m'.AtIsUndriven(b);
    }
  }

  lemma MergeRightOverlapKeeps(m: DMap, lo: int, hi: int, drivers: set<Driver>, it: Interval, b: int)
    requires AtEntry(m, lo, hi, it) && m.NoDangling() && lo < it.lo && hi < it.hi
    ensures Keeps(m, lo, hi, drivers, true, RightOverlap(m, lo, hi, drivers, true, it), b)
  {
    var m' := RightOverlap(m, lo, hi, drivers, true, it).m;
    var m1 := m.Without(it).With(hi + 1, it.hi, it.handle).WithNew(lo, it.lo - 1, drivers);
    var left, middle := Interval(lo, it.lo - 1, m.lists.NextHandle()), Interval(it.lo, hi, m1.lists.NextHandle());
    var right := Interval(hi + 1, it.hi, it.handle);
    assert m'.ivs == m.ivs - {it} + {right} + {left} + {middle};
    assert m'.ListOf(left.handle) == Driven(drivers) && m'.ListOf(middle.handle) == Driven(m.Get(it.handle) + drivers);
    assert forall h: Handle :: m.lists.Live(h) ==> m'.ListOf(h) == m.ListOf(h);
    MergedAt(m, m', lo, hi, drivers, it, left, middle, right, b);
  }

  /** The entry replaced by three: a fresh gap below it, its overlap with the range, and what is above the range. */
  lemma MergedAt(m: DMap, m': DMap, lo: int, hi: int, drivers: set<Driver>, it: Interval, left: Interval, middle: Interval, right: Interval, b: int)
    requires AtEntry(m, lo, hi, it) && m.NoDangling() && lo < it.lo && hi < it.hi && m'.Disjoint()
    requires left.lo == lo && left.hi == it.lo - 1 && middle.lo == it.lo && middle.hi == hi && right == Interval(hi + 1, it.hi, it.handle)
    requires m'.ivs == m.ivs - {it} + {right} + {left} + {middle}
    requires m'.ListOf(left.handle) == Driven(drivers) && m'.ListOf(middle.handle) == Driven(m.Get(it.handle) + drivers)
    requires forall h: Handle :: m.lists.Live(h) ==> m'.ListOf(h) == m.ListOf(h)
    ensures m'.At(b) == Meant(m, lo, hi, drivers, true, b)
  {
    var j := Locate(m, b);
    if left.Has(b) {
      assert !m.Covered(b);
      m'.AtIs(b, left);
    } else if middle.Has(b) {
      m.AtIs(b, it);
      m'.AtIs(b, middle);
    } else if m.Covered(b) {
      m'.AtIs(b, if j == it then right else j);
    } else {
      m'.AtIsUndriven(b);
    }
  }

  /** After a turn the call is over with every list live, or its invariant holds for the rest. */
  ghost predicate Sound(r: Turn, hi: int, drivers: set<Driver>, merge: bool) {
    match r
    case Done(m) => m.Ok() && m.NoDangling()
    case Go(m, lo) => Inv(m, lo, hi, drivers, merge)
  }

  lemma CoveringIsAlone(m: DMap, lo: int, hi: int, it: Interval)
    requires AtEntry(m, lo, hi, it) && it.Covers(lo, hi)
    ensures forall j :: j in m.ivs && j != it ==> !j.Within(lo, hi)
  {
    forall j | j in m.ivs && j.Within(lo, hi)
      ensures j == it
    {
      assert j.lo <= j.hi;
    }
  }

  lemma InsideStaysOk(m: DMap, lo: int, hi: int, drivers: set<Driver>, merge: bool, it: Interval)
    requires m.Ok() && AtEntry(m, lo, hi, it) && it.Covers(lo, hi)
    ensures Inside(m, lo, hi, drivers, merge, it).m.Ok()
  {
  }

  /** Dropping the first entry of a replacing call makes room in its range. */
  lemma ReplaceAroundStaysSafe(m: DMap, lo: int, hi: int, drivers: set<Driver>, it: Interval)
    requires m.Ok() && AtEntry(m, lo, hi, it) && it.Within(lo, hi)
    ensures Safe(Around(m, lo, hi, drivers, false, it).m, lo, hi, false)
  {
    var m' := Around(m, lo, hi, drivers, false, it).m;
    assert !m'.Covered(it.lo) by {
      forall j | j in m'.ivs
        ensures !j.Has(it.lo)
      {
        assert it.hi < j.lo || j.hi < it.lo;
      }
    }
    forall j | j in m'.ivs
      ensures !(j.lo < lo <= j.hi)
    {
      assert j.Overlaps(lo, hi) ==> it.lo <= j.lo;
    }
  }

  lemma MergeAroundStaysSafe(m: DMap, lo: int, hi: int, drivers: set<Driver>, it: Interval)
    requires m.Ok() && m.NoDangling() && AtEntry(m, lo, hi, it) && it.Within(lo, hi)
    ensures var m' := Around(m, lo, hi, drivers, true, it).m; m'.Ok() && m'.NoDangling()
  {
  }

  lemma LeftOverlapStaysSafe(m: DMap, lo: int, hi: int, drivers: set<Driver>, merge: bool, it: Interval)
    requires m.Ok() && m.NoDangling() && AtEntry(m, lo, hi, it) && it.lo < lo && it.hi < hi
    ensures var m' := LeftOverlap(m, lo, hi, drivers, merge, it).m; m'.Ok() && m'.NoDangling()
  {
  }

  lemma RightOverlapStaysOk(m: DMap, lo: int, hi: int, drivers: set<Driver>, merge: bool, it: Interval)
    requires m.Ok() && AtEntry(m, lo, hi, it) && lo < it.lo && hi < it.hi
    ensures RightOverlap(m, lo, hi, drivers, merge, it).m.Ok()
  {
  }

  /** A turn keeps every list that later turns read live. */
  lemma StepStaysSafe(m: DMap, lo: int, hi: int, drivers: set<Driver>, merge: bool, it: Interval)
    requires Safe(m, lo, hi, merge) && AtEntry(m, lo, hi, it)
    ensures var r := Step(m, lo, hi, drivers, merge, it); r.m.Ok() && (r.Go? ==> Safe(r.m, r.lo, hi, merge))
  {
    if it.lo == lo && it.hi == hi {
    } else if it.Covers(lo, hi) {
      InsideStaysOk(m, lo, hi, drivers, merge, it);
    } else if it.Within(lo, hi) {
      if merge {
        MergeAroundStaysSafe(m, lo, hi, drivers, it);
      } else {
        ReplaceAroundStaysSafe(m, lo, hi, drivers, it);
      }
    } else if it.lo <= lo {
      LeftOverlapStaysSafe(m, lo, hi, drivers, merge, it);
    } else {
      RightOverlapStaysOk(m, lo, hi, drivers, merge, it);
    }
  }

  lemma ExactIsSound(m: DMap, lo: int, hi: int, drivers: set<Driver>, merge: bool, it: Interval)
    requires Inv(m, lo, hi, drivers, merge) && AtEntry(m, lo, hi, it) && it.lo == lo && it.hi == hi
    ensures Sound(Exact(m, lo, hi, drivers, merge, it), hi, drivers, merge)
  {
    ExactIsLive(m, lo, hi, merge, it);
    CoveringIsAlone(m, lo, hi, it);
  }

  lemma InsideIsSound(m: DMap, lo: int, hi: int, drivers: set<Driver>, merge: bool, it: Interval)
    requires m.Ok() && LiveOutside(m, lo, hi) && AtEntry(m, lo, hi, it) && it.Covers(lo, hi) && !it.Within(lo, hi)
    ensures Sound(Inside(m, lo, hi, drivers, merge, it), hi, drivers, merge)
  {
    CoveringIsAlone(m, lo, hi, it);
    assert m.NoDangling();
    InsideStaysOk(m, lo, hi, drivers, merge, it);
  }

  lemma ReplaceAroundIsSound(m: DMap, lo: int, hi: int, drivers: set<Driver>, it: Interval)
    requires Inv(m, lo, hi, drivers, false) && AtEntry(m, lo, hi, it) && it.Within(lo, hi)
    ensures Sound(Around(m, lo, hi, drivers, false, it), hi, drivers, false)
  {
    ReplaceAroundStaysSafe(m, lo, hi, drivers, it);
  }

  lemma MergeAroundIsSound(m: DMap, lo: int, hi: int, drivers: set<Driver>, it: Interval)
    requires m.Ok() && m.NoDangling() && NoHarm(m, lo, hi, drivers, true) && AtEntry(m, lo, hi, it) && it.Within(lo, hi)
    ensures Sound(Around(m, lo, hi, drivers, true, it), hi, drivers, true)
  {
    MergeAroundStaysSafe(m, lo, hi, drivers, it);
    var r := Around(m, lo, hi, drivers, true, it);
    if r.Go? {
      forall i, j | i in r.m.ivs && j in r.m.ivs && i.Within(r.lo, hi) && !j.Within(r.lo, hi) && i.handle == j.handle
        ensures drivers <= r.m.Get(i.handle)
      {
        assert i in m.ivs;
        if j in m.ivs && j != it {
          assert !j.Within(lo, hi);
        }
      }
    }
  }

  lemma LeftOverlapIsSound(m: DMap, lo: int, hi: int, drivers: set<Driver>, merge: bool, it: Interval)
    requires m.Ok() && m.NoDangling() && NoHarm(m, lo, hi, drivers, merge)
    requires AtEntry(m, lo, hi, it) && it.lo < lo && it.hi < hi
    ensures Sound(LeftOverlap(m, lo, hi, drivers, merge, it), hi, drivers, merge)
  {
    LeftOverlapStaysSafe(m, lo, hi, drivers, merge, it);
    var r := LeftOverlap(m, lo, hi, drivers, merge, it);
    forall i, j | i in r.m.ivs && j in r.m.ivs && i.Within(r.lo, hi) && !j.Within(r.lo, hi) && i.handle == j.handle
      ensures merge && drivers <= r.m.Get(i.handle)
    {
      assert i in m.ivs;
      var k := if j in m.ivs then j else it;
      assert k in m.ivs && !k.Within(lo, hi) && k.handle == i.handle;
    }
  }

  lemma RightOverlapIsSound(m: DMap, lo: int, hi: int, drivers: set<Driver>, merge: bool, it: Interval)
    requires m.Ok() && LiveOutside(m, lo, hi) && AtEntry(m, lo, hi, it) && lo < it.lo && hi < it.hi
    ensures Sound(RightOverlap(m, lo, hi, drivers, merge, it), hi, drivers, merge)
  {
    RightOverlapStaysOk(m, lo, hi, drivers, merge, it);
    assert forall j :: j in m.ivs ==> !j.Within(lo, hi);
    assert m.NoDangling();
    RightOverlapStaysLive(m, lo, hi, drivers, merge, it);
  }

  lemma NewCommutes(m: DMap, low: int, high: int, drivers: set<Driver>, lo: int, hi: int, h: Handle)
    requires m.lists.Valid()
    ensures m.With(lo, hi, h).WithNew(low, high, drivers) == m.WithNew(low, high, drivers).With(lo, hi, h)
  {
  }

  /** The entry's high end may as well be put back last. */
  lemma ReplaceRightOverlapMade(m: DMap, rest: DMap, lo: int, hi: int, drivers: set<Driver>, it: Interval)
    requires AtEntry(m, lo, hi, it) && lo < it.lo && hi < it.hi && rest == m.Without(it)
    ensures RightOverlap(m, lo, hi, drivers, false, it).m == rest.WithNew(lo, hi, drivers).With(hi + 1, it.hi, it.handle)
  {
    NewCommutes(rest, lo, hi, drivers, hi + 1, it.hi, it.handle);
  }

  lemma MergeRightOverlapMade(m: DMap, rest: DMap, lo: int, hi: int, drivers: set<Driver>, it: Interval, low: DMap, all: set<Driver>)
    requires AtEntry(m, lo, hi, it) && lo < it.lo && hi < it.hi && rest == m.Without(it)
    requires low == rest.WithNew(lo, it.lo - 1, drivers) && all == m.Get(it.handle) + drivers
    ensures RightOverlap(m, lo, hi, drivers, true, it).m == low.WithNew(it.lo, hi, all).With(hi + 1, it.hi, it.handle)
  {
    NewCommutes(rest, lo, it.lo - 1, drivers, hi + 1, it.hi, it.handle);
    NewCommutes(low, it.lo, hi, all, hi + 1, it.hi, it.handle);
  }

  lemma RightOverlapMade(m: DMap, lo: int, hi: int, drivers: set<Driver>, merge: bool, it: Interval)
    requires AtEntry(m, lo, hi, it) && lo < it.lo && hi < it.hi
    ensures RightOverlap(m, lo, hi, drivers, merge, it).m.lists.Valid()
    ensures RightOverlap(m, lo, hi, drivers, merge, it).m
            == (if merge then m.Without(it).WithNew(lo, it.lo - 1, drivers).WithNew(it.lo, hi, m.Get(it.handle) + drivers)
                else m.Without(it).WithNew(lo, hi, drivers)).With(hi + 1, it.hi, it.handle)
  {
    var rest := m.Without(it);
    if merge {
      MergeRightOverlapMade(m, rest, lo, hi, drivers, it, rest.WithNew(lo, it.lo - 1, drivers), m.Get(it.handle) + drivers);
    } else {
      ReplaceRightOverlapMade(m, rest, lo, hi, drivers, it);
    }
  }

  lemma NewStaysLive(m: DMap, lo: int, hi: int, drivers: set<Driver>)
    requires m.lists.Valid() && m.NoDangling()
    ensures m.WithNew(lo, hi, drivers).NoDangling()
  {
    var r := m.WithNew(lo, hi, drivers);
    forall i | i in r.ivs
      ensures r.lists.Live(i.handle)
    {
      assert r.ListOf(i.handle).Driven?;
    }
  }

  lemma RightOverlapStaysLive(m: DMap, lo: int, hi: int, drivers: set<Driver>, merge: bool, it: Interval)
    requires m.NoDangling() && AtEntry(m, lo, hi, it) && lo < it.lo && hi < it.hi
    ensures RightOverlap(m, lo, hi, drivers, merge, it).m.NoDangling()
  {
    var m1 := m.Without(it).With(hi + 1, it.hi, it.handle);
    assert m1.NoDangling();
    NewStaysLive(m1, lo, hi, drivers);
    NewStaysLive(m1, lo, it.lo - 1, drivers);
    NewStaysLive(m1.WithNew(lo, it.lo - 1, drivers), it.lo, hi, m.Get(it.handle) + drivers);
  }

  lemma StepIsSound(m: DMap, lo: int, hi: int, drivers: set<Driver>, merge: bool, it: Interval)
    requires Inv(m, lo, hi, drivers, merge) && AtEntry(m, lo, hi, it)
    ensures Sound(Step(m, lo, hi, drivers, merge, it), hi, drivers, merge)
    ensures forall b :: Keeps(m, lo, hi, drivers, merge, Step(m, lo, hi, drivers, merge, it), b)
  {
    var r := Step(m, lo, hi, drivers, merge, it);
    if it.lo == lo && it.hi == hi {
      ExactIsSound(m, lo, hi, drivers, merge, it);
      forall b ensures Keeps(m, lo, hi, drivers, merge, r, b) { ExactKeeps(m, lo, hi, drivers, merge, it, b); }
    } else if it.Covers(lo, hi) {
      InsideIsSound(m, lo, hi, drivers, merge, it);
      forall b ensures Keeps(m, lo, hi, drivers, merge, r, b) { InsideKeeps(m, lo, hi, drivers, merge, it, b); }
    } else if it.Within(lo, hi) {
      if merge {
        assert m.NoDangling();
        MergeAroundIsSound(m, lo, hi, drivers, it);
        forall b ensures Keeps(m, lo, hi, drivers, merge, r, b) { MergeAroundKeeps(m, lo, hi, drivers, it, b); }
      } else {
        ReplaceAroundIsSound(m, lo, hi, drivers, it);
        forall b ensures Keeps(m, lo, hi, drivers, merge, r, b) { ReplaceAroundKeeps(m, lo, hi, drivers, it, b); }
      }
    } else if it.lo <= lo {
      assert m.NoDangling();
      LeftOverlapIsSound(m, lo, hi, drivers, merge, it);
      forall b ensures Keeps(m, lo, hi, drivers, merge, r, b) { LeftOverlapKeeps(m, lo, hi, drivers, merge, it, b); }
    } else {
      RightOverlapIsSound(m, lo, hi, drivers, merge, it);
      if merge {
        forall b ensures Keeps(m, lo, hi, drivers, merge, r, b) { MergeRightOverlapKeeps(m, lo, hi, drivers, it, b); }
      } else {
        forall b ensures Keeps(m, lo, hi, drivers, merge, r, b) { ReplaceRightOverlapKeeps(m, lo, hi, drivers, it, b); }
      }
    }
  }

  /** A turn makes no list live without an entry that names it. */
  lemma NewListIsNamed(m: DMap, lo: int, hi: int, drivers: set<Driver>, merge: bool, it: Interval, h: Handle)
    requires AtEntry(m, lo, hi, it) && !m.lists.Live(h) && Step(m, lo, hi, drivers, merge, it).m.lists.Live(h)
    ensures exists i :: i in Step(m, lo, hi, drivers, merge, it).m.ivs && i.handle == h
  {
    var m' := Step(m, lo, hi, drivers, merge, it).m;
    var next := m.lists.NextHandle();
    assert m'.ListOf(h) != m.ListOf(h);
    if it.Covers(lo, hi) {
      assert it.Within(lo, hi) || Interval(lo, hi, next) in m'.ivs;
    } else if it.Within(lo, hi) {
      assert merge && it.lo > lo ==> Interval(lo, it.lo - 1, next) in m'.ivs;
    } else if it.lo <= lo {
      assert Interval(lo, it.hi, next) in m'.ivs;
    } else if merge {
      var m1 := m.Without(it).With(hi + 1, it.hi, it.handle).WithNew(lo, it.lo - 1, drivers);
      assert Interval(lo, it.lo - 1, next) in m'.ivs;
      assert Interval(it.lo, hi, m1.lists.NextHandle()) in m'.ivs;
      assert m1.ListOf(h) != m.ListOf(h) || m'.ListOf(h) != m1.ListOf(h);
    } else {
      assert Interval(lo, hi, next) in m'.ivs;
      assert m.Without(it).With(hi + 1, it.hi, it.handle).ListOf(h) == m.ListOf(h);
    }
  }

  /** A turn that drops an entry frees its list or leaves a remainder that names it. */
  lemma OldListStaysNamed(m: DMap, lo: int, hi: int, drivers: set<Driver>, merge: bool, it: Interval, i: Interval)
    requires AtEntry(m, lo, hi, it) && i in m.ivs && Step(m, lo, hi, drivers, merge, it).m.lists.Live(i.handle)
    ensures exists j :: j in Step(m, lo, hi, drivers, merge, it).m.ivs && j.handle == i.handle
  {
    var m' := Step(m, lo, hi, drivers, merge, it).m;
    if i != it {
      assert i in m'.ivs;
    } else if it.Within(lo, hi) {
      assert it in m'.ivs || !m'.lists.Live(it.handle);
    } else if it.lo < lo {
      assert Interval(it.lo, lo - 1, it.handle) in m'.ivs;
    } else {
      assert Interval(hi + 1, it.hi, it.handle) in m'.ivs;
    }
  }

  /** No turn loses track of a list: every live list stays named by an entry. */
  lemma StepKeepsNoLeak(m: DMap, lo: int, hi: int, drivers: set<Driver>, merge: bool, it: Interval)
    requires AtEntry(m, lo, hi, it) && m.NoLeak()
    ensures Step(m, lo, hi, drivers, merge, it).m.NoLeak()
  {
    var m' := Step(m, lo, hi, drivers, merge, it).m;
    forall h: Handle | m'.lists.Live(h)
      ensures exists i :: i in m'.ivs && i.handle == h
    {
      if m.lists.Live(h) {
        var i :| i in m.ivs && i.handle == h;
        OldListStaysNamed(m, lo, hi, drivers, merge, it, i);
      } else {
        NewListIsNamed(m, lo, hi, drivers, merge, it, h);
      }
    }
  }

  /**
    One call on a map without dangling entries, when no list is shared across the
    border of its range: the map stays disjoint with every list live and named,
    each bit in range holds the new list or the union, every other bit is unchanged.
    */
  lemma {:induction false} CallIsRight(m: DMap, lo: int, hi: int, drivers: set<Driver>, merge: bool)
    requires Inv(m, lo, hi, drivers, merge)
    ensures var m' := Add(m, lo, hi, drivers, merge);
            && m'.Ok() && m'.NoDangling() && (m.NoLeak() ==> m'.NoLeak())
            && forall b :: m'.At(b) == Meant(m, lo, hi, drivers, merge, b)
    decreases hi - lo, m.ivs
  {
    if !Hit(m, lo, hi) {
      FinishIsRight(m, lo, hi, drivers, merge);
    } else {
      var it := First(m, lo, hi);
      StepIsSound(m, lo, hi, drivers, merge, it);
      if m.NoLeak() {
        StepKeepsNoLeak(m, lo, hi, drivers, merge, it);
      }
      match Step(m, lo, hi, drivers, merge, it)
      case Done(m') =>
        assert forall b :: Keeps(m, lo, hi, drivers, merge, Done(m'), b) ==> m'.At(b) == Meant(m, lo, hi, drivers, merge, b);
      case Go(m', lo') =>
        CallIsRight(m', lo', hi, drivers, merge);
        forall b
          ensures Add(m, lo, hi, drivers, merge).At(b) == Meant(m, lo, hi, drivers, merge, b)
        {
          assert Keeps(m, lo, hi, drivers, merge, Go(m', lo'), b);
        }
    }
  }

  lemma FinishIsRight(m: DMap, lo: int, hi: int, drivers: set<Driver>, merge: bool)
    requires m.Ok() && LiveOutside(m, lo, hi) && lo <= hi && !Hit(m, lo, hi)
    ensures var m' := m.WithNew(lo, hi, drivers);
            && m'.Ok() && m'.NoDangling() && (m.NoLeak() ==> m'.NoLeak())
            && forall b :: m'.At(b) == Meant(m, lo, hi, drivers, merge, b)
  {
    var m' := m.WithNew(lo, hi, drivers);
    forall j | j in m.ivs
      ensures !j.Overlaps(lo, hi) && m.lists.Live(j.handle)
    {
    }
    forall b
      ensures m'.At(b) == Meant(m, lo, hi, drivers, merge, b)
    {
      FinishKeeps(m, lo, hi, drivers, merge, b);
    }
    forall h: Handle | m.NoLeak() && m'.lists.Live(h)
      ensures exists i :: i in m'.ivs && i.handle == h
    {
      FinishNames(m, lo, hi, drivers, h);
    }
  }

  lemma FinishKeeps(m: DMap, lo: int, hi: int, drivers: set<Driver>, merge: bool, b: int)
    requires m.Ok() && lo <= hi && (forall j :: j in m.ivs ==> !j.Overlaps(lo, hi) && m.lists.Live(j.handle))
    ensures m.WithNew(lo, hi, drivers).At(b) == Meant(m, lo, hi, drivers, merge, b)
  {
    var m' := m.WithNew(lo, hi, drivers);
    var j := Locate(m, b);
    if lo <= b <= hi {
      assert !m.Covered(b);
      m'.AtIs(b, Interval(lo, hi, m.lists.NextHandle()));
    } else if m.Covered(b) {
      m'.AtIs(b, j);
    } else {
      m'.AtIsUndriven(b);
    }
  }

  lemma FinishNames(m: DMap, lo: int, hi: int, drivers: set<Driver>, h: Handle)
    requires m.lists.Valid() && m.NoLeak() && m.WithNew(lo, hi, drivers).lists.Live(h)
    ensures exists i :: i in m.WithNew(lo, hi, drivers).ivs && i.handle == h
  {
    var m' := m.WithNew(lo, hi, drivers);
    if m.lists.Live(h) {
      var i :| i in m.ivs && i.handle == h;
      assert i in m'.ivs;
    } else {
      assert m'.ListOf(h) != m.ListOf(h);
      assert Interval(lo, hi, m.lists.NextHandle()) in m'.ivs;
    }
  }

  lemma MergeInsideStaysLive(m: DMap, lo: int, hi: int, drivers: set<Driver>, it: Interval)
    requires m.Ok() && m.NoDangling() && AtEntry(m, lo, hi, it) && it.Covers(lo, hi)
    ensures Inside(m, lo, hi, drivers, true, it).m.NoDangling()
  {
  }

  /** A turn covers the old bits and those of the range before the rest still to come, and no others. */
  lemma StepCovers(m: DMap, lo: int, hi: int, drivers: set<Driver>, merge: bool, it: Interval, b: int)
    requires AtEntry(m, lo, hi, it)
    ensures var r := Step(m, lo, hi, drivers, merge, it);
            r.m.Covered(b) || (r.Go? && r.lo <= b <= hi) <==> m.Covered(b) || lo <= b <= hi
  {
    var r := Step(m, lo, hi, drivers, merge, it);
    if lo <= b <= hi {
      if !(r.Go? && r.lo <= b) {
        StepCoversRange(m, lo, hi, drivers, merge, it, b);
      }
    } else if m.Covered(b) {
      StepKeepsCovered(m, lo, hi, drivers, merge, it, b);
    } else if r.m.Covered(b) {
      var j :| j in r.m.ivs && j.Has(b);
      StepAddsWithin(m, lo, hi, drivers, merge, it, j);
    }
  }

  /** A new entry lies in the range or is a remainder of the old one. */
  lemma StepAddsWithin(m: DMap, lo: int, hi: int, drivers: set<Driver>, merge: bool, it: Interval, j: Interval)
    requires AtEntry(m, lo, hi, it) && j in Step(m, lo, hi, drivers, merge, it).m.ivs && j !in m.ivs
    ensures j.Within(lo, hi) || (it.lo <= j.lo && j.hi <= it.hi)
  {
  }

  lemma StepKeepsCovered(m: DMap, lo: int, hi: int, drivers: set<Driver>, merge: bool, it: Interval, b: int)
    requires AtEntry(m, lo, hi, it) && m.Covered(b) && !(lo <= b <= hi)
    ensures Step(m, lo, hi, drivers, merge, it).m.Covered(b)
  {
    var m' := Step(m, lo, hi, drivers, merge, it).m;
    var j :| j in m.ivs && j.Has(b);
    if j != it {
      assert j in m'.ivs;
    } else if b < lo {
      assert Interval(it.lo, lo - 1, it.handle) in m'.ivs;
    } else {
      assert Interval(hi + 1, it.hi, it.handle) in m'.ivs;
    }
  }

  lemma StepCoversRange(m: DMap, lo: int, hi: int, drivers: set<Driver>, merge: bool, it: Interval, b: int)
    requires AtEntry(m, lo, hi, it) && lo <= b <= hi
    requires var r := Step(m, lo, hi, drivers, merge, it); r.Go? ==> b < r.lo
    ensures Step(m, lo, hi, drivers, merge, it).m.Covered(b)
  {
    var m' := Step(m, lo, hi, drivers, merge, it).m;
    if it.lo == lo && it.hi == hi {
      assert it in m'.ivs && it.Has(b);
    } else if it.Covers(lo, hi) {
      assert exists j :: j in m'.ivs && j.lo == lo && j.hi == hi;
    } else if it.Within(lo, hi) {
      if it.Has(b) {
        assert it in m'.ivs;
      } else {
        assert exists j :: j in m'.ivs && j.lo == lo && j.hi == it.lo - 1;
      }
    } else if it.lo <= lo {
      assert exists j :: j in m'.ivs && j.lo == lo && j.hi == it.hi;
    } else {
      RightOverlapCoversRange(m, lo, hi, drivers, merge, it, b);
    }
  }

  lemma RightOverlapCoversRange(m: DMap, lo: int, hi: int, drivers: set<Driver>, merge: bool, it: Interval, b: int)
    requires AtEntry(m, lo, hi, it) && lo < it.lo && hi < it.hi && lo <= b <= hi
    ensures RightOverlap(m, lo, hi, drivers, merge, it).m.Covered(b)
  {
    var m' := RightOverlap(m, lo, hi, drivers, merge, it).m;
    if !merge {
      assert exists j :: j in m'.ivs && j.lo == lo && j.hi == hi;
    } else if b < it.lo {
      assert exists j :: j in m'.ivs && j.lo == lo && j.hi == it.lo - 1;
    } else {
      assert exists j :: j in m'.ivs && j.lo == it.lo && j.hi == hi;
    }
  }

  /** Whatever lists are shared, one call covers exactly the bits covered before and those of its range. */
  lemma {:induction false} CallCovers(m: DMap, lo: int, hi: int, drivers: set<Driver>, merge: bool, b: int)
    requires m.Disjoint() && m.lists.Valid() && lo <= hi
    ensures Add(m, lo, hi, drivers, merge).Covered(b) <==> m.Covered(b) || lo <= b <= hi
    decreases hi - lo, m.ivs
  {
    if !Hit(m, lo, hi) {
      FinishCovers(m, lo, hi, drivers, b);
    } else {
      var it := First(m, lo, hi);
      StepCovers(m, lo, hi, drivers, merge, it, b);
      var r := Step(m, lo, hi, drivers, merge, it);
      if r.Go? {
        CallCovers(r.m, r.lo, hi, drivers, merge, b);
      }
    }
  }

  lemma FinishCovers(m: DMap, lo: int, hi: int, drivers: set<Driver>, b: int)
    requires m.lists.Valid()
    ensures m.WithNew(lo, hi, drivers).Covered(b) <==> m.Covered(b) || lo <= b <= hi
  {
    var m' := m.WithNew(lo, hi, drivers);
    assert Interval(lo, hi, m.lists.NextHandle()) in m'.ivs;
    if m.Covered(b) {
      var j :| j in m.ivs && j.Has(b);
      assert j in m'.ivs;
    }
  }

  /** Merging frees nothing. */
  lemma {:induction false} MergeStaysLive(m: DMap, lo: int, hi: int, drivers: set<Driver>)
    requires m.Ok() && m.NoDangling() && lo <= hi
    ensures Add(m, lo, hi, drivers, true).Ok() && Add(m, lo, hi, drivers, true).NoDangling()
    decreases hi - lo, m.ivs
  {
    if Hit(m, lo, hi) {
      var it := First(m, lo, hi);
      StepStaysSafe(m, lo, hi, drivers, true, it);
      var r := Step(m, lo, hi, drivers, true, it);
      if r.Go? {
        MergeStaysLive(r.m, r.lo, hi, drivers);
      } else if it.lo == lo && it.hi == hi {
      } else if it.Covers(lo, hi) {
        MergeInsideStaysLive(m, lo, hi, drivers, it);
      } else if it.Within(lo, hi) {
        MergeAroundStaysSafe(m, lo, hi, drivers, it);
      } else {
        RightOverlapStaysLive(m, lo, hi, drivers, true, it);
      }
    }
  }
}
