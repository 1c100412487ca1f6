/**
  When addDrivers does what it is meant to (source/ValueTracker.cpp): exactly when
  no driver list is shared across the border of the call's range; and whole runs
  of calls, as one procedural block, a state join or the Phase 2 merge makes them.
  */
module DriverRuns {
  import opened ExternalManager
  import opened DriverIntervals

  /** The call leaves every bit as meant. */
  ghost predicate CallRight(m: DMap, lo: int, hi: int, drivers: set<Driver>, merge: bool)
    requires m.Disjoint() && m.lists.Valid() && lo <= hi
  {
    forall b :: Add(m, lo, hi, drivers, merge).At(b) == Meant(m, lo, hi, drivers, merge, b)
  }

  /** The list, if it still exists, holds `x`. */
  ghost predicate Tainted(m: DMap, h: Handle, x: Driver) {
    m.ListOf(h).Driven? ==> x in m.ListOf(h).drivers
  }

  ghost predicate Shows(m: DMap, b: int, h: Handle) {
    exists j :: j in m.ivs && j.Has(b) && j.handle == h
  }

  ghost predicate NamedWithin(m: DMap, lo: int, hi: int, h: Handle) {
    exists i :: i in m.ivs && i.Within(lo, hi) && i.handle == h
  }

  /** A bit outside the range keeps showing the same handle. */
  lemma StepKeepsShowing(m: DMap, lo: int, hi: int, drivers: set<Driver>, merge: bool, it: Interval, b: int, h: Handle)
    requires AtEntry(m, lo, hi, it) && Shows(m, b, h) && !(lo <= b <= hi)
    ensures Shows(Step(m, lo, hi, drivers, merge, it).m, b, h)
  {
    var m' := Step(m, lo, hi, drivers, merge, it).m;
    var j :| j in m.ivs && j.Has(b) && j.handle == h;
    if j != it {
      assert j in m'.ivs;
    } else if b < lo {
      assert Interval(it.lo, lo - 1, it.handle) in m'.ivs;
    } else {
      assert Interval(hi + 1, it.hi, it.handle) in m'.ivs;
    }
  }

  /** Whatever a turn writes to a list holds the new drivers. */
  lemma StepKeepsTaint(m: DMap, lo: int, hi: int, drivers: set<Driver>, merge: bool, it: Interval, h: Handle, x: Driver)
    requires AtEntry(m, lo, hi, it) && x in drivers
    requires Tainted(m, h, x) || (it.Within(lo, hi) && it.handle == h)
    ensures Tainted(Step(m, lo, hi, drivers, merge, it).m, h, x)
  {
    var m' := Step(m, lo, hi, drivers, merge, it).m;
    var written := if merge then m.Get(it.handle) + drivers else drivers;
    var m1 := m.Without(it);
    assert m1.ListOf(h) == m.ListOf(h);
    if it.Covers(lo, hi) {
      if !it.Within(lo, hi) {
        var m2 := DMap(m'.ivs, m.lists);
        assert m'.lists == m2.WithNew(lo, hi, written).lists;
        assert m2.ListOf(h) == m.ListOf(h) && m'.ListOf(h) == m2.WithNew(lo, hi, written).ListOf(h);
      }
    } else if !it.Within(lo, hi) {
      if it.lo <= lo {
        var m2 := m1.With(it.lo, lo - 1, it.handle);
        assert m2.ListOf(h) == m.ListOf(h) && m' == m2.WithNew(lo, it.hi, written);
      } else {
        var m2 := m1.With(hi + 1, it.hi, it.handle);
        assert m2.ListOf(h) == m.ListOf(h);
        assert Tainted(m2.WithNew(lo, it.lo - 1, drivers), h, x);
      }
    }
  }

  /**
    A list shared across the border of the range ends up, for the bit outside,
    freed or with the new drivers in it.
    */
  lemma {:induction false} CallTaints(m: DMap, lo: int, hi: int, drivers: set<Driver>, merge: bool, b: int, h: Handle, x: Driver)
    requires m.Disjoint() && m.lists.Valid() && lo <= hi && x in drivers
    requires Shows(m, b, h) && !(lo <= b <= hi) && (Tainted(m, h, x) || NamedWithin(m, lo, hi, h))
    ensures Shows(Add(m, lo, hi, drivers, merge), b, h) && Tainted(Add(m, lo, hi, drivers, merge), h, x)
    decreases hi - lo, m.ivs
  {
    if !Hit(m, lo, hi) {
      assert !NamedWithin(m, lo, hi, h) by {
        if i :| i in m.ivs && i.Within(lo, hi) && i.handle == h {
          assert i.Overlaps(lo, hi);
        }
      }
      var j :| j in m.ivs && j.Has(b) && j.handle == h;
      var m' := m.WithNew(lo, hi, drivers);
      assert j in m'.ivs && m'.ListOf(h) == if h == m.lists.NextHandle() then Driven(drivers) else m.ListOf(h);
    } else {
      var it := First(m, lo, hi);
      StepKeepsShowing(m, lo, hi, drivers, merge, it, b, h);
      var r := Step(m, lo, hi, drivers, merge, it);
      if Tainted(m, h, x) || (it.Within(lo, hi) && it.handle == h) {
        StepKeepsTaint(m, lo, hi, drivers, merge, it, h, x);
      } else {
        StepLeavesLater(m, lo, hi, drivers, merge, it, h);
      }
      if r.Go? {
        CallTaints(r.m, r.lo, hi, drivers, merge, b, h, x);
      }
    }
  }

  /** An entry inside the range that is not the first one is still to come. */
  lemma StepLeavesLater(m: DMap, lo: int, hi: int, drivers: set<Driver>, merge: bool, it: Interval, h: Handle)
    requires AtEntry(m, lo, hi, it) && NamedWithin(m, lo, hi, h) && !(it.Within(lo, hi) && it.handle == h)
    ensures var r := Step(m, lo, hi, drivers, merge, it); r.Go? && NamedWithin(r.m, r.lo, hi, h)
  {
    var i :| i in m.ivs && i.Within(lo, hi) && i.handle == h;
    FirstStartsTheRest(m, lo, hi, it, i);
    assert i.lo <= i.hi;
    var r := Step(m, lo, hi, drivers, merge, it);
    assert i in r.m.ivs;
  }

  lemma FreshDriver(s: set<Driver>) returns (x: Driver)
    ensures x !in s
  {
    x := Above(s);
  }

  ghost function Above(s: set<Driver>): (x: Driver)
    ensures forall d :: d in s ==> d < x
  {
    if s == {} then 0
    else
      var d :| d in s;
      var x := Above(s - {d});
      assert forall e :: e in s ==> e == d || e in s - {d};
      if d < x then x else d + 1
  }

  /** A call with a driver that is new to a list shared across the border is wrong. */
  lemma SharingMakesCallWrong(m: DMap, lo: int, hi: int, drivers: set<Driver>, merge: bool, i: Interval, j: Interval, x: Driver)
    requires m.Ok() && m.NoDangling() && lo <= hi && i in m.ivs && j in m.ivs && i.handle == j.handle
    requires i.Within(lo, hi) && !j.Within(lo, hi) && x in drivers && x !in m.Get(j.handle)
    ensures !CallRight(m, lo, hi, drivers, merge)
  {
    var b := if j.lo < lo then j.lo else j.hi;
    assert j.Has(b) && Shows(m, b, j.handle);
    m.AtIs(b, j);
    CallTaints(m, lo, hi, drivers, merge, b, j.handle, x);
    var m' := Add(m, lo, hi, drivers, merge);
    var k :| k in m'.ivs && k.Has(b) && k.handle == j.handle;
    m'.AtIs(b, k);
    assert m'.At(b) != Meant(m, lo, hi, drivers, merge, b);
  }

  /** A shared list makes some call over this range wrong. */
  lemma EscapeMakesCallWrong(m: DMap, lo: int, hi: int, merge: bool) returns (drivers: set<Driver>)
    requires m.Ok() && m.NoDangling() && lo <= hi && !NoEscape(m, lo, hi)
    ensures !CallRight(m, lo, hi, drivers, merge)
  {
    var i, j :| i in m.ivs && j in m.ivs && i.Within(lo, hi) && !j.Within(lo, hi) && i.handle == j.handle;
    var x := FreshDriver(m.Get(j.handle));
    drivers := {x};
    SharingMakesCallWrong(m, lo, hi, drivers, merge, i, j, x);
  }

  /**
    A merge call is right exactly when every list shared across the border of its
    range holds the drivers already.
    */
  lemma MergeIsRightIffNoHarm(m: DMap, lo: int, hi: int, drivers: set<Driver>)
    requires m.Ok() && m.NoDangling() && lo <= hi
    ensures CallRight(m, lo, hi, drivers, true) <==> NoHarm(m, lo, hi, drivers, true)
  {
    if NoHarm(m, lo, hi, drivers, true) {
      CallIsRight(m, lo, hi, drivers, true);
    } else {
      var i, j :| i in m.ivs && j in m.ivs && i.Within(lo, hi) && !j.Within(lo, hi) && i.handle == j.handle
                  && !(drivers <= m.Get(i.handle));
      var x :| x in drivers && x !in m.Get(i.handle);
      SharingMakesCallWrong(m, lo, hi, drivers, true, i, j, x);
    }
  }

  /**
    On a map with every list live, a call over [lo, hi] does what it is meant to
    for every driver list exactly when no list is shared between an entry inside
    the range and one that is not.
    */
  lemma CallIsRightIffNoEscape(m: DMap, lo: int, hi: int, merge: bool)
    requires m.Ok() && m.NoDangling() && lo <= hi
    ensures NoEscape(m, lo, hi) <==> forall drivers :: CallRight(m, lo, hi, drivers, merge)
  {
    if NoEscape(m, lo, hi) {
      forall drivers
        ensures CallRight(m, lo, hi, drivers, merge)
      {
        CallIsRight(m, lo, hi, drivers, merge);
      }
    } else {
      var drivers := EscapeMakesCallWrong(m, lo, hi, merge);
    }
  }

  /** One call with its range in ascending order. */
  datatype Call = Call(lo: int, hi: int, drivers: set<Driver>, merge: bool) {
    predicate Has(b: int) {
      lo <= b <= hi
    }
  }

  ghost predicate Ranged(calls: seq<Call>) {
    forall k :: 0 <= k < |calls| ==> calls[k].lo <= calls[k].hi
  }

  /** The map after a run of calls from the empty map. */
  ghost function Run(calls: seq<Call>): (m: DMap)
    requires Ranged(calls)
    ensures m.Disjoint() && m.lists.Valid()
  {
    if calls == [] then
      Empty
    else
      var c := calls[|calls| - 1];
      Add(Run(calls[..|calls| - 1]), c.lo, c.hi, c.drivers, c.merge)
  }

  /** What a run is meant to make of bit `b`: each covering call replaces its drivers or adds to them. */
  function Meaning(calls: seq<Call>, b: int): BitDrivers {
    if calls == [] then
      Undriven
    else
      var before := Meaning(calls[..|calls| - 1], b);
      var c := calls[|calls| - 1];
      if !c.Has(b) then before
      else if c.merge && before.Driven? then Driven(before.drivers + c.drivers)
      else Driven(c.drivers)
  }

  /** At every call of the run, no list is shared across the border of its range. */
  ghost predicate NoEscapeAlong(calls: seq<Call>)
    requires Ranged(calls)
  {
    calls != [] ==>
      var before := calls[..|calls| - 1];
      NoEscapeAlong(before) && NoEscape(Run(before), calls[|calls| - 1].lo, calls[|calls| - 1].hi)
  }

  /** At every call of the run, a list shared across the border of its range holds the merged drivers already. */
  ghost predicate HarmlessAlong(calls: seq<Call>)
    requires Ranged(calls)
  {
    calls != [] ==>
      var before, c := calls[..|calls| - 1], calls[|calls| - 1];
      HarmlessAlong(before) && Harmless(Run(before), c)
  }

  ghost predicate Harmless(m: DMap, c: Call) {
    NoHarm(m, c.lo, c.hi, c.drivers, c.merge)
  }

  lemma {:induction false} NoEscapeIsHarmless(calls: seq<Call>)
    requires Ranged(calls) && NoEscapeAlong(calls)
    ensures HarmlessAlong(calls)
  {
    if calls != [] {
      NoEscapeIsHarmless(calls[..|calls| - 1]);
    }
  }

  /** The map of a run is the per-bit function of its calls. */
  ghost predicate RunRight(calls: seq<Call>)
    requires Ranged(calls)
  {
    forall b :: Run(calls).At(b) == Meaning(calls, b)
  }

  lemma OneMoreCall(calls: seq<Call>, c: Call)
    requires Ranged(calls) && c.lo <= c.hi && RunRight(calls)
    ensures Ranged(calls + [c])
    ensures Run(calls + [c]) == Add(Run(calls), c.lo, c.hi, c.drivers, c.merge)
    ensures RunRight(calls + [c]) <==> CallRight(Run(calls), c.lo, c.hi, c.drivers, c.merge)
  {
    var after := calls + [c];
    assert after[..|after| - 1] == calls;
    forall b
      ensures Run(after).At(b) == Meaning(after, b)
              <==> Add(Run(calls), c.lo, c.hi, c.drivers, c.merge).At(b)
                   == Meant(Run(calls), c.lo, c.hi, c.drivers, c.merge, b)
    {
    }
  }

  /** Disjoint entries; the live lists are exactly those the entries name. */
  ghost predicate Healthy(m: DMap) {
    m.Ok() && m.NoDangling() && m.NoLeak()
  }

  /** What a call guarantees beyond its step-by-step definition. */
  lemma CallContract(m: DMap, lo: int, hi: int, drivers: set<Driver>, merge: bool)
    requires m.Ok() && m.NoDangling() && lo <= hi
    ensures var m' := Add(m, lo, hi, drivers, merge); merge || NoHarm(m, lo, hi, drivers, merge) ==> m'.Ok() && m'.NoDangling()
    ensures NoHarm(m, lo, hi, drivers, merge) ==> CallRight(m, lo, hi, drivers, merge)
    ensures merge && CallRight(m, lo, hi, drivers, merge) ==> NoHarm(m, lo, hi, drivers, merge)
  {
    if NoHarm(m, lo, hi, drivers, merge) {
      CallIsRight(m, lo, hi, drivers, merge);
    } else if merge {
      MergeStaysLive(m, lo, hi, drivers);
      MergeIsRightIffNoHarm(m, lo, hi, drivers);
    }
  }

  lemma CallKeepsHealthy(m: DMap, c: Call)
    requires Healthy(m) && c.lo <= c.hi && Harmless(m, c)
    ensures Healthy(Add(m, c.lo, c.hi, c.drivers, c.merge)) && CallRight(m, c.lo, c.hi, c.drivers, c.merge)
  {
    CallIsRight(m, c.lo, c.hi, c.drivers, c.merge);
  }

  lemma EmptyIsHealthy()
    ensures Healthy(Empty) && RunRight([])
  {
  }

  lemma RunStepIsRight(before: seq<Call>, c: Call)
    requires Ranged(before) && RunRight(before) && Healthy(Run(before)) && c.lo <= c.hi && Harmless(Run(before), c)
    ensures Ranged(before + [c]) && RunRight(before + [c]) && Healthy(Run(before + [c]))
  {
    CallKeepsHealthy(Run(before), c);
    OneMoreCall(before, c);
  }

  /** Over such a run the map is the per-bit function, and no list dangles or leaks. */
  lemma {:induction false} RunIsRight(calls: seq<Call>)
    requires Ranged(calls) && HarmlessAlong(calls)
    ensures RunRight(calls) && Healthy(Run(calls))
  {
    if calls == [] {
      EmptyIsHealthy();
    } else {
      var before, c := calls[..|calls| - 1], calls[|calls| - 1];
      assert before + [c] == calls;
      RunIsRight(before);
      RunStepIsRight(before, c);
    }
  }

  /** A map on which no bit shows a freed list names none. */
  lemma ShownIsLive(m: DMap)
    requires m.Disjoint() && m.lists.Valid() && forall b :: !m.At(b).Dangling?
    ensures m.Ok() && m.NoDangling()
  {
    forall i | i in m.ivs
      ensures m.lists.Live(i.handle)
    {
      assert i.Has(i.lo);
      m.AtIs(i.lo, i);
    }
  }

  lemma RightRunIsLive(calls: seq<Call>)
    requires Ranged(calls) && RunRight(calls)
    ensures Run(calls).Ok() && Run(calls).NoDangling()
  {
    forall b
      ensures !Run(calls).At(b).Dangling?
    {
      MeaningIsNotDangling(calls, b);
    }
    ShownIsLive(Run(calls));
  }

  /** A run that is right stays right with one more call, for all driver lists, exactly when that call does not escape. */
  lemma RunGoesOnRightIffNoEscape(calls: seq<Call>, lo: int, hi: int, merge: bool)
    requires Ranged(calls) && RunRight(calls) && lo <= hi
    ensures NoEscape(Run(calls), lo, hi)
            <==> forall drivers {:trigger Call(lo, hi, drivers, merge)} ::
                   Ranged(calls + [Call(lo, hi, drivers, merge)]) && RunRight(calls + [Call(lo, hi, drivers, merge)])
  {
    RightRunIsLive(calls);
    CallIsRightIffNoEscape(Run(calls), lo, hi, merge);
    forall drivers
      ensures var c := Call(lo, hi, drivers, merge);
              Ranged(calls + [c]) && (RunRight(calls + [c]) <==> CallRight(Run(calls), lo, hi, drivers, merge))
    {
      OneMoreCall(calls, Call(lo, hi, drivers, merge));
    }
    if !NoEscape(Run(calls), lo, hi) {
      var drivers :| !CallRight(Run(calls), lo, hi, drivers, merge);
      assert !RunRight(calls + [Call(lo, hi, drivers, merge)]);
    }
  }

  /** The run is right after each of its calls. */
  ghost predicate RightAlong(calls: seq<Call>)
    requires Ranged(calls)
  {
    calls != [] ==> RightAlong(calls[..|calls| - 1]) && RunRight(calls)
  }

  /** A run is right all along when its calls are harmless, and one that only merges is so only then. */
  lemma {:induction false} RightAlongIffHarmless(calls: seq<Call>)
    requires Ranged(calls)
    ensures HarmlessAlong(calls) ==> RightAlong(calls)
    ensures MergeOnly(calls) ==> (RightAlong(calls) <==> HarmlessAlong(calls))
  {
    if calls != [] {
      var before, c := calls[..|calls| - 1], calls[|calls| - 1];
      assert before + [c] == calls;
      RightAlongIffHarmless(before);
      if HarmlessAlong(calls) {
        RunIsRight(calls);
      } else if MergeOnly(calls) && RightAlong(calls) {
        RightMergeIsHarmless(before, c);
      }
    }
  }

  lemma RightMergeIsHarmless(before: seq<Call>, c: Call)
    requires Ranged(before) && c.lo <= c.hi && c.merge && RightAlong(before)
    ensures Ranged(before + [c]) && (RunRight(before + [c]) <==> Harmless(Run(before), c))
  {
    if before == [] {
      EmptyIsHealthy();
    }
    RightRunIsLive(before);
    OneMoreCall(before, c);
    MergeIsRightIffNoHarm(Run(before), c.lo, c.hi, c.drivers);
  }

  ghost predicate MergeOnly(calls: seq<Call>) {
    forall k :: 0 <= k < |calls| ==> calls[k].merge
  }

  /** In a merge-only run a bit's drivers are those of all calls over it. */
  lemma {:induction false} MergedMeaning(calls: seq<Call>, b: int)
    requires MergeOnly(calls)
    ensures Meaning(calls, b).Driven? <==> exists c :: c in calls && c.Has(b)
    ensures Meaning(calls, b).Undriven? || Meaning(calls, b).Driven?
    ensures Meaning(calls, b).Driven? ==>
              forall x :: x in Meaning(calls, b).drivers <==> exists c :: c in calls && c.Has(b) && x in c.drivers
  {
    if calls != [] {
      var before, c := calls[..|calls| - 1], calls[|calls| - 1];
      MergedMeaning(before, b);
      assert forall d :: d in calls <==> d in before || d == c;
    }
  }

  /** Merge-only runs of the same calls in any order or interleaving end in the same drivers of every bit. */
  lemma MergeOrderIsIrrelevant(calls1: seq<Call>, calls2: seq<Call>, b: int)
    requires Ranged(calls1) && Ranged(calls2) && MergeOnly(calls1) && multiset(calls1) == multiset(calls2)
    requires HarmlessAlong(calls1) && HarmlessAlong(calls2)
    ensures Run(calls1).At(b) == Run(calls2).At(b)
  {
    RunIsRight(calls1);
    RunIsRight(calls2);
    MeaningIsOrderFree(calls1, calls2, b);
  }

  lemma MeaningIsOrderFree(calls1: seq<Call>, calls2: seq<Call>, b: int)
    requires MergeOnly(calls1) && multiset(calls1) == multiset(calls2)
    ensures Meaning(calls1, b) == Meaning(calls2, b)
  {
    forall c
      ensures c in calls1 <==> c in calls2
    {
      assert c in calls1 <==> c in multiset(calls1);
      assert c in calls2 <==> c in multiset(calls2);
    }
    forall k | 0 <= k < |calls2|
      ensures calls2[k].merge
    {
      assert calls2[k] in calls1;
    }
    MergedMeaning(calls1, b);
    MergedMeaning(calls2, b);
  }

  /** A map after more calls. */
  ghost function AddAll(m: DMap, calls: seq<Call>): (r: DMap)
    requires m.Disjoint() && m.lists.Valid() && Ranged(calls)
    ensures r.Disjoint() && r.lists.Valid()
  {
    if calls == [] then
      m
    else
      var c := calls[|calls| - 1];
      Add(AddAll(m, calls[..|calls| - 1]), c.lo, c.hi, c.drivers, c.merge)
  }

  lemma {:induction false} RunThenMore(calls: seq<Call>, more: seq<Call>)
    requires Ranged(calls) && Ranged(more)
    ensures Ranged(calls + more) && Run(calls + more) == AddAll(Run(calls), more)
  {
    if more == [] {
      assert calls + more == calls;
    } else {
      RunThenMore(calls, more[..|more| - 1]);
      assert (calls + more)[..|calls + more| - 1] == calls + more[..|more| - 1];
    }
  }

  /** The merge calls that join the map `m`: one per entry, in ascending order, with the entry's drivers. */
  ghost predicate ListsEntries(m: DMap, calls: seq<Call>) {
    && Ranged(calls) && MergeOnly(calls)
    && (forall c {:trigger IsListed(m, c)} :: c in calls ==> IsListed(m, c))
    && (forall i {:trigger HasCall(m, i, calls)} :: i in m.ivs ==> HasCall(m, i, calls))
    && (forall k, l :: 0 <= k < l < |calls| ==> calls[k].lo <= calls[l].lo)
  }

  ghost predicate IsListed(m: DMap, c: Call) {
    exists i :: i in m.ivs && Lists(m, i, c)
  }

  ghost predicate HasCall(m: DMap, i: Interval, calls: seq<Call>) {
    exists c :: c in calls && Lists(m, i, c)
  }

  ghost predicate Lists(m: DMap, i: Interval, c: Call) {
    c.lo == i.lo && c.hi == i.hi && m.ListOf(i.handle) == Driven(c.drivers)
  }

  /** The drivers of a bit after a join: those of either side. */
  function Joined(a: BitDrivers, b: BitDrivers): BitDrivers {
    if a.Driven? && b.Driven? then Driven(a.drivers + b.drivers) else if a.Driven? then a else b
  }

  lemma {:induction false} MeaningThenMore(calls: seq<Call>, more: seq<Call>, b: int)
    requires MergeOnly(more)
    ensures Meaning(calls + more, b) == Joined(Meaning(calls, b), Meaning(more, b))
  {
    if more == [] {
      assert calls + more == calls;
      MeaningIsNotDangling(calls, b);
    } else {
      var c := more[|more| - 1];
      MeaningThenMore(calls, more[..|more| - 1], b);
      assert (calls + more)[..|calls + more| - 1] == calls + more[..|more| - 1];
      MeaningIsNotDangling(more[..|more| - 1], b);
      MeaningIsNotDangling(calls, b);
    }
  }

  lemma {:induction false} MeaningIsNotDangling(calls: seq<Call>, b: int)
    ensures !Meaning(calls, b).Dangling?
  {
    if calls != [] {
      MeaningIsNotDangling(calls[..|calls| - 1], b);
    }
  }

  /** The listed entries of a healthy map say of each bit what the map says. */
  lemma ListedMeaning(m: DMap, calls: seq<Call>, b: int)
    requires m.Disjoint() && ListsEntries(m, calls)
    ensures Meaning(calls, b) == m.At(b)
  {
    MergedMeaning(calls, b);
    var j := Locate(m, b);
    if m.Covered(b) {
      assert HasCall(m, j, calls);
      var c :| c in calls && Lists(m, j, c);
      assert c.Has(b);
      forall d | d in calls && d.Has(b)
        ensures d.drivers == c.drivers
      {
        var i := EntryOf(m, calls, d);
        assert i == j;
      }
    } else {
      forall d | d in calls
        ensures !d.Has(b)
      {
        var i := EntryOf(m, calls, d);
        assert !i.Has(b);
      }
    }
  }

  lemma EntryOf(m: DMap, calls: seq<Call>, c: Call) returns (i: Interval)
    requires ListsEntries(m, calls) && c in calls
    ensures i in m.ivs && Lists(m, i, c)
  {
    assert IsListed(m, c);
    i :| i in m.ivs && Lists(m, i, c);
  }

  /** Joining another map into that of a run unites the drivers of every bit, when the merges along the way are harmless. */
  lemma JoinIsUnion(calls: seq<Call>, m: DMap, entries: seq<Call>, b: int)
    requires Ranged(calls) && m.Disjoint() && ListsEntries(m, entries)
    requires Ranged(calls + entries) && HarmlessAlong(calls + entries)
    ensures AddAll(Run(calls), entries).At(b) == Joined(Run(calls).At(b), m.At(b))
  {
    HarmlessBefore(calls, entries);
    RunIsRight(calls);
    RunIsRight(calls + entries);
    RunThenMore(calls, entries);
    ListedMeaning(m, entries, b);
    MeaningThenMore(calls, entries, b);
  }

  lemma {:induction false} HarmlessBefore(calls: seq<Call>, more: seq<Call>)
    requires Ranged(calls) && Ranged(calls + more) && HarmlessAlong(calls + more)
    ensures HarmlessAlong(calls)
    decreases |more|
  {
    if more == [] {
      assert calls + more == calls;
    } else {
      assert (calls + more)[..|calls + more| - 1] == calls + more[..|more| - 1];
      HarmlessBefore(calls, more[..|more| - 1]);
    }
  }

  /** Some entry reaches beyond the range on both sides: the call will leave two remainders of it. */
  ghost predicate SplitsInTwo(m: DMap, lo: int, hi: int) {
    exists i :: i in m.ivs && i.lo < lo && hi < i.hi
  }

  /** No list dangles, and no two entries share one. */
  ghost predicate Unshared(m: DMap) {
    m.Ok() && m.NoDangling() && m.DistinctHandles()
  }

  lemma NewStaysUnshared(m: DMap, lo: int, hi: int, drivers: set<Driver>)
    requires Unshared(m) && lo <= hi && forall i :: i in m.ivs ==> !i.Overlaps(lo, hi)
    ensures Unshared(m.WithNew(lo, hi, drivers))
  {
  }

  /** An entry cut down to a part of itself keeps its list to itself. */
  lemma CutStaysUnshared(m: DMap, it: Interval, lo: int, hi: int)
    requires Unshared(m) && it in m.ivs && it.lo <= lo <= hi <= it.hi
    ensures Unshared(m.Without(it).With(lo, hi, it.handle)) && Unshared(m.Without(it))
  {
  }

  lemma WrittenStaysUnshared(m: DMap, h: Handle, drivers: set<Driver>)
    requires Unshared(m)
    ensures Unshared(m.WithList(h, drivers))
  {
  }

  lemma AroundKeepsUnshared(m: DMap, lo: int, hi: int, drivers: set<Driver>, merge: bool, it: Interval)
    requires AtEntry(m, lo, hi, it) && Unshared(m) && it.Within(lo, hi)
    ensures Unshared(Around(m, lo, hi, drivers, merge, it).m)
  {
    if merge {
      var m1 := m.WithList(it.handle, m.Get(it.handle) + drivers);
      WrittenStaysUnshared(m, it.handle, m.Get(it.handle) + drivers);
      if it.lo > lo {
        NewStaysUnshared(m1, lo, it.lo - 1, drivers);
      }
    }
  }

  lemma LowRemainderKeepsUnshared(m: DMap, lo: int, hi: int, drivers: set<Driver>, merge: bool, it: Interval)
    requires AtEntry(m, lo, hi, it) && Unshared(m) && it.lo < lo && it.hi <= hi
    ensures Unshared(Step(m, lo, hi, drivers, merge, it).m)
  {
    var written := if merge then m.Get(it.handle) + drivers else drivers;
    var m1 := m.Without(it).With(it.lo, lo - 1, it.handle);
    CutStaysUnshared(m, it, it.lo, lo - 1);
    NewStaysUnshared(m1, lo, it.hi, written);
    assert Step(m, lo, hi, drivers, merge, it).m == m1.WithNew(lo, it.hi, written);
  }

  lemma TwoNewStayUnshared(m: DMap, lo: int, mid: int, hi: int, low: set<Driver>, high: set<Driver>)
    requires Unshared(m) && lo < mid <= hi && forall i :: i in m.ivs ==> !i.Overlaps(lo, hi)
    ensures Unshared(m.WithNew(lo, mid - 1, low).WithNew(mid, hi, high))
  {
    NewStaysUnshared(m, lo, mid - 1, low);
    NewStaysUnshared(m.WithNew(lo, mid - 1, low), mid, hi, high);
  }

  lemma CutIsClear(m: DMap, lo: int, hi: int, it: Interval)
    requires AtEntry(m, lo, hi, it) && lo <= it.lo && hi < it.hi
    ensures forall i :: i in m.Without(it).With(hi + 1, it.hi, it.handle).ivs ==> !i.Overlaps(lo, hi)
  {
    forall i | i in m.ivs && i != it
      ensures !i.Overlaps(lo, hi)
    {
      if i.Overlaps(lo, hi) {
        FirstStartsTheRest(m, lo, hi, it, i);
      }
    }
  }

  lemma HighRemainderKeepsUnshared(m: DMap, lo: int, hi: int, drivers: set<Driver>, merge: bool, it: Interval)
    requires AtEntry(m, lo, hi, it) && Unshared(m) && lo < it.lo && hi < it.hi
    ensures Unshared(RightOverlap(m, lo, hi, drivers, merge, it).m)
  {
    var m1 := m.Without(it).With(hi + 1, it.hi, it.handle);
    CutStaysUnshared(m, it, hi + 1, it.hi);
    CutIsClear(m, lo, hi, it);
    if merge {
      TwoNewStayUnshared(m1, lo, it.lo, hi, drivers, m.Get(it.handle) + drivers);
    } else {
      NewStaysUnshared(m1, lo, hi, drivers);
    }
  }

  lemma InsideKeepsUnshared(m: DMap, lo: int, hi: int, drivers: set<Driver>, merge: bool, it: Interval)
    requires AtEntry(m, lo, hi, it) && Unshared(m) && lo == it.lo && hi < it.hi
    ensures Unshared(Inside(m, lo, hi, drivers, merge, it).m)
  {
    CutStaysUnshared(m, it, hi + 1, it.hi);
    NewStaysUnshared(m.Without(it).With(hi + 1, it.hi, it.handle), lo, hi,
                     if merge then m.Get(it.handle) + drivers else drivers);
  }

  lemma StepKeepsUnshared(m: DMap, lo: int, hi: int, drivers: set<Driver>, merge: bool, it: Interval)
    requires AtEntry(m, lo, hi, it) && Unshared(m) && !SplitsInTwo(m, lo, hi)
    ensures Unshared(Step(m, lo, hi, drivers, merge, it).m)
  {
    assert !(it.lo < lo && hi < it.hi);
    if it.lo == lo && it.hi == hi {
      WrittenStaysUnshared(m, it.handle, if merge then m.Get(it.handle) + drivers else drivers);
    } else if it.Within(lo, hi) {
      AroundKeepsUnshared(m, lo, hi, drivers, merge, it);
    } else if it.lo < lo {
      LowRemainderKeepsUnshared(m, lo, hi, drivers, merge, it);
    } else if it.lo == lo {
      InsideKeepsUnshared(m, lo, hi, drivers, merge, it);
    } else {
      HighRemainderKeepsUnshared(m, lo, hi, drivers, merge, it);
    }
  }

  lemma StepKeepsWhole(m: DMap, lo: int, hi: int, drivers: set<Driver>, merge: bool, it: Interval)
    requires AtEntry(m, lo, hi, it) && !SplitsInTwo(m, lo, hi) && Step(m, lo, hi, drivers, merge, it).Go?
    ensures var r := Step(m, lo, hi, drivers, merge, it); !SplitsInTwo(r.m, r.lo, hi)
  {
    var r := Step(m, lo, hi, drivers, merge, it);
    if i :| i in r.m.ivs && i.lo < r.lo && hi < i.hi {
      assert i in m.ivs && i != it;
      FirstStartsTheRest(m, lo, hi, it, i);
    }
  }

  /** Lists stay unshared exactly through the calls that leave at most one remainder of an entry. */
  lemma {:induction false} CallKeepsUnshared(m: DMap, lo: int, hi: int, drivers: set<Driver>, merge: bool)
    requires Unshared(m) && lo <= hi
    ensures Unshared(Add(m, lo, hi, drivers, merge)) <==> !SplitsInTwo(m, lo, hi)
    decreases hi - lo, m.ivs
  {
    if SplitsInTwo(m, lo, hi) {
      var i :| i in m.ivs && i.lo < lo && hi < i.hi;
      var it := First(m, lo, hi);
      assert it == i;
      var m' := Add(m, lo, hi, drivers, merge);
      assert Interval(i.lo, lo - 1, i.handle) in m'.ivs && Interval(hi + 1, i.hi, i.handle) in m'.ivs;
    } else if Hit(m, lo, hi) {
      var it := First(m, lo, hi);
      StepKeepsUnshared(m, lo, hi, drivers, merge, it);
      var r := Step(m, lo, hi, drivers, merge, it);
      if r.Go? {
        StepKeepsWhole(m, lo, hi, drivers, merge, it);
        CallKeepsUnshared(r.m, r.lo, hi, drivers, merge);
      }
    }
  }

  ghost predicate NoSplitAlong(calls: seq<Call>)
    requires Ranged(calls)
  {
    calls != [] ==>
      var before := calls[..|calls| - 1];
      NoSplitAlong(before) && !SplitsInTwo(Run(before), calls[|calls| - 1].lo, calls[|calls| - 1].hi)
  }

  /** A run in which no call lands strictly inside an entry shares no list, so it is right throughout. */
  lemma {:induction false} WithoutSplitsNothingEscapes(calls: seq<Call>)
    requires Ranged(calls) && NoSplitAlong(calls)
    ensures NoEscapeAlong(calls) && Unshared(Run(calls))
  {
    if calls != [] {
      var before, c := calls[..|calls| - 1], calls[|calls| - 1];
      WithoutSplitsNothingEscapes(before);
      CallKeepsUnshared(Run(before), c.lo, c.hi, c.drivers, c.merge);
    }
  }

  lemma Extend(calls: seq<Call>, c: Call)
    requires Ranged(calls) && c.lo <= c.hi
    ensures Ranged(calls + [c]) && Run(calls + [c]) == Add(Run(calls), c.lo, c.hi, c.drivers, c.merge)
    ensures NoSplitAlong(calls) && !SplitsInTwo(Run(calls), c.lo, c.hi) ==> NoSplitAlong(calls + [c])
  {
    assert (calls + [c])[..|calls|] == calls;
  }

  lemma FirstCall(c: Call)
    requires c.lo <= c.hi
    ensures Run([c]).ivs == {Interval(c.lo, c.hi, 0)} && |Run([c]).lists.slots| == 1 && Run([c]).lists.free == []
    ensures NoSplitAlong([c])
  {
    Extend([], c);
    assert [] + [c] == [c];
  }

  /** The entry [0, 7] with bit 3 cut out of it: both remainders keep handle 0. */
  lemma CutOut(c1: Call, c2: Call)
    requires c1.lo == 0 && c1.hi == 7 && c2.lo == c2.hi == 3
    ensures Run([c1, c2]).ivs == {Interval(0, 2, 0), Interval(4, 7, 0), Interval(3, 3, 1)}
  {
    FirstCall(c1);
    Extend([c1], c2);
    assert [c1] + [c2] == [c1, c2];
    var m := Run([c1]);
    assert Interval(0, 7, 0) in m.ivs && Hit(m, 3, 3) && First(m, 3, 3) == Interval(0, 7, 0);
  }

  lemma MeaningOfThree(c1: Call, c2: Call, c3: Call, b: int)
    requires c1.Has(b) && !c2.Has(b) && !c3.Has(b)
    ensures Meaning([c1, c2, c3], b) == Meaning([c3, c2, c1], b) == Driven(c1.drivers)
  {
    assert [c1, c2, c3][..2] == [c1, c2] && [c1, c2][..1] == [c1] && [c1][..0] == [];
    assert Meaning([c1], b) == Driven(c1.drivers);
    assert [c3, c2, c1][..2] == [c3, c2] && [c3, c2][..1] == [c3] && [c3][..0] == [];
    assert Meaning([c3], b) == Undriven;
  }

  /**
    After [0, 7] and [3, 3], a call over one remainder of [0, 7] with a new driver
    spoils the bits of the other remainder, in either mode of each call: replacing
    [0, 3] spoils bit 5, as joining a branch that drives [3, 3] and [4, 7] into one
    that drives [0, 7] spoils bit 0.
    */
  lemma ThirdCallSpoils(c1: Call, c2: Call, c3: Call, b: int, x: Driver)
    requires c1.lo == 0 && c1.hi == 7 && c2.lo == c2.hi == 3
    requires (b == 5 && c3.lo == 0 && c3.hi == 3) || (b == 0 && c3.lo == 4 && c3.hi == 7)
    requires x in c3.drivers && x !in c1.drivers
    ensures Meaning([c1, c2, c3], b) == Driven(c1.drivers) && Run([c1, c2, c3]).At(b) != Driven(c1.drivers)
  {
    MeaningOfThree(c1, c2, c3, b);
    CutOut(c1, c2);
    assert [c1, c2] + [c3] == [c1, c2, c3];
    NextCallSpoils([c1, c2], c3, b, x);
  }

  lemma NextCallSpoils(calls: seq<Call>, c: Call, b: int, x: Driver)
    requires Ranged(calls) && Run(calls).ivs == {Interval(0, 2, 0), Interval(4, 7, 0), Interval(3, 3, 1)} && x in c.drivers
    requires (b == 5 && c.lo == 0 && c.hi == 3) || (b == 0 && c.lo == 4 && c.hi == 7)
    ensures Ranged(calls + [c]) && (Run(calls + [c]).At(b).Driven? ==> x in Run(calls + [c]).At(b).drivers)
  {
    Extend(calls, c);
    RemainderIsSpoilt(Run(calls), c, b, x);
  }

  lemma RemainderIsSpoilt(m: DMap, c: Call, b: int, x: Driver)
    requires m.Disjoint() && m.lists.Valid() && x in c.drivers
    requires m.ivs == {Interval(0, 2, 0), Interval(4, 7, 0), Interval(3, 3, 1)}
    requires (b == 5 && c.lo == 0 && c.hi == 3) || (b == 0 && c.lo == 4 && c.hi == 7)
    ensures Add(m, c.lo, c.hi, c.drivers, c.merge).At(b).Driven? ==> x in Add(m, c.lo, c.hi, c.drivers, c.merge).At(b).drivers
  {
    var left, right := Interval(0, 2, 0), Interval(4, 7, 0);
    assert left in m.ivs && right in m.ivs && (if b == 0 then left else right).Has(b);
    assert left.Within(c.lo, c.hi) || right.Within(c.lo, c.hi);
    CallTaints(m, c.lo, c.hi, c.drivers, c.merge, b, 0, x);
    var m' := Add(m, c.lo, c.hi, c.drivers, c.merge);
    var j :| j in m'.ivs && j.Has(b) && j.handle == 0;
    m'.AtIs(b, j);
  }

  /** The same three calls from the outside in do no harm, so merging does not commute on every run. */
  lemma MergeOrderCanMatter(c1: Call, c2: Call, c3: Call, x: Driver)
    requires c1.lo == 0 && c1.hi == 7 && c2.lo == c2.hi == 3 && c3.lo == 4 && c3.hi == 7
    requires c1.merge && c2.merge && c3.merge && x in c3.drivers && x !in c1.drivers
    ensures Run([c1, c2, c3]).At(0) != Driven(c1.drivers) && Run([c3, c2, c1]).At(0) == Driven(c1.drivers)
  {
    ThirdCallSpoils(c1, c2, c3, 0, x);
    FirstCall(c3);
    Extend([c3], c2);
    assert [c3] + [c2] == [c3, c2] && [c3, c2] + [c1] == [c3, c2, c1];
    BelowIsAdded(Run([c3]), c2);
    Extend([c3, c2], c1);
    WithoutSplitsNothingEscapes([c3, c2, c1]);
    NoEscapeIsHarmless([c3, c2, c1]);
    RunIsRight([c3, c2, c1]);
    MeaningOfThree(c1, c2, c3, 0);
  }

  lemma BelowIsAdded(m: DMap, c: Call)
    requires m.Disjoint() && m.lists.Valid() && c.lo <= c.hi && forall i :: i in m.ivs ==> c.hi < i.lo && i.hi <= 7
    requires c.hi <= 7
    ensures forall i :: i in Add(m, c.lo, c.hi, c.drivers, c.merge).ivs ==> i.hi <= 7
  {
    assert !Hit(m, c.lo, c.hi);
  }
}