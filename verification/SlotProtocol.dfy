/**
  How threads find or claim the slot of a symbol and reach its lock (the first part
  of ValueTracker::addDrivers in source/ValueTracker.cpp). A state holds the shared
  maps, vectors and locks and where every thread stands; one step is one atomic
  operation of one thread, and any number of threads interleave.
  */
module SlotProtocol {
  import opened Wrappers

  type Symbol = nat
  type Thread = nat
  /** A caller's own vector of driver maps, by name. */
  type Vector = nat

  datatype Call = Call(symbol: Symbol, vector: Vector)

  /** Where a thread stands: each name is the operation it does next. */
  datatype Pc =
    | Idle
    | Visit(call: Call)
    | FetchAdd(call: Call)
    | TryEmplace(call: Call, slot: nat)
    | EmplaceReverse(call: Call, slot: nat)
    | LockShared(call: Call, slot: nat)
    | CheckSizes(call: Call, slot: nat)
    | LockExclusive(call: Call, slot: nat)
    | ResizeDrivers(call: Call, slot: nat)
    | ResizeMutexes(call: Call, slot: nat)
    | ResizeAllocators(call: Call, slot: nat)
    | UnlockExclusive(call: Call, slot: nat)
    | RelockShared(call: Call, slot: nat)
    | LockSlot(call: Call, slot: nat)
    | InSlot(call: Call, slot: nat)

  datatype State = State(
    valueToSlot: map<Symbol, nat>,
    slotToValue: map<nat, Symbol>,
    nextSlot: nat,
    drivers: map<Vector, nat>,
    mutexes: nat,
    allocators: nat,
    readers: set<Thread>,
    writer: Option<Thread>,
    holders: map<nat, Thread>,
    threads: map<Thread, Pc>)
  {
    function At(t: Thread): Pc {
      if t in threads then threads[t] else Idle
    }

    /** The number of maps in a caller's vector. */
    function Size(v: Vector): nat {
      if v in drivers then drivers[v] else 0
    }

    function Goto(t: Thread, pc: Pc): State {
      this.(threads := threads[t := pc])
    }
  }

  function Start(): State {
    State(map[], map[], 0, map[], 0, 0, {}, None, map[], map[])
  }

  /** The lock-free part: find the symbol's slot or claim a new one. An idle thread begins `call`. */
  function Look(s: State, t: Thread, call: Call): State
    requires !Knows(s.At(t)) || s.At(t).EmplaceReverse?
  {
    match s.At(t)
    case Idle => s.Goto(t, Visit(call))
    case Visit(c) =>
      s.Goto(t, if c.symbol in s.valueToSlot then LockShared(c, s.valueToSlot[c.symbol]) else FetchAdd(c))
    case FetchAdd(c) => s.(nextSlot := s.nextSlot + 1).Goto(t, TryEmplace(c, s.nextSlot))
    case TryEmplace(c, candidate) =>
      if c.symbol in s.valueToSlot then s.Goto(t, LockShared(c, s.valueToSlot[c.symbol]))
      else s.(valueToSlot := s.valueToSlot[c.symbol := candidate]).Goto(t, EmplaceReverse(c, candidate))
    case EmplaceReverse(c, i) =>
      (if i in s.slotToValue then s else s.(slotToValue := s.slotToValue[i := c.symbol])).Goto(t, LockShared(c, i))
  }

  /** Under the shared lock: check the sizes, take the slot's lock, and leave. */
  function Share(s: State, t: Thread): Option<State>
    requires s.At(t).LockShared? || HoldsShared(s.At(t)) || s.At(t).RelockShared?
  {
    match s.At(t)
    case LockShared(c, i) =>
      if s.writer.Some? then None else Some(s.(readers := s.readers + {t}).Goto(t, CheckSizes(c, i)))
    case CheckSizes(c, i) =>
      if i >= s.Size(c.vector) || i >= s.allocators then Some(s.(readers := s.readers - {t}).Goto(t, LockExclusive(c, i)))
      else Some(s.Goto(t, LockSlot(c, i)))
    case RelockShared(c, i) =>
      if s.writer.Some? then None else Some(s.(readers := s.readers + {t}).Goto(t, LockSlot(c, i)))
    case LockSlot(c, i) =>
      if i in s.holders then None else Some(s.(holders := s.holders[i := t]).Goto(t, InSlot(c, i)))
    case InSlot(c, i) => Some(s.(holders := s.holders - {i}, readers := s.readers - {t}).Goto(t, Idle))
  }

  /** Under the exclusive lock: make room for the slot. */
  function Resize(s: State, t: Thread): Option<State>
    requires s.At(t).LockExclusive? || HoldsExclusive(s.At(t))
  {
    match s.At(t)
    case LockExclusive(c, i) =>
      if s.writer.Some? || s.readers != {} then None else Some(s.(writer := Some(t)).Goto(t, ResizeDrivers(c, i)))
    case ResizeDrivers(c, i) =>
      var grown := if i >= s.Size(c.vector) then s.(drivers := s.drivers[c.vector := i + 1]) else s;
      Some(grown.Goto(t, if i >= s.allocators then ResizeMutexes(c, i) else UnlockExclusive(c, i)))
    case ResizeMutexes(c, i) => Some(s.(mutexes := i + 1).Goto(t, ResizeAllocators(c, i)))
    case ResizeAllocators(c, i) => Some(s.(allocators := i + 1).Goto(t, UnlockExclusive(c, i)))
    case UnlockExclusive(c, i) => Some(s.(writer := None).Goto(t, RelockShared(c, i)))
  }

  /** One step of thread `t`; none while it waits for a lock. */
  function Step(s: State, t: Thread, call: Call): Option<State> {
    var pc := s.At(t);
    if !Knows(pc) || pc.EmplaceReverse? then Some(Look(s, t, call))
    else if pc.LockExclusive? || HoldsExclusive(pc) then Resize(s, t)
    else Share(s, t)
  }

  /** The thread has found or claimed its symbol's slot. */
  predicate Knows(pc: Pc) {
    !(pc.Idle? || pc.Visit? || pc.FetchAdd? || pc.TryEmplace?)
  }

  /** Given slots are distinct and below the counter, and every thread that knows its slot knows the given one. */
  ghost predicate SlotsGiven(s: State) {
    && (forall a :: a in s.valueToSlot ==> s.valueToSlot[a] < s.nextSlot)
    && (forall a, b :: a in s.valueToSlot && b in s.valueToSlot && a != b ==> s.valueToSlot[a] != s.valueToSlot[b])
    && (forall t: Thread {:trigger s.At(t)} :: Knows(s.At(t)) ==>
          s.At(t).call.symbol in s.valueToSlot && s.valueToSlot[s.At(t).call.symbol] == s.At(t).slot)
  }

  /** A candidate that is not given yet is its thread's alone. */
  ghost predicate CandidatesFresh(s: State) {
    && (forall t: Thread {:trigger s.At(t)} :: s.At(t).TryEmplace? ==>
          s.At(t).slot < s.nextSlot && forall a :: a in s.valueToSlot ==> s.valueToSlot[a] != s.At(t).slot)
    && (forall t: Thread, u: Thread {:trigger s.At(t), s.At(u)} ::
          t != u && s.At(t).TryEmplace? && s.At(u).TryEmplace? ==> s.At(t).slot != s.At(u).slot)
  }

  /** A slot that some thread is about to enter into the reverse map. */
  ghost predicate Claimed(s: State, i: nat) {
    exists t: Thread :: s.At(t).EmplaceReverse? && s.At(t).slot == i
  }

  ghost predicate ReverseAgrees(s: State) {
    && (forall i :: i in s.slotToValue ==> s.slotToValue[i] in s.valueToSlot && s.valueToSlot[s.slotToValue[i]] == i)
    && (forall t: Thread {:trigger s.At(t)} :: s.At(t).EmplaceReverse? ==> s.At(t).slot !in s.slotToValue)
    && (forall t: Thread, u: Thread {:trigger s.At(t), s.At(u)} ::
          t != u && s.At(t).EmplaceReverse? && s.At(u).EmplaceReverse? ==> s.At(t).slot != s.At(u).slot)
    && EverySlotShows(s)
  }

  /** Every given slot is in the reverse map or about to be. */
  ghost predicate EverySlotShows(s: State) {
    forall a :: a in s.valueToSlot ==> s.valueToSlot[a] in s.slotToValue || Claimed(s, s.valueToSlot[a])
  }

  predicate HoldsShared(pc: Pc) {
    pc.CheckSizes? || pc.LockSlot? || pc.InSlot?
  }

  predicate HoldsExclusive(pc: Pc) {
    pc.ResizeDrivers? || pc.ResizeMutexes? || pc.ResizeAllocators? || pc.UnlockExclusive?
  }

  /** The locks are held by the threads that stand where they are held; a writer is alone. */
  ghost predicate LocksHeld(s: State) {
    && (forall t: Thread {:trigger s.At(t)} :: t in s.readers <==> HoldsShared(s.At(t)))
    && (forall t: Thread {:trigger s.At(t)} :: s.writer == Some(t) <==> HoldsExclusive(s.At(t)))
    && (s.writer.Some? ==> s.readers == {})
    && (forall t: Thread {:trigger s.At(t)} :: s.At(t).InSlot? ==> s.At(t).slot in s.holders && s.holders[s.At(t).slot] == t)
    && (forall i :: i in s.holders ==> s.At(s.holders[i]).InSlot? && s.At(s.holders[i]).slot == i)
  }

  /** The slot is inside the caller's vector and both member vectors. */
  ghost predicate Inside(s: State, v: Vector, i: nat) {
    i < s.Size(v) && i < s.mutexes && i < s.allocators
  }

  /** What holds of the sizes where a thread stands. */
  ghost predicate PcFits(s: State, pc: Pc) {
    && (pc.UnlockExclusive? || pc.RelockShared? || pc.LockSlot? || pc.InSlot? ==> Inside(s, pc.call.vector, pc.slot))
    && (pc.ResizeMutexes? ==> pc.slot < s.Size(pc.call.vector) && pc.slot >= s.allocators)
    && (pc.ResizeAllocators? ==> pc.slot < s.Size(pc.call.vector) && s.mutexes == pc.slot + 1 && pc.slot >= s.allocators)
  }

  /** The member vectors have one size, but while one thread is between resizing the one and the other. */
  ghost predicate SizesFit(s: State) {
    && s.allocators <= s.mutexes
    && ((forall t: Thread {:trigger s.At(t)} :: !s.At(t).ResizeAllocators?) ==> s.mutexes == s.allocators)
    && (forall t: Thread {:trigger s.At(t)} :: PcFits(s, s.At(t)))
  }

  ghost predicate Inv(s: State) {
    SlotsGiven(s) && CandidatesFresh(s) && ReverseAgrees(s) && LocksHeld(s) && SizesFit(s)
  }

  /** One thread goes on and the others stay where they are. */
  ghost predicate Moves(s: State, s2: State, t: Thread) {
    s2.threads == s.threads[t := s2.At(t)]
  }

  ghost predicate KnowsRightly(s: State, pc: Pc) {
    Knows(pc) ==> pc.call.symbol in s.valueToSlot && s.valueToSlot[pc.call.symbol] == pc.slot
  }

  lemma LookKeepsSlots(s: State, t: Thread, call: Call)
    requires KnowsRightly(s, s.At(t)) && (!Knows(s.At(t)) || s.At(t).EmplaceReverse?)
    requires s.At(t).TryEmplace? ==> s.At(t).call.symbol in s.valueToSlot
    ensures var s2 := Look(s, t, call);
            && Moves(s, s2, t) && s2.valueToSlot == s.valueToSlot && s.nextSlot <= s2.nextSlot && KnowsRightly(s, s2.At(t))
            && (s2.At(t).TryEmplace? ==> s2.At(t).slot == s.nextSlot < s2.nextSlot)
            && !s2.At(t).EmplaceReverse?
  {
  }

  ghost predicate SameSlots(s: State, s2: State, t: Thread) {
    && Moves(s, s2, t) && s2.valueToSlot == s.valueToSlot && s2.slotToValue == s.slotToValue && s2.nextSlot == s.nextSlot
    && (s2.At(t).Idle? || (Knows(s.At(t)) && Knows(s2.At(t)) && s2.At(t).call == s.At(t).call && s2.At(t).slot == s.At(t).slot))
    && !s2.At(t).EmplaceReverse?
  }

  lemma GoingOnKeepsSlots(s: State, s2: State, t: Thread, pc: Pc)
    requires s2.threads == s.threads[t := pc]
    requires s2.valueToSlot == s.valueToSlot && s2.slotToValue == s.slotToValue && s2.nextSlot == s.nextSlot
    requires Knows(s.At(t)) && !pc.EmplaceReverse?
    requires pc.Idle? || (Knows(pc) && pc.call == s.At(t).call && pc.slot == s.At(t).slot)
    ensures SameSlots(s, s2, t)
  {
  }

  lemma ShareKeepsSlots(s: State, t: Thread)
    requires s.At(t).LockShared? || HoldsShared(s.At(t)) || s.At(t).RelockShared?
    requires Share(s, t).Some?
    ensures SameSlots(s, Share(s, t).value, t)
  {
    var s2 := Share(s, t).value;
    match s.At(t)
    case LockShared(c, i) => GoingOnKeepsSlots(s, s2, t, CheckSizes(c, i));
    case CheckSizes(c, i) =>
      GoingOnKeepsSlots(s, s2, t, if i >= s.Size(c.vector) || i >= s.allocators then LockExclusive(c, i) else LockSlot(c, i));
    case RelockShared(c, i) => GoingOnKeepsSlots(s, s2, t, LockSlot(c, i));
    case LockSlot(c, i) => GoingOnKeepsSlots(s, s2, t, InSlot(c, i));
    case InSlot(_, _) => GoingOnKeepsSlots(s, s2, t, Idle);
  }

  lemma ResizeKeepsSlots(s: State, t: Thread)
    requires s.At(t).LockExclusive? || HoldsExclusive(s.At(t))
    requires Resize(s, t).Some?
    ensures SameSlots(s, Resize(s, t).value, t)
  {
    var s2 := Resize(s, t).value;
    match s.At(t)
    case LockExclusive(c, i) => GoingOnKeepsSlots(s, s2, t, ResizeDrivers(c, i));
    case ResizeDrivers(c, i) =>
      GoingOnKeepsSlots(s, s2, t, if i >= s.allocators then ResizeMutexes(c, i) else UnlockExclusive(c, i));
    case ResizeMutexes(c, i) => GoingOnKeepsSlots(s, s2, t, ResizeAllocators(c, i));
    case ResizeAllocators(c, i) => GoingOnKeepsSlots(s, s2, t, UnlockExclusive(c, i));
    case UnlockExclusive(c, i) => GoingOnKeepsSlots(s, s2, t, RelockShared(c, i));
  }

  /** The locks do not touch the slots. */
  lemma LocksKeepSlots(s: State, t: Thread, call: Call)
    requires Step(s, t, call).Some? && Knows(s.At(t)) && !s.At(t).EmplaceReverse?
    ensures SameSlots(s, Step(s, t, call).value, t)
  {
    if s.At(t).LockExclusive? || HoldsExclusive(s.At(t)) {
      ResizeKeepsSlots(s, t);
    } else {
      ShareKeepsSlots(s, t);
    }
  }

  /** Every step but a claim leaves the slots as they are and knows a slot rightly. */
  lemma StepKeepsSlots(s: State, t: Thread, call: Call)
    requires Step(s, t, call).Some? && KnowsRightly(s, s.At(t))
    requires s.At(t).TryEmplace? ==> s.At(t).call.symbol in s.valueToSlot
    ensures var s2 := Step(s, t, call).value;
            && Moves(s, s2, t) && s2.valueToSlot == s.valueToSlot && s.nextSlot <= s2.nextSlot && KnowsRightly(s, s2.At(t))
            && (s2.At(t).TryEmplace? ==> s2.At(t).slot == s.nextSlot < s2.nextSlot)
            && !s2.At(t).EmplaceReverse?
  {
    if !Knows(s.At(t)) || s.At(t).EmplaceReverse? {
      LookKeepsSlots(s, t, call);
    } else {
      LocksKeepSlots(s, t, call);
    }
  }

  lemma ClaimStep(s: State, t: Thread, call: Call)
    requires Step(s, t, call).Some? && s.At(t).TryEmplace? && s.At(t).call.symbol !in s.valueToSlot
    ensures var pc := s.At(t);
            Step(s, t, call).value == s.(valueToSlot := s.valueToSlot[pc.call.symbol := pc.slot],
                                         threads := s.threads[t := EmplaceReverse(pc.call, pc.slot)])
  {
  }

  lemma SlotsStayGiven(s: State, t: Thread, call: Call)
    requires SlotsGiven(s) && CandidatesFresh(s) && Step(s, t, call).Some?
    ensures SlotsGiven(Step(s, t, call).value)
  {
    if s.At(t).TryEmplace? && s.At(t).call.symbol !in s.valueToSlot {
      ClaimStep(s, t, call);
      SlotsAfterClaim(s, t, s.At(t).call, s.At(t).slot);
    } else {
      StepKeepsSlots(s, t, call);
      SlotsAfterMove(s, Step(s, t, call).value, t);
    }
  }

  lemma SlotsAfterMove(s: State, s2: State, t: Thread)
    requires SlotsGiven(s) && Moves(s, s2, t)
    requires s2.valueToSlot == s.valueToSlot && s.nextSlot <= s2.nextSlot && KnowsRightly(s, s2.At(t))
    ensures SlotsGiven(s2)
  {
    forall u: Thread | u != t ensures s2.At(u) == s.At(u) {}
  }

  lemma SlotsAfterClaim(s: State, t: Thread, c: Call, i: nat)
    requires SlotsGiven(s) && CandidatesFresh(s) && s.At(t) == TryEmplace(c, i) && c.symbol !in s.valueToSlot
    ensures SlotsGiven(s.(valueToSlot := s.valueToSlot[c.symbol := i], threads := s.threads[t := EmplaceReverse(c, i)]))
  {
    var s2 := s.(valueToSlot := s.valueToSlot[c.symbol := i], threads := s.threads[t := EmplaceReverse(c, i)]);
    forall u: Thread | u != t ensures s2.At(u) == s.At(u) {}
  }

  lemma CandidatesStayFresh(s: State, t: Thread, call: Call)
    requires SlotsGiven(s) && CandidatesFresh(s) && Step(s, t, call).Some?
    ensures CandidatesFresh(Step(s, t, call).value)
  {
    var s2 := Step(s, t, call).value;
    if s.At(t).TryEmplace? && s.At(t).call.symbol !in s.valueToSlot {
      ClaimStep(s, t, call);
      forall u: Thread | u != t ensures s2.At(u) == s.At(u) {}
    } else {
      StepKeepsSlots(s, t, call);
      CandidatesAfterMove(s, s2, t);
    }
  }

  lemma CandidatesAfterMove(s: State, s2: State, t: Thread)
    requires SlotsGiven(s) && CandidatesFresh(s) && Moves(s, s2, t) && s2.valueToSlot == s.valueToSlot && s.nextSlot <= s2.nextSlot
    requires s2.At(t).TryEmplace? ==> s2.At(t).slot == s.nextSlot < s2.nextSlot
    ensures CandidatesFresh(s2)
  {
    forall u: Thread | u != t ensures s2.At(u) == s.At(u) {}
  }

  lemma ReverseStep(s: State, t: Thread, call: Call)
    requires s.At(t).EmplaceReverse? && s.At(t).slot !in s.slotToValue && Step(s, t, call).Some?
    ensures var pc := s.At(t);
            Step(s, t, call).value == s.(slotToValue := s.slotToValue[pc.slot := pc.call.symbol],
                                         threads := s.threads[t := LockShared(pc.call, pc.slot)])
  {
  }

  lemma ReverseStaysInAgreement(s: State, t: Thread, call: Call)
    requires SlotsGiven(s) && CandidatesFresh(s) && ReverseAgrees(s) && Step(s, t, call).Some?
    ensures ReverseAgrees(Step(s, t, call).value)
  {
    if s.At(t).TryEmplace? && s.At(t).call.symbol !in s.valueToSlot {
      ClaimStep(s, t, call);
      ReverseAfterClaim(s, t, s.At(t).call, s.At(t).slot);
    } else if s.At(t).EmplaceReverse? {
      ReverseStep(s, t, call);
      ReverseAfterEmplace(s, t, s.At(t).call, s.At(t).slot);
    } else {
      StepKeepsSlots(s, t, call);
      StepKeepsReverse(s, t, call);
      ReverseAfterMove(s, Step(s, t, call).value, t);
    }
  }

  lemma StepKeepsReverse(s: State, t: Thread, call: Call)
    requires Step(s, t, call).Some? && !s.At(t).EmplaceReverse?
    ensures Step(s, t, call).value.slotToValue == s.slotToValue
  {
    if Knows(s.At(t)) {
      LocksKeepSlots(s, t, call);
    }
  }

  lemma ReverseAfterMove(s: State, s2: State, t: Thread)
    requires ReverseAgrees(s) && Moves(s, s2, t) && s2.valueToSlot == s.valueToSlot && s2.slotToValue == s.slotToValue
    requires !s.At(t).EmplaceReverse? && !s2.At(t).EmplaceReverse?
    ensures ReverseAgrees(s2)
  {
    forall u: Thread | u != t ensures s2.At(u) == s.At(u) {}
    forall a | a in s2.valueToSlot
      ensures s2.valueToSlot[a] in s2.slotToValue || Claimed(s2, s2.valueToSlot[a])
    {
      if Claimed(s, s.valueToSlot[a]) {
        ClaimStays(s, s2, t, s.valueToSlot[a]);
      }
    }
  }

  lemma ClaimStays(s: State, s2: State, t: Thread, i: nat)
    requires Claimed(s, i) && Moves(s, s2, t) && (s.At(t).EmplaceReverse? ==> s.At(t).slot != i)
    ensures Claimed(s2, i)
  {
    var u: Thread :| s.At(u).EmplaceReverse? && s.At(u).slot == i;
    assert s2.At(u) == s.At(u);
  }

  lemma SlotsShowAfterClaim(s: State, s2: State, t: Thread, c: Call, i: nat)
    requires EverySlotShows(s) && Moves(s, s2, t) && s.At(t) == TryEmplace(c, i) && s2.At(t) == EmplaceReverse(c, i)
    requires s2.slotToValue == s.slotToValue && s2.valueToSlot == s.valueToSlot[c.symbol := i]
    ensures EverySlotShows(s2)
  {
    assert Claimed(s2, i);
    forall a | a in s2.valueToSlot
      ensures s2.valueToSlot[a] in s2.slotToValue || Claimed(s2, s2.valueToSlot[a])
    {
      if a != c.symbol && Claimed(s, s.valueToSlot[a]) {
        ClaimStays(s, s2, t, s.valueToSlot[a]);
      }
    }
  }

  lemma ReverseAfterClaim(s: State, t: Thread, c: Call, i: nat)
    requires SlotsGiven(s) && CandidatesFresh(s) && ReverseAgrees(s) && s.At(t) == TryEmplace(c, i) && c.symbol !in s.valueToSlot
    ensures ReverseAgrees(s.(valueToSlot := s.valueToSlot[c.symbol := i], threads := s.threads[t := EmplaceReverse(c, i)]))
  {
    var s2 := s.(valueToSlot := s.valueToSlot[c.symbol := i], threads := s.threads[t := EmplaceReverse(c, i)]);
    forall u: Thread | u != t ensures s2.At(u) == s.At(u) {}
    assert i !in s.slotToValue;
    assert s2.At(t).EmplaceReverse? && s2.At(t).slot == i;
    SlotsShowAfterClaim(s, s2, t, c, i);
  }

  lemma SlotsShowAfterEmplace(s: State, s2: State, t: Thread, c: Call, i: nat)
    requires EverySlotShows(s) && Moves(s, s2, t) && s.At(t) == EmplaceReverse(c, i)
    requires s2.valueToSlot == s.valueToSlot && s2.slotToValue == s.slotToValue[i := c.symbol]
    ensures EverySlotShows(s2)
  {
    forall a | a in s2.valueToSlot
      ensures s2.valueToSlot[a] in s2.slotToValue || Claimed(s2, s2.valueToSlot[a])
    {
      if s.valueToSlot[a] !in s2.slotToValue {
        ClaimStays(s, s2, t, s.valueToSlot[a]);
      }
    }
  }

  lemma ReverseAfterEmplace(s: State, t: Thread, c: Call, i: nat)
    requires SlotsGiven(s) && ReverseAgrees(s) && s.At(t) == EmplaceReverse(c, i)
    ensures ReverseAgrees(s.(slotToValue := s.slotToValue[i := c.symbol], threads := s.threads[t := LockShared(c, i)]))
  {
    var s2 := s.(slotToValue := s.slotToValue[i := c.symbol], threads := s.threads[t := LockShared(c, i)]);
    forall u: Thread | u != t ensures s2.At(u) == s.At(u) {}
    SlotsShowAfterEmplace(s, s2, t, c, i);
  }

  /** What a thread's own step does to the locks. */
  ghost predicate LocksMove(s: State, s2: State, t: Thread) {
    var pc, pc2 := s.At(t), s2.At(t);
    && Moves(s, s2, t)
    && s2.readers == (if HoldsShared(pc2) then s.readers + {t} else s.readers - {t})
    && s2.writer == (if HoldsExclusive(pc2) then Some(t) else if HoldsExclusive(pc) then None else s.writer)
    && (HoldsExclusive(pc2) && !HoldsExclusive(pc) ==> s.writer.None?)
    && (s2.writer.Some? ==> s2.readers == {})
    && (if pc2.InSlot? then !pc.InSlot? && pc2.slot !in s.holders && s2.holders == s.holders[pc2.slot := t]
        else if pc.InSlot? then s2.holders == s.holders - {pc.slot}
        else s2.holders == s.holders)
  }

  lemma LocksAfter(s: State, s2: State, t: Thread)
    requires LocksHeld(s) && LocksMove(s, s2, t)
    ensures LocksHeld(s2)
  {
    forall u: Thread | u != t ensures s2.At(u) == s.At(u) {}
  }

  lemma LookMovesLocks(s: State, t: Thread, call: Call)
    requires LocksHeld(s) && (!Knows(s.At(t)) || s.At(t).EmplaceReverse?)
    ensures LocksMove(s, Look(s, t, call), t)
  {
    assert t !in s.readers;
  }

  lemma ShareMovesLocks(s: State, t: Thread)
    requires LocksHeld(s) && (s.At(t).LockShared? || HoldsShared(s.At(t)) || s.At(t).RelockShared?)
    requires Share(s, t).Some?
    ensures LocksMove(s, Share(s, t).value, t)
  {
    assert t in s.readers <==> HoldsShared(s.At(t));
    var s2 := Share(s, t).value;
    match s.At(t)
    case LockShared(c, i) => assert s2.At(t) == CheckSizes(c, i);
    case CheckSizes(c, i) => assert s2.At(t) == if i >= s.Size(c.vector) || i >= s.allocators then LockExclusive(c, i) else LockSlot(c, i);
    case RelockShared(c, i) => assert s2.At(t) == LockSlot(c, i);
    case LockSlot(c, i) => assert s2.At(t) == InSlot(c, i);
    case InSlot(_, _) => assert s2.At(t) == Idle;
  }

  lemma ResizeMovesLocks(s: State, t: Thread)
    requires LocksHeld(s) && (s.At(t).LockExclusive? || HoldsExclusive(s.At(t)))
    requires Resize(s, t).Some?
    ensures LocksMove(s, Resize(s, t).value, t)
  {
    assert t in s.readers <==> HoldsShared(s.At(t));
    assert s.writer == Some(t) <==> HoldsExclusive(s.At(t));
  }

  lemma LocksStayHeld(s: State, t: Thread, call: Call)
    requires LocksHeld(s) && Step(s, t, call).Some?
    ensures LocksHeld(Step(s, t, call).value)
  {
    var pc := s.At(t);
    if !Knows(pc) || pc.EmplaceReverse? {
      LookMovesLocks(s, t, call);
    } else if pc.LockExclusive? || HoldsExclusive(pc) {
      ResizeMovesLocks(s, t);
    } else {
      ShareMovesLocks(s, t);
    }
    LocksAfter(s, Step(s, t, call).value, t);
  }

  /** Sizes only grow, and change only under the exclusive lock. */
  ghost predicate SizesMove(s: State, s2: State, t: Thread) {
    && Moves(s, s2, t) && s.allocators <= s2.allocators && s.mutexes <= s2.mutexes && s2.allocators <= s2.mutexes
    && (forall v :: s.Size(v) <= s2.Size(v))
    && (HoldsExclusive(s.At(t)) || (s2.allocators == s.allocators && s2.mutexes == s.mutexes))
    && (s2.At(t).ResizeAllocators? || s2.mutexes == s2.allocators
        || (!s.At(t).ResizeAllocators? && s2.mutexes == s.mutexes && s2.allocators == s.allocators))
    && PcFits(s2, s2.At(t))
  }

  lemma SizesAfter(s: State, s2: State, t: Thread)
    requires LocksHeld(s) && SizesFit(s) && SizesMove(s, s2, t)
    ensures SizesFit(s2)
  {
    forall u: Thread | u != t
      ensures s2.At(u) == s.At(u) && PcFits(s2, s2.At(u))
    {
      assert PcFits(s, s.At(u));
      if HoldsExclusive(s.At(u)) {
        assert s.writer == Some(u);
        assert !HoldsExclusive(s.At(t));
      }
    }
    if forall u: Thread {:trigger s2.At(u)} :: !s2.At(u).ResizeAllocators? {
      forall u: Thread | u != t ensures !s.At(u).ResizeAllocators? { assert s2.At(u) == s.At(u); }
    }
  }

  lemma OnlyOneResizes(s: State, t: Thread)
    requires LocksHeld(s) && SizesFit(s) && HoldsExclusive(s.At(t)) && !s.At(t).ResizeAllocators?
    ensures s.mutexes == s.allocators
  {
    forall u: Thread ensures !s.At(u).ResizeAllocators? {
      assert s.writer == Some(t);
    }
  }

  lemma LookMovesSizes(s: State, t: Thread, call: Call)
    requires SizesFit(s) && (!Knows(s.At(t)) || s.At(t).EmplaceReverse?)
    ensures SizesMove(s, Look(s, t, call), t)
  {
    assert PcFits(s, s.At(t));
  }

  lemma ShareMovesSizes(s: State, t: Thread)
    requires SizesFit(s) && (s.At(t).LockShared? || HoldsShared(s.At(t)) || s.At(t).RelockShared?)
    requires Share(s, t).Some?
    ensures SizesMove(s, Share(s, t).value, t)
  {
    assert PcFits(s, s.At(t));
  }

  lemma ResizeMovesSizes(s: State, t: Thread)
    requires LocksHeld(s) && SizesFit(s) && (s.At(t).LockExclusive? || HoldsExclusive(s.At(t)))
    requires Resize(s, t).Some?
    ensures SizesMove(s, Resize(s, t).value, t)
  {
    assert PcFits(s, s.At(t));
    if HoldsExclusive(s.At(t)) && !s.At(t).ResizeAllocators? {
      OnlyOneResizes(s, t);
    }
  }

  lemma SizesStayFit(s: State, t: Thread, call: Call)
    requires LocksHeld(s) && SizesFit(s) && Step(s, t, call).Some?
    ensures SizesFit(Step(s, t, call).value)
  {
    var pc := s.At(t);
    if !Knows(pc) || pc.EmplaceReverse? {
      LookMovesSizes(s, t, call);
    } else if pc.LockExclusive? || HoldsExclusive(pc) {
      ResizeMovesSizes(s, t);
    } else {
      ShareMovesSizes(s, t);
    }
    SizesAfter(s, Step(s, t, call).value, t);
  }

  lemma StepKeepsInv(s: State, t: Thread, call: Call)
    requires Inv(s) && Step(s, t, call).Some?
    ensures Inv(Step(s, t, call).value)
  {
    SlotsStayGiven(s, t, call);
    CandidatesStayFresh(s, t, call);
    ReverseStaysInAgreement(s, t, call);
    LocksStayHeld(s, t, call);
    SizesStayFit(s, t, call);
  }

  /** A schedule: which thread goes next, and the call it begins when it is idle. A waiting thread's turn passes. */
  function Run(s: State, schedule: seq<(Thread, Call)>): State
    decreases |schedule|
  {
    if schedule == [] then s
    else
      var next := Step(s, schedule[0].0, schedule[0].1);
      Run(if next.Some? then next.value else s, schedule[1..])
  }

  lemma {:induction false} RunKeepsInv(s: State, schedule: seq<(Thread, Call)>)
    requires Inv(s)
    ensures Inv(Run(s, schedule))
    decreases |schedule|
  {
    if schedule != [] {
      var next := Step(s, schedule[0].0, schedule[0].1);
      if next.Some? {
        StepKeepsInv(s, schedule[0].0, schedule[0].1);
        RunKeepsInv(next.value, schedule[1..]);
      } else {
        RunKeepsInv(s, schedule[1..]);
      }
    }
  }

  /** After any schedule of any threads, no two symbols share a slot. */
  lemma EachSymbolHasItsOwnSlot(schedule: seq<(Thread, Call)>, a: Symbol, b: Symbol)
    requires var s := Run(Start(), schedule); a in s.valueToSlot && b in s.valueToSlot && a != b
    ensures var s := Run(Start(), schedule); s.valueToSlot[a] != s.valueToSlot[b]
  {
    RunKeepsInv(Start(), schedule);
  }

  /** A slot once given is never taken back or changed: every thread that asks for the symbol gets the same one. */
  lemma {:induction false} SlotsAreForGood(s: State, schedule: seq<(Thread, Call)>, a: Symbol)
    requires Inv(s) && a in s.valueToSlot
    ensures var s2 := Run(s, schedule); a in s2.valueToSlot && s2.valueToSlot[a] == s.valueToSlot[a]
    decreases |schedule|
  {
    if schedule != [] {
      var (t, call) := schedule[0];
      var next := Step(s, t, call);
      if next.Some? {
        StepKeepsInv(s, t, call);
        if s.At(t).TryEmplace? && s.At(t).call.symbol !in s.valueToSlot {
          ClaimStep(s, t, call);
        } else {
          StepKeepsSlots(s, t, call);
        }
        SlotsAreForGood(next.value, schedule[1..], a);
      } else {
        SlotsAreForGood(s, schedule[1..], a);
      }
    }
  }

  /** Once no thread is about to enter its claim, the reverse map is the inverse. */
  lemma ReverseIsInverse(schedule: seq<(Thread, Call)>, a: Symbol, i: nat)
    requires forall t: Thread :: !Run(Start(), schedule).At(t).EmplaceReverse?
    ensures var s := Run(Start(), schedule);
            a in s.valueToSlot && s.valueToSlot[a] == i <==> i in s.slotToValue && s.slotToValue[i] == a
  {
    RunKeepsInv(Start(), schedule);
  }

  /** Whenever a thread takes a slot lock, or holds it, its slot is inside all three vectors, and no thread is resizing. */
  lemma SlotIsInside(schedule: seq<(Thread, Call)>, t: Thread)
    requires var pc := Run(Start(), schedule).At(t); pc.LockSlot? || pc.InSlot?
    ensures var s := Run(Start(), schedule); Inside(s, s.At(t).call.vector, s.At(t).slot) && forall u: Thread :: !HoldsExclusive(s.At(u))
  {
    RunKeepsInv(Start(), schedule);
    var s := Run(Start(), schedule);
    assert t in s.readers;
    forall u: Thread ensures !HoldsExclusive(s.At(u)) { assert HoldsExclusive(s.At(u)) ==> s.writer == Some(u); }
    assert PcFits(s, s.At(t));
  }

  /** No two threads work on one slot at a time. */
  lemma OneThreadPerSlot(schedule: seq<(Thread, Call)>, t: Thread, u: Thread)
    requires var s := Run(Start(), schedule); s.At(t).InSlot? && s.At(u).InSlot? && s.At(t).slot == s.At(u).slot
    ensures t == u
  {
    RunKeepsInv(Start(), schedule);
    var s := Run(Start(), schedule);
    assert s.holders[s.At(t).slot] == t && s.holders[s.At(u).slot] == u;
  }

  lemma ExclusiveGoesOn(s: State, u: Thread, call: Call)
    requires HoldsExclusive(s.At(u))
    ensures Step(s, u, call).Some?
  {
    assert Step(s, u, call) == Resize(s, u);
  }

  lemma SharedGoesOn(s: State, u: Thread, call: Call)
    requires HoldsShared(s.At(u)) && (s.At(u).LockSlot? ==> s.At(u).slot !in s.holders)
    ensures Step(s, u, call).Some?
  {
    assert Step(s, u, call) == Share(s, u);
  }

  lemma WaitsForALock(s: State, t: Thread, call: Call)
    requires Step(s, t, call).None?
    ensures s.writer.Some? || (s.At(t).LockExclusive? && s.readers != {}) || (s.At(t).LockSlot? && s.At(t).slot in s.holders)
  {
    if s.At(t).LockExclusive? || HoldsExclusive(s.At(t)) {
      assert Step(s, t, call) == Resize(s, t);
    } else if Knows(s.At(t)) && !s.At(t).EmplaceReverse? {
      assert Step(s, t, call) == Share(s, t);
    }
  }

  /** A thread waits only for one that is in the middle of a call and can go on: there is no deadlock. */
  lemma SomeoneCanGoOn(s: State, t: Thread, call: Call) returns (u: Thread)
    requires LocksHeld(s) && Step(s, t, call).None?
    ensures !s.At(u).Idle? && Step(s, u, call).Some?
  {
    WaitsForALock(s, t, call);
    u := t;
    if s.writer.Some? {
      u := s.writer.value;
      ExclusiveGoesOn(s, u, call);
    } else {
      if s.At(t).LockExclusive? {
        u :| u in s.readers;
      }
      if s.At(u).LockSlot? && s.At(u).slot in s.holders {
        u := s.holders[s.At(u).slot];
      }
      SharedGoesOn(s, u, call);
    }
  }
}
