/**
  What resolving pending r-values means bit by bit (source/PendingRvalueQueue.cpp): which
  bits of which drivers an entry asks for, and that the edges end up with exactly those.
  */
module ResolutionMeaning {
  import opened BitRanges
  import opened Dependencies
  import opened Netlist
  import opened ParallelResolution
  import opened PendingRvalues
  import opened Wrappers

  /** Node `s` passes on bit `b` of a range: where its own bounds meet the range, only its own bits. */
  ghost predicate Passes(env: Drivers, s: Node, range: BitRange, b: int) {
    var own := Own(env, s);
    range.Has(b) && (own.Some? && (exists c :: range.Has(c) && own.value.Has(c)) ==> own.value.Has(b))
  }

  /** The interval drives some of the bits the entry reads, `s` is one of its drivers, and `s` passes on bit `b` of them. */
  ghost predicate Serves(env: Drivers, p: Pending, iv: Driven, s: Node, b: int) {
    Some(s) in iv.drivers
    && match iv.bounds.Intersection(p.bounds)
       case None => false
       case Some(common) => Passes(env, s, common, b)
  }

  /** The entry reads bit `b` from `s`: its state variable if one has exactly its range, else a driver of an interval. */
  ghost predicate ReadsFrom(env: Drivers, p: Pending, s: Node, b: int) {
    if (p.symbol, p.bounds) in env.states then s == env.states[(p.symbol, p.bounds)] && Passes(env, s, p.bounds, b)
    else p.symbol in env.intervals && exists iv :: iv in env.intervals[p.symbol] && Serves(env, p, iv, s, b)
  }

  /** The entry asks for bit `b` of symbol `y` from `s` to `t`. */
  ghost predicate Asks(env: Drivers, p: Pending, s: Node, t: Node, y: SymbolReference, b: int) {
    p.node == Some(t) && Reference(env, p.symbol) == Some(y) && ReadsFrom(env, p, s, b)
  }

  lemma {:induction false} InFromDrivers(env: Drivers, p: Pending, drivers: seq<Option<Node>>, common: BitRange, e: Emission)
    requires p.node.Some?
    ensures e in FromDrivers(env, p, drivers, common) <==> Some(e.source) in drivers && e == Emit(env, p, e.source, common)
    decreases |drivers|
  {
    if drivers != [] {
      var n := |drivers| - 1;
      InFromDrivers(env, p, drivers[..n], common, e);
      assert drivers == drivers[..n] + [drivers[n]];
    }
  }

  /** The emission is one the interval gives rise to. */
  ghost predicate GivenBy(env: Drivers, p: Pending, iv: Driven, e: Emission)
    requires p.node.Some?
  {
    var common := iv.bounds.Intersection(p.bounds);
    common.Some? && Some(e.source) in iv.drivers && e == Emit(env, p, e.source, common.value)
  }

  lemma {:induction false} InFromIntervals(env: Drivers, p: Pending, intervals: seq<Driven>, e: Emission)
    requires p.node.Some?
    ensures e in FromIntervals(env, p, intervals) <==> exists iv :: iv in intervals && GivenBy(env, p, iv, e)
    decreases |intervals|
  {
    if intervals != [] {
      var n := |intervals| - 1;
      var front, last := intervals[..n], intervals[n];
      InFromIntervals(env, p, front, e);
      assert intervals == front + [last];
      assert forall iv :: iv in intervals <==> iv in front || iv == last;
      var common := last.bounds.Intersection(p.bounds);
      if common.Some? {
        InFromDrivers(env, p, last.drivers, common.value, e);
        assert e in FromDrivers(env, p, last.drivers, common.value) <==> GivenBy(env, p, last, e);
        assert e in FromIntervals(env, p, intervals) <==> e in FromIntervals(env, p, front) || GivenBy(env, p, last, e);
      } else {
        assert !GivenBy(env, p, last, e);
      }
    }
  }

  /** An emission of the entry from `s` to `t` that carries the bit. */
  ghost predicate Carries(es: seq<Emission>, s: Node, t: Node, y: SymbolReference, b: int) {
    exists e :: e in es && e.source == s && e.target == t && Adds(e.d, y, b)
  }

  lemma EmitCarries(env: Drivers, p: Pending, s: Node, range: BitRange, t: Node, y: SymbolReference, b: int)
    requires p.node.Some?
    ensures var e := Emit(env, p, s, range);
            e.target == t && Adds(e.d, y, b) <==> p.node == Some(t) && Reference(env, p.symbol) == Some(y) && Passes(env, s, range, b)
  {
    WithinOwnHas(range, Own(env, s), b);
  }

  /** The dependencies added for an entry carry exactly the bits it asks for. */
  lemma EmissionsAreAskedFor(env: Drivers, p: Pending, s: Node, t: Node, y: SymbolReference, b: int)
    ensures Carries(Emissions(env, p), s, t, y, b) <==> Asks(env, p, s, t, y, b)
  {
    if p.node.None? {
    } else if (p.symbol, p.bounds) in env.states {
      var e := Emit(env, p, env.states[(p.symbol, p.bounds)], p.bounds);
      EmitCarries(env, p, e.source, p.bounds, t, y, b);
      assert e in Emissions(env, p);
    } else if p.symbol in env.intervals {
      IntervalsAreAskedFor(env, p, env.intervals[p.symbol], s, t, y, b);
    }
  }

  lemma IntervalsAreAskedFor(env: Drivers, p: Pending, intervals: seq<Driven>, s: Node, t: Node, y: SymbolReference, b: int)
    requires p.node.Some?
    ensures Carries(FromIntervals(env, p, intervals), s, t, y, b)
            <==> p.node == Some(t) && Reference(env, p.symbol) == Some(y) && exists iv :: iv in intervals && Serves(env, p, iv, s, b)
  {
    var es := FromIntervals(env, p, intervals);
    if Carries(es, s, t, y, b) {
      var e :| e in es && e.source == s && e.target == t && Adds(e.d, y, b);
      InFromIntervals(env, p, intervals, e);
      var iv :| iv in intervals && GivenBy(env, p, iv, e);
      EmitCarries(env, p, s, iv.bounds.Intersection(p.bounds).value, t, y, b);
      assert Serves(env, p, iv, s, b);
    }
    if p.node == Some(t) && Reference(env, p.symbol) == Some(y) {
      if iv :| iv in intervals && Serves(env, p, iv, s, b) {
        var common := iv.bounds.Intersection(p.bounds).value;
        var e := Emit(env, p, s, common);
        EmitCarries(env, p, s, common, t, y, b);
        assert GivenBy(env, p, iv, e);
        InFromIntervals(env, p, intervals, e);
      }
    }
  }

  lemma QueueIsAskedFor(env: Drivers, queue: seq<Pending>, s: Node, t: Node, y: SymbolReference, b: int)
    ensures Carries(EmitAll(env, queue), s, t, y, b) <==> exists p :: p in queue && Asks(env, p, s, t, y, b)
  {
    var es := EmitAll(env, queue);
    if Carries(es, s, t, y, b) {
      var e :| e in es && e.source == s && e.target == t && Adds(e.d, y, b);
      InEmitAll(env, queue, e);
      var p :| p in queue && e in Emissions(env, p);
      EmissionsAreAskedFor(env, p, s, t, y, b);
    }
    if p :| p in queue && Asks(env, p, s, t, y, b) {
      EmissionsAreAskedFor(env, p, s, t, y, b);
      var e :| e in Emissions(env, p) && e.source == s && e.target == t && Adds(e.d, y, b);
      InEmitAll(env, queue, e);
    }
  }

  lemma AddedIsCarried(es: seq<Emission>, s: Node, t: Node, y: SymbolReference, b: int)
    ensures (exists i :: 0 <= i < |For(es, s, t)| && Adds(For(es, s, t)[i], y, b)) <==> Carries(es, s, t, y, b)
  {
    var ds := For(es, s, t);
    if i :| 0 <= i < |ds| && Adds(ds[i], y, b) {
      InFor(es, s, t, ds[i]);
      assert Emission(s, t, ds[i]) in es;
    }
    if e :| e in es && e.source == s && e.target == t && Adds(e.d, y, b) {
      InFor(es, s, t, e.d);
      assert e == Emission(s, t, e.d) && e.d in ds;
    }
  }

  /**
    Working off a queue: two nodes whose dependencies all carry one symbol end with
    exactly the bits they had and those the entries ask for.
    */
  lemma ResolvingAddsWhatIsAskedFor(g: Labelling, env: Drivers, queue: seq<Pending>, s: Node, t: Node,
                                    sym: SymbolReference, y: SymbolReference, b: int)
    requires OneSymbol(Between(g, s, t), For(EmitAll(env, queue), s, t), sym)
    ensures Marks(Between(ApplyAll(g, EmitAll(env, queue)), s, t), y, b)
            <==> Marks(Between(g, s, t), y, b) || exists p :: p in queue && Asks(env, p, s, t, y, b)
  {
    var es := EmitAll(env, queue);
    PairSeesItsOwn(g, es, s, t);
    OneSymbolAccumulates(Between(g, s, t), For(es, s, t), sym, y, b);
    AddedIsCarried(es, s, t, y, b);
    QueueIsAskedFor(env, queue, s, t, y, b);
  }

  /** The workers, however they interleave, do the same. */
  lemma ParallelAddsWhatIsAskedFor(g: Labelling, env: Drivers, queue: seq<Pending>, sorted: seq<Pending>, starts: seq<nat>,
                                   trace: seq<Emission>, s: Node, t: Node, sym: SymbolReference, y: SymbolReference, b: int)
    requires multiset(queue) == multiset(sorted) && AreRuns(sorted, starts)
    requires IsInterleaving(trace, Threads(env, sorted, starts))
    requires OneSymbol(Between(g, s, t), For(EmitAll(env, queue), s, t), sym)
    ensures Marks(Between(ApplyAll(g, trace), s, t), y, b)
            <==> Marks(Between(g, s, t), y, b) || exists p :: p in queue && Asks(env, p, s, t, y, b)
  {
    ParallelAgreesWithSequential(g, env, queue, sorted, starts, trace, s, t, sym, y, b);
    ResolvingAddsWhatIsAskedFor(g, env, queue, s, t, sym, y, b);
  }

  /** The edge's kind, role, precision and symbol are those of a dependency with a symbol annotation. */
  predicate HasStampOf(l: EdgeLabel, d: Dependency) {
    d.Labelled? && IsStamped(l, d) && l.symbol == d.symbol
  }

  /** The k-th label is the one that was there, or one dependency has stamped it. */
  ghost predicate HasOneOrigin(was: seq<EdgeLabel>, now: seq<EdgeLabel>, k: nat, ds: seq<Dependency>)
    requires k < |now|
  {
    (k < |was| && now[k] == was[k]) || exists i :: 0 <= i < |ds| && HasStampOf(now[k], ds[i])
  }

  lemma OneStep(labels: seq<EdgeLabel>, d: Dependency, k: nat)
    requires d.Labelled? && k < |Depend(labels, d)|
    ensures (k < |labels| && Depend(labels, d)[k] == labels[k]) || HasStampOf(Depend(labels, d)[k], d)
    ensures Depend(labels, d)[k].disabled <==> k < |labels| && labels[k].disabled
  {
    DependTakes(labels, d);
  }

  /** Of several dependencies, each edge that changes ends with the stamp of one; none is enabled or disabled, none goes away. */
  lemma {:induction false} EachLabelHasOneOrigin(labels: seq<EdgeLabel>, ds: seq<Dependency>, k: nat)
    requires forall i :: 0 <= i < |ds| ==> ds[i].Labelled?
    ensures |labels| <= |DependAll(labels, ds)|
    ensures k < |DependAll(labels, ds)| ==>
              && HasOneOrigin(labels, DependAll(labels, ds), k, ds)
              && (DependAll(labels, ds)[k].disabled <==> k < |labels| && labels[k].disabled)
    decreases |ds|
  {
    if ds != [] {
      var next := Depend(labels, ds[0]);
      DependTakes(labels, ds[0]);
      EachLabelHasOneOrigin(next, ds[1..], k);
      if k < |DependAll(labels, ds)| {
        var l := DependAll(labels, ds)[k];
        if i :| 0 <= i < |ds[1..]| && HasStampOf(l, ds[1..][i]) {
          assert HasStampOf(l, ds[i + 1]);
        }
        if k < |next| {
          OneStep(labels, ds[0], k);
        }
      }
    }
  }

  /** The entry joins `s` to `t`: from its state variable if one has exactly its range, else from a driver of an interval it reads. */
  ghost predicate Joins(env: Drivers, p: Pending, s: Node, t: Node) {
    && p.node == Some(t)
    && if (p.symbol, p.bounds) in env.states then s == env.states[(p.symbol, p.bounds)]
       else p.symbol in env.intervals
            && exists iv :: iv in env.intervals[p.symbol] && Some(s) in iv.drivers && iv.bounds.Intersection(p.bounds).Some?
  }

  /** The edge's kind, precision and symbol are the entry's, and so is its role; a clocked one without a role of its own has role Event. */
  ghost predicate HasLabelsOf(env: Drivers, l: EdgeLabel, p: Pending) {
    && l.edgeKind == p.edgeKind && l.precision == p.precision && l.symbol == Reference(env, p.symbol)
    && l.role == if p.edgeKind != NoEdge && p.role == Data then Event else p.role
  }

  lemma StampIsTheEntrys(env: Drivers, p: Pending, s: Node, range: BitRange, l: EdgeLabel)
    requires p.node.Some?
    ensures HasStampOf(l, Emit(env, p, s, range).d) <==> HasLabelsOf(env, l, p)
  {
  }

  lemma EmissionJoins(env: Drivers, p: Pending, e: Emission, l: EdgeLabel)
    requires e in Emissions(env, p)
    ensures e.d.Labelled? && Joins(env, p, e.source, e.target) && (HasStampOf(l, e.d) <==> HasLabelsOf(env, l, p))
  {
    if (p.symbol, p.bounds) in env.states {
      StampIsTheEntrys(env, p, e.source, p.bounds, l);
    } else {
      InFromIntervals(env, p, env.intervals[p.symbol], e);
      var iv :| iv in env.intervals[p.symbol] && GivenBy(env, p, iv, e);
      StampIsTheEntrys(env, p, e.source, iv.bounds.Intersection(p.bounds).value, l);
    }
  }

  lemma DependencyIsAnEntrys(env: Drivers, queue: seq<Pending>, s: Node, t: Node, d: Dependency, l: EdgeLabel)
    requires d in For(EmitAll(env, queue), s, t)
    ensures d.Labelled? && exists p :: p in queue && Joins(env, p, s, t) && (HasStampOf(l, d) <==> HasLabelsOf(env, l, p))
  {
    InFor(EmitAll(env, queue), s, t, d);
    InEmitAll(env, queue, Emission(s, t, d));
    var p :| p in queue && Emission(s, t, d) in Emissions(env, p);
    EmissionJoins(env, p, Emission(s, t, d), l);
  }

  /** The k-th edge has the label it had, or its kind, role, precision and symbol are those of one entry that joins the two nodes. */
  ghost predicate IsExplained(env: Drivers, queue: seq<Pending>, s: Node, t: Node, was: seq<EdgeLabel>, now: seq<EdgeLabel>, k: nat)
    requires k < |now|
  {
    && (now[k].disabled <==> k < |was| && was[k].disabled)
    && ((k < |was| && now[k] == was[k]) || exists p :: p in queue && Joins(env, p, s, t) && HasLabelsOf(env, now[k], p))
  }

  /** Of a queue worked off, each edge is explained, and all the edges there were are still there. */
  lemma ResolvedLabelsAreExplained(g: Labelling, env: Drivers, queue: seq<Pending>, s: Node, t: Node)
    ensures var was, now := Between(g, s, t), Between(ApplyAll(g, EmitAll(env, queue)), s, t);
            |was| <= |now| && forall k :: 0 <= k < |now| ==> IsExplained(env, queue, s, t, was, now, k)
  {
    var was, now := Between(g, s, t), Between(ApplyAll(g, EmitAll(env, queue)), s, t);
    var ds := For(EmitAll(env, queue), s, t);
    PairSeesItsOwn(g, EmitAll(env, queue), s, t);
    forall i | 0 <= i < |ds| ensures ds[i].Labelled? { DependencyIsAnEntrys(env, queue, s, t, ds[i], NewLabel()); }
    EachLabelHasOneOrigin(was, ds, 0);
    forall k | 0 <= k < |now|
      ensures IsExplained(env, queue, s, t, was, now, k)
    {
      EachLabelHasOneOrigin(was, ds, k);
      if i :| 0 <= i < |ds| && HasStampOf(now[k], ds[i]) {
        DependencyIsAnEntrys(env, queue, s, t, ds[i], now[k]);
      }
    }
  }

  /** The workers, however they interleave, leave every edge explained as well. */
  lemma ParallelLabelsAreExplained(g: Labelling, env: Drivers, queue: seq<Pending>, sorted: seq<Pending>, starts: seq<nat>,
                                   trace: seq<Emission>, s: Node, t: Node)
    requires multiset(queue) == multiset(sorted) && AreRuns(sorted, starts)
    requires IsInterleaving(trace, Threads(env, sorted, starts))
    ensures var was, now := Between(g, s, t), Between(ApplyAll(g, trace), s, t);
            |was| <= |now| && forall k :: 0 <= k < |now| ==> IsExplained(env, queue, s, t, was, now, k)
  {
    var was, now := Between(g, s, t), Between(ApplyAll(g, trace), s, t);
    ThreadsAgree(g, env, sorted, starts, trace, s, t);
    ResolvedLabelsAreExplained(g, env, sorted, s, t);
    forall p ensures p in queue <==> p in sorted { assert p in multiset(queue) <==> p in multiset(sorted); }
    forall k | 0 <= k < |now|
      ensures IsExplained(env, queue, s, t, was, now, k)
    {
      assert IsExplained(env, sorted, s, t, was, now, k);
    }
  }

  lemma {:induction false} DependAllEndsWith(labels: seq<EdgeLabel>, ds: seq<Dependency>, d: Dependency)
    ensures DependAll(labels, ds + [d]) == Depend(DependAll(labels, ds), d)
    decreases |ds|
  {
    if ds == [] {
      assert [] + [d] == [d] && [d][1..] == [];
    } else {
      assert (ds + [d])[1..] == ds[1..] + [d];
      DependAllEndsWith(Depend(labels, ds[0]), ds[1..], d);
    }
  }

  lemma LastIsStamped(labels: seq<EdgeLabel>, ds: seq<Dependency>) returns (k: nat)
    requires ds != [] && ds[|ds| - 1].Labelled?
    ensures k < |DependAll(labels, ds)| && HasStampOf(DependAll(labels, ds)[k], ds[|ds| - 1])
  {
    var front, d := ds[..|ds| - 1], ds[|ds| - 1];
    assert ds == front + [d];
    DependAllEndsWith(labels, front, d);
    DependTakes(DependAll(labels, front), d);
    k := Taker(|DependAll(labels, front)|, |DependAll(labels, ds)|);
  }

  lemma JoiningEmits(env: Drivers, p: Pending, s: Node, t: Node)
    requires Joins(env, p, s, t)
    ensures For(Emissions(env, p), s, t) != []
  {
    var e;
    if (p.symbol, p.bounds) in env.states {
      e := Emit(env, p, s, p.bounds);
      assert e in Emissions(env, p);
    } else {
      var iv :| iv in env.intervals[p.symbol] && Some(s) in iv.drivers && iv.bounds.Intersection(p.bounds).Some?;
      e := Emit(env, p, s, iv.bounds.Intersection(p.bounds).value);
      assert GivenBy(env, p, iv, e);
      InFromIntervals(env, p, env.intervals[p.symbol], e);
    }
    InFor(Emissions(env, p), s, t, e.d);
  }

  lemma NoneJoinsNothingEmitted(env: Drivers, queue: seq<Pending>, s: Node, t: Node)
    requires forall i :: 0 <= i < |queue| ==> !Joins(env, queue[i], s, t)
    ensures For(EmitAll(env, queue), s, t) == []
  {
    var ds := For(EmitAll(env, queue), s, t);
    if ds != [] {
      DependencyIsAnEntrys(env, queue, s, t, ds[0], NewLabel());
    }
  }

  lemma EndsWithEntry(env: Drivers, front: seq<Pending>, p: Pending, back: seq<Pending>, s: Node, t: Node)
    requires forall i :: 0 <= i < |back| ==> !Joins(env, back[i], s, t)
    ensures For(EmitAll(env, front + ([p] + back)), s, t) == For(EmitAll(env, front), s, t) + For(Emissions(env, p), s, t)
  {
    EmitAllAdds(env, front, [p] + back);
    EmitAllAdds(env, [p], back);
    assert [p][..0] == [];
    assert EmitAll(env, [p]) == Emissions(env, p);
    ForAdds(EmitAll(env, front), EmitAll(env, [p]) + EmitAll(env, back), s, t);
    ForAdds(EmitAll(env, [p]), EmitAll(env, back), s, t);
    NoneJoinsNothingEmitted(env, back, s, t);
  }

  /** Of a queue worked off, the last entry that joins two nodes has the last word: one of their edges has its labels. */
  lemma LastEntryHasTheLastWord(g: Labelling, env: Drivers, queue: seq<Pending>, i: nat, s: Node, t: Node) returns (k: nat)
    requires i < |queue| && Joins(env, queue[i], s, t) && forall j :: i < j < |queue| ==> !Joins(env, queue[j], s, t)
    ensures var now := Between(ApplyAll(g, EmitAll(env, queue)), s, t); k < |now| && HasLabelsOf(env, now[k], queue[i])
  {
    var front, p, back := queue[..i], queue[i], queue[i + 1..];
    assert queue == front + ([p] + back);
    EndsWithEntry(env, front, p, back, s, t);
    JoiningEmits(env, p, s, t);
    var ds, own := For(EmitAll(env, queue), s, t), For(Emissions(env, p), s, t);
    var last := ds[|ds| - 1];
    assert last == own[|own| - 1] && last in own;
    InFor(Emissions(env, p), s, t, last);
    EmissionJoins(env, p, Emission(s, t, last), NewLabel());
    PairSeesItsOwn(g, EmitAll(env, queue), s, t);
    k := LastIsStamped(Between(g, s, t), ds);
    EmissionJoins(env, p, Emission(s, t, last), DependAll(Between(g, s, t), ds)[k]);
  }
}
