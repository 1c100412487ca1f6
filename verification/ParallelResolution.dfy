/**
  Resolution by worker threads (PendingRvalueQueue::resolveParallel in
  source/PendingRvalueQueue.cpp): the queue sorted by target is cut into runs of one
  target, and each run is worked off by one thread.
  */
module ParallelResolution {
  import opened BitRanges
  import opened Dependencies
  import opened Netlist
  import opened PendingRvalues
  import opened Wrappers

  /** Entries without a target come first, the others in the order of their targets. */
  function Key(p: Pending): nat {
    if p.node.None? then 0 else p.node.value + 1
  }

  ghost predicate SortedByTarget(queue: seq<Pending>) {
    forall i, j :: 0 <= i < j < |queue| ==> Key(queue[i]) <= Key(queue[j])
  }

  /** Run `r` is queue[starts[r]..starts[r + 1]]. */
  ghost predicate IsRun(queue: seq<Pending>, lo: nat, hi: nat) {
    && lo < hi <= |queue| && queue[lo].node.Some?
    && (forall i :: lo <= i < hi ==> queue[i].node == queue[lo].node)
    && (forall i :: 0 <= i < lo || hi <= i < |queue| ==> queue[i].node != queue[lo].node)
  }

  ghost predicate RunAt(queue: seq<Pending>, starts: seq<nat>, r: nat)
    requires r + 1 < |starts|
  {
    IsRun(queue, starts[r], starts[r + 1])
  }

  /** The runs cover the entries that have a target, and each holds all entries of its target. */
  ghost predicate AreRuns(queue: seq<Pending>, starts: seq<nat>) {
    && |starts| != 1
    && (starts == [] ==> forall i :: 0 <= i < |queue| ==> queue[i].node.None?)
    && (starts != [] ==> starts[|starts| - 1] == |queue| && starts[0] < |queue|
                         && forall i :: 0 <= i < starts[0] ==> queue[i].node.None?)
    && (forall r {:trigger RunAt(queue, starts, r)} :: 0 <= r < |starts| - 1 ==> RunAt(queue, starts, r))
  }

  method FindFirstReal(queue: seq<Pending>) returns (i: nat)
    ensures i <= |queue| && (i < |queue| ==> queue[i].node.Some?) && forall j :: 0 <= j < i ==> queue[j].node.None?
  {
    i := 0;
    while i < |queue| && queue[i].node.None?
      invariant i <= |queue| && forall j :: 0 <= j < i ==> queue[j].node.None?
    {
      i := i + 1;
    }
  }

  /** A run that began at `lo` and has reached `i`. */
  ghost predicate IsOpen(queue: seq<Pending>, lo: nat, i: nat) {
    && lo < i <= |queue| && queue[lo].node.Some?
    && (forall k :: lo <= k < i ==> queue[k].node == queue[lo].node)
    && (forall k :: 0 <= k < lo ==> Key(queue[k]) < Key(queue[lo]))
  }

  /** Where the target changes, one run is whole and the next begins. */
  lemma CloseRun(queue: seq<Pending>, lo: nat, i: nat)
    requires SortedByTarget(queue) && IsOpen(queue, lo, i) && (i < |queue| ==> queue[i].node != queue[lo].node)
    ensures IsRun(queue, lo, i) && (i < |queue| ==> IsOpen(queue, i, i + 1))
  {
    if i < |queue| {
      assert Key(queue[lo]) < Key(queue[i]);
      forall k | 0 <= k < i ensures Key(queue[k]) < Key(queue[i]) { assert Key(queue[k]) <= Key(queue[lo]); }
      forall k | i <= k < |queue| ensures Key(queue[lo]) < Key(queue[k]) { assert Key(queue[i]) <= Key(queue[k]); }
    }
  }

  lemma OneMoreRun(queue: seq<Pending>, starts: seq<nat>, i: nat)
    requires starts != [] && IsRun(queue, starts[|starts| - 1], i)
    requires forall r {:trigger RunAt(queue, starts, r)} :: 0 <= r < |starts| - 1 ==> RunAt(queue, starts, r)
    ensures forall r {:trigger RunAt(queue, starts + [i], r)} :: 0 <= r < |starts| ==> RunAt(queue, starts + [i], r)
  {
    forall r | 0 <= r < |starts|
      ensures RunAt(queue, starts + [i], r)
    {
      if r < |starts| - 1 {
        assert RunAt(queue, starts, r);
      }
    }
  }

  /** A new run starts wherever the target differs from the one before. */
  method PartitionRuns(queue: seq<Pending>) returns (starts: seq<nat>)
    requires SortedByTarget(queue)
    ensures AreRuns(queue, starts)
  {
    var first := FindFirstReal(queue);
    starts := [];
    if first < |queue| {
      starts := [first];
      ghost var lo := first;
      for i := first + 1 to |queue|
        invariant starts != [] && starts[0] == first && starts[|starts| - 1] == lo && IsOpen(queue, lo, i)
        invariant forall r {:trigger RunAt(queue, starts, r)} :: 0 <= r < |starts| - 1 ==> RunAt(queue, starts, r)
      {
        if queue[i].node != queue[i - 1].node {
          CloseRun(queue, lo, i);
          OneMoreRun(queue, starts, i);
          starts := starts + [i];
          lo := i;
        }
      }
      CloseRun(queue, lo, |queue|);
      OneMoreRun(queue, starts, |queue|);
      starts := starts + [|queue|];
    }
  }

  /** One thread per run; each adds the dependencies of its entries in order. */
  ghost function Threads(env: Drivers, queue: seq<Pending>, starts: seq<nat>): seq<seq<Emission>>
    requires AreRuns(queue, starts)
  {
    if starts == [] then []
    else seq(|starts| - 1, r requires 0 <= r < |starts| - 1 => RunWork(env, queue, starts, r))
  }

  ghost function RunWork(env: Drivers, queue: seq<Pending>, starts: seq<nat>, r: nat): seq<Emission>
    requires AreRuns(queue, starts) && r < |starts| - 1
  {
    assert RunAt(queue, starts, r);
    EmitAll(env, queue[starts[r]..starts[r + 1]])
  }

  /** The steps of the threads in some order that keeps each thread's own. */
  ghost predicate IsInterleaving(trace: seq<Emission>, threads: seq<seq<Emission>>)
    decreases |trace|
  {
    if trace == [] then forall i :: 0 <= i < |threads| ==> threads[i] == []
    else exists i :: 0 <= i < |threads| && StepOf(trace, threads, i)
  }

  ghost predicate StepOf(trace: seq<Emission>, threads: seq<seq<Emission>>, i: nat)
    requires trace != [] && i < |threads|
    decreases |trace|, 0
  {
    threads[i] != [] && threads[i][0] == trace[0] && IsInterleaving(trace[1..], threads[i := threads[i][1..]])
  }

  ghost predicate Targets(es: seq<Emission>, t: Node) {
    exists k :: 0 <= k < |es| && es[k].target == t
  }

  lemma {:induction false} NothingFor(es: seq<Emission>, s: Node, t: Node)
    requires !Targets(es, t)
    ensures For(es, s, t) == []
  {
    if es != [] {
      assert es[0].target != t;
      forall k | 0 <= k < |es[1..]| ensures es[1..][k].target != t { assert es[1..][k] == es[k + 1]; }
      NothingFor(es[1..], s, t);
    }
  }

  /** When one thread alone works for a target, every pair into that target sees that thread's dependencies, in its order. */
  lemma {:induction false} ThreadsKeepTheirOrder(trace: seq<Emission>, threads: seq<seq<Emission>>, i: nat, s: Node, t: Node)
    requires IsInterleaving(trace, threads) && i < |threads|
    requires forall j :: 0 <= j < |threads| && j != i ==> !Targets(threads[j], t)
    ensures For(trace, s, t) == For(threads[i], s, t)
    decreases |trace|
  {
    if trace != [] {
      var j: nat :| j < |threads| && StepOf(trace, threads, j);
      var next := threads[j := threads[j][1..]];
      forall k | 0 <= k < |next| && k != i
        ensures !Targets(next[k], t)
      {
        assert k == j ==> forall m :: 0 <= m < |next[k]| ==> next[k][m] == threads[k][m + 1];
        assert !Targets(threads[k], t);
      }
      ThreadsKeepTheirOrder(trace[1..], next, i, s, t);
    }
  }

  lemma {:induction false} ForAdds(a: seq<Emission>, b: seq<Emission>, s: Node, t: Node)
    ensures For(a + b, s, t) == For(a, s, t) + For(b, s, t)
    decreases |a|
  {
    if a == [] {
      assert a + b == b;
    } else {
      assert (a + b)[1..] == a[1..] + b;
      ForAdds(a[1..], b, s, t);
    }
  }

  lemma {:induction false} EmitAllAdds(env: Drivers, a: seq<Pending>, b: seq<Pending>)
    ensures EmitAll(env, a + b) == EmitAll(env, a) + EmitAll(env, b)
    decreases |b|
  {
    if b == [] {
      assert a + b == a;
    } else {
      var n := |b| - 1;
      var q := a + b;
      assert q[..|q| - 1] == a + b[..n] && q[|q| - 1] == b[n];
      EmitAllAdds(env, a, b[..n]);
      EmitAllEndsWith(env, q);
      EmitAllEndsWith(env, b);
    }
  }

  lemma EmitAllEndsWith(env: Drivers, q: seq<Pending>)
    requires q != []
    ensures EmitAll(env, q) == EmitAll(env, q[..|q| - 1]) + Emissions(env, q[|q| - 1])
  {
  }

  lemma {:induction false} DriversEmitToNode(env: Drivers, p: Pending, drivers: seq<Option<Node>>, common: BitRange)
    requires p.node.Some?
    ensures forall e :: e in FromDrivers(env, p, drivers, common) ==> e.target == p.node.value
    decreases |drivers|
  {
    if drivers != [] {
      DriversEmitToNode(env, p, drivers[..|drivers| - 1], common);
    }
  }

  lemma {:induction false} IntervalsEmitToNode(env: Drivers, p: Pending, intervals: seq<Driven>)
    requires p.node.Some?
    ensures forall e :: e in FromIntervals(env, p, intervals) ==> e.target == p.node.value
    decreases |intervals|
  {
    if intervals != [] {
      var n := |intervals| - 1;
      IntervalsEmitToNode(env, p, intervals[..n]);
      if intervals[n].bounds.Intersection(p.bounds).Some? {
        DriversEmitToNode(env, p, intervals[n].drivers, intervals[n].bounds.Intersection(p.bounds).value);
      }
    }
  }

  lemma {:induction false} EmitsToItsTargets(env: Drivers, q: seq<Pending>, e: Emission)
    ensures e in EmitAll(env, q) ==> exists k :: 0 <= k < |q| && q[k].node == Some(e.target) && e in Emissions(env, q[k])
    decreases |q|
  {
    if q != [] {
      var n := |q| - 1;
      EmitsToItsTargets(env, q[..n], e);
      if e in EmitAll(env, q[..n]) {
        var k :| 0 <= k < |q[..n]| && q[..n][k].node == Some(e.target) && e in Emissions(env, q[..n][k]);
        assert q[..n][k] == q[k];
      } else if e in Emissions(env, q[n]) && q[n].symbol in env.intervals {
        IntervalsEmitToNode(env, q[n], env.intervals[q[n].symbol]);
      }
    }
  }

  lemma OthersDoNotTarget(env: Drivers, q: seq<Pending>, t: Node)
    requires forall i :: 0 <= i < |q| ==> q[i].node != Some(t)
    ensures !Targets(EmitAll(env, q), t)
  {
    if Targets(EmitAll(env, q), t) {
      var k :| 0 <= k < |EmitAll(env, q)| && EmitAll(env, q)[k].target == t;
      EmitsToItsTargets(env, q, EmitAll(env, q)[k]);
    }
  }

  lemma MiddleHasAll(all: seq<Emission>, a: seq<Emission>, b: seq<Emission>, c: seq<Emission>, s: Node, t: Node)
    requires all == a + (b + c) && !Targets(a, t) && !Targets(c, t)
    ensures For(all, s, t) == For(b, s, t)
  {
    ForAdds(a, b + c, s, t);
    ForAdds(b, c, s, t);
    NothingFor(a, s, t);
    NothingFor(c, s, t);
  }

  /** The dependencies of a pair come from the run of its target alone. */
  lemma RunHasAll(env: Drivers, queue: seq<Pending>, lo: nat, hi: nat, s: Node, t: Node)
    requires IsRun(queue, lo, hi) && queue[lo].node == Some(t)
    ensures For(EmitAll(env, queue), s, t) == For(EmitAll(env, queue[lo..hi]), s, t)
  {
    var a, b, c := queue[..lo], queue[lo..hi], queue[hi..];
    assert queue == a + (b + c);
    EmitAllAdds(env, a, b + c);
    EmitAllAdds(env, b, c);
    OthersDoNotTarget(env, a, t);
    OthersDoNotTarget(env, c, t);
    MiddleHasAll(EmitAll(env, queue), EmitAll(env, a), EmitAll(env, b), EmitAll(env, c), s, t);
  }

  lemma OtherRunsDoNotTarget(env: Drivers, queue: seq<Pending>, starts: seq<nat>, r: nat, t: Node)
    requires AreRuns(queue, starts) && r < |starts| - 1 && starts[r] < |queue| && queue[starts[r]].node != Some(t)
    ensures !Targets(RunWork(env, queue, starts, r), t)
  {
    assert RunAt(queue, starts, r);
    OthersDoNotTarget(env, queue[starts[r]..starts[r + 1]], t);
  }

  /** An entry with a target lies in some run. */
  lemma {:induction false} RunOf(queue: seq<Pending>, starts: seq<nat>, i: nat, n: nat) returns (r: nat)
    requires AreRuns(queue, starts) && i < |queue| && queue[i].node.Some? && starts != []
    requires n < |starts| && i < starts[n]
    ensures r < |starts| - 1 && starts[r] <= i < starts[r + 1]
    decreases n
  {
    if n == 0 {
      assert false;
    } else if starts[n - 1] <= i {
      r := n - 1;
    } else {
      r := RunOf(queue, starts, i, n - 1);
    }
  }

  /**
    However the threads interleave, the edges between any two nodes end labelled as if
    the sorted queue had been worked off by one thread.
    */
  lemma ThreadsAgree(g: Labelling, env: Drivers, queue: seq<Pending>, starts: seq<nat>, trace: seq<Emission>, s: Node, t: Node)
    requires AreRuns(queue, starts) && IsInterleaving(trace, Threads(env, queue, starts))
    ensures Between(ApplyAll(g, trace), s, t) == Between(ApplyAll(g, EmitAll(env, queue)), s, t)
  {
    PairSeesItsOwn(g, trace, s, t);
    PairSeesItsOwn(g, EmitAll(env, queue), s, t);
    if i :| 0 <= i < |queue| && queue[i].node == Some(t) {
      var r := RunOf(queue, starts, i, |starts| - 1);
      assert RunAt(queue, starts, r) && queue[i].node == queue[starts[r]].node;
      OneThreadTargets(env, queue, starts, trace, r, s, t);
    } else {
      OthersDoNotTarget(env, queue, t);
      NothingFor(EmitAll(env, queue), s, t);
      NoThreadTargets(env, queue, starts, trace, s, t);
    }
  }

  /** The target of run `r`: its thread alone works for it. */
  lemma OneThreadTargets(env: Drivers, queue: seq<Pending>, starts: seq<nat>, trace: seq<Emission>, r: nat, s: Node, t: Node)
    requires AreRuns(queue, starts) && IsInterleaving(trace, Threads(env, queue, starts))
    requires r < |starts| - 1 && starts[r] < |queue| && queue[starts[r]].node == Some(t)
    ensures For(trace, s, t) == For(EmitAll(env, queue), s, t)
  {
    var threads := Threads(env, queue, starts);
    assert RunAt(queue, starts, r);
    RunHasAll(env, queue, starts[r], starts[r + 1], s, t);
    forall q | 0 <= q < |threads| && q != r
      ensures !Targets(threads[q], t)
    {
      RunsDiffer(queue, starts, r, q);
      OtherRunsDoNotTarget(env, queue, starts, q, t);
    }
    ThreadsKeepTheirOrder(trace, threads, r, s, t);
  }

  lemma NoThreadTargets(env: Drivers, queue: seq<Pending>, starts: seq<nat>, trace: seq<Emission>, s: Node, t: Node)
    requires AreRuns(queue, starts) && IsInterleaving(trace, Threads(env, queue, starts))
    requires forall i :: 0 <= i < |queue| ==> queue[i].node != Some(t)
    ensures For(trace, s, t) == []
  {
    var threads := Threads(env, queue, starts);
    forall q | 0 <= q < |threads|
      ensures !Targets(threads[q], t)
    {
      assert RunAt(queue, starts, q);
      OtherRunsDoNotTarget(env, queue, starts, q, t);
    }
    NothingIsEmitted(trace, threads, s, t);
  }

  /** No two runs have the same target. */
  lemma RunsDiffer(queue: seq<Pending>, starts: seq<nat>, r: nat, q: nat)
    requires AreRuns(queue, starts) && r < |starts| - 1 && q < |starts| - 1 && r != q
    ensures starts[r] < |queue| && starts[q] < |queue| && queue[starts[r]].node != queue[starts[q]].node
  {
    assert RunAt(queue, starts, r) && RunAt(queue, starts, q);
    if r < q {
      RunsAscend(queue, starts, r + 1, q);
    } else {
      RunsAscend(queue, starts, q + 1, r);
    }
  }

  lemma {:induction false} RunsAscend(queue: seq<Pending>, starts: seq<nat>, r: nat, q: nat)
    requires AreRuns(queue, starts) && r <= q < |starts|
    ensures starts[r] <= starts[q]
    decreases q
  {
    if r < q {
      assert RunAt(queue, starts, q - 1);
      RunsAscend(queue, starts, r, q - 1);
    }
  }

  lemma NothingIsEmitted(trace: seq<Emission>, threads: seq<seq<Emission>>, s: Node, t: Node)
    requires IsInterleaving(trace, threads) && forall j :: 0 <= j < |threads| ==> !Targets(threads[j], t)
    ensures For(trace, s, t) == []
    decreases |trace|
  {
    if trace != [] {
      var j: nat :| j < |threads| && StepOf(trace, threads, j);
      ThreadsKeepTheirOrder(trace, threads, j, s, t);
      NothingFor(threads[j], s, t);
    }
  }

  /**
    Against the sequential loop over the queue as it was filled: for two nodes whose
    dependencies all carry one symbol, every interleaving ends with the same bits of
    the same symbols.
    */
  lemma ParallelAgreesWithSequential(g: Labelling, env: Drivers, queue: seq<Pending>, sorted: seq<Pending>, starts: seq<nat>,
                                     trace: seq<Emission>, s: Node, t: Node, sym: SymbolReference, y: SymbolReference, b: int)
    requires multiset(queue) == multiset(sorted) && AreRuns(sorted, starts)
    requires IsInterleaving(trace, Threads(env, sorted, starts))
    requires OneSymbol(Between(g, s, t), For(EmitAll(env, queue), s, t), sym)
    ensures Marks(Between(ApplyAll(g, trace), s, t), y, b)
            <==> Marks(Between(ApplyAll(g, EmitAll(env, queue)), s, t), y, b)
  {
    ThreadsAgree(g, env, sorted, starts, trace, s, t);
    PairSeesItsOwn(g, EmitAll(env, queue), s, t);
    PairSeesItsOwn(g, EmitAll(env, sorted), s, t);
    forall d
      ensures d in For(EmitAll(env, queue), s, t) <==> d in For(EmitAll(env, sorted), s, t)
    {
      InFor(EmitAll(env, queue), s, t, d);
      InFor(EmitAll(env, sorted), s, t, d);
      SameEmissions(env, queue, sorted, Emission(s, t, d));
    }
    OrderIsIrrelevant(Between(g, s, t), For(EmitAll(env, queue), s, t), For(EmitAll(env, sorted), s, t), sym, y, b);
  }

  lemma {:induction false} InFor(es: seq<Emission>, s: Node, t: Node, d: Dependency)
    ensures d in For(es, s, t) <==> Emission(s, t, d) in es
    decreases |es|
  {
    if es != [] {
      InFor(es[1..], s, t, d);
      assert es == [es[0]] + es[1..];
    }
  }

  lemma {:induction false} InEmitAll(env: Drivers, q: seq<Pending>, e: Emission)
    ensures e in EmitAll(env, q) <==> exists p :: p in q && e in Emissions(env, p)
    decreases |q|
  {
    if q != [] {
      InEmitAll(env, q[..|q| - 1], e);
      assert q == q[..|q| - 1] + [q[|q| - 1]];
    }
  }

  lemma SameEmissions(env: Drivers, a: seq<Pending>, b: seq<Pending>, e: Emission)
    requires multiset(a) == multiset(b)
    ensures e in EmitAll(env, a) <==> e in EmitAll(env, b)
  {
    InEmitAll(env, a, e);
    InEmitAll(env, b, e);
    forall p ensures p in a <==> p in b { assert p in multiset(a) <==> p in multiset(b); }
  }
}
