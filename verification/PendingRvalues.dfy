/**
  Pending r-values and their resolution (source/PendingRvalueQueue.cpp), one after
  the other or by one worker per run of equal targets. Each worker adds the
  dependencies of its own target; the steps of different workers interleave freely.
  */
module PendingRvalues {
  import opened BitRanges
  import opened Dependencies
  import opened Netlist
  import opened Wrappers

  /** One dependency to add, with the nodes it joins. */
  datatype Emission = Emission(source: Node, target: Node, d: Dependency)

  /** The labels between every two nodes; none where there is no entry. */
  type Labelling = map<(Node, Node), seq<EdgeLabel>>

  function Between(g: Labelling, s: Node, t: Node): seq<EdgeLabel> {
    if (s, t) in g then g[(s, t)] else []
  }

  function Apply(g: Labelling, e: Emission): Labelling {
    g[(e.source, e.target) := Depend(Between(g, e.source, e.target), e.d)]
  }

  function ApplyAll(g: Labelling, es: seq<Emission>): Labelling
    decreases |es|
  {
    if es == [] then g else ApplyAll(Apply(g, es[0]), es[1..])
  }

  function DependAll(labels: seq<EdgeLabel>, ds: seq<Dependency>): seq<EdgeLabel>
    decreases |ds|
  {
    if ds == [] then labels else DependAll(Depend(labels, ds[0]), ds[1..])
  }

  /** The dependencies of one pair of nodes, in order. */
  function For(es: seq<Emission>, s: Node, t: Node): seq<Dependency> {
    if es == [] then []
    else (if es[0].source == s && es[0].target == t then [es[0].d] else []) + For(es[1..], s, t)
  }

  lemma ApplyTouchesItsPair(g: Labelling, e: Emission, s: Node, t: Node)
    ensures Between(Apply(g, e), s, t)
            == if e.source == s && e.target == t then Depend(Between(g, s, t), e.d) else Between(g, s, t)
  {
  }

  lemma DependHead(labels: seq<EdgeLabel>, d: Dependency, ds: seq<Dependency>)
    ensures DependAll(labels, [d] + ds) == DependAll(Depend(labels, d), ds)
  {
    assert ([d] + ds)[1..] == ds;
  }

  /** Each pair of nodes sees only its own dependencies. */
  lemma {:induction false} PairSeesItsOwn(g: Labelling, es: seq<Emission>, s: Node, t: Node)
    ensures Between(ApplyAll(g, es), s, t) == DependAll(Between(g, s, t), For(es, s, t))
    decreases |es|
  {
    if es != [] {
      var e, rest := es[0], es[1..];
      PairSeesItsOwn(Apply(g, e), rest, s, t);
      ApplyTouchesItsPair(g, e, s, t);
      if e.source == s && e.target == t {
        DependHead(Between(g, s, t), e.d, For(rest, s, t));
      } else {
        assert For(es, s, t) == For(rest, s, t);
      }
    }
  }

  ghost predicate OneSymbol(labels: seq<EdgeLabel>, ds: seq<Dependency>, sym: SymbolReference) {
    && (labels == [] || labels[0].symbol.None? || labels[0].symbol == Some(sym))
    && forall i :: 0 <= i < |ds| && ds[i].Labelled? ==> ds[i].symbol == Some(sym)
  }

  /** When all dependencies of a pair carry one symbol, its edges end with exactly the bits they had and the bits added. */
  lemma {:induction false} OneSymbolAccumulates(labels: seq<EdgeLabel>, ds: seq<Dependency>, sym: SymbolReference, s: SymbolReference, b: int)
    requires OneSymbol(labels, ds, sym)
    ensures Marks(DependAll(labels, ds), s, b) <==> Marks(labels, s, b) || exists i :: 0 <= i < |ds| && Adds(ds[i], s, b)
    decreases |ds|
  {
    if ds != [] {
      var next := Depend(labels, ds[0]);
      DependMarks(labels, ds[0], s, b);
      OneSymbolAccumulates(next, ds[1..], sym, s, b);
      if i :| 0 <= i < |ds| && Adds(ds[i], s, b) {
        assert i > 0 ==> ds[1..][i - 1] == ds[i];
      }
    }
  }

  /** So neither the order in which they are added nor repetition matters for the bits. */
  lemma OrderIsIrrelevant(labels: seq<EdgeLabel>, ds: seq<Dependency>, es: seq<Dependency>, sym: SymbolReference, s: SymbolReference, b: int)
    requires OneSymbol(labels, ds, sym) && forall d :: d in ds <==> d in es
    ensures Marks(DependAll(labels, ds), s, b) <==> Marks(DependAll(labels, es), s, b)
  {
    forall i | 0 <= i < |es| ensures es[i] in ds { assert es[i] in es; }
    OneSymbolAccumulates(labels, ds, sym, s, b);
    OneSymbolAccumulates(labels, es, sym, s, b);
    if i :| 0 <= i < |ds| && Adds(ds[i], s, b) {
      assert ds[i] in es;
    }
  }

  lemma TwoSteps(labels: seq<EdgeLabel>, d: Dependency, e: Dependency)
    ensures DependAll(labels, [d, e]) == Depend(Depend(labels, d), e)
  {
    assert [d, e][1..] == [e] && [e][1..] == [];
    assert DependAll(Depend(labels, d), [e]) == DependAll(Depend(Depend(labels, d), e), []);
  }

  /** With two symbols it does: the one added last survives, the other is lost. */
  lemma LastSymbolWins(d: Dependency, e: Dependency, b: int)
    requires d.Labelled? && e.Labelled? && d.symbol.Some? && e.symbol.Some? && d.symbol != e.symbol && d.bounds.Has(b)
    ensures !Marks(DependAll([], [d, e]), d.symbol.value, b) && Marks(DependAll([], [e, d]), d.symbol.value, b)
  {
    TwoSteps([], d, e);
    TwoSteps([], e, d);
    DependMarks(Depend([], d), e, d.symbol.value, b);
    DependMarks(Depend([], e), d, d.symbol.value, b);
    assert Depend([], d)[1..] == [];
  }

  /** A driver interval of a symbol, with its driver nodes. */
  datatype Driven = Driven(bounds: BitRange, drivers: seq<Option<Node>>)

  datatype Pending = Pending(symbol: nat, bounds: BitRange, node: Option<Node>, edgeKind: EdgeKind, role: Role, precision: Precision)

  /**
    What resolution reads and does not change: each symbol's reference, the state
    variable of exactly a given range, the driver intervals in ascending order, and
    the bounds of nodes that have them.
    */
  datatype Drivers = Drivers(
    references: map<nat, SymbolReference>,
    states: map<(nat, BitRange), Node>,
    intervals: map<nat, seq<Driven>>,
    nodeBounds: map<Node, BitRange>)

  function Own(env: Drivers, node: Node): Option<BitRange> {
    if node in env.nodeBounds then Some(env.nodeBounds[node]) else None
  }

  function Reference(env: Drivers, symbol: nat): Option<SymbolReference> {
    if symbol in env.references then Some(env.references[symbol]) else None
  }

  function Emit(env: Drivers, p: Pending, source: Node, bounds: BitRange): Emission
    requires p.node.Some?
  {
    Emission(source, p.node.value,
             From(Own(env, source), Labelled(Reference(env, p.symbol), bounds, p.edgeKind, p.role, p.precision)))
  }

  /** The dependencies a pending r-value stands for. */
  function Emissions(env: Drivers, p: Pending): seq<Emission> {
    if p.node.None? then []
    else if (p.symbol, p.bounds) in env.states then [Emit(env, p, env.states[(p.symbol, p.bounds)], p.bounds)]
    else if p.symbol in env.intervals then FromIntervals(env, p, env.intervals[p.symbol])
    else []
  }

  function FromIntervals(env: Drivers, p: Pending, intervals: seq<Driven>): seq<Emission>
    requires p.node.Some?
  {
    if intervals == [] then []
    else
      var n := |intervals| - 1;
      FromIntervals(env, p, intervals[..n])
      + (match intervals[n].bounds.Intersection(p.bounds)
         case None => []
         case Some(common) => FromDrivers(env, p, intervals[n].drivers, common))
  }

  function FromDrivers(env: Drivers, p: Pending, drivers: seq<Option<Node>>, common: BitRange): seq<Emission>
    requires p.node.Some?
  {
    if drivers == [] then []
    else
      var n := |drivers| - 1;
      FromDrivers(env, p, drivers[..n], common) + (if drivers[n].Some? then [Emit(env, p, drivers[n].value, common)] else [])
  }

  function EmitAll(env: Drivers, queue: seq<Pending>): seq<Emission> {
    if queue == [] then [] else EmitAll(env, queue[..|queue| - 1]) + Emissions(env, queue[|queue| - 1])
  }

  lemma {:induction false} ApplyMore(g: Labelling, a: seq<Emission>, b: seq<Emission>)
    ensures ApplyAll(g, a + b) == ApplyAll(ApplyAll(g, a), b)
    decreases |a|
  {
    if a == [] {
      assert a + b == b;
    } else {
      assert (a + b)[1..] == a[1..] + b;
      ApplyMore(Apply(g, a[0]), a[1..], b);
    }
  }

  /** The builder's graph during resolution, and the queue. */
  class PendingRvalueQueue {
    var queue: seq<Pending>
    var labels: Labelling
    const env: Drivers

    constructor (env: Drivers, labels: Labelling)
      ensures this.env == env && this.labels == labels && queue == []
    {
      this.env, this.labels, queue := env, labels, [];
    }

    method Enqueue(p: Pending)
      modifies this`queue
      ensures queue == old(queue) + [p]
    {
      queue := queue + [p];
    }

    /** Takes over the buffers of all tasks, in task order. */
    method Drain(allWork: seq<seq<Pending>>)
      modifies this`queue
      ensures queue == old(queue) + Flattened(allWork)
    {
      assert allWork[..|allWork|] == allWork;
      for i := 0 to |allWork|
        invariant queue == old(queue) + Flattened(allWork[..i])
      {
        assert allWork[..i + 1][..i] == allWork[..i];
        queue := queue + allWork[i];
      }
    }

    method AddDependency(source: Node, target: Node, p: Pending, bounds: BitRange)
      requires p.node == Some(target)
      modifies this`labels
      ensures labels == Apply(old(labels), Emit(env, p, source, bounds))
    {
      var edgeBounds := bounds;
      if source in env.nodeBounds && bounds.Overlaps(env.nodeBounds[source]) {
        edgeBounds := bounds.Intersection(env.nodeBounds[source]).value;
      }
      var d := Labelled(Reference(env, p.symbol), edgeBounds, p.edgeKind, p.role, p.precision);
      labels := labels[(source, target) := Depend(Between(labels, source, target), d)];
    }

    method EmitEdgesFor(p: Pending)
      modifies this`labels
      ensures labels == ApplyAll(old(labels), Emissions(env, p))
    {
      if p.node.None? {
        return;
      }
      if (p.symbol, p.bounds) in env.states {
        AddDependency(env.states[(p.symbol, p.bounds)], p.node.value, p, p.bounds);
        return;
      }
      if p.symbol !in env.intervals {
        return;
      }
      var intervals := env.intervals[p.symbol];
      assert intervals[..|intervals|] == intervals;
      for i := 0 to |intervals|
        invariant labels == ApplyAll(old(labels), FromIntervals(env, p, intervals[..i]))
      {
        assert intervals[..i + 1][..i] == intervals[..i];
        var edgeBounds := intervals[i].bounds.Intersection(p.bounds);
        if edgeBounds.Some? {
          ApplyMore(old(labels), FromIntervals(env, p, intervals[..i]), FromDrivers(env, p, intervals[i].drivers, edgeBounds.value));
          EmitForDrivers(p, intervals[i].drivers, edgeBounds.value);
        } else {
          assert FromIntervals(env, p, intervals[..i + 1]) == FromIntervals(env, p, intervals[..i]);
        }
      }
    }

    method EmitForDrivers(p: Pending, drivers: seq<Option<Node>>, common: BitRange)
      requires p.node.Some?
      modifies this`labels
      ensures labels == ApplyAll(old(labels), FromDrivers(env, p, drivers, common))
    {
      assert drivers[..|drivers|] == drivers;
      for i := 0 to |drivers|
        invariant labels == ApplyAll(old(labels), FromDrivers(env, p, drivers[..i], common))
      {
        assert drivers[..i + 1][..i] == drivers[..i];
        if drivers[i].Some? {
          ApplyMore(old(labels), FromDrivers(env, p, drivers[..i], common), [Emit(env, p, drivers[i].value, common)]);
          AddDependency(drivers[i].value, p.node.value, p, common);
        } else {
          assert FromDrivers(env, p, drivers[..i + 1], common) == FromDrivers(env, p, drivers[..i], common);
        }
      }
    }

    method ResolveSequential()
      modifies this
      ensures labels == ApplyAll(old(labels), EmitAll(env, old(queue))) && queue == []
    {
      EmitQueue(queue);
      queue := [];
    }

    method EmitQueue(entries: seq<Pending>)
      modifies this`labels
      ensures labels == ApplyAll(old(labels), EmitAll(env, entries))
    {
      assert entries[..|entries|] == entries;
      for i := 0 to |entries|
        invariant labels == ApplyAll(old(labels), EmitAll(env, entries[..i]))
      {
        EmitsOneMore(old(labels), env, entries, i);
        EmitEdgesFor(entries[i]);
      }
    }
  }

  lemma EmitsOneMore(g: Labelling, env: Drivers, entries: seq<Pending>, i: nat)
    requires i < |entries|
    ensures ApplyAll(g, EmitAll(env, entries[..i + 1])) == ApplyAll(ApplyAll(g, EmitAll(env, entries[..i])), Emissions(env, entries[i]))
  {
    assert entries[..i + 1][..i] == entries[..i];
    ApplyMore(g, EmitAll(env, entries[..i]), Emissions(env, entries[i]));
  }

  function Flattened(work: seq<seq<Pending>>): seq<Pending> {
    if work == [] then [] else Flattened(work[..|work| - 1]) + work[|work| - 1]
  }
}
