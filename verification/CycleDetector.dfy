/**
  Cycle reporting by repeated depth-first search (source/CycleDetector.hpp) and
  the combinational-loop client (source/CombLoops.cpp).
  */
module CycleDetector {
  import opened Wrappers
  import opened Netlist
  import opened DepthFirstSearch
  import opened GraphSteps
  import opened Walks

  function Id(g: Graph, n: Node): nat {
    if g.HasNode(n) then g.nodes[n].id else 0
  }

  ghost predicate LowestFirst(g: Graph, c: seq<Node>) {
    c != [] && forall i :: 0 <= i < |c| ==> Id(g, c[0]) <= Id(g, c[i])
  }

  /** The position of the first node with the lowest ID (std::min_element). */
  function MinPosition(g: Graph, c: seq<Node>): (m: nat)
    requires c != []
    ensures m < |c| && forall i :: 0 <= i < |c| ==> Id(g, c[m]) <= Id(g, c[i])
  {
    if |c| == 1 then
      0
    else
      var m := MinPosition(g, c[..|c| - 1]);
      assert forall i :: 0 <= i < |c| - 1 ==> c[..|c| - 1][i] == c[i];
      if Id(g, c[|c| - 1]) < Id(g, c[m]) then |c| - 1 else m
  }

  function Canonical(g: Graph, c: seq<Node>): seq<Node>
    requires c != []
  {
    Rotated(c, MinPosition(g, c))
  }

  /** The part of a stack from the first occurrence of `n` on (std::find). */
  function From(stack: seq<Node>, n: Node): (r: seq<Node>)
    requires n in stack
    ensures r != [] && r[0] == n && |r| <= |stack| && r == stack[|stack| - |r|..]
  {
    if stack[0] == n then stack else From(stack[1..], n)
  }

  /** What the visitor records on a callback. */
  function NewCycle(s: Search, st: Progress, ev: Event): Option<seq<Node>> {
    if ev.Revisit? && s.Next(ev.e) in st.stack then Some(Canonical(s.g, From(st.stack, s.Next(ev.e)))) else None
  }

  /** The cycles the visitor has recorded after the callbacks `tr`. */
  function CyclesOf(s: Search, tr: seq<Event>): seq<seq<Node>> {
    if tr == [] then
      []
    else
      var before := tr[..|tr| - 1];
      match NewCycle(s, s.Summary(before), tr[|tr| - 1])
      case None => CyclesOf(s, before)
      case Some(c) => CyclesOf(s, before) + [c]
  }

  lemma CanonicalIsCycle(g: Graph, h: Hops, c: seq<Node>)
    requires IsCycle(h, c)
    ensures IsCycle(h, Canonical(g, c)) && LowestFirst(g, Canonical(g, c))
    ensures forall n :: n in Canonical(g, c) <==> n in c
  {
    var m := MinPosition(g, c);
    RotationIsCycle(h, c, m);
    RotationHasSameNodes(c, m);
    var r := Canonical(g, c);
    forall i | 0 <= i < |r|
      ensures Id(g, r[0]) <= Id(g, r[i])
    {
      assert r[i] in c;
    }
  }

  /** What a back edge closes: the stack from its target on, as a canonical cycle. */
  lemma BackEdgeClosesCycle(g: Graph, h: Hops, stack: seq<Node>, n: Node)
    requires IsWalk(h, stack) && Distinct(stack) && n in stack && h(stack[|stack| - 1], n)
    ensures var c := Canonical(g, From(stack, n)); IsCycle(h, c) && LowestFirst(g, c) && n in c
  {
    var c := From(stack, n);
    var d := |stack| - |c|;
    WalkSuffix(h, stack, d);
    CanonicalIsCycle(g, h, c);
  }

  lemma NewCycleIsSound(s: Search, st: Progress, ev: Event)
    requires s.Valid() && s.Simple(st) && s.Legal(st, ev)
    ensures match NewCycle(s, st, ev)
            case None => ev.Revisit? ==> s.Next(ev.e) !in st.stack
            case Some(c) => ev.Revisit? && s.Next(ev.e) in c && IsCycle(s.Hops(), c) && LowestFirst(s.g, c)
  {
    if ev.Revisit? && s.Next(ev.e) in st.stack {
      assert s.Hops()(st.stack[|st.stack| - 1], s.Next(ev.e));
      BackEdgeClosesCycle(s.g, s.Hops(), st.stack, s.Next(ev.e));
    }
  }

  /** Everything recorded is a simple cycle starting at its lowest ID. */
  lemma {:induction false} RecordedIsSound(s: Search, tr: seq<Event>, c: seq<Node>)
    requires s.Valid() && s.Trace(tr) && c in CyclesOf(s, tr)
    ensures IsCycle(s.Hops(), c) && LowestFirst(s.g, c)
  {
    var before := tr[..|tr| - 1];
    if c in CyclesOf(s, before) {
      RecordedIsSound(s, before, c);
    } else {
      s.TraceIsSimple(before);
      NewCycleIsSound(s, s.Summary(before), tr[|tr| - 1]);
    }
  }

  /** Every examined edge back to the start has put the start into a recorded cycle. */
  lemma {:induction false} EdgeToStartIsRecorded(s: Search, tr: seq<Event>, start: Node, e: Edge)
    requires s.Valid() && s.TraceFrom(tr, start) && e in s.Summary(tr).examined && s.Next(e) == start
    ensures exists c :: c in CyclesOf(s, tr) && start in c
  {
    var before, ev := tr[..|tr| - 1], tr[|tr| - 1];
    var st := s.Summary(before);
    s.TraceIsSimple(before);
    if e in st.examined {
      s.TraceIsSettled(before);
      EdgeToStartIsRecorded(s, before, start, e);
      var c :| c in CyclesOf(s, before) && start in c;
      assert c in CyclesOf(s, tr);
    } else {
      assert st.order != [] && start == st.order[0] == st.stack[0];
      NewCycleIsSound(s, st, ev);
      var c := NewCycle(s, st, ev).value;
      assert c in CyclesOf(s, tr);
    }
  }

  /** A finished search from a node on a cycle has recorded a cycle through it. */
  lemma StartOnCycleIsRecorded(s: Search, tr: seq<Event>, start: Node)
    requires s.Valid() && s.Complete(tr, start) && OnCycle(s.Hops(), start)
    ensures exists c :: c in CyclesOf(s, tr) && start in c
  {
    var p :| WalkFromTo(s.Hops(), p, start, start) && |p| > 1;
    var u := p[|p| - 2];
    WalkSplits(s.Hops(), p);
    assert WalkFromTo(s.Hops(), p[..|p| - 1], start, u);
    s.VisitsReachable(tr, start, u);
    s.TraceIsSettled(tr);
    assert s.Hop(u, start);
    var e :| s.Usable(u, e) && s.Next(e) == start;
    EdgeToStartIsRecorded(s, tr, start, e);
  }

  lemma CycleIsInGraph(s: Search, c: seq<Node>, i: nat)
    requires IsCycle(s.Hops(), c) && i < |c|
    ensures s.g.HasNode(c[i])
  {
    assert i < |c| - 1 ==> HopAt(s.Hops(), c, i);
    assert s.Hop(c[i], if i < |c| - 1 then c[i + 1] else c[0]);
  }

  /** With distinct IDs, a cycle has only one rotation that starts at its lowest ID. */
  lemma CanonicalIsUnique(s: Search, c: seq<Node>, m: nat)
    requires s.Valid() && s.g.DistinctIds() && IsCycle(s.Hops(), c) && LowestFirst(s.g, c)
    requires m < |c| && LowestFirst(s.g, Rotated(c, m))
    ensures Rotated(c, m) == c
  {
    RotationIsCycle(s.Hops(), c, m);
    var r := Rotated(c, m);
    assert c[0] in r;
    var k :| 0 <= k < |r| && r[k] == c[0];
    assert Id(s.g, r[0]) <= Id(s.g, r[k]) && Id(s.g, c[0]) <= Id(s.g, c[m]);
    CycleIsInGraph(s, c, 0);
    CycleIsInGraph(s, c, m);
    assert c[0] == c[m];
  }

  class CycleDetectionVisitor {
    const g: Graph
    var recursionStack: seq<Node>
    var cycles: seq<seq<Node>>

    constructor (g: Graph)
      ensures this.g == g && recursionStack == [] && cycles == []
    {
      this.g := g;
      recursionStack, cycles := [], [];
    }

    method VisitedNode(node: Node)
      modifies this`cycles
      ensures cycles == if node in recursionStack then old(cycles) + [Canonical(g, From(recursionStack, node))]
                        else old(cycles)
    {
      if node in recursionStack {
        var cycleNodes := From(recursionStack, node);
        var m := MinPosition(g, cycleNodes);
        cycles := cycles + [cycleNodes[m..] + cycleNodes[..m]];
      }
    }

    method VisitNode(node: Node)
      modifies this`recursionStack
      ensures recursionStack == old(recursionStack) + [node]
    {
      recursionStack := recursionStack + [node];
    }

    method PopNode()
      modifies this`recursionStack
      ensures recursionStack == if old(recursionStack) == [] then [] else old(recursionStack)[..|old(recursionStack)| - 1]
    {
      if recursionStack != [] {
        recursionStack := recursionStack[..|recursionStack| - 1];
      }
    }

    /** Receives the callbacks of a search, in order. */
    method Receive(s: Search, events: seq<Event>)
      requires s.g == g && recursionStack == [] && cycles == []
      modifies this
      ensures cycles == CyclesOf(s, events) && recursionStack == s.Summary(events).stack
    {
      for i := 0 to |events|
        invariant cycles == CyclesOf(s, events[..i]) && recursionStack == s.Summary(events[..i]).stack
      {
        assert events[..i + 1][..i] == events[..i];
        match events[i]
        case Start(n) => VisitNode(n);
        case Discover(e) => VisitNode(s.Next(e));
        case Revisit(e) => VisitedNode(s.Next(e));
        case Pop => PopNode();
      }
      assert events[..|events|] == events;
    }
  }

  /** The first `k` nodes of both have the same IDs. */
  ghost predicate AgreeTo(g: Graph, a: seq<Node>, b: seq<Node>, k: nat)
    requires k <= |a| && k <= |b|
  {
    forall i :: 0 <= i < k ==> Id(g, a[i]) == Id(g, b[i])
  }

  /** Where the two first differ in ID, `a` has the lower one; or it is shorter and they do not differ. */
  ghost predicate ComesFirst(g: Graph, a: seq<Node>, b: seq<Node>) {
    exists k: nat {:trigger AgreeTo(g, a, b, k)} ::
      k <= |a| && k <= |b| && AgreeTo(g, a, b, k) && if k < |a| && k < |b| then Id(g, a[k]) < Id(g, b[k]) else k == |a| < |b|
  }

  /** `result` reports exactly the cyclic part of the graph, as canonical simple cycles, each once, by ascending IDs. */
  ghost predicate ReportsCycles(g: Graph, h: Hops, result: seq<seq<Node>>) {
    && (forall c :: c in result ==> IsCycle(h, c) && LowestFirst(g, c))
    && (forall i, j :: 0 <= i < j < |result| ==> result[i] != result[j] && !ComesFirst(g, result[j], result[i]))
    && (forall n :: g.HasNode(n) ==> ((exists c :: c in result && n in c) <==> OnCycle(h, n)))
  }

  lemma SameReports(g: Graph, h: Hops, k: Hops, result: seq<seq<Node>>)
    requires SameHops(h, k) && ReportsCycles(g, h, result)
    ensures ReportsCycles(g, k, result)
  {
    forall c | c in result ensures IsCycle(k, c) { SameCycles(h, k, c); }
    forall n ensures OnCycle(h, n) <==> OnCycle(k, n) { SameOnCycle(h, k, n); }
  }

  /** std::lexicographical_compare by node ID. */
  predicate IdsLess(g: Graph, a: seq<Node>, b: seq<Node>) {
    if a == [] then b != []
    else if b == [] then false
    else if Id(g, a[0]) != Id(g, b[0]) then Id(g, a[0]) < Id(g, b[0])
    else IdsLess(g, a[1..], b[1..])
  }

  lemma {:induction false} IdsLessIsWeakOrder(g: Graph, a: seq<Node>, b: seq<Node>, c: seq<Node>)
    ensures !(IdsLess(g, a, b) && IdsLess(g, b, a))
    ensures !IdsLess(g, a, b) && !IdsLess(g, b, c) ==> !IdsLess(g, a, c)
    decreases |a| + |b| + |c|
  {
    if a != [] && b != [] {
      IdsLessIsWeakOrder(g, a[1..], b[1..], if c == [] then [] else c[1..]);
    }
  }

  lemma AgreeMore(g: Graph, a: seq<Node>, b: seq<Node>, k: nat)
    requires a != [] && b != [] && k < |a| && k < |b|
    ensures AgreeTo(g, a, b, k + 1) <==> Id(g, a[0]) == Id(g, b[0]) && AgreeTo(g, a[1..], b[1..], k)
  {
    if Id(g, a[0]) == Id(g, b[0]) && AgreeTo(g, a[1..], b[1..], k) {
      forall i | 0 <= i < k + 1
        ensures Id(g, a[i]) == Id(g, b[i])
      {
        assert i > 0 ==> a[i] == a[1..][i - 1] && b[i] == b[1..][i - 1];
      }
    }
    if AgreeTo(g, a, b, k + 1) {
      forall i | 0 <= i < k
        ensures Id(g, a[1..][i]) == Id(g, b[1..][i])
      {
        assert a[1..][i] == a[i + 1] && b[1..][i] == b[i + 1];
      }
    }
  }

  /** The comparison puts first the one that is lower in ID where they first differ, or shorter. */
  lemma {:induction false} IdsLessIsFirst(g: Graph, a: seq<Node>, b: seq<Node>)
    ensures IdsLess(g, a, b) <==> ComesFirst(g, a, b)
  {
    if IdsLess(g, a, b) {
      if a == [] || Id(g, a[0]) != Id(g, b[0]) {
        assert AgreeTo(g, a, b, 0);
      } else {
        IdsLessIsFirst(g, a[1..], b[1..]);
        var k: nat :| k <= |a[1..]| && k <= |b[1..]| && AgreeTo(g, a[1..], b[1..], k)
                      && if k < |a[1..]| && k < |b[1..]| then Id(g, a[1..][k]) < Id(g, b[1..][k]) else k == |a[1..]| < |b[1..]|;
        AgreeMore(g, a, b, k);
        assert AgreeTo(g, a, b, k + 1);
      }
    }
    if ComesFirst(g, a, b) {
      var k: nat :| k <= |a| && k <= |b| && AgreeTo(g, a, b, k) && if k < |a| && k < |b| then Id(g, a[k]) < Id(g, b[k]) else k == |a| < |b|;
      if k > 0 {
        AgreeMore(g, a, b, k - 1);
        assert AgreeTo(g, a[1..], b[1..], k - 1);
        IdsLessIsFirst(g, a[1..], b[1..]);
      }
    }
  }

  /** With distinct IDs the reports ascend strictly. */
  lemma ReportsAscend(g: Graph, h: Hops, result: seq<seq<Node>>, i: nat, j: nat)
    requires g.DistinctIds() && ReportsCycles(g, h, result) && i < j < |result|
    requires forall n: Node :: n in result[i] || n in result[j] ==> g.HasNode(n)
    ensures ComesFirst(g, result[i], result[j])
  {
    IdsLessIsFirst(g, result[j], result[i]);
    IdsLessIsFirst(g, result[i], result[j]);
    IdsLessIsTotal(g, result[i], result[j]);
  }

  lemma {:induction false} IdsLessIsTotal(g: Graph, a: seq<Node>, b: seq<Node>)
    requires g.DistinctIds() && (forall n: Node :: n in a || n in b ==> g.HasNode(n))
    ensures a == b || IdsLess(g, a, b) || IdsLess(g, b, a)
  {
    if a != [] && b != [] && Id(g, a[0]) == Id(g, b[0]) {
      assert a[0] in a && b[0] in b;
      assert a[0] == b[0];
      IdsLessIsTotal(g, a[1..], b[1..]);
      assert a == [a[0]] + a[1..] && b == [b[0]] + b[1..];
    }
  }

  /** No cyclic node, no report. */
  lemma ReportsNothingIffAcyclic(s: Search, result: seq<seq<Node>>)
    requires s.Valid() && ReportsCycles(s.g, s.Hops(), result)
    ensures result == [] <==> forall n :: s.g.HasNode(n) ==> !OnCycle(s.Hops(), n)
  {
    if result != [] {
      var c := result[0];
      CycleIsInGraph(s, c, 0);
      assert c in result && c[0] in c;
    }
  }

  /** With distinct IDs no cycle is reported twice, not even rotated. */
  lemma ReportsEachCycleOnce(s: Search, result: seq<seq<Node>>, i: nat, j: nat, m: nat)
    requires s.Valid() && s.g.DistinctIds() && ReportsCycles(s.g, s.Hops(), result)
    requires i < |result| && j < |result| && m < |result[i]| && Rotated(result[i], m) == result[j]
    ensures i == j
  {
    CanonicalIsUnique(s, result[i], m);
  }

  class CycleDetector {
    const s: Search
    var visitedNodes: set<Node>

    constructor (g: Graph, admit: Edge -> bool)
      ensures s == Search(g, Forward, admit) && visitedNodes == {}
    {
      s := Search(g, Forward, admit);
      visitedNodes := {};
    }

    /** Marks the nodes of all cycles found by one search. */
    method MarkAllVisitedNodes(cycles: seq<seq<Node>>)
      modifies this
      ensures forall n :: n in visitedNodes <==> n in old(visitedNodes) || exists c :: c in cycles && n in c
    {
      for i := 0 to |cycles|
        invariant forall n :: n in visitedNodes <==> n in old(visitedNodes) || exists k :: 0 <= k < i && n in cycles[k]
      {
        visitedNodes := visitedNodes + set n | n in cycles[i];
      }
    }

    /** Inserts `c` behind everything that does not come after it. */
    method SortedInsert(sorted: seq<seq<Node>>, c: seq<Node>) returns (r: seq<seq<Node>>)
      requires c !in sorted
      requires forall i, j :: 0 <= i < j < |sorted| ==> sorted[i] != sorted[j] && !IdsLess(s.g, sorted[j], sorted[i])
      ensures forall i, j :: 0 <= i < j < |r| ==> r[i] != r[j] && !IdsLess(s.g, r[j], r[i])
      ensures forall d :: d in r <==> d in sorted || d == c
    {
      var k := |sorted|;
      while k > 0 && IdsLess(s.g, c, sorted[k - 1])
        invariant 0 <= k <= |sorted|
        invariant forall i :: k <= i < |sorted| ==> IdsLess(s.g, c, sorted[i])
      {
        k := k - 1;
      }
      r := sorted[..k] + [c] + sorted[k..];
      forall i | 0 <= i < |sorted|
        ensures if i < k then !IdsLess(s.g, c, sorted[i]) else !IdsLess(s.g, sorted[i], c)
      {
        IdsLessIsWeakOrder(s.g, sorted[i], c, c);
        if i < k - 1 {
          IdsLessIsWeakOrder(s.g, c, sorted[k - 1], sorted[i]);
        }
      }
      assert sorted == sorted[..k] + sorted[k..];
    }

    /** Every marked node that lies on a cycle is in one of `cycles`. */
    ghost predicate Covered(cycles: set<seq<Node>>, marked: set<Node>)
      requires s.g.Shaped()
    {
      forall n :: n in marked && OnCycle(s.Hops(), n) ==> exists c :: c in cycles && n in c
    }

    lemma CoveredBoth(c1: set<seq<Node>>, m1: set<Node>, c2: set<seq<Node>>, m2: set<Node>)
      requires s.g.Shaped() && Covered(c1, m1) && Covered(c2, m2)
      ensures Covered(c1 + c2, m1 + m2)
    {
    }

    /** One search from an unmarked node, whose cycles are marked too. */
    method FindFrom(startNode: Node) returns (cycles: seq<seq<Node>>)
      requires s.Valid() && s.g.HasNode(startNode)
      modifies this
      ensures forall c :: c in cycles ==> IsCycle(s.Hops(), c) && LowestFirst(s.g, c)
      ensures old(visitedNodes) + {startNode} <= visitedNodes
      ensures Covered((set c | c in cycles), visitedNodes - old(visitedNodes))
    {
      visitedNodes := visitedNodes + {startNode};
      var visitor := new CycleDetectionVisitor(s.g);
      var dfs := new DepthFirstSearch(s, startNode);
      visitor.Receive(s, dfs.events);
      cycles := visitor.cycles;
      SearchCovers(dfs.events, startNode);
      MarkAllVisitedNodes(cycles);
      MarkedAreCovered(cycles, startNode, visitedNodes - old(visitedNodes));
    }

    lemma SearchCovers(events: seq<Event>, startNode: Node)
      requires s.Valid() && s.Complete(events, startNode)
      ensures forall c :: c in CyclesOf(s, events) ==> IsCycle(s.Hops(), c) && LowestFirst(s.g, c)
      ensures OnCycle(s.Hops(), startNode) ==> exists c :: c in CyclesOf(s, events) && startNode in c
    {
      forall c | c in CyclesOf(s, events)
        ensures IsCycle(s.Hops(), c) && LowestFirst(s.g, c)
      {
        RecordedIsSound(s, events, c);
      }
      if OnCycle(s.Hops(), startNode) {
        StartOnCycleIsRecorded(s, events, startNode);
      }
    }

    /** Marking the start and the nodes of the found cycles keeps every marked cyclic node covered. */
    lemma MarkedAreCovered(found: seq<seq<Node>>, startNode: Node, marked: set<Node>)
      requires s.g.Shaped()
      requires OnCycle(s.Hops(), startNode) ==> exists c :: c in found && startNode in c
      requires forall n :: n in marked ==> n == startNode || exists c :: c in found && n in c
      ensures Covered((set c | c in found), marked)
    {
      forall n | n in marked && OnCycle(s.Hops(), n)
        ensures exists c :: c in (set c | c in found) && n in c
      {
        var c :| c in found && n in c;
        assert c in (set c | c in found);
      }
    }

    /** The collected cycles as a list in ID order. */
    method Sorted(cycles: set<seq<Node>>) returns (result: seq<seq<Node>>)
      ensures forall c :: c in result <==> c in cycles
      ensures forall i, j :: 0 <= i < j < |result| ==> result[i] != result[j] && !IdsLess(s.g, result[j], result[i])
    {
      result := [];
      var left := cycles;
      while left != {}
        invariant left <= cycles && forall c :: c in result <==> c in cycles - left
        invariant forall i, j :: 0 <= i < j < |result| ==> result[i] != result[j] && !IdsLess(s.g, result[j], result[i])
        decreases left
      {
        var c :| c in left;
        result := SortedInsert(result, c);
        left := left - {c};
      }
    }

    lemma CoveringIsReporting(cycles: set<seq<Node>>, marked: set<Node>, result: seq<seq<Node>>)
      requires s.g.Shaped() && Covered(cycles, marked) && s.g.AllNodes() <= marked
      requires forall c :: c in cycles ==> IsCycle(s.Hops(), c) && LowestFirst(s.g, c)
      requires forall c :: c in result <==> c in cycles
      requires forall i, j :: 0 <= i < j < |result| ==> result[i] != result[j] && !IdsLess(s.g, result[j], result[i])
      ensures ReportsCycles(s.g, s.Hops(), result)
    {
      forall i, j | 0 <= i < j < |result|
        ensures !ComesFirst(s.g, result[j], result[i])
      {
        IdsLessIsFirst(s.g, result[j], result[i]);
      }
      forall n | s.g.HasNode(n)
        ensures (exists c :: c in result && n in c) <==> OnCycle(s.Hops(), n)
      {
        if c :| c in result && n in c {
          CycleNodesAreOnCycle(s.Hops(), c, n);
        }
        if OnCycle(s.Hops(), n) {
          var c :| c in cycles && n in c;
          assert c in result;
        }
      }
    }

    /**
      Reports the cycles of the graph. A second call on the same detector finds
      every node marked and reports nothing.
      */
    method DetectCycles() returns (result: seq<seq<Node>>)
      requires s.Valid()
      modifies this
      ensures old(visitedNodes) == {} ==> ReportsCycles(s.g, s.Hops(), result)
      ensures s.g.AllNodes() <= old(visitedNodes) ==> result == []
      ensures s.g.AllNodes() <= visitedNodes
    {
      var cycles: set<seq<Node>> := {};
      for startNode := 0 to |s.g.nodes|
        invariant old(visitedNodes) <= visitedNodes
        invariant forall n: Node :: n < startNode ==> n in visitedNodes
        invariant forall c :: c in cycles ==> IsCycle(s.Hops(), c) && LowestFirst(s.g, c)
        invariant Covered(cycles, visitedNodes - old(visitedNodes))
        invariant s.g.AllNodes() <= old(visitedNodes) ==> cycles == {}
      {
        if startNode !in visitedNodes {
          ghost var marked := visitedNodes;
          var found := FindFrom(startNode);
          CoveredBoth(cycles, marked - old(visitedNodes), (set c | c in found), visitedNodes - marked);
          assert visitedNodes - old(visitedNodes) == (marked - old(visitedNodes)) + (visitedNodes - marked);
          cycles := cycles + set c | c in found;
        }
      }
      result := Sorted(cycles);
      if old(visitedNodes) == {} {
        assert visitedNodes - {} == visitedNodes;
        CoveringIsReporting(cycles, visitedNodes, result);
      }
      if result != [] {
        assert result[0] in cycles;
      }
    }
  }

  /** Combinational loops: cycles through enabled edges that never enter a State node. */
  method GetAllLoops(g: Graph) returns (loops: seq<seq<Node>>)
    requires g.Valid()
    ensures ReportsCycles(g, CombSteps(g), loops)
  {
    var detector := new CycleDetector(g, e => EntersComb(g, e));
    loops := detector.DetectCycles();
    ghost var s := detector.s;
    CombHops(s);
    SameReports(g, s.Hops(), CombSteps(g), loops);
  }
}
