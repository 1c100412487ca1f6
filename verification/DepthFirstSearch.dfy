/**
  The explicit-stack depth-first search (source/DepthFirstSearch.hpp). The search
  never reads its visitor, so the callbacks it makes are kept as a sequence of
  events; the visitors of the other modules receive that sequence.
  */
module DepthFirstSearch {
  import opened GraphSteps
  import opened Netlist
  import opened Walks

  datatype Dir = Forward | Backward

  /** One callback: visitNode on the start, visitEdge with visitNode, visitedNode, popNode. */
  datatype Event = Start(n: Node) | Discover(e: Edge) | Revisit(e: Edge) | Pop

  /**
    What a sequence of callbacks amounts to: the nodes in the order of their
    visitNode callbacks, those not yet popped (the deepest last), and the edges
    followed or found to lead to a visited node.
    */
  datatype Progress = Progress(order: seq<Node>, stack: seq<Node>, examined: set<Edge>)

  /** Which edges a search may follow: the graph, the direction and the edge predicate. */
  datatype Search = Search(g: Graph, dir: Dir, admit: Edge -> bool) {

    /** The edges of a node lead to nodes. */
    ghost predicate Valid() {
      && g.Shaped()
      && forall n, e :: g.HasNode(n) && e in Edges(n) ==> g.HasNode(Next(e))
    }

    function Edges(n: Node): seq<Edge>
      requires g.Shaped() && g.HasNode(n)
    {
      if dir == Forward then g.outEdges[n] else g.inEdges[n]
    }

    function Next(e: Edge): Node {
      if dir == Forward then e.target else e.source
    }

    /** `e` can be followed from `n`. */
    predicate Usable(n: Node, e: Edge)
      requires g.Shaped()
    {
      g.HasNode(n) && e in Edges(n) && admit(e)
    }

    ghost predicate Hop(u: Node, v: Node) {
      g.Shaped() && exists e :: Usable(u, e) && Next(e) == v
    }

    /** The relation walked by the search: one admitted edge. */
    ghost function Hops(): Hops {
      (u: Node, v: Node) => Hop(u, v)
    }

    function After(st: Progress, ev: Event): Progress {
      match ev
      case Start(n) => Progress(st.order + [n], st.stack + [n], st.examined)
      case Discover(e) => Progress(st.order + [Next(e)], st.stack + [Next(e)], st.examined + {e})
      case Revisit(e) => Progress(st.order, st.stack, st.examined + {e})
      case Pop => Progress(st.order, if st.stack == [] then [] else st.stack[..|st.stack| - 1], st.examined)
    }

    function Summary(tr: seq<Event>): Progress {
      if tr == [] then Progress([], [], {}) else After(Summary(tr[..|tr| - 1]), tr[|tr| - 1])
    }

    /** What the search may do next: only follow edges of the deepest node, and only once into a node. */
    ghost predicate Legal(st: Progress, ev: Event)
      requires g.Shaped()
    {
      match ev
      case Start(n) => g.HasNode(n) && st.order == st.stack == []
      case Discover(e) => st.stack != [] && Usable(st.stack[|st.stack| - 1], e) && Next(e) !in st.order
      case Revisit(e) => st.stack != [] && Usable(st.stack[|st.stack| - 1], e) && Next(e) in st.order
      case Pop => st.stack != [] && forall e :: Usable(st.stack[|st.stack| - 1], e) ==> e in st.examined
    }

    ghost predicate Trace(tr: seq<Event>)
      requires g.Shaped()
    {
      tr != [] ==> Trace(tr[..|tr| - 1]) && Legal(Summary(tr[..|tr| - 1]), tr[|tr| - 1])
    }

    ghost predicate TraceFrom(tr: seq<Event>, start: Node)
      requires g.Shaped()
    {
      Trace(tr) && Summary(tr).order != [] && Summary(tr).order[0] == start
    }

    /** The callbacks of a finished search. */
    ghost predicate Complete(tr: seq<Event>, start: Node)
      requires g.Shaped()
    {
      TraceFrom(tr, start) && Summary(tr).stack == []
    }

    lemma {:induction false} Prefix(tr: seq<Event>, k: nat)
      requires g.Shaped() && Trace(tr) && k <= |tr|
      ensures Trace(tr[..k])
      ensures k < |tr| ==> Legal(Summary(tr[..k]), tr[k])
      decreases |tr| - k
    {
      if k == |tr| {
        assert tr[..k] == tr;
      } else {
        Prefix(tr, k + 1);
        assert tr[..k + 1][..k] == tr[..k];
      }
    }

    lemma Append(tr: seq<Event>, ev: Event)
      requires g.Shaped() && Trace(tr) && Legal(Summary(tr), ev)
      ensures Trace(tr + [ev]) && Summary(tr + [ev]) == After(Summary(tr), ev)
      ensures Summary(tr).order != [] ==> Summary(tr + [ev]).order[0] == Summary(tr).order[0]
    {
      assert (tr + [ev])[..|tr|] == tr;
    }

    /** A stack entry is a node with an iterator behind which every admitted edge has been examined. */
    ghost predicate EntryOk(st: Progress, entry: (Node, nat), n: Node)
      requires g.Shaped()
    {
      && entry.0 == n && g.HasNode(n) && entry.1 <= |Edges(n)|
      && forall i :: 0 <= i < entry.1 && admit(Edges(n)[i]) ==> Edges(n)[i] in st.examined
    }

    /** The search's fields `visited` and `stack` agree with the progress `st`. */
    ghost predicate Represents(st: Progress, visited: set<Node>, stack: seq<(Node, nat)>)
      requires g.Shaped()
    {
      && (forall n :: n in visited <==> n in st.order)
      && |stack| == |st.stack|
      && forall k :: 0 <= k < |stack| ==> EntryOk(st, stack[k], st.stack[k])
    }

    /** A search from `start` that has made the callbacks `tr`. */
    ghost predicate Running(tr: seq<Event>, start: Node, visited: set<Node>, stack: seq<(Node, nat)>)
      requires g.Shaped()
    {
      TraceFrom(tr, start) && Represents(Summary(tr), visited, stack)
    }

    /** The deepest entry of the stack still has an edge, `e`, at its iterator. */
    ghost predicate AtEdge(st: Progress, visited: set<Node>, stack: seq<(Node, nat)>, e: Edge)
      requires g.Shaped()
    {
      && Represents(st, visited, stack) && stack != []
      && var (n, it) := stack[|stack| - 1];
      && g.HasNode(n) && it < |Edges(n)| && Edges(n)[it] == e
    }

    /** The stack with its deepest iterator moved on by one. */
    function Moved(stack: seq<(Node, nat)>): seq<(Node, nat)>
      requires stack != []
    {
      var (n, it) := stack[|stack| - 1];
      stack[..|stack| - 1] + [(n, it + 1)]
    }

    lemma SkipStep(st: Progress, visited: set<Node>, stack: seq<(Node, nat)>, e: Edge)
      requires g.Shaped() && AtEdge(st, visited, stack, e) && !admit(e)
      ensures Represents(st, visited, Moved(stack))
    {
      assert EntryOk(st, stack[|stack| - 1], st.stack[|stack| - 1]);
    }

    lemma RevisitStep(st: Progress, visited: set<Node>, stack: seq<(Node, nat)>, e: Edge)
      requires g.Shaped() && AtEdge(st, visited, stack, e) && admit(e) && Next(e) in visited
      ensures Legal(st, Revisit(e)) && Represents(After(st, Revisit(e)), visited, Moved(stack))
    {
      assert EntryOk(st, stack[|stack| - 1], st.stack[|stack| - 1]);
    }

    lemma DiscoverStep(st: Progress, visited: set<Node>, stack: seq<(Node, nat)>, e: Edge)
      requires g.Shaped() && AtEdge(st, visited, stack, e) && admit(e) && Next(e) !in visited && g.HasNode(Next(e))
      ensures Legal(st, Discover(e))
      ensures Represents(After(st, Discover(e)), visited + {Next(e)}, Moved(stack) + [(Next(e), 0)])
    {
      assert EntryOk(st, stack[|stack| - 1], st.stack[|stack| - 1]);
    }

    lemma PopStep(st: Progress, visited: set<Node>, stack: seq<(Node, nat)>)
      requires g.Shaped() && Represents(st, visited, stack) && stack != []
      requires g.HasNode(stack[|stack| - 1].0) && stack[|stack| - 1].1 == |Edges(stack[|stack| - 1].0)|
      ensures Legal(st, Pop) && Represents(After(st, Pop), visited, stack[..|stack| - 1])
    {
      assert EntryOk(st, stack[|stack| - 1], st.stack[|stack| - 1]);
    }

    lemma PopKeepsRunning(tr: seq<Event>, start: Node, visited: set<Node>, stack: seq<(Node, nat)>)
      requires g.Shaped() && Running(tr, start, visited, stack) && stack != []
      requires g.HasNode(stack[|stack| - 1].0) && stack[|stack| - 1].1 == |Edges(stack[|stack| - 1].0)|
      ensures Running(tr + [Pop], start, visited, stack[..|stack| - 1])
    {
      PopStep(Summary(tr), visited, stack);
      Append(tr, Pop);
    }

    lemma EdgeLeadsToNode(n: Node, i: nat)
      requires Valid() && g.HasNode(n) && i < |Edges(n)|
      ensures g.HasNode(Next(Edges(n)[i]))
    {
      assert Edges(n)[i] in Edges(n);
    }

    /** Each node is visited once; the stack is a simple walk of visited nodes from the first one visited. */
    ghost predicate Simple(st: Progress) {
      && Distinct(st.order) && Distinct(st.stack)
      && (forall n :: n in st.order ==> g.HasNode(n))
      && (forall n :: n in st.stack ==> n in st.order)
      && (st.stack != [] ==> IsWalk(Hops(), st.stack) && st.order != [] && st.stack[0] == st.order[0])
    }

    lemma SimpleStep(st: Progress, ev: Event)
      requires Valid() && Simple(st) && Legal(st, ev)
      ensures Simple(After(st, ev))
    {
      match ev
      case Discover(e) =>
        assert Hops()(st.stack[|st.stack| - 1], Next(e));
        WalkExtends(Hops(), st.stack, Next(e));
      case Pop =>
        if |st.stack| > 1 {
          WalkSplits(Hops(), st.stack);
        }
      case _ =>
    }

    lemma {:induction false} TraceIsSimple(tr: seq<Event>)
      requires Valid() && Trace(tr)
      ensures Simple(Summary(tr))
    {
      if tr != [] {
        TraceIsSimple(tr[..|tr| - 1]);
        SimpleStep(Summary(tr[..|tr| - 1]), tr[|tr| - 1]);
      }
    }

    /** Every visited node is reached by a walk. */
    lemma {:induction false} OrderIsReachable(tr: seq<Event>)
      requires Valid() && Trace(tr)
      ensures forall n :: n in Summary(tr).order ==> Reaches(Hops(), Summary(tr).order[0], n)
    {
      if tr != [] {
        OrderIsReachable(tr[..|tr| - 1]);
        TraceIsSimple(tr);
        match tr[|tr| - 1]
        case Start(n) =>
          assert WalkFromTo(Hops(), [n], n, n);
        case Discover(e) =>
          assert WalkFromTo(Hops(), Summary(tr).stack, Summary(tr).order[0], Next(e));
        case _ =>
      }
    }

    /** A node that left the stack has had all its admitted edges examined. */
    ghost predicate Settled(st: Progress)
      requires g.Shaped()
    {
      && (forall n, e :: n in st.order && n !in st.stack && Usable(n, e) ==> e in st.examined)
      && (forall e :: e in st.examined ==> Next(e) in st.order)
    }

    lemma SettledStep(st: Progress, ev: Event)
      requires g.Shaped() && Settled(st) && Legal(st, ev)
      ensures Settled(After(st, ev))
    {
      var st' := After(st, ev);
      forall n, e | n in st'.order && n !in st'.stack && Usable(n, e)
        ensures e in st'.examined
      {
        assert n in st.stack ==> ev.Pop? && n == st.stack[|st.stack| - 1];
      }
    }

    lemma {:induction false} TraceIsSettled(tr: seq<Event>)
      requires g.Shaped() && Trace(tr)
      ensures Settled(Summary(tr))
    {
      if tr != [] {
        TraceIsSettled(tr[..|tr| - 1]);
        SettledStep(Summary(tr[..|tr| - 1]), tr[|tr| - 1]);
      }
    }

    /** Along a walk, every node of a finished search has been visited. */
    lemma {:induction false} WalkIsVisited(tr: seq<Event>, start: Node, p: seq<Node>)
      requires g.Shaped() && Complete(tr, start) && IsWalk(Hops(), p) && p[0] in Summary(tr).order
      ensures p[|p| - 1] in Summary(tr).order
      decreases |p|
    {
      if |p| > 1 {
        WalkSplits(Hops(), p);
        WalkIsVisited(tr, start, p[..|p| - 1]);
        TraceIsSettled(tr);
        assert Hops()(p[|p| - 2], p[|p| - 1]);
      }
    }

    /** A finished search has visited exactly the nodes that admitted walks reach. */
    lemma VisitsReachable(tr: seq<Event>, start: Node, v: Node)
      requires Valid() && Complete(tr, start)
      ensures v in Summary(tr).order <==> Reaches(Hops(), start, v)
    {
      OrderIsReachable(tr);
      TraceIsSimple(tr);
      if Reaches(Hops(), start, v) {
        var p :| WalkFromTo(Hops(), p, start, v);
        WalkIsVisited(tr, start, p);
      }
    }
  }

  class DepthFirstSearch {
    const s: Search
    const startNode: Node
    var visitedNodes: set<Node>
    var visitStack: seq<(Node, nat)>
    var events: seq<Event>

    ghost predicate Valid()
      reads this
    {
      s.Valid() && s.Running(events, startNode, visitedNodes, visitStack)
    }

    /** Sets up the traversal and runs it to the end. */
    constructor (s: Search, startNode: Node)
      requires s.Valid() && s.g.HasNode(startNode)
      ensures this.s == s && s.Complete(events, startNode)
    {
      this.s, this.startNode := s, startNode;
      visitedNodes := {startNode};
      visitStack := [(startNode, 0)];
      events := [Start(startNode)];
      new;
      s.Append([], Start(startNode));
      assert [] + [Start(startNode)] == events;
      Run();
    }

    /** How many edges the deepest node has left. */
    function EdgesLeft(): nat
      reads this
    {
      if visitStack == [] || !s.g.Shaped() then 0
      else
        var (n, it) := visitStack[|visitStack| - 1];
        if s.g.HasNode(n) && it < |s.Edges(n)| then |s.Edges(n)| - it else 0
    }

    /** Takes the next edge of the deepest node; says whether it discovered and pushed a new node. */
    method VisitEdge() returns (pushed: bool)
      requires Valid() && EdgesLeft() != 0
      modifies this
      ensures Valid()
      ensures var (node, it) := old(visitStack)[|old(visitStack)| - 1];
              var edge := s.Edges(node)[it];
              && (pushed <==> s.admit(edge) && s.Next(edge) !in old(visitedNodes))
              && visitedNodes == old(visitedNodes) + (if pushed then {s.Next(edge)} else {})
              && visitStack == s.Moved(old(visitStack)) + (if pushed then [(s.Next(edge), 0)] else [])
      ensures pushed ==> visitedNodes <= s.g.AllNodes()
    {
      var (node, it) := visitStack[|visitStack| - 1];
      var edge := s.Edges(node)[it];
      var target := s.Next(edge);
      pushed := false;
      if !s.admit(edge) {
        s.SkipStep(s.Summary(events), visitedNodes, visitStack, edge);
        visitStack := s.Moved(visitStack);
      } else if target in visitedNodes {
        s.RevisitStep(s.Summary(events), visitedNodes, visitStack, edge);
        s.Append(events, Revisit(edge));
        visitStack, events := s.Moved(visitStack), events + [Revisit(edge)];
      } else {
        s.EdgeLeadsToNode(node, it);
        s.DiscoverStep(s.Summary(events), visitedNodes, visitStack, edge);
        s.Append(events, Discover(edge));
        visitStack, events := s.Moved(visitStack) + [(target, 0)], events + [Discover(edge)];
        visitedNodes := visitedNodes + {target};
        s.TraceIsSimple(events);
        pushed := true;
      }
    }

    /** All edges of the deepest node have been visited or skipped, so removes it from the stack. */
    method PopNode()
      requires Valid() && visitStack != [] && EdgesLeft() == 0
      modifies this`visitStack, this`events
      ensures Valid() && visitStack == old(visitStack)[..|old(visitStack)| - 1]
    {
      var top := |visitStack| - 1;
      assert s.EntryOk(s.Summary(events), visitStack[top], s.Summary(events).stack[top]);
      s.PopKeepsRunning(events, startNode, visitedNodes, visitStack);
      visitStack, events := visitStack[..top], events + [Pop];
    }

    /** Visits every unvisited child depth first, then pops, until the stack is empty. */
    method Run()
      requires Valid()
      modifies this
      ensures s.Complete(events, startNode)
      decreases s.g.AllNodes() - visitedNodes
    {
      while visitStack != []
        invariant Valid() && visitedNodes == old(visitedNodes)
        decreases |visitStack|
      {
        ghost var height := |visitStack|;
        while EdgesLeft() != 0
          invariant Valid() && visitedNodes == old(visitedNodes) && |visitStack| == height
          decreases EdgesLeft()
        {
          var pushed := VisitEdge();
          if pushed {
            Run();
            return;
          }
        }
        PopNode();
      }
    }
  }

  /** A forward search over the edges that enter no State node takes the steps of the graph that enter none. */
  lemma CombHop(s: Search, u: Node, v: Node)
    requires s.g.Valid() && s.dir == Forward && forall e :: s.admit(e) <==> EntersComb(s.g, e)
    ensures s.Hop(u, v) <==> CombSteps(s.g)(u, v)
  {
    if s.Hop(u, v) {
      var e :| s.Usable(u, e) && s.Next(e) == v;
      assert e in s.g.outEdges[u] && !e.note.disabled && e.target == v;
    }
    if StepsOut(s.g, u, v) && !IsState(s.g, v) {
      var e :| e in s.g.outEdges[u] && !e.note.disabled && e.target == v;
      assert s.Usable(u, e) && s.Next(e) == v;
    }
  }

  lemma CombHops(s: Search)
    requires s.g.Valid() && s.dir == Forward && forall e :: s.admit(e) <==> EntersComb(s.g, e)
    ensures SameHops(s.Hops(), CombSteps(s.g))
  {
    forall u: Node, v: Node
      ensures s.Hops()(u, v) <==> CombSteps(s.g)(u, v)
    {
      CombHop(s, u, v);
    }
  }

  /** A forward search over the edges that are not disabled takes the enabled steps. */
  lemma EnabledHops(s: Search)
    requires s.g.Valid() && s.dir == Forward && forall e :: s.admit(e) <==> !e.note.disabled
    ensures SameHops(s.Hops(), EnabledSteps(s.g))
  {
    forall u: Node, v: Node
      ensures s.Hops()(u, v) <==> EnabledSteps(s.g)(u, v)
    {
      if s.Hop(u, v) {
        var e :| s.Usable(u, e) && s.Next(e) == v;
        assert e in s.g.outEdges[u] && !e.note.disabled && e.target == v;
      }
      if StepsOut(s.g, u, v) {
        var e :| e in s.g.outEdges[u] && !e.note.disabled && e.target == v;
        assert s.Usable(u, e) && s.Next(e) == v;
      }
    }
  }
}
