/** Unbounded combinational cones of a node (source/NetlistGraph.cpp, getCombFanOut and getCombFanIn). */
module CombFan {
  import opened Netlist
  import opened DepthFirstSearch
  import opened GraphSteps
  import opened Sequences
  import opened Walks

  /** Follows enabled edges forward, never into a State node. */
  function FanOutSearch(g: Graph): Search {
    Search(g, Forward, e => EntersComb(g, e))
  }

  /** Follows enabled edges backward, never into a State node. */
  function FanInSearch(g: Graph): Search {
    Search(g, Backward, e => LeavesComb(g, e))
  }

  /** What the visitor collects: a node at each visitNode callback. */
  method VisitedNodes(s: Search, events: seq<Event>) returns (result: seq<Node>)
    ensures result == s.Summary(events).order
  {
    result := [];
    for i := 0 to |events|
      invariant result == s.Summary(events[..i]).order
    {
      assert events[..i + 1][..i] == events[..i];
      match events[i]
      case Start(n) => result := result + [n];
      case Discover(e) => result := result + [s.Next(e)];
      case _ =>
    }
    assert events[..|events|] == events;
  }

  /** The nodes the visitor collects, in the order of their visitNode callbacks. */
  method Collect(s: Search, node: Node) returns (result: seq<Node>)
    requires s.Valid() && s.g.HasNode(node)
    ensures forall v :: v in result <==> Reaches(s.Hops(), node, v)
    ensures Distinct(result)
    ensures result != [] && result[0] == node
  {
    var dfs := new DepthFirstSearch(s, node);
    var events := dfs.events;
    result := VisitedNodes(s, events);
    s.TraceIsSimple(events);
    forall v
      ensures v in result <==> Reaches(s.Hops(), node, v)
    {
      s.VisitsReachable(events, node, v);
    }
  }

  lemma FanInSteps(g: Graph)
    requires g.Valid()
    ensures SameHops(FanInSearch(g).Hops(), CombStepsBack(g))
  {
    forall u: Node, v: Node
      ensures FanInSearch(g).Hops()(u, v) <==> CombStepsBack(g)(u, v)
    {
      var s := FanInSearch(g);
      if s.Hop(u, v) {
        var e :| s.Usable(u, e) && s.Next(e) == v;
        assert e in g.inEdges[u] && !e.note.disabled && e.source == v;
      }
      if StepsIn(g, u, v) && !IsState(g, v) {
        var e :| e in g.inEdges[u] && !e.note.disabled && e.source == v;
        assert s.Usable(u, e) && s.Next(e) == v;
      }
    }
  }

  method GetCombFanOut(g: Graph, node: Node) returns (result: seq<Node>)
    requires g.Valid() && g.HasNode(node)
    ensures forall v :: v in result <==> Reaches(CombSteps(g), node, v)
    ensures Distinct(result)
    ensures result != [] && result[0] == node
  {
    result := Collect(FanOutSearch(g), node);
    CombHops(FanOutSearch(g));
    forall v ensures v in result <==> Reaches(CombSteps(g), node, v) { SameReach(FanOutSearch(g).Hops(), CombSteps(g), node, v); }
  }

  method GetCombFanIn(g: Graph, node: Node) returns (result: seq<Node>)
    requires g.Valid() && g.HasNode(node)
    ensures forall v :: v in result <==> Reaches(CombStepsBack(g), node, v)
    ensures Distinct(result)
    ensures result != [] && result[0] == node
  {
    result := Collect(FanInSearch(g), node);
    FanInSteps(g);
    forall v ensures v in result <==> Reaches(CombStepsBack(g), node, v) { SameReach(FanInSearch(g).Hops(), CombStepsBack(g), node, v); }
  }

  /** Away from State nodes, one forward step is one backward step. */
  lemma StepsAgree(g: Graph, u: Node, v: Node)
    requires g.Valid() && g.HasNode(u) && g.HasNode(v)
    ensures StepsOut(g, u, v) <==> StepsIn(g, v, u)
  {
    if StepsOut(g, u, v) {
      var e :| e in g.outEdges[u] && !e.note.disabled && e.target == v;
      assert e in g.inEdges[v] && e.source == u;
    }
    if StepsIn(g, v, u) {
      var e :| e in g.inEdges[v] && !e.note.disabled && e.source == u;
      assert e in g.outEdges[u] && e.target == v;
    }
  }

  lemma StepsStayInGraph(g: Graph, u: Node, v: Node)
    requires g.Valid()
    ensures StepsOut(g, u, v) || StepsIn(g, u, v) ==> g.HasNode(u) && g.HasNode(v)
  {
  }

  /** For two nodes that are not State nodes, one is in the fan-out of the other iff the other is in its fan-in. */
  lemma FanOutIsFanInReversed(g: Graph, n: Node, m: Node)
    requires g.Valid() && g.HasNode(n) && g.HasNode(m) && !IsState(g, n) && !IsState(g, m)
    ensures Reaches(CombSteps(g), n, m) <==> Reaches(CombStepsBack(g), m, n)
  {
    if p :| WalkFromTo(CombSteps(g), p, n, m) {
      ReverseWalk(g, p, true);
    }
    if p :| WalkFromTo(CombStepsBack(g), p, m, n) {
      ReverseWalk(g, p, false);
    }
  }

  ghost function Steps(g: Graph, forward: bool): Hops {
    if forward then CombSteps(g) else CombStepsBack(g)
  }

  lemma ReverseWalk(g: Graph, p: seq<Node>, forward: bool)
    requires g.Valid() && IsWalk(Steps(g, forward), p) && g.HasNode(p[0]) && !IsState(g, p[0])
    ensures WalkFromTo(Steps(g, !forward), Reversed(p), p[|p| - 1], p[0])
  {
    forall i | 0 <= i < |p| - 1
      ensures Steps(g, !forward)(p[i + 1], p[i])
    {
      assert HopAt(Steps(g, forward), p, i);
      if i > 0 {
        assert HopAt(Steps(g, forward), p, i - 1);
      }
      StepsStayInGraph(g, p[i], p[i + 1]);
      StepsAgree(g, p[i], p[i + 1]);
      StepsAgree(g, p[i + 1], p[i]);
    }
    ReversedIsWalk(Steps(g, !forward), p);
  }

  /** A State node feeding `m` through one enabled edge has `m` in its fan-out without being in the fan-in of `m`. */
  lemma StateBreaksDuality(g: Graph, n: Node, m: Node, e: Edge)
    requires g.Valid() && g.HasNode(n) && g.HasNode(m) && IsState(g, n) && !IsState(g, m)
    requires e in g.outEdges[n] && e.target == m && !e.note.disabled
    ensures Reaches(CombSteps(g), n, m) && !Reaches(CombStepsBack(g), m, n)
  {
    assert CombSteps(g)(n, m);
    WalkExtends(CombSteps(g), [n], m);
    assert WalkFromTo(CombSteps(g), [n] + [m], n, m);
    if p :| WalkFromTo(CombStepsBack(g), p, m, n) {
      WalkSplits(CombStepsBack(g), p);
    }
  }
}
