/**
  What one step of a query over the netlist is, on the edge lists of its nodes: over an
  edge that is not disabled, and without entering or without leaving a State node
  (source/CombLoops.cpp, source/PathFinder.cpp, source/NetlistGraph.cpp).
  */
module GraphSteps {
  import opened Netlist
  import opened Walks

  predicate IsState(g: Graph, n: Node) {
    g.HasNode(n) && g.nodes[n].payload.StateData?
  }

  /** An out-edge of `u` that is not disabled leads to `v`. */
  ghost predicate StepsOut(g: Graph, u: Node, v: Node) {
    g.Shaped() && g.HasNode(u) && exists e :: e in g.outEdges[u] && !e.note.disabled && e.target == v
  }

  /** An in-edge of `u` that is not disabled comes from `v`. */
  ghost predicate StepsIn(g: Graph, u: Node, v: Node) {
    g.Shaped() && g.HasNode(u) && exists e :: e in g.inEdges[u] && !e.note.disabled && e.source == v
  }

  /** Forward over enabled edges. */
  ghost function EnabledSteps(g: Graph): Hops {
    (u: Node, v: Node) => StepsOut(g, u, v)
  }

  /** Forward over enabled edges, never into a State node. */
  ghost function CombSteps(g: Graph): Hops {
    (u: Node, v: Node) => StepsOut(g, u, v) && !IsState(g, v)
  }

  /** Backward over enabled edges, never into a State node. */
  ghost function CombStepsBack(g: Graph): Hops {
    (u: Node, v: Node) => StepsIn(g, u, v) && !IsState(g, v)
  }

  /** Backward over enabled edges, never on from a State node. */
  ghost function StepsBackToState(g: Graph): Hops {
    (u: Node, v: Node) => StepsIn(g, u, v) && !IsState(g, u)
  }

  ghost predicate SameHops(h: Hops, k: Hops) {
    forall u, v :: h(u, v) <==> k(u, v)
  }

  lemma SameWalks(h: Hops, k: Hops, p: seq<Node>)
    requires SameHops(h, k)
    ensures IsWalk(h, p) <==> IsWalk(k, p)
  {
    assert forall i :: 0 <= i < |p| - 1 ==> (HopAt(h, p, i) <==> HopAt(k, p, i));
  }

  lemma SameReach(h: Hops, k: Hops, u: Node, v: Node)
    requires SameHops(h, k)
    ensures Reaches(h, u, v) <==> Reaches(k, u, v)
  {
    if p :| WalkFromTo(h, p, u, v) {
      SameWalks(h, k, p);
      assert WalkFromTo(k, p, u, v);
    }
    if p :| WalkFromTo(k, p, u, v) {
      SameWalks(h, k, p);
      assert WalkFromTo(h, p, u, v);
    }
  }

  lemma SameCycles(h: Hops, k: Hops, c: seq<Node>)
    requires SameHops(h, k)
    ensures IsCycle(h, c) <==> IsCycle(k, c)
  {
    SameWalks(h, k, c);
  }

  lemma SameOnCycle(h: Hops, k: Hops, n: Node)
    requires SameHops(h, k)
    ensures OnCycle(h, n) <==> OnCycle(k, n)
  {
    if p :| WalkFromTo(h, p, n, n) && |p| > 1 {
      SameWalks(h, k, p);
      assert WalkFromTo(k, p, n, n);
    }
    if p :| WalkFromTo(k, p, n, n) && |p| > 1 {
      SameWalks(h, k, p);
      assert WalkFromTo(h, p, n, n);
    }
  }

  lemma SameDistance(h: Hops, k: Hops, roots: set<Node>, v: Node, d: nat)
    requires SameHops(h, k)
    ensures IsDistance(h, roots, v, d) <==> IsDistance(k, roots, v, d)
  {
    forall p
      ensures WalkFromRoot(h, roots, p, v) <==> WalkFromRoot(k, roots, p, v)
    {
      SameWalks(h, k, p);
    }
  }

  /** What is reached by some walk is at some distance, which is no more than the walk's length. */
  lemma {:induction false} DistanceExists(h: Hops, roots: set<Node>, p: seq<Node>, v: Node) returns (d: nat)
    requires WalkFromRoot(h, roots, p, v)
    ensures IsDistance(h, roots, v, d) && d <= |p| - 1
    decreases |p|
  {
    if q :| WalkFromRoot(h, roots, q, v) && |q| < |p| {
      d := DistanceExists(h, roots, q, v);
    } else {
      d := |p| - 1;
    }
  }
}
