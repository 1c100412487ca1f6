/** Paths through the netlist from a depth-first parent map (source/PathFinder.cpp). */
module PathFinder {
  import opened Netlist
  import opened DepthFirstSearch
  import opened GraphSteps
  import opened Sequences
  import opened Walks

  type TraversalMap = map<Node, Node>

  /** The parent map after the callbacks `tr`: each discovered node's edge source. */
  function ParentsOf(tr: seq<Event>): TraversalMap {
    if tr == [] then
      map[]
    else
      var parents := ParentsOf(tr[..|tr| - 1]);
      match tr[|tr| - 1]
      case Discover(e) => parents[e.target := e.source]
      case _ => parents
  }

  function Rank(order: seq<Node>, n: Node): (r: nat)
    requires n in order
    ensures r < |order| && order[r] == n
  {
    if order[0] == n then 0 else 1 + Rank(order[1..], n)
  }

  /**
    A tree on the visited nodes: the first has no parent; any other hops from its
    parent, which was visited before it.
    */
  ghost predicate IsTree(h: Hops, order: seq<Node>, parents: TraversalMap)
  {
    && (forall i, j :: 0 <= i < j < |order| ==> order[i] != order[j])
    && (forall n :: n in parents <==> n in order && n != order[0])
    && (forall n {:trigger HangsBelow(h, order, parents, n)} :: n in parents ==> HangsBelow(h, order, parents, n))
  }

  ghost predicate HangsBelow(h: Hops, order: seq<Node>, parents: TraversalMap, n: Node)
    requires n in parents
  {
    var u := parents[n];
    u in order && n in order && h(u, n) && Rank(order, u) < Rank(order, n)
  }

  lemma RankIsPosition(order: seq<Node>, k: nat)
    requires k < |order| && forall i, j :: 0 <= i < j < |order| ==> order[i] != order[j]
    ensures Rank(order, order[k]) == k
  {
    var r := Rank(order, order[k]);
  }

  lemma TreeGrows(h: Hops, order: seq<Node>, parents: TraversalMap, u: Node, v: Node)
    requires IsTree(h, order, parents) && u in order && v !in order && h(u, v)
    ensures IsTree(h, order + [v], parents[v := u])
  {
    var order', parents' := order + [v], parents[v := u];
    RankIsPosition(order', |order|);
    forall n | n in parents'
      ensures HangsBelow(h, order', parents', n)
    {
      assert n != v ==> HangsBelow(h, order, parents, n);
      RankIsPosition(order', Rank(order, parents'[n]));
      if n != v {
        RankIsPosition(order', Rank(order, n));
      }
    }
  }

  /** The visitor never gives a node two parents, and what it builds is a tree. */
  lemma {:induction false} ParentsAreTree(s: Search, tr: seq<Event>)
    requires s.Valid() && s.g.Valid() && s.dir == Forward && s.Trace(tr)
    ensures IsTree(s.Hops(), s.Summary(tr).order, ParentsOf(tr))
  {
    if tr != [] {
      var before, ev := tr[..|tr| - 1], tr[|tr| - 1];
      ParentsAreTree(s, before);
      s.TraceIsSimple(before);
      if ev.Discover? {
        var st := s.Summary(before);
        var top := st.stack[|st.stack| - 1];
        assert top in st.order && top == ev.e.source;
        assert s.Hops()(top, ev.e.target);
        TreeGrows(s.Hops(), st.order, ParentsOf(before), top, ev.e.target);
      }
    }
  }

  class Visitor {
    var traversalMap: TraversalMap

    constructor ()
      ensures traversalMap == map[]
    {
      traversalMap := map[];
    }

    /** The source asserts that no node gets two parents; that is this precondition. */
    method VisitEdge(edge: Edge)
      requires edge.target !in traversalMap
      modifies this
      ensures traversalMap == old(traversalMap)[edge.target := edge.source]
    {
      traversalMap := traversalMap[edge.target := edge.source];
    }

    /** Receives the callbacks of a search, in order. */
    method Receive(s: Search, events: seq<Event>)
      requires s.Valid() && s.g.Valid() && s.dir == Forward && s.Trace(events) && traversalMap == map[]
      modifies this
      ensures traversalMap == ParentsOf(events)
    {
      for i := 0 to |events|
        invariant traversalMap == ParentsOf(events[..i])
      {
        ParentsStep(s, events, i);
        if events[i].Discover? {
          VisitEdge(events[i].e);
        }
      }
      assert events[..|events|] == events;
    }
  }

  lemma NewHasNoParent(s: Search, tr: seq<Event>, i: nat)
    requires s.Valid() && s.g.Valid() && s.dir == Forward && s.Trace(tr) && i < |tr| && tr[i].Discover?
    ensures tr[i].e.target !in ParentsOf(tr[..i])
  {
    assert tr[..i + 1][..i] == tr[..i];
    s.Prefix(tr, i);
    ParentsAreTree(s, tr[..i]);
  }

  lemma ParentsStep(s: Search, tr: seq<Event>, i: nat)
    requires s.Valid() && s.g.Valid() && s.dir == Forward && s.Trace(tr) && i < |tr|
    ensures var parents := ParentsOf(tr[..i]);
            if tr[i].Discover? then
              tr[i].e.target !in parents && ParentsOf(tr[..i + 1]) == parents[tr[i].e.target := tr[i].e.source]
            else ParentsOf(tr[..i + 1]) == parents
  {
    assert tr[..i + 1][..i] == tr[..i];
    if tr[i].Discover? {
      NewHasNoParent(s, tr, i);
    }
  }

  /** Steps from a node to its parents: each hop leads down in rank. */
  ghost predicate IsDescent(h: Hops, order: seq<Node>, back: seq<Node>) {
    && back != []
    && (forall i :: 0 <= i < |back| ==> back[i] in order)
    && (forall i, j :: 0 <= i < j < |back| ==> Rank(order, back[j]) < Rank(order, back[i]))
    && (forall i :: 0 <= i < |back| - 1 ==> h(back[i + 1], back[i]))
  }

  lemma DescentGrows(h: Hops, order: seq<Node>, parents: TraversalMap, back: seq<Node>)
    requires IsTree(h, order, parents) && IsDescent(h, order, back) && order != [] && back[|back| - 1] != order[0]
    ensures back[|back| - 1] in parents && parents[back[|back| - 1]] in order
    ensures IsDescent(h, order, back + [parents[back[|back| - 1]]])
    ensures Rank(order, parents[back[|back| - 1]]) < Rank(order, back[|back| - 1])
  {
    assert HangsBelow(h, order, parents, back[|back| - 1]);
  }

  /** Walks the parent map back from the end node; every lookup succeeds and the walk ends. */
  method BuildPath(ghost h: Hops, traversalMap: TraversalMap, startNode: Node, endNode: Node, ghost order: seq<Node>)
    returns (path: seq<Node>)
    requires IsTree(h, order, traversalMap) && order != [] && order[0] == startNode
    ensures path == [] <==> endNode !in order || endNode == startNode
    ensures path != [] ==> WalkFromTo(h, path, startNode, endNode) && Distinct(path)
  {
    if endNode !in traversalMap {
      return [];
    }
    if startNode == endNode {
      return [endNode];
    }
    path := [endNode];
    DescentGrows(h, order, traversalMap, path);
    var nextNode := traversalMap[endNode];
    path := path + [nextNode];
    while nextNode != startNode
      invariant IsDescent(h, order, path) && |path| > 1 && path[|path| - 1] == nextNode && path[0] == endNode
      decreases Rank(order, nextNode)
    {
      DescentGrows(h, order, traversalMap, path);
      nextNode := traversalMap[nextNode];
      path := path + [nextNode];
    }
    ReversedIsWalk(h, path);
    path := Reversed(path);
  }

  /** Depth-first search with a parent map, then the path back. */
  method FindWith(g: Graph, admit: Edge -> bool, startNode: Node, endNode: Node) returns (path: seq<Node>)
    requires g.Valid() && g.HasNode(startNode)
    ensures IsFound(Search(g, Forward, admit).Hops(), path, startNode, endNode)
  {
    var s := Search(g, Forward, admit);
    var visitor := new Visitor();
    var dfs := new DepthFirstSearch(s, startNode);
    visitor.Receive(s, dfs.events);
    ParentsAreTree(s, dfs.events);
    s.TraceIsSimple(dfs.events);
    s.VisitsReachable(dfs.events, startNode, endNode);
    path := BuildPath(s.Hops(), visitor.traversalMap, startNode, endNode, s.Summary(dfs.events).order);
  }

  /** A path is found if and only if the end is another node that steps lead to, and it is one without repeats. */
  ghost predicate IsFound(h: Hops, path: seq<Node>, startNode: Node, endNode: Node) {
    && (path != [] <==> startNode != endNode && Reaches(h, startNode, endNode))
    && (path != [] ==> WalkFromTo(h, path, startNode, endNode) && Distinct(path))
  }

  lemma SameFound(h: Hops, k: Hops, path: seq<Node>, startNode: Node, endNode: Node)
    requires SameHops(h, k) && IsFound(h, path, startNode, endNode)
    ensures IsFound(k, path, startNode, endNode)
  {
    SameReach(h, k, startNode, endNode);
    SameWalks(h, k, path);
  }

  /** A path over enabled edges. */
  method Find(g: Graph, startNode: Node, endNode: Node) returns (path: seq<Node>)
    requires g.Valid() && g.HasNode(startNode)
    ensures IsFound(EnabledSteps(g), path, startNode, endNode)
  {
    var admit := (e: Edge) => !e.note.disabled;
    path := FindWith(g, admit, startNode, endNode);
    ghost var s := Search(g, Forward, admit);
    EnabledHops(s);
    SameFound(s.Hops(), EnabledSteps(g), path, startNode, endNode);
  }

  /** A path over enabled edges that enters no State node. */
  method FindComb(g: Graph, startNode: Node, endNode: Node) returns (path: seq<Node>)
    requires g.Valid() && g.HasNode(startNode)
    ensures IsFound(CombSteps(g), path, startNode, endNode)
  {
    var admit := (e: Edge) => EntersComb(g, e);
    path := FindWith(g, admit, startNode, endNode);
    ghost var s := Search(g, Forward, admit);
    CombHops(s);
    SameFound(s.Hops(), CombSteps(g), path, startNode, endNode);
  }
}
