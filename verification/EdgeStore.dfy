/**
  Nodes that own their out-edges, name their in-edges, and index the first edge to
  each target once they have many (include/netlist/DirectedGraph.hpp). Each method is
  one step of a sequential run; the locks are not modelled.
  */
module EdgeStore {
  import opened Wrappers

  class Edge {
    const source: Node
    const target: Node

    constructor (source: Node, target: Node)
      ensures this.source == source && this.target == target
    {
      this.source := source;
      this.target := target;
    }
  }

  /** The edges that lead to a node, or from one. */
  datatype Side = To(node: Node) | From(node: Node)

  predicate Joins(e: Edge, side: Side) {
    match side
    case To(n) => e.target == n
    case From(n) => e.source == n
  }

  function Where(edges: seq<Edge>, side: Side): seq<Edge> {
    if edges == [] then [] else Where(edges[..|edges| - 1], side) + (if Joins(edges[|edges| - 1], side) then [edges[|edges| - 1]] else [])
  }

  function Except(edges: seq<Edge>, side: Side): seq<Edge> {
    if edges == [] then [] else Except(edges[..|edges| - 1], side) + (if Joins(edges[|edges| - 1], side) then [] else [edges[|edges| - 1]])
  }

  /** The position of the first such edge, or the end. */
  function FirstIndex(edges: seq<Edge>, side: Side): (i: nat)
    ensures i <= |edges| && (i < |edges| ==> Joins(edges[i], side)) && forall j :: 0 <= j < i ==> !Joins(edges[j], side)
  {
    if edges == [] then 0 else if Joins(edges[0], side) then 0 else 1 + FirstIndex(edges[1..], side)
  }

  /** The scan's answer. */
  function First(edges: seq<Edge>, side: Side): Option<Edge> {
    var i := FirstIndex(edges, side);
    if i < |edges| then Some(edges[i]) else None
  }

  function DropFirst(edges: seq<Edge>, side: Side): seq<Edge> {
    var i := FirstIndex(edges, side);
    if i < |edges| then edges[..i] + edges[i + 1..] else edges
  }

  lemma {:induction false} WhereAdds(a: seq<Edge>, b: seq<Edge>, side: Side)
    ensures Where(a + b, side) == Where(a, side) + Where(b, side)
    ensures Except(a + b, side) == Except(a, side) + Except(b, side)
  {
    if b == [] {
      assert a + b == a;
    } else {
      assert (a + b)[..|a + b| - 1] == a + b[..|b| - 1];
      WhereAdds(a, b[..|b| - 1], side);
    }
  }

  lemma {:induction false} WhereNone(edges: seq<Edge>, side: Side)
    requires forall e :: e in edges ==> !Joins(e, side)
    ensures Where(edges, side) == [] && Except(edges, side) == edges
  {
    if edges != [] {
      WhereNone(edges[..|edges| - 1], side);
    }
  }

  lemma {:induction false} ExceptHas(edges: seq<Edge>, side: Side)
    ensures forall e :: e in Except(edges, side) ==> e in edges && !Joins(e, side)
  {
    if edges != [] {
      var n := |edges| - 1;
      ExceptHas(edges[..n], side);
      assert edges == edges[..n] + [edges[n]];
    }
  }

  lemma FirstIndexIs(edges: seq<Edge>, side: Side, i: nat)
    requires i <= |edges| && (i < |edges| ==> Joins(edges[i], side)) && forall j :: 0 <= j < i ==> !Joins(edges[j], side)
    ensures FirstIndex(edges, side) == i
  {
    var k := FirstIndex(edges, side);
    assert i <= k && k <= i;
  }

  /** The edges to a side are those before a position, the one there if it joins, and those after. */
  lemma WhereAround(edges: seq<Edge>, i: nat, side: Side)
    requires i < |edges|
    ensures Where(edges, side) == Where(edges[..i], side) + (if Joins(edges[i], side) then [edges[i]] else []) + Where(edges[i + 1..], side)
    ensures Except(edges, side) == Except(edges[..i], side) + (if Joins(edges[i], side) then [] else [edges[i]]) + Except(edges[i + 1..], side)
  {
    assert edges == edges[..i + 1] + edges[i + 1..] && edges[..i + 1][..i] == edges[..i];
    WhereAdds(edges[..i + 1], edges[i + 1..], side);
  }

  lemma MiddleIsFirst(pre: seq<Edge>, x: Edge, post: seq<Edge>, side: Side)
    requires Where(pre, side) == [] && Except(pre, side) == pre && Joins(x, side)
    ensures Where(pre + [x] + post, side) == [x] + Where(pre + post, side)
    ensures Except(pre + [x] + post, side) == Except(pre + post, side)
  {
    assert (pre + [x])[..|pre|] == pre;
    WhereAdds(pre + [x], post, side);
    WhereAdds(pre, post, side);
  }

  lemma FoundAt(edges: seq<Edge>, side: Side, i: nat)
    requires i < |edges| && Joins(edges[i], side) && forall j :: 0 <= j < i ==> !Joins(edges[j], side)
    ensures Where(edges, side) == [edges[i]] + Where(edges[..i] + edges[i + 1..], side)
    ensures Except(edges, side) == Except(edges[..i] + edges[i + 1..], side)
  {
    var pre, x, post := edges[..i], edges[i], edges[i + 1..];
    assert pre + [x] + post == edges;
    WhereNone(pre, side);
    MiddleIsFirst(pre, x, post, side);
  }

  /** The scan finds the first of the edges to the side; removing it leaves the others, in order. */
  lemma FoundIsFirst(edges: seq<Edge>, side: Side)
    requires First(edges, side).Some?
    ensures Where(edges, side) == [First(edges, side).value] + Where(DropFirst(edges, side), side)
    ensures Except(edges, side) == Except(DropFirst(edges, side), side)
  {
    FoundAt(edges, side, FirstIndex(edges, side));
  }

  lemma FoundUnlessNone(edges: seq<Edge>, side: Side)
    ensures First(edges, side).None? <==> Where(edges, side) == []
  {
    if First(edges, side).None? {
      WhereNone(edges, side);
    } else {
      FoundIsFirst(edges, side);
    }
  }

  /** Removing an edge to one side leaves alone the edges to a side it does not join. */
  lemma DropKeepsOthers(edges: seq<Edge>, side: Side, other: Side)
    requires First(edges, side).Some? ==> !Joins(First(edges, side).value, other)
    ensures Where(DropFirst(edges, side), other) == Where(edges, other)
  {
    var i := FirstIndex(edges, side);
    if i < |edges| {
      WhereAround(edges, i, other);
      WhereAdds(edges[..i], edges[i + 1..], other);
    }
  }

  const OUT_EDGE_INDEX_THRESHOLD: nat := 16

  type Index = map<Node, Edge>

  /** The index maps exactly the targets of the edges, each to the first edge to it. */
  ghost predicate Agrees(index: Index, edges: seq<Edge>) {
    && (forall e :: e in edges ==> e.target in index)
    && (forall t {:trigger First(edges, To(t))} :: t in index ==> First(edges, To(t)) == Some(index[t]))
  }

  lemma LookupAgrees(index: Index, edges: seq<Edge>, t: Node)
    requires Agrees(index, edges)
    ensures First(edges, To(t)) == if t in index then Some(index[t]) else None
  {
    if First(edges, To(t)).Some? {
      assert edges[FirstIndex(edges, To(t))] in edges;
    }
  }

  lemma FirstInJoin(a: seq<Edge>, e: Edge, side: Side)
    ensures First(a + [e], side) == if First(a, side).Some? then First(a, side) else if Joins(e, side) then Some(e) else None
  {
    var i := FirstIndex(a, side);
    FirstIndexIs(a + [e], side, if i < |a| || Joins(e, side) then i else |a| + 1);
  }

  /** A new edge enters the index only when its target is not in it yet. */
  lemma IndexGrows(index: Index, edges: seq<Edge>, e: Edge, more: Index, longer: seq<Edge>)
    requires Agrees(index, edges) && longer == edges + [e]
    requires more == if e.target in index then index else index[e.target := e]
    ensures Agrees(more, longer)
  {
    forall t | t in more
      ensures First(longer, To(t)) == Some(more[t])
    {
      FirstInJoin(edges, e, To(t));
      LookupAgrees(index, edges, t);
    }
  }

  class Node {
    var inEdges: seq<Edge>
    var outEdges: seq<Edge>
    var outEdgeIndex: Option<Index>

    constructor ()
      ensures Valid() && inEdges == [] && outEdges == []
    {
      inEdges, outEdges, outEdgeIndex := [], [], None;
    }

    ghost predicate Valid()
      reads this
    {
      && (forall e :: e in outEdges ==> e.source == this)
      && (forall e :: e in inEdges ==> e.target == this)
      && IndexValid()
    }

    /** The index is there whenever the node has many edges, and agrees with them. */
    ghost predicate IndexValid()
      reads this`outEdges, this`outEdgeIndex
    {
      match outEdgeIndex
      case None => |outEdges| <= OUT_EDGE_INDEX_THRESHOLD
      case Some(index) => Agrees(index, outEdges)
    }

    method FindEdgeTo(target: Node) returns (i: nat)
      ensures i == FirstIndex(outEdges, To(target))
    {
      i := Find(outEdges, To(target));
    }

    method FindEdgeFrom(source: Node) returns (i: nat)
      ensures i == FirstIndex(inEdges, From(source))
    {
      i := Find(inEdges, From(source));
    }

    /** Through the index when there is one, by a scan otherwise: the same edge either way. */
    method LookupOutEdge(target: Node) returns (r: Option<Edge>)
      requires IndexValid()
      ensures r == First(outEdges, To(target))
    {
      if outEdgeIndex.Some? {
        LookupAgrees(outEdgeIndex.value, outEdges, target);
        return if target in outEdgeIndex.value then Some(outEdgeIndex.value[target]) else None;
      }
      var i := FindEdgeTo(target);
      r := if i < |outEdges| then Some(outEdges[i]) else None;
    }

    method BuildOutEdgeIndex()
      modifies this`outEdgeIndex
      ensures IndexValid() && outEdgeIndex.Some?
    {
      var index: Index := map[];
      for i := 0 to |outEdges|
        invariant Agrees(index, outEdges[..i])
      {
        var e := outEdges[i];
        ghost var before := index;
        if e.target !in index {
          index := index[e.target := e];
        }
        assert outEdges[..i + 1] == outEdges[..i] + [e];
        IndexGrows(before, outEdges[..i], e, index, outEdges[..i + 1]);
      }
      assert outEdges[..|outEdges|] == outEdges;
      outEdgeIndex := Some(index);
    }

    /** Appends an out-edge and keeps the index on the first edge to each target, building it when the threshold is crossed. */
    method PushOutEdge(e: Edge)
      requires IndexValid()
      modifies this`outEdges, this`outEdgeIndex
      ensures outEdges == old(outEdges) + [e] && IndexValid()
    {
      outEdges := outEdges + [e];
      if outEdgeIndex.Some? {
        ghost var before := outEdgeIndex.value;
        if e.target !in outEdgeIndex.value {
          outEdgeIndex := Some(outEdgeIndex.value[e.target := e]);
        }
        IndexGrows(before, old(outEdges), e, outEdgeIndex.value, outEdges);
      } else if |outEdges| > OUT_EDGE_INDEX_THRESHOLD {
        BuildOutEdgeIndex();
      }
    }

    /** Returns the first edge to the target, or adds one. */
    method AddEdge(target: Node) returns (r: Edge)
      requires IndexValid()
      modifies this`outEdges, this`outEdgeIndex, target`inEdges
      ensures r.source == this || First(old(outEdges), To(target)).Some?
      ensures r.target == target
      ensures First(old(outEdges), To(target)).Some? ==>
                && r == First(old(outEdges), To(target)).value
                && outEdges == old(outEdges) && outEdgeIndex == old(outEdgeIndex) && target.inEdges == old(target.inEdges)
      ensures First(old(outEdges), To(target)).None? ==>
                && fresh(r)
                && outEdges == old(outEdges) + [r] && target.inEdges == old(target.inEdges) + [r]
      ensures IndexValid()
    {
      var existing := LookupOutEdge(target);
      if existing.Some? {
        return existing.value;
      }
      r := new Edge(this, target);
      PushOutEdge(r);
      target.inEdges := target.inEdges + [r];
    }

    /** Adds an edge even when there is one already. */
    method AddNewEdge(target: Node) returns (r: Edge)
      requires IndexValid()
      modifies this`outEdges, this`outEdgeIndex, target`inEdges
      ensures fresh(r) && r.source == this && r.target == target
      ensures outEdges == old(outEdges) + [r] && target.inEdges == old(target.inEdges) + [r]
      ensures IndexValid()
    {
      r := new Edge(this, target);
      PushOutEdge(r);
      target.inEdges := target.inEdges + [r];
    }

    method RemoveInEdge(source: Node) returns (found: bool)
      modifies this`inEdges
      ensures found <==> First(old(inEdges), From(source)).Some?
      ensures inEdges == DropFirst(old(inEdges), From(source))
    {
      var i := FindEdgeFrom(source);
      found := i < |inEdges|;
      if found {
        inEdges := inEdges[..i] + inEdges[i + 1..];
      }
    }

    /** Removes the first edge to the target, on both sides; a parallel edge takes its place in the index. */
    method RemoveEdge(target: Node) returns (removed: bool)
      requires IndexValid() && Where(outEdges, To(target)) == Where(target.inEdges, From(this))
      modifies this`outEdges, this`outEdgeIndex, target`inEdges
      ensures removed <==> First(old(outEdges), To(target)).Some?
      ensures First(old(outEdges), To(target)) == First(old(target.inEdges), From(this))
      ensures outEdges == DropFirst(old(outEdges), To(target)) && target.inEdges == DropFirst(old(target.inEdges), From(this))
      ensures IndexValid()
    {
      FirstOfWhere(outEdges, To(target));
      FirstOfWhere(target.inEdges, From(this));
      var i := FindEdgeTo(target);
      if i == |outEdges| {
        return false;
      }
      removed := target.RemoveInEdge(this);
      assert removed;
      outEdges := outEdges[..i] + outEdges[i + 1..];
      if outEdgeIndex.Some? {
        IndexShrinks(outEdgeIndex.value, old(outEdges), target);
        var j := FindEdgeTo(target);
        outEdgeIndex := Some(if j == |outEdges| then outEdgeIndex.value - {target} else outEdgeIndex.value[target := outEdges[j]]);
      }
    }

    /** First half of clearing: every target forgets its edges from this node. */
    method DropFromTargets(ghost graph: set<Node>, ghost outs: map<Node, seq<Edge>>, ghost ins: map<Node, seq<Edge>>)
      requires this in graph && Holds(graph, outs, ins) && Paired(outs, ins)
      modifies graph`inEdges
      ensures Holds(graph, outs, WithoutSource(ins, this))
    {
      StartDropping(outs, ins, this);
      assert outEdges[0..] == outEdges;
      ghost var now := ins;
      for i := 0 to |outEdges|
        invariant Holds(graph, outs, now) && Dropping(now, ins, this, outEdges[i..])
      {
        var target := outEdges[i].target;
        assert outEdges[i] in outEdges && outEdges[i..][1..] == outEdges[i + 1..];
        DropStep(now, ins, this, outEdges[i..]);
        var found := target.RemoveInEdge(this);
        now := now[target := DropFirst(now[target], From(this))];
      }
      assert outEdges[|outEdges|..] == [];
      AllDropped(now, ins, this);
    }

    /** Second half of clearing: every source drops its edges to this node, one for each in-edge. */
    method DropFromSources(ghost graph: set<Node>, ghost outs: map<Node, seq<Edge>>, ghost ins: map<Node, seq<Edge>>)
      requires this in graph && IndexesValid(graph) && Holds(graph, outs, ins) && Paired(outs, ins)
      modifies graph
      ensures IndexesValid(graph) && Holds(graph, WithoutTarget(outs, this), ins[this := []])
      ensures Paired(WithoutTarget(outs, this), ins[this := []])
    {
      var edges := inEdges;
      assert edges[0..] == edges;
      ghost var now: map<Node, seq<Edge>>, insNow: map<Node, seq<Edge>> := outs, ins;
      for j := 0 to |edges|
        invariant IndexesValid(graph) && Holds(graph, now, insNow) && Paired(now, insNow)
        invariant KeepsOthers(now, outs, this) && SameElsewhere(insNow, ins, this) && insNow[this] == edges[j..]
      {
        var source := edges[j].source;
        SourceStep(now, insNow, this, outs);
        var removed := RemoveBetween(graph, now, insNow, source, this);
        now, insNow := now[source := DropFirst(now[source], To(this))], insNow[this := insNow[this][1..]];
        assert edges[j..][1..] == edges[j + 1..];
      }
      assert edges[|edges|..] == [];
      SameElsewhereIsUpdate(insNow, ins, this);
      AllSourcesDropped(now, insNow, outs, this);
    }

    /** Forgets the out-edges, at both ends. */
    method ClearOutEdges(ghost graph: set<Node>, ghost outs: map<Node, seq<Edge>>, ghost ins: map<Node, seq<Edge>>)
      requires this in graph && IndexesValid(graph) && Holds(graph, outs, ins) && Paired(outs, ins)
      modifies graph`inEdges, this`outEdges, this`outEdgeIndex
      ensures IndexesValid(graph) && outEdges == []
      ensures forall n :: n in graph && n != this ==> n.outEdges == outs[n]
      ensures forall n :: n in graph ==> n.inEdges == Except(ins[n], From(this))
    {
      DropFromTargets(graph, outs, ins);
      ForgetOutEdges();
    }

    method ForgetOutEdges()
      modifies this`outEdges, this`outEdgeIndex
      ensures outEdges == [] && IndexValid()
    {
      outEdges, outEdgeIndex := [], None;
    }

    /** Removes every edge to and from this node, whatever loops and parallel edges there are; all others stay, in order. */
    method ClearAllEdges(ghost graph: set<Node>, ghost outs: map<Node, seq<Edge>>, ghost ins: map<Node, seq<Edge>>)
      requires this in graph && IndexesValid(graph) && Holds(graph, outs, ins) && Paired(outs, ins)
      modifies graph
      ensures IndexesValid(graph)
      ensures Holds(graph, WithoutTarget(outs, this)[this := []], WithoutSource(ins, this)[this := []])
      ensures Paired(WithoutTarget(outs, this)[this := []], WithoutSource(ins, this)[this := []])
    {
      ClearOutEdges(graph, outs, ins);
      HoldsCleared(graph, outs, ins, this);
      PairedAfterClear(outs, ins, this);
      DropFromSources(graph, outs[this := []], WithoutSource(ins, this));
      ClearedBothWays(outs, this);
    }
  }

  lemma HoldsCleared(graph: set<Node>, outs: map<Node, seq<Edge>>, ins: map<Node, seq<Edge>>, x: Node)
    requires x in graph && outs.Keys == graph && ins.Keys == graph && x.outEdges == []
    requires forall n :: n in graph && n != x ==> n.outEdges == outs[n]
    requires forall n :: n in graph ==> n.inEdges == Except(ins[n], From(x))
    ensures Holds(graph, outs[x := []], WithoutSource(ins, x))
  {
  }

  lemma ClearedBothWays(outs: map<Node, seq<Edge>>, x: Node)
    requires x in outs
    ensures WithoutTarget(outs[x := []], x) == WithoutTarget(outs, x)[x := []]
  {
  }

  /** Removes the first edge from one node to another: the same edge at both ends. */
  method RemoveBetween(ghost graph: set<Node>, ghost outs: map<Node, seq<Edge>>, ghost ins: map<Node, seq<Edge>>, source: Node, target: Node)
    returns (removed: bool)
    requires source in graph && target in graph && IndexesValid(graph) && Holds(graph, outs, ins)
    requires Paired(outs, ins)
    modifies source`outEdges, source`outEdgeIndex, target`inEdges
    ensures removed <==> Where(outs[source], To(target)) != []
    ensures IndexesValid(graph)
    ensures var outs', ins' := outs[source := DropFirst(outs[source], To(target))], ins[target := DropFirst(ins[target], From(source))];
            Holds(graph, outs', ins') && Paired(outs', ins')
  {
    PairedAfterRemove(outs, ins, source, target);
    assert SameBetween(outs[source], ins[target], source, target);
    FoundUnlessNone(source.outEdges, To(target));
    removed := source.RemoveEdge(target);
  }

  method Find(edges: seq<Edge>, side: Side) returns (i: nat)
    ensures i == FirstIndex(edges, side)
  {
    i := 0;
    while i < |edges| && !Joins(edges[i], side)
      invariant i <= |edges| && forall j :: 0 <= j < i ==> !Joins(edges[j], side)
    {
      i := i + 1;
    }
    FirstIndexIs(edges, side, i);
  }

  lemma FirstOfWhere(edges: seq<Edge>, side: Side)
    ensures First(edges, side) == if Where(edges, side) == [] then None else Some(Where(edges, side)[0])
  {
    FoundUnlessNone(edges, side);
    if First(edges, side).Some? {
      FoundIsFirst(edges, side);
    }
  }

  lemma IndexShrinks(index: Index, edges: seq<Edge>, t: Node)
    requires Agrees(index, edges)
    ensures var fewer := DropFirst(edges, To(t));
            Agrees(if First(fewer, To(t)).None? then index - {t} else index[t := First(fewer, To(t)).value], fewer)
  {
    var fewer := DropFirst(edges, To(t));
    var after := if First(fewer, To(t)).None? then index - {t} else index[t := First(fewer, To(t)).value];
    forall e | e in fewer
      ensures e.target in after
    {
      assert e in edges;
      assert Joins(e, To(e.target));
    }
    forall u | u in after
      ensures First(fewer, To(u)) == Some(after[u])
    {
      if u != t {
        DropKeepsOthers(edges, To(t), To(u));
        FirstOfWhere(edges, To(u));
        FirstOfWhere(fewer, To(u));
      }
    }
  }

  /** Every node's edges but those from `x`. */
  ghost function WithoutSource(ins: map<Node, seq<Edge>>, x: Node): map<Node, seq<Edge>> {
    map n | n in ins :: Except(ins[n], From(x))
  }

  /** Every node's edges but those to `x`. */
  ghost function WithoutTarget(outs: map<Node, seq<Edge>>, x: Node): map<Node, seq<Edge>> {
    map n | n in outs :: Except(outs[n], To(x))
  }

  ghost predicate LeadFrom(edges: seq<Edge>, n: Node, graph: set<Node>) {
    forall e :: e in edges ==> e.source == n && e.target in graph
  }

  ghost predicate LeadTo(edges: seq<Edge>, n: Node, graph: set<Node>) {
    forall e :: e in edges ==> e.target == n && e.source in graph
  }

  /** Edges stay in the graph, and between any two nodes the out-edges of the one are the in-edges of the other, in the same order. */
  ghost predicate Paired(outs: map<Node, seq<Edge>>, ins: map<Node, seq<Edge>>) {
    && outs.Keys == ins.Keys
    && (forall n {:trigger LeadFrom(outs[n], n, outs.Keys)} :: n in outs ==> LeadFrom(outs[n], n, outs.Keys))
    && (forall n {:trigger LeadTo(ins[n], n, ins.Keys)} :: n in ins ==> LeadTo(ins[n], n, ins.Keys))
    && (forall s, t {:trigger SameBetween(outs[s], ins[t], s, t)} :: s in outs && t in ins ==> SameBetween(outs[s], ins[t], s, t))
  }

  ghost predicate IndexesValid(graph: set<Node>)
    reads graph`outEdges, graph`outEdgeIndex
  {
    forall n :: n in graph ==> n.IndexValid()
  }

  /** The nodes hold these edges. */
  ghost predicate Holds(graph: set<Node>, outs: map<Node, seq<Edge>>, ins: map<Node, seq<Edge>>)
    reads graph`outEdges, graph`inEdges
  {
    && outs.Keys == graph && ins.Keys == graph
    && forall n :: n in graph ==> n.outEdges == outs[n] && n.inEdges == ins[n]
  }

  /** The out-edges of `s` to `t` are the in-edges of `t` from `s`. */
  ghost predicate SameBetween(out: seq<Edge>, inn: seq<Edge>, s: Node, t: Node) {
    Where(out, To(t)) == Where(inn, From(s))
  }

  lemma SameAfterAdd(out: seq<Edge>, inn: seq<Edge>, s: Node, t: Node, e: Edge)
    requires SameBetween(out, inn, s, t) && e.source == s
    ensures e.target == t ==> SameBetween(out + [e], inn + [e], s, t)
    ensures e.target != t ==> SameBetween(out + [e], inn, s, t)
  {
    WhereAdds(out, [e], To(t));
    WhereAdds(inn, [e], From(s));
  }

  lemma SameAfterForeignAdd(out: seq<Edge>, inn: seq<Edge>, s: Node, t: Node, e: Edge)
    requires SameBetween(out, inn, s, t) && e.source != s
    ensures SameBetween(out, inn + [e], s, t)
  {
    WhereAdds(inn, [e], From(s));
  }

  lemma OutsLeadAfterAdd(outs: map<Node, seq<Edge>>, e: Edge, n: Node)
    requires n in outs && LeadFrom(outs[n], n, outs.Keys) && e.source in outs && e.target in outs
    ensures var outs' := outs[e.source := outs[e.source] + [e]]; outs'.Keys == outs.Keys && LeadFrom(outs'[n], n, outs'.Keys)
  {
    assert outs[e.source := outs[e.source] + [e]].Keys == outs.Keys;
  }

  lemma InsLeadAfterAdd(ins: map<Node, seq<Edge>>, e: Edge, n: Node)
    requires n in ins && LeadTo(ins[n], n, ins.Keys) && e.source in ins && e.target in ins
    ensures var ins' := ins[e.target := ins[e.target] + [e]]; ins'.Keys == ins.Keys && LeadTo(ins'[n], n, ins'.Keys)
  {
    assert ins[e.target := ins[e.target] + [e]].Keys == ins.Keys;
  }

  lemma SameBetweenAfterAdd(outs: map<Node, seq<Edge>>, ins: map<Node, seq<Edge>>, e: Edge, s: Node, t: Node)
    requires s in outs && t in ins && SameBetween(outs[s], ins[t], s, t) && e.source in outs && e.target in ins
    requires LeadFrom(outs[s], s, outs.Keys) && LeadTo(ins[t], t, ins.Keys)
    ensures SameBetween(outs[e.source := outs[e.source] + [e]][s], ins[e.target := ins[e.target] + [e]][t], s, t)
  {
    if s == e.source {
      SameAfterAdd(outs[s], ins[t], s, t, e);
    } else if t == e.target {
      SameAfterForeignAdd(outs[s], ins[t], s, t, e);
    }
  }

  lemma PairedAfterAdd(outs: map<Node, seq<Edge>>, ins: map<Node, seq<Edge>>, e: Edge)
    requires Paired(outs, ins) && e.source in outs && e.target in outs
    ensures Paired(outs[e.source := outs[e.source] + [e]], ins[e.target := ins[e.target] + [e]])
  {
    var outs', ins' := outs[e.source := outs[e.source] + [e]], ins[e.target := ins[e.target] + [e]];
    EdgesLeadAfterAdd(outs, ins, e, outs', ins');
    forall s, t | s in outs' && t in ins'
      ensures SameBetween(outs'[s], ins'[t], s, t)
    {
      assert SameBetween(outs[s], ins[t], s, t) && LeadFrom(outs[s], s, outs.Keys) && LeadTo(ins[t], t, ins.Keys);
      SameBetweenAfterAdd(outs, ins, e, s, t);
    }
  }

  lemma EdgesLeadAfterAdd(outs: map<Node, seq<Edge>>, ins: map<Node, seq<Edge>>, e: Edge, outs': map<Node, seq<Edge>>, ins': map<Node, seq<Edge>>)
    requires Paired(outs, ins) && e.source in outs && e.target in outs
    requires outs' == outs[e.source := outs[e.source] + [e]] && ins' == ins[e.target := ins[e.target] + [e]]
    ensures outs'.Keys == outs.Keys && ins'.Keys == ins.Keys
    ensures forall n {:trigger LeadFrom(outs'[n], n, outs'.Keys)} :: n in outs' ==> LeadFrom(outs'[n], n, outs'.Keys)
    ensures forall n {:trigger LeadTo(ins'[n], n, ins'.Keys)} :: n in ins' ==> LeadTo(ins'[n], n, ins'.Keys)
  {
    assert outs'.Keys == outs.Keys && ins'.Keys == ins.Keys;
    forall n | n in outs'
      ensures LeadFrom(outs'[n], n, outs'.Keys)
    {
      assert LeadFrom(outs[n], n, outs.Keys);
      OutsLeadAfterAdd(outs, e, n);
    }
    forall n | n in ins'
      ensures LeadTo(ins'[n], n, ins'.Keys)
    {
      assert LeadTo(ins[n], n, ins.Keys);
      InsLeadAfterAdd(ins, e, n);
    }
  }

  lemma DropIsSubset(edges: seq<Edge>, side: Side)
    ensures forall e :: e in DropFirst(edges, side) ==> e in edges
  {
  }

  lemma SameAfterRemove(out: seq<Edge>, inn: seq<Edge>, s: Node, t: Node)
    requires SameBetween(out, inn, s, t)
    ensures SameBetween(DropFirst(out, To(t)), DropFirst(inn, From(s)), s, t)
  {
    FirstOfWhere(out, To(t));
    FirstOfWhere(inn, From(s));
    if First(out, To(t)).Some? {
      FoundIsFirst(out, To(t));
      FoundIsFirst(inn, From(s));
      assert Where(out, To(t))[1..] == Where(DropFirst(out, To(t)), To(t));
      assert Where(inn, From(s))[1..] == Where(DropFirst(inn, From(s)), From(s));
    }
  }

  lemma OthersAfterRemove(edges: seq<Edge>, side: Side, other: Side)
    requires side.To? == other.To? && side.node != other.node
    ensures Where(DropFirst(edges, side), other) == Where(edges, other)
  {
    DropKeepsOthers(edges, side, other);
  }

  lemma PairedAfterRemove(outs: map<Node, seq<Edge>>, ins: map<Node, seq<Edge>>, s: Node, t: Node)
    requires Paired(outs, ins) && s in outs && t in outs
    ensures Paired(outs[s := DropFirst(outs[s], To(t))], ins[t := DropFirst(ins[t], From(s))])
  {
    var out, inn := DropFirst(outs[s], To(t)), DropFirst(ins[t], From(s));
    var outs', ins' := outs[s := out], ins[t := inn];
    assert outs'.Keys == outs.Keys && ins'.Keys == ins.Keys;
    DropIsSubset(outs[s], To(t));
    DropIsSubset(ins[t], From(s));
    forall n | n in outs' ensures LeadFrom(outs'[n], n, outs'.Keys) { assert LeadFrom(outs[n], n, outs.Keys); }
    forall n | n in ins' ensures LeadTo(ins'[n], n, ins'.Keys) { assert LeadTo(ins[n], n, ins.Keys); }
    forall a, b | a in outs' && b in ins'
      ensures SameBetween(outs'[a], ins'[b], a, b)
    {
      assert SameBetween(outs[a], ins[b], a, b);
      if a == s && b == t {
        SameAfterRemove(outs[s], ins[t], s, t);
      } else if a == s {
        OthersAfterRemove(outs[s], To(t), To(b));
      } else if b == t {
        OthersAfterRemove(ins[t], From(s), From(a));
      }
    }
  }

  lemma {:induction false} WhereExcept(edges: seq<Edge>, x: Node, s: Node)
    requires x != s
    ensures Where(Except(edges, From(x)), From(s)) == Where(edges, From(s))
  {
    if edges != [] {
      var n := |edges| - 1;
      WhereExcept(edges[..n], x, s);
      WhereAdds(Except(edges[..n], From(x)), if Joins(edges[n], From(x)) then [] else [edges[n]], From(s));
    }
  }

  lemma SameAfterClear(out: seq<Edge>, inn: seq<Edge>, x: Node, s: Node, t: Node)
    requires SameBetween(out, inn, s, t)
    ensures SameBetween(if s == x then [] else out, Except(inn, From(x)), s, t)
  {
    if s == x {
      ExceptHas(inn, From(x));
      WhereNone(Except(inn, From(x)), From(x));
    } else {
      WhereExcept(inn, x, s);
    }
  }

  lemma PairedAfterClear(outs: map<Node, seq<Edge>>, ins: map<Node, seq<Edge>>, x: Node)
    requires Paired(outs, ins) && x in outs
    ensures Paired(outs[x := []], WithoutSource(ins, x))
  {
    var outs', ins' := outs[x := []], WithoutSource(ins, x);
    assert outs'.Keys == outs.Keys && ins'.Keys == ins.Keys;
    forall n | n in outs' ensures LeadFrom(outs'[n], n, outs'.Keys) { assert LeadFrom(outs[n], n, outs.Keys); }
    forall n | n in ins'
      ensures LeadTo(ins'[n], n, ins'.Keys)
    {
      assert LeadTo(ins[n], n, ins.Keys);
      ExceptHas(ins[n], From(x));
    }
    forall s, t | s in outs' && t in ins'
      ensures SameBetween(outs'[s], ins'[t], s, t)
    {
      assert SameBetween(outs[s], ins[t], s, t);
      SameAfterClear(outs[s], ins[t], x, s, t);
    }
  }

  /** A target's edges from `x` are those still to be dropped; its other edges are as they were. */
  ghost predicate Dropped(inn: seq<Edge>, was: seq<Edge>, x: Node, rest: seq<Edge>, n: Node) {
    Where(inn, From(x)) == Where(rest, To(n)) && Except(inn, From(x)) == Except(was, From(x))
  }

  ghost predicate Dropping(ins: map<Node, seq<Edge>>, was: map<Node, seq<Edge>>, x: Node, rest: seq<Edge>) {
    && ins.Keys == was.Keys
    && forall n {:trigger Dropped(ins[n], was[n], x, rest, n)} :: n in ins ==> Dropped(ins[n], was[n], x, rest, n)
  }

  lemma StartDropping(outs: map<Node, seq<Edge>>, ins: map<Node, seq<Edge>>, x: Node)
    requires Paired(outs, ins) && x in outs
    ensures Dropping(ins, ins, x, outs[x]) && LeadFrom(outs[x], x, outs.Keys)
  {
    forall n | n in ins
      ensures Dropped(ins[n], ins[n], x, outs[x], n)
    {
      assert SameBetween(outs[x], ins[n], x, n);
    }
  }

  lemma WhereRest(rest: seq<Edge>, n: Node)
    requires rest != []
    ensures Where(rest, To(n)) == (if rest[0].target == n then [rest[0]] else []) + Where(rest[1..], To(n))
  {
    assert rest == rest[..1] + rest[1..] && rest[..1][..0] == [];
    WhereAdds(rest[..1], rest[1..], To(n));
  }

  lemma DroppedStep(inn: seq<Edge>, was: seq<Edge>, x: Node, rest: seq<Edge>, n: Node)
    requires rest != [] && Dropped(inn, was, x, rest, n)
    ensures Dropped(if n == rest[0].target then DropFirst(inn, From(x)) else inn, was, x, rest[1..], n)
  {
    WhereRest(rest, n);
    if n == rest[0].target {
      FoundUnlessNone(inn, From(x));
      FoundIsFirst(inn, From(x));
      assert Where(inn, From(x))[1..] == Where(rest[1..], To(n));
    }
  }

  lemma DropStep(ins: map<Node, seq<Edge>>, was: map<Node, seq<Edge>>, x: Node, rest: seq<Edge>)
    requires rest != [] && rest[0].target in ins && Dropping(ins, was, x, rest)
    ensures var t := rest[0].target; Dropping(ins[t := DropFirst(ins[t], From(x))], was, x, rest[1..])
  {
    var t := rest[0].target;
    var ins' := ins[t := DropFirst(ins[t], From(x))];
    forall n | n in ins'
      ensures Dropped(ins'[n], was[n], x, rest[1..], n)
    {
      assert Dropped(ins[n], was[n], x, rest, n);
      DroppedStep(ins[n], was[n], x, rest, n);
    }
  }

  lemma WholeIfNone(edges: seq<Edge>, side: Side)
    requires Where(edges, side) == []
    ensures Except(edges, side) == edges
  {
    FoundUnlessNone(edges, side);
    WhereNone(edges, side);
  }

  lemma AllDropped(ins: map<Node, seq<Edge>>, was: map<Node, seq<Edge>>, x: Node)
    requires Dropping(ins, was, x, [])
    ensures ins == WithoutSource(was, x)
  {
    forall n | n in ins
      ensures ins[n] == Except(was[n], From(x))
    {
      assert Dropped(ins[n], was[n], x, [], n);
      WholeIfNone(ins[n], From(x));
    }
  }

  ghost predicate SameElsewhere(ins: map<Node, seq<Edge>>, was: map<Node, seq<Edge>>, x: Node) {
    x in ins && ins.Keys == was.Keys && forall n :: n in ins && n != x ==> ins[n] == was[n]
  }

  lemma SameElsewhereIsUpdate(ins: map<Node, seq<Edge>>, was: map<Node, seq<Edge>>, x: Node)
    requires SameElsewhere(ins, was, x)
    ensures ins == was[x := ins[x]]
  {
  }

  /** Edges that do not lead to `x` are as they were. */
  ghost predicate KeepsOthers(outs: map<Node, seq<Edge>>, was: map<Node, seq<Edge>>, x: Node) {
    outs.Keys == was.Keys && forall n :: n in outs ==> Except(outs[n], To(x)) == Except(was[n], To(x))
  }

  lemma SourceStep(outs: map<Node, seq<Edge>>, ins: map<Node, seq<Edge>>, x: Node, was: map<Node, seq<Edge>>)
    requires Paired(outs, ins) && x in ins && ins[x] != [] && KeepsOthers(outs, was, x)
    ensures var s := ins[x][0].source;
            && s in outs && SameBetween(outs[s], ins[x], s, x)
            && DropFirst(ins[x], From(s)) == ins[x][1..]
            && Paired(outs[s := DropFirst(outs[s], To(x))], ins[x := ins[x][1..]])
            && KeepsOthers(outs[s := DropFirst(outs[s], To(x))], was, x)
  {
    var s := ins[x][0].source;
    assert LeadTo(ins[x], x, ins.Keys) && ins[x][0] in ins[x];
    assert SameBetween(outs[s], ins[x], s, x);
    FirstIndexIs(ins[x], From(s), 0);
    FirstOfWhere(ins[x], From(s));
    FirstOfWhere(outs[s], To(x));
    FoundIsFirst(outs[s], To(x));
    PairedAfterRemove(outs, ins, s, x);
  }

  lemma AllSourcesDropped(outs: map<Node, seq<Edge>>, ins: map<Node, seq<Edge>>, was: map<Node, seq<Edge>>, x: Node)
    requires Paired(outs, ins) && x in ins && ins[x] == [] && KeepsOthers(outs, was, x)
    ensures outs == WithoutTarget(was, x)
  {
    forall n | n in outs
      ensures outs[n] == Except(was[n], To(x))
    {
      assert SameBetween(outs[n], ins[x], n, x);
      WholeIfNone(outs[n], To(x));
    }
  }

  /** A node without edges can leave: the others' edges stay among the others. */
  lemma PairedAfterLeaving(outs: map<Node, seq<Edge>>, ins: map<Node, seq<Edge>>, x: Node)
    requires Paired(outs, ins) && x in outs && outs[x] == [] && ins[x] == []
    ensures Paired(outs - {x}, ins - {x})
  {
    var outs', ins' := outs - {x}, ins - {x};
    assert outs'.Keys == outs.Keys - {x} && ins'.Keys == ins.Keys - {x};
    forall n | n in outs'
      ensures LeadFrom(outs'[n], n, outs'.Keys)
    {
      assert LeadFrom(outs[n], n, outs.Keys) && SameBetween(outs[n], ins[x], n, x);
      FoundUnlessNone(outs[n], To(x));
    }
    forall n | n in ins'
      ensures LeadTo(ins'[n], n, ins'.Keys)
    {
      assert LeadTo(ins[n], n, ins.Keys) && SameBetween(outs[x], ins[n], x, n);
      FoundUnlessNone(ins[n], From(x));
    }
    forall s, t | s in outs' && t in ins'
      ensures SameBetween(outs'[s], ins'[t], s, t)
    {
      assert SameBetween(outs[s], ins[t], s, t);
    }
  }

  lemma PairedAfterJoining(outs: map<Node, seq<Edge>>, ins: map<Node, seq<Edge>>, x: Node)
    requires Paired(outs, ins) && x !in outs
    ensures Paired(outs[x := []], ins[x := []])
  {
    var outs', ins' := outs[x := []], ins[x := []];
    assert outs'.Keys == outs.Keys + {x} && ins'.Keys == ins.Keys + {x};
    forall n | n in outs' ensures LeadFrom(outs'[n], n, outs'.Keys) { assert n != x ==> LeadFrom(outs[n], n, outs.Keys); }
    forall n | n in ins' ensures LeadTo(ins'[n], n, ins'.Keys) { assert n != x ==> LeadTo(ins[n], n, ins.Keys); }
    forall s, t | s in outs' && t in ins'
      ensures SameBetween(outs'[s], ins'[t], s, t)
    {
      if s != x && t != x {
        assert SameBetween(outs[s], ins[t], s, t);
      } else if s != x {
        assert LeadFrom(outs[s], s, outs.Keys);
        WhereNone(outs[s], To(x));
      } else if t != x {
        assert LeadTo(ins[t], t, ins.Keys);
        WhereNone(ins[t], From(x));
      }
    }
  }

  /** A node of its own, to join the graph. */
  method NewNode(ghost graph: set<Node>, ghost outs: map<Node, seq<Edge>>, ghost ins: map<Node, seq<Edge>>) returns (n: Node)
    requires IndexesValid(graph) && Holds(graph, outs, ins)
    ensures fresh(n) && n !in graph && IndexesValid(graph + {n}) && Holds(graph + {n}, outs[n := []], ins[n := []])
  {
    n := new Node();
  }

  /** Adds an edge between two nodes of the graph unless there is one. */
  method AddBetween(ghost graph: set<Node>, ghost outs: map<Node, seq<Edge>>, ghost ins: map<Node, seq<Edge>>, source: Node, target: Node)
    returns (e: Edge)
    requires source in graph && target in graph && IndexesValid(graph) && Holds(graph, outs, ins) && Paired(outs, ins)
    modifies source`outEdges, source`outEdgeIndex, target`inEdges
    ensures IndexesValid(graph) && e.source == source && e.target == target
    ensures Where(outs[source], To(target)) != [] ==> e == Where(outs[source], To(target))[0] && Holds(graph, outs, ins)
    ensures Where(outs[source], To(target)) == [] ==>
              fresh(e) && Holds(graph, outs[source := outs[source] + [e]], ins[target := ins[target] + [e]])
  {
    assert LeadFrom(outs[source], source, outs.Keys);
    FirstOfWhere(source.outEdges, To(target));
    e := source.AddEdge(target);
  }

  method AddNewBetween(ghost graph: set<Node>, ghost outs: map<Node, seq<Edge>>, ghost ins: map<Node, seq<Edge>>, source: Node, target: Node)
    returns (e: Edge)
    requires source in graph && target in graph && IndexesValid(graph) && Holds(graph, outs, ins)
    modifies source`outEdges, source`outEdgeIndex, target`inEdges
    ensures IndexesValid(graph) && fresh(e) && e.source == source && e.target == target
    ensures Holds(graph, outs[source := outs[source] + [e]], ins[target := ins[target] + [e]])
  {
    e := source.AddNewEdge(target);
  }

  /** Clears a node's edges, so that the others no longer name it. */
  method Detach(ghost graph: set<Node>, ghost outs: map<Node, seq<Edge>>, ghost ins: map<Node, seq<Edge>>, n: Node)
    requires n in graph && IndexesValid(graph) && Holds(graph, outs, ins) && Paired(outs, ins)
    modifies graph
    ensures IndexesValid(graph - {n})
    ensures Holds(graph - {n}, WithoutTarget(outs, n) - {n}, WithoutSource(ins, n) - {n})
    ensures Paired(WithoutTarget(outs, n) - {n}, WithoutSource(ins, n) - {n})
  {
    n.ClearAllEdges(graph, outs, ins);
    ghost var outs', ins' := WithoutTarget(outs, n)[n := []], WithoutSource(ins, n)[n := []];
    PairedAfterLeaving(outs', ins', n);
    HoldsLess(graph, outs', ins', n);
    LeavesTheSame(WithoutTarget(outs, n), n);
    LeavesTheSame(WithoutSource(ins, n), n);
  }

  lemma LeavesTheSame(edges: map<Node, seq<Edge>>, n: Node)
    ensures edges[n := []] - {n} == edges - {n}
  {
  }

  lemma HoldsLess(graph: set<Node>, outs: map<Node, seq<Edge>>, ins: map<Node, seq<Edge>>, n: Node)
    requires Holds(graph, outs, ins)
    ensures Holds(graph - {n}, outs - {n}, ins - {n})
  {
  }
}
