/** The list of nodes and its operations (include/netlist/DirectedGraph.hpp). */
module DirectedGraphs {
  import opened EdgeStore

  /** The list of nodes. `outs` and `ins` hold the nodes' edge lists, which every operation keeps paired. */
  class DirectedGraph {
    var nodes: seq<Node>
    ghost var outs: map<Node, seq<Edge>>
    ghost var ins: map<Node, seq<Edge>>

    ghost function NodeSet(): set<Node>
      reads this
    {
      set n | n in nodes
    }

    ghost predicate Valid()
      reads this, NodeSet()
    {
      && (forall i, j :: 0 <= i < j < |nodes| ==> nodes[i] != nodes[j])
      && IndexesValid(NodeSet()) && Holds(NodeSet(), outs, ins) && Paired(outs, ins)
    }

    constructor ()
      ensures Valid() && nodes == []
    {
      nodes, outs, ins := [], map[], map[];
    }

    method FindNode(n: Node) returns (i: nat)
      ensures i <= |nodes| && (i < |nodes| ==> nodes[i] == n) && (i == |nodes| <==> n !in nodes)
    {
      i := 0;
      while i < |nodes| && nodes[i] != n
        invariant i <= |nodes| && n !in nodes[..i]
      {
        i := i + 1;
      }
    }

    method AddNode() returns (n: Node)
      requires Valid()
      modifies this
      ensures Valid() && fresh(n) && nodes == old(nodes) + [n]
      ensures outs == old(outs)[n := []] && ins == old(ins)[n := []]
    {
      ghost var graph := NodeSet();
      n := NewNode(graph, outs, ins);
      PairedAfterJoining(outs, ins, n);
      nodes, outs, ins := nodes + [n], outs[n := []], ins[n := []];
      assert NodeSet() == graph + {n};
    }

    method AddEdge(source: Node, target: Node) returns (e: Edge)
      requires Valid() && source in nodes && target in nodes
      modifies this`outs, this`ins, source`outEdges, source`outEdgeIndex, target`inEdges
      ensures Valid() && e.source == source && e.target == target
      ensures var edges := Where(old(outs)[source], To(target));
              if edges != [] then e == edges[0] && outs == old(outs) && ins == old(ins)
              else fresh(e) && outs == old(outs)[source := old(outs)[source] + [e]] && ins == old(ins)[target := old(ins)[target] + [e]]
    {
      ghost var graph, added := NodeSet(), Where(outs[source], To(target)) == [];
      e := AddBetween(graph, outs, ins, source, target);
      if added {
        PairedAfterAdd(outs, ins, e);
        outs, ins := outs[source := outs[source] + [e]], ins[target := ins[target] + [e]];
      }
      assert NodeSet() == graph;
    }

    method AddNewEdge(source: Node, target: Node) returns (e: Edge)
      requires Valid() && source in nodes && target in nodes
      modifies this`outs, this`ins, source`outEdges, source`outEdgeIndex, target`inEdges
      ensures Valid() && fresh(e) && e.source == source && e.target == target
      ensures outs == old(outs)[source := old(outs)[source] + [e]] && ins == old(ins)[target := old(ins)[target] + [e]]
    {
      ghost var graph := NodeSet();
      e := AddNewBetween(graph, outs, ins, source, target);
      PairedAfterAdd(outs, ins, e);
      outs, ins := outs[source := outs[source] + [e]], ins[target := ins[target] + [e]];
      assert NodeSet() == graph;
    }

    method RemoveEdge(source: Node, target: Node) returns (removed: bool)
      requires Valid() && source in nodes && target in nodes
      modifies this`outs, this`ins, source`outEdges, source`outEdgeIndex, target`inEdges
      ensures Valid() && (removed <==> Where(old(outs)[source], To(target)) != [])
      ensures outs == old(outs)[source := DropFirst(old(outs)[source], To(target))]
      ensures ins == old(ins)[target := DropFirst(old(ins)[target], From(source))]
    {
      ghost var graph := NodeSet();
      removed := RemoveBetween(graph, outs, ins, source, target);
      outs, ins := outs[source := DropFirst(outs[source], To(target))], ins[target := DropFirst(ins[target], From(source))];
      assert NodeSet() == graph;
    }

    /** Removes a node with all its edges; the other nodes keep their other edges, in order. */
    method RemoveNode(n: Node) returns (removed: bool)
      requires Valid()
      modifies this, NodeSet()
      ensures Valid() && (removed <==> n in old(nodes))
      ensures !removed ==> nodes == old(nodes) && outs == old(outs) && ins == old(ins)
      ensures removed ==> n !in nodes && IsWithout(nodes, old(nodes), n)
      ensures removed ==> outs == WithoutTarget(old(outs), n) - {n} && ins == WithoutSource(old(ins), n) - {n}
    {
      var i := FindNode(n);
      if i == |nodes| {
        return false;
      }
      Erase(i);
      removed := true;
    }

    method Erase(i: nat)
      requires Valid() && i < |nodes|
      modifies this, NodeSet()
      ensures Valid() && nodes == old(nodes[..i] + nodes[i + 1..])
      ensures outs == WithoutTarget(old(outs), old(nodes[i])) - {old(nodes[i])}
      ensures ins == WithoutSource(old(ins), old(nodes[i])) - {old(nodes[i])}
    {
      var n, others := nodes[i], nodes[..i] + nodes[i + 1..];
      ErasedOnce(nodes, i, n, others);
      ghost var graph, fewerOuts, fewerIns := NodeSet(), WithoutTarget(outs, n) - {n}, WithoutSource(ins, n) - {n};
      ghost var rest := graph - {n};
      Detach(graph, outs, ins, n);
      assert IndexesValid(rest) && Holds(rest, fewerOuts, fewerIns);
      nodes, outs, ins := others, fewerOuts, fewerIns;
      assert NodeSet() == rest;
    }
  }

  /** The same nodes in the same order, without `n`. */
  ghost predicate IsWithout(others: seq<Node>, nodes: seq<Node>, n: Node) {
    exists i :: 0 <= i < |nodes| && nodes[i] == n && others == nodes[..i] + nodes[i + 1..]
  }

  lemma ErasedOnce(nodes: seq<Node>, i: nat, n: Node, others: seq<Node>)
    requires i < |nodes| && nodes[i] == n && others == nodes[..i] + nodes[i + 1..]
    requires forall i, j :: 0 <= i < j < |nodes| ==> nodes[i] != nodes[j]
    ensures IsWithout(others, nodes, n)
    ensures (set m | m in others) == (set m | m in nodes) - {n}
    ensures forall i, j :: 0 <= i < j < |others| ==> others[i] != others[j]
  {
    forall m
      ensures m in others <==> m in nodes && m != n
    {
      if m in nodes && m != n {
        var k :| 0 <= k < |nodes| && nodes[k] == m;
        assert others[if k < i then k else k - 1] == m;
      }
    }
  }
}
