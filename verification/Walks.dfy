/** Walks, cycles and distances of a relation between nodes. */
module Walks {
  import opened Netlist
  import opened Sequences

  type Hops = (Node, Node) -> bool

  ghost predicate Distinct(p: seq<Node>) {
    forall i, j :: 0 <= i < j < |p| ==> p[i] != p[j]
  }

  /** The node at position `i` hops to the one behind it. */
  ghost predicate HopAt(h: Hops, p: seq<Node>, i: int)
    requires 0 <= i < |p| - 1
  {
    h(p[i], p[i + 1])
  }

  ghost predicate IsWalk(h: Hops, p: seq<Node>) {
    p != [] && forall i {:trigger HopAt(h, p, i)} :: 0 <= i < |p| - 1 ==> HopAt(h, p, i)
  }

  lemma WalkExtends(h: Hops, p: seq<Node>, v: Node)
    requires IsWalk(h, p) && h(p[|p| - 1], v)
    ensures IsWalk(h, p + [v])
  {
    forall i | 0 <= i < |p|
      ensures HopAt(h, p + [v], i)
    {
      assert i < |p| - 1 ==> HopAt(h, p, i);
    }
  }

  /** A walk of more than one node splits off its last hop. */
  lemma WalkSplits(h: Hops, p: seq<Node>)
    requires IsWalk(h, p) && |p| > 1
    ensures IsWalk(h, p[..|p| - 1]) && h(p[|p| - 2], p[|p| - 1])
  {
    assert HopAt(h, p, |p| - 2);
    var q := p[..|p| - 1];
    forall i | 0 <= i < |q| - 1
      ensures HopAt(h, q, i)
    {
      assert HopAt(h, p, i);
    }
  }

  lemma WalkSuffix(h: Hops, p: seq<Node>, k: nat)
    requires IsWalk(h, p) && k < |p|
    ensures IsWalk(h, p[k..])
  {
    forall i | 0 <= i < |p| - k - 1
      ensures HopAt(h, p[k..], i)
    {
      assert HopAt(h, p, k + i);
    }
  }

  ghost predicate WalkFromTo(h: Hops, p: seq<Node>, u: Node, v: Node) {
    IsWalk(h, p) && p[0] == u && p[|p| - 1] == v
  }

  ghost predicate Reaches(h: Hops, u: Node, v: Node) {
    exists p :: WalkFromTo(h, p, u, v)
  }

  /** A closed walk of distinct nodes: each hops to the next, the last to the first. */
  ghost predicate IsCycle(h: Hops, c: seq<Node>) {
    IsWalk(h, c) && h(c[|c| - 1], c[0]) && Distinct(c)
  }

  /** `n` lies on a closed walk. */
  ghost predicate OnCycle(h: Hops, n: Node) {
    exists p :: WalkFromTo(h, p, n, n) && |p| > 1
  }

  function Rotated(c: seq<Node>, m: nat): seq<Node>
    requires m < |c|
  {
    c[m..] + c[..m]
  }

  lemma RotationHasSameNodes(c: seq<Node>, m: nat)
    requires m < |c|
    ensures forall n :: n in Rotated(c, m) <==> n in c
  {
    assert c == c[..m] + c[m..];
  }

  lemma RotationIsCycle(h: Hops, c: seq<Node>, m: nat)
    requires IsCycle(h, c) && m < |c|
    ensures IsCycle(h, Rotated(c, m))
  {
    var r := Rotated(c, m);
    forall i | 0 <= i < |r| - 1
      ensures HopAt(h, r, i)
    {
      if i < |c| - m - 1 {
        assert HopAt(h, c, m + i);
      } else if i > |c| - m - 1 {
        assert HopAt(h, c, i - (|c| - m));
      }
    }
    if m > 0 {
      assert HopAt(h, c, m - 1);
    }
  }

  /** Each node of a cycle lies on a closed walk. */
  lemma CycleNodesAreOnCycle(h: Hops, c: seq<Node>, n: Node)
    requires IsCycle(h, c) && n in c
    ensures OnCycle(h, n)
  {
    var m :| 0 <= m < |c| && c[m] == n;
    RotationIsCycle(h, c, m);
    WalkExtends(h, Rotated(c, m), n);
    assert WalkFromTo(h, Rotated(c, m) + [n], n, n);
  }

  /** Nodes that each hop to the one before form a walk when read backwards. */
  lemma ReversedIsWalk(k: Hops, p: seq<Node>)
    requires p != [] && forall i :: 0 <= i < |p| - 1 ==> k(p[i + 1], p[i])
    ensures WalkFromTo(k, Reversed(p), p[|p| - 1], p[0])
  {
    var r := Reversed(p);
    forall i | 0 <= i < |r| - 1
      ensures HopAt(k, r, i)
    {
      assert r[i] == p[|p| - 2 - i + 1] && r[i + 1] == p[|p| - 2 - i];
    }
  }

  ghost predicate WalkFromRoot(h: Hops, roots: set<Node>, p: seq<Node>, v: Node) {
    IsWalk(h, p) && p[0] in roots && p[|p| - 1] == v
  }

  /** `d` hops lead from some root to `v`, and no fewer do. */
  ghost predicate IsDistance(h: Hops, roots: set<Node>, v: Node, d: nat) {
    && (exists p :: WalkFromRoot(h, roots, p, v) && |p| == d + 1)
    && (forall p :: WalkFromRoot(h, roots, p, v) ==> |p| >= d + 1)
  }
}
