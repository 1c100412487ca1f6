/**
  An r-value inside a procedural block (DataFlowAnalysis::handleRvalue in
  source/DataFlowAnalysis.cpp): edges from the definitions the block has made so far,
  and pending r-values for the bits it has not defined.
  */
module Rvalues {
  import opened IntervalDifference
  import opened Wrappers

  type Node = nat

  /** A driver list: the nodes that drive, one of them possibly none. */
  type DriverList = set<Option<Node>>

  function NodesOf(list: DriverList): set<Node> {
    set d | d in list && d.Some? :: d.value
  }

  /** The part of an r-value left to be resolved once all drivers are known, and the node that reads it. */
  datatype Pending = Pending(lo: int, hi: int, node: Option<Node>) {
    predicate Has(b: int) {
      lo <= b <= hi
    }
  }

  /** An edge to the current node; its label claims bits lo..hi of the symbol. */
  datatype Use = Use(source: Node, lo: int, hi: int) {
    predicate Has(b: int) {
      lo <= b <= hi
    }
  }

  type Definitions = seq<Piece<DriverList>>

  predicate Overlaps(p: Piece<DriverList>, lo: int, hi: int) {
    p.lo <= hi && lo <= p.hi
  }

  predicate Covers(p: Piece<DriverList>, lo: int, hi: int) {
    p.lo <= lo && hi <= p.hi
  }

  predicate Within(p: Piece<DriverList>, lo: int, hi: int) {
    lo <= p.lo && p.hi <= hi
  }

  /** The definition reaches over one end of the r-value and leaves some of it out. */
  predicate Straddles(p: Piece<DriverList>, lo: int, hi: int) {
    Overlaps(p, lo, hi) && !Covers(p, lo, hi) && !Within(p, lo, hi)
  }

  /** Some definition that covers the r-value or lies within it has `d` among its drivers. */
  ghost predicate DefinedBy(defs: Definitions, lo: int, hi: int, d: Node) {
    exists k :: 0 <= k < |defs| && Overlaps(defs[k], lo, hi) && !Straddles(defs[k], lo, hi) && d in NodesOf(defs[k].value)
  }

  function UsesOf(list: DriverList, lo: int, hi: int): set<Use> {
    set d | d in NodesOf(list) :: Use(d, lo, hi)
  }

  /** The edges are those of the definitions that count, each labelled lo..hi. */
  ghost predicate AreUses(edges: set<Use>, defs: Definitions, lo: int, hi: int) {
    forall u :: u in edges <==> u.lo == lo && u.hi == hi && DefinedBy(defs, lo, hi, u.source)
  }

  ghost predicate Covered(defs: Definitions, lo: int, hi: int) {
    exists k :: 0 <= k < |defs| && Covers(defs[k], lo, hi)
  }

  /** The one bit that may be pending although it is defined: the last one, when a definition ends just below it. */
  ghost predicate PendsTwice(defs: Definitions, lo: int, hi: int) {
    lo < hi && EndsAt(defs, hi - 1) && Holds(defs, hi)
  }

  ghost predicate IsPending(pending: seq<Pending>, b: int) {
    exists k :: 0 <= k < |pending| && pending[k].Has(b)
  }

  /** The pieces ascend, and none touches the next: each is as long as it can be. */
  ghost predicate ArePieces(pending: seq<Pending>) {
    && (forall k :: 0 <= k < |pending| ==> pending[k].lo <= pending[k].hi)
    && (forall j, k :: 0 <= j < k < |pending| ==> pending[j].hi + 1 < pending[k].lo)
  }

  /**
    Edges go to the current node from the drivers of definitions that cover the
    r-value or lie within it, each labelled with the whole r-value. The symbol may have no definitions (`defs` is none),
    and there may be no current node; then all of it is pending.
    */
  method HandleRvalue(lo: int, hi: int, defs: Option<Definitions>, current: Option<Node>, external: Option<Node>)
    returns (edges: set<Use>, pending: seq<Pending>)
    requires lo <= hi && (defs.Some? ==> Ascending(defs.value))
    ensures defs.None? || current.None? ==>
              edges == {} && pending == [Pending(lo, hi, if current.Some? then current else external)]
    ensures ArePieces(pending)
    ensures defs.Some? && current.Some? ==>
              && AreUses(edges, defs.value, lo, hi)
              && (forall k :: 0 <= k < |pending| ==> pending[k].node == current)
              && (forall b {:trigger IsPending(pending, b)} ::
                    IsPending(pending, b)
                    <==> lo <= b <= hi && !Covered(defs.value, lo, hi)
                         && (!Holds(defs.value, b) || (b == hi && PendsTwice(defs.value, lo, hi))))
  {
    if defs.None? || current.None? {
      return {}, [Pending(lo, hi, if current.Some? then current else external)];
    }
    edges, pending := ReadDefinitions(lo, hi, defs.value, current.value);
  }

  /** The current node's edges from overlapping definitions, in ascending order. */
  method ReadDefinitions(lo: int, hi: int, defs: Definitions, current: Node) returns (edges: set<Use>, pending: seq<Pending>)
    requires lo <= hi && Ascending(defs)
    ensures AreUses(edges, defs, lo, hi) && ArePieces(pending)
    ensures forall k :: 0 <= k < |pending| ==> pending[k].node == Some(current)
    ensures forall b {:trigger IsPending(pending, b)} ::
              IsPending(pending, b)
              <==> lo <= b <= hi && !Covered(defs, lo, hi) && (!Holds(defs, b) || (b == hi && PendsTwice(defs, lo, hi)))
  {
    edges, pending := {}, [];
    for k := 0 to |defs|
      invariant AreUses(edges, defs[..k], lo, hi)
      invariant forall j :: 0 <= j < k ==> !Covers(defs[j], lo, hi)
    {
      assert defs[..k + 1] == defs[..k] + [defs[k]];
      if Overlaps(defs[k], lo, hi) {
        if Covers(defs[k], lo, hi) {
          OnlyOneCovers(defs, k, lo, hi);
          edges := edges + UsesOf(defs[k].value, lo, hi);
          return;
        }
        if Within(defs[k], lo, hi) {
          edges := edges + UsesOf(defs[k].value, lo, hi);
        }
      }
    }
    assert defs[..|defs|] == defs;
    var rest := Difference([Piece(lo, hi, ())], defs);
    RestIsApart(rest, lo, hi, defs);
    pending := AllPending(rest, lo, hi, defs, current);
  }

  /** A definition that covers the r-value is the only one to overlap it. */
  lemma OnlyOneCovers(defs: Definitions, k: nat, lo: int, hi: int)
    requires lo <= hi && Ascending(defs) && k < |defs| && Covers(defs[k], lo, hi)
    ensures forall d :: DefinedBy(defs, lo, hi, d) <==> d in NodesOf(defs[k].value)
    ensures forall d :: !DefinedBy(defs[..k], lo, hi, d)
    ensures Covered(defs, lo, hi)
  {
    forall j | 0 <= j < |defs| && j != k
      ensures !Overlaps(defs[j], lo, hi)
    {
      assert j < k ==> defs[j].hi < defs[k].lo;
      assert j > k ==> defs[k].hi < defs[j].lo;
    }
  }

  /** What is left of one interval is in pieces that stand apart. */
  lemma RestIsApart(rest: seq<Piece<()>>, lo: int, hi: int, defs: Definitions)
    requires lo <= hi && IsDifference(rest, [Piece(lo, hi, ())], 1, defs) && TouchAtEnds(rest, [Piece(lo, hi, ())], 1)
    ensures Apart(rest)
  {
    var first := [Piece(lo, hi, ())];
    forall j, k | 0 <= j < k < |rest|
      ensures rest[j].hi + 1 < rest[k].lo
    {
      assert Maps(rest, rest[k].lo, rest[k].value) && Left(first, 1, defs, rest[k].lo, rest[k].value);
      assert rest[k].lo <= hi && rest[j].hi < hi;
      assert TouchAtEnd(rest[j], rest[k], first, 1);
    }
  }

  method AllPending(rest: seq<Piece<()>>, lo: int, hi: int, ghost defs: Definitions, current: Node) returns (pending: seq<Pending>)
    requires lo <= hi && IsDifference(rest, [Piece(lo, hi, ())], 1, defs) && Apart(rest)
    ensures ArePieces(pending) && forall k :: 0 <= k < |pending| ==> pending[k].node == Some(current)
    ensures forall b {:trigger IsPending(pending, b)} ::
              IsPending(pending, b) <==> lo <= b <= hi && (!Holds(defs, b) || (b == hi && PendsTwice(defs, lo, hi)))
  {
    pending := [];
    for k := 0 to |rest|
      invariant |pending| == k
      invariant forall j :: 0 <= j < k ==> pending[j] == Pending(rest[j].lo, rest[j].hi, Some(current))
    {
      pending := pending + [Pending(rest[k].lo, rest[k].hi, Some(current))];
    }
    forall b
      ensures IsPending(pending, b) <==> lo <= b <= hi && (!Holds(defs, b) || (b == hi && PendsTwice(defs, lo, hi)))
    {
      PendingIsWhatRemains(rest, pending, lo, hi, defs, b);
    }
  }

  lemma PendingIsWhatRemains(rest: seq<Piece<()>>, pending: seq<Pending>, lo: int, hi: int, defs: Definitions, b: int)
    requires lo <= hi && IsDifference(rest, [Piece(lo, hi, ())], 1, defs)
    requires |pending| == |rest| && forall k :: 0 <= k < |rest| ==> pending[k].lo == rest[k].lo && pending[k].hi == rest[k].hi
    ensures IsPending(pending, b) <==> lo <= b <= hi && (!Holds(defs, b) || (b == hi && PendsTwice(defs, lo, hi)))
  {
    var first := [Piece(lo, hi, ())];
    if IsPending(pending, b) {
      var k :| 0 <= k < |pending| && pending[k].Has(b);
      assert rest[k].Has(b) && rest[k].value == ();
      assert Maps(rest, b, ());
    }
    if Maps(rest, b, ()) {
      var k :| 0 <= k < |rest| && rest[k].Has(b) && rest[k].value == ();
      assert pending[k].Has(b);
    }
    assert Left(first, 1, defs, b, ()) <==> Remains(first[0], defs, b);
  }

  /** Every driver of every defined bit of the r-value has an edge. */
  ghost predicate LosesNothing(edges: set<Use>, defs: Definitions, lo: int, hi: int) {
    forall k, b, d :: 0 <= k < |defs| && lo <= b <= hi && defs[k].Has(b) && d in NodesOf(defs[k].value) ==> Use(d, lo, hi) in edges
  }

  /** A driver of a definition that straddles an end of the r-value is lost unless another definition gives it an edge. */
  lemma StraddlersAreLost(edges: set<Use>, defs: Definitions, lo: int, hi: int)
    requires lo <= hi && Ascending(defs) && AreUses(edges, defs, lo, hi)
    ensures LosesNothing(edges, defs, lo, hi)
            <==> forall k, d :: 0 <= k < |defs| && Straddles(defs[k], lo, hi) && d in NodesOf(defs[k].value)
                                ==> DefinedBy(defs, lo, hi, d)
  {
    if LosesNothing(edges, defs, lo, hi) {
      forall k, d | 0 <= k < |defs| && Straddles(defs[k], lo, hi) && d in NodesOf(defs[k].value)
        ensures DefinedBy(defs, lo, hi, d)
      {
        assert defs[k].Has(if defs[k].lo <= lo then lo else defs[k].lo);
      }
    }
  }

  /**
    With no straddling definition and a current node, an r-value loses nothing: each
    of its bits is either defined, and all its drivers have edges, or it is pending.
    */
  lemma EveryBitIsServed(edges: set<Use>, pending: seq<Pending>, defs: Definitions, lo: int, hi: int, b: int)
    requires lo <= b <= hi && Ascending(defs) && AreUses(edges, defs, lo, hi)
    requires IsPending(pending, b) <==> !Covered(defs, lo, hi) && (!Holds(defs, b) || (b == hi && PendsTwice(defs, lo, hi)))
    requires forall k :: 0 <= k < |defs| ==> !Straddles(defs[k], lo, hi)
    ensures LosesNothing(edges, defs, lo, hi)
    ensures Holds(defs, b) || IsPending(pending, b)
    ensures Holds(defs, b) && IsPending(pending, b) <==> b == hi && PendsTwice(defs, lo, hi)
  {
    StraddlersAreLost(edges, defs, lo, hi);
    if k :| 0 <= k < |defs| && Covers(defs[k], lo, hi) {
      assert defs[k].Has(b);
      forall j | 0 <= j < |defs| && lo < hi
        ensures defs[j].hi != hi - 1
      {
        assert j < k ==> defs[j].hi < defs[k].lo;
        assert j > k ==> defs[k].hi < defs[j].lo;
      }
    }
  }

  /** The node drives bit `b` of the r-value in one of the definitions. */
  ghost predicate DrivesIn(defs: Definitions, lo: int, hi: int, d: Node, b: int) {
    lo <= b <= hi && exists k :: 0 <= k < |defs| && defs[k].Has(b) && d in NodesOf(defs[k].value)
  }

  /** The label of an edge claims the bits its source drives and no others. */
  ghost predicate IsExact(u: Use, defs: Definitions, lo: int, hi: int) {
    forall b {:trigger u.Has(b)} :: u.Has(b) <==> DrivesIn(defs, lo, hi, u.source, b)
  }

  ghost predicate DrivesAll(defs: Definitions, lo: int, hi: int, d: Node) {
    forall b {:trigger DrivesIn(defs, lo, hi, d, b)} :: lo <= b <= hi ==> DrivesIn(defs, lo, hi, d, b)
  }

  /** The label of an edge claims every bit its source drives, and no others exactly when its source drives the whole r-value. */
  lemma LabelOverstates(u: Use, defs: Definitions, lo: int, hi: int)
    requires lo <= hi && u.lo == lo && u.hi == hi
    ensures forall b :: DrivesIn(defs, lo, hi, u.source, b) ==> u.Has(b)
    ensures IsExact(u, defs, lo, hi) <==> DrivesAll(defs, lo, hi, u.source)
  {
    if IsExact(u, defs, lo, hi) {
      forall b | lo <= b <= hi
        ensures DrivesIn(defs, lo, hi, u.source, b)
      {
        assert u.Has(b);
      }
    }
  }

  /** The labels of an r-value's edges are all exact if and only if every driver of a definition that counts drives every bit of it. */
  lemma LabelsOverstate(edges: set<Use>, defs: Definitions, lo: int, hi: int)
    requires lo <= hi && AreUses(edges, defs, lo, hi)
    ensures (forall u :: u in edges ==> IsExact(u, defs, lo, hi)) <==> forall d :: DefinedBy(defs, lo, hi, d) ==> DrivesAll(defs, lo, hi, d)
  {
    forall u | u in edges
      ensures IsExact(u, defs, lo, hi) <==> DrivesAll(defs, lo, hi, u.source)
    {
      LabelOverstates(u, defs, lo, hi);
    }
    if forall u :: u in edges ==> IsExact(u, defs, lo, hi) {
      forall d | DefinedBy(defs, lo, hi, d)
        ensures DrivesAll(defs, lo, hi, d)
      {
        assert Use(d, lo, hi) in edges;
      }
    }
  }

  /** Bits 0 to 3 read, of which `d` has defined bit 1: the label of its edge claims bit 0 too. */
  lemma LabelClaimsMore(d: Node, defs: Definitions)
    requires defs == [Piece(1, 1, {Some(d)})]
    ensures Ascending(defs) && AreUses({Use(d, 0, 3)}, defs, 0, 3)
    ensures Use(d, 0, 3).Has(0) && !DrivesIn(defs, 0, 3, d, 0)
  {
    assert Some(d) in defs[0].value && d in NodesOf(defs[0].value);
    assert Overlaps(defs[0], 0, 3) && !Straddles(defs[0], 0, 3);
  }

  /** Bits 0 to 4 defined by node `d`, bits 2 to 7 read: nothing records that `d` drives bits 2 to 4. */
  lemma StraddlerIsLost(d: Node, defs: Definitions)
    requires defs == [Piece(0, 4, {Some(d)})]
    ensures Ascending(defs) && Straddles(defs[0], 2, 7)
    ensures !LosesNothing({}, defs, 2, 7) && AreUses({}, defs, 2, 7)
  {
    assert Some(d) in defs[0].value && d in NodesOf(defs[0].value);
    assert defs[0].Has(2);
  }
}
