/**
  Dependencies between two nodes (NetlistEdge::setVariable in
  include/netlist/NetlistEdge.hpp, NetlistBuilder::addDependency in
  source/NetlistBuilder.cpp): the labels of the edges from one node to another, in
  order, and what adding dependencies does to the bits they carry.
  */
module Dependencies {
  import opened BitRanges
  import opened Netlist
  import opened Wrappers

  /** An edge as it is made: no symbol, default semantics. */
  function NewLabel(): EdgeLabel {
    EdgeLabel(NoEdge, Data, Range, None, BitRange(0, 0), false)
  }

  /**
    The label with a symbol and range set. It keeps its symbol and widens its range
    when the symbol is the same and the ranges touch; nothing when they do not touch.
    Any other symbol overwrites what was there.
    */
  function WithVariable(l: EdgeLabel, symbol: Option<SymbolReference>, bounds: BitRange): Option<EdgeLabel> {
    if l.symbol.Some? && l.symbol == symbol then
      if l.bounds.IsContiguousWith(bounds) then Some(l.(bounds := l.bounds.UnionWith(bounds))) else None
    else
      Some(l.(symbol := symbol, bounds := bounds))
  }

  class NetlistEdge {
    var content: EdgeLabel

    constructor ()
      ensures content == NewLabel()
    {
      content := NewLabel();
    }

    method SetVariable(symbol: Option<SymbolReference>, bounds: BitRange) returns (ok: bool)
      modifies this
      ensures ok <==> WithVariable(old(content), symbol, bounds).Some?
      ensures content == if ok then WithVariable(old(content), symbol, bounds).value else old(content)
    {
      if content.symbol.Some? && content.symbol == symbol {
        if content.bounds.IsContiguousWith(bounds) {
          content := content.(bounds := content.bounds.UnionWith(bounds));
          return true;
        }
        return false;
      }
      content := content.(symbol := symbol, bounds := bounds);
      return true;
    }

    method SetSemantics(role: Role, precision: Precision)
      modifies this
      ensures content == old(content).(role := role, precision := precision)
    {
      content := content.(role := role, precision := precision);
    }

    method SetEdgeKind(kind: EdgeKind)
      modifies this
      ensures content == old(content).(edgeKind := kind)
    {
      content := content.(edgeKind := kind);
    }
  }

  /** A dependency with or without a symbol annotation. */
  datatype Dependency =
    | Plain(role: Role, precision: Precision)
    | Labelled(symbol: Option<SymbolReference>, bounds: BitRange, edgeKind: EdgeKind, role: Role, precision: Precision)

  function Semantics(l: EdgeLabel, d: Dependency): EdgeLabel
    requires d.Labelled?
  {
    var role := if d.edgeKind != NoEdge && d.role == Data then Event else d.role;
    l.(edgeKind := d.edgeKind, role := role, precision := d.precision)
  }

  /** The edges from a node to another after one more dependency: the first edge takes it, or a parallel one is made for it. */
  function Depend(labels: seq<EdgeLabel>, d: Dependency): (r: seq<EdgeLabel>)
    ensures r != []
  {
    var first := if labels == [] then NewLabel() else labels[0];
    var rest := if labels == [] then [] else labels[1..];
    match d
    case Plain(role, precision) => [first.(role := role, precision := precision)] + rest
    case Labelled(symbol, bounds, _, _, _) =>
      match WithVariable(first, symbol, bounds)
      case Some(l) => [Semantics(l, d)] + rest
      case None => [first] + rest + [Semantics(NewLabel().(symbol := symbol, bounds := bounds), d)]
  }

  /** The edge's range: where the source node's own bounds meet it, what they leave of it. */
  function WithinOwn(bounds: BitRange, own: Option<BitRange>): BitRange {
    if own.Some? && bounds.Overlaps(own.value) then bounds.Intersection(own.value).value else bounds
  }

  /** The dependency as the builder adds it from a source with these bounds. */
  function From(own: Option<BitRange>, d: Dependency): Dependency {
    if d.Labelled? then d.(bounds := WithinOwn(d.bounds, own)) else d
  }

  /** It claims only bits it was given; and of those, where the source's own bounds meet them, only the source's own. */
  lemma WithinOwnHas(bounds: BitRange, own: Option<BitRange>, b: int)
    ensures WithinOwn(bounds, own).Has(b)
            <==> bounds.Has(b) && (own.Some? && (exists c :: bounds.Has(c) && own.value.Has(c)) ==> own.value.Has(b))
  {
    if own.Some? {
      assert bounds.Overlaps(own.value) <==> bounds.Intersection(own.value).Some?;
    }
  }

  lemma LabelsAre(edges: seq<NetlistEdge>, first: EdgeLabel, rest: seq<EdgeLabel>)
    requires |edges| == 1 + |rest| && edges[0].content == first
    requires forall i :: 0 <= i < |rest| ==> edges[i + 1].content == rest[i]
    ensures Labels(edges) == [first] + rest
  {
  }

  /** What is done to the first edge as an object; says whether its label took the dependency. */
  method AttachToFirst(edge: NetlistEdge, d: Dependency) returns (ok: bool)
    modifies edge
    ensures ok <==> d.Plain? || WithVariable(old(edge.content), d.symbol, d.bounds).Some?
    ensures edge.content == if !ok then old(edge.content)
                            else if d.Plain? then old(edge.content).(role := d.role, precision := d.precision)
                            else Semantics(WithVariable(old(edge.content), d.symbol, d.bounds).value, d)
  {
    if d.Plain? {
      edge.SetSemantics(d.role, d.precision);
      return true;
    }
    ok := edge.SetVariable(d.symbol, d.bounds);
    if ok {
      edge.SetEdgeKind(d.edgeKind);
      edge.SetSemantics(if d.edgeKind != NoEdge && d.role == Data then Event else d.role, d.precision);
    }
  }

  /** The edges as objects: what is done to them is what Depend says of their labels. */
  method Attach(edges: seq<NetlistEdge>, d: Dependency) returns (more: seq<NetlistEdge>)
    modifies if edges == [] then {} else {edges[0]}
    requires forall i, j :: 0 <= i < j < |edges| ==> edges[i] != edges[j]
    ensures edges <= more && forall k :: |edges| <= k < |more| ==> fresh(more[k])
    ensures |more| == |Depend(old(Labels(edges)), d)| && Labels(more) == Depend(old(Labels(edges)), d)
  {
    ghost var was := Labels(edges);
    ghost var rest := if edges == [] then [] else was[1..];
    more := edges;
    if edges == [] {
      var edge := new NetlistEdge();
      more := [edge];
    }
    var ok := AttachToFirst(more[0], d);
    if ok {
      LabelsAre(more, more[0].content, rest);
    } else {
      var newEdge := new NetlistEdge();
      var accepted := AttachToFirst(newEdge, d);
      more := more + [newEdge];
      LabelsAre(more, more[0].content, rest + [newEdge.content]);
      assert [more[0].content] + (rest + [newEdge.content]) == [more[0].content] + rest + [newEdge.content];
    }
  }

  /** Which edge takes a dependency: the new parallel one if there is one, else the first. */
  function Taker(before: nat, after: nat): nat
    requires before <= after && after > 0
  {
    if after > before then after - 1 else 0
  }

  /** The edge's kind, role and precision are those of the dependency; a clocked one without a role of its own has role Event. */
  predicate IsStamped(l: EdgeLabel, d: Dependency) {
    && l.precision == d.precision
    && (d.Plain? ==> l.role == d.role)
    && (d.Labelled? ==> l.edgeKind == d.edgeKind && l.role == if d.edgeKind != NoEdge && d.role == Data then Event else d.role)
  }

  /** What taking a dependency leaves as it was: whether the edge is disabled and, without a symbol annotation, its kind, symbol and range. */
  predicate KeepsRest(was: EdgeLabel, l: EdgeLabel, d: Dependency) {
    && l.disabled == was.disabled
    && (d.Plain? ==> l.edgeKind == was.edgeKind && l.symbol == was.symbol && l.bounds == was.bounds)
  }

  /** The bits the edge carries: the dependency's and, if it already carried that symbol, its own. */
  ghost predicate TakesBits(was: EdgeLabel, l: EdgeLabel, d: Dependency) {
    d.Labelled? ==> forall b :: l.bounds.Has(b) <==> d.bounds.Has(b) || (d.symbol.Some? && was.symbol == d.symbol && was.bounds.Has(b))
  }

  /** After a dependency, the one edge that takes it is stamped with it, and the others are as they were. */
  ghost predicate TakesDependency(was: seq<EdgeLabel>, now: seq<EdgeLabel>, d: Dependency) {
    && |was| <= |now| <= |was| + 1 && now != []
    && var t := Taker(|was|, |now|);
       var before := if t < |was| then was[t] else NewLabel();
       && IsStamped(now[t], d) && KeepsRest(before, now[t], d) && TakesBits(before, now[t], d)
       && (d.Labelled? ==> now[t].symbol == d.symbol)
       && (forall k :: 0 <= k < |was| && k != t ==> now[k] == was[k])
       && (|now| > |was| > 0 <==> was != [] && d.Labelled? && d.symbol.Some? && was[0].symbol == d.symbol
                                  && !was[0].bounds.IsContiguousWith(d.bounds))
  }

  lemma DependTakes(labels: seq<EdgeLabel>, d: Dependency)
    ensures TakesDependency(labels, Depend(labels, d), d)
  {
    var now := Depend(labels, d);
    var rest := if labels == [] then [] else labels[1..];
    assert labels != [] ==> labels == [labels[0]] + rest;
    if d.Labelled? && labels != [] && WithVariable(labels[0], d.symbol, d.bounds).None? {
      assert now == labels + [now[|now| - 1]];
    }
  }

  /** The builder's part: a dependency from a source with these bounds of its own. */
  method AddDependency(edges: seq<NetlistEdge>, d: Dependency, own: Option<BitRange>) returns (more: seq<NetlistEdge>)
    modifies if edges == [] then {} else {edges[0]}
    requires forall i, j :: 0 <= i < j < |edges| ==> edges[i] != edges[j]
    ensures edges <= more && forall k :: |edges| <= k < |more| ==> fresh(more[k])
    ensures |more| == |Depend(old(Labels(edges)), From(own, d))| && Labels(more) == Depend(old(Labels(edges)), From(own, d))
    ensures TakesDependency(old(Labels(edges)), Labels(more), From(own, d))
  {
    DependTakes(Labels(edges), From(own, d));
    var clipped := d;
    if d.Labelled? && own.Some? && d.bounds.Overlaps(own.value) {
      clipped := d.(bounds := d.bounds.Intersection(own.value).value);
    }
    more := Attach(edges, clipped);
  }

  ghost function Labels(edges: seq<NetlistEdge>): (r: seq<EdgeLabel>)
    reads edges
    ensures |r| == |edges| && forall i :: 0 <= i < |edges| ==> r[i] == edges[i].content
  {
    seq(|edges|, i requires 0 <= i < |edges| reads edges => edges[i].content)
  }

  /** Some edge carries bit `b` of symbol `s`. */
  ghost predicate Marks(labels: seq<EdgeLabel>, s: SymbolReference, b: int) {
    exists k :: 0 <= k < |labels| && labels[k].symbol == Some(s) && labels[k].bounds.Has(b)
  }

  ghost predicate Adds(d: Dependency, s: SymbolReference, b: int) {
    d.Labelled? && d.symbol == Some(s) && d.bounds.Has(b)
  }

  /** The first edge carries no symbol, or the dependency's own: nothing is overwritten. */
  predicate Fits(labels: seq<EdgeLabel>, d: Dependency) {
    labels == [] || labels[0].symbol.None? || d.Plain? || labels[0].symbol == d.symbol
  }

  lemma MarksSplit(l: EdgeLabel, rest: seq<EdgeLabel>, s: SymbolReference, b: int)
    ensures Marks([l] + rest, s, b) <==> (l.symbol == Some(s) && l.bounds.Has(b)) || Marks(rest, s, b)
  {
    if l.symbol == Some(s) && l.bounds.Has(b) {
      assert ([l] + rest)[0] == l;
    }
    if Marks(rest, s, b) {
      var k :| 0 <= k < |rest| && rest[k].symbol == Some(s) && rest[k].bounds.Has(b);
      assert ([l] + rest)[k + 1] == rest[k];
    }
  }

  lemma MarksLast(rest: seq<EdgeLabel>, l: EdgeLabel, s: SymbolReference, b: int)
    ensures Marks(rest + [l], s, b) <==> (l.symbol == Some(s) && l.bounds.Has(b)) || Marks(rest, s, b)
  {
    if l.symbol == Some(s) && l.bounds.Has(b) {
      assert (rest + [l])[|rest|] == l;
    }
    if Marks(rest, s, b) {
      var k :| 0 <= k < |rest| && rest[k].symbol == Some(s) && rest[k].bounds.Has(b);
      assert (rest + [l])[k] == rest[k];
    }
  }

  /** A dependency adds its bits; every bit that was carried stays, unless the first edge is overwritten and no other carries it. */
  lemma DependMarks(labels: seq<EdgeLabel>, d: Dependency, s: SymbolReference, b: int)
    ensures Marks(Depend(labels, d), s, b)
            <==> Adds(d, s, b) || Marks(if Fits(labels, d) then labels else labels[1..], s, b)
  {
    var first := if labels == [] then NewLabel() else labels[0];
    var rest := if labels == [] then [] else labels[1..];
    MarksSplit(first, rest, s, b);
    assert labels != [] ==> labels == [first] + rest;
    MarksSplit(Depend(labels, d)[0], Depend(labels, d)[1..], s, b);
    assert Depend(labels, d) == [Depend(labels, d)[0]] + Depend(labels, d)[1..];
    if d.Labelled? && WithVariable(first, d.symbol, d.bounds).None? {
      var last := Depend(labels, d)[|Depend(labels, d)| - 1];
      assert Depend(labels, d)[1..] == rest + [last];
      MarksLast(rest, last, s, b);
    }
  }
}
