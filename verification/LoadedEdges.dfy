/**
  Which label a loaded edge has (source/NetlistSerializer.cpp): for every document, there
  is one edge for each ordered pair of nodes that some record joins, the label is that
  of the last such record, and its symbol the first one of that path.
  */
module LoadedEdges {
  import opened Json
  import opened Netlist
  import opened RoundTrip
  import opened SavedItems
  import opened Serializer
  import opened Wrappers

  /** The record joins the two nodes its IDs lead to. */
  ghost predicate Leads(ids: map<nat, Node>, r: EdgeRecord, u: Node, v: Node) {
    r.source in ids && ids[r.source] == u && r.target in ids && ids[r.target] == v
  }

  ghost predicate SomeLeads(ids: map<nat, Node>, records: seq<EdgeRecord>, u: Node, v: Node) {
    exists k :: 0 <= k < |records| && Leads(ids, records[k], u, v)
  }

  /** The k-th record is the last that joins the two nodes. */
  ghost predicate IsLast(ids: map<nat, Node>, records: seq<EdgeRecord>, k: nat, u: Node, v: Node) {
    k < |records| && Leads(ids, records[k], u, v) && forall j :: k < j < |records| ==> !Leads(ids, records[j], u, v)
  }

  ghost predicate NamesPath(r: EdgeRecord, path: string) {
    r.note.symbol.Some? && r.note.symbol.value.path == path
  }

  /** The first symbol of its path among the records. */
  ghost predicate IsFirstOfPath(records: seq<EdgeRecord>, s: SymbolReference) {
    exists j :: 0 <= j < |records| && records[j].note.symbol == Some(s) && forall i :: 0 <= i < j ==> !NamesPath(records[i], s.path)
  }

  /** The label is the record's, with the first symbol of its path. */
  ghost predicate IsLabelOf(l: EdgeLabel, r: EdgeRecord, records: seq<EdgeRecord>) {
    && l == r.note.(symbol := l.symbol)
    && (l.symbol.Some? <==> r.note.symbol.Some?)
    && (l.symbol.Some? ==> NamesPath(r, l.symbol.value.path) && IsFirstOfPath(records, l.symbol.value))
  }

  ghost predicate HasLastLabel(ids: map<nat, Node>, records: seq<EdgeRecord>, u: Node, e: Edge) {
    e.source == u && exists k: nat :: IsLast(ids, records, k, u, e.target) && IsLabelOf(e.note, records[k], records)
  }

  ghost predicate HasEdgeTo(edges: seq<Edge>, v: Node) {
    exists k :: 0 <= k < |edges| && edges[k].target == v
  }

  ghost predicate HasLastLabels(ids: map<nat, Node>, records: seq<EdgeRecord>, u: Node, edges: seq<Edge>) {
    && DistinctTargets(edges)
    && (forall k :: 0 <= k < |edges| ==> HasLastLabel(ids, records, u, edges[k]))
    && (forall v: Node :: HasEdgeTo(edges, v) <==> SomeLeads(ids, records, u, v))
  }

  /** The symbol table has the first symbol of every path. */
  ghost predicate HasFirstSymbols(records: seq<EdgeRecord>, symbols: map<string, SymbolReference>) {
    && (forall p :: p in symbols ==> symbols[p].path == p && IsFirstOfPath(records, symbols[p]))
    && (forall k, p :: 0 <= k < |records| && NamesPath(records[k], p) ==> p in symbols)
  }

  ghost predicate IsLoaded(st: Loading, ids: map<nat, Node>, records: seq<EdgeRecord>) {
    HasFirstSymbols(records, st.symbols) && forall u :: 0 <= u < |st.outEdges| ==> HasLastLabels(ids, records, u, st.outEdges[u])
  }

  lemma FirstStays(records: seq<EdgeRecord>, r: EdgeRecord, s: SymbolReference)
    requires IsFirstOfPath(records, s)
    ensures IsFirstOfPath(records + [r], s)
  {
    var j :| 0 <= j < |records| && records[j].note.symbol == Some(s) && forall i :: 0 <= i < j ==> !NamesPath(records[i], s.path);
    assert (records + [r])[j] == records[j];
  }

  lemma NewIsFirst(records: seq<EdgeRecord>, r: EdgeRecord, s: SymbolReference)
    requires r.note.symbol == Some(s) && forall i :: 0 <= i < |records| ==> !NamesPath(records[i], s.path)
    ensures IsFirstOfPath(records + [r], s)
  {
    assert (records + [r])[|records|] == r;
  }

  lemma OneMoreSymbol(records: seq<EdgeRecord>, r: EdgeRecord, symbols: map<string, SymbolReference>)
    requires HasFirstSymbols(records, symbols)
    ensures HasFirstSymbols(records + [r], if r.note.symbol.Some? then Intern(symbols, r.note.symbol.value) else symbols)
  {
    var more := if r.note.symbol.Some? then Intern(symbols, r.note.symbol.value) else symbols;
    forall p | p in more
      ensures more[p].path == p && IsFirstOfPath(records + [r], more[p])
    {
      if p in symbols {
        FirstStays(records, r, symbols[p]);
      } else {
        NewIsFirst(records, r, r.note.symbol.value);
      }
    }
  }

  lemma OneMoreLeads(ids: map<nat, Node>, records: seq<EdgeRecord>, r: EdgeRecord, u: Node, v: Node)
    ensures SomeLeads(ids, records + [r], u, v) <==> SomeLeads(ids, records, u, v) || Leads(ids, r, u, v)
  {
    if SomeLeads(ids, records, u, v) {
      var k :| 0 <= k < |records| && Leads(ids, records[k], u, v);
      assert (records + [r])[k] == records[k];
    }
    if Leads(ids, r, u, v) {
      assert (records + [r])[|records|] == r;
    }
  }

  /** An edge of another pair keeps its label. */
  lemma OthersStay(ids: map<nat, Node>, records: seq<EdgeRecord>, r: EdgeRecord, u: Node, e: Edge)
    requires HasLastLabel(ids, records, u, e) && !Leads(ids, r, u, e.target)
    ensures HasLastLabel(ids, records + [r], u, e)
  {
    var k: nat :| IsLast(ids, records, k, u, e.target) && IsLabelOf(e.note, records[k], records);
    assert (records + [r])[k] == records[k];
    assert IsLast(ids, records + [r], k, u, e.target);
    if e.note.symbol.Some? {
      FirstStays(records, r, e.note.symbol.value);
    }
  }

  /** The edge of the record's own pair takes its label. */
  lemma OwnIsTaken(ids: map<nat, Node>, records: seq<EdgeRecord>, r: EdgeRecord, symbols: map<string, SymbolReference>, u: Node, v: Node, e: Edge)
    requires Leads(ids, r, u, v) && HasFirstSymbols(records + [r], symbols) && e.source == u && e.target == v
    requires r.note.symbol.Some? ==> r.note.symbol.value.path in symbols
    requires e.note == r.note.(symbol := if r.note.symbol.Some? then Some(symbols[r.note.symbol.value.path]) else None)
    ensures HasLastLabel(ids, records + [r], u, e)
  {
    assert (records + [r])[|records|] == r;
    assert IsLast(ids, records + [r], |records|, u, v);
  }

  lemma PutHas(edges: seq<Edge>, e: Edge, v: Node)
    requires DistinctTargets(edges)
    ensures HasEdgeTo(Put(edges, e), v) <==> HasEdgeTo(edges, v) || v == e.target
  {
    PutHasOwn(edges, e);
    PutKeepsTargets(edges, e);
    if HasEdgeTo(edges, v) {
      var k :| 0 <= k < |edges| && edges[k].target == v;
      assert |edges| <= |Put(edges, e)| && Put(edges, e)[k].target == v;
    }
    if HasEdgeTo(Put(edges, e), v) {
      var k :| 0 <= k < |Put(edges, e)| && Put(edges, e)[k].target == v;
      assert k < |edges| ==> edges[k].target == v;
    }
  }

  /** The new edge is there, and no other to its target. */
  lemma {:induction false} PutHasOwn(edges: seq<Edge>, e: Edge)
    requires DistinctTargets(edges)
    ensures |edges| <= |Put(edges, e)| && exists k :: 0 <= k < |Put(edges, e)| && Put(edges, e)[k] == e
    ensures forall k :: 0 <= k < |Put(edges, e)| && Put(edges, e)[k].target == e.target ==> Put(edges, e)[k] == e
    decreases |edges|
  {
    var put := Put(edges, e);
    if edges == [] || edges[0].target == e.target {
      assert put[0] == e;
    } else {
      var rest := Put(edges[1..], e);
      PutHasOwn(edges[1..], e);
      assert put == [edges[0]] + rest;
      var k :| 0 <= k < |rest| && rest[k] == e;
      assert put[k + 1] == e;
    }
  }

  lemma OwnListStays(ids: map<nat, Node>, records: seq<EdgeRecord>, r: EdgeRecord, u: Node, edges: seq<Edge>, e: Edge)
    requires HasLastLabels(ids, records, u, edges) && Leads(ids, r, u, e.target) && HasLastLabel(ids, records + [r], u, e)
    ensures HasLastLabels(ids, records + [r], u, Put(edges, e))
  {
    var put := Put(edges, e);
    PutKeepsTargets(edges, e);
    PutHasOwn(edges, e);
    forall k | 0 <= k < |put|
      ensures HasLastLabel(ids, records + [r], u, put[k])
    {
      if put[k] != e {
        assert put[k] == edges[k];
        OthersStay(ids, records, r, u, edges[k]);
      }
    }
    forall v: Node
      ensures HasEdgeTo(put, v) <==> SomeLeads(ids, records + [r], u, v)
    {
      PutHas(edges, e, v);
      OneMoreLeads(ids, records, r, u, v);
    }
  }

  lemma OtherListStays(ids: map<nat, Node>, records: seq<EdgeRecord>, r: EdgeRecord, u: Node, edges: seq<Edge>)
    requires HasLastLabels(ids, records, u, edges) && r.source in ids && ids[r.source] != u
    ensures HasLastLabels(ids, records + [r], u, edges)
  {
    forall k | 0 <= k < |edges| ensures HasLastLabel(ids, records + [r], u, edges[k]) { OthersStay(ids, records, r, u, edges[k]); }
    forall v: Node ensures HasEdgeTo(edges, v) <==> SomeLeads(ids, records + [r], u, v) { OneMoreLeads(ids, records, r, u, v); }
  }

  lemma InsertStaysLoaded(st: Loading, ids: map<nat, Node>, records: seq<EdgeRecord>, r: EdgeRecord)
    requires (forall i :: i in ids ==> ids[i] < |st.outEdges|) && IsLoaded(st, ids, records) && r.source in ids && r.target in ids
    ensures IsLoaded(Insert(st, ids[r.source], ids[r.target], r.note), ids, records + [r])
  {
    var u, v := ids[r.source], ids[r.target];
    var after := Insert(st, u, v, r.note);
    OneMoreSymbol(records, r, st.symbols);
    var e := Edge(u, v, r.note.(symbol := if r.note.symbol.Some? then Some(after.symbols[r.note.symbol.value.path]) else None));
    OwnIsTaken(ids, records, r, after.symbols, u, v, e);
    forall w | 0 <= w < |st.outEdges|
      ensures HasLastLabels(ids, records + [r], w, after.outEdges[w])
    {
      assert HasLastLabels(ids, records, w, st.outEdges[w]);
      if w == u {
        OwnListStays(ids, records, r, u, st.outEdges[u], e);
      } else {
        OtherListStays(ids, records, r, w, st.outEdges[w]);
      }
    }
  }

  /** The edge items of a document and what each is read as. */
  ghost predicate AreReadAs(version: int, items: seq<Json>, records: seq<EdgeRecord>) {
    |records| == |items| && forall k :: 0 <= k < |items| ==> EdgeFromJson(version, items[k]) == Ok(records[k])
  }

  lemma EdgeIsInserted(version: int, ids: map<nat, Node>, before: Loading, item: Json, st: Loading) returns (r: EdgeRecord)
    requires (forall i :: i in ids ==> ids[i] < |before.outEdges|) && LoadEdge(version, ids, before, item) == Ok(st)
    ensures EdgeFromJson(version, item) == Ok(r) && r.source in ids && r.target in ids
    ensures st == Insert(before, ids[r.source], ids[r.target], r.note)
  {
    r := EdgeFromJson(version, item).value;
    assert NatField(item, Source) == Ok(r.source) && NatField(item, Target) == Ok(r.target);
  }

  /**
    Whatever edge items load, one edge for each ordered pair of nodes that some of them joins is
    there, with the label of the last of them and the first symbol of its path.
    */
  lemma {:induction false} LastLabelWins(version: int, ids: map<nat, Node>, n: nat, items: seq<Json>, st: Loading) returns (records: seq<EdgeRecord>)
    requires (forall i :: i in ids ==> ids[i] < n) && LoadEdges(version, ids, n, items) == Ok(st)
    ensures AreReadAs(version, items, records) && |st.outEdges| == n && IsLoaded(st, ids, records)
    decreases |items|
  {
    if items == [] {
      records := [];
      forall u | 0 <= u < n ensures HasLastLabels(ids, records, u, st.outEdges[u]) { NothingLoaded(ids, records, u, st.outEdges[u]); }
    } else {
      var m := |items| - 1;
      var before := LoadEdges(version, ids, n, items[..m]).value;
      var front := LastLabelWins(version, ids, n, items[..m], before);
      var r := EdgeIsInserted(version, ids, before, items[m], st);
      InsertStaysLoaded(before, ids, front, r);
      records := front + [r];
      OneMoreIsRead(version, items, m, front, r);
    }
  }

  lemma NothingLoaded(ids: map<nat, Node>, records: seq<EdgeRecord>, u: Node, edges: seq<Edge>)
    requires records == [] && edges == []
    ensures HasLastLabels(ids, records, u, edges)
  {
  }

  lemma OneMoreIsRead(version: int, items: seq<Json>, m: nat, front: seq<EdgeRecord>, r: EdgeRecord)
    requires m + 1 == |items| && AreReadAs(version, items[..m], front) && EdgeFromJson(version, items[m]) == Ok(r)
    ensures AreReadAs(version, items, front + [r])
  {
    forall k | 0 <= k < |items|
      ensures EdgeFromJson(version, items[k]) == Ok((front + [r])[k])
    {
      assert k < m ==> items[..m][k] == items[k];
    }
  }

  /** So it is of every document that loads. */
  lemma LoadedLabelsAreLast(literal: Literals, j: Json) returns (records: seq<EdgeRecord>)
    requires Load(literal, j).Ok?
    ensures LoadVersion(j).Ok? && ArrayField(j, Edges).Ok? && AreReadAs(LoadVersion(j).value, ArrayField(j, Edges).value, records)
    ensures var b := Load(literal, j).value;
            |b.outEdges| == |b.nodes| && forall u :: 0 <= u < |b.nodes| ==> HasLastLabels(IdMap(b.nodes), records, u, b.outEdges[u])
  {
    var b := Load(literal, j).value;
    var version, items := LoadVersion(j).value, ArrayField(j, Edges).value;
    var st := LoadEdges(version, IdMap(b.nodes), |b.nodes|, items).value;
    records := LastLabelWins(version, IdMap(b.nodes), |b.nodes|, items, st);
  }
}
