/**
  Documents of versions 3 and 4 (source/NetlistSerializer.cpp): which versions are
  refused, and what a document of version 3, whose edges have no role and no precision,
  is loaded as.
  */
module OldDocuments {
  import opened Json
  import opened Netlist
  import opened RoundTrip
  import opened SavedItems
  import opened Serializer
  import opened Wrappers

  /** The edge without role and precision. */
  function Unknown(note: EdgeLabel): EdgeLabel {
    note.(role := UnknownRole, precision := UnknownPrecision)
  }

  function UnknownRecord(r: EdgeRecord): EdgeRecord {
    r.(note := Unknown(r.note))
  }

  function UnknownRecords(records: seq<EdgeRecord>): seq<EdgeRecord> {
    seq(|records|, k requires 0 <= k < |records| => UnknownRecord(records[k]))
  }

  function UnknownEdges(edges: seq<Edge>): seq<Edge> {
    seq(|edges|, k requires 0 <= k < |edges| => edges[k].(note := Unknown(edges[k].note)))
  }

  /** The artifact with unknown semantics on every edge. */
  function WithoutSemantics(a: Artifact): Artifact {
    a.(outEdges := seq(|a.outEdges|, u requires 0 <= u < |a.outEdges| => UnknownEdges(a.outEdges[u])))
  }

  /** The item has the edge's fields that version 3 reads; whether it has a role or a precision does not matter. */
  ghost predicate IsOldEdge(j: Json, r: EdgeRecord) {
    j.Object? && forall k :: k in EdgeToJson(r).fields && k != RoleOf && k != PrecisionOf ==> k in j.fields && j.fields[k] == EdgeToJson(r).fields[k]
  }

  ghost predicate AreOldEdges(items: seq<Json>, records: seq<EdgeRecord>) {
    |items| == |records| && forall k :: 0 <= k < |items| ==> IsOldEdge(items[k], records[k])
  }

  /**
    The document is the artifact's in version 3: with or without an artifact ID, with or
    without an empty list of black boxes, with or without roles and precisions.
    */
  ghost predicate IsOldDocument(j: Json, a: Artifact)
    requires a.Shaped()
  {
    && j.Object? && j.fields.Keys >= {Version, FileTable, Nodes, Edges}
    && j.fields[Version] == Number(3)
    && j.fields[FileTable] == Array(Texts(a.files))
    && (if BlackBoxes in j.fields then j.fields[BlackBoxes] == Array(Texts(a.blackBoxes)) else a.blackBoxes == [])
    && j.fields[Nodes] == Array(NodesToJson(a.nodes))
    && j.fields[Edges].Array? && AreOldEdges(j.fields[Edges].items, Written(a, |a.nodes|))
  }

  function OldEdge(r: EdgeRecord): Json {
    Object(EdgeToJson(r).fields - {RoleOf, PrecisionOf})
  }

  function OldEdges(records: seq<EdgeRecord>): seq<Json> {
    seq(|records|, k requires 0 <= k < |records| => OldEdge(records[k]))
  }

  lemma OldEdgeIsOne(j: Json, r: EdgeRecord)
    requires j == OldEdge(r)
    ensures IsOldEdge(j, r)
  {
  }

  lemma OldEdgesAreSome(items: seq<Json>, records: seq<EdgeRecord>)
    requires items == OldEdges(records)
    ensures AreOldEdges(items, records)
  {
    forall k | 0 <= k < |records| ensures IsOldEdge(items[k], records[k]) { OldEdgeIsOne(items[k], records[k]); }
  }

  /** A document of version 3 as it was written: no semantics, and an ID or none. */
  function OldDocument(a: Artifact, id: Option<string>): Json
    requires a.Shaped()
  {
    var fields := map[
      Version := Number(3), FileTable := Array(Texts(a.files)), BlackBoxes := Array(Texts(a.blackBoxes)),
      Nodes := Array(NodesToJson(a.nodes)), Edges := Array(OldEdges(Written(a, |a.nodes|)))];
    Object(if id.Some? then fields[ArtifactId := Text(id.value)] else fields)
  }

  lemma OldDocumentIsOne(a: Artifact, id: Option<string>)
    requires a.Shaped()
    ensures IsOldDocument(OldDocument(a, id), a)
  {
    var records := Written(a, |a.nodes|);
    OldEdgesAreSome(OldEdges(records), records);
  }

  lemma FieldOfOldEdge(j: Json, r: EdgeRecord, k: Key)
    requires IsOldEdge(j, r) && k in EdgeToJson(r).fields && k != RoleOf && k != PrecisionOf
    ensures Field(j, k) == Field(EdgeToJson(r), k)
  {
  }

  lemma EndsOfOldEdge(j: Json, r: EdgeRecord)
    requires IsOldEdge(j, r)
    ensures NatField(j, Source) == Ok(r.source) && NatField(j, Target) == Ok(r.target)
  {
    FieldOfOldEdge(j, r, Source);
    FieldOfOldEdge(j, r, Target);
  }

  /** Version 3 reads six fields and no more. */
  lemma SameFieldsSameEdge(i: Json, j: Json)
    requires Field(i, Source) == Field(j, Source) && Field(i, Target) == Field(j, Target)
    requires Field(i, EdgeKindOf) == Field(j, EdgeKindOf) && Field(i, Symbol) == Field(j, Symbol)
    requires Field(i, Bounds) == Field(j, Bounds) && Field(i, Disabled) == Field(j, Disabled)
    ensures EdgeFromJson(3, i) == EdgeFromJson(3, j)
  {
  }

  lemma OldEdgeIsRead(j: Json, r: EdgeRecord, e: Json)
    requires IsOldEdge(j, r) && e == EdgeToJson(r)
    ensures EdgeFromJson(3, j) == Ok(EdgeRecord(r.source, r.target, SettledNote(3, r.note)))
  {
    FieldOfOldEdge(j, r, Source);
    FieldOfOldEdge(j, r, Target);
    FieldOfOldEdge(j, r, EdgeKindOf);
    FieldOfOldEdge(j, r, Symbol);
    FieldOfOldEdge(j, r, Bounds);
    FieldOfOldEdge(j, r, Disabled);
    SameFieldsSameEdge(j, e);
    EdgeIsReadBack(3, r);
  }

  lemma EndsAreWritten(r: EdgeRecord)
    ensures NatField(EdgeToJson(r), Source) == Ok(r.source) && NatField(EdgeToJson(r), Target) == Ok(r.target)
  {
  }

  /** An edge of version 3 is loaded as one of version 4 whose semantics are unknown. */
  lemma OldEdgeIsLoaded(ids: map<nat, Node>, st: Loading, j: Json, r: EdgeRecord)
    requires (forall i :: i in ids ==> ids[i] < |st.outEdges|) && IsOldEdge(j, r)
    ensures LoadEdge(3, ids, st, j) == LoadEdge(FORMAT_VERSION, ids, st, EdgeToJson(UnknownRecord(r)))
  {
    var n := UnknownRecord(r);
    EndsOfOldEdge(j, r);
    OldEdgeIsRead(j, r, EdgeToJson(r));
    EndsAreWritten(n);
    EdgeIsReadBack(FORMAT_VERSION, n);
  }

  lemma LastEdges(ids: map<nat, Node>, n: nat, items: seq<Json>, others: seq<Json>, j: Json, r: EdgeRecord)
    requires (forall i :: i in ids ==> ids[i] < n) && items != [] && others != []
    requires items[|items| - 1] == j && others[|others| - 1] == EdgeToJson(UnknownRecord(r)) && IsOldEdge(j, r)
    requires LoadEdges(3, ids, n, items[..|items| - 1]) == LoadEdges(FORMAT_VERSION, ids, n, others[..|others| - 1])
    ensures LoadEdges(3, ids, n, items) == LoadEdges(FORMAT_VERSION, ids, n, others)
  {
    var st := LoadEdges(3, ids, n, items[..|items| - 1]);
    if st.Ok? {
      OldEdgeIsLoaded(ids, st.value, j, r);
    }
  }

  lemma OthersSplit(records: seq<EdgeRecord>, m: nat)
    requires m == |records| - 1
    ensures EdgesToJson(UnknownRecords(records))[..m] == EdgesToJson(UnknownRecords(records[..m]))
    ensures EdgesToJson(UnknownRecords(records))[m] == EdgeToJson(UnknownRecord(records[m]))
  {
  }

  lemma {:induction false} OldEdgesAreLoaded(ids: map<nat, Node>, n: nat, items: seq<Json>, records: seq<EdgeRecord>)
    requires (forall i :: i in ids ==> ids[i] < n) && AreOldEdges(items, records)
    ensures LoadEdges(3, ids, n, items) == LoadEdges(FORMAT_VERSION, ids, n, EdgesToJson(UnknownRecords(records)))
    decreases |items|
  {
    var others := EdgesToJson(UnknownRecords(records));
    if items == [] {
      assert others == [];
    } else {
      var m := |items| - 1;
      OthersSplit(records, m);
      OldEdgesAreLoaded(ids, n, items[..m], records[..m]);
      LastEdges(ids, n, items, others, items[m], records[m]);
    }
  }

  lemma {:induction false} WrittenWithoutSemantics(a: Artifact, n: nat)
    requires a.Shaped() && n <= |a.nodes|
    ensures WithoutSemantics(a).Shaped()
    ensures Written(WithoutSemantics(a), n) == UnknownRecords(Written(a, n))
  {
    if n > 0 {
      WrittenWithoutSemantics(a, n - 1);
      var b := WithoutSemantics(a);
      assert RecordsOf(b.nodes, b.outEdges[n - 1]) == UnknownRecords(RecordsOf(a.nodes, a.outEdges[n - 1]));
    }
  }

  lemma ReloadableWithoutSemantics(a: Artifact)
    requires Reloadable(a)
    ensures Reloadable(WithoutSemantics(a))
  {
    var b := WithoutSemantics(a);
    WrittenWithoutSemantics(a, 0);
    forall u, k | 0 <= u < |b.outEdges| && 0 <= k < |b.outEdges[u]|
      ensures JoinsFound(b.nodes, b.outEdges[u][k])
    {
      assert JoinsFound(a.nodes, a.outEdges[u][k]);
    }
    forall u | 0 <= u < |b.outEdges|
      ensures DistinctTargets(b.outEdges[u])
    {
      assert DistinctTargets(a.outEdges[u]);
    }
    forall s | HasSymbol(b, s)
      ensures HasSymbol(a, s)
    {
      var u, k :| 0 <= u < |b.outEdges| && 0 <= k < |b.outEdges[u]| && b.outEdges[u][k].note.symbol == Some(s);
      assert a.outEdges[u][k].note.symbol == Some(s);
    }
  }

  lemma FieldsOfOldDocument(j: Json, a: Artifact)
    requires a.Shaped() && IsOldDocument(j, a)
    ensures LoadVersion(j) == Ok(3) && LoadId(3, j) == Ok("")
    ensures ArrayField(j, FileTable) == Ok(Texts(a.files)) && ArrayField(j, Nodes) == Ok(NodesToJson(a.nodes))
    ensures ArrayField(j, Edges).Ok? && AreOldEdges(ArrayField(j, Edges).value, Written(a, |a.nodes|))
    ensures LoadBlackBoxes(j) == Ok(a.blackBoxes)
  {
    TextsAreReadBack(a.blackBoxes);
    if BlackBoxes in j.fields {
      assert ArrayField(j, BlackBoxes) == Ok(Texts(a.blackBoxes));
    }
  }

  /** Every document of version 3 loads as the one of version 4 with unknown semantics, but for the ID. */
  lemma OldDocumentIsRead(literal: Literals, j: Json, a: Artifact)
    requires a.Shaped() && IsOldDocument(j, a)
    ensures var b := WithoutSemantics(a);
            && b.Shaped()
            && Load(literal, Document(b, "")).Ok? && Load(literal, j) == Ok(Load(literal, Document(b, "")).value.(id := ""))
  {
    var b := WithoutSemantics(a);
    WrittenWithoutSemantics(a, |a.nodes|);
    FieldsOfOldDocument(j, a);
    FieldsAreFound(b, "");
    DocumentIsRead(literal, b, "");
    TextsAreReadBack(a.files);
    NodesAreReadBack(literal, a.nodes);
    TextsAreReadBack(a.blackBoxes);
    OldEdgesAreLoaded(IdMap(SettledNodes(literal, a.nodes)), |a.nodes|, ArrayField(j, Edges).value, Written(a, |a.nodes|));
  }

  /** Of a reloadable artifact, a document of version 3 gives the settled artifact, with no ID and unknown semantics on every edge. */
  lemma OldIsLoaded(literal: Literals, j: Json, a: Artifact)
    requires Reloadable(a) && IsOldDocument(j, a)
    ensures Load(literal, j) == Ok(SettledArtifact(literal, WithoutSemantics(a)).(id := ""))
  {
    OldDocumentIsRead(literal, j, a);
    ReloadableWithoutSemantics(a);
    SavedIsLoaded(literal, WithoutSemantics(a), "");
  }

  /** The item has neither a role nor a precision. */
  predicate IsBare(j: Json) {
    j.Object? ==> RoleOf !in j.fields && PrecisionOf !in j.fields
  }

  lemma BareEdgeIsLoaded(ids: map<nat, Node>, st: Loading, j: Json)
    requires (forall i :: i in ids ==> ids[i] < |st.outEdges|) && IsBare(j)
    ensures LoadEdge(FORMAT_VERSION, ids, st, j) == LoadEdge(3, ids, st, j)
  {
    if j.Object? {
      assert SemanticsFromJson(FORMAT_VERSION, j) == SemanticsFromJson(3, j);
    }
  }

  lemma {:induction false} BareEdgesAreLoaded(ids: map<nat, Node>, n: nat, items: seq<Json>)
    requires (forall i :: i in ids ==> ids[i] < n) && forall k :: 0 <= k < |items| ==> IsBare(items[k])
    ensures LoadEdges(FORMAT_VERSION, ids, n, items) == LoadEdges(3, ids, n, items)
    decreases |items|
  {
    if items != [] {
      var m := |items| - 1;
      BareEdgesAreLoaded(ids, n, items[..m]);
      var st := LoadEdges(3, ids, n, items[..m]);
      if st.Ok? {
        BareEdgeIsLoaded(ids, st.value, items[m]);
      }
    }
  }

  /** All that two documents hold is the same, except for their versions. */
  ghost predicate DifferInVersion(i: Json, j: Json) {
    && HasVersion(i, 3) && HasVersion(j, FORMAT_VERSION)
    && forall k :: k != Version ==> Field(i, k) == Field(j, k)
  }

  lemma BlackBoxesAgree(i: Json, j: Json)
    requires DifferInVersion(i, j)
    ensures LoadBlackBoxes(i) == LoadBlackBoxes(j)
  {
    assert Field(i, BlackBoxes) == Field(j, BlackBoxes);
  }

  /** Without an ID and without semantics on edges the version makes no difference, whatever the document holds, even where it fails. */
  lemma BareDocumentsAgree(literal: Literals, i: Json, j: Json)
    requires DifferInVersion(i, j) && Field(j, ArtifactId).Err?
    requires ArrayField(j, Edges).Ok? ==> forall k :: 0 <= k < |ArrayField(j, Edges).value| ==> IsBare(ArrayField(j, Edges).value[k])
    ensures Load(literal, i) == Load(literal, j)
  {
    BlackBoxesAgree(i, j);
    assert LoadId(FORMAT_VERSION, j) == Ok("");
    assert ArrayField(i, FileTable) == ArrayField(j, FileTable) && ArrayField(i, Nodes) == ArrayField(j, Nodes);
    var items := ArrayField(j, Edges);
    assert ArrayField(i, Edges) == items;
    if items.Ok? && ArrayField(j, Nodes).Ok? && NodesFromJson(literal, ArrayField(j, Nodes).value).Ok? {
      var nodes := NodesFromJson(literal, ArrayField(j, Nodes).value).value;
      BareEdgesAreLoaded(IdMap(nodes), |nodes|, items.value);
    }
  }
}
