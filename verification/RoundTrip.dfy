/**
  What a save and a load preserve (source/NetlistSerializer.cpp): everything the format
  holds, when IDs differ, no two edges join the same ordered pair of nodes and equal
  paths are one symbol. Of any graph, a second save and load changes nothing further.
  */
module RoundTrip {
  import opened Json
  import opened Netlist
  import opened SavedItems
  import opened Serializer
  import opened Wrappers

  function SettledNodes(literal: Literals, nodes: seq<NetlistNode>): seq<NetlistNode> {
    seq(|nodes|, k requires 0 <= k < |nodes| => NetlistNode(nodes[k].id, Settled(literal, nodes[k].payload)))
  }

  function SettledEdges(edges: seq<Edge>): seq<Edge> {
    seq(|edges|, k requires 0 <= k < |edges| => edges[k].(note := SettledNote(FORMAT_VERSION, edges[k].note)))
  }

  /** The graph as it is after a save and a load: ranges ascending, constants re-read. */
  function SettledArtifact(literal: Literals, a: Artifact): Artifact {
    a.(nodes := SettledNodes(literal, a.nodes),
       outEdges := seq(|a.outEdges|, u requires 0 <= u < |a.outEdges| => SettledEdges(a.outEdges[u])))
  }

  lemma {:induction false} TextsAreReadBack(ss: seq<string>)
    ensures TextsFromJson(Texts(ss)) == Ok(ss)
    decreases |ss|
  {
    if ss != [] {
      var n := |ss| - 1;
      assert Texts(ss)[..n] == Texts(ss[..n]);
      TextsAreReadBack(ss[..n]);
      assert ss == ss[..n] + [ss[n]];
    }
  }

  lemma OneMoreNode(literal: Literals, items: seq<Json>, before: seq<NetlistNode>, n: NetlistNode)
    requires items != [] && NodesFromJson(literal, items[..|items| - 1]) == Ok(before)
    requires NodeFromJson(literal, items[|items| - 1]) == Ok(n)
    ensures NodesFromJson(literal, items) == Ok(before + [n])
  {
  }

  lemma SettledSplit(literal: Literals, nodes: seq<NetlistNode>)
    requires nodes != []
    ensures var n := |nodes| - 1;
            && NodesToJson(nodes)[..n] == NodesToJson(nodes[..n])
            && SettledNodes(literal, nodes)
               == SettledNodes(literal, nodes[..n]) + [NetlistNode(nodes[n].id, Settled(literal, nodes[n].payload))]
  {
  }

  lemma {:induction false} NodesAreReadBack(literal: Literals, nodes: seq<NetlistNode>)
    ensures NodesFromJson(literal, NodesToJson(nodes)) == Ok(SettledNodes(literal, nodes))
    decreases |nodes|
  {
    if nodes == [] {
      assert SettledNodes(literal, nodes) == [];
    } else {
      var n := |nodes| - 1;
      SettledSplit(literal, nodes);
      NodesAreReadBack(literal, nodes[..n]);
      NodeIsReadBack(literal, nodes[n]);
      OneMoreNode(literal, NodesToJson(nodes), SettledNodes(literal, nodes[..n]),
                  NetlistNode(nodes[n].id, Settled(literal, nodes[n].payload)));
    }
  }

  lemma {:induction false} IdMapNeedsOnlyIds(a: seq<NetlistNode>, b: seq<NetlistNode>)
    requires |a| == |b| && forall u :: 0 <= u < |a| ==> a[u].id == b[u].id
    ensures IdMap(a) == IdMap(b)
    decreases |a|
  {
    if a != [] {
      IdMapNeedsOnlyIds(a[..|a| - 1], b[..|b| - 1]);
    }
  }

  ghost predicate NoRepeats(ss: seq<string>) {
    forall i, j :: 0 <= i < j < |ss| ==> ss[i] != ss[j]
  }

  lemma {:induction false} UniqueFilesStay(files: seq<string>)
    requires NoRepeats(files)
    ensures AddFiles(files) == files
    decreases |files|
  {
    if files != [] {
      UniqueFilesStay(files[..|files| - 1]);
    }
  }

  /** The file table holds each name once, in the order of first occurrence. */
  lemma {:induction false} FilesAreUnique(names: seq<string>)
    ensures NoRepeats(AddFiles(names)) && forall s :: s in AddFiles(names) <==> s in names
    ensures names != [] ==> AddFiles(names[..|names| - 1]) <= AddFiles(names)
    decreases |names|
  {
    if names != [] {
      FilesAreUnique(names[..|names| - 1]);
      assert names == names[..|names| - 1] + [names[|names| - 1]];
    }
  }

  /** Inserting records one after the other. */
  function InsertAll(st: Loading, ids: map<nat, Node>, records: seq<EdgeRecord>): (r: Loading)
    requires forall i :: i in ids ==> ids[i] < |st.outEdges|
    requires forall k :: 0 <= k < |records| ==> records[k].source in ids && records[k].target in ids
    ensures |r.outEdges| == |st.outEdges|
    decreases |records|
  {
    if records == [] then st
    else
      var last := records[|records| - 1];
      Insert(InsertAll(st, ids, records[..|records| - 1]), ids[last.source], ids[last.target], SettledNote(FORMAT_VERSION, last.note))
  }

  function Empty(n: nat): Loading {
    Loading(seq(n, _ => []), map[])
  }

  ghost predicate Known(ids: map<nat, Node>, records: seq<EdgeRecord>) {
    forall k :: 0 <= k < |records| ==> records[k].source in ids && records[k].target in ids
  }

  lemma RecordIsLoaded(ids: map<nat, Node>, st: Loading, r: EdgeRecord)
    requires (forall i :: i in ids ==> ids[i] < |st.outEdges|) && r.source in ids && r.target in ids
    ensures LoadEdge(FORMAT_VERSION, ids, st, EdgeToJson(r))
            == Ok(Insert(st, ids[r.source], ids[r.target], SettledNote(FORMAT_VERSION, r.note)))
  {
    EdgeIsReadBack(FORMAT_VERSION, r);
    assert NatField(EdgeToJson(r), Source) == Ok(r.source);
    assert NatField(EdgeToJson(r), Target) == Ok(r.target);
  }

  lemma LoadLast(ids: map<nat, Node>, n: nat, items: seq<Json>, st: Loading)
    requires (forall i :: i in ids ==> ids[i] < n) && items != []
    requires LoadEdges(FORMAT_VERSION, ids, n, items[..|items| - 1]) == Ok(st)
    ensures LoadEdges(FORMAT_VERSION, ids, n, items) == LoadEdge(FORMAT_VERSION, ids, st, items[|items| - 1])
  {
  }

  lemma {:induction false} RecordsAreLoaded(ids: map<nat, Node>, n: nat, records: seq<EdgeRecord>)
    requires (forall i :: i in ids ==> ids[i] < n) && Known(ids, records)
    ensures LoadEdges(FORMAT_VERSION, ids, n, EdgesToJson(records)) == Ok(InsertAll(Empty(n), ids, records))
    decreases |records|
  {
    if records != [] {
      var m := |records| - 1;
      assert EdgesToJson(records)[..m] == EdgesToJson(records[..m]);
      RecordsAreLoaded(ids, n, records[..m]);
      var st := InsertAll(Empty(n), ids, records[..m]);
      LoadLast(ids, n, EdgesToJson(records), st);
      RecordIsLoaded(ids, st, records[m]);
    }
  }

  /** Loading succeeds exactly when all ends are known; otherwise it reports one that is not. */
  ghost predicate LoadsIff(loaded: Result<Loading>, known: bool, ids: map<nat, Node>) {
    (loaded.Ok? <==> known) && (loaded.Err? ==> loaded.error.UnknownNode? && loaded.error.id !in ids)
  }

  lemma OneMoreLoadsIff(ids: map<nat, Node>, n: nat, items: seq<Json>, r: EdgeRecord, known: bool)
    requires (forall i :: i in ids ==> ids[i] < n) && items != [] && items[|items| - 1] == EdgeToJson(r)
    requires LoadsIff(LoadEdges(FORMAT_VERSION, ids, n, items[..|items| - 1]), known, ids)
    ensures LoadsIff(LoadEdges(FORMAT_VERSION, ids, n, items), known && r.source in ids && r.target in ids, ids)
  {
    var before := LoadEdges(FORMAT_VERSION, ids, n, items[..|items| - 1]);
    if before.Ok? {
      LoadLast(ids, n, items, before.value);
      RecordLoadsIffKnown(ids, before.value, r);
    } else {
      FailedStays(ids, n, items);
    }
  }

  lemma KnownLast(ids: map<nat, Node>, records: seq<EdgeRecord>)
    requires records != []
    ensures var m := |records| - 1; Known(ids, records) <==> Known(ids, records[..m]) && records[m].source in ids && records[m].target in ids
  {
    var m := |records| - 1;
    if Known(ids, records[..m]) && records[m].source in ids && records[m].target in ids {
      forall k | 0 <= k < |records|
        ensures records[k].source in ids && records[k].target in ids
      {
        assert k < m ==> records[..m][k] == records[k];
      }
    }
  }

  lemma FailedStays(ids: map<nat, Node>, n: nat, items: seq<Json>)
    requires (forall i :: i in ids ==> ids[i] < n) && items != []
    requires LoadEdges(FORMAT_VERSION, ids, n, items[..|items| - 1]).Err?
    ensures LoadEdges(FORMAT_VERSION, ids, n, items) == LoadEdges(FORMAT_VERSION, ids, n, items[..|items| - 1])
  {
  }

  /** Edge records load exactly when all their ends are IDs of nodes; otherwise an end that is unknown is reported. */
  lemma {:induction false} RecordsLoadIffKnown(ids: map<nat, Node>, n: nat, records: seq<EdgeRecord>)
    requires forall i :: i in ids ==> ids[i] < n
    ensures LoadsIff(LoadEdges(FORMAT_VERSION, ids, n, EdgesToJson(records)), Known(ids, records), ids)
    decreases |records|
  {
    if records != [] {
      var m := |records| - 1;
      RecordsLoadIffKnown(ids, n, records[..m]);
      assert EdgesToJson(records)[..m] == EdgesToJson(records[..m]);
      KnownLast(ids, records);
      OneMoreLoadsIff(ids, n, EdgesToJson(records), records[m], Known(ids, records[..m]));
    }
  }

  lemma RecordLoadsIffKnown(ids: map<nat, Node>, st: Loading, r: EdgeRecord)
    requires forall i :: i in ids ==> ids[i] < |st.outEdges|
    ensures LoadsIff(LoadEdge(FORMAT_VERSION, ids, st, EdgeToJson(r)), r.source in ids && r.target in ids, ids)
  {
    EdgeIsReadBack(FORMAT_VERSION, r);
    assert NatField(EdgeToJson(r), Source) == Ok(r.source);
    assert NatField(EdgeToJson(r), Target) == Ok(r.target);
  }

  lemma {:induction false} InsertMore(st: Loading, ids: map<nat, Node>, a: seq<EdgeRecord>, b: seq<EdgeRecord>)
    requires (forall i :: i in ids ==> ids[i] < |st.outEdges|) && Known(ids, a) && Known(ids, b)
    ensures Known(ids, a + b) && InsertAll(st, ids, a + b) == InsertAll(InsertAll(st, ids, a), ids, b)
    decreases |b|
  {
    if b == [] {
      assert a + b == a;
    } else {
      var m := |b| - 1;
      assert (a + b)[..|a + b| - 1] == a + b[..m];
      InsertMore(st, ids, a, b[..m]);
    }
  }

  lemma {:induction false} WrittenAreKnown(a: Artifact, ids: map<nat, Node>, n: nat)
    requires a.Shaped() && n <= |a.nodes| && forall u :: 0 <= u < |a.nodes| ==> a.nodes[u].id in ids
    ensures Known(ids, Written(a, n))
  {
    if n > 0 {
      WrittenAreKnown(a, ids, n - 1);
    }
  }

  lemma FieldsAreFound(a: Artifact, newId: string)
    requires a.Shaped()
    ensures var j := Document(a, newId);
            && LoadVersion(j) == Ok(FORMAT_VERSION) && LoadId(FORMAT_VERSION, j) == Ok(if a.id == "" then newId else a.id)
            && ArrayField(j, FileTable) == Ok(Texts(a.files))
            && ArrayField(j, Nodes) == Ok(NodesToJson(a.nodes))
            && ArrayField(j, Edges) == Ok(EdgesToJson(Written(a, |a.nodes|)))
            && LoadBlackBoxes(j) == TextsFromJson(Texts(a.blackBoxes))
  {
    var j := Document(a, newId);
    assert ArrayField(j, BlackBoxes) == Ok(Texts(a.blackBoxes));
  }

  /** A document is read back as the settled nodes, with the edges inserted one after the other. */
  lemma DocumentIsRead(literal: Literals, a: Artifact, newId: string)
    requires a.Shaped()
    ensures var ids := IdMap(a.nodes); var records := Written(a, |a.nodes|);
            && Known(ids, records)
            && Load(literal, Document(a, newId))
               == Ok(Artifact(if a.id == "" then newId else a.id, AddFiles(a.files), a.blackBoxes,
                              SettledNodes(literal, a.nodes), InsertAll(Empty(|a.nodes|), ids, records).outEdges))
  {
    var ids, records := IdMap(a.nodes), Written(a, |a.nodes|);
    TextsAreReadBack(a.files);
    TextsAreReadBack(a.blackBoxes);
    NodesAreReadBack(literal, a.nodes);
    IdMapNeedsOnlyIds(a.nodes, SettledNodes(literal, a.nodes));
    WrittenAreKnown(a, ids, |a.nodes|);
    RecordsAreLoaded(ids, |a.nodes|, records);
    FieldsAreFound(a, newId);
  }

  ghost predicate DistinctTargets(edges: seq<Edge>) {
    forall j, k :: 0 <= j < k < |edges| ==> edges[j].target != edges[k].target
  }

  ghost predicate HasSymbol(a: Artifact, s: SymbolReference) {
    exists u, k :: 0 <= u < |a.outEdges| && 0 <= k < |a.outEdges[u]| && a.outEdges[u][k].note.symbol == Some(s)
  }

  /** Equal paths name one symbol record, as the symbol table makes sure of. */
  ghost predicate OneRecordPerPath(a: Artifact) {
    forall s, t :: HasSymbol(a, s) && HasSymbol(a, t) && s.path == t.path ==> s == t
  }

  /** A node's ID leads to it. */
  ghost predicate IsFound(nodes: seq<NetlistNode>, u: Node) {
    u < |nodes| && IdMap(nodes)[nodes[u].id] == u
  }

  ghost predicate JoinsFound(nodes: seq<NetlistNode>, e: Edge) {
    IsFound(nodes, e.source) && IsFound(nodes, e.target)
  }

  /** Edges join nodes that their IDs lead to. */
  ghost predicate EndsAreFound(a: Artifact) {
    forall u, k :: 0 <= u < |a.outEdges| && 0 <= k < |a.outEdges[u]| ==> JoinsFound(a.nodes, a.outEdges[u][k])
  }

  ghost predicate Reloadable(a: Artifact) {
    && a.Shaped() && a.id != "" && NoRepeats(a.files)
    && EndsAreFound(a)
    && (forall u :: 0 <= u < |a.outEdges| ==> DistinctTargets(a.outEdges[u]))
    && OneRecordPerPath(a)
  }

  /** With distinct IDs every node is found by its ID. */
  lemma DistinctIdsAreFound(a: Artifact)
    requires a.Shaped() && forall u, v :: 0 <= u < v < |a.nodes| ==> a.nodes[u].id != a.nodes[v].id
    ensures EndsAreFound(a)
  {
    forall u | 0 <= u < |a.nodes|
      ensures IsFound(a.nodes, u)
    {
      var v := IdMap(a.nodes)[a.nodes[u].id];
      assert !(v < u) && !(u < v);
    }
  }

  lemma {:induction false} PutNew(edges: seq<Edge>, e: Edge)
    requires forall k :: 0 <= k < |edges| ==> edges[k].target != e.target
    ensures Put(edges, e) == edges + [e]
    decreases |edges|
  {
    if edges != [] {
      PutNew(edges[1..], e);
      assert edges == [edges[0]] + edges[1..];
    }
  }

  /** The table holds records of the artifact's own symbols, under their paths. */
  ghost predicate TableOf(a: Artifact, symbols: map<string, SymbolReference>) {
    forall p :: p in symbols ==> symbols[p].path == p && HasSymbol(a, symbols[p])
  }

  lemma InternFindsItself(a: Artifact, symbols: map<string, SymbolReference>, s: SymbolReference)
    requires OneRecordPerPath(a) && TableOf(a, symbols) && HasSymbol(a, s)
    ensures TableOf(a, Intern(symbols, s)) && Intern(symbols, s)[s.path] == s
  {
  }

  /** One more edge of node `u` is appended to those already there, as it was. */
  lemma InsertAppends(a: Artifact, st: Loading, u: nat, k: nat)
    requires Reloadable(a) && u < |a.nodes| && k < |a.outEdges[u]| && |st.outEdges| == |a.nodes|
    requires TableOf(a, st.symbols) && st.outEdges[u] == SettledEdges(a.outEdges[u][..k])
    ensures var e := a.outEdges[u][k];
            var r := Insert(st, u, e.target, SettledNote(FORMAT_VERSION, e.note));
            && r.outEdges == st.outEdges[u := SettledEdges(a.outEdges[u][..k + 1])]
            && TableOf(a, r.symbols)
  {
    var e := a.outEdges[u][k];
    var note := SettledNote(FORMAT_VERSION, e.note);
    if note.symbol.Some? {
      assert HasSymbol(a, note.symbol.value);
      InternFindsItself(a, st.symbols, note.symbol.value);
    }
    assert DistinctTargets(a.outEdges[u]);
    PutNew(st.outEdges[u], Edge(u, e.target, note));
    assert SettledEdges(a.outEdges[u][..k + 1]) == SettledEdges(a.outEdges[u][..k]) + [Edge(u, e.target, note)];
  }

  /** The first `m` nodes have their edges, the others none yet. */
  ghost predicate LoadedUpTo(a: Artifact, st: Loading, m: nat) {
    && |st.outEdges| == |a.outEdges| && m <= |a.outEdges| && TableOf(a, st.symbols)
    && (forall u :: 0 <= u < m ==> st.outEdges[u] == SettledEdges(a.outEdges[u]))
    && (forall u :: m <= u < |a.outEdges| ==> st.outEdges[u] == [])
  }

  lemma RecordsBefore(a: Artifact, u: nat, k: nat)
    requires a.Shaped() && u < |a.nodes| && k < |a.outEdges[u]|
    ensures RecordsOf(a.nodes, a.outEdges[u][..k + 1]) == RecordsOf(a.nodes, a.outEdges[u][..k]) + [RecordOf(a.nodes, a.outEdges[u][k])]
  {
  }

  lemma InsertLast(st: Loading, ids: map<nat, Node>, before: seq<EdgeRecord>, r: EdgeRecord)
    requires (forall i :: i in ids ==> ids[i] < |st.outEdges|) && Known(ids, before) && r.source in ids && r.target in ids
    ensures Known(ids, before + [r])
    ensures InsertAll(st, ids, before + [r])
            == Insert(InsertAll(st, ids, before), ids[r.source], ids[r.target], SettledNote(FORMAT_VERSION, r.note))
  {
    assert (before + [r])[..|before + [r]| - 1] == before;
  }

  /** The edges of node `u` up to the k-th. */
  function RecordsUpTo(a: Artifact, u: nat, k: nat): seq<EdgeRecord>
    requires a.Shaped() && u < |a.nodes| && k <= |a.outEdges[u]|
  {
    RecordsOf(a.nodes, a.outEdges[u][..k])
  }

  /** `now` is `st` with the first `k` edges of node `u`. */
  ghost predicate HasEdges(a: Artifact, st: Loading, now: Loading, u: nat, k: nat)
    requires a.Shaped() && u < |a.nodes| && k <= |a.outEdges[u]| && |st.outEdges| == |a.nodes|
  {
    now.outEdges == st.outEdges[u := SettledEdges(a.outEdges[u][..k])] && TableOf(a, now.symbols)
  }

  ghost predicate LoadedTo(a: Artifact, st: Loading, ids: map<nat, Node>, u: nat, k: nat)
    requires a.Shaped() && u < |a.nodes| && k <= |a.outEdges[u]| && |st.outEdges| == |a.nodes|
    requires forall i :: i in ids ==> ids[i] < |a.nodes|
  {
    && Known(ids, RecordsUpTo(a, u, k))
    && HasEdges(a, st, InsertAll(st, ids, RecordsUpTo(a, u, k)), u, k)
  }

  lemma OneMoreEdge(a: Artifact, st: Loading, now: Loading, u: nat, k: nat)
    requires Reloadable(a) && u < |a.nodes| && k < |a.outEdges[u]| && |st.outEdges| == |a.nodes|
    requires HasEdges(a, st, now, u, k)
    ensures var e := a.outEdges[u][k];
            HasEdges(a, st, Insert(now, u, e.target, SettledNote(FORMAT_VERSION, e.note)), u, k + 1)
  {
    InsertAppends(a, now, u, k);
  }

  lemma EdgeIsLoaded(a: Artifact, st: Loading, u: nat, k: nat)
    requires Reloadable(a) && u < |a.nodes| && k < |a.outEdges[u]| && |st.outEdges| == |a.nodes|
    requires LoadedTo(a, st, IdMap(a.nodes), u, k)
    ensures LoadedTo(a, st, IdMap(a.nodes), u, k + 1)
  {
    var ids, e := IdMap(a.nodes), a.outEdges[u][k];
    var before := RecordsUpTo(a, u, k);
    RecordsBefore(a, u, k);
    assert JoinsFound(a.nodes, e);
    InsertLast(st, ids, before, RecordOf(a.nodes, e));
    OneMoreEdge(a, st, InsertAll(st, ids, before), u, k);
  }

  lemma {:induction false} NodeEdgesAreLoaded(a: Artifact, st: Loading, u: nat, k: nat)
    requires Reloadable(a) && LoadedUpTo(a, st, u) && u < |a.nodes| && k <= |a.outEdges[u]|
    ensures LoadedTo(a, st, IdMap(a.nodes), u, k)
    decreases k
  {
    if k == 0 {
      assert SettledEdges(a.outEdges[u][..0]) == [] == st.outEdges[u];
    } else {
      NodeEdgesAreLoaded(a, st, u, k - 1);
      EdgeIsLoaded(a, st, u, k - 1);
    }
  }

  lemma NodeIsLoaded(a: Artifact, st: Loading, u: nat)
    requires Reloadable(a) && LoadedUpTo(a, st, u) && u < |a.nodes|
    ensures Known(IdMap(a.nodes), RecordsOf(a.nodes, a.outEdges[u]))
    ensures LoadedUpTo(a, InsertAll(st, IdMap(a.nodes), RecordsOf(a.nodes, a.outEdges[u])), u + 1)
  {
    assert a.outEdges[u][..|a.outEdges[u]|] == a.outEdges[u];
    NodeEdgesAreLoaded(a, st, u, |a.outEdges[u]|);
  }

  lemma NoneLoadedYet(a: Artifact, st: Loading)
    requires a.Shaped() && st == Empty(|a.nodes|)
    ensures LoadedUpTo(a, st, 0)
  {
  }

  lemma LoadOneNode(a: Artifact, st: Loading, u: nat, before: seq<EdgeRecord>, now: Loading)
    requires Reloadable(a) && u < |a.nodes| && |st.outEdges| == |a.nodes| && Known(IdMap(a.nodes), before)
    requires now == InsertAll(st, IdMap(a.nodes), before) && LoadedUpTo(a, now, u)
    ensures Known(IdMap(a.nodes), before + RecordsOf(a.nodes, a.outEdges[u]))
    ensures LoadedUpTo(a, InsertAll(st, IdMap(a.nodes), before + RecordsOf(a.nodes, a.outEdges[u])), u + 1)
  {
    NodeIsLoaded(a, now, u);
    InsertMore(st, IdMap(a.nodes), before, RecordsOf(a.nodes, a.outEdges[u]));
  }

  lemma {:induction false} NodesAreLoaded(a: Artifact, m: nat)
    requires Reloadable(a) && m <= |a.nodes|
    ensures Known(IdMap(a.nodes), Written(a, m))
    ensures LoadedUpTo(a, InsertAll(Empty(|a.nodes|), IdMap(a.nodes), Written(a, m)), m)
    decreases m
  {
    var st := Empty(|a.nodes|);
    if m == 0 {
      NoneLoadedYet(a, st);
    } else {
      var u := m - 1;
      NodesAreLoaded(a, u);
      LoadOneNode(a, st, u, Written(a, u), InsertAll(st, IdMap(a.nodes), Written(a, u)));
    }
  }

  lemma AllLoaded(literal: Literals, a: Artifact, st: Loading)
    requires a.Shaped() && LoadedUpTo(a, st, |a.nodes|)
    ensures SettledArtifact(literal, a).outEdges == st.outEdges
  {
  }

  /** A saved artifact loads as itself, settled. */
  lemma SavedIsLoaded(literal: Literals, a: Artifact, newId: string)
    requires Reloadable(a)
    ensures Load(literal, Document(a, newId)) == Ok(SettledArtifact(literal, a))
  {
    DocumentIsRead(literal, a, newId);
    UniqueFilesStay(a.files);
    NodesAreLoaded(a, |a.nodes|);
    AllLoaded(literal, a, InsertAll(Empty(|a.nodes|), IdMap(a.nodes), Written(a, |a.nodes|)));
  }

  /** An edge between nodes that are found, whose symbol is the table's and, if asked for, whose label is settled. */
  ghost predicate Proper(e: Edge, u: Node, nodes: seq<NetlistNode>, symbols: map<string, SymbolReference>, settled: bool) {
    && e.source == u && JoinsFound(nodes, e)
    && (settled ==> SettledNote(FORMAT_VERSION, e.note) == e.note)
    && (e.note.symbol.Some? ==> e.note.symbol.value.path in symbols && symbols[e.note.symbol.value.path] == e.note.symbol.value)
  }

  ghost predicate ProperList(edges: seq<Edge>, u: Node, nodes: seq<NetlistNode>, symbols: map<string, SymbolReference>, settled: bool) {
    DistinctTargets(edges) && forall k :: 0 <= k < |edges| ==> Proper(edges[k], u, nodes, symbols, settled)
  }

  ghost predicate ProperLoading(st: Loading, nodes: seq<NetlistNode>, settled: bool) {
    |st.outEdges| == |nodes| && forall u :: 0 <= u < |nodes| ==> ProperList(st.outEdges[u], u, nodes, st.symbols, settled)
  }

  lemma {:induction false} PutKeepsTargets(edges: seq<Edge>, e: Edge)
    requires DistinctTargets(edges)
    ensures DistinctTargets(Put(edges, e)) && |Put(edges, e)| <= |edges| + 1
    ensures forall k :: 0 <= k < |Put(edges, e)| ==> Put(edges, e)[k] == e || (k < |edges| && Put(edges, e)[k] == edges[k])
    ensures forall k :: 0 <= k < |Put(edges, e)| ==> Put(edges, e)[k].target == if k < |edges| then edges[k].target else e.target
    ensures |Put(edges, e)| > |edges| ==> forall k :: 0 <= k < |edges| ==> edges[k].target != e.target
    decreases |edges|
  {
    if edges != [] && edges[0].target != e.target {
      var rest := Put(edges[1..], e);
      PutKeepsTargets(edges[1..], e);
      assert Put(edges, e) == [edges[0]] + rest;
    }
  }

  lemma PutStaysProper(edges: seq<Edge>, e: Edge, u: Node, nodes: seq<NetlistNode>, symbols: map<string, SymbolReference>, settled: bool)
    requires ProperList(edges, u, nodes, symbols, settled) && Proper(e, u, nodes, symbols, settled)
    ensures ProperList(Put(edges, e), u, nodes, symbols, settled)
  {
    PutKeepsTargets(edges, e);
  }

  lemma MoreSymbolsStayProper(edges: seq<Edge>, u: Node, nodes: seq<NetlistNode>, symbols: map<string, SymbolReference>, settled: bool,
                              s: SymbolReference)
    requires ProperList(edges, u, nodes, symbols, settled)
    ensures ProperList(edges, u, nodes, Intern(symbols, s), settled)
  {
  }

  ghost predicate PathsAreKeys(symbols: map<string, SymbolReference>) {
    forall p :: p in symbols ==> symbols[p].path == p
  }

  lemma InsertStaysProper(st: Loading, nodes: seq<NetlistNode>, settled: bool, u: Node, v: Node, note: EdgeLabel)
    requires ProperLoading(st, nodes, settled) && PathsAreKeys(st.symbols)
    requires IsFound(nodes, u) && IsFound(nodes, v) && (settled ==> SettledNote(FORMAT_VERSION, note) == note)
    ensures ProperLoading(Insert(st, u, v, note), nodes, settled) && PathsAreKeys(Insert(st, u, v, note).symbols)
  {
    var r := Insert(st, u, v, note);
    forall w | 0 <= w < |nodes|
      ensures ProperList(st.outEdges[w], w, nodes, r.symbols, settled)
    {
      if note.symbol.Some? {
        MoreSymbolsStayProper(st.outEdges[w], w, nodes, st.symbols, settled, note.symbol.value);
      }
    }
    var symbol := if note.symbol.Some? then Some(r.symbols[note.symbol.value.path]) else None;
    PutStaysProper(st.outEdges[u], Edge(u, v, note.(symbol := symbol)), u, nodes, r.symbols, settled);
  }

  lemma SettledTwice(note: EdgeLabel)
    ensures SettledNote(FORMAT_VERSION, SettledNote(FORMAT_VERSION, note)) == SettledNote(FORMAT_VERSION, note)
  {
  }

  lemma {:induction false} LoadingIsProper(nodes: seq<NetlistNode>, records: seq<EdgeRecord>)
    requires Known(IdMap(nodes), records)
    ensures var st := InsertAll(Empty(|nodes|), IdMap(nodes), records); ProperLoading(st, nodes, true) && PathsAreKeys(st.symbols)
    decreases |records|
  {
    if records != [] {
      var m := |records| - 1;
      LoadingIsProper(nodes, records[..m]);
      var ids, last := IdMap(nodes), records[m];
      SettledTwice(last.note);
      InsertStaysProper(InsertAll(Empty(|nodes|), ids, records[..m]), nodes, true, ids[last.source], ids[last.target],
                        SettledNote(FORMAT_VERSION, last.note));
    }
  }

  lemma EdgesAreProper(a: Artifact, symbols: map<string, SymbolReference>, settled: bool, u: nat, k: nat)
    requires ProperLoading(Loading(a.outEdges, symbols), a.nodes, settled) && u < |a.outEdges| && k < |a.outEdges[u]|
    ensures Proper(a.outEdges[u][k], u, a.nodes, symbols, settled)
  {
    assert ProperList(a.outEdges[u], u, a.nodes, symbols, settled);
  }

  lemma SymbolsAreTheTables(a: Artifact, symbols: map<string, SymbolReference>, settled: bool, s: SymbolReference)
    requires ProperLoading(Loading(a.outEdges, symbols), a.nodes, settled) && HasSymbol(a, s)
    ensures s.path in symbols && symbols[s.path] == s
  {
    var u, k :| 0 <= u < |a.outEdges| && 0 <= k < |a.outEdges[u]| && a.outEdges[u][k].note.symbol == Some(s);
    EdgesAreProper(a, symbols, settled, u, k);
  }

  lemma ProperIsReloadable(a: Artifact, symbols: map<string, SymbolReference>, settled: bool)
    requires a.id != "" && NoRepeats(a.files) && ProperLoading(Loading(a.outEdges, symbols), a.nodes, settled)
    ensures Reloadable(a)
  {
    forall u, k | 0 <= u < |a.outEdges| && 0 <= k < |a.outEdges[u]|
      ensures Proper(a.outEdges[u][k], u, a.nodes, symbols, settled)
    {
      EdgesAreProper(a, symbols, settled, u, k);
    }
    assert a.Shaped();
    forall u, k | 0 <= u < |a.outEdges| && 0 <= k < |a.outEdges[u]|
      ensures JoinsFound(a.nodes, a.outEdges[u][k])
    {
      EdgesAreProper(a, symbols, settled, u, k);
    }
    forall u | 0 <= u < |a.outEdges| ensures DistinctTargets(a.outEdges[u]) { assert ProperList(a.outEdges[u], u, a.nodes, symbols, settled); }
    forall s, t | HasSymbol(a, s) && HasSymbol(a, t) && s.path == t.path
      ensures s == t
    {
      SymbolsAreTheTables(a, symbols, settled, s);
      SymbolsAreTheTables(a, symbols, settled, t);
    }
  }

  /** Whatever edges a document holds, those loaded from it join found nodes, one per pair, with the table's symbols. */
  lemma {:induction false} LoadedEdgesAreProper(version: int, nodes: seq<NetlistNode>, items: seq<Json>, st: Loading)
    requires LoadEdges(version, IdMap(nodes), |nodes|, items) == Ok(st)
    ensures ProperLoading(st, nodes, false) && PathsAreKeys(st.symbols)
    decreases |items|
  {
    if items != [] {
      var ids, m := IdMap(nodes), |items| - 1;
      var before := LoadEdges(version, ids, |nodes|, items[..m]).value;
      LoadedEdgesAreProper(version, nodes, items[..m], before);
      LoadedEdgeIsProper(version, nodes, ids, before, items[m], st);
    }
  }

  lemma LoadedEdgeIsProper(version: int, nodes: seq<NetlistNode>, ids: map<nat, Node>, before: Loading, item: Json, st: Loading)
    requires ids == IdMap(nodes) && ProperLoading(before, nodes, false) && PathsAreKeys(before.symbols)
    requires LoadEdge(version, ids, before, item) == Ok(st)
    ensures ProperLoading(st, nodes, false) && PathsAreKeys(st.symbols)
  {
    var s, t, r := NatField(item, Source).value, NatField(item, Target).value, EdgeFromJson(version, item).value;
    InsertStaysProper(before, nodes, false, ids[s], ids[t], r.note);
  }

  /** An artifact with an ID, which a save gives it if it has none. */
  function Identified(a: Artifact, newId: string): Artifact {
    if a.id == "" then a.(id := newId) else a
  }

  lemma {:induction false} WrittenIgnoresId(a: Artifact, b: Artifact, n: nat)
    requires a.Shaped() && b.Shaped() && a.nodes == b.nodes && a.outEdges == b.outEdges && n <= |a.nodes|
    ensures Written(a, n) == Written(b, n)
  {
    if n > 0 {
      WrittenIgnoresId(a, b, n - 1);
    }
  }

  /**
    Any document that loads, of either version and from whatever source, is saved and
    loaded again as itself, settled, with the ID it had or was given.
    */
  lemma WhateverLoadsIsReloadable(literal: Literals, j: Json, newId: string)
    requires Load(literal, j).Ok? && newId != ""
    ensures var b := Load(literal, j).value;
            && Reloadable(Identified(b, newId)) && b.Shaped()
            && Load(literal, Document(b, newId)) == Ok(SettledArtifact(literal, Identified(b, newId)))
  {
    var b := Load(literal, j).value;
    var c := Identified(b, newId);
    var version, names, items := LoadVersion(j).value, ArrayField(j, FileTable).value, ArrayField(j, Edges).value;
    var st := LoadEdges(version, IdMap(b.nodes), |b.nodes|, items).value;
    LoadedEdgesAreProper(version, b.nodes, items, st);
    FilesAreUnique(TextsFromJson(names).value);
    ProperIsReloadable(c, st.symbols, false);
    WrittenIgnoresId(b, c, |b.nodes|);
    SavedIsLoaded(literal, c, newId);
  }

  ghost predicate ConstantsStay(literal: Literals, nodes: seq<NetlistNode>) {
    forall u :: 0 <= u < |nodes| && nodes[u].payload.ConstantData? ==> TextStays(literal, nodes[u].payload.text)
  }

  lemma SettledNodesStay(literal: Literals, nodes: seq<NetlistNode>)
    ensures SettledNodes(literal, SettledNodes(literal, nodes)) == SettledNodes(literal, nodes) <==> ConstantsStay(literal, nodes)
  {
    var once := SettledNodes(literal, nodes);
    var twice := SettledNodes(literal, once);
    forall u | 0 <= u < |nodes|
      ensures twice[u] == once[u] <==> (nodes[u].payload.ConstantData? ==> TextStays(literal, nodes[u].payload.text))
    {
      SettledNodeStays(literal, nodes[u].payload);
    }
  }

  lemma SettledNodeStays(literal: Literals, p: Payload)
    ensures Settled(literal, Settled(literal, p)) == Settled(literal, p) <==> (p.ConstantData? ==> TextStays(literal, p.text))
  {
  }

  lemma ProperEdgesStay(a: Artifact, symbols: map<string, SymbolReference>, u: nat)
    requires ProperLoading(Loading(a.outEdges, symbols), a.nodes, true) && u < |a.outEdges|
    ensures SettledEdges(a.outEdges[u]) == a.outEdges[u]
  {
    assert ProperList(a.outEdges[u], u, a.nodes, symbols, true);
    forall k | 0 <= k < |a.outEdges[u]|
      ensures SettledEdges(a.outEdges[u])[k] == a.outEdges[u][k]
    {
      assert Proper(a.outEdges[u][k], u, a.nodes, symbols, true);
    }
  }

  lemma AllProperEdgesStay(literal: Literals, a: Artifact, symbols: map<string, SymbolReference>)
    requires a.Shaped() && ProperLoading(Loading(a.outEdges, symbols), a.nodes, true)
    ensures SettledArtifact(literal, a).outEdges == a.outEdges
  {
    forall u | 0 <= u < |a.outEdges| ensures SettledEdges(a.outEdges[u]) == a.outEdges[u] { ProperEdgesStay(a, symbols, u); }
  }

  /** What has been loaded has found ends, one edge per pair, one record per path, and settled labels. */
  lemma LoadedIsReloadable(literal: Literals, a: Artifact, newId: string) returns (b: Artifact)
    requires a.Shaped() && (a.id != "" || newId != "")
    ensures Load(literal, Document(a, newId)) == Ok(b) && Reloadable(b)
    ensures SettledArtifact(literal, b) == b <==> ConstantsStay(literal, a.nodes)
  {
    DocumentIsRead(literal, a, newId);
    b := Load(literal, Document(a, newId)).value;
    var records := Written(a, |a.nodes|);
    LoadingIsProper(a.nodes, records);
    var st := InsertAll(Empty(|a.nodes|), IdMap(a.nodes), records);
    SameIdsStayProper(st, a.nodes, b.nodes);
    FilesAreUnique(a.files);
    ProperIsReloadable(b, st.symbols, true);
    SettledNodesStay(literal, a.nodes);
    AllProperEdgesStay(literal, b, st.symbols);
  }

  /**
    Whatever graph was saved, with parallel edges, repeated IDs or several records for one
    path: what has been loaded once is saved and loaded again as it is, exactly when the
    texts of its constants stay.
    */
  lemma SecondSaveChangesNothing(literal: Literals, a: Artifact, newId: string, again: string)
    requires a.Shaped() && (a.id != "" || newId != "")
    ensures var first := Load(literal, Document(a, newId));
            && first.Ok? && first.value.Shaped()
            && (Load(literal, Document(first.value, again)) == first <==> ConstantsStay(literal, a.nodes))
  {
    var b := LoadedIsReloadable(literal, a, newId);
    SavedIsLoaded(literal, b, again);
  }

  lemma EndsWereFound(a: Artifact, b: Artifact)
    requires a.Shaped() && b.Shaped() && EndsAreFound(b) && |a.nodes| == |b.nodes|
    requires forall u :: 0 <= u < |a.nodes| ==> a.nodes[u].id == b.nodes[u].id
    requires forall u :: 0 <= u < |a.nodes| ==> |a.outEdges[u]| == |b.outEdges[u]|
    requires forall u, k :: 0 <= u < |a.nodes| && 0 <= k < |a.outEdges[u]| ==> a.outEdges[u][k].target == b.outEdges[u][k].target
    ensures EndsAreFound(a)
  {
    IdMapNeedsOnlyIds(a.nodes, b.nodes);
    forall u, k | 0 <= u < |a.outEdges| && 0 <= k < |a.outEdges[u]|
      ensures JoinsFound(a.nodes, a.outEdges[u][k])
    {
      assert JoinsFound(b.nodes, b.outEdges[u][k]);
    }
  }

  /** The settled artifact has the same ends, targets and symbols. */
  lemma SettlingHidesNothing(literal: Literals, a: Artifact)
    requires a.Shaped() && Reloadable(SettledArtifact(literal, a))
    ensures Reloadable(a)
  {
    var b := SettledArtifact(literal, a);
    EndsWereFound(a, b);
    forall u | 0 <= u < |a.outEdges|
      ensures DistinctTargets(a.outEdges[u])
    {
      assert DistinctTargets(b.outEdges[u]);
      assert forall k :: 0 <= k < |a.outEdges[u]| ==> b.outEdges[u][k].target == a.outEdges[u][k].target;
    }
    forall s | HasSymbol(a, s)
      ensures HasSymbol(b, s)
    {
      var u, k :| 0 <= u < |a.outEdges| && 0 <= k < |a.outEdges[u]| && a.outEdges[u][k].note.symbol == Some(s);
      assert b.outEdges[u][k].note.symbol == Some(s);
    }
  }

  /**
    A save and a load restore the artifact, settled, exactly when its edges' ends are found
    by ID, no two edges join the same ordered pair, equal paths are one record, and no file
    is listed twice.
    */
  lemma RestoredExactlyWhenReloadable(literal: Literals, a: Artifact, newId: string)
    requires a.Shaped() && a.id != ""
    ensures Load(literal, Document(a, newId)) == Ok(SettledArtifact(literal, a)) <==> Reloadable(a)
  {
    if Reloadable(a) {
      SavedIsLoaded(literal, a, newId);
    } else {
      var b := LoadedIsReloadable(literal, a, newId);
      if b == SettledArtifact(literal, a) {
        SettlingHidesNothing(literal, a);
      }
    }
  }

  lemma TwoToOneTarget(st: Loading, u: nat, v: nat, note1: EdgeLabel, note2: EdgeLabel)
    requires u < |st.outEdges| && st.outEdges[u] == []
    ensures var once := Insert(st, u, v, note1); |Insert(once, u, v, note2).outEdges[u]| == 1
  {
    var once := Insert(st, u, v, note1);
    assert |once.outEdges[u]| == 1 && once.outEdges[u][0].target == v;
  }

  lemma InsertTwo(st: Loading, ids: map<nat, Node>, r1: EdgeRecord, r2: EdgeRecord)
    requires (forall i :: i in ids ==> ids[i] < |st.outEdges|) && Known(ids, [r1, r2])
    ensures r1.source in ids && r1.target in ids && r2.source in ids && r2.target in ids
    ensures InsertAll(st, ids, [r1, r2])
            == Insert(Insert(st, ids[r1.source], ids[r1.target], SettledNote(FORMAT_VERSION, r1.note)),
                      ids[r2.source], ids[r2.target], SettledNote(FORMAT_VERSION, r2.note))
  {
    assert [r1, r2][0] == r1 && [r1, r2][1] == r2;
    assert [r1, r2] == [r1] + [r2] && [r1] == [] + [r1];
    InsertLast(st, ids, [r1], r2);
    InsertLast(st, ids, [], r1);
  }

  /** Two edges from the first node to the second, as labels of two symbols make them: one is left after loading. */
  lemma ParallelEdgesCollapse(literal: Literals, a: Artifact, first: NetlistNode, second: NetlistNode, e1: Edge, e2: Edge)
    requires a.id != "" && a.files == [] && a.nodes == [first, second] && first.id != second.id
    requires e1.source == e2.source == 0 && e1.target == e2.target == 1 && a.outEdges == [[e1, e2], []]
    ensures a.Shaped() && !Reloadable(a)
    ensures var b := Load(literal, Document(a, "")); b.Ok? && |b.value.outEdges| == 2 && |b.value.outEdges[0]| == 1
  {
    var edges := a.outEdges[0];
    assert edges == [e1, e2] && edges[0].target == edges[1].target;
    assert !DistinctTargets(edges);
    DocumentIsRead(literal, a, "");
    var ids := IdMap(a.nodes);
    TwoIds(a.nodes, first, second);
    TwoRecords(a, first, second, e1, e2);
    var r1, r2 := EdgeRecord(first.id, second.id, e1.note), EdgeRecord(first.id, second.id, e2.note);
    InsertTwo(Empty(2), ids, r1, r2);
    TwoToOneTarget(Empty(2), 0, 1, SettledNote(FORMAT_VERSION, e1.note), SettledNote(FORMAT_VERSION, e2.note));
  }

  lemma TwoIds(nodes: seq<NetlistNode>, first: NetlistNode, second: NetlistNode)
    requires nodes == [first, second] && first.id != second.id
    ensures IdMap(nodes) == map[first.id := 0, second.id := 1]
  {
    assert nodes[..1] == [first] && nodes[..1][..0] == [];
  }

  lemma TwoRecords(a: Artifact, first: NetlistNode, second: NetlistNode, e1: Edge, e2: Edge)
    requires a.Shaped() && a.nodes == [first, second] && a.outEdges == [[e1, e2], []]
    requires e1.source == e2.source == 0 && e1.target == e2.target == 1
    ensures Written(a, 2) == [EdgeRecord(first.id, second.id, e1.note), EdgeRecord(first.id, second.id, e2.note)]
  {
    assert Written(a, 0) == [];
    assert Written(a, 1) == RecordsOf(a.nodes, [e1, e2]);
    assert RecordsOf(a.nodes, a.outEdges[1]) == [];
  }

  lemma SameIdsStayProper(st: Loading, nodes: seq<NetlistNode>, others: seq<NetlistNode>)
    requires ProperLoading(st, nodes, true) && |others| == |nodes| && forall u :: 0 <= u < |nodes| ==> others[u].id == nodes[u].id
    ensures ProperLoading(st, others, true)
  {
    IdMapNeedsOnlyIds(nodes, others);
    forall u, k | 0 <= u < |others| && 0 <= k < |st.outEdges[u]|
      ensures Proper(st.outEdges[u][k], u, others, st.symbols, true)
    {
      assert ProperList(st.outEdges[u], u, nodes, st.symbols, true);
      assert Proper(st.outEdges[u][k], u, nodes, st.symbols, true);
    }
    forall u | 0 <= u < |others|
      ensures ProperList(st.outEdges[u], u, others, st.symbols, true)
    {
      assert ProperList(st.outEdges[u], u, nodes, st.symbols, true);
    }
  }
}
