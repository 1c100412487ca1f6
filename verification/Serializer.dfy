/**
  Saving a netlist and loading it (NetlistSerializer in source/NetlistSerializer.cpp).
  A loaded edge goes through the edge store's deduplicating addEdge, so parallel
  edges collapse into one that has the last label; equal symbol paths share a record.
  */
module Serializer {
  import opened Json
  import opened Netlist
  import opened SavedItems
  import opened Wrappers

  const FORMAT_VERSION := 4

  /** What is saved of a graph: node IDs, labels and the out-edges of every node, in order. */
  datatype Artifact = Artifact(
    id: string,
    files: seq<string>,
    blackBoxes: seq<string>,
    nodes: seq<NetlistNode>,
    outEdges: seq<seq<Edge>>)
  {
    ghost predicate Shaped() {
      && |outEdges| == |nodes|
      && forall u, k :: 0 <= u < |outEdges| && 0 <= k < |outEdges[u]| ==> outEdges[u][k].source == u && outEdges[u][k].target < |nodes|
    }
  }

  function RecordOf(nodes: seq<NetlistNode>, e: Edge): EdgeRecord
    requires e.source < |nodes| && e.target < |nodes|
  {
    EdgeRecord(nodes[e.source].id, nodes[e.target].id, e.note)
  }

  function RecordsOf(nodes: seq<NetlistNode>, edges: seq<Edge>): seq<EdgeRecord>
    requires forall k :: 0 <= k < |edges| ==> edges[k].source < |nodes| && edges[k].target < |nodes|
  {
    seq(|edges|, k requires 0 <= k < |edges| => RecordOf(nodes, edges[k]))
  }

  /** The edges of the first `n` nodes, node by node. */
  function Written(a: Artifact, n: nat): seq<EdgeRecord>
    requires a.Shaped() && n <= |a.nodes|
  {
    if n == 0 then [] else Written(a, n - 1) + RecordsOf(a.nodes, a.outEdges[n - 1])
  }

  function Texts(ss: seq<string>): seq<Json> {
    seq(|ss|, k requires 0 <= k < |ss| => Text(ss[k]))
  }

  function NodesToJson(nodes: seq<NetlistNode>): seq<Json> {
    seq(|nodes|, k requires 0 <= k < |nodes| => NodeToJson(nodes[k]))
  }

  function EdgesToJson(records: seq<EdgeRecord>): seq<Json> {
    seq(|records|, k requires 0 <= k < |records| => EdgeToJson(records[k]))
  }

  /** The saved document. An artifact without an ID gets `newId`. */
  function Document(a: Artifact, newId: string): Json
    requires a.Shaped()
  {
    Object(map[
      Version := Number(FORMAT_VERSION),
      ArtifactId := Text(if a.id == "" then newId else a.id),
      FileTable := Array(Texts(a.files)),
      BlackBoxes := Array(Texts(a.blackBoxes)),
      Nodes := Array(NodesToJson(a.nodes)),
      Edges := Array(EdgesToJson(Written(a, |a.nodes|)))])
  }

  /** Adds a file name unless it is there. */
  function AddFile(files: seq<string>, name: string): seq<string> {
    if name in files then files else files + [name]
  }

  function AddFiles(names: seq<string>): seq<string> {
    if names == [] then [] else AddFile(AddFiles(names[..|names| - 1]), names[|names| - 1])
  }

  function TextsFromJson(items: seq<Json>): Result<seq<string>> {
    if items == [] then Ok([])
    else
      var before :- TextsFromJson(items[..|items| - 1]);
      var s :- AsText(items[|items| - 1]);
      Ok(before + [s])
  }

  function NodesFromJson(literal: Literals, items: seq<Json>): Result<seq<NetlistNode>> {
    if items == [] then Ok([])
    else
      var before :- NodesFromJson(literal, items[..|items| - 1]);
      var n :- NodeFromJson(literal, items[|items| - 1]);
      Ok(before + [n])
  }

  /** Where each ID leads: to the last node that has it. */
  function IdMap(nodes: seq<NetlistNode>): (ids: map<nat, Node>)
    ensures forall u :: 0 <= u < |nodes| ==> nodes[u].id in ids
    ensures forall i :: i in ids ==> ids[i] < |nodes| && nodes[ids[i]].id == i
  {
    if nodes == [] then map[] else IdMap(nodes[..|nodes| - 1])[nodes[|nodes| - 1].id := |nodes| - 1]
  }

  /** The out-edges loaded so far, and the symbol table by path. */
  datatype Loading = Loading(outEdges: seq<seq<Edge>>, symbols: map<string, SymbolReference>)

  function Intern(symbols: map<string, SymbolReference>, s: SymbolReference): map<string, SymbolReference> {
    if s.path in symbols then symbols else symbols[s.path := s]
  }

  /** The first edge to the target takes the label; without one, a new edge does. */
  function Put(edges: seq<Edge>, e: Edge): seq<Edge> {
    if edges == [] then [e]
    else if edges[0].target == e.target then [e] + edges[1..]
    else [edges[0]] + Put(edges[1..], e)
  }

  function Insert(st: Loading, u: Node, v: Node, note: EdgeLabel): Loading
    requires u < |st.outEdges|
  {
    var symbols := if note.symbol.Some? then Intern(st.symbols, note.symbol.value) else st.symbols;
    var symbol := if note.symbol.Some? then Some(symbols[note.symbol.value.path]) else None;
    Loading(st.outEdges[u := Put(st.outEdges[u], Edge(u, v, note.(symbol := symbol)))], symbols)
  }

  function LoadEdge(version: int, ids: map<nat, Node>, st: Loading, j: Json): Result<Loading>
    requires forall i :: i in ids ==> ids[i] < |st.outEdges|
  {
    var s :- NatField(j, Source);
    var t :- NatField(j, Target);
    if s !in ids then Err(UnknownNode(s))
    else if t !in ids then Err(UnknownNode(t))
    else
      var r :- EdgeFromJson(version, j);
      Ok(Insert(st, ids[s], ids[t], r.note))
  }

  function LoadEdges(version: int, ids: map<nat, Node>, n: nat, items: seq<Json>): (r: Result<Loading>)
    requires forall i :: i in ids ==> ids[i] < n
    ensures r.Ok? ==> |r.value.outEdges| == n
  {
    if items == [] then Ok(Loading(seq(n, _ => []), map[]))
    else
      var st :- LoadEdges(version, ids, n, items[..|items| - 1]);
      LoadEdge(version, ids, st, items[|items| - 1])
  }

  function LoadId(version: int, j: Json): Result<string> {
    if version >= 4 && j.Object? && ArtifactId in j.fields then TextField(j, ArtifactId) else Ok("")
  }

  function LoadBlackBoxes(j: Json): Result<seq<string>> {
    if j.Object? && BlackBoxes in j.fields then
      var items :- ArrayField(j, BlackBoxes);
      TextsFromJson(items)
    else Ok([])
  }

  function LoadVersion(j: Json): Result<int> {
    var field :- Field(j, Version);
    var version :- AsInt(field);
    if version != 3 && version != FORMAT_VERSION then Err(UnsupportedVersion(version)) else Ok(version)
  }

  /** The graph a document stands for, or why it cannot be loaded. */
  function Load(literal: Literals, j: Json): Result<Artifact> {
    var version :- LoadVersion(j);
    var id :- LoadId(version, j);
    var names :- ArrayField(j, FileTable);
    var files :- TextsFromJson(names);
    var blackBoxes :- LoadBlackBoxes(j);
    var nodeItems :- ArrayField(j, Nodes);
    var nodes :- NodesFromJson(literal, nodeItems);
    var edgeItems :- ArrayField(j, Edges);
    var st :- LoadEdges(version, IdMap(nodes), |nodes|, edgeItems);
    Ok(Artifact(id, AddFiles(files), blackBoxes, nodes, st.outEdges))
  }

  /** Writes the file table, the black boxes, the nodes, and then the out-edges node by node. */
  method Serialize(a: Artifact, newId: string) returns (root: Json)
    requires a.Shaped()
    ensures root == Document(a, newId)
  {
    var id := if a.id == "" then newId else a.id;
    var files: seq<Json> := [];
    for i := 0 to |a.files|
      invariant files == Texts(a.files[..i])
    {
      files := files + [Text(a.files[i])];
    }
    assert a.files[..|a.files|] == a.files;
    var blackBoxes: seq<Json> := [];
    for i := 0 to |a.blackBoxes|
      invariant blackBoxes == Texts(a.blackBoxes[..i])
    {
      blackBoxes := blackBoxes + [Text(a.blackBoxes[i])];
    }
    assert a.blackBoxes[..|a.blackBoxes|] == a.blackBoxes;
    var nodes := SerializeNodes(a.nodes);
    var edges := SerializeEdges(a);
    root := Object(map[
      Version := Number(FORMAT_VERSION), ArtifactId := Text(id), FileTable := Array(files),
      BlackBoxes := Array(blackBoxes), Nodes := Array(nodes), Edges := Array(edges)]);
  }

  method SerializeNodes(nodes: seq<NetlistNode>) returns (items: seq<Json>)
    ensures items == NodesToJson(nodes)
  {
    items := [];
    for i := 0 to |nodes|
      invariant items == NodesToJson(nodes[..i])
    {
      items := items + [NodeToJson(nodes[i])];
    }
    assert nodes[..|nodes|] == nodes;
  }

  method SerializeEdges(a: Artifact) returns (items: seq<Json>)
    requires a.Shaped()
    ensures items == EdgesToJson(Written(a, |a.nodes|))
  {
    items := [];
    for u := 0 to |a.nodes|
      invariant items == EdgesToJson(Written(a, u))
    {
      JoinedToJson(Written(a, u), RecordsOf(a.nodes, a.outEdges[u]));
      var more := SerializeOutEdges(a.nodes, a.outEdges[u]);
      items := items + more;
    }
  }

  method SerializeOutEdges(nodes: seq<NetlistNode>, edges: seq<Edge>) returns (items: seq<Json>)
    requires forall k :: 0 <= k < |edges| ==> edges[k].source < |nodes| && edges[k].target < |nodes|
    ensures items == EdgesToJson(RecordsOf(nodes, edges))
  {
    items := [];
    for k := 0 to |edges|
      invariant |items| == k && forall j :: 0 <= j < k ==> items[j] == EdgeToJson(RecordOf(nodes, edges[j]))
    {
      items := items + [EdgeToJson(RecordOf(nodes, edges[k]))];
    }
  }

  lemma JoinedToJson(a: seq<EdgeRecord>, b: seq<EdgeRecord>)
    ensures EdgesToJson(a + b) == EdgesToJson(a) + EdgesToJson(b)
  {
  }

  /** The document is an object whose version is this integer. */
  predicate HasVersion(j: Json, v: int) {
    j.Object? && Version in j.fields && j.fields[Version] == Number(v)
  }

  /** No version is refused here. */
  ghost predicate AcceptsVersion<T>(r: Result<T>) {
    r.Err? ==> !r.error.UnsupportedVersion?
  }

  lemma NodeAcceptsVersion(literal: Literals, j: Json)
    ensures AcceptsVersion(NodeFromJson(literal, j))
  {
    assert AcceptsVersion(SymbolFromJson(j));
  }

  lemma EdgeAcceptsVersion(version: int, ids: map<nat, Node>, st: Loading, j: Json)
    requires forall i :: i in ids ==> ids[i] < |st.outEdges|
    ensures AcceptsVersion(LoadEdge(version, ids, st, j))
  {
    assert AcceptsVersion(SemanticsFromJson(version, j));
  }

  lemma {:induction false} TextsAcceptVersion(items: seq<Json>)
    ensures AcceptsVersion(TextsFromJson(items))
    decreases |items|
  {
    if items != [] {
      TextsAcceptVersion(items[..|items| - 1]);
    }
  }

  lemma {:induction false} NodesAcceptVersion(literal: Literals, items: seq<Json>)
    ensures AcceptsVersion(NodesFromJson(literal, items))
    decreases |items|
  {
    if items != [] {
      NodesAcceptVersion(literal, items[..|items| - 1]);
      NodeAcceptsVersion(literal, items[|items| - 1]);
    }
  }

  lemma {:induction false} EdgesAcceptVersion(version: int, ids: map<nat, Node>, n: nat, items: seq<Json>)
    requires forall i :: i in ids ==> ids[i] < n
    ensures AcceptsVersion(LoadEdges(version, ids, n, items))
    decreases |items|
  {
    if items != [] {
      EdgesAcceptVersion(version, ids, n, items[..|items| - 1]);
      var st := LoadEdges(version, ids, n, items[..|items| - 1]);
      if st.Ok? {
        EdgeAcceptsVersion(version, ids, st.value, items[|items| - 1]);
      }
    }
  }

  lemma BlackBoxesAcceptVersion(j: Json)
    ensures AcceptsVersion(LoadBlackBoxes(j))
  {
    if ArrayField(j, BlackBoxes).Ok? {
      TextsAcceptVersion(ArrayField(j, BlackBoxes).value);
    }
  }

  /** A document is refused for its version exactly when that is an integer other than 3 and 4. */
  lemma RefusedIffOtherVersion(literal: Literals, j: Json, v: int)
    ensures Load(literal, j) == Err(UnsupportedVersion(v)) <==> HasVersion(j, v) && v != 3 && v != 4
  {
    var version := LoadVersion(j);
    if version.Ok? {
      var names, nodeItems, edgeItems := ArrayField(j, FileTable), ArrayField(j, Nodes), ArrayField(j, Edges);
      BlackBoxesAcceptVersion(j);
      if names.Ok? {
        TextsAcceptVersion(names.value);
      }
      if nodeItems.Ok? {
        NodesAcceptVersion(literal, nodeItems.value);
        var nodes := NodesFromJson(literal, nodeItems.value);
        if nodes.Ok? && edgeItems.Ok? {
          EdgesAcceptVersion(version.value, IdMap(nodes.value), |nodes.value|, edgeItems.value);
        }
      }
    }
  }

  /** Reads a document, or says why it cannot be read; the version is the reason exactly when it is neither 3 nor 4. */
  method Deserialize(literal: Literals, root: Json) returns (r: Result<Artifact>)
    ensures r == Load(literal, root)
    ensures forall v {:trigger HasVersion(root, v)} :: r == Err(UnsupportedVersion(v)) <==> HasVersion(root, v) && v != 3 && v != 4
  {
    forall v ensures Load(literal, root) == Err(UnsupportedVersion(v)) <==> HasVersion(root, v) && v != 3 && v != 4 {
      RefusedIffOtherVersion(literal, root, v);
    }
    var version :- LoadVersion(root);
    var id :- LoadId(version, root);
    var names :- ArrayField(root, FileTable);
    var files :- TextsFromJson(names);
    var blackBoxes :- LoadBlackBoxes(root);
    var nodeItems :- ArrayField(root, Nodes);
    var nodes :- NodesFromJson(literal, nodeItems);
    var edgeItems :- ArrayField(root, Edges);
    var st := DeserializeEdges(version, nodes, edgeItems);
    if st.Err? {
      return Err(st.error);
    }
    r := Ok(Artifact(id, AddFiles(files), blackBoxes, nodes, st.value.outEdges));
  }

  /** Adds the edges one by one, through the map from IDs to nodes; stops at the first that cannot be added. */
  method DeserializeEdges(version: int, nodes: seq<NetlistNode>, items: seq<Json>) returns (r: Result<Loading>)
    ensures r == LoadEdges(version, IdMap(nodes), |nodes|, items)
  {
    var ids := IdMap(nodes);
    var st := Loading(seq(|nodes|, _ => []), map[]);
    for i := 0 to |items|
      invariant LoadEdges(version, ids, |nodes|, items[..i]) == Ok(st)
    {
      assert items[..i + 1][..i] == items[..i];
      var next := LoadEdge(version, ids, st, items[i]);
      if next.Err? {
        FailureStays(version, ids, |nodes|, items, i + 1);
        return next;
      }
      st := next.value;
    }
    assert items[..|items|] == items;
    r := Ok(st);
  }

  lemma {:induction false} FailureStays(version: int, ids: map<nat, Node>, n: nat, items: seq<Json>, i: nat)
    requires forall i :: i in ids ==> ids[i] < n
    requires i <= |items| && LoadEdges(version, ids, n, items[..i]).Err?
    ensures LoadEdges(version, ids, n, items) == LoadEdges(version, ids, n, items[..i])
    decreases |items| - i
  {
    if i == |items| {
      assert items[..i] == items;
    } else {
      assert items[..i + 1][..i] == items[..i];
      FailureStays(version, ids, n, items, i + 1);
    }
  }
}
