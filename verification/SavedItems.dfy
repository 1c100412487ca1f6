/**
  Nodes and edges in the saved netlist format (source/NetlistSerializer.cpp): how each
  is written, and that reading it back gives it again with its range in ascending
  order and a constant's value as far as its text can be read as an integer.
  */
module SavedItems {
  import opened BitRanges
  import opened Json
  import opened Netlist
  import opened Wrappers

  function KindToString(k: NodeKind): (s: string)
    ensures KindFromString(s) == k
  {
    match k
    case NoKind => "None"
    case Port => "Port"
    case Variable => "Variable"
    case Assignment => "Assignment"
    case Conditional => "Conditional"
    case Case => "Case"
    case Merge => "Merge"
    case State => "State"
    case Constant => "Constant"
  }

  function KindFromString(s: string): NodeKind {
    if s == "Port" then Port
    else if s == "Variable" then Variable
    else if s == "Assignment" then Assignment
    else if s == "Conditional" then Conditional
    else if s == "Case" then Case
    else if s == "Merge" then Merge
    else if s == "State" then State
    else if s == "Constant" then Constant
    else NoKind
  }

  function EdgeKindToString(k: EdgeKind): (s: string)
    ensures EdgeKindFromString(s) == k
  {
    match k
    case NoEdge => "None"
    case PosEdge => "PosEdge"
    case NegEdge => "NegEdge"
    case BothEdges => "BothEdges"
  }

  function EdgeKindFromString(s: string): EdgeKind {
    if s == "PosEdge" then PosEdge else if s == "NegEdge" then NegEdge else if s == "BothEdges" then BothEdges else NoEdge
  }

  function RoleToString(r: Role): (s: string)
    ensures RoleFromString(s) == r
  {
    match r
    case Data => "data"
    case Control => "control"
    case Index => "index"
    case Address => "address"
    case Event => "event"
    case Clock => "clock"
    case Reset => "reset"
    case PortConnection => "port_connection"
    case UnknownRole => "unknown"
  }

  function RoleFromString(s: string): Role {
    if s == "data" then Data
    else if s == "control" then Control
    else if s == "index" then Index
    else if s == "address" then Address
    else if s == "event" then Event
    else if s == "clock" then Clock
    else if s == "reset" then Reset
    else if s == "port_connection" then PortConnection
    else UnknownRole
  }

  function PrecisionToString(p: Precision): (s: string)
    ensures PrecisionFromString(s) == p
  {
    match p
    case Exact => "exact"
    case Range => "range"
    case Signal => "signal"
    case UnknownPrecision => "unknown"
  }

  function PrecisionFromString(s: string): Precision {
    if s == "exact" then Exact else if s == "range" then Range else if s == "signal" then Signal else UnknownPrecision
  }

  function DirectionToString(d: Direction): (s: string)
    ensures DirectionFromString(s) == d
  {
    match d
    case In => "In"
    case Out => "Out"
    case InOut => "InOut"
    case Ref => "Ref"
  }

  function DirectionFromString(s: string): Direction {
    if s == "Out" then Out else if s == "InOut" then InOut else if s == "Ref" then Ref else In
  }

  function LocationToJson(l: TextLocation): Json {
    Object(map[FileIndex := Number(l.fileIndex), Line := Number(l.line), Column := Number(l.column)])
  }

  function LocationFromJson(j: Json): Result<TextLocation> {
    var f :- NatField(j, FileIndex);
    var l :- NatField(j, Line);
    var c :- NatField(j, Column);
    Ok(TextLocation(f, l, c))
  }

  function BoundsToJson(r: BitRange): Json {
    Array([Number(r.Lower()), Number(r.Upper())])
  }

  function BoundsFromJson(j: Json): Result<BitRange> {
    var a :- AsArray(j);
    if |a| < 2 then Err(Malformed)
    else
      var lo :- AsInt(a[0]);
      var hi :- AsInt(a[1]);
      Ok(BitRange(lo, hi))
  }

  /** The text of a value that could not be read. */
  const UNSET := "<unset>"

  /** What text the integer prints as that a text is read as, if it is one; for the language front end to say. */
  type Literals = string -> Option<string>

  /** The text of a constant once it has been written and read again. */
  function Reread(literal: Literals, text: string): string {
    if text != "" && literal(text).Some? then literal(text).value else UNSET
  }

  /** Read once more, the text of a constant stays: an integer prints as a text that reads as itself. */
  ghost predicate TextStays(literal: Literals, text: string) {
    Reread(literal, Reread(literal, text)) == Reread(literal, text)
  }

  /** A node as it is after a save and a load. */
  function Settled(literal: Literals, p: Payload): Payload {
    match p
    case PortData(n, path, loc, d, r) => PortData(n, path, loc, d, r.Normalized())
    case VariableData(n, path, loc, r) => VariableData(n, path, loc, r.Normalized())
    case StateData(n, path, loc, r) => StateData(n, path, loc, r.Normalized())
    case ConstantData(text, w, loc) => ConstantData(Reread(literal, text), w, loc)
    case _ => p
  }

  function SymbolFields(kind: string, id: nat, name: string, path: string, location: TextLocation, bounds: BitRange): map<Key, Json> {
    map[Id := Number(id), KindOf := Text(kind), Path := Text(path), Name := Text(name),
        Bounds := BoundsToJson(bounds), Location := LocationToJson(location)]
  }

  function NodeToJson(n: NetlistNode): Json {
    var kind := KindToString(n.payload.Kind());
    var plain := map[Id := Number(n.id), KindOf := Text(kind)];
    match n.payload
    case PortData(name, path, loc, d, r) => Object(SymbolFields(kind, n.id, name, path, loc, r)[DirectionOf := Text(DirectionToString(d))])
    case VariableData(name, path, loc, r) => Object(SymbolFields(kind, n.id, name, path, loc, r))
    case StateData(name, path, loc, r) => Object(SymbolFields(kind, n.id, name, path, loc, r))
    case AssignmentData(loc) => Object(plain[Location := LocationToJson(loc)])
    case ConditionalData(loc) => Object(plain[Location := LocationToJson(loc)])
    case CaseData(loc) => Object(plain[Location := LocationToJson(loc)])
    case ConstantData(text, w, loc) => Object(plain[Location := LocationToJson(loc)][Width := Number(w)][Value := Text(text)])
    case MergeData => Object(plain)
    case NoPayload => Object(plain)
  }

  /** The name, path, location and range that three kinds of node share. */
  function SymbolFromJson(j: Json): Result<(string, string, TextLocation, BitRange)> {
    var b :- Field(j, Bounds);
    var name :- TextField(j, Name);
    var path :- TextField(j, Path);
    var l :- Field(j, Location);
    var loc :- LocationFromJson(l);
    var bounds :- BoundsFromJson(b);
    Ok((name, path, loc, bounds))
  }

  function PayloadFromJson(literal: Literals, kind: NodeKind, j: Json): Result<Payload> {
    match kind
    case Port =>
      var s :- SymbolFromJson(j);
      var d :- TextField(j, DirectionOf);
      Ok(PortData(s.0, s.1, s.2, DirectionFromString(d), s.3))
    case Variable =>
      var s :- SymbolFromJson(j);
      Ok(VariableData(s.0, s.1, s.2, s.3))
    case State =>
      var s :- SymbolFromJson(j);
      Ok(StateData(s.0, s.1, s.2, s.3))
    case Assignment =>
      var l :- Field(j, Location);
      var loc :- LocationFromJson(l);
      Ok(AssignmentData(loc))
    case Conditional =>
      var l :- Field(j, Location);
      var loc :- LocationFromJson(l);
      Ok(ConditionalData(loc))
    case Case =>
      var l :- Field(j, Location);
      var loc :- LocationFromJson(l);
      Ok(CaseData(loc))
    case Constant =>
      var w :- NatField(j, Width);
      var text :- TextField(j, Value);
      var l :- Field(j, Location);
      var loc :- LocationFromJson(l);
      Ok(ConstantData(Reread(literal, text), w, loc))
    case Merge => Ok(MergeData)
    case NoKind => Ok(NoPayload)
  }

  function NodeFromJson(literal: Literals, j: Json): Result<NetlistNode> {
    var id :- NatField(j, Id);
    var kind :- TextField(j, KindOf);
    var payload :- PayloadFromJson(literal, KindFromString(kind), j);
    Ok(NetlistNode(id, payload))
  }

  lemma LocationIsReadBack(l: TextLocation)
    ensures LocationFromJson(LocationToJson(l)) == Ok(l)
  {
  }

  lemma SymbolIsReadBack(j: Json, name: string, path: string, loc: TextLocation, bounds: BitRange)
    requires j.Object? && Name in j.fields && j.fields[Name] == Text(name) && Path in j.fields && j.fields[Path] == Text(path)
    requires Location in j.fields && j.fields[Location] == LocationToJson(loc)
    requires Bounds in j.fields && j.fields[Bounds] == BoundsToJson(bounds)
    ensures SymbolFromJson(j) == Ok((name, path, loc, bounds.Normalized()))
  {
    LocationIsReadBack(loc);
  }

  lemma PayloadIsReadBack(literal: Literals, n: NetlistNode)
    ensures PayloadFromJson(literal, n.payload.Kind(), NodeToJson(n)) == Ok(Settled(literal, n.payload))
  {
    var j := NodeToJson(n);
    match n.payload
    case PortData(name, path, loc, _, r) => SymbolIsReadBack(j, name, path, loc, r);
    case VariableData(name, path, loc, r) => SymbolIsReadBack(j, name, path, loc, r);
    case StateData(name, path, loc, r) => SymbolIsReadBack(j, name, path, loc, r);
    case AssignmentData(loc) => LocationIsReadBack(loc);
    case ConditionalData(loc) => LocationIsReadBack(loc);
    case CaseData(loc) => LocationIsReadBack(loc);
    case ConstantData(_, _, loc) => LocationIsReadBack(loc);
    case MergeData =>
    case NoPayload =>
  }

  lemma IdAndKindAreWritten(n: NetlistNode)
    ensures NatField(NodeToJson(n), Id) == Ok(n.id)
    ensures TextField(NodeToJson(n), KindOf) == Ok(KindToString(n.payload.Kind()))
  {
  }

  /** A node is read back with its range ascending and its constant re-read. */
  lemma NodeIsReadBack(literal: Literals, n: NetlistNode)
    ensures NodeFromJson(literal, NodeToJson(n)) == Ok(NetlistNode(n.id, Settled(literal, n.payload)))
  {
    IdAndKindAreWritten(n);
    PayloadIsReadBack(literal, n);
  }

  /** An edge as it is written: its ends by ID. */
  datatype EdgeRecord = EdgeRecord(source: nat, target: nat, note: EdgeLabel)

  function SymbolToJson(s: SymbolReference): Json {
    Object(map[Name := Text(s.name), Path := Text(s.path), Location := LocationToJson(s.location)])
  }

  function EdgeToJson(e: EdgeRecord): Json {
    Object(map[
      Source := Number(e.source), Target := Number(e.target),
      EdgeKindOf := Text(EdgeKindToString(e.note.edgeKind)),
      RoleOf := Text(RoleToString(e.note.role)),
      PrecisionOf := Text(PrecisionToString(e.note.precision)),
      Symbol := match e.note.symbol case Some(s) => SymbolToJson(s) case None => Object(map[]),
      Bounds := BoundsToJson(e.note.bounds),
      Disabled := Bool(e.note.disabled)])
  }

  /** A symbol, or none when the object has no name. */
  function SymbolReferenceFromJson(j: Json): Result<Option<SymbolReference>> {
    if j.Object? && Name in j.fields then
      var name :- TextField(j, Name);
      var path :- TextField(j, Path);
      var l :- Field(j, Location);
      var loc :- LocationFromJson(l);
      Ok(Some(SymbolReference(name, path, loc)))
    else Ok(None)
  }

  /** Version 3 has no semantics on edges: they are unknown. */
  function SemanticsFromJson(version: int, j: Json): Result<(Role, Precision)> {
    if version >= 4 then
      var r :- TextOr(j, RoleOf, "unknown");
      var p :- TextOr(j, PrecisionOf, "unknown");
      Ok((RoleFromString(r), PrecisionFromString(p)))
    else Ok((UnknownRole, UnknownPrecision))
  }

  function EdgeFromJson(version: int, j: Json): Result<EdgeRecord> {
    var s :- NatField(j, Source);
    var t :- NatField(j, Target);
    var k :- TextField(j, EdgeKindOf);
    var semantics :- SemanticsFromJson(version, j);
    var sym :- Field(j, Symbol);
    var symbol :- SymbolReferenceFromJson(sym);
    var b :- Field(j, Bounds);
    var bounds :- BoundsFromJson(b);
    var d :- Field(j, Disabled);
    var disabled :- AsBool(d);
    Ok(EdgeRecord(s, t, EdgeLabel(EdgeKindFromString(k), semantics.0, semantics.1, symbol, bounds, disabled)))
  }

  function SettledNote(version: int, l: EdgeLabel): EdgeLabel {
    var ascending := l.(bounds := l.bounds.Normalized());
    if version >= 4 then ascending else ascending.(role := UnknownRole, precision := UnknownPrecision)
  }

  lemma ReferenceIsReadBack(s: Option<SymbolReference>)
    ensures SymbolReferenceFromJson(match s case Some(r) => SymbolToJson(r) case None => Object(map[])) == Ok(s)
  {
    if s.Some? {
      LocationIsReadBack(s.value.location);
    }
  }

  lemma SemanticsAreReadBack(version: int, e: EdgeRecord)
    ensures SemanticsFromJson(version, EdgeToJson(e))
            == Ok(if version >= 4 then (e.note.role, e.note.precision) else (UnknownRole, UnknownPrecision))
  {
    assert TextField(EdgeToJson(e), RoleOf) == Ok(RoleToString(e.note.role));
    assert TextField(EdgeToJson(e), PrecisionOf) == Ok(PrecisionToString(e.note.precision));
  }

  /** An edge is read back with its range ascending, and without semantics in version 3. */
  lemma EdgeIsReadBack(version: int, e: EdgeRecord)
    ensures EdgeFromJson(version, EdgeToJson(e)) == Ok(EdgeRecord(e.source, e.target, SettledNote(version, e.note)))
  {
    ReferenceIsReadBack(e.note.symbol);
    SemanticsAreReadBack(version, e);
    assert TextField(EdgeToJson(e), EdgeKindOf) == Ok(EdgeKindToString(e.note.edgeKind));
    assert BoundsFromJson(BoundsToJson(e.note.bounds)) == Ok(e.note.bounds.Normalized());
  }
}
