/**
  A JSON document as a value, with the fields the netlist format uses, and reading
  from it, which fails when a field is missing or of another type.
  */
module Json {
  datatype Key =
    | Version | ArtifactId | FileTable | BlackBoxes | Nodes | Edges
    | Id | KindOf | Path | Name | Bounds | DirectionOf | Location | Width | Value
    | Source | Target | EdgeKindOf | RoleOf | PrecisionOf | Symbol | Disabled
    | FileIndex | Line | Column

  datatype Json =
    | Null
    | Bool(b: bool)
    | Number(n: int)
    | Text(s: string)
    | Array(items: seq<Json>)
    | Object(fields: map<Key, Json>)

  datatype Error = Malformed | UnsupportedVersion(version: int) | UnknownNode(id: nat)

  datatype Result<T> = Ok(value: T) | Err(error: Error) {
    predicate IsFailure() {
      Err?
    }

    function PropagateFailure<U>(): Result<U>
      requires Err?
    {
      Err(error)
    }

    function Extract(): T
      requires Ok?
    {
      value
    }
  }

  function Field(j: Json, k: Key): Result<Json> {
    if j.Object? && k in j.fields then Ok(j.fields[k]) else Err(Malformed)
  }

  function AsNat(j: Json): Result<nat> {
    if j.Number? && j.n >= 0 then Ok(j.n) else Err(Malformed)
  }

  function AsInt(j: Json): Result<int> {
    if j.Number? then Ok(j.n) else Err(Malformed)
  }

  function AsText(j: Json): Result<string> {
    if j.Text? then Ok(j.s) else Err(Malformed)
  }

  function AsBool(j: Json): Result<bool> {
    if j.Bool? then Ok(j.b) else Err(Malformed)
  }

  function AsArray(j: Json): Result<seq<Json>> {
    if j.Array? then Ok(j.items) else Err(Malformed)
  }

  function NatField(j: Json, k: Key): Result<nat> {
    var v :- Field(j, k);
    AsNat(v)
  }

  function TextField(j: Json, k: Key): Result<string> {
    var v :- Field(j, k);
    AsText(v)
  }

  function ArrayField(j: Json, k: Key): Result<seq<Json>> {
    var v :- Field(j, k);
    AsArray(v)
  }

  /** A text field that may be missing. */
  function TextOr(j: Json, k: Key, fallback: string): Result<string> {
    if j.Object? && k !in j.fields then Ok(fallback) else TextField(j, k)
  }
}
