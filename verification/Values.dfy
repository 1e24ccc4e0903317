// Values shared by the components: text, JSON, documents and write-ahead-log records.
module Values {
  import opened Bytes

  datatype Option<+T> = None | Some(value: T)

  datatype Result<+T, +E> = Ok(value: T) | Err(error: E) {
    predicate IsFailure() {
      Err?
    }

    function PropagateFailure<U>(): Result<U, E>
      requires Err?
    {
      Err(error)
    }

    function Extract(): T
      requires Ok?
    {
      value
    }
  }

  /** A string is its UTF-8 bytes; length, slicing and order are those of the bytes. */
  type Text = seq<u8>

  /** JSON numbers: serde_json keeps unsigned, negative and floating values apart.  A float is
      represented by its place in the total order of 64-bit floats. */
  datatype Number =
    | Unsigned(u: u64)
    | Negative(i: i64)
    | Float(place: int)

  /** The integer that a number is written as. */
  function Whole(n: Number): Option<int> {
    match n
    case Unsigned(u) => Some(u)
    case Negative(i) => Some(i)
    case Float(_) => None
  }

  /** The number is written as an integer of so many bits, with a sign. */
  predicate IsSigned32(n: Number) {
    Whole(n).Some? && -0x8000_0000 <= Whole(n).value < 0x8000_0000
  }

  predicate IsSigned64(n: Number) {
    Whole(n).Some? && -0x8000_0000_0000_0000 <= Whole(n).value < 0x8000_0000_0000_0000
  }

  datatype Json =
    | Null
    | Boolean(b: bool)
    | Num(n: Number)
    | Str(s: Text)
    | Array(items: seq<Json>)
    | Object(fields: seq<(Text, Json)>)

  function Get(fields: seq<(Text, Json)>, name: Text): Option<Json> {
    if fields == [] then None
    else if fields[0].0 == name then Some(fields[0].1)
    else Get(fields[1..], name)
  }

  /** The value of a top-level field; a source that is not an object has none. */
  function Field(source: Json, name: Text): Option<Json> {
    if source.Object? then Get(source.fields, name) else None
  }

  /** An object's fields have distinct names. */
  ghost predicate DistinctNames<T>(fields: seq<(Text, T)>) {
    forall i, j :: 0 <= i < j < |fields| ==> fields[i].0 != fields[j].0
  }

  lemma {:induction false} GetFinds(fields: seq<(Text, Json)>, name: Text)
    ensures Get(fields, name).Some? ==> exists i :: 0 <= i < |fields| && fields[i] == (name, Get(fields, name).value)
    ensures Get(fields, name).None? ==> forall i :: 0 <= i < |fields| ==> fields[i].0 != name
  {
    if fields != [] && fields[0].0 != name {
      GetFinds(fields[1..], name);
      if Get(fields, name).Some? {
        var i :| 0 <= i < |fields[1..]| && fields[1..][i] == (name, Get(fields, name).value);
        assert fields[i + 1] == (name, Get(fields, name).value);
      } else {
        forall i | 0 <= i < |fields| ensures fields[i].0 != name {
          if i > 0 {
            assert fields[i] == fields[1..][i - 1];
          }
        }
      }
    } else if fields != [] {
      assert fields[0] == (name, Get(fields, name).value);
    }
  }

  /** The value of a field is the one that stands under its name, wherever that is. */
  lemma FieldExactlyWhen(source: Json, name: Text, value: Json)
    requires source.Object? ==> DistinctNames(source.fields)
    ensures Field(source, name) == Some(value)
       <==> source.Object? && exists i :: 0 <= i < |source.fields| && source.fields[i] == (name, value)
  {
    if source.Object? {
      GetFinds(source.fields, name);
    }
  }

  /** What the write-ahead log records. */
  datatype Record =
    | IndexDocument(id: Text, source: Json)
    | DeleteDocument(id: Text)
    | MappingUpdate(version: u64, reason: Text)

  datatype Entry = Entry(sequenceNumber: nat, recordedAt: i64, record: Record)
}
