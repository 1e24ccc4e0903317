// Field types: inference from values, and the check every document passes before it is written.
module Mappings {
  import opened Bytes
  import opened Values

  const MAX_FIELDS_PER_INDEX: nat := 1000

  datatype FieldType = Keyword | BooleanType | Integer | Long | Double | Timestamp | ObjectType

  datatype MappingMode = Strict | ControlledDynamic

  type FieldMappings = map<Text, FieldType>

  datatype MappingError =
    | SourceNotAnObject
    | MappingConflict(field: Text)
    | UnknownFieldRejected(field: Text)
    | UnsupportedArrayField(field: Text)
    | MappingLimitExceeded

  /** RFC 3339 parsing is done by a library: the instant of a text, if it is one. */
  type Clock = Text -> Option<int>

  function InferFieldType(clock: Clock, field: Text, value: Json): Result<Option<FieldType>, MappingError> {
    match value
    case Null => Ok(None)
    case Boolean(_) => Ok(Some(BooleanType))
    case Num(n) => Ok(Some(NumberType(n)))
    case Str(raw) => Ok(Some(if clock(raw).Some? then Timestamp else Keyword))
    case Array(_) => Err(UnsupportedArrayField(field))
    case Object(_) => Ok(Some(ObjectType))
  }

  function NumberType(n: Number): FieldType {
    match n
    case Unsigned(u) =>
      if u < 0x8000_0000 then Integer else if u < 0x8000_0000_0000_0000 then Long else Double
    case Negative(i) => if -0x8000_0000 <= i then (if i < 0x8000_0000 then Integer else Long) else Long
    case Float(_) => Double
  }

  /** Which values have which type: integers by their width, floats and wider integers as doubles, texts by
      whether they read as timestamps; null has none, and arrays are refused. */
  lemma TypesExactlyWhen(clock: Clock, field: Text, value: Json)
    ensures var r := InferFieldType(clock, field, value);
            && (r.Err? <==> value.Array?) && (r.Err? ==> r.error == UnsupportedArrayField(field))
            && (r == Ok(None) <==> value.Null?)
            && (r == Ok(Some(BooleanType)) <==> value.Boolean?)
            && (r == Ok(Some(ObjectType)) <==> value.Object?)
            && (r == Ok(Some(Timestamp)) <==> value.Str? && clock(value.s).Some?)
            && (r == Ok(Some(Keyword)) <==> value.Str? && clock(value.s).None?)
            && (r == Ok(Some(Integer)) <==> value.Num? && IsSigned32(value.n))
            && (r == Ok(Some(Long)) <==> value.Num? && IsSigned64(value.n) && !IsSigned32(value.n))
            && (r == Ok(Some(Double)) <==> value.Num? && !IsSigned64(value.n))
  {
  }

  // ----- the loop over a document's fields -----

  /** What one field adds to the mappings: nothing, itself, or an error. */
  function CheckField(clock: Clock, mode: MappingMode, mappings: FieldMappings, field: (Text, Json))
    : Result<seq<(Text, FieldType)>, MappingError>
  {
    var inferred :- InferFieldType(clock, field.0, field.1);
    match inferred
    case None => Ok([])
    case Some(t) =>
      if field.0 in mappings then
        if mappings[field.0] != t then Err(MappingConflict(field.0)) else Ok([])
      else
        match mode
        case Strict => Err(UnknownFieldRejected(field.0))
        case ControlledDynamic => Ok([(field.0, t)])
  }

  /** The additions of the first fields; the first error ends the loop. */
  function CheckFields(clock: Clock, mode: MappingMode, mappings: FieldMappings, fields: seq<(Text, Json)>)
    : Result<seq<(Text, FieldType)>, MappingError>
  {
    if fields == [] then Ok([])
    else
      var front :- CheckFields(clock, mode, mappings, fields[..|fields| - 1]);
      var added :- CheckField(clock, mode, mappings, fields[|fields| - 1]);
      Ok(front + added)
  }

  function InsertAll(mappings: FieldMappings, added: seq<(Text, FieldType)>): FieldMappings {
    if added == [] then mappings
    else InsertAll(mappings, added[..|added| - 1])[added[|added| - 1].0 := added[|added| - 1].1]
  }

  function Validate(clock: Clock, mode: MappingMode, mappings: FieldMappings, source: Json)
    : Result<FieldMappings, MappingError>
  {
    if !source.Object? then Err(SourceNotAnObject)
    else
      var added :- CheckFields(clock, mode, mappings, source.fields);
      if |mappings| + |added| > MAX_FIELDS_PER_INDEX then Err(MappingLimitExceeded)
      else Ok(InsertAll(mappings, added))
  }

  method ValidateAndUpdate(clock: Clock, mode: MappingMode, mappings: FieldMappings, source: Json)
    returns (r: Result<FieldMappings, MappingError>)
    ensures r == Validate(clock, mode, mappings, source)
  {
    if !source.Object? {
      return Err(SourceNotAnObject);
    }
    var added := CollectNewMappings(clock, mode, mappings, source.fields);
    if added.Err? {
      return Err(added.error);
    }
    if |mappings| + |added.value| > MAX_FIELDS_PER_INDEX {
      return Err(MappingLimitExceeded);
    }
    var updated := InsertNewMappings(mappings, added.value);
    r := Ok(updated);
  }

  method InsertNewMappings(mappings: FieldMappings, added: seq<(Text, FieldType)>) returns (updated: FieldMappings)
    ensures updated == InsertAll(mappings, added)
  {
    updated := mappings;
    var k := 0;
    while k < |added|
      invariant k <= |added|
      invariant updated == InsertAll(mappings, added[..k])
    {
      assert added[..k + 1][..k] == added[..k];
      updated := updated[added[k].0 := added[k].1];
      k := k + 1;
    }
    assert added[..k] == added;
  }

  method CollectNewMappings(clock: Clock, mode: MappingMode, mappings: FieldMappings, fields: seq<(Text, Json)>)
    returns (r: Result<seq<(Text, FieldType)>, MappingError>)
    ensures r == CheckFields(clock, mode, mappings, fields)
  {
    var added := [];
    var i := 0;
    while i < |fields|
      invariant i <= |fields|
      invariant CheckFields(clock, mode, mappings, fields[..i]) == Ok(added)
    {
      var field := fields[i];
      assert fields[..i + 1][..i] == fields[..i] && added + [] == added;
      if CheckField(clock, mode, mappings, field).Err? {
        FirstErrorDecides(clock, mode, mappings, fields, i);
      }
      var inferred := InferFieldType(clock, field.0, field.1);
      if inferred.Err? {
        return Err(inferred.error);
      }
      if inferred.value.Some? {
        if field.0 in mappings {
          if mappings[field.0] != inferred.value.value {
            return Err(MappingConflict(field.0));
          }
        } else if mode.Strict? {
          return Err(UnknownFieldRejected(field.0));
        } else {
          added := added + [(field.0, inferred.value.value)];
        }
      }
      i := i + 1;
    }
    assert fields[..i] == fields;
    r := Ok(added);
  }

  lemma {:induction false} FirstErrorDecides(clock: Clock, mode: MappingMode, mappings: FieldMappings,
                                             fields: seq<(Text, Json)>, i: nat)
    requires i < |fields| && CheckFields(clock, mode, mappings, fields[..i]).Ok?
    requires CheckField(clock, mode, mappings, fields[i]).Err?
    ensures CheckFields(clock, mode, mappings, fields).Err?
    ensures CheckFields(clock, mode, mappings, fields).error == CheckField(clock, mode, mappings, fields[i]).error
  {
    var front := fields[..|fields| - 1];
    if i < |front| {
      assert front[..i] == fields[..i];
      FirstErrorDecides(clock, mode, mappings, front, i);
    } else {
      assert front == fields[..i];
    }
  }

  // ----- what acceptance means -----

  /** Every field with a type has that type in the mappings. */
  ghost predicate Conforms(clock: Clock, mappings: FieldMappings, source: Json) {
    && source.Object?
    && forall i :: 0 <= i < |source.fields| ==> FieldConforms(clock, mappings, source.fields[i])
  }

  ghost predicate FieldConforms(clock: Clock, mappings: FieldMappings, field: (Text, Json)) {
    var inferred := InferFieldType(clock, field.0, field.1);
    && inferred.Ok?
    && (inferred.value.Some? ==> field.0 in mappings && mappings[field.0] == inferred.value.value)
  }

  /** No field changes its type or goes away. */
  ghost predicate Extends(before: FieldMappings, after: FieldMappings) {
    forall f :: f in before ==> f in after && after[f] == before[f]
  }

  /** Whether a field of this name is among them. */
  ghost predicate Named<T>(fields: seq<(Text, T)>, name: Text) {
    exists k :: 0 <= k < |fields| && fields[k].0 == name
  }

  lemma NamedByStep<T>(fields: seq<(Text, T)>, name: Text)
    requires fields != []
    ensures Named(fields, name) <==> Named(fields[..|fields| - 1], name) || fields[|fields| - 1].0 == name
  {
    if Named(fields, name) {
      var k :| 0 <= k < |fields| && fields[k].0 == name;
      assert k < |fields| - 1 ==> fields[..|fields| - 1][k].0 == name;
    }
    if Named(fields[..|fields| - 1], name) {
      var k :| 0 <= k < |fields| - 1 && fields[..|fields| - 1][k].0 == name;
      assert fields[k].0 == name;
    }
  }

  lemma {:induction false} InsertedNames(mappings: FieldMappings, added: seq<(Text, FieldType)>, f: Text)
    ensures f in InsertAll(mappings, added) <==> f in mappings || Named(added, f)
    ensures f in mappings && !Named(added, f) ==> InsertAll(mappings, added)[f] == mappings[f]
  {
    if added != [] {
      InsertedNames(mappings, added[..|added| - 1], f);
      NamedByStep(added, f);
    }
  }

  lemma {:induction false} InsertedTypes(mappings: FieldMappings, added: seq<(Text, FieldType)>, k: nat)
    requires DistinctNames(added) && k < |added|
    ensures added[k].0 in InsertAll(mappings, added) && InsertAll(mappings, added)[added[k].0] == added[k].1
  {
    var front := added[..|added| - 1];
    if k < |front| {
      InsertedTypes(mappings, front, k);
      assert added[k].0 != added[|added| - 1].0;
    }
  }

  /** Each addition is a field that was not mapped; a strict index has none. */
  lemma {:induction false} AdditionsAreNew(clock: Clock, mode: MappingMode, mappings: FieldMappings,
                                           fields: seq<(Text, Json)>, added: seq<(Text, FieldType)>)
    requires CheckFields(clock, mode, mappings, fields) == Ok(added)
    ensures mode.Strict? ==> added == []
    ensures forall k :: 0 <= k < |added| ==> added[k].0 !in mappings
  {
    if fields != [] {
      var front := fields[..|fields| - 1];
      AdditionsAreNew(clock, mode, mappings, front, CheckFields(clock, mode, mappings, front).value);
    }
  }

  /** Each addition is a field of the document. */
  lemma {:induction false} AdditionsAreFields(clock: Clock, mode: MappingMode, mappings: FieldMappings,
                                              fields: seq<(Text, Json)>, added: seq<(Text, FieldType)>, k: nat)
    requires CheckFields(clock, mode, mappings, fields) == Ok(added) && k < |added|
    ensures Named(fields, added[k].0)
  {
    if fields != [] {
      var front := fields[..|fields| - 1];
      var before := CheckFields(clock, mode, mappings, front).value;
      NamedByStep(fields, added[k].0);
      if k < |before| {
        AdditionsAreFields(clock, mode, mappings, front, before, k);
      }
    }
  }

  /** With distinct names no field is added twice. */
  lemma {:induction false} AdditionsAreDistinct(clock: Clock, mode: MappingMode, mappings: FieldMappings,
                                                fields: seq<(Text, Json)>, added: seq<(Text, FieldType)>)
    requires DistinctNames(fields) && CheckFields(clock, mode, mappings, fields) == Ok(added)
    ensures DistinctNames(added)
  {
    if fields != [] {
      var front, last := fields[..|fields| - 1], fields[|fields| - 1];
      var before := CheckFields(clock, mode, mappings, front).value;
      AdditionsAreDistinct(clock, mode, mappings, front, before);
      forall i, j | 0 <= i < j < |added| ensures added[i].0 != added[j].0 {
        if j == |before| {
          AdditionsAreFields(clock, mode, mappings, front, before, i);
          var m :| 0 <= m < |front| && front[m].0 == before[i].0;
          assert fields[m].0 != last.0;
        }
      }
    }
  }

  /** Every field with a type was mapped to it or is among the additions. */
  lemma {:induction false} FieldsAreCovered(clock: Clock, mode: MappingMode, mappings: FieldMappings,
                                            fields: seq<(Text, Json)>, added: seq<(Text, FieldType)>, i: nat)
    requires CheckFields(clock, mode, mappings, fields) == Ok(added) && i < |fields|
    ensures Covered(clock, mappings, added, fields[i])
  {
    var front, last := fields[..|fields| - 1], fields[|fields| - 1];
    var before, more := CheckFields(clock, mode, mappings, front).value, CheckField(clock, mode, mappings, last).value;
    assert added == before + more;
    if i < |front| {
      FieldsAreCovered(clock, mode, mappings, front, before, i);
      CoveredByMore(clock, mappings, before, more, fields[i]);
    } else if more != [] {
      assert added[|before|] == more[0];
    }
  }

  ghost predicate Covered(clock: Clock, mappings: FieldMappings, added: seq<(Text, FieldType)>, field: (Text, Json)) {
    var inferred := InferFieldType(clock, field.0, field.1);
    && inferred.Ok?
    && (inferred.value.Some? ==>
          || (field.0 in mappings && mappings[field.0] == inferred.value.value)
          || (field.0, inferred.value.value) in added)
  }

  lemma CoveredByMore(clock: Clock, mappings: FieldMappings, added: seq<(Text, FieldType)>,
                      more: seq<(Text, FieldType)>,
                      field: (Text, Json))
    requires Covered(clock, mappings, added, field)
    ensures Covered(clock, mappings, added + more, field)
  {
  }

  lemma CoveredConforms(clock: Clock, mode: MappingMode, mappings: FieldMappings, fields: seq<(Text, Json)>,
                        added: seq<(Text, FieldType)>, i: nat)
    requires CheckFields(clock, mode, mappings, fields) == Ok(added) && i < |fields| && DistinctNames(added)
    requires forall k :: 0 <= k < |added| ==> added[k].0 !in mappings
    ensures FieldConforms(clock, InsertAll(mappings, added), fields[i])
  {
    FieldsAreCovered(clock, mode, mappings, fields, added, i);
    var name, inferred := fields[i].0, InferFieldType(clock, fields[i].0, fields[i].1).value;
    if inferred.Some? {
      InsertedNames(mappings, added, name);
      if (name, inferred.value) in added {
        var k :| 0 <= k < |added| && added[k] == (name, inferred.value);
        InsertedTypes(mappings, added, k);
      }
    }
  }

  /** Acceptance extends the mappings by fields of the document only, adds none in strict mode, and
      leaves the document conforming. */
  lemma AcceptedConforms(clock: Clock, mode: MappingMode, mappings: FieldMappings, source: Json)
    requires source.Object? ==> DistinctNames(source.fields)
    requires Validate(clock, mode, mappings, source).Ok?
    ensures var after := Validate(clock, mode, mappings, source).value;
            && Extends(mappings, after)
            && (mode.Strict? ==> after == mappings)
            && (forall f :: f in after ==> f in mappings || Named(source.fields, f))
            && Conforms(clock, after, source)
  {
    var added := CheckFields(clock, mode, mappings, source.fields).value;
    var after := InsertAll(mappings, added);
    AdditionsAreNew(clock, mode, mappings, source.fields, added);
    AdditionsAreDistinct(clock, mode, mappings, source.fields, added);
    forall f ensures f in mappings ==> f in after && after[f] == mappings[f] {
      InsertedNames(mappings, added, f);
    }
    forall f | f in after && f !in mappings ensures Named(source.fields, f) {
      InsertedNames(mappings, added, f);
      var k :| 0 <= k < |added| && added[k].0 == f;
      AdditionsAreFields(clock, mode, mappings, source.fields, added, k);
    }
    forall i | 0 <= i < |source.fields| ensures FieldConforms(clock, after, source.fields[i]) {
      CoveredConforms(clock, mode, mappings, source.fields, added, i);
    }
  }

  /** Which documents are accepted. */
  ghost predicate Acceptable(clock: Clock, mode: MappingMode, mappings: FieldMappings, field: (Text, Json)) {
    var inferred := InferFieldType(clock, field.0, field.1);
    && !field.1.Array?
    && (inferred.Ok? && inferred.value.Some? ==>
          if field.0 in mappings then mappings[field.0] == inferred.value.value else mode.ControlledDynamic?)
  }

  lemma {:induction false} FieldsPassExactlyWhen(clock: Clock, mode: MappingMode, mappings: FieldMappings,
                                                 fields: seq<(Text, Json)>)
    ensures CheckFields(clock, mode, mappings, fields).Ok?
       <==> forall i :: 0 <= i < |fields| ==> Acceptable(clock, mode, mappings, fields[i])
  {
    if fields != [] {
      FieldsPassExactlyWhen(clock, mode, mappings, fields[..|fields| - 1]);
    }
  }

  /** A document that conforms needs no new field: it is accepted again, and changes nothing. */
  lemma {:induction false} ConformingAddsNothing(clock: Clock, mode: MappingMode, mappings: FieldMappings,
                                                 fields: seq<(Text, Json)>)
    requires forall i :: 0 <= i < |fields| ==> FieldConforms(clock, mappings, fields[i])
    ensures CheckFields(clock, mode, mappings, fields) == Ok([])
  {
    if fields != [] {
      ConformingAddsNothing(clock, mode, mappings, fields[..|fields| - 1]);
      assert FieldConforms(clock, mappings, fields[|fields| - 1]);
      assert CheckField(clock, mode, mappings, fields[|fields| - 1]) == Ok([]);
      var none: seq<(Text, FieldType)> := [];
      assert none + none == none;
    }
  }

  lemma {:induction false} InsertAllSize(mappings: FieldMappings, added: seq<(Text, FieldType)>)
    requires DistinctNames(added)
    requires forall k :: 0 <= k < |added| ==> added[k].0 !in mappings
    ensures |InsertAll(mappings, added)| == |mappings| + |added|
  {
    if added != [] {
      var front, last := added[..|added| - 1], added[|added| - 1];
      InsertAllSize(mappings, front);
      InsertedNames(mappings, front, last.0);
      var before := InsertAll(mappings, front);
      assert last.0 !in before.Keys;
      assert before[last.0 := last.1].Keys == before.Keys + {last.0};
    }
  }

  /** How many fields of a document have a type and are not mapped yet. */
  function NewFields(clock: Clock, mappings: FieldMappings, fields: seq<(Text, Json)>): nat {
    if fields == [] then 0
    else
      var last := fields[|fields| - 1];
      var inferred := InferFieldType(clock, last.0, last.1);
      NewFields(clock, mappings, fields[..|fields| - 1])
      + (if inferred.Ok? && inferred.value.Some? && last.0 !in mappings then 1 else 0)
  }

  lemma {:induction false} AdditionsAreNewFields(clock: Clock, mode: MappingMode, mappings: FieldMappings,
                                                 fields: seq<(Text, Json)>)
    requires CheckFields(clock, mode, mappings, fields).Ok?
    ensures |CheckFields(clock, mode, mappings, fields).value| == NewFields(clock, mappings, fields)
  {
    if fields != [] {
      AdditionsAreNewFields(clock, mode, mappings, fields[..|fields| - 1]);
    }
  }

  /** A document is accepted exactly when it is an object without arrays whose typed fields agree with
      the mappings, are all mapped in strict mode, and leave at most a thousand fields mapped. */
  lemma AcceptedExactlyWhen(clock: Clock, mode: MappingMode, mappings: FieldMappings, source: Json)
    ensures Validate(clock, mode, mappings, source).Ok?
       <==> && source.Object?
            && (forall i :: 0 <= i < |source.fields| ==> Acceptable(clock, mode, mappings, source.fields[i]))
            && |mappings| + NewFields(clock, mappings, source.fields) <= MAX_FIELDS_PER_INDEX
  {
    if source.Object? {
      FieldsPassExactlyWhen(clock, mode, mappings, source.fields);
      if CheckFields(clock, mode, mappings, source.fields).Ok? {
        AdditionsAreNewFields(clock, mode, mappings, source.fields);
      }
    }
  }

  /** No accepted document leaves more than a thousand fields mapped. */
  lemma FieldLimitHolds(clock: Clock, mode: MappingMode, mappings: FieldMappings, source: Json)
    requires source.Object? ==> DistinctNames(source.fields)
    requires Validate(clock, mode, mappings, source).Ok?
    ensures |Validate(clock, mode, mappings, source).value| <= MAX_FIELDS_PER_INDEX
  {
    var added := CheckFields(clock, mode, mappings, source.fields).value;
    AdditionsAreNew(clock, mode, mappings, source.fields, added);
    AdditionsAreDistinct(clock, mode, mappings, source.fields, added);
    InsertAllSize(mappings, added);
  }
}
