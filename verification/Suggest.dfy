// The suggest index: its file format and the prefix lookup on its sorted terms.
module Suggest {
  import opened Bytes
  import opened ByteReading
  import opened Values
  import opened Texts

  const MAGIC: u32 := 0x5355_4747
  const VERSION: u8 := 1

  /** A term with the number of its documents; the score is the bits of a 32-bit float. */
  datatype SuggestEntry = SuggestEntry(term: Text, docFreq: u32, score: u32)

  type Fields = map<Text, seq<SuggestEntry>>

  // ----- prefixes in sorted terms -----

  predicate StartsWith(text: Text, prefix: Text) {
    prefix <= text
  }

  ghost predicate SortedByTerm(entries: seq<SuggestEntry>) {
    forall i, j :: 0 <= i < j < |entries| ==> Before(entries[i].term, entries[j].term)
  }

  /** Nothing that starts with a prefix comes before it. */
  lemma {:induction false} PrefixComesFirst(text: Text, prefix: Text)
    requires StartsWith(text, prefix)
    ensures !Before(text, prefix)
  {
    if prefix != [] {
      assert text[1..] == prefix[1..] + text[|prefix|..];
      PrefixComesFirst(text[1..], prefix[1..]);
    }
  }

  /** What lies between a prefix and a text that starts with it starts with it as well. */
  lemma {:induction false} BetweenStartsToo(prefix: Text, middle: Text, text: Text)
    requires StartsWith(text, prefix) && !Before(middle, prefix) && Before(middle, text)
    ensures StartsWith(middle, prefix)
  {
    if prefix != [] {
      assert text[1..] == prefix[1..] + text[|prefix|..];
      BetweenStartsToo(prefix[1..], middle[1..], text[1..]);
      assert middle == [middle[0]] + middle[1..] && prefix == [prefix[0]] + prefix[1..];
    }
  }

  /** The entries whose terms start with the prefix. */
  function Matching(entries: seq<SuggestEntry>, prefix: Text): seq<SuggestEntry> {
    if entries == [] then []
    else if StartsWith(entries[0].term, prefix) then [entries[0]] + Matching(entries[1..], prefix)
    else Matching(entries[1..], prefix)
  }

  function Suggestions(fields: Fields, field: Text, prefix: Text): seq<SuggestEntry> {
    if prefix == [] || field !in fields then [] else Matching(fields[field], prefix)
  }

  /** The lower bound of the prefix, if the term there starts with it: the first match of all. */
  method FindFirstPrefix(fields: Fields, field: Text, prefix: Text) returns (r: Option<nat>)
    requires field in fields ==> SortedByTerm(fields[field])
    ensures r.Some? ==>
              && field in fields && r.value < |fields[field]| && StartsWith(fields[field][r.value].term, prefix)
              && forall i :: 0 <= i < r.value ==> !StartsWith(fields[field][i].term, prefix)
    ensures r.None? && field in fields ==>
              forall i :: 0 <= i < |fields[field]| ==> !StartsWith(fields[field][i].term, prefix)
  {
    if field !in fields || fields[field] == [] {
      return None;
    }
    var entries := fields[field];
    var lo, hi := 0, |entries|;
    while lo < hi
      invariant 0 <= lo <= hi <= |entries|
      invariant forall i :: 0 <= i < lo ==> Before(entries[i].term, prefix)
      invariant forall i :: hi <= i < |entries| ==> !Before(entries[i].term, prefix)
    {
      var mid := (lo + hi) / 2;
      if Before(entries[mid].term, prefix) {
        BelowIsBefore(entries, mid, prefix);
        lo := mid + 1;
      } else {
        AboveIsNotBefore(entries, mid, prefix);
        hi := mid;
      }
    }
    forall i | 0 <= i < lo ensures !StartsWith(entries[i].term, prefix) {
      if StartsWith(entries[i].term, prefix) {
        PrefixComesFirst(entries[i].term, prefix);
      }
    }
    if lo < |entries| && StartsWith(entries[lo].term, prefix) {
      return Some(lo);
    }
    forall i | lo < i < |entries| ensures !StartsWith(entries[i].term, prefix) {
      if StartsWith(entries[i].term, prefix) {
        BetweenStartsToo(prefix, entries[lo].term, entries[i].term);
      }
    }
    r := None;
  }

  lemma BelowIsBefore(entries: seq<SuggestEntry>, mid: nat, prefix: Text)
    requires SortedByTerm(entries) && mid < |entries| && Before(entries[mid].term, prefix)
    ensures forall i :: 0 <= i <= mid ==> Before(entries[i].term, prefix)
  {
    forall i | 0 <= i < mid ensures Before(entries[i].term, prefix) {
      BeforeIsTransitive(entries[i].term, entries[mid].term, prefix);
    }
  }

  lemma AboveIsNotBefore(entries: seq<SuggestEntry>, mid: nat, prefix: Text)
    requires SortedByTerm(entries) && mid < |entries| && !Before(entries[mid].term, prefix)
    ensures forall i :: mid <= i < |entries| ==> !Before(entries[i].term, prefix)
  {
    forall i | mid < i < |entries| ensures !Before(entries[i].term, prefix) {
      if Before(entries[i].term, prefix) {
        BeforeIsTransitive(entries[mid].term, entries[i].term, prefix);
      }
    }
  }

  lemma {:induction false} NoneMatching(entries: seq<SuggestEntry>, prefix: Text)
    requires forall i :: 0 <= i < |entries| ==> !StartsWith(entries[i].term, prefix)
    ensures Matching(entries, prefix) == []
  {
    if entries != [] {
      NoneMatching(entries[1..], prefix);
    }
  }

  lemma {:induction false} MatchingConcat(a: seq<SuggestEntry>, b: seq<SuggestEntry>, prefix: Text)
    ensures Matching(a + b, prefix) == Matching(a, prefix) + Matching(b, prefix)
  {
    if a == [] {
      assert a + b == b;
    } else {
      assert (a + b)[1..] == a[1..] + b;
      MatchingConcat(a[1..], b, prefix);
    }
  }

  lemma {:induction false} AllMatching(entries: seq<SuggestEntry>, prefix: Text)
    requires forall i :: 0 <= i < |entries| ==> StartsWith(entries[i].term, prefix)
    ensures Matching(entries, prefix) == entries
  {
    if entries != [] {
      AllMatching(entries[1..], prefix);
    }
  }

  lemma NothingAfterBlock(entries: seq<SuggestEntry>, prefix: Text, start: nat, end: nat)
    requires SortedByTerm(entries) && start < end < |entries|
    requires StartsWith(entries[start].term, prefix) && !StartsWith(entries[end].term, prefix)
    ensures forall i :: end <= i < |entries| ==> !StartsWith(entries[i].term, prefix)
  {
    PrefixComesFirst(entries[start].term, prefix);
    AboveIsNotBefore(entries, start, prefix);
    forall i | end < i < |entries| ensures !StartsWith(entries[i].term, prefix) {
      if StartsWith(entries[i].term, prefix) {
        BetweenStartsToo(prefix, entries[end].term, entries[i].term);
      }
    }
  }

  lemma MatchingInThree(a: seq<SuggestEntry>, b: seq<SuggestEntry>, c: seq<SuggestEntry>, prefix: Text)
    requires forall i :: 0 <= i < |a| ==> !StartsWith(a[i].term, prefix)
    requires forall i :: 0 <= i < |b| ==> StartsWith(b[i].term, prefix)
    requires forall i :: 0 <= i < |c| ==> !StartsWith(c[i].term, prefix)
    ensures Matching(a + b + c, prefix) == b
  {
    NoneMatching(a, prefix);
    AllMatching(b, prefix);
    NoneMatching(c, prefix);
    MatchingConcat(a, b, prefix);
    MatchingConcat(a + b, c, prefix);
  }

  lemma InThreeParts<T>(s: seq<T>, i: nat, j: nat)
    requires i <= j <= |s|
    ensures s == s[..i] + s[i..j] + s[j..]
  {
  }

  /** Before the first match and behind the first later mismatch nothing matches: the matches are one block. */
  lemma BlockIsMatching(entries: seq<SuggestEntry>, prefix: Text, start: nat, end: nat)
    requires SortedByTerm(entries) && start < end <= |entries|
    requires forall i :: 0 <= i < start ==> !StartsWith(entries[i].term, prefix)
    requires forall i :: start <= i < end ==> StartsWith(entries[i].term, prefix)
    requires end < |entries| ==> !StartsWith(entries[end].term, prefix)
    ensures Matching(entries, prefix) == entries[start..end]
  {
    if end < |entries| {
      NothingAfterBlock(entries, prefix, start, end);
    }
    MatchingInThree(entries[..start], entries[start..end], entries[end..], prefix);
    InThreeParts(entries, start, end);
  }

  /** Binary search and a scan find exactly the entries that start with the prefix. */
  method SuggestForField(fields: Fields, field: Text, prefix: Text) returns (r: seq<SuggestEntry>)
    requires field in fields ==> SortedByTerm(fields[field])
    ensures r == Suggestions(fields, field, prefix)
  {
    if prefix == [] {
      return [];
    }
    var first := FindFirstPrefix(fields, field, prefix);
    if first.None? {
      if field in fields {
        NoneMatching(fields[field], prefix);
      }
      return [];
    }
    var entries, start := fields[field], first.value;
    var end := start;
    r := [];
    while end < |entries| && StartsWith(entries[end].term, prefix)
      invariant start <= end <= |entries| && r == entries[start..end]
      invariant forall i :: start <= i < end ==> StartsWith(entries[i].term, prefix)
    {
      r := r + [entries[end]];
      end := end + 1;
    }
    BlockIsMatching(entries, prefix, start, end);
  }

  // ----- the file format -----

  function EncodeEntry(e: SuggestEntry): seq<u8>
    requires |e.term| < 0x1_0000_0000
  {
    U32Bytes(|e.term|) + (e.term + (U32Bytes(e.docFreq) + U32Bytes(e.score)))
  }

  predicate ShortTerms(entries: seq<SuggestEntry>) {
    forall i :: 0 <= i < |entries| ==> |entries[i].term| < 0x1_0000_0000
  }

  function EncodeEntries(entries: seq<SuggestEntry>): seq<u8>
    requires ShortTerms(entries)
  {
    if entries == [] then [] else EncodeEntry(entries[0]) + EncodeEntries(entries[1..])
  }

  type NamedField = (Text, seq<SuggestEntry>)

  predicate Fits(field: NamedField) {
    |field.0| < 0x1_0000_0000 && |field.1| < 0x1_0000_0000 && ShortTerms(field.1)
  }

  function EncodeField(field: NamedField): seq<u8>
    requires Fits(field)
  {
    U32Bytes(|field.0|) + (field.0 + (U32Bytes(|field.1|) + EncodeEntries(field.1)))
  }

  predicate AllFit(list: seq<NamedField>) {
    forall i :: 0 <= i < |list| ==> Fits(list[i])
  }

  function EncodeFields(list: seq<NamedField>): seq<u8>
    requires AllFit(list)
  {
    if list == [] then [] else EncodeField(list[0]) + EncodeFields(list[1..])
  }

  function Header(count: u32): (h: seq<u8>)
    ensures |h| == 12
  {
    U32Bytes(MAGIC) + [VERSION, 0, 0, 0] + U32Bytes(count)
  }

  ghost function Listing(fields: Fields, order: seq<Text>): (list: seq<NamedField>)
    requires forall k :: 0 <= k < |order| ==> order[k] in fields
    ensures |list| == |order|
  {
    seq(|order|, k requires 0 <= k < |order| => (order[k], fields[order[k]]))
  }

  // ----- loading -----

  /** Loading reports bad headers and bad text as errors, and panics where the data ends early. */
  datatype LoadError = TooShort | InvalidMagic | UnsupportedVersion | InvalidUtf8 | Panic

  function ReadText(utf8: Utf8, data: seq<u8>, pos: nat): (r: Result<(Text, nat), LoadError>)
    ensures r.Ok? ==> pos < r.value.1 <= |data|
  {
    if pos + 4 > |data| || pos + 4 + U32At(data, pos) > |data| then Err(Panic)
    else
      var end := pos + 4 + U32At(data, pos);
      if utf8(data[pos + 4..end]) then Ok((data[pos + 4..end], end)) else Err(InvalidUtf8)
  }

  function ReadEntry(utf8: Utf8, data: seq<u8>, pos: nat): (r: Result<(SuggestEntry, nat), LoadError>)
    ensures r.Ok? ==> pos < r.value.1 <= |data|
  {
    var text :- ReadText(utf8, data, pos);
    if text.1 + 8 > |data| then Err(Panic)
    else Ok((SuggestEntry(text.0, U32At(data, text.1), U32At(data, text.1 + 4)), text.1 + 8))
  }

  function ReadEntries(utf8: Utf8, data: seq<u8>, pos: nat, count: nat)
    : (r: Result<(seq<SuggestEntry>, nat), LoadError>)
    requires pos <= |data|
    ensures r.Ok? ==> pos <= r.value.1 <= |data|
    decreases count
  {
    if count == 0 then Ok(([], pos))
    else
      var entry :- ReadEntry(utf8, data, pos);
      var rest :- ReadEntries(utf8, data, entry.1, count - 1);
      Ok(([entry.0] + rest.0, rest.1))
  }

  function ReadField(utf8: Utf8, data: seq<u8>, pos: nat): (r: Result<(NamedField, nat), LoadError>)
    ensures r.Ok? ==> pos < r.value.1 <= |data|
  {
    match ReadText(utf8, data, pos)
    case Ok((name, end)) => ReadFieldEntries(utf8, data, name, end)
    case Err(e) => Err(e)
  }

  function ReadFieldEntries(utf8: Utf8, data: seq<u8>, name: Text, pos: nat): (r: Result<(NamedField, nat), LoadError>)
    ensures r.Ok? ==> pos < r.value.1 <= |data|
  {
    if pos + 4 > |data| then Err(Panic)
    else
      match ReadEntries(utf8, data, pos + 4, U32At(data, pos))
      case Ok((entries, end)) => Ok(((name, entries), end))
      case Err(e) => Err(e)
  }

  function ReadFields(utf8: Utf8, data: seq<u8>, pos: nat, count: nat, fields: Fields): Result<Fields, LoadError>
    requires pos <= |data|
    decreases count
  {
    if count == 0 then Ok(fields)
    else
      var field :- ReadField(utf8, data, pos);
      ReadFields(utf8, data, field.1, count - 1, fields[field.0.0 := field.0.1])
  }

  function FromBytes(utf8: Utf8, data: seq<u8>): Result<Fields, LoadError> {
    if |data| < 12 then Err(TooShort)
    else if U32At(data, 0) != MAGIC then Err(InvalidMagic)
    else if data[4] != VERSION then Err(UnsupportedVersion)
    else ReadFields(utf8, data, 12, U32At(data, 8), map[])
  }

  // ----- the file reads back -----

  lemma TextReadsBack(utf8: Utf8, data: seq<u8>, pos: nat, text: Text, rest: seq<u8>)
    requires |text| < 0x1_0000_0000 && utf8(text) && Stands(data, pos, U32Bytes(|text|) + (text + rest))
    ensures ReadText(utf8, data, pos) == Ok((text, pos + 4 + |text|))
    ensures Stands(data, pos + 4 + |text|, rest)
  {
    PartsStand(data, pos, U32Bytes(|text|), text + rest);
    PartsStand(data, pos + 4, text, rest);
    U32Stands(data, pos, |text|);
    SliceStands(data, pos + 4, text);
  }

  lemma EntryReadsBack(utf8: Utf8, data: seq<u8>, pos: nat, e: SuggestEntry)
    requires |e.term| < 0x1_0000_0000 && utf8(e.term) && Stands(data, pos, EncodeEntry(e))
    ensures ReadEntry(utf8, data, pos) == Ok((e, pos + |EncodeEntry(e)|))
  {
    var end := pos + 4 + |e.term|;
    TextReadsBack(utf8, data, pos, e.term, U32Bytes(e.docFreq) + U32Bytes(e.score));
    PartsStand(data, end, U32Bytes(e.docFreq), U32Bytes(e.score));
    U32Stands(data, end, e.docFreq);
    U32Stands(data, end + 4, e.score);
  }

  lemma FirstReadsBack(utf8: Utf8, data: seq<u8>, pos: nat, e: SuggestEntry, rest: seq<u8>) returns (next: nat)
    requires |e.term| < 0x1_0000_0000 && utf8(e.term) && Stands(data, pos, EncodeEntry(e) + rest)
    ensures next == pos + |EncodeEntry(e)| && ReadEntry(utf8, data, pos) == Ok((e, next)) && Stands(data, next, rest)
  {
    PartsStand(data, pos, EncodeEntry(e), rest);
    EntryReadsBack(utf8, data, pos, e);
    next := pos + |EncodeEntry(e)|;
  }

  lemma NextEntry(utf8: Utf8, data: seq<u8>, pos: nat, e: SuggestEntry, next: nat, rest: seq<SuggestEntry>,
                  entries: seq<SuggestEntry>, end: nat)
    requires pos <= |data| && ReadEntry(utf8, data, pos) == Ok((e, next)) && entries == [e] + rest
    requires ReadEntries(utf8, data, next, |rest|) == Ok((rest, end))
    ensures ReadEntries(utf8, data, pos, |entries|) == Ok((entries, end))
  {
  }

  lemma {:induction false} EntriesReadBack(utf8: Utf8, data: seq<u8>, pos: nat, entries: seq<SuggestEntry>, end: nat)
    requires ShortTerms(entries) && (forall i :: 0 <= i < |entries| ==> utf8(entries[i].term))
    requires Stands(data, pos, EncodeEntries(entries)) && end == pos + |EncodeEntries(entries)|
    ensures ReadEntries(utf8, data, pos, |entries|) == Ok((entries, end))
    decreases |entries|
  {
    if entries != [] {
      var next := FirstReadsBack(utf8, data, pos, entries[0], EncodeEntries(entries[1..]));
      EntriesReadBack(utf8, data, next, entries[1..], end);
      NextEntry(utf8, data, pos, entries[0], next, entries[1..], entries, end);
    }
  }

  predicate Utf8Field(utf8: Utf8, field: NamedField) {
    utf8(field.0) && forall i :: 0 <= i < |field.1| ==> utf8(field.1[i].term)
  }

  lemma FieldFrom(utf8: Utf8, data: seq<u8>, pos: nat, name: Text, end: nat,
                  field: Result<(NamedField, nat), LoadError>)
    requires ReadText(utf8, data, pos) == Ok((name, end)) && ReadFieldEntries(utf8, data, name, end) == field
    ensures ReadField(utf8, data, pos) == field
  {
  }

  lemma FieldEntriesReadBack(utf8: Utf8, data: seq<u8>, pos: nat, field: NamedField, next: nat)
    requires Fits(field) && Utf8Field(utf8, field)
    requires Stands(data, pos, U32Bytes(|field.1|) + EncodeEntries(field.1))
    requires next == pos + 4 + |EncodeEntries(field.1)|
    ensures ReadFieldEntries(utf8, data, field.0, pos) == Ok((field, next))
  {
    PartsStand(data, pos, U32Bytes(|field.1|), EncodeEntries(field.1));
    U32Stands(data, pos, |field.1|);
    EntriesReadBack(utf8, data, pos + 4, field.1, next);
  }

  lemma FieldReadsBack(utf8: Utf8, data: seq<u8>, pos: nat, field: NamedField, next: nat)
    requires Fits(field) && Utf8Field(utf8, field) && Stands(data, pos, EncodeField(field))
    requires next == pos + |EncodeField(field)|
    ensures ReadField(utf8, data, pos) == Ok((field, next))
  {
    var end := pos + 4 + |field.0|;
    TextReadsBack(utf8, data, pos, field.0, U32Bytes(|field.1|) + EncodeEntries(field.1));
    FieldEntriesReadBack(utf8, data, end, field, next);
    FieldFrom(utf8, data, pos, field.0, end, Ok((field, next)));
  }

  function WithFields(fields: Fields, list: seq<NamedField>): Fields
    decreases |list|
  {
    if list == [] then fields else WithFields(fields[list[0].0 := list[0].1], list[1..])
  }

  lemma NextField(utf8: Utf8, data: seq<u8>, pos: nat, field: NamedField, next: nat, count: nat, fields: Fields,
                  r: Result<Fields, LoadError>)
    requires pos <= |data| && ReadField(utf8, data, pos) == Ok((field, next))
    requires ReadFields(utf8, data, next, count, fields[field.0 := field.1]) == r
    ensures ReadFields(utf8, data, pos, count + 1, fields) == r
  {
  }

  lemma {:induction false} FieldsReadBack(utf8: Utf8, data: seq<u8>, pos: nat, list: seq<NamedField>, fields: Fields,
                                          whole: Fields)
    requires AllFit(list) && (forall i :: 0 <= i < |list| ==> Utf8Field(utf8, list[i]))
    requires Stands(data, pos, EncodeFields(list)) && whole == WithFields(fields, list)
    ensures ReadFields(utf8, data, pos, |list|, fields) == Ok(whole)
    decreases |list|
  {
    if list != [] {
      var next := pos + |EncodeField(list[0])|;
      PartsStand(data, pos, EncodeField(list[0]), EncodeFields(list[1..]));
      FieldReadsBack(utf8, data, pos, list[0], next);
      FieldsReadBack(utf8, data, next, list[1..], fields[list[0].0 := list[0].1], whole);
      NextField(utf8, data, pos, list[0], next, |list| - 1, fields, Ok(whole));
    }
  }

  ghost predicate FieldsDistinct(list: seq<NamedField>) {
    forall i, j :: 0 <= i < j < |list| ==> list[i].0 != list[j].0
  }

  lemma {:induction false} ListedFieldsAreFound(fields: Fields, list: seq<NamedField>, name: Text, whole: Fields)
    requires FieldsDistinct(list) && whole == WithFields(fields, list)
    ensures forall i :: 0 <= i < |list| && list[i].0 == name ==> name in whole && whole[name] == list[i].1
    ensures (forall i :: 0 <= i < |list| ==> list[i].0 != name) ==>
              (name in whole <==> name in fields) && (name in whole ==> whole[name] == fields[name])
    decreases |list|
  {
    if list != [] {
      ListedFieldsAreFound(fields[list[0].0 := list[0].1], list[1..], name, whole);
      forall i | 0 < i < |list| ensures list[i] == list[1..][i - 1] && list[i].0 != list[0].0 {
      }
    }
  }

  // ----- the whole file -----

  /** What the format can hold: every count fits its 32 bits. */
  ghost predicate Storable(fields: Fields) {
    |fields| < 0x1_0000_0000 && forall f :: f in fields ==> Fits((f, fields[f]))
  }

  lemma CountsFitExactlyWhen(fields: Fields)
    ensures Storable(fields) <==>
              && |fields| < 0x1_0000_0000
              && (forall f :: f in fields ==> |f| < 0x1_0000_0000 && |fields[f]| < 0x1_0000_0000)
              && (forall f, i :: f in fields && 0 <= i < |fields[f]| ==> |fields[f][i].term| < 0x1_0000_0000)
  {
  }

  lemma KeysListed(fields: Fields, order: seq<Text>)
    requires order == Ascending(fields.Keys)
    ensures |order| == |fields| && (forall f :: f in order <==> f in fields)
    ensures forall k :: 0 <= k < |order| ==> order[k] in fields
    ensures FieldsDistinct(Listing(fields, order))
  {
    AscendingLists(fields.Keys);
    AscendingIsSorted(fields.Keys);
    forall k | 0 <= k < |order| ensures order[k] in fields {
      assert order[k] in order;
    }
    forall i, j | 0 <= i < j < |order| ensures order[i] != order[j] {
      BeforeIsTotal(order[i], order[j]);
    }
  }

  ghost function Encode(fields: Fields): seq<u8>
    requires Storable(fields)
  {
    var order := Ascending(fields.Keys);
    KeysListed(fields, order);
    Header(|order|) + EncodeFields(Listing(fields, order))
  }

  lemma ListingFindsAll(fields: Fields, order: seq<Text>)
    requires order == Ascending(fields.Keys) && forall k :: 0 <= k < |order| ==> order[k] in fields
    ensures WithFields(map[], Listing(fields, order)) == fields
  {
    KeysListed(fields, order);
    var list := Listing(fields, order);
    var whole := WithFields(map[], list);
    forall name ensures name in whole <==> name in fields
                ensures name in whole ==> whole[name] == fields[name]
    {
      ListedFieldsAreFound(map[], list, name, whole);
      if name in fields {
        var k :| 0 <= k < |order| && order[k] == name;
        assert list[k].0 == name;
      }
    }
  }

  lemma HeaderReads(data: seq<u8>, count: u32, rest: seq<u8>)
    requires data == Header(count) + rest
    ensures |data| >= 12 && U32At(data, 0) == MAGIC && data[4] == VERSION && U32At(data, 8) == count
    ensures Stands(data, 12, rest)
  {
    assert Stands(data, 0, U32Bytes(MAGIC));
    assert Stands(data, 8, U32Bytes(count));
    U32Stands(data, 0, MAGIC);
    U32Stands(data, 8, count);
  }

  lemma HeaderLoads(utf8: Utf8, data: seq<u8>, count: u32, r: Result<Fields, LoadError>)
    requires |data| >= 12 && U32At(data, 0) == MAGIC && data[4] == VERSION && U32At(data, 8) == count
    requires ReadFields(utf8, data, 12, count, map[]) == r
    ensures FromBytes(utf8, data) == r
  {
  }

  /** Every storable index loads back as it was. */
  lemma FileReadsBack(utf8: Utf8, fields: Fields, data: seq<u8>)
    requires Storable(fields) && data == Encode(fields)
    requires forall f :: f in fields ==> Utf8Field(utf8, (f, fields[f]))
    ensures FromBytes(utf8, data) == Ok(fields)
  {
    var order := Ascending(fields.Keys);
    KeysListed(fields, order);
    ListingFindsAll(fields, order);
    ListReadsBack(utf8, Listing(fields, order), data, fields);
  }

  lemma ListReadsBack(utf8: Utf8, list: seq<NamedField>, data: seq<u8>, whole: Fields)
    requires |list| < 0x1_0000_0000 && AllFit(list) && forall i :: 0 <= i < |list| ==> Utf8Field(utf8, list[i])
    requires data == Header(|list|) + EncodeFields(list) && whole == WithFields(map[], list)
    ensures FromBytes(utf8, data) == Ok(whole)
  {
    HeaderReads(data, |list|, EncodeFields(list));
    FieldsReadBack(utf8, data, 12, list, map[], whole);
    HeaderLoads(utf8, data, |list|, Ok(whole));
  }

  // ----- writing and loading with loops -----

  /** The file's bytes, or nothing where a count exceeds its 32 bits. */
  method ToBytes(fields: Fields) returns (r: Option<seq<u8>>)
    ensures r == if Storable(fields) then Some(Encode(fields)) else None
  {
    if |fields| >= 0x1_0000_0000 {
      return None;
    }
    var order := SortedKeys(fields.Keys);
    KeysListed(fields, order);
    AllFitExactlyWhen(fields, order);
    var bytes := FieldsBytes(fields, order, Listing(fields, order));
    r := if bytes.None? then None else Some(Header(|order|) + bytes.value);
  }

  /** The loop over the sorted fields. */
  method FieldsBytes(fields: Fields, order: seq<Text>, ghost list: seq<NamedField>) returns (r: Option<seq<u8>>)
    requires (forall k :: 0 <= k < |order| ==> order[k] in fields) && list == Listing(fields, order)
    ensures r == if AllFit(list) then Some(EncodeFields(list)) else None
  {
    var bytes := [];
    for k := 0 to |order|
      invariant AllFit(list[..k]) && bytes == EncodeFields(list[..k])
    {
      assert list[k] == (order[k], fields[order[k]]);
      var field := FieldBytes((order[k], fields[order[k]]));
      if field.None? {
        return None;
      }
      FieldAppended(list, k);
      bytes := bytes + field.value;
    }
    assert list[..|order|] == list;
    r := Some(bytes);
  }

  lemma AllFitExactlyWhen(fields: Fields, order: seq<Text>)
    requires (forall f :: f in order <==> f in fields) && forall k :: 0 <= k < |order| ==> order[k] in fields
    ensures AllFit(Listing(fields, order)) <==> forall f :: f in fields ==> Fits((f, fields[f]))
  {
    var list := Listing(fields, order);
    if AllFit(list) {
      forall f | f in fields ensures Fits((f, fields[f])) {
        var k :| 0 <= k < |order| && order[k] == f;
        assert Fits(list[k]);
      }
    }
  }

  lemma FieldAppended(list: seq<NamedField>, k: nat)
    requires k < |list| && AllFit(list[..k]) && Fits(list[k])
    ensures AllFit(list[..k + 1]) && EncodeFields(list[..k + 1]) == EncodeFields(list[..k]) + EncodeField(list[k])
  {
    assert list[..k + 1] == list[..k] + [list[k]];
    OneFieldMore(list[..k], list[k]);
  }

  lemma {:induction false} OneFieldMore(list: seq<NamedField>, field: NamedField)
    requires AllFit(list) && Fits(field)
    ensures EncodeFields(list + [field]) == EncodeFields(list) + EncodeField(field)
  {
    if list == [] {
      assert EncodeFields([field][1..]) == [];
    } else {
      assert (list + [field])[1..] == list[1..] + [field];
      OneFieldMore(list[1..], field);
    }
  }

  method FieldBytes(field: NamedField) returns (r: Option<seq<u8>>)
    ensures r == if Fits(field) then Some(EncodeField(field)) else None
  {
    var (name, entries) := field;
    if |name| >= 0x1_0000_0000 || |entries| >= 0x1_0000_0000 {
      return None;
    }
    var bytes := [];
    for i := 0 to |entries|
      invariant ShortTerms(entries[..i]) && bytes == EncodeEntries(entries[..i])
    {
      if |entries[i].term| >= 0x1_0000_0000 {
        return None;
      }
      assert entries[..i + 1] == entries[..i] + [entries[i]];
      OneEntryMore(entries[..i], entries[i]);
      bytes := bytes + EncodeEntry(entries[i]);
    }
    assert entries[..|entries|] == entries;
    r := Some(U32Bytes(|name|) + (name + (U32Bytes(|entries|) + bytes)));
  }

  lemma {:induction false} OneEntryMore(entries: seq<SuggestEntry>, e: SuggestEntry)
    requires ShortTerms(entries) && |e.term| < 0x1_0000_0000
    ensures EncodeEntries(entries + [e]) == EncodeEntries(entries) + EncodeEntry(e)
  {
    if entries == [] {
      assert EncodeEntries([e][1..]) == [];
    } else {
      assert (entries + [e])[1..] == entries[1..] + [e];
      OneEntryMore(entries[1..], e);
    }
  }

  method Load(utf8: Utf8, data: seq<u8>) returns (r: Result<Fields, LoadError>)
    ensures r == FromBytes(utf8, data)
  {
    if |data| < 12 {
      return Err(TooShort);
    }
    if U32At(data, 0) != MAGIC {
      return Err(InvalidMagic);
    }
    if data[4] != VERSION {
      return Err(UnsupportedVersion);
    }
    r := LoadFields(utf8, data, U32At(data, 8));
  }

  method LoadFields(utf8: Utf8, data: seq<u8>, count: nat) returns (r: Result<Fields, LoadError>)
    requires |data| >= 12
    ensures r == ReadFields(utf8, data, 12, count, map[])
  {
    var offset: nat := 12;
    var fields: Fields := map[];
    ghost var all := ReadFields(utf8, data, offset, count, fields);
    var left := count;
    while left > 0
      invariant StillToRead(utf8, data, offset, left, fields, all)
    {
      var field := LoadField(utf8, data, offset);
      if field.Err? {
        FieldFails(utf8, data, offset, left, fields, field.error, all);
        return Err(field.error);
      }
      var ((name, entries), next) := field.value;
      FieldTurn(utf8, data, offset, left, fields, name, entries, next, all);
      fields := fields[name := entries];
      offset := next;
      left := left - 1;
    }
    r := Ok(fields);
  }

  /** Reading the fields that are left completes the result. */
  ghost predicate StillToRead(utf8: Utf8, data: seq<u8>, pos: nat, left: nat, fields: Fields,
                              all: Result<Fields, LoadError>) {
    pos <= |data| && ReadFields(utf8, data, pos, left, fields) == all
  }

  lemma FieldFails(utf8: Utf8, data: seq<u8>, pos: nat, left: nat, fields: Fields, error: LoadError,
                   all: Result<Fields, LoadError>)
    requires left > 0 && ReadField(utf8, data, pos) == Err(error) && StillToRead(utf8, data, pos, left, fields, all)
    ensures all == Err(error)
  {
  }

  lemma FieldTurn(utf8: Utf8, data: seq<u8>, pos: nat, left: nat, fields: Fields, name: Text,
                  entries: seq<SuggestEntry>, next: nat, all: Result<Fields, LoadError>)
    requires left > 0 && ReadField(utf8, data, pos) == Ok(((name, entries), next))
    requires StillToRead(utf8, data, pos, left, fields, all)
    ensures StillToRead(utf8, data, next, left - 1, fields[name := entries], all)
  {
  }

  method LoadField(utf8: Utf8, data: seq<u8>, start: nat) returns (r: Result<(NamedField, nat), LoadError>)
    ensures r == ReadField(utf8, data, start)
  {
    var name :- ReadText(utf8, data, start);
    var offset: nat := name.1;
    if offset + 4 > |data| {
      return Err(Panic);
    }
    var count: nat := U32At(data, offset);
    offset := offset + 4;
    var entries: seq<SuggestEntry> := [];
    ghost var all := ReadEntries(utf8, data, offset, count);
    NothingBefore(all);
    for i := 0 to count
      invariant offset <= |data| && EntriesBefore(entries, ReadEntries(utf8, data, offset, count - i)) == all
    {
      if ReadEntry(utf8, data, offset).Ok? {
        EntryAdded(utf8, data, offset, count - i, entries);
      }
      var entry :- ReadEntry(utf8, data, offset);
      entries := entries + [entry.0];
      offset := entry.1;
    }
    assert entries + [] == entries;
    r := Ok(((name.0, entries), offset));
  }

  type EntriesRead = Result<(seq<SuggestEntry>, nat), LoadError>

  function EntriesBefore(entries: seq<SuggestEntry>, rest: EntriesRead): EntriesRead {
    if rest.Err? then rest else Ok((entries + rest.value.0, rest.value.1))
  }

  lemma NothingBefore(rest: EntriesRead)
    ensures EntriesBefore([], rest) == rest
  {
    if rest.Ok? {
      assert [] + rest.value.0 == rest.value.0;
    }
  }

  lemma EntryAdded(utf8: Utf8, data: seq<u8>, pos: nat, count: nat, entries: seq<SuggestEntry>)
    requires pos <= |data| && count > 0 && ReadEntry(utf8, data, pos).Ok?
    ensures var (e, next) := ReadEntry(utf8, data, pos).value;
            EntriesBefore(entries + [e], ReadEntries(utf8, data, next, count - 1))
            == EntriesBefore(entries, ReadEntries(utf8, data, pos, count))
  {
    var (e, next) := ReadEntry(utf8, data, pos).value;
    var rest := ReadEntries(utf8, data, next, count - 1);
    if rest.Ok? {
      assert entries + ([e] + rest.value.0) == (entries + [e]) + rest.value.0;
    }
  }
}
