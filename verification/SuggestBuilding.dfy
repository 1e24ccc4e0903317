// Building the suggest index from documents, and autocomplete from documents to suggestions.
module SuggestBuilding {
  import opened Bytes
  import opened ByteReading
  import opened Values
  import opened Texts
  import opened Mappings
  import opened Suggest

  datatype Document = Document(id: Text, source: Json)

  /** The distinct tokens of a text. */
  type Tokenizer = Text -> set<Text>

  /** The score of a term in so many of so many documents, as float bits. */
  type Scoring = (nat, nat) -> u32

  /** Keyword fields and fields without a mapping are indexed. */
  predicate IsText(mappings: FieldMappings, field: Text) {
    field !in mappings || mappings[field] == Keyword
  }

  function TextAmong(mappings: FieldMappings, fields: seq<(Text, Json)>, field: Text): Option<Text> {
    match Get(fields, field)
    case Some(Str(raw)) => if IsText(mappings, field) then Some(raw) else None
    case _ => None
  }

  function TextOf(mappings: FieldMappings, d: Document, field: Text): Option<Text> {
    if d.source.Object? then TextAmong(mappings, d.source.fields, field) else None
  }

  predicate Occurs(mappings: FieldMappings, tokens: Tokenizer, d: Document, field: Text, term: Text) {
    var text := TextOf(mappings, d, field);
    text.Some? && term in tokens(text.value)
  }

  /** A term occurs where the field holds a string with that token, and is not mapped to another type than
      keyword. */
  lemma OccursExactlyWhen(mappings: FieldMappings, tokens: Tokenizer, d: Document, field: Text, term: Text)
    ensures Occurs(mappings, tokens, d, field, term) <==>
              && (field in mappings ==> mappings[field] == Keyword)
              && Field(d.source, field).Some? && Field(d.source, field).value.Str?
              && term in tokens(Field(d.source, field).value.s)
  {
  }

  /** The ids of the documents in whose field the term occurs. */
  function Ids(mappings: FieldMappings, tokens: Tokenizer, documents: seq<Document>, field: Text, term: Text)
    : (ids: set<Text>)
  {
    if documents == [] then {}
    else
      var last := documents[|documents| - 1];
      Ids(mappings, tokens, documents[..|documents| - 1], field, term)
      + if Occurs(mappings, tokens, last, field, term) then {last.id} else {}
  }

  predicate HasField(mappings: FieldMappings, documents: seq<Document>, field: Text) {
    exists i :: 0 <= i < |documents| && TextOf(mappings, documents[i], field).Some?
  }

  // ----- collecting ids by field and term -----

  type TermIds = map<Text, set<Text>>

  type Collected = map<Text, TermIds>

  function TermsOf(c: Collected, field: Text): TermIds {
    if field in c then c[field] else map[]
  }

  function IdsIn(terms: TermIds, term: Text): set<Text> {
    if term in terms then terms[term] else {}
  }

  function WithTokens(terms: TermIds, tokens: set<Text>, id: Text): TermIds {
    map t | t in terms.Keys + tokens :: IdsIn(terms, t) + if t in tokens then {id} else {}
  }

  function WithField(c: Collected, mappings: FieldMappings, tokens: Tokenizer, id: Text,
                     field: (Text, Json))
    : Collected
  {
    if field.1.Str? && IsText(mappings, field.0) then
      c[field.0 := WithTokens(TermsOf(c, field.0), tokens(field.1.s), id)]
    else c
  }

  function WithFields(c: Collected, mappings: FieldMappings, tokens: Tokenizer, id: Text, fields: seq<(Text, Json)>)
    : Collected
  {
    if fields == [] then c
    else
      WithField(WithFields(c, mappings, tokens, id, fields[..|fields| - 1]), mappings, tokens, id, fields[|fields| - 1])
  }

  function WithDocument(c: Collected, mappings: FieldMappings, tokens: Tokenizer, d: Document): Collected {
    if d.source.Object? then WithFields(c, mappings, tokens, d.id, d.source.fields) else c
  }

  function Collect(mappings: FieldMappings, tokens: Tokenizer, documents: seq<Document>): Collected {
    if documents == [] then map[]
    else
      WithDocument(Collect(mappings, tokens, documents[..|documents| - 1]), mappings, tokens,
                   documents[|documents| - 1])
  }

  method AddTokens(terms: TermIds, tokens: set<Text>, id: Text) returns (r: TermIds)
    ensures r == WithTokens(terms, tokens, id)
  {
    r := terms;
    var rest := tokens;
    ghost var done: set<Text> := {};
    NoTokens(terms, id);
    while rest != {}
      invariant tokens == done + rest && r == WithTokens(terms, done, id)
      decreases |rest|
    {
      var token :| token in rest;
      TokenAdded(terms, done, token, id);
      r := WithToken(r, token, id);
      MoveOne(done, rest, token);
      rest, done := rest - {token}, done + {token};
    }
  }

  function WithToken(terms: TermIds, token: Text, id: Text): TermIds {
    terms[token := IdsIn(terms, token) + {id}]
  }

  lemma MoveOne<T>(done: set<T>, rest: set<T>, x: T)
    requires x in rest
    ensures done + rest == (done + {x}) + (rest - {x})
    ensures rest - {x} == {} ==> done + rest == done + {x}
  {
  }

  lemma NoTokens(terms: TermIds, id: Text)
    ensures WithTokens(terms, {}, id) == terms
  {
    forall t | t in terms ensures WithTokens(terms, {}, id)[t] == terms[t] {
      assert terms[t] + {} == terms[t];
    }
  }

  lemma TokenAdded(terms: TermIds, done: set<Text>, token: Text, id: Text)
    ensures WithTokens(terms, done + {token}, id) == WithToken(WithTokens(terms, done, id), token, id)
  {
    var r := WithTokens(terms, done, id);
    var more := WithTokens(terms, done + {token}, id);
    assert more.Keys == r.Keys + {token};
    assert IdsIn(r, token) + {id} == IdsIn(terms, token) + {id};
  }

  method CollectDocuments(mappings: FieldMappings, tokens: Tokenizer, documents: seq<Document>) returns (c: Collected)
    ensures c == Collect(mappings, tokens, documents)
  {
    c := map[];
    for i := 0 to |documents|
      invariant c == Collect(mappings, tokens, documents[..i])
    {
      assert documents[..i + 1][..i] == documents[..i];
      c := AddDocument(c, mappings, tokens, documents[i]);
    }
    assert documents[..|documents|] == documents;
  }

  method AddDocument(c: Collected, mappings: FieldMappings, tokens: Tokenizer, d: Document) returns (r: Collected)
    ensures r == WithDocument(c, mappings, tokens, d)
  {
    r := c;
    if d.source.Object? {
      var fields := d.source.fields;
      for i := 0 to |fields|
        invariant r == WithFields(c, mappings, tokens, d.id, fields[..i])
      {
        assert fields[..i + 1][..i] == fields[..i];
        var (name, value) := fields[i];
        if IsText(mappings, name) && value.Str? {
          var terms := AddTokens(TermsOf(r, name), tokens(value.s), d.id);
          r := r[name := terms];
        }
      }
      assert fields[..|fields|] == fields;
    }
  }

  // ----- what is collected -----

  lemma {:induction false} GetLast(fields: seq<(Text, Json)>, name: Text)
    requires fields != [] && DistinctNames(fields)
    ensures Get(fields, name) == if fields[|fields| - 1].0 == name then Some(fields[|fields| - 1].1)
                                 else Get(fields[..|fields| - 1], name)
  {
    if |fields| > 1 {
      GetLast(fields[1..], name);
      assert fields[1..][..|fields| - 2] == fields[..|fields| - 1][1..];
    }
  }

  /** A document adds its id to the tokens of its text fields. */
  lemma {:induction false} FieldsCollect(c: Collected, mappings: FieldMappings, tokens: Tokenizer, id: Text,
                                         fields: seq<(Text, Json)>, field: Text, term: Text)
    requires DistinctNames(fields)
    ensures var r, text := WithFields(c, mappings, tokens, id, fields), TextAmong(mappings, fields, field);
            && (field in r <==> field in c || text.Some?)
            && IdsIn(TermsOf(r, field), term)
               == IdsIn(TermsOf(c, field), term) + if text.Some? && term in tokens(text.value) then {id} else {}
  {
    if fields != [] {
      FieldsCollect(c, mappings, tokens, id, fields[..|fields| - 1], field, term);
      GetLast(fields, field);
      if fields[|fields| - 1].0 == field {
        LastNameIsNew(fields);
      }
    }
  }

  lemma LastNameIsNew(fields: seq<(Text, Json)>)
    requires fields != [] && DistinctNames(fields)
    ensures Get(fields[..|fields| - 1], fields[|fields| - 1].0).None?
  {
    GetFinds(fields[..|fields| - 1], fields[|fields| - 1].0);
  }

  ghost predicate AllJson(documents: seq<Document>) {
    forall i :: 0 <= i < |documents| ==> documents[i].source.Object? ==> DistinctNames(documents[i].source.fields)
  }

  lemma {:induction false} CollectsIds(mappings: FieldMappings, tokens: Tokenizer, documents: seq<Document>,
                                       field: Text,
                                       term: Text)
    requires AllJson(documents)
    ensures var c := Collect(mappings, tokens, documents);
            && (field in c <==> HasField(mappings, documents, field))
            && IdsIn(TermsOf(c, field), term) == Ids(mappings, tokens, documents, field, term)
  {
    if documents != [] {
      var front, last := documents[..|documents| - 1], documents[|documents| - 1];
      CollectsIds(mappings, tokens, front, field, term);
      if last.source.Object? {
        FieldsCollect(Collect(mappings, tokens, front), mappings, tokens, last.id, last.source.fields, field, term);
      }
      HasFieldLast(mappings, documents, field);
    }
  }

  lemma HasFieldLast(mappings: FieldMappings, documents: seq<Document>, field: Text)
    requires documents != []
    ensures HasField(mappings, documents, field) <==>
              HasField(mappings, documents[..|documents| - 1], field)
              || TextOf(mappings, documents[|documents| - 1], field).Some?
  {
  }

  /** No term is kept without a document. */
  ghost predicate NoneEmpty(terms: TermIds) {
    forall t :: t in terms ==> terms[t] != {}
  }

  lemma {:induction false} FieldsKeepNoneEmpty(c: Collected, mappings: FieldMappings, tokens: Tokenizer, id: Text,
                                               fields: seq<(Text, Json)>, field: Text)
    requires NoneEmpty(TermsOf(c, field))
    ensures NoneEmpty(TermsOf(WithFields(c, mappings, tokens, id, fields), field))
  {
    if fields != [] {
      FieldsKeepNoneEmpty(c, mappings, tokens, id, fields[..|fields| - 1], field);
    }
  }

  lemma {:induction false} CollectsNoneEmpty(mappings: FieldMappings, tokens: Tokenizer, documents: seq<Document>,
                                             field: Text)
    ensures NoneEmpty(TermsOf(Collect(mappings, tokens, documents), field))
  {
    if documents != [] {
      var front, last := documents[..|documents| - 1], documents[|documents| - 1];
      CollectsNoneEmpty(mappings, tokens, front, field);
      if last.source.Object? {
        FieldsKeepNoneEmpty(Collect(mappings, tokens, front), mappings, tokens, last.id, last.source.fields, field);
      }
    }
  }

  // ----- the index -----

  function Frequency(ids: set<Text>): u32 {
    |ids| % 0x1_0000_0000
  }

  function EntryFor(terms: TermIds, term: Text, score: Scoring, total: nat): SuggestEntry {
    var frequency := Frequency(IdsIn(terms, term));
    SuggestEntry(term, frequency, score(frequency, total))
  }

  ghost function EntriesFor(terms: TermIds, score: Scoring, total: nat): (entries: seq<SuggestEntry>)
    ensures |entries| == |Ascending(terms.Keys)|
  {
    var order := Ascending(terms.Keys);
    seq(|order|, k requires 0 <= k < |order| => EntryFor(terms, order[k], score, total))
  }

  function Total(documents: seq<Document>): nat {
    if documents == [] then 1 else |documents|
  }

  /** Scores are shares of the documents, of which there is at least one. */
  lemma TotalExactlyWhen(documents: seq<Document>, n: nat)
    ensures n <= Total(documents) <==> n <= 1 || n <= |documents|
  {
  }

  ghost function Index(mappings: FieldMappings, tokens: Tokenizer, score: Scoring, documents: seq<Document>): Fields {
    var c := Collect(mappings, tokens, documents);
    map f | f in c :: EntriesFor(c[f], score, Total(documents))
  }

  method BuildSuggestIndex(mappings: FieldMappings, tokens: Tokenizer, score: Scoring, documents: seq<Document>)
    returns (index: Fields)
    ensures index == Index(mappings, tokens, score, documents)
  {
    var c := CollectDocuments(mappings, tokens, documents);
    index := map[];
    var rest := c.Keys;
    while rest != {}
      invariant rest <= c.Keys
      invariant index == map f | f in c && f !in rest :: EntriesFor(c[f], score, Total(documents))
      decreases |rest|
    {
      var field :| field in rest;
      var entries := ListEntries(c[field], score, Total(documents));
      index := index[field := entries];
      rest := rest - {field};
    }
  }

  method ListEntries(terms: TermIds, score: Scoring, total: nat) returns (entries: seq<SuggestEntry>)
    ensures entries == EntriesFor(terms, score, total)
  {
    var order := SortedKeys(terms.Keys);
    entries := [];
    for k := 0 to |order|
      invariant |entries| == k && forall i :: 0 <= i < k ==> entries[i] == EntryFor(terms, order[i], score, total)
    {
      entries := entries + [EntryFor(terms, order[k], score, total)];
    }
  }

  /** The entries of a field are sorted by term and hold exactly its terms. */
  lemma EntriesAreTerms(terms: TermIds, score: Scoring, total: nat)
    ensures var entries := EntriesFor(terms, score, total);
            && SortedByTerm(entries)
            && forall e :: e in entries <==> e.term in terms && e == EntryFor(terms, e.term, score, total)
  {
    var order, entries := Ascending(terms.Keys), EntriesFor(terms, score, total);
    AscendingIsSorted(terms.Keys);
    AscendingLists(terms.Keys);
    forall e ensures e in entries <==> e.term in terms && e == EntryFor(terms, e.term, score, total) {
      if e in entries {
        var k :| 0 <= k < |order| && entries[k] == e;
        assert order[k] in order;
      }
      if e.term in terms && e == EntryFor(terms, e.term, score, total) {
        assert e.term in order;
        var k :| 0 <= k < |order| && order[k] == e.term;
        assert entries[k] == e;
      }
    }
  }

  lemma {:induction false} IdsAreFew(mappings: FieldMappings, tokens: Tokenizer, documents: seq<Document>, field: Text,
                                     term: Text)
    ensures |Ids(mappings, tokens, documents, field, term)| <= |documents|
  {
    if documents != [] {
      IdsAreFew(mappings, tokens, documents[..|documents| - 1], field, term);
    }
  }

  lemma {:induction false} MatchingFilters(entries: seq<SuggestEntry>, prefix: Text)
    ensures forall e :: e in Matching(entries, prefix) <==> e in entries && StartsWith(e.term, prefix)
    ensures SortedByTerm(entries) ==> SortedByTerm(Matching(entries, prefix))
  {
    if entries != [] {
      MatchingFilters(entries[1..], prefix);
      assert forall e :: e in entries <==> e == entries[0] || e in entries[1..];
    }
  }

  // ----- from documents to suggestions -----

  /** A suggestion: its term starts with the prefix and occurs in the field of so many distinct documents. */
  ghost predicate IsSuggestion(mappings: FieldMappings, tokens: Tokenizer, score: Scoring, documents: seq<Document>,
                               field: Text, prefix: Text, e: SuggestEntry)
  {
    var ids := Ids(mappings, tokens, documents, field, e.term);
    && StartsWith(e.term, prefix) && ids != {}
    && e.docFreq == |ids| && e.score == score(|ids|, Total(documents))
  }

  lemma IndexedEntries(mappings: FieldMappings, tokens: Tokenizer, score: Scoring, documents: seq<Document>,
                       field: Text)
    requires AllJson(documents) && |documents| < 0x1_0000_0000
    ensures var index := Index(mappings, tokens, score, documents);
            && (field in index <==> HasField(mappings, documents, field))
            && (field in index ==> SortedByTerm(index[field]))
            && forall e: SuggestEntry :: field in index && e in index[field] <==>
                 IsSuggestion(mappings, tokens, score, documents, field, [], e)
  {
    var c := Collect(mappings, tokens, documents);
    var terms := TermsOf(c, field);
    EntriesAreTerms(terms, score, Total(documents));
    CollectsIds(mappings, tokens, documents, field, []);
    CollectsNoneEmpty(mappings, tokens, documents, field);
    forall e: SuggestEntry
      ensures e.term in terms && e == EntryFor(terms, e.term, score, Total(documents)) <==>
                IsSuggestion(mappings, tokens, score, documents, field, [], e)
    {
      EntryIsSuggestion(mappings, tokens, score, documents, field, terms, e);
    }
  }

  lemma EntryIsSuggestion(mappings: FieldMappings, tokens: Tokenizer, score: Scoring, documents: seq<Document>,
                          field: Text, terms: TermIds, e: SuggestEntry)
    requires AllJson(documents) && |documents| < 0x1_0000_0000
    requires terms == TermsOf(Collect(mappings, tokens, documents), field) && NoneEmpty(terms)
    ensures e.term in terms && e == EntryFor(terms, e.term, score, Total(documents)) <==>
              IsSuggestion(mappings, tokens, score, documents, field, [], e)
  {
    CollectsIds(mappings, tokens, documents, field, e.term);
    IdsAreFew(mappings, tokens, documents, field, e.term);
  }

  /** Autocomplete end to end: the index of any documents, written and loaded, answers every prefix with
      exactly the terms of the field that start with it, in order, each with its number of documents. */
  lemma SuggestEndToEnd(utf8: Utf8, mappings: FieldMappings, tokens: Tokenizer, score: Scoring,
                        documents: seq<Document>, index: Fields, field: Text, prefix: Text)
    requires AllJson(documents) && |documents| < 0x1_0000_0000
    requires index == Index(mappings, tokens, score, documents) && Storable(index)
    requires forall f :: f in index ==> Utf8Field(utf8, (f, index[f]))
    ensures FromBytes(utf8, Encode(index)) == Ok(index)
    ensures SortedByTerm(Suggestions(index, field, prefix))
    ensures prefix == [] ==> Suggestions(index, field, prefix) == []
    ensures prefix != [] ==>
              forall e: SuggestEntry :: e in Suggestions(index, field, prefix) <==>
                IsSuggestion(mappings, tokens, score, documents, field, prefix, e)
  {
    FileReadsBack(utf8, index, Encode(index));
    IndexedEntries(mappings, tokens, score, documents, field);
    if field in index {
      MatchingFilters(index[field], prefix);
    }
    forall e: SuggestEntry
      ensures IsSuggestion(mappings, tokens, score, documents, field, prefix, e) <==>
                StartsWith(e.term, prefix) && IsSuggestion(mappings, tokens, score, documents, field, [], e)
    {
    }
  }
}
