// Phrases end to end: from the documents of a segment over their inverted index and its file to the phrase
// check on the reader.
module PositionsBuilding {
  import opened Bytes
  import opened ByteReading
  import opened Values
  import opened Texts
  import opened Positions
  import opened Phrases
  import E = Extraction
  import P = Positions

  /** An id and a source. */
  type Document = (Text, Json)

  /** Documents are told apart by a hash of their ids. */
  type Hash = Text -> u64

  /** One posting for each offset. */
  function SinglePostings(docId: u64, offsets: seq<u32>): PostingList {
    if offsets == [] then []
    else SinglePostings(docId, offsets[..|offsets| - 1]) + [NewPosting(docId, [offsets[|offsets| - 1]])]
  }

  function OffsetsOfTerm(blanks: E.Blanks, document: Document, t: Text): seq<u32> {
    E.RecordedFor(E.Extracted(blanks, document.1), t)
  }

  /** The postings of a term, document after document. */
  function Collected(hash: Hash, blanks: E.Blanks, documents: seq<Document>, t: Text): PostingList {
    if documents == [] then []
    else
      var last := documents[|documents| - 1];
      Collected(hash, blanks, documents[..|documents| - 1], t)
      + SinglePostings(hash(last.0), OffsetsOfTerm(blanks, last, t))
  }

  ghost predicate IsIndexOf(terms: Terms, hash: Hash, blanks: E.Blanks, documents: seq<Document>) {
    forall t :: HasPostings(terms, t, Collected(hash, blanks, documents, t))
  }

  predicate HasPostings(terms: Terms, t: Text, list: PostingList) {
    PostingsOf(terms, t) == list && (t in terms <==> list != [])
  }

  // ----- building -----

  method BuildPositions(hash: Hash, blanks: E.Blanks, documents: seq<Document>) returns (index: InvertedIndex)
    ensures fresh(index) && IsIndexOf(index.terms, hash, blanks, documents)
  {
    index := new InvertedIndex();
    for i := 0 to |documents|
      invariant fresh(index) && IsIndexOf(index.terms, hash, blanks, documents[..i])
    {
      ghost var before := index.terms;
      var (id, source) := documents[i];
      var offsets := E.ExtractPositions(blanks, source);
      InsertDocument(index, hash(id), offsets);
      assert documents[..i + 1] == documents[..i] + [documents[i]];
      OneDocumentMore(before, index.terms, hash, blanks, documents[..i], documents[i]);
    }
    assert documents[..|documents|] == documents;
  }

  lemma OneDocumentMore(before: Terms, after: Terms, hash: Hash, blanks: E.Blanks, documents: seq<Document>,
                        document: Document)
    requires IsIndexOf(before, hash, blanks, documents)
    requires AreExtended(before, after, hash(document.0), E.Extracted(blanks, document.1))
    ensures IsIndexOf(after, hash, blanks, documents + [document])
  {
    assert (documents + [document])[..|documents|] == documents;
    forall t: Text {:trigger Collected(hash, blanks, documents, t)}
      ensures HasPostings(after, t, Collected(hash, blanks, documents + [document], t))
    {
      assert HasPostings(before, t, Collected(hash, blanks, documents, t));
      assert IsExtended(before, after, hash(document.0), OffsetsOfTerm(blanks, document, t), t);
      SomePostings(hash(document.0), OffsetsOfTerm(blanks, document, t));
    }
  }

  lemma SomePostings(docId: u64, offsets: seq<u32>)
    ensures SinglePostings(docId, offsets) == [] <==> offsets == []
  {
  }

  /** One term's list is longer by these postings. */
  predicate IsExtended(before: Terms, after: Terms, docId: u64, offsets: seq<u32>, t: Text) {
    && PostingsOf(after, t) == PostingsOf(before, t) + SinglePostings(docId, offsets)
    && (t in after <==> t in before || offsets != [])
  }

  ghost predicate AreExtended(before: Terms, after: Terms, docId: u64, offsets: E.Offsets) {
    forall t :: IsExtended(before, after, docId, E.RecordedFor(offsets, t), t)
  }

  function Only(offsets: E.Offsets, terms: seq<Text>): E.Offsets {
    map t | t in offsets && t in terms :: offsets[t]
  }

  /** All offsets of one document, term after term. */
  method InsertDocument(index: InvertedIndex, docId: u64, offsets: E.Offsets)
    modifies index
    ensures AreExtended(old(index.terms), index.terms, docId, offsets)
  {
    var order := SortedKeys(offsets.Keys);
    KeysAreListed(offsets, order);
    for k := 0 to |order|
      invariant AreExtended(old(index.terms), index.terms, docId, Only(offsets, order[..k]))
    {
      ghost var before := index.terms;
      InsertTerm(index, order[k], docId, offsets[order[k]]);
      OneTermMore(old(index.terms), before, index.terms, docId, offsets, order, k);
    }
  }

  lemma KeysAreListed(offsets: E.Offsets, order: seq<Text>)
    requires order == Ascending(offsets.Keys)
    ensures StrictlySorted(order) && forall k :: 0 <= k < |order| ==> order[k] in offsets
    ensures Only(offsets, order[..0]) == map[] && Only(offsets, order[..|order|]) == offsets
  {
    AscendingLists(offsets.Keys);
    AscendingIsSorted(offsets.Keys);
    assert order[..|order|] == order;
    forall k | 0 <= k < |order| ensures order[k] in offsets {
      assert order[k] in order;
    }
  }

  lemma OneTermMore(start: Terms, before: Terms, after: Terms, docId: u64, offsets: E.Offsets, order: seq<Text>, k: nat)
    requires StrictlySorted(order) && k < |order| && order[k] in offsets
    requires AreExtended(start, before, docId, Only(offsets, order[..k]))
    requires IsExtended(before, after, docId, offsets[order[k]], order[k]) && AreSameBeside(before, after, order[k])
    ensures AreExtended(start, after, docId, Only(offsets, order[..k + 1]))
  {
    var taken, next := Only(offsets, order[..k]), Only(offsets, order[..k + 1]);
    OnlyNext(offsets, order, k);
    forall t: Text {:trigger E.RecordedFor(next, t)}
      ensures IsExtended(start, after, docId, E.RecordedFor(next, t), t)
    {
      assert IsExtended(start, before, docId, E.RecordedFor(taken, t), t);
      if t == order[k] {
        ExtendedOnce(start, before, after, docId, offsets[t], t);
      } else {
        ExtendedBeside(start, before, after, docId, E.RecordedFor(taken, t), order[k], t);
      }
    }
  }

  lemma ExtendedOnce(start: Terms, before: Terms, after: Terms, docId: u64, offsets: seq<u32>, t: Text)
    requires IsExtended(start, before, docId, [], t) && IsExtended(before, after, docId, offsets, t)
    ensures IsExtended(start, after, docId, offsets, t)
  {
    assert PostingsOf(start, t) + [] == PostingsOf(start, t);
  }

  lemma ExtendedBeside(start: Terms, before: Terms, after: Terms, docId: u64, offsets: seq<u32>, term: Text, t: Text)
    requires IsExtended(start, before, docId, offsets, t) && AreSameBeside(before, after, term) && t != term
    ensures IsExtended(start, after, docId, offsets, t)
  {
    assert PostingsOf(after, t) == PostingsOf(before, t);
  }

  lemma OnlyNext(offsets: E.Offsets, order: seq<Text>, k: nat)
    requires StrictlySorted(order) && k < |order| && order[k] in offsets
    ensures order[k] !in Only(offsets, order[..k])
    ensures Only(offsets, order[..k + 1]) == Only(offsets, order[..k])[order[k] := offsets[order[k]]]
  {
    NotYet(order, k);
    assert order[..k + 1] == order[..k] + [order[k]];
  }

  ghost predicate AreSameBeside(before: Terms, after: Terms, term: Text) {
    forall t :: t != term ==> PostingsOf(after, t) == PostingsOf(before, t) && (t in after <==> t in before)
  }

  method InsertTerm(index: InvertedIndex, term: Text, docId: u64, offsets: seq<u32>)
    modifies index
    ensures IsExtended(old(index.terms), index.terms, docId, offsets, term)
    ensures AreSameBeside(old(index.terms), index.terms, term)
  {
    for j := 0 to |offsets|
      invariant IsExtended(old(index.terms), index.terms, docId, offsets[..j], term)
      invariant AreSameBeside(old(index.terms), index.terms, term)
    {
      assert offsets[..j + 1][..j] == offsets[..j];
      index.Insert(term, docId, [offsets[j]]);
    }
    assert offsets[..|offsets|] == offsets;
  }

  // ----- reading one document back -----

  lemma {:induction false} OffsetsInConcat(a: PostingList, b: PostingList, docId: u64)
    ensures OffsetsIn(a + b, docId) == OffsetsIn(a, docId) + OffsetsIn(b, docId)
  {
    if a == [] {
      assert a + b == b;
    } else {
      assert (a + b)[1..] == a[1..] + b;
      OffsetsInConcat(a[1..], b, docId);
    }
  }

  lemma {:induction false} OffsetsOfSingle(id: u64, offsets: seq<u32>, docId: u64)
    ensures OffsetsIn(SinglePostings(id, offsets), docId) == if id == docId then offsets else []
  {
    if offsets != [] {
      var front, last := offsets[..|offsets| - 1], offsets[|offsets| - 1];
      OffsetsOfSingle(id, front, docId);
      OffsetsInConcat(SinglePostings(id, front), [NewPosting(id, [last])], docId);
      assert OffsetsIn([NewPosting(id, [last])], docId) == if id == docId then [last] else [] by {
        assert [NewPosting(id, [last])][1..] == [];
      }
      assert front + [last] == offsets;
    }
  }

  ghost predicate ToldApart(hash: Hash, documents: seq<Document>) {
    forall i, j :: 0 <= i < j < |documents| ==> hash(documents[i].0) != hash(documents[j].0)
  }

  lemma OffsetsOfLast(hash: Hash, blanks: E.Blanks, documents: seq<Document>, t: Text, docId: u64, front: seq<u32>)
    requires documents != []
    requires front == OffsetsIn(Collected(hash, blanks, documents[..|documents| - 1], t), docId)
    ensures var last := documents[|documents| - 1];
            OffsetsIn(Collected(hash, blanks, documents, t), docId)
            == front + if hash(last.0) == docId then OffsetsOfTerm(blanks, last, t) else []
  {
    var last := documents[|documents| - 1];
    var added := SinglePostings(hash(last.0), OffsetsOfTerm(blanks, last, t));
    OffsetsInConcat(Collected(hash, blanks, documents[..|documents| - 1], t), added, docId);
    OffsetsOfSingle(hash(last.0), OffsetsOfTerm(blanks, last, t), docId);
  }

  lemma {:induction false} OffsetsOfOthers(hash: Hash, blanks: E.Blanks, documents: seq<Document>, t: Text, docId: u64)
    requires forall i :: 0 <= i < |documents| ==> hash(documents[i].0) != docId
    ensures OffsetsIn(Collected(hash, blanks, documents, t), docId) == []
  {
    if documents != [] {
      OffsetsOfOthers(hash, blanks, documents[..|documents| - 1], t, docId);
      OffsetsOfLast(hash, blanks, documents, t, docId, []);
    }
  }

  /** Among all postings of a term, those of one document hold exactly the offsets extracted from it. */
  lemma {:induction false} OffsetsOfOneDocument(hash: Hash, blanks: E.Blanks, documents: seq<Document>, t: Text, k: nat)
    requires ToldApart(hash, documents) && k < |documents|
    ensures OffsetsIn(Collected(hash, blanks, documents, t), hash(documents[k].0))
         == OffsetsOfTerm(blanks, documents[k], t)
  {
    var docId, n, offsets := hash(documents[k].0), |documents| - 1, OffsetsOfTerm(blanks, documents[k], t);
    if k == n {
      OffsetsOfOthers(hash, blanks, documents[..n], t, docId);
      OffsetsOfLast(hash, blanks, documents, t, docId, []);
      assert [] + offsets == offsets;
    } else {
      OffsetsOfOneDocument(hash, blanks, documents[..n], t, k);
      OffsetsOfLast(hash, blanks, documents, t, docId, offsets);
      assert offsets + [] == offsets;
    }
  }

  /** The file of an index of documents, as a reader has it. */
  ghost predicate IsReaderOf(reader: Reader, utf8: Utf8, hash: Hash, blanks: E.Blanks, documents: seq<Document>,
                             terms: Terms)
  {
    && ToldApart(hash, documents) && IsIndexOf(terms, hash, blanks, documents)
    && Storable(terms) && (forall t :: t in terms ==> utf8(t))
    && |P.Encode(terms)| < TWO_64 && P.FromBytes(utf8, P.Encode(terms)) == Ok(reader)
  }

  /** What the phrase check finds for a document in the sidecar is what was extracted from the document. */
  lemma RecordedOnDisk(reader: Reader, utf8: Utf8, hash: Hash, blanks: E.Blanks, documents: seq<Document>,
                       terms: Terms, k: nat, t: Text)
    requires IsReaderOf(reader, utf8, hash, blanks, documents, terms) && k < |documents|
    ensures RecordedIn(reader, hash(documents[k].0))(t)
         == if t in terms then Some(OffsetsOfTerm(blanks, documents[k], t)) else None
    ensures t !in terms ==> OffsetsOfTerm(blanks, documents[k], t) == []
  {
    var found := FileReadsBack(utf8, terms, t, P.Encode(terms));
    assert HasPostings(terms, t, Collected(hash, blanks, documents, t));
    OffsetsOfOneDocument(hash, blanks, documents, t, k);
  }

  // ----- phrases -----

  /** The text from which a document's offsets of a token are. */
  function TextOf(blanks: E.Blanks, fields: seq<(Text, Json)>, t: Text): (text: Text)
    requires E.LastText(blanks, fields, t).Some?
  {
    E.Lower(fields[E.LastText(blanks, fields, t).value].1.s)
  }

  predicate StandsAt(blanks: E.Blanks, fields: seq<(Text, Json)>, t: Text, p: u32) {
    E.LastText(blanks, fields, t).Some? && E.Occurs(TextOf(blanks, fields, t), t, p)
  }

  lemma FoundStands(reader: Reader, utf8: Utf8, hash: Hash, blanks: E.Blanks, documents: seq<Document>,
                    terms: Terms, k: nat, t: Text, p: u32)
    requires IsReaderOf(reader, utf8, hash, blanks, documents, terms) && k < |documents| && documents[k].1.Object?
    requires Has(RecordedIn(reader, hash(documents[k].0)), t, p)
    ensures StandsAt(blanks, documents[k].1.fields, t, p)
  {
    RecordedOnDisk(reader, utf8, hash, blanks, documents, terms, k, t);
    E.ExtractedPositionsOccur(blanks, documents[k].1.fields, t, p, t => false);
  }

  /** A phrase found in the sidecar: each token stands at its offset in the last text of the document that has
      it, one or two bytes behind the token before. */
  lemma PhraseEndToEnd(reader: Reader, utf8: Utf8, hash: Hash, blanks: E.Blanks, documents: seq<Document>,
                       terms: Terms, k: nat, tokens: seq<Text>)
    returns (ps: seq<u32>)
    requires IsReaderOf(reader, utf8, hash, blanks, documents, terms) && k < |documents| && documents[k].1.Object?
    requires tokens != [] && Short(tokens)
    requires Consecutive(RecordedIn(reader, hash(documents[k].0)), tokens).Some?
    ensures |ps| == |tokens|
    ensures forall i :: 0 <= i < |ps| ==> StandsAt(blanks, documents[k].1.fields, tokens[i], ps[i])
    ensures forall i :: 0 < i < |ps| ==> Near(ps[i - 1], |tokens[i - 1]|, ps[i])
  {
    var recorded := RecordedIn(reader, hash(documents[k].0));
    ps := SuccessIsPhrase(recorded, tokens);
    PartsOfPhrase(recorded, tokens, ps);
    forall i | 0 <= i < |ps| ensures StandsAt(blanks, documents[k].1.fields, tokens[i], ps[i]) {
      FoundStands(reader, utf8, hash, blanks, documents, terms, k, tokens[i], ps[i]);
    }
  }

  lemma PartsOfPhrase(recorded: Recorded, tokens: seq<Text>, ps: seq<u32>)
    requires IsPhrase(recorded, tokens, 0, ps)
    ensures |ps| == |tokens|
    ensures forall i :: 0 <= i < |ps| ==> Has(recorded, tokens[i], ps[i])
    ensures forall i :: 0 < i < |ps| ==> Near(ps[i - 1], |tokens[i - 1]|, ps[i])
  {
    forall i | 0 <= i < |ps| ensures Has(recorded, tokens[i], ps[i]) {
      PhraseParts(recorded, tokens, 0, ps, i);
    }
    forall i | 0 < i < |ps| ensures Near(ps[i - 1], |tokens[i - 1]|, ps[i]) {
      PhraseParts(recorded, tokens, 0, ps, i - 1);
    }
  }

  ghost predicate IsWord(text: Text, mask: seq<bool>, t: Text, p: u32)
    requires |mask| == |text|
  {
    E.IsToken(mask, p, p + |t|) && text[p..p + |t|] == t
  }

  /** The tokens stand in one text as stretches between white space, one or two bytes apart. */
  ghost predicate IsWritten(text: Text, mask: seq<bool>, tokens: seq<Text>, ps: seq<u32>) {
    && |mask| == |text| && |ps| == |tokens|
    && (forall i :: 0 <= i < |ps| ==> IsWord(text, mask, tokens[i], ps[i]))
    && forall i :: 0 < i < |ps| ==> Near(ps[i - 1], |tokens[i - 1]|, ps[i])
  }

  /** The last text of the document with this token, in characters. */
  ghost predicate IsTextWith(blanks: E.Blanks, fields: seq<(Text, Json)>, l: nat, t: Text, space: Text -> bool) {
    && l < |fields| && fields[l].1.Str?
    && E.IsUtf8(fields[l].1.s)
    && E.IsByCharacter(E.Lower(fields[l].1.s), E.Mask(blanks, fields[l].1.s), space)
    && forall m :: l < m < |fields| ==> !E.HasTerm(blanks, fields[m], t)
  }

  /** A phrase written in a UTF-8 text that is the last one of its document with each of the tokens is found
      in the sidecar, if the greedy check is unambiguous there. */
  lemma WrittenPhraseIsFound(reader: Reader, utf8: Utf8, hash: Hash, blanks: E.Blanks, documents: seq<Document>,
                             terms: Terms, k: nat, tokens: seq<Text>, l: nat, ps: seq<u32>, space: Text -> bool)
    requires IsReaderOf(reader, utf8, hash, blanks, documents, terms) && k < |documents| && documents[k].1.Object?
    requires tokens != [] && Short(tokens) && Unambiguous(RecordedIn(reader, hash(documents[k].0)), tokens)
    requires forall i :: 0 <= i < |tokens| ==> IsTextWith(blanks, documents[k].1.fields, l, tokens[i], space)
    requires l < |documents[k].1.fields| && documents[k].1.fields[l].1.Str?
    requires var text := documents[k].1.fields[l].1.s; IsWritten(E.Lower(text), E.Mask(blanks, text), tokens, ps)
    ensures Consecutive(RecordedIn(reader, hash(documents[k].0)), tokens).Some?
  {
    var recorded := RecordedIn(reader, hash(documents[k].0));
    forall i | 0 <= i < |ps| ensures Has(recorded, tokens[i], ps[i]) {
      WrittenIsRecorded(reader, utf8, hash, blanks, documents, terms, k, l, tokens[i], ps[i], space);
    }
    PartsAreFound(recorded, tokens, ps);
  }

  lemma PartsAreFound(recorded: Recorded, tokens: seq<Text>, ps: seq<u32>)
    requires tokens != [] && Short(tokens) && Unambiguous(recorded, tokens) && |ps| == |tokens|
    requires forall i :: 0 <= i < |ps| ==> Has(recorded, tokens[i], ps[i])
    requires forall i :: 0 < i < |ps| ==> Near(ps[i - 1], |tokens[i - 1]|, ps[i])
    ensures Consecutive(recorded, tokens).Some?
  {
    PartsArePhrase(recorded, tokens, 0, ps);
    assert HasPhrase(recorded, tokens);
    ConsecutiveExactlyWhen(recorded, tokens);
  }

  lemma WrittenIsRecorded(reader: Reader, utf8: Utf8, hash: Hash, blanks: E.Blanks, documents: seq<Document>,
                          terms: Terms, k: nat, l: nat, t: Text, p: u32, space: Text -> bool)
    requires IsReaderOf(reader, utf8, hash, blanks, documents, terms) && k < |documents| && documents[k].1.Object?
    requires IsTextWith(blanks, documents[k].1.fields, l, t, space)
    requires var text := documents[k].1.fields[l].1.s; IsWord(E.Lower(text), E.Mask(blanks, text), t, p)
    ensures Has(RecordedIn(reader, hash(documents[k].0)), t, p)
  {
    WrittenIsExtracted(blanks, documents[k].1.fields, l, t, p, space);
    RecordedOnDisk(reader, utf8, hash, blanks, documents, terms, k, t);
  }

  lemma WrittenIsExtracted(blanks: E.Blanks, fields: seq<(Text, Json)>, l: nat, t: Text, p: u32, space: Text -> bool)
    requires IsTextWith(blanks, fields, l, t, space)
    requires var text := fields[l].1.s; IsWord(E.Lower(text), E.Mask(blanks, text), t, p)
    ensures p in E.RecordedFor(E.FieldsExtracted(blanks, fields), t)
  {
    var text := fields[l].1.s;
    assert p in E.TextOffsets(blanks, text)[t] && E.HasTerm(blanks, fields[l], t) by {
      E.LowerIsUtf8(text);
      E.CharacterwiseIsConsistent(E.Lower(text), E.Mask(blanks, text), space);
      E.StretchesAreRecorded(E.Lower(text), E.Mask(blanks, text), p, p + |t|);
    }
    E.LastTextWins(blanks, fields, t);
  }
}
