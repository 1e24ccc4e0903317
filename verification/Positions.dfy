// The positions sidecar: the inverted index, its file format, and reading posting lists back through the
// term dictionary.
module Positions {
  import opened Bytes
  import opened ByteReading
  import opened Values
  import opened Texts

  const MAGIC: u32 := 0x504F_5349
  const VERSION: u8 := 1

  datatype Posting = Posting(docId: u64, positions: seq<u32>, termFreq: u32)

  type PostingList = seq<Posting>

  type Terms = map<Text, PostingList>

  /** `len() as u32` keeps the low 32 bits. */
  function Truncated(n: nat): u32 {
    n % 0x1_0000_0000
  }

  function PostingsOf(terms: Terms, term: Text): PostingList {
    if term in terms then terms[term] else []
  }

  function NewPosting(docId: u64, positions: seq<u32>): Posting {
    Posting(docId, positions, Truncated(|positions|))
  }

  function Appended(terms: Terms, term: Text, posting: Posting): Terms {
    terms[term := PostingsOf(terms, term) + [posting]]
  }

  /** An inserted posting stands behind those its term has already, counts its positions up to 32 bits, and
      leaves the other terms alone. */
  lemma InsertedStandsBehind(terms: Terms, term: Text, docId: u64, positions: seq<u32>)
    ensures var after := Appended(terms, term, NewPosting(docId, positions));
            var posting := Posting(docId, positions, |positions| % 0x1_0000_0000);
            && after.Keys == terms.Keys + {term}
            && (forall t :: t in terms && t != term ==> after[t] == terms[t])
            && (term in terms ==> after[term] == terms[term] + [posting])
            && (term !in terms ==> after[term] == [posting])
  {
  }

  class InvertedIndex {
    var terms: Terms

    constructor ()
      ensures terms == map[]
    {
      terms := map[];
    }

    /** Appends one posting to the list of its term. */
    method Insert(term: Text, docId: u64, positions: seq<u32>)
      modifies this
      ensures terms == Appended(old(terms), term, NewPosting(docId, positions))
    {
      var posting := NewPosting(docId, positions);
      if term !in terms {
        terms := terms[term := []];
      }
      terms := terms[term := terms[term] + [posting]];
    }
  }

  // ----- the file format -----

  function EncodeOffsets(positions: seq<u32>): seq<u8> {
    if positions == [] then [] else U32Bytes(positions[0]) + EncodeOffsets(positions[1..])
  }

  function EncodePosting(p: Posting): seq<u8>
    requires |p.positions| < 0x1_0000_0000
  {
    U64Bytes(p.docId) + (U32Bytes(p.termFreq) + (U32Bytes(|p.positions|) + EncodeOffsets(p.positions)))
  }

  predicate Fits(list: PostingList) {
    |list| < 0x1_0000_0000 && forall i :: 0 <= i < |list| ==> |list[i].positions| < 0x1_0000_0000
  }

  function EncodePostings(list: PostingList): seq<u8>
    requires forall i :: 0 <= i < |list| ==> |list[i].positions| < 0x1_0000_0000
  {
    if list == [] then [] else EncodePosting(list[0]) + EncodePostings(list[1..])
  }

  function EncodeList(list: PostingList): seq<u8>
    requires Fits(list)
  {
    U32Bytes(|list|) + EncodePostings(list)
  }

  // ----- reading posting lists -----

  function ReadOffsets(data: seq<u8>, pos: nat, count: nat): seq<u32>
    requires pos + count * 4 <= |data|
    decreases count
  {
    if count == 0 then [] else [U32At(data, pos)] + ReadOffsets(data, pos + 4, count - 1)
  }

  function ReadPosting(data: seq<u8>, pos: nat): (r: Option<(Posting, nat)>)
    ensures r.Some? ==> pos < r.value.1 <= |data|
  {
    if pos + 16 > |data| then None
    else
      var count := U32At(data, pos + 12);
      if pos + 16 + count * 4 > |data| then None
      else
        Some((Posting(U64At(data, pos), ReadOffsets(data, pos + 16, count), U32At(data, pos + 8)),
              pos + 16 + count * 4))
  }

  function ReadPostings(data: seq<u8>, pos: nat, count: nat): Option<PostingList>
    decreases count
  {
    if count == 0 then Some([])
    else
      match ReadPosting(data, pos)
      case None => None
      case Some((posting, next)) =>
        match ReadPostings(data, next, count - 1)
        case None => None
        case Some(rest) => Some([posting] + rest)
  }

  function ReadList(body: seq<u8>, offset: nat): Option<PostingList> {
    if offset >= |body| || |body| - offset < 4 then None
    else ReadPostings(body[offset..], 4, U32At(body[offset..], 0))
  }

  // ----- the dictionary -----

  datatype ParseError = TooShort | InvalidMagic | UnsupportedVersion | TruncatedEntry | InvalidUtf8

  datatype Reader = Reader(dictionary: map<Text, u64>, body: seq<u8>)

  function ReadEntry(utf8: Utf8, data: seq<u8>, pos: nat): (r: Result<(Text, u64, nat), ParseError>)
    ensures r.Ok? ==> pos < r.value.2 <= |data|
  {
    if pos + 4 > |data| then Err(TruncatedEntry)
    else
      var length := U32At(data, pos);
      if pos + 4 + length > |data| then Err(TruncatedEntry)
      else
        var term := data[pos + 4..pos + 4 + length];
        if !utf8(term) then Err(InvalidUtf8)
        else if pos + 4 + length + 8 > |data| then Err(TruncatedEntry)
        else Ok((term, U64At(data, pos + 4 + length), pos + 12 + length))
  }

  function ReadEntries(utf8: Utf8, data: seq<u8>, pos: nat, count: nat, dictionary: map<Text, u64>)
    : (r: Result<Reader, ParseError>)
    requires pos <= |data|
    decreases count
  {
    if count == 0 then Ok(Reader(dictionary, data[pos..]))
    else
      var entry :- ReadEntry(utf8, data, pos);
      ReadEntries(utf8, data, entry.2, count - 1, dictionary[entry.0 := entry.1])
  }

  function FromBytes(utf8: Utf8, data: seq<u8>): Result<Reader, ParseError> {
    if |data| < 12 then Err(TooShort)
    else if U32At(data, 0) != MAGIC then Err(InvalidMagic)
    else if data[4] != VERSION then Err(UnsupportedVersion)
    else ReadEntries(utf8, data, 12, U32At(data, 8), map[])
  }

  function Get(reader: Reader, term: Text): Option<PostingList> {
    if term in reader.dictionary then ReadList(reader.body, reader.dictionary[term]) else None
  }

  // ----- a posting list reads back -----

  lemma {:induction false} OffsetsReadBack(data: seq<u8>, pos: nat, positions: seq<u32>)
    requires Stands(data, pos, EncodeOffsets(positions))
    ensures |EncodeOffsets(positions)| == |positions| * 4
    ensures ReadOffsets(data, pos, |positions|) == positions
    decreases |positions|
  {
    if positions != [] {
      PartsStand(data, pos, U32Bytes(positions[0]), EncodeOffsets(positions[1..]));
      U32Stands(data, pos, positions[0]);
      OffsetsReadBack(data, pos + 4, positions[1..]);
    }
  }

  lemma PostingReadsBack(data: seq<u8>, pos: nat, p: Posting)
    requires |p.positions| < 0x1_0000_0000 && Stands(data, pos, EncodePosting(p))
    ensures ReadPosting(data, pos) == Some((p, pos + |EncodePosting(p)|))
  {
    var offsets := EncodeOffsets(p.positions);
    var counted := U32Bytes(|p.positions|) + offsets;
    PartsStand(data, pos, U64Bytes(p.docId), U32Bytes(p.termFreq) + counted);
    PartsStand(data, pos + 8, U32Bytes(p.termFreq), counted);
    PartsStand(data, pos + 12, U32Bytes(|p.positions|), offsets);
    U64Stands(data, pos, p.docId);
    U32Stands(data, pos + 8, p.termFreq);
    U32Stands(data, pos + 12, |p.positions|);
    OffsetsReadBack(data, pos + 16, p.positions);
  }

  lemma FirstPostingReadsBack(data: seq<u8>, pos: nat, p: Posting, rest: seq<u8>) returns (next: nat)
    requires |p.positions| < 0x1_0000_0000 && Stands(data, pos, EncodePosting(p) + rest)
    ensures next == pos + |EncodePosting(p)| && ReadPosting(data, pos) == Some((p, next)) && Stands(data, next, rest)
  {
    PartsStand(data, pos, EncodePosting(p), rest);
    PostingReadsBack(data, pos, p);
    next := pos + |EncodePosting(p)|;
  }

  lemma OnePostingMore(data: seq<u8>, pos: nat, p: Posting, next: nat, rest: PostingList)
    requires ReadPosting(data, pos) == Some((p, next)) && ReadPostings(data, next, |rest|) == Some(rest)
    ensures ReadPostings(data, pos, |rest| + 1) == Some([p] + rest)
  {
  }

  lemma {:induction false} PostingsReadBack(data: seq<u8>, pos: nat, list: PostingList)
    requires forall i :: 0 <= i < |list| ==> |list[i].positions| < 0x1_0000_0000
    requires Stands(data, pos, EncodePostings(list))
    ensures ReadPostings(data, pos, |list|) == Some(list)
    decreases |list|
  {
    if list != [] {
      var next := FirstPostingReadsBack(data, pos, list[0], EncodePostings(list[1..]));
      PostingsReadBack(data, next, list[1..]);
      OnePostingMore(data, pos, list[0], next, list[1..]);
      assert [list[0]] + list[1..] == list;
    }
  }

  /** A posting list reads back from wherever it stands in the body. */
  lemma ListReadsBack(body: seq<u8>, offset: nat, list: PostingList)
    requires Fits(list) && Stands(body, offset, EncodeList(list))
    ensures ReadList(body, offset) == Some(list)
  {
    var data := body[offset..];
    SuffixStands(body, offset, offset, EncodeList(list));
    PartsStand(data, 0, U32Bytes(|list|), EncodePostings(list));
    U32Stands(data, 0, |list|);
    PostingsReadBack(data, 4, list);
  }

  // ----- the dictionary reads back -----

  /** A term and where its posting list starts in the body. */
  type Entry = (Text, nat)

  function EntryBytes(entry: Entry): seq<u8>
    requires |entry.0| < 0x1_0000_0000
  {
    U32Bytes(|entry.0|) + (entry.0 + U64Bytes(entry.1 % TWO_64))
  }

  predicate ShortTerms(entries: seq<Entry>) {
    forall i :: 0 <= i < |entries| ==> |entries[i].0| < 0x1_0000_0000
  }

  function EncodeEntries(entries: seq<Entry>): seq<u8>
    requires ShortTerms(entries)
  {
    if entries == [] then [] else EntryBytes(entries[0]) + EncodeEntries(entries[1..])
  }

  function WithEntries(dictionary: map<Text, u64>, entries: seq<Entry>): map<Text, u64>
    decreases |entries|
  {
    if entries == [] then dictionary
    else WithEntries(dictionary[entries[0].0 := entries[0].1 % TWO_64], entries[1..])
  }

  lemma EntryReadsBack(utf8: Utf8, data: seq<u8>, pos: nat, entry: Entry)
    requires |entry.0| < 0x1_0000_0000 && utf8(entry.0) && Stands(data, pos, EntryBytes(entry))
    ensures ReadEntry(utf8, data, pos) == Ok((entry.0, entry.1 % TWO_64, pos + |EntryBytes(entry)|))
  {
    var (term, offset) := entry;
    PartsStand(data, pos, U32Bytes(|term|), term + U64Bytes(offset % TWO_64));
    PartsStand(data, pos + 4, term, U64Bytes(offset % TWO_64));
    U32Stands(data, pos, |term|);
    SliceStands(data, pos + 4, term);
    U64Stands(data, pos + 4 + |term|, offset % TWO_64);
  }

  lemma NextEntry(utf8: Utf8, data: seq<u8>, pos: nat, entry: Entry, next: nat, count: nat,
                  dictionary: map<Text, u64>, r: Result<Reader, ParseError>)
    requires pos <= |data| && ReadEntry(utf8, data, pos) == Ok((entry.0, entry.1 % TWO_64, next))
    requires ReadEntries(utf8, data, next, count, dictionary[entry.0 := entry.1 % TWO_64]) == r
    ensures ReadEntries(utf8, data, pos, count + 1, dictionary) == r
  {
  }

  lemma {:induction false} EntriesReadBack(utf8: Utf8, data: seq<u8>, pos: nat, entries: seq<Entry>,
                                           dictionary: map<Text, u64>, whole: Reader)
    requires ShortTerms(entries) && (forall i :: 0 <= i < |entries| ==> utf8(entries[i].0))
    requires Stands(data, pos, EncodeEntries(entries))
    requires whole == Reader(WithEntries(dictionary, entries), data[pos + |EncodeEntries(entries)|..])
    ensures ReadEntries(utf8, data, pos, |entries|, dictionary) == Ok(whole)
    decreases |entries|
  {
    if entries != [] {
      var next := pos + |EntryBytes(entries[0])|;
      PartsStand(data, pos, EntryBytes(entries[0]), EncodeEntries(entries[1..]));
      EntryReadsBack(utf8, data, pos, entries[0]);
      EntriesReadBack(utf8, data, next, entries[1..], dictionary[entries[0].0 := entries[0].1 % TWO_64], whole);
      NextEntry(utf8, data, pos, entries[0], next, |entries| - 1, dictionary, Ok(whole));
    }
  }

  ghost predicate DistinctTerms(entries: seq<Entry>) {
    forall i, j :: 0 <= i < j < |entries| ==> entries[i].0 != entries[j].0
  }

  /** With distinct terms the dictionary holds every entry, and what it held for other terms. */
  lemma {:induction false} EntriesAreFound(dictionary: map<Text, u64>, entries: seq<Entry>, k: nat, d: map<Text, u64>)
    requires DistinctTerms(entries) && k < |entries| && d == WithEntries(dictionary, entries)
    ensures entries[k].0 in d && d[entries[k].0] == entries[k].1 % TWO_64
    decreases |entries|
  {
    var next := dictionary[entries[0].0 := entries[0].1 % TWO_64];
    if k > 0 {
      EntriesAreFound(next, entries[1..], k - 1, d);
    } else {
      OthersStay(next, entries[1..], entries[0].0, d);
    }
  }

  lemma {:induction false} OthersStay(dictionary: map<Text, u64>, entries: seq<Entry>, term: Text, d: map<Text, u64>)
    requires (forall i :: 0 <= i < |entries| ==> entries[i].0 != term) && d == WithEntries(dictionary, entries)
    ensures term in d <==> term in dictionary
    ensures term in d ==> d[term] == dictionary[term]
    decreases |entries|
  {
    if entries != [] {
      OthersStay(dictionary[entries[0].0 := entries[0].1 % TWO_64], entries[1..], term, d);
    }
  }

  // ----- the whole file -----

  ghost predicate Listed(terms: Terms, order: seq<Text>, k: nat)
    requires k <= |order|
  {
    forall i :: 0 <= i < k ==> order[i] in terms && Fits(terms[order[i]])
  }

  ghost function BodyUpTo(terms: Terms, order: seq<Text>, k: nat): seq<u8>
    requires k <= |order| && Listed(terms, order, k)
  {
    if k == 0 then [] else BodyUpTo(terms, order, k - 1) + EncodeList(terms[order[k - 1]])
  }

  ghost function EntriesUpTo(terms: Terms, order: seq<Text>, k: nat): (entries: seq<Entry>)
    requires k <= |order| && Listed(terms, order, k)
    ensures |entries| == k
  {
    if k == 0 then []
    else EntriesUpTo(terms, order, k - 1) + [(order[k - 1], |BodyUpTo(terms, order, k - 1)|)]
  }

  function Header(count: u32): (h: seq<u8>)
    ensures |h| == 12
  {
    U32Bytes(MAGIC) + [VERSION, 0, 0, 0] + U32Bytes(count)
  }

  /** What the format can hold: every count fits its 32 bits. */
  ghost predicate Storable(terms: Terms) {
    && |terms| < 0x1_0000_0000
    && forall t :: t in terms ==> |t| < 0x1_0000_0000 && Fits(terms[t])
  }

  lemma CountsFitExactlyWhen(terms: Terms)
    ensures Storable(terms) <==>
              && |terms| < 0x1_0000_0000
              && (forall t :: t in terms ==> |t| < 0x1_0000_0000 && |terms[t]| < 0x1_0000_0000)
              && (forall t, i :: t in terms && 0 <= i < |terms[t]| ==> |terms[t][i].positions| < 0x1_0000_0000)
  {
  }

  lemma KeysListed(terms: Terms, order: seq<Text>)
    requires order == Ascending(terms.Keys)
    ensures |order| == |terms| && StrictlySorted(order)
    ensures forall t :: t in order <==> t in terms
    ensures forall k :: 0 <= k < |order| ==> order[k] in terms
  {
    AscendingLists(terms.Keys);
    AscendingIsSorted(terms.Keys);
    forall k | 0 <= k < |order| ensures order[k] in terms {
      assert order[k] in order;
    }
  }

  lemma {:induction false} EntryIs(terms: Terms, order: seq<Text>, n: nat, k: nat)
    requires k < n <= |order| && Listed(terms, order, n)
    ensures EntriesUpTo(terms, order, n)[k] == (order[k], |BodyUpTo(terms, order, k)|)
    decreases n
  {
    if k < n - 1 {
      EntryIs(terms, order, n - 1, k);
    }
  }

  lemma EntriesShortExactlyWhen(terms: Terms, order: seq<Text>)
    requires Listed(terms, order, |order|)
    ensures ShortTerms(EntriesUpTo(terms, order, |order|))
       <==> forall k :: 0 <= k < |order| ==> |order[k]| < 0x1_0000_0000
  {
    var entries := EntriesUpTo(terms, order, |order|);
    forall k | 0 <= k < |order| ensures entries[k].0 == order[k] {
      EntryIs(terms, order, |order|, k);
    }
    if ShortTerms(entries) {
      forall k | 0 <= k < |order| ensures |order[k]| < 0x1_0000_0000 {
        assert |entries[k].0| < 0x1_0000_0000;
      }
    }
  }

  /** The lists fit and the terms are short exactly when the terms are storable. */
  lemma StorableExactlyWhen(terms: Terms, order: seq<Text>)
    requires order == Ascending(terms.Keys) && |terms| < 0x1_0000_0000
    ensures Storable(terms) <==>
              Listed(terms, order, |order|) && ShortTerms(EntriesUpTo(terms, order, |order|))
  {
    KeysListed(terms, order);
    if Listed(terms, order, |order|) {
      EntriesShortExactlyWhen(terms, order);
      ShortAndListed(terms, order);
    } else if Storable(terms) {
      StorableIsListed(terms, order);
    }
  }

  lemma StorableIsListed(terms: Terms, order: seq<Text>)
    requires Storable(terms) && forall k :: 0 <= k < |order| ==> order[k] in terms
    ensures Listed(terms, order, |order|)
  {
  }

  lemma ShortAndListed(terms: Terms, order: seq<Text>)
    requires (forall t :: t in order <==> t in terms) && |terms| < 0x1_0000_0000 && Listed(terms, order, |order|)
    ensures Storable(terms) <==> forall k :: 0 <= k < |order| ==> |order[k]| < 0x1_0000_0000
  {
  }

  ghost function Encode(terms: Terms): seq<u8>
    requires Storable(terms)
  {
    var order := Ascending(terms.Keys);
    StorableExactlyWhen(terms, order);
    KeysListed(terms, order);
    Header(|order|) + (EncodeEntries(EntriesUpTo(terms, order, |order|)) + BodyUpTo(terms, order, |order|))
  }

  lemma {:induction false} BodyStands(terms: Terms, order: seq<Text>, n: nat, k: nat)
    requires k < n <= |order| && Listed(terms, order, n)
    ensures Stands(BodyUpTo(terms, order, n), |BodyUpTo(terms, order, k)|, EncodeList(terms[order[k]]))
    decreases n
  {
    var front, last := BodyUpTo(terms, order, n - 1), EncodeList(terms[order[n - 1]]);
    if k < n - 1 {
      BodyStands(terms, order, n - 1, k);
      FrontStands(front, last, |BodyUpTo(terms, order, k)|, EncodeList(terms[order[k]]));
    } else {
      EndStands(front, last);
    }
  }

  lemma HeaderReads(data: seq<u8>, count: u32, rest: seq<u8>)
    requires data == Header(count) + rest
    ensures |data| >= 12 && U32At(data, 0) == MAGIC && data[4] == VERSION && U32At(data, 8) == count
  {
    assert Stands(data, 0, U32Bytes(MAGIC));
    assert Stands(data, 8, U32Bytes(count));
    U32Stands(data, 0, MAGIC);
    U32Stands(data, 8, count);
  }

  lemma RestStands(data: seq<u8>, header: seq<u8>, dictionary: seq<u8>, body: seq<u8>)
    requires data == header + (dictionary + body)
    ensures Stands(data, |header|, dictionary) && data[|header| + |dictionary|..] == body
  {
  }

  lemma HeaderParses(utf8: Utf8, data: seq<u8>, count: u32, r: Result<Reader, ParseError>)
    requires |data| >= 12 && U32At(data, 0) == MAGIC && data[4] == VERSION && U32At(data, 8) == count
    requires ReadEntries(utf8, data, 12, count, map[]) == r
    ensures FromBytes(utf8, data) == r
  {
  }

  /** A file of entries and a body parses to their dictionary and the body. */
  lemma EncodedParses(utf8: Utf8, entries: seq<Entry>, body: seq<u8>, data: seq<u8>, whole: Reader)
    requires |entries| < 0x1_0000_0000 && ShortTerms(entries)
    requires forall i :: 0 <= i < |entries| ==> utf8(entries[i].0)
    requires data == Header(|entries|) + (EncodeEntries(entries) + body)
    requires whole == Reader(WithEntries(map[], entries), body)
    ensures FromBytes(utf8, data) == Ok(whole)
  {
    HeaderReads(data, |entries|, EncodeEntries(entries) + body);
    RestStands(data, Header(|entries|), EncodeEntries(entries), body);
    EntriesReadBack(utf8, data, 12, entries, map[], whole);
    HeaderParses(utf8, data, |entries|, Ok(whole));
  }

  lemma FoundReadsBack(reader: Reader, term: Text, offset: nat, list: PostingList)
    requires term in reader.dictionary && reader.dictionary[term] == offset
    requires Fits(list) && Stands(reader.body, offset, EncodeList(list))
    ensures Get(reader, term) == Some(list)
  {
    ListReadsBack(reader.body, offset, list);
  }

  lemma EntriesOf(terms: Terms) returns (order: seq<Text>, entries: seq<Entry>, body: seq<u8>)
    requires Storable(terms)
    ensures |entries| == |order| < 0x1_0000_0000 && ShortTerms(entries) && DistinctTerms(entries)
    ensures forall k :: 0 <= k < |order| ==> entries[k].0 == order[k]
    ensures forall t :: t in order <==> t in terms
    ensures Encode(terms) == Header(|entries|) + (EncodeEntries(entries) + body)
    ensures forall k :: 0 <= k < |order| ==>
              order[k] in terms && Fits(terms[order[k]]) && Stands(body, entries[k].1, EncodeList(terms[order[k]]))
  {
    order := Ascending(terms.Keys);
    StorableExactlyWhen(terms, order);
    KeysListed(terms, order);
    entries, body := EntriesUpTo(terms, order, |order|), BodyUpTo(terms, order, |order|);
    forall k | 0 <= k < |order|
      ensures entries[k].0 == order[k] && Stands(body, entries[k].1, EncodeList(terms[order[k]]))
    {
      EntryIs(terms, order, |order|, k);
      BodyStands(terms, order, |order|, k);
    }
    forall i, j | 0 <= i < j < |order| ensures entries[i].0 != entries[j].0 {
      BeforeIsTotal(order[i], order[j]);
    }
  }

  lemma SmallIsKept(n: nat)
    requires n < TWO_64
    ensures n % TWO_64 == n
  {
  }

  /** A term among distinct entries is found with its list, another one is not found. */
  lemma TermReadsBack(entries: seq<Entry>, reader: Reader, k: nat, term: Text, offset: nat, list: PostingList)
    requires DistinctTerms(entries) && reader.dictionary == WithEntries(map[], entries) && |reader.body| < TWO_64
    requires k < |entries| && entries[k] == (term, offset)
    requires Fits(list) && Stands(reader.body, offset, EncodeList(list))
    ensures term in reader.dictionary && Get(reader, term) == Some(list)
  {
    EntriesAreFound(map[], entries, k, reader.dictionary);
    SmallIsKept(offset);
    FoundReadsBack(reader, term, offset, list);
  }

  lemma OtherTermsAreMissing(entries: seq<Entry>, reader: Reader, term: Text)
    requires DistinctTerms(entries) && reader.dictionary == WithEntries(map[], entries)
    requires forall k :: 0 <= k < |entries| ==> entries[k].0 != term
    ensures term !in reader.dictionary && Get(reader, term) == None
  {
    OthersStay(map[], entries, term, reader.dictionary);
  }

  /** For every index within the limits of the format: the parsed file has the same terms, finds for each
      exactly its posting list, and nothing for any other. */
  lemma FileReadsBack(utf8: Utf8, terms: Terms, term: Text, file: seq<u8>) returns (reader: Reader)
    requires Storable(terms) && file == Encode(terms) && |file| < TWO_64 && forall t :: t in terms ==> utf8(t)
    ensures FromBytes(utf8, file) == Ok(reader)
    ensures term in reader.dictionary <==> term in terms
    ensures Get(reader, term) == if term in terms then Some(terms[term]) else None
  {
    var order, entries, body := EntriesOf(terms);
    reader := Reader(WithEntries(map[], entries), body);
    forall i | 0 <= i < |entries| ensures utf8(entries[i].0) {
      assert order[i] in order;
    }
    EncodedParses(utf8, entries, body, file, reader);
    if term in terms {
      var k :| 0 <= k < |order| && order[k] == term;
      TermReadsBack(entries, reader, k, term, entries[k].1, terms[term]);
    } else {
      forall k | 0 <= k < |entries| ensures entries[k].0 != term {
        assert order[k] in order;
      }
      OtherTermsAreMissing(entries, reader, term);
    }
  }

  // ----- the writer -----

  /** What a document adds to the terms. */
  function WithDocument(terms: Terms, docId: u64, document: map<Text, seq<u32>>): Terms {
    map t | t in terms.Keys + document.Keys ::
      if t in document then PostingsOf(terms, t) + [NewPosting(docId, document[t])] else terms[t]
  }

  class PositionsWriter {
    var terms: Terms

    constructor ()
      ensures terms == map[]
    {
      terms := map[];
    }

    method Append(term: Text, posting: Posting)
      modifies this
      ensures terms == Appended(old(terms), term, posting)
    {
      if term !in terms {
        terms := terms[term := []];
      }
      terms := terms[term := terms[term] + [posting]];
    }

    method AddDocument(docId: u64, document: map<Text, seq<u32>>)
      modifies this
      ensures terms == WithDocument(old(terms), docId, document)
    {
      var order := SortedKeys(document.Keys);
      KeysOnce(document, order);
      NoneTaken(terms, docId, document, order);
      for k := 0 to |order|
        invariant terms == AfterTerms(old(terms), docId, document, order, k)
      {
        OneTaken(old(terms), docId, document, order, k);
        Append(order[k], NewPosting(docId, document[order[k]]));
      }
      AllTaken(old(terms), docId, document, order);
    }

    /** The file's bytes, or nothing where a count exceeds its 32 bits. */
    method Build() returns (r: Option<seq<u8>>)
      ensures r == if Storable(terms) then Some(Encode(terms)) else None
    {
      if |terms| >= 0x1_0000_0000 {
        return None;
      }
      var order := SortedKeys(terms.Keys);
      KeysListed(terms, order);
      StorableExactlyWhen(terms, order);
      var lists := BuildBody(terms, order);
      if lists.None? {
        return None;
      }
      var dictionary := BuildDictionary(lists.value.1);
      if dictionary.None? {
        return None;
      }
      r := Some(Header(|order|) + (dictionary.value + lists.value.0));
    }
  }

  /** The loop over the posting lists, noting where each one starts. */
  method BuildBody(terms: Terms, order: seq<Text>) returns (r: Option<(seq<u8>, seq<Entry>)>)
    requires forall k :: 0 <= k < |order| ==> order[k] in terms
    ensures r.Some? <==> Listed(terms, order, |order|)
    ensures r.Some? ==> r.value == (BodyUpTo(terms, order, |order|), EntriesUpTo(terms, order, |order|))
  {
    var body: seq<u8> := [];
    var entries: seq<Entry> := [];
    for k := 0 to |order|
      invariant Listed(terms, order, k)
      invariant body == BodyUpTo(terms, order, k) && entries == EntriesUpTo(terms, order, k)
    {
      entries := entries + [(order[k], |body|)];
      var list := EncodePostingList(terms[order[k]]);
      if list.None? {
        return None;
      }
      body := body + list.value;
    }
    r := Some((body, entries));
  }

  method BuildDictionary(entries: seq<Entry>) returns (r: Option<seq<u8>>)
    ensures r == if ShortTerms(entries) then Some(EncodeEntries(entries)) else None
  {
    var dictionary := [];
    for k := 0 to |entries|
      invariant ShortTerms(entries[..k]) && dictionary == EncodeEntries(entries[..k])
    {
      if |entries[k].0| >= 0x1_0000_0000 {
        return None;
      }
      assert entries[..k + 1] == entries[..k] + [entries[k]];
      OneEntryMore(entries[..k], entries[k]);
      dictionary := dictionary + EntryBytes(entries[k]);
    }
    assert entries[..|entries|] == entries;
    r := Some(dictionary);
  }

  lemma {:induction false} OneEntryMore(entries: seq<Entry>, entry: Entry)
    requires ShortTerms(entries) && |entry.0| < 0x1_0000_0000
    ensures EncodeEntries(entries + [entry]) == EncodeEntries(entries) + EntryBytes(entry)
  {
    if entries == [] {
      assert EncodeEntries([entry][1..]) == [];
    } else {
      assert (entries + [entry])[1..] == entries[1..] + [entry];
      OneEntryMore(entries[1..], entry);
    }
  }

  /** The terms after the first `k` terms of a document. */
  ghost function AfterTerms(terms: Terms, docId: u64, document: map<Text, seq<u32>>, order: seq<Text>, k: nat): Terms
    requires k <= |order|
  {
    WithDocument(terms, docId, map t | t in document && t in order[..k] :: document[t])
  }

  ghost predicate KeysInOrder(document: map<Text, seq<u32>>, order: seq<Text>) {
    && (forall t :: t in order <==> t in document)
    && (forall k :: 0 <= k < |order| ==> order[k] in document)
    && (forall i, j :: 0 <= i < j < |order| ==> order[i] != order[j])
  }

  lemma KeysOnce(document: map<Text, seq<u32>>, order: seq<Text>)
    requires order == Ascending(document.Keys)
    ensures KeysInOrder(document, order)
  {
    AscendingLists(document.Keys);
    AscendingIsSorted(document.Keys);
    forall k | 0 <= k < |order| ensures order[k] in document {
      assert order[k] in order;
    }
    forall i, j | 0 <= i < j < |order| ensures order[i] != order[j] {
      BeforeIsTotal(order[i], order[j]);
    }
  }

  lemma NoneTaken(terms: Terms, docId: u64, document: map<Text, seq<u32>>, order: seq<Text>)
    ensures AfterTerms(terms, docId, document, order, 0) == terms
  {
  }

  lemma OneTaken(terms: Terms, docId: u64, document: map<Text, seq<u32>>, order: seq<Text>, k: nat)
    requires KeysInOrder(document, order) && k < |order|
    ensures AfterTerms(terms, docId, document, order, k + 1)
            == Appended(AfterTerms(terms, docId, document, order, k), order[k], NewPosting(docId, document[order[k]]))
  {
    var more := AfterTerms(terms, docId, document, order, k + 1);
    var appended := Appended(AfterTerms(terms, docId, document, order, k), order[k],
                             NewPosting(docId, document[order[k]]));
    forall t ensures t in more <==> t in appended
             ensures t in more ==> more[t] == appended[t]
    {
      OneTakenAt(terms, docId, document, order, k, t);
    }
  }

  lemma OneTakenAt(terms: Terms, docId: u64, document: map<Text, seq<u32>>, order: seq<Text>, k: nat, t: Text)
    requires KeysInOrder(document, order) && k < |order|
    ensures var more := AfterTerms(terms, docId, document, order, k + 1);
            var appended := Appended(AfterTerms(terms, docId, document, order, k), order[k],
                                     NewPosting(docId, document[order[k]]));
            (t in more <==> t in appended) && (t in more ==> more[t] == appended[t])
  {
    TakenNext(order, k);
  }

  lemma TakenNext(order: seq<Text>, k: nat)
    requires k < |order| && forall i, j :: 0 <= i < j < |order| ==> order[i] != order[j]
    ensures forall t :: t in order[..k + 1] <==> t in order[..k] || t == order[k]
    ensures order[k] !in order[..k]
  {
    assert order[..k + 1] == order[..k] + [order[k]];
  }

  lemma AllTaken(terms: Terms, docId: u64, document: map<Text, seq<u32>>, order: seq<Text>)
    requires KeysInOrder(document, order)
    ensures AfterTerms(terms, docId, document, order, |order|) == WithDocument(terms, docId, document)
  {
  }

  method EncodePostingList(list: PostingList) returns (r: Option<seq<u8>>)
    ensures r == if Fits(list) then Some(EncodeList(list)) else None
  {
    if |list| >= 0x1_0000_0000 {
      return None;
    }
    var bytes := U32Bytes(|list|);
    for i := 0 to |list|
      invariant forall j :: 0 <= j < i ==> |list[j].positions| < 0x1_0000_0000
      invariant bytes == U32Bytes(|list|) + EncodePostings(list[..i])
    {
      var posting := list[i];
      if |posting.positions| >= 0x1_0000_0000 {
        return None;
      }
      EncodeOneMore(list[..i], posting);
      assert list[..i + 1] == list[..i] + [posting];
      var offsets := EncodeAllOffsets(posting.positions);
      bytes := bytes + (U64Bytes(posting.docId)
                        + (U32Bytes(posting.termFreq) + (U32Bytes(|posting.positions|) + offsets)));
    }
    assert list[..|list|] == list;
    r := Some(bytes);
  }

  method EncodeAllOffsets(positions: seq<u32>) returns (bytes: seq<u8>)
    ensures bytes == EncodeOffsets(positions)
  {
    bytes := [];
    for i := 0 to |positions|
      invariant bytes + EncodeOffsets(positions[i..]) == EncodeOffsets(positions)
    {
      assert positions[i..][1..] == positions[i + 1..];
      bytes := bytes + U32Bytes(positions[i]);
    }
  }

  lemma {:induction false} EncodeOneMore(list: PostingList, p: Posting)
    requires |p.positions| < 0x1_0000_0000
    requires forall i :: 0 <= i < |list| ==> |list[i].positions| < 0x1_0000_0000
    ensures EncodePostings(list + [p]) == EncodePostings(list) + EncodePosting(p)
  {
    if list == [] {
      assert EncodePostings([p][1..]) == [];
    } else {
      assert (list + [p])[1..] == list[1..] + [p];
      EncodeOneMore(list[1..], p);
    }
  }

  // ----- the copy before writing -----

  /** The copy keeps the terms that have a posting. */
  function Copied(terms: Terms): Terms {
    map t | t in terms && terms[t] != [] :: terms[t]
  }

  ghost function CopiedUpTo(terms: Terms, order: seq<Text>, k: nat): Terms
    requires k <= |order|
  {
    map t | t in terms && terms[t] != [] && t in order[..k] :: terms[t]
  }

  lemma CopyNext(terms: Terms, order: seq<Text>, k: nat)
    requires k < |order| && order[k] in terms && StrictlySorted(order)
    ensures order[k] !in CopiedUpTo(terms, order, k)
    ensures CopiedUpTo(terms, order, k + 1)
            == if terms[order[k]] == [] then CopiedUpTo(terms, order, k)
               else CopiedUpTo(terms, order, k)[order[k] := terms[order[k]]]
  {
    NotYet(order, k);
    assert order[..k + 1] == order[..k] + [order[k]];
  }

  lemma CopyEnds(terms: Terms, order: seq<Text>)
    requires forall t :: t in order <==> t in terms
    ensures CopiedUpTo(terms, order, 0) == map[] && CopiedUpTo(terms, order, |order|) == Copied(terms)
  {
  }

  lemma NotYet(order: seq<Text>, k: nat)
    requires StrictlySorted(order) && k < |order|
    ensures order[k] !in order[..k]
  {
    if order[k] in order[..k] {
      var i :| 0 <= i < k && order[i] == order[k];
      BeforeIsTotal(order[i], order[k]);
    }
  }

  method CopyIndex(index: InvertedIndex) returns (writer: PositionsWriter)
    ensures fresh(writer) && writer.terms == Copied(index.terms)
  {
    writer := new PositionsWriter();
    var order := SortedKeys(index.terms.Keys);
    KeysListed(index.terms, order);
    CopyEnds(index.terms, order);
    for k := 0 to |order|
      invariant writer.terms == CopiedUpTo(index.terms, order, k) && index.terms == old(index.terms)
    {
      CopyNext(index.terms, order, k);
      CopyList(writer, order[k], index.terms[order[k]]);
    }
  }

  method CopyList(writer: PositionsWriter, term: Text, list: PostingList)
    requires term !in writer.terms
    modifies writer
    ensures writer.terms == if list == [] then old(writer.terms) else old(writer.terms)[term := list]
  {
    for i := 0 to |list|
      invariant writer.terms == if i == 0 then old(writer.terms) else old(writer.terms)[term := list[..i]]
    {
      writer.Append(term, list[i]);
      assert list[..i + 1] == list[..i] + [list[i]];
    }
    assert list[..|list|] == list;
  }

  ghost predicate NoListIsEmpty(terms: Terms) {
    forall t :: t in terms ==> terms[t] != []
  }

  /** The copy is the index itself exactly when no posting list is empty. */
  lemma CopyIsExactExactlyWhen(terms: Terms)
    ensures Copied(terms) == terms <==> NoListIsEmpty(terms)
  {
  }

  /** Inserting never makes an empty list, so an index filled by inserting is written as it is. */
  lemma InsertedIsCopiedExactly(terms: Terms, term: Text, docId: u64, positions: seq<u32>)
    requires NoListIsEmpty(terms)
    ensures NoListIsEmpty(Appended(terms, term, NewPosting(docId, positions)))
    ensures Copied(Appended(terms, term, NewPosting(docId, positions)))
         == Appended(terms, term, NewPosting(docId, positions))
  {
    CopyIsExactExactlyWhen(Appended(terms, term, NewPosting(docId, positions)));
  }

  // ----- the reader -----

  method ParseFile(utf8: Utf8, data: seq<u8>) returns (r: Result<Reader, ParseError>)
    ensures r == FromBytes(utf8, data)
  {
    if |data| < 12 {
      return Err(TooShort);
    }
    if U32At(data, 0) != MAGIC {
      return Err(InvalidMagic);
    }
    if data[4] != VERSION {
      return Err(UnsupportedVersion);
    }
    var count: nat := U32At(data, 8);
    var pos: nat := 12;
    var dictionary: map<Text, u64> := map[];
    for i := 0 to count
      invariant pos <= |data|
      invariant ReadEntries(utf8, data, pos, count - i, dictionary) == FromBytes(utf8, data)
    {
      var entry :- ReadEntry(utf8, data, pos);
      dictionary := dictionary[entry.0 := entry.1];
      pos := entry.2;
    }
    r := Ok(Reader(dictionary, data[pos..]));
  }

  method Lookup(reader: Reader, term: Text) returns (r: Option<PostingList>)
    ensures r == Get(reader, term)
  {
    if term !in reader.dictionary {
      return None;
    }
    r := ReadPostingsAt(reader.body, reader.dictionary[term]);
  }

  function Prepended(list: PostingList, rest: Option<PostingList>): Option<PostingList> {
    if rest.None? then None else Some(list + rest.value)
  }

  method ReadPostingsAt(body: seq<u8>, offset: nat) returns (r: Option<PostingList>)
    ensures r == ReadList(body, offset)
  {
    if offset >= |body| {
      return None;
    }
    var data := body[offset..];
    if |data| < 4 {
      return None;
    }
    var count: nat := U32At(data, 0);
    var pos: nat := 4;
    var docs: PostingList := [];
    NothingPrepended(ReadPostings(data, pos, count));
    for i := 0 to count
      invariant Prepended(docs, ReadPostings(data, pos, count - i)) == ReadList(body, offset)
    {
      var posting := ReadOne(data, pos);
      if posting.None? {
        return None;
      }
      OneMoreRead(data, pos, count - i, docs);
      docs := docs + [posting.value.0];
      pos := posting.value.1;
    }
    assert docs + [] == docs;
    r := Some(docs);
  }

  lemma NothingPrepended(rest: Option<PostingList>)
    ensures Prepended([], rest) == rest
  {
    if rest.Some? {
      assert [] + rest.value == rest.value;
    }
  }

  lemma OneMoreRead(data: seq<u8>, pos: nat, count: nat, docs: PostingList)
    requires count > 0 && ReadPosting(data, pos).Some?
    ensures var (posting, next) := ReadPosting(data, pos).value;
            Prepended(docs + [posting], ReadPostings(data, next, count - 1))
            == Prepended(docs, ReadPostings(data, pos, count))
  {
    var (posting, next) := ReadPosting(data, pos).value;
    var rest := ReadPostings(data, next, count - 1);
    if rest.Some? {
      assert docs + ([posting] + rest.value) == (docs + [posting]) + rest.value;
    }
  }

  method ReadOne(data: seq<u8>, start: nat) returns (r: Option<(Posting, nat)>)
    ensures r == ReadPosting(data, start)
  {
    var pos := start;
    if pos + 8 > |data| {
      return None;
    }
    var docId := U64At(data, pos);
    pos := pos + 8;
    if pos + 4 > |data| {
      return None;
    }
    var freq := U32At(data, pos);
    pos := pos + 4;
    if pos + 4 > |data| {
      return None;
    }
    var count: nat := U32At(data, pos);
    pos := pos + 4;
    if pos + count * 4 > |data| {
      return None;
    }
    var positions: seq<u32> := [];
    for i := 0 to count
      invariant positions + ReadOffsets(data, pos + i * 4, count - i) == ReadOffsets(data, pos, count)
    {
      positions := positions + [U32At(data, pos + i * 4)];
    }
    assert positions + [] == positions;
    r := Some((Posting(docId, positions, freq), pos + count * 4));
  }
}
