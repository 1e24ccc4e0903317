// The write-ahead log in bytes: 26-byte headers, generation files, replay, trim, and what a replay
// makes of a file whose tail was lost.
module Wal {
  import opened Bytes
  import opened Values
  import Log

  const WAL_VERSION: u8 := 1
  const HEADER_LENGTH: nat := 26

  /** Serialisation and checksum come from libraries the model does not look into. */
  datatype Codec = Codec(
    encode: Record -> seq<u8>,
    decode: seq<u8> -> Option<Record>,
    checksum: seq<u8> -> u32)
  {
    /** What is assumed of serialisation: decoding undoes encoding. */
    ghost predicate Lawful() {
      forall r: Record :: decode(encode(r)) == Some(r)
    }

    /** The length field of the header holds 32 bits, and `append` panics on more; a sequence number
        holds 64 bits. */
    predicate Fits(e: Entry) {
      && |encode(e.record)| < 0x1_0000_0000
      && e.sequenceNumber < TWO_64
    }

    ghost predicate AllFit(es: seq<Entry>) {
      forall i :: 0 <= i < |es| ==> Fits(es[i])
    }
  }

  datatype WalError =
    | UnsupportedVersion
    | PartialRecord
    | ChecksumMismatch
    | UnknownRecordType
    | Malformed

  datatype Header = Header(version: u8, kind: u8, payloadLength: u32, sequenceNumber: u64, recordedAt: i64,
                           checksum: u32)

  function RecordType(r: Record): u8 {
    match r
    case IndexDocument(_, _) => 1
    case DeleteDocument(_) => 2
    case MappingUpdate(_, _) => 3
  }

  // ----- writing -----

  function EncodeHeader(c: Codec, e: Entry): (h: seq<u8>)
    requires c.Fits(e)
    ensures |h| == HEADER_LENGTH
  {
    var payload := c.encode(e.record);
    [WAL_VERSION] + [RecordType(e.record)] + U32Bytes(|payload|) + U64Bytes(e.sequenceNumber)
    + I64Bytes(e.recordedAt) + U32Bytes(c.checksum(payload))
  }

  function EncodeEntry(c: Codec, e: Entry): (bytes: seq<u8>)
    requires c.Fits(e)
    ensures |bytes| == HEADER_LENGTH + |c.encode(e.record)|
  {
    EncodeHeader(c, e) + c.encode(e.record)
  }

  ghost function EncodeAll(c: Codec, es: seq<Entry>): seq<u8>
    requires c.AllFit(es)
  {
    if es == [] then [] else EncodeEntry(c, es[0]) + EncodeAll(c, es[1..])
  }

  lemma {:induction false} EncodeAllConcat(c: Codec, es: seq<Entry>, more: seq<Entry>)
    requires c.AllFit(es) && c.AllFit(more)
    ensures c.AllFit(es + more)
    ensures EncodeAll(c, es + more) == EncodeAll(c, es) + EncodeAll(c, more)
  {
    if es == [] {
      assert [] + more == more;
    } else {
      EncodeAllConcat(c, es[1..], more);
      assert (es + more)[1..] == es[1..] + more;
      Log.ConcatAssociates(EncodeEntry(c, es[0]), EncodeAll(c, es[1..]), EncodeAll(c, more));
    }
  }

  lemma EncodeAllAppend(c: Codec, es: seq<Entry>, e: Entry)
    requires c.AllFit(es) && c.Fits(e)
    ensures c.AllFit(es + [e])
    ensures EncodeAll(c, es + [e]) == EncodeAll(c, es) + EncodeEntry(c, e)
  {
    EncodeAllConcat(c, es, [e]);
    EncodeOne(c, e);
  }

  lemma EncodeOne(c: Codec, e: Entry)
    requires c.Fits(e)
    ensures EncodeAll(c, [e]) == EncodeEntry(c, e)
  {
    assert EncodeAll(c, [e]) == EncodeEntry(c, e) + EncodeAll(c, []);
  }

  /** The generation files after an append: the current one comes into being with its first entry. */
  function Appended(c: Codec, files: map<nat, seq<u8>>, current: nat, e: Entry): map<nat, seq<u8>>
    requires c.Fits(e)
  {
    files[current := (if current in files then files[current] else []) + EncodeEntry(c, e)]
  }

  /** The generation files after several appends. */
  ghost function AppendedAll(c: Codec, files: map<nat, seq<u8>>, current: nat, es: seq<Entry>): map<nat, seq<u8>>
    requires c.AllFit(es)
  {
    if es == [] then files
    else files[current := (if current in files then files[current] else []) + EncodeAll(c, es)]
  }

  lemma AppendedOne(c: Codec, files: map<nat, seq<u8>>, current: nat, e: Entry)
    requires c.Fits(e)
    ensures Appended(c, files, current, e) == AppendedAll(c, files, current, [e])
  {
    EncodeOne(c, e);
  }

  lemma AppendedMore(c: Codec, files: map<nat, seq<u8>>, current: nat, es: seq<Entry>, more: seq<Entry>)
    requires c.AllFit(es) && c.AllFit(more)
    ensures c.AllFit(es + more)
    ensures AppendedAll(c, files, current, es + more)
         == AppendedAll(c, AppendedAll(c, files, current, es), current, more)
  {
    if es == [] {
      assert [] + more == more;
    } else if more == [] {
      assert es + [] == es;
    } else {
      EncodeAllConcat(c, es, more);
      Log.ConcatAssociates(if current in files then files[current] else [], EncodeAll(c, es), EncodeAll(c, more));
    }
  }

  // ----- reading -----

  function ParseHeader(h: seq<u8>): Header
    requires |h| == HEADER_LENGTH
  {
    Header(h[0], h[1], ReadU32(h[2..6]), ReadU64(h[6..14]), ReadI64(h[14..22]), ReadU32(h[22..26]))
  }

  lemma HeaderRoundTrip(c: Codec, e: Entry)
    requires c.Fits(e)
    ensures ParseHeader(EncodeHeader(c, e))
         == Header(WAL_VERSION, RecordType(e.record), |c.encode(e.record)|, e.sequenceNumber, e.recordedAt,
                   c.checksum(c.encode(e.record)))
  {
    var payload := c.encode(e.record);
    var h := EncodeHeader(c, e);
    assert h[2..6] == U32Bytes(|payload|);
    assert h[6..14] == U64Bytes(e.sequenceNumber);
    assert h[14..22] == I64Bytes(e.recordedAt);
    assert h[22..26] == U32Bytes(c.checksum(payload));
    U32RoundTrip(|payload|);
    U64RoundTrip(e.sequenceNumber);
    I64RoundTrip(e.recordedAt);
    U32RoundTrip(c.checksum(payload));
  }

  /** Where the fields of a record stand. */
  lemma HeaderLayout(c: Codec, e: Entry)
    requires c.Fits(e)
    ensures var h, payload := EncodeHeader(c, e), c.encode(e.record);
            && h[0] == 1
            && h[1] == (if e.record.IndexDocument? then 1 else if e.record.DeleteDocument? then 2 else 3)
            && h[2..6] == U32Bytes(|payload|)
            && h[6..14] == U64Bytes(e.sequenceNumber)
            && h[14..22] == I64Bytes(e.recordedAt)
            && h[22..26] == U32Bytes(c.checksum(payload))
            && EncodeEntry(c, e)[..HEADER_LENGTH] == h && EncodeEntry(c, e)[HEADER_LENGTH..] == payload
  {
  }

  function DecodeRecord(c: Codec, kind: u8, payload: seq<u8>): Result<Record, WalError> {
    if 1 <= kind <= 3 then
      match c.decode(payload)
      case Some(r) => Ok(r)
      case None => Err(Malformed)
    else Err(UnknownRecordType)
  }

  function Prepend(es: seq<Entry>, r: Result<seq<Entry>, WalError>): Result<seq<Entry>, WalError> {
    if r.Ok? then Ok(es + r.value) else r
  }

  /** The entries of one generation file; `current` says that it is the current generation's. */
  function Scan(c: Codec, bytes: seq<u8>, current: bool): Result<seq<Entry>, WalError>
    decreases |bytes|
  {
    if |bytes| < HEADER_LENGTH then Ok([])
    else
      var h := ParseHeader(bytes[..HEADER_LENGTH]);
      var end := HEADER_LENGTH + h.payloadLength;
      if h.version != WAL_VERSION then Err(UnsupportedVersion)
      else if end > |bytes| then if current then Ok([]) else Err(PartialRecord)
      else
        var payload := bytes[HEADER_LENGTH..end];
        if c.checksum(payload) != h.checksum then Err(ChecksumMismatch)
        else
          match DecodeRecord(c, h.kind, payload)
          case Err(error) => Err(error)
          case Ok(record) =>
            Prepend([Entry(h.sequenceNumber, h.recordedAt, record)], Scan(c, bytes[end..], current))
  }

  /** The number of the last whole record of a file; neither version nor checksum is looked at. */
  function LastSequence(bytes: seq<u8>): Option<nat>
    decreases |bytes|
  {
    if |bytes| < HEADER_LENGTH then None
    else
      var h := ParseHeader(bytes[..HEADER_LENGTH]);
      var end := HEADER_LENGTH + h.payloadLength;
      if end > |bytes| then None
      else
        match LastSequence(bytes[end..])
        case Some(n) => Some(n)
        case None => Some(h.sequenceNumber)
  }

  /** One entry written in front of any bytes is read back, and reading goes on behind it. */
  lemma ScanEntry(c: Codec, e: Entry, rest: seq<u8>, current: bool)
    requires c.Lawful() && c.Fits(e)
    ensures Scan(c, EncodeEntry(c, e) + rest, current) == Prepend([e], Scan(c, rest, current))
    ensures LastSequence(EncodeEntry(c, e) + rest)
         == if LastSequence(rest).Some? then LastSequence(rest) else Some(e.sequenceNumber)
  {
    var payload := c.encode(e.record);
    var bytes := EncodeEntry(c, e) + rest;
    var end := HEADER_LENGTH + |payload|;
    assert bytes[..HEADER_LENGTH] == EncodeHeader(c, e);
    HeaderRoundTrip(c, e);
    assert bytes[HEADER_LENGTH..end] == payload;
    assert bytes[end..] == rest;
  }

  lemma {:induction false} ScanAll(c: Codec, es: seq<Entry>, current: bool)
    requires c.Lawful() && c.AllFit(es)
    ensures Scan(c, EncodeAll(c, es), current) == Ok(es)
    ensures LastSequence(EncodeAll(c, es)) == LastOf(es)
  {
    if es != [] {
      var rest := EncodeAll(c, es[1..]);
      ScanAll(c, es[1..], current);
      ScanEntry(c, es[0], rest, current);
      EncodeAllStep(c, es);
      PrependTail(es);
    }
  }

  function LastOf(es: seq<Entry>): Option<nat> {
    if es == [] then None else Some(es[|es| - 1].sequenceNumber)
  }

  lemma EncodeAllStep(c: Codec, es: seq<Entry>)
    requires c.AllFit(es) && es != []
    ensures c.AllFit(es[1..])
    ensures EncodeAll(c, es) == EncodeEntry(c, es[0]) + EncodeAll(c, es[1..])
  {
  }

  lemma PrependTail(es: seq<Entry>)
    requires es != []
    ensures Prepend([es[0]], Ok(es[1..])) == Ok(es)
    ensures LastOf(es) == if LastOf(es[1..]).Some? then LastOf(es[1..]) else Some(es[0].sequenceNumber)
  {
    assert [es[0]] + es[1..] == es;
  }

  // ----- lost tails -----

  /** How many of the entries lie wholly within the first `cut` bytes. */
  ghost function WholeWithin(c: Codec, es: seq<Entry>, cut: nat): (n: nat)
    requires c.AllFit(es)
    ensures n <= |es|
  {
    if es == [] || |EncodeEntry(c, es[0])| > cut then 0
    else 1 + WholeWithin(c, es[1..], cut - |EncodeEntry(c, es[0])|)
  }

  /** The bytes behind the last whole entry. */
  ghost function TailLength(c: Codec, es: seq<Entry>, cut: nat): nat
    requires c.AllFit(es)
  {
    if es == [] || |EncodeEntry(c, es[0])| > cut then cut
    else TailLength(c, es[1..], cut - |EncodeEntry(c, es[0])|)
  }

  lemma TornEntry(c: Codec, e: Entry, rest: seq<u8>, cut: nat, current: bool)
    requires c.Fits(e) && cut < |EncodeEntry(c, e)|
    ensures Scan(c, (EncodeEntry(c, e) + rest)[..cut], current)
         == if current || cut < HEADER_LENGTH then Ok([]) else Err(PartialRecord)
  {
    var bytes := (EncodeEntry(c, e) + rest)[..cut];
    if cut >= HEADER_LENGTH {
      assert bytes[..HEADER_LENGTH] == EncodeHeader(c, e);
      HeaderRoundTrip(c, e);
    }
  }

  /** What reading a cut file gives: the whole entries, or an error for a headed tail in an older generation. */
  ghost function ReadOfCut(c: Codec, es: seq<Entry>, cut: nat, current: bool): Result<seq<Entry>, WalError>
    requires c.AllFit(es)
  {
    if current || TailLength(c, es, cut) < HEADER_LENGTH then Ok(es[..WholeWithin(c, es, cut)])
    else Err(PartialRecord)
  }

  lemma ReadOfCutStep(c: Codec, es: seq<Entry>, cut: nat, size: nat, current: bool)
    requires c.AllFit(es) && es != [] && size == |EncodeEntry(c, es[0])| <= cut
    ensures ReadOfCut(c, es, cut, current) == Prepend([es[0]], ReadOfCut(c, es[1..], cut - size, current))
  {
    var n := WholeWithin(c, es[1..], cut - size);
    assert [es[0]] + es[1..][..n] == es[..1 + n];
  }

  lemma CutBehind<T>(a: seq<T>, b: seq<T>, cut: nat)
    requires |a| <= cut <= |a| + |b|
    ensures (a + b)[..cut] == a + b[..cut - |a|]
  {
  }

  /** A cut behind the first entry leaves that entry and a cut of the others. */
  lemma EncodeAllCut(c: Codec, es: seq<Entry>, cut: nat, size: nat)
    requires c.AllFit(es) && es != [] && size == |EncodeEntry(c, es[0])| <= cut <= |EncodeAll(c, es)|
    ensures c.AllFit(es[1..]) && cut - size <= |EncodeAll(c, es[1..])|
    ensures EncodeAll(c, es)[..cut] == EncodeEntry(c, es[0]) + EncodeAll(c, es[1..])[..cut - size]
  {
    EncodeAllStep(c, es);
    CutBehind(EncodeEntry(c, es[0]), EncodeAll(c, es[1..]), cut);
  }

  lemma ScanCutStep(c: Codec, es: seq<Entry>, cut: nat, size: nat, current: bool)
    requires c.Lawful() && c.AllFit(es) && es != []
    requires size == |EncodeEntry(c, es[0])| <= cut <= |EncodeAll(c, es)|
    ensures cut - size <= |EncodeAll(c, es[1..])|
    ensures Scan(c, EncodeAll(c, es)[..cut], current)
         == Prepend([es[0]], Scan(c, EncodeAll(c, es[1..])[..cut - size], current))
  {
    EncodeAllCut(c, es, cut, size);
    ScanEntry(c, es[0], EncodeAll(c, es[1..])[..cut - size], current);
  }

  /** A file cut at any byte: in the current generation exactly the whole entries are read, without
      error; in an older generation a tail that still shows a header is an error. */
  lemma {:induction false} ScanCut(c: Codec, es: seq<Entry>, cut: nat, current: bool)
    requires c.Lawful() && c.AllFit(es) && cut <= |EncodeAll(c, es)|
    ensures Scan(c, EncodeAll(c, es)[..cut], current) == ReadOfCut(c, es, cut, current)
  {
    if es == [] {
    } else {
      EncodeAllStep(c, es);
      var size := |EncodeEntry(c, es[0])|;
      if size > cut {
        TornEntry(c, es[0], EncodeAll(c, es[1..]), cut, current);
      } else {
        ScanCutStep(c, es, cut, size, current);
        ScanCut(c, es[1..], cut - size, current);
        ReadOfCutStep(c, es, cut, size, current);
      }
    }
  }

  // ----- replay over a directory of generation files -----

  /** A replay so far, extended by the entries of one more file above the bound. */
  function AddFile(front: Result<seq<Entry>, WalError>, es: Result<seq<Entry>, WalError>, bound: nat)
    : Result<seq<Entry>, WalError>
  {
    if front.Err? then front
    else if es.Err? then es
    else Ok(front.value + Log.Above(es.value, bound))
  }

  /** Generation files read in the given order; only entries above the bound are kept. */
  function ReplayFiles(c: Codec, files: map<nat, seq<u8>>, current: nat, gs: seq<nat>, bound: nat)
    : Result<seq<Entry>, WalError>
    requires forall g :: g in gs ==> g in files
  {
    if gs == [] then Ok([])
    else
      var last := gs[|gs| - 1];
      AddFile(ReplayFiles(c, files, current, gs[..|gs| - 1], bound), Scan(c, files[last], last == current), bound)
  }

  /** An unreadable generation makes the whole replay fail, whatever comes after it. */
  lemma {:induction false} ErrorPersists(c: Codec, files: map<nat, seq<u8>>, current: nat, gs: seq<nat>, bound: nat,
                                         n: nat)
    requires forall g :: g in gs ==> g in files
    requires n <= |gs| && ReplayFiles(c, files, current, gs[..n], bound).Err?
    ensures ReplayFiles(c, files, current, gs, bound) == ReplayFiles(c, files, current, gs[..n], bound)
  {
    if n == |gs| {
      assert gs[..n] == gs;
    } else {
      var front := gs[..|gs| - 1];
      assert front[..n] == gs[..n];
      ErrorPersists(c, files, current, front, bound, n);
    }
  }

  /** The files hold exactly these entries. */
  ghost predicate Represents(c: Codec, files: map<nat, seq<u8>>, generations: map<nat, seq<Entry>>) {
    && files.Keys == generations.Keys
    && forall g :: g in generations ==> c.AllFit(generations[g]) && files[g] == EncodeAll(c, generations[g])
  }

  lemma AppendRepresents(c: Codec, files: map<nat, seq<u8>>, generations: map<nat, seq<Entry>>, g: nat, e: Entry)
    requires Represents(c, files, generations) && c.Fits(e)
    ensures Represents(c, Appended(c, files, g, e), Log.Append(Log.Log(g, generations), e).generations)
  {
    var es := if g in generations then generations[g] else [];
    EncodeAllAppend(c, es, e);
  }

  ghost function ReplayAll(c: Codec, files: map<nat, seq<u8>>, current: nat, bound: nat): Result<seq<Entry>, WalError> {
    Log.ElementsOfAscending(files.Keys);
    assert forall g :: g in Log.Ascending(files.Keys) ==> g in Log.Elements(Log.Ascending(files.Keys));
    ReplayFiles(c, files, current, Log.Ascending(files.Keys), bound)
  }

  lemma ReplayFilesIgnoresOthers(c: Codec, files: map<nat, seq<u8>>, current: nat, gs: seq<nat>, bound: nat, m: nat)
    requires m !in gs && forall g :: g in gs ==> g in files
    ensures ReplayFiles(c, files - {m}, current, gs, bound) == ReplayFiles(c, files, current, gs, bound)
  {
  }

  /** One step of a replay: all generations but the last, then the last. */
  lemma ReplayLast(c: Codec, files: map<nat, seq<u8>>, current: nat, bound: nat)
    requires files.Keys != {}
    ensures ReplayAll(c, files, current, bound)
         == AddFile(ReplayAll(c, files - {Log.Max(files.Keys)}, current, bound),
                    Scan(c, files[Log.Max(files.Keys)], Log.Max(files.Keys) == current), bound)
  {
    var m := Log.Max(files.Keys);
    var gs := Log.Ascending(files.Keys);
    assert (files - {m}).Keys == files.Keys - {m};
    var front := Log.Ascending(files.Keys - {m});
    assert gs[..|gs| - 1] == front;
    Log.ElementsOfAscending(files.Keys - {m});
    forall g | g in front ensures g in files && g != m { assert g in Log.Elements(front); }
    ReplayFilesIgnoresOthers(c, files, current, front, bound, m);
  }

  /** Replaying the bytes gives the entries of the log above the bound, in order. */
  lemma {:induction false} ReplayRefinesLog(c: Codec, files: map<nat, seq<u8>>, generations: map<nat, seq<Entry>>,
                                            current: nat, bound: nat)
    requires c.Lawful() && Represents(c, files, generations)
    ensures ReplayAll(c, files, current, bound) == Ok(Log.Above(Log.Flatten(generations), bound))
    decreases generations.Keys
  {
    if files.Keys == {} {
      assert generations == map[];
    } else {
      var m := Log.Max(files.Keys);
      ReplayLast(c, files, current, bound);
      ReplayRefinesLog(c, files - {m}, generations - {m}, current, bound);
      ScanAll(c, generations[m], m == current);
      Log.AboveConcat(Log.Flatten(generations - {m}), generations[m], bound);
    }
  }

  // ----- trimming a directory -----

  /** A file that a trim through `bound` removes, going by its last whole record. */
  predicate RemovableFile(files: map<nat, seq<u8>>, current: nat, bound: nat, g: nat) {
    && g in files
    && g != current
    && LastSequence(files[g]).Some?
    && LastSequence(files[g]).value <= bound
  }

  function RemovableFiles(files: map<nat, seq<u8>>, current: nat, bound: nat): set<nat> {
    set g | g in files.Keys && RemovableFile(files, current, bound, g)
  }

  function TrimFiles(files: map<nat, seq<u8>>, current: nat, bound: nat): map<nat, seq<u8>> {
    files - RemovableFiles(files, current, bound)
  }

  lemma RemovableAgrees(c: Codec, files: map<nat, seq<u8>>, generations: map<nat, seq<Entry>>, current: nat,
                        bound: nat, g: nat)
    requires c.Lawful() && Represents(c, files, generations)
    ensures RemovableFile(files, current, bound, g) <==> Log.Removable(Log.Log(current, generations), bound, g)
  {
    if g in generations {
      ScanAll(c, generations[g], false);
    }
  }

  lemma RestIsWhole(c: Codec, files: map<nat, seq<u8>>, generations: map<nat, seq<Entry>>, gone: set<nat>)
    requires Represents(c, files, generations)
    ensures Represents(c, files - gone, generations - gone)
  {
  }

  lemma TrimRefinesLog(c: Codec, files: map<nat, seq<u8>>, generations: map<nat, seq<Entry>>, current: nat, bound: nat)
    requires c.Lawful() && Represents(c, files, generations)
    ensures RemovableFiles(files, current, bound) == Log.RemovableGenerations(Log.Log(current, generations), bound)
    ensures Represents(c, TrimFiles(files, current, bound),
                       Log.Trim(Log.Log(current, generations), bound).generations)
  {
    forall g ensures RemovableFile(files, current, bound, g)
                <==> Log.Removable(Log.Log(current, generations), bound, g) {
      RemovableAgrees(c, files, generations, current, bound, g);
    }
    RestIsWhole(c, files, generations, RemovableFiles(files, current, bound));
  }

  // ----- what a lost tail does to the whole log -----

  /** The current generation keeps its first `cut` bytes only. */
  ghost function CutFiles(files: map<nat, seq<u8>>, current: nat, cut: nat): map<nat, seq<u8>>
    requires current in files && cut <= |files[current]|
  {
    files[current := files[current][..cut]]
  }

  /** Whatever the last generation file holds, the older ones are read first. */
  lemma ReplayWithLast(c: Codec, files: map<nat, seq<u8>>, generations: map<nat, seq<Entry>>, last: nat,
                       bytes: seq<u8>, current: nat, bound: nat)
    requires c.Lawful() && Represents(c, files, generations) && forall g :: g in files ==> g <= last
    ensures ReplayAll(c, files[last := bytes], current, bound)
         == AddFile(Ok(Log.Above(Log.Flatten(generations - {last}), bound)), Scan(c, bytes, last == current), bound)
  {
    var torn := files[last := bytes];
    Log.MaxIsUnique(torn.Keys, last);
    ReplayLast(c, torn, current, bound);
    assert torn - {last} == files - {last};
    RestIsWhole(c, files, generations, {last});
    ReplayRefinesLog(c, files - {last}, generations - {last}, current, bound);
  }

  lemma ReplayOfCut(c: Codec, files: map<nat, seq<u8>>, generations: map<nat, seq<Entry>>, last: nat, cut: nat,
                    current: nat, bound: nat)
    requires c.Lawful() && Represents(c, files, generations)
    requires last in files && (forall g :: g in files ==> g <= last) && cut <= |files[last]|
    ensures c.AllFit(generations[last])
    ensures ReplayAll(c, CutFiles(files, last, cut), current, bound)
         == AddFile(Ok(Log.Above(Log.Flatten(generations - {last}), bound)),
                    ReadOfCut(c, generations[last], cut, last == current), bound)
  {
    ReplayWithLast(c, files, generations, last, files[last][..cut], current, bound);
    ScanCut(c, generations[last], cut, last == current);
  }

  /** Losing the tail of the current generation loses exactly the entries it touches: the replay is
      that of the log whose last generation ends with its last whole entry. */
  lemma TornTailReplay(c: Codec, files: map<nat, seq<u8>>, generations: map<nat, seq<Entry>>, current: nat, cut: nat,
                       bound: nat)
    requires c.Lawful() && Represents(c, files, generations)
    requires current in files && (forall g :: g in files ==> g <= current) && cut <= |files[current]|
    ensures c.AllFit(generations[current])
    ensures var whole := generations[current][..WholeWithin(c, generations[current], cut)];
            ReplayAll(c, CutFiles(files, current, cut), current, bound)
              == Ok(Log.Above(Log.Flatten(generations[current := whole]), bound))
  {
    ReplayOfCut(c, files, generations, current, cut, current, bound);
    LogOfCut(generations, current, generations[current][..WholeWithin(c, generations[current], cut)], bound);
  }

  lemma LogOfCut(generations: map<nat, seq<Entry>>, last: nat, whole: seq<Entry>, bound: nat)
    requires last in generations && forall g :: g in generations ==> g <= last
    ensures Log.Above(Log.Flatten(generations[last := whole]), bound)
         == Log.Above(Log.Flatten(generations - {last}), bound) + Log.Above(whole, bound)
  {
    var kept := generations[last := whole];
    Log.FlattenAtLast(kept, last);
    assert kept - {last} == generations - {last};
    Log.AboveConcat(Log.Flatten(generations - {last}), whole, bound);
  }

  /** Once the log has rolled over, the torn generation is an older one: the log can be replayed if and
      only if the lost tail left less than a header behind. */
  lemma TornTailThenRollover(c: Codec, files: map<nat, seq<u8>>, generations: map<nat, seq<Entry>>, current: nat,
                             cut: nat, bound: nat)
    requires c.Lawful() && Represents(c, files, generations)
    requires current in files && (forall g :: g in files ==> g <= current) && cut <= |files[current]|
    ensures c.AllFit(generations[current])
    ensures ReplayAll(c, CutFiles(files, current, cut), current + 1, bound).Ok?
       <==> TailLength(c, generations[current], cut) < HEADER_LENGTH
  {
    ReplayOfCut(c, files, generations, current, cut, current + 1, bound);
  }

  lemma TornEntryHasNoNumber(c: Codec, e: Entry, rest: seq<u8>, cut: nat)
    requires c.Fits(e) && cut < |EncodeEntry(c, e)|
    ensures LastSequence((EncodeEntry(c, e) + rest)[..cut]) == None
  {
    var bytes := (EncodeEntry(c, e) + rest)[..cut];
    if cut >= HEADER_LENGTH {
      assert bytes[..HEADER_LENGTH] == EncodeHeader(c, e);
      HeaderRoundTrip(c, e);
    }
  }

  lemma WholeLast(c: Codec, es: seq<Entry>, cut: nat, rest: nat)
    requires c.AllFit(es) && es != [] && |EncodeEntry(c, es[0])| <= cut && rest == cut - |EncodeEntry(c, es[0])|
    ensures var last := LastOf(es[1..][..WholeWithin(c, es[1..], rest)]);
            LastOf(es[..WholeWithin(c, es, cut)]) == if last.Some? then last else Some(es[0].sequenceNumber)
  {
    var whole := es[..WholeWithin(c, es, cut)];
    assert whole[1..] == es[1..][..WholeWithin(c, es[1..], rest)];
    PrependTail(whole);
  }

  /** The highest number of a cut file is that of its last whole entry. */
  lemma {:induction false} LastOfCut(c: Codec, es: seq<Entry>, cut: nat)
    requires c.Lawful() && c.AllFit(es) && cut <= |EncodeAll(c, es)|
    ensures LastSequence(EncodeAll(c, es)[..cut]) == LastOf(es[..WholeWithin(c, es, cut)])
  {
    if es == [] {
    } else if |EncodeEntry(c, es[0])| > cut {
      EncodeAllStep(c, es);
      TornEntryHasNoNumber(c, es[0], EncodeAll(c, es[1..]), cut);
    } else {
      var size := |EncodeEntry(c, es[0])|;
      var rest := cut - size;
      EncodeAllCut(c, es, cut, size);
      ScanEntry(c, es[0], EncodeAll(c, es[1..])[..rest], true);
      WholeLast(c, es, cut, rest);
      LastOfCut(c, es[1..], rest);
    }
  }

  /** A rollover followed by a trim through the last number, as a flush does them: the torn generation goes
      with the others if it holds any whole entry.  The log can then be replayed if and only if it does, or
      the lost tail left less than a header behind. */
  lemma TornTailThenTrim(c: Codec, files: map<nat, seq<u8>>, generations: map<nat, seq<Entry>>, current: nat,
                         cut: nat, last: nat, bound: nat)
    requires c.Lawful() && Represents(c, files, generations)
    requires current in files && (forall g :: g in files ==> g <= current) && cut <= |files[current]|
    requires Log.Bounded(generations, last)
    ensures c.AllFit(generations[current])
    ensures ReplayAll(c, TrimFiles(CutFiles(files, current, cut), current + 1, last), current + 1, bound).Ok?
       <==> WholeWithin(c, generations[current], cut) > 0 || TailLength(c, generations[current], cut) < HEADER_LENGTH
  {
    var torn := CutFiles(files, current, cut);
    var gone := RemovableFiles(torn, current + 1, last);
    TornIsTrimmed(c, generations[current], cut, last);
    assert torn[current] == EncodeAll(c, generations[current])[..cut];
    if current in gone {
      WholeAreReplayed(c, files, generations, torn, gone, current, bound);
    } else {
      TornIsReplayed(c, files, generations, gone, current, cut, bound);
    }
  }

  /** A trim removes a torn generation exactly when it holds a whole entry. */
  lemma TornIsTrimmed(c: Codec, es: seq<Entry>, cut: nat, last: nat)
    requires c.Lawful() && c.AllFit(es) && cut <= |EncodeAll(c, es)| && Log.AtMost(es, last)
    ensures WholeWithin(c, es, cut) > 0 <==>
              LastSequence(EncodeAll(c, es)[..cut]).Some? && LastSequence(EncodeAll(c, es)[..cut]).value <= last
  {
    LastOfCut(c, es, cut);
  }

  lemma WholeAreReplayed(c: Codec, files: map<nat, seq<u8>>, generations: map<nat, seq<Entry>>,
                         torn: map<nat, seq<u8>>, gone: set<nat>, current: nat, bound: nat)
    requires c.Lawful() && Represents(c, files, generations) && current in gone
    requires torn - {current} == files - {current}
    ensures ReplayAll(c, torn - gone, current + 1, bound).Ok?
  {
    assert torn - gone == (torn - {current}) - gone == (files - {current}) - gone == files - gone;
    RestIsWhole(c, files, generations, gone);
    ReplayRefinesLog(c, files - gone, generations - gone, current + 1, bound);
  }

  lemma TornIsReplayed(c: Codec, files: map<nat, seq<u8>>, generations: map<nat, seq<Entry>>, gone: set<nat>,
                       current: nat, cut: nat, bound: nat)
    requires c.Lawful() && Represents(c, files, generations) && current !in gone
    requires current in files && (forall g :: g in files ==> g <= current) && cut <= |files[current]|
    ensures c.AllFit(generations[current])
    ensures ReplayAll(c, CutFiles(files, current, cut) - gone, current + 1, bound).Ok?
       <==> TailLength(c, generations[current], cut) < HEADER_LENGTH
  {
    RestIsWhole(c, files, generations, gone);
    assert CutFiles(files, current, cut) - gone == CutFiles(files - gone, current, cut);
    ReplayOfCut(c, files - gone, generations - gone, current, cut, current + 1, bound);
  }

  lemma PrependTwice(e: Entry, es: seq<Entry>, r: Result<seq<Entry>, WalError>)
    ensures Prepend([e], Prepend(es, r)) == Prepend([e] + es, r)
  {
    if r.Ok? {
      assert [e] + (es + r.value) == [e] + es + r.value;
    }
  }

  lemma EncodeAllBehind(c: Codec, es: seq<Entry>, rest: seq<u8>)
    requires c.AllFit(es) && es != []
    ensures EncodeAll(c, es) + rest == EncodeEntry(c, es[0]) + (EncodeAll(c, es[1..]) + rest)
  {
  }

  lemma {:induction false} ScanBehind(c: Codec, es: seq<Entry>, rest: seq<u8>, current: bool)
    requires c.Lawful() && c.AllFit(es)
    ensures Scan(c, EncodeAll(c, es) + rest, current) == Prepend(es, Scan(c, rest, current))
  {
    if es == [] {
      assert EncodeAll(c, es) + rest == rest;
      var read := Scan(c, rest, current);
      assert read.Ok? ==> [] + read.value == read.value;
    } else {
      EncodeAllBehind(c, es, rest);
      ScanEntry(c, es[0], EncodeAll(c, es[1..]) + rest, current);
      ScanBehind(c, es[1..], rest, current);
      PrependTwice(es[0], es[1..], Scan(c, rest, current));
      assert [es[0]] + es[1..] == es;
    }
  }

  /** A cut file is its whole entries followed by the first bytes of the next one. */
  lemma {:induction false} CutShape(c: Codec, es: seq<Entry>, cut: nat)
    requires c.AllFit(es) && cut <= |EncodeAll(c, es)|
    ensures WholeWithin(c, es, cut) == |es| ==> TailLength(c, es, cut) == 0
    ensures WholeWithin(c, es, cut) < |es| ==> TailLength(c, es, cut) < |EncodeEntry(c, es[WholeWithin(c, es, cut)])|
    ensures EncodeAll(c, es)[..cut] == EncodeAll(c, es[..WholeWithin(c, es, cut)]) + Tail(c, es, cut)
  {
    if es == [] {
    } else {
      EncodeAllStep(c, es);
      var size := |EncodeEntry(c, es[0])|;
      if size <= cut {
        CutShape(c, es[1..], cut - size);
        EncodeAllCut(c, es, cut, size);
        var n := WholeWithin(c, es[1..], cut - size);
        WholeStep(c, es, n);
        TailStep(c, es, cut, size);
        Log.ConcatAssociates(EncodeEntry(c, es[0]), EncodeAll(c, es[1..][..n]), Tail(c, es, cut));
      } else {
        assert es[..0] == [] && EncodeAll(c, es[..0]) == [];
        assert Tail(c, es, cut) == EncodeEntry(c, es[0])[..cut] == EncodeAll(c, es)[..cut];
      }
    }
  }

  /** The first bytes of the entry that a cut goes through. */
  ghost function Tail(c: Codec, es: seq<Entry>, cut: nat): seq<u8>
    requires c.AllFit(es)
  {
    var n, t := WholeWithin(c, es, cut), TailLength(c, es, cut);
    if n == |es| || t > |EncodeEntry(c, es[n])| then [] else EncodeEntry(c, es[n])[..t]
  }

  lemma WholeStep(c: Codec, es: seq<Entry>, n: nat)
    requires c.AllFit(es) && n < |es|
    ensures EncodeAll(c, es[..n + 1]) == EncodeEntry(c, es[0]) + EncodeAll(c, es[1..][..n])
  {
    assert es[..n + 1][1..] == es[1..][..n];
    EncodeAllStep(c, es[..n + 1]);
  }

  lemma TailStep(c: Codec, es: seq<Entry>, cut: nat, size: nat)
    requires c.AllFit(es) && es != [] && size == |EncodeEntry(c, es[0])| <= cut
    ensures WholeWithin(c, es, cut) == WholeWithin(c, es[1..], cut - size) + 1
    ensures TailLength(c, es, cut) == TailLength(c, es[1..], cut - size)
    ensures Tail(c, es, cut) == Tail(c, es[1..], cut - size)
  {
  }

  lemma FirstNumberRead(c: Codec, bytes: seq<u8>, current: bool)
    requires |bytes| >= HEADER_LENGTH
    ensures var read := Scan(c, bytes, current);
            read.Ok? && read.value != [] ==>
              read.value[0].sequenceNumber == ReadU64(bytes[..HEADER_LENGTH][6..14])
  {
  }

  lemma TornHeadReadsOldNumber(c: Codec, torn: Entry, more: seq<Entry>, t: nat, bytes: seq<u8>)
    requires c.Fits(torn) && c.AllFit(more) && more != []
    requires 14 <= t < |EncodeEntry(c, torn)| && torn.sequenceNumber < more[0].sequenceNumber
    requires bytes == EncodeEntry(c, torn)[..t] + EncodeAll(c, more)
    ensures Scan(c, bytes, true) != Ok(more)
  {
    EncodeAllStep(c, more);
    assert EncodeEntry(c, torn)[6..14] == U64Bytes(torn.sequenceNumber);
    assert forall k :: 0 <= k < 14 ==> bytes[k] == EncodeEntry(c, torn)[k];
    assert bytes[..HEADER_LENGTH][6..14] == EncodeEntry(c, torn)[6..14];
    U64RoundTrip(torn.sequenceNumber);
    FirstNumberRead(c, bytes, true);
  }

  /** An entry as `append` writes it for billions of entries to come: a number below 2^32, a time from 1970
      on that fits 48 bits, and a payload. */
  predicate IsOrdinary(c: Codec, e: Entry) {
    && e.sequenceNumber < 0x1_0000_0000
    && 0 <= e.recordedAt < 0x1_0000_0000_0000
    && c.encode(e.record) != []
  }

  /** The bytes of an ordinary header that tell it from its own shifts. */
  predicate IsOrdinaryHead(p: seq<u8>) {
    && |p| >= 22
    && p[0] != 0 && p[1] != 0
    && !(p[2] == p[3] == p[4] == p[5] == 0)
    && !(p[6] == p[7] == p[8] == p[9] == 0)
    && p[10] == p[11] == p[12] == p[13] == 0
    && p[20] == p[21] == 0
  }

  /** Put down `t` bytes late, the header does not show the same number and time. */
  predicate ShiftShows(p: seq<u8>, t: nat)
    requires |p| >= 22
  {
    exists k :: 6 <= k < 22 && k >= t && p[k - t] != p[k]
  }

  lemma HeadIsNotPeriodic(p: seq<u8>, t: nat)
    requires IsOrdinaryHead(p) && 1 <= t <= 13
    ensures ShiftShows(p, t)
  {
    if t <= 4 {
      ZerosSpread(p, t, 9);
      ZerosSpread(p, t, 8);
      ZerosSpread(p, t, 7);
      ZerosSpread(p, t, 6);
    } else if t == 5 {
      assert p[6 - t] != p[6] || p[11 - t] != p[11];
    } else if t == 6 {
      assert p[6 - t] != p[6] || p[12 - t] != p[12];
    } else if t == 7 {
      assert p[7 - t] != p[7] || p[14 - t] != p[14] || p[21 - t] != p[21];
    } else if t == 8 {
      assert p[10 - t] != p[10] || p[11 - t] != p[11] || p[12 - t] != p[12] || p[13 - t] != p[13];
    } else if t == 9 {
      assert p[10 - t] != p[10];
    } else if t >= 10 {
      assert p[t - t] != p[t];
    }
  }

  lemma {:induction false} ZerosSpread(p: seq<u8>, t: nat, k: nat)
    requires IsOrdinaryHead(p) && 1 <= t <= 4 && 6 <= k <= 13
    ensures p[k] == 0 || ShiftShows(p, t)
    decreases 13 - k
  {
    if k < 10 {
      ZerosSpread(p, t, k + t);
      assert p[k + t - t] == p[k + t] || ShiftShows(p, t);
    }
  }

  lemma OrdinaryHead(c: Codec, e: Entry)
    requires c.Fits(e) && IsOrdinary(c, e) && e.sequenceNumber > 0
    ensures IsOrdinaryHead(EncodeHeader(c, e))
  {
    var p, n := EncodeHeader(c, e), |c.encode(e.record)|;
    assert p[2..6] == U32Bytes(n);
    assert p[6..14] == U64Bytes(e.sequenceNumber);
    assert p[14..22] == I64Bytes(e.recordedAt);
    Capacities();
    assert Capacity(6) == 0x1_0000_0000_0000;
    NotAllZero(n, 4, 4);
    NotAllZero(e.sequenceNumber, 4, 8);
    UpperAreZero(e.sequenceNumber, 4, 8);
    UpperAreZero(e.recordedAt, 6, 8);
    assert forall k :: 0 <= k < 4 ==> p[2 + k] == p[2..6][k];
    assert forall k :: 0 <= k < 8 ==> p[6 + k] == p[6..14][k];
    assert forall k :: 0 <= k < 8 ==> p[14 + k] == p[14..22][k];
  }

  lemma FirstRead(c: Codec, e: Entry, bytes: seq<u8>)
    requires |bytes| >= HEADER_LENGTH && ReadsFirst(c, bytes, e)
    ensures ReadU64(bytes[..HEADER_LENGTH][6..14]) == e.sequenceNumber
    ensures ReadI64(bytes[..HEADER_LENGTH][14..22]) == e.recordedAt
  {
  }

  ghost predicate ReadsFirst(c: Codec, bytes: seq<u8>, e: Entry) {
    var read := Scan(c, bytes, true);
    read.Ok? && read.value != [] && read.value[0] == e
  }

  lemma NumberAndTimeRead(c: Codec, e: Entry, bytes: seq<u8>, p: seq<u8>, k: nat)
    requires c.Fits(e) && p == EncodeHeader(c, e)
    requires |bytes| >= HEADER_LENGTH && ReadsFirst(c, bytes, e) && 6 <= k < 22
    ensures bytes[k] == p[k]
  {
    var head := bytes[..HEADER_LENGTH];
    FirstRead(c, e, bytes);
    U64RoundTrip(e.sequenceNumber);
    I64RoundTrip(e.recordedAt);
    assert p[6..14] == U64Bytes(e.sequenceNumber);
    assert p[14..22] == I64Bytes(e.recordedAt);
    SameU64(head[6..14], p[6..14]);
    SameI64(head[14..22], p[14..22]);
    assert k < 14 ==> head[6..14][k - 6] == p[6..14][k - 6];
    assert k >= 14 ==> head[14..22][k - 14] == p[14..22][k - 14];
  }

  lemma ByteBehind(tail: seq<u8>, head: seq<u8>, rest: seq<u8>, k: nat)
    requires |tail| <= k < |tail| + |head|
    ensures (tail + (head + rest))[k] == head[k - |tail|]
  {
  }

  lemma ShortTailHidesEntry(c: Codec, bytes: seq<u8>, tail: seq<u8>, e: Entry, p: seq<u8>, rest: seq<u8>)
    requires c.Fits(e) && IsOrdinary(c, e) && e.sequenceNumber > 0 && 1 <= |tail| <= 13
    requires p == EncodeHeader(c, e) && bytes == tail + (p + rest)
    ensures !ReadsFirst(c, bytes, e)
  {
    OrdinaryHead(c, e);
    HeadIsNotPeriodic(p, |tail|);
    var k :| 6 <= k < 22 && k >= |tail| && p[k - |tail|] != p[k];
    ByteBehind(tail, p, rest, k);
    if ReadsFirst(c, bytes, e) {
      NumberAndTimeRead(c, e, bytes, p, k);
    }
  }

  lemma ShortTailHides(c: Codec, tail: seq<u8>, more: seq<Entry>)
    requires c.AllFit(more) && more != [] && IsOrdinary(c, more[0]) && more[0].sequenceNumber > 0 && 1 <= |tail| <= 13
    ensures Scan(c, tail + EncodeAll(c, more), true) != Ok(more)
  {
    var p, rest := EncodeHeader(c, more[0]), c.encode(more[0].record) + EncodeAll(c, more[1..]);
    Log.ConcatAssociates(p, c.encode(more[0].record), EncodeAll(c, more[1..]));
    ShortTailHidesEntry(c, tail + EncodeAll(c, more), tail, more[0], p, rest);
  }

  /** `append` writes behind whatever a lost tail left.  At an entry boundary the new entries are read
      back; behind a tail that still shows its sequence number they are not, and ordinary entries are not read
      back behind any tail at all. */
  lemma AppendAfterTornTail(c: Codec, es: seq<Entry>, cut: nat, more: seq<Entry>)
    requires c.Lawful() && c.AllFit(es) && cut <= |EncodeAll(c, es)|
    requires c.AllFit(more) && more != [] && Log.AtMost(es, more[0].sequenceNumber - 1)
    ensures var whole := es[..WholeWithin(c, es, cut)];
            var read := Scan(c, EncodeAll(c, es)[..cut] + EncodeAll(c, more), true);
            && (TailLength(c, es, cut) == 0 ==> read == Ok(whole + more))
            && (TailLength(c, es, cut) >= 14 ==> read != Ok(whole + more))
            && (IsOrdinary(c, more[0]) ==> (read == Ok(whole + more) <==> TailLength(c, es, cut) == 0))
  {
    var n, t, tail := WholeWithin(c, es, cut), TailLength(c, es, cut), Tail(c, es, cut);
    CutShape(c, es, cut);
    ReadBehindCut(c, es[..n], tail, more);
    if t >= 14 {
      TornHeadReadsOldNumber(c, es[n], more, t, tail + EncodeAll(c, more));
    } else if t > 0 && IsOrdinary(c, more[0]) {
      assert es[n].sequenceNumber < more[0].sequenceNumber;
      ShortTailHides(c, tail, more);
    }
  }

  lemma ScanBehindCut(c: Codec, whole: seq<Entry>, tail: seq<u8>, rest: seq<u8>)
    requires c.Lawful() && c.AllFit(whole)
    ensures Scan(c, EncodeAll(c, whole) + tail + rest, true) == Prepend(whole, Scan(c, tail + rest, true))
  {
    Log.ConcatAssociates(EncodeAll(c, whole), tail, rest);
    ScanBehind(c, whole, tail + rest, true);
  }

  lemma ReadBehindCut(c: Codec, whole: seq<Entry>, tail: seq<u8>, more: seq<Entry>)
    requires c.Lawful() && c.AllFit(whole) && c.AllFit(more)
    ensures Scan(c, EncodeAll(c, whole) + tail + EncodeAll(c, more), true) == Ok(whole + more)
       <==> Scan(c, tail + EncodeAll(c, more), true) == Ok(more)
    ensures tail == [] ==> Scan(c, tail + EncodeAll(c, more), true) == Ok(more)
  {
    ScanBehindCut(c, whole, tail, EncodeAll(c, more));
    var read := Scan(c, tail + EncodeAll(c, more), true);
    if read.Ok? && whole + read.value == whole + more {
      assert read.value == (whole + read.value)[|whole|..];
      assert more == (whole + more)[|whole|..];
    }
    if tail == [] {
      assert tail + EncodeAll(c, more) == EncodeAll(c, more);
      ScanAll(c, more, true);
    }
  }

  // ----- several appends behind a lost tail -----

  /** The length of the entry that the header at the start announces. */
  function AnnouncedLength(bytes: seq<u8>): nat
    requires |bytes| >= HEADER_LENGTH
  {
    HEADER_LENGTH + ParseHeader(bytes[..HEADER_LENGTH]).payloadLength
  }

  /** Whether a record that begins with the bytes of one entry and goes on with those of others is found out. */
  predicate ChecksumFails(c: Codec, bytes: seq<u8>)
    requires HEADER_LENGTH <= |bytes| && AnnouncedLength(bytes) <= |bytes|
  {
    c.checksum(bytes[HEADER_LENGTH..AnnouncedLength(bytes)]) != ParseHeader(bytes[..HEADER_LENGTH]).checksum
  }

  /** What reading gives from the first torn byte on. */
  function ReadOfMix(c: Codec, bytes: seq<u8>): Result<seq<Entry>, WalError>
    requires |bytes| >= HEADER_LENGTH
  {
    if AnnouncedLength(bytes) > |bytes| then Ok([]) else Err(ChecksumMismatch)
  }

  lemma ScanOfMix(c: Codec, torn: Entry, t: nat, rest: seq<u8>, bytes: seq<u8>)
    requires c.Fits(torn) && 0 < t <= |EncodeEntry(c, torn)|
    requires bytes == EncodeEntry(c, torn)[..t] + rest && |bytes| >= HEADER_LENGTH
    ensures AnnouncedLength(bytes) > |bytes| || ChecksumFails(c, bytes) ==> Scan(c, bytes, true) == ReadOfMix(c, bytes)
  {
    assert bytes[..HEADER_LENGTH][0] == EncodeEntry(c, torn)[0] == WAL_VERSION;
  }

  lemma AnnouncedByTail(c: Codec, torn: Entry, t: nat, rest: seq<u8>, bytes: seq<u8>)
    requires c.Fits(torn) && 6 <= t <= |EncodeEntry(c, torn)|
    requires bytes == EncodeEntry(c, torn)[..t] + rest && |bytes| >= HEADER_LENGTH
    ensures AnnouncedLength(bytes) == |EncodeEntry(c, torn)|
  {
    var n := |c.encode(torn.record)|;
    assert EncodeEntry(c, torn)[2..6] == U32Bytes(n);
    assert forall k :: 0 <= k < 6 ==> bytes[k] == EncodeEntry(c, torn)[k];
    assert bytes[..HEADER_LENGTH][2..6] == EncodeEntry(c, torn)[2..6];
    U32RoundTrip(n);
  }

  /** Entries appended behind a lost tail.  None is read back as long as together with the tail they are
      shorter than the entry announced there; from then on the file cannot be read, if the checksum finds the
      mixture out.  A tail of six bytes announces the lost entry. */
  lemma AppendsBehindTornTail(c: Codec, es: seq<Entry>, cut: nat, more: seq<Entry>)
    requires c.Lawful() && c.AllFit(es) && cut <= |EncodeAll(c, es)| && TailLength(c, es, cut) > 0
    requires c.AllFit(more) && more != []
    ensures var n, mix := WholeWithin(c, es, cut), Tail(c, es, cut) + EncodeAll(c, more);
            && n < |es| && |mix| >= HEADER_LENGTH
            && (TailLength(c, es, cut) >= 6 ==> AnnouncedLength(mix) == |EncodeEntry(c, es[n])|)
            && (AnnouncedLength(mix) > |mix| || ChecksumFails(c, mix) ==>
                  Scan(c, EncodeAll(c, es)[..cut] + EncodeAll(c, more), true) == Prepend(es[..n], ReadOfMix(c, mix)))
  {
    var n, t, tail := WholeWithin(c, es, cut), TailLength(c, es, cut), Tail(c, es, cut);
    var mix := tail + EncodeAll(c, more);
    CutShape(c, es, cut);
    EncodeAllStep(c, more);
    ScanBehindCut(c, es[..n], tail, EncodeAll(c, more));
    ScanOfMix(c, es[n], t, EncodeAll(c, more), mix);
    if t >= 6 {
      AnnouncedByTail(c, es[n], t, EncodeAll(c, more), mix);
    }
  }
}
