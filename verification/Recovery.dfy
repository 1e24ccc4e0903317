// Opening an index from the bytes of its log, and what an append that crashed on any byte leaves of it.
module Recovery {
  import opened Bytes
  import opened Values
  import opened Mappings
  import opened IndexState
  import opened Durability
  import opened Wal
  import L = Log

  /** What opening makes of the bytes of the log, the manifest and the segments: the memory of the index, or
      the error of the log. */
  ghost function OpenFiles(c: Codec, log: map<nat, seq<u8>>, current: nat, d: Disk): Result<Memory, WalError> {
    var bound := MaxSequence(d.files, d.manifest);
    match ReplayAll(c, log, current, bound)
    case Err(error) => Err(error)
    case Ok(es) =>
      Ok(Memory(d.manifest, ReplayOnto(Union(d.files, d.manifest), es), map[],
                if es == [] then bound else es[|es| - 1].sequenceNumber, d.mappings))
  }

  lemma OpensFrom(c: Codec, log: map<nat, seq<u8>>, d: Disk, wal: L.Log)
    requires ReplayAll(c, log, d.wal.current, MaxSequence(d.files, d.manifest))
          == Ok(L.Replay(wal, MaxSequence(d.files, d.manifest)))
    ensures OpenFiles(c, log, d.wal.current, d) == Ok(Open(d.(wal := wal)))
  {
  }

  // ----- opening after a lost tail -----

  function WithCurrent(log: L.Log, es: seq<Entry>): L.Log {
    log.(generations := log.generations[log.current := es])
  }

  /** An index opens with what is read from its last log file, or with the error of that file. */
  lemma OpensByLastFile(c: Codec, log: map<nat, seq<u8>>, d: Disk, bytes: seq<u8>, read: Result<seq<Entry>, WalError>)
    requires c.Lawful() && Represents(c, log, d.wal.generations)
    requires d.wal.current in log && forall g :: g in log ==> g <= d.wal.current
    requires read == Scan(c, bytes, true)
    ensures OpenFiles(c, log[d.wal.current := bytes], d.wal.current, d)
         == if read.Err? then Err(read.error) else Ok(Open(d.(wal := WithCurrent(d.wal, read.value))))
  {
    var bound := MaxSequence(d.files, d.manifest);
    ReplayWithLast(c, log, d.wal.generations, d.wal.current, bytes, d.wal.current, bound);
    if read.Ok? {
      LogOfCut(d.wal.generations, d.wal.current, read.value, bound);
      OpensFrom(c, log[d.wal.current := bytes], d, WithCurrent(d.wal, read.value));
    }
  }

  /** An index whose log lost its tail opens as if the log ended with its last whole entry. */
  lemma TornLogOpens(c: Codec, log: map<nat, seq<u8>>, d: Disk, cut: nat)
    requires c.Lawful() && Represents(c, log, d.wal.generations)
    requires d.wal.current in log && (forall g :: g in log ==> g <= d.wal.current) && cut <= |log[d.wal.current]|
    ensures c.AllFit(d.wal.generations[d.wal.current])
    ensures var es := d.wal.generations[d.wal.current];
            OpenFiles(c, CutFiles(log, d.wal.current, cut), d.wal.current, d)
            == Ok(Open(d.(wal := WithCurrent(d.wal, es[..WholeWithin(c, es, cut)]))))
  {
    var es := d.wal.generations[d.wal.current];
    ScanCut(c, es, cut, true);
    OpensByLastFile(c, log, d, log[d.wal.current][..cut], Ok(es[..WholeWithin(c, es, cut)]));
  }

  lemma AppendedToCut(c: Codec, log: map<nat, seq<u8>>, g: nat, cut: nat, more: seq<Entry>)
    requires g in log && cut <= |log[g]| && c.AllFit(more) && more != []
    ensures AppendedAll(c, CutFiles(log, g, cut), g, more) == log[g := log[g][..cut] + EncodeAll(c, more)]
  {
  }

  /** Writes to an index that was opened behind a lost tail are not there when it is opened again, as long as
      together with the tail they are shorter than the entry announced there; from then on it cannot be opened,
      if the checksum finds the mixture out. */
  lemma WritesBehindTornTail(c: Codec, log: map<nat, seq<u8>>, d: Disk, cut: nat, more: seq<Entry>)
    requires c.Lawful() && Represents(c, log, d.wal.generations) && c.AllFit(more) && more != []
    requires d.wal.current in log && (forall g :: g in log ==> g <= d.wal.current) && cut <= |log[d.wal.current]|
    requires c.AllFit(d.wal.generations[d.wal.current]) && TailLength(c, d.wal.generations[d.wal.current], cut) > 0
    ensures var es, g := d.wal.generations[d.wal.current], d.wal.current;
            var mix := Tail(c, es, cut) + EncodeAll(c, more);
            var reopened := OpenFiles(c, AppendedAll(c, CutFiles(log, g, cut), g, more), g, d);
            && |mix| >= HEADER_LENGTH
            && (AnnouncedLength(mix) > |mix| ==> reopened == OpenFiles(c, CutFiles(log, g, cut), g, d))
            && (AnnouncedLength(mix) <= |mix| && ChecksumFails(c, mix) ==> reopened == Err(ChecksumMismatch))
  {
    var g, es := d.wal.current, d.wal.generations[d.wal.current];
    TornLogOpens(c, log, d, cut);
    AppendsBehindTornTail(c, es, cut, more);
    AppendedToCut(c, log, g, cut, more);
    var bytes, mix, whole := log[g][..cut] + EncodeAll(c, more), Tail(c, es, cut) + EncodeAll(c, more),
                             es[..WholeWithin(c, es, cut)];
    if AnnouncedLength(mix) > |mix| {
      assert whole + [] == whole;
      OpensByLastFile(c, log, d, bytes, Ok(whole));
    } else if ChecksumFails(c, mix) {
      OpensByLastFile(c, log, d, bytes, Err(ChecksumMismatch));
    }
  }

  /** The log after an append that crashed having written `cut` bytes of its entry. */
  ghost function CrashedAppend(c: Codec, log: map<nat, seq<u8>>, current: nat, e: Entry, cut: nat): map<nat, seq<u8>>
    requires c.Fits(e) && cut <= |EncodeEntry(c, e)|
  {
    log[current := (if current in log then log[current] else []) + EncodeEntry(c, e)[..cut]]
  }

  function CurrentEntries(log: L.Log): seq<Entry> {
    if log.current in log.generations then log.generations[log.current] else []
  }

  lemma {:induction false} CutInLast(c: Codec, es: seq<Entry>, e: Entry, cut: nat, n: nat) returns (k: nat)
    requires c.AllFit(es) && c.Fits(e) && cut <= |EncodeEntry(c, e)| && n == |EncodeAll(c, es)| + cut
    ensures c.AllFit(es + [e]) && k == WholeWithin(c, es + [e], n)
    ensures k == |es| + if cut == |EncodeEntry(c, e)| then 1 else 0
  {
    if es == [] {
      assert [] + [e] == [e];
    } else {
      EncodeAllStep(c, es);
      assert (es + [e])[0] == es[0] && (es + [e])[1..] == es[1..] + [e];
      var _ := CutInLast(c, es[1..], e, cut, n - |EncodeEntry(c, es[0])|);
    }
    k := WholeWithin(c, es + [e], n);
  }

  lemma CutOfAppended(log: map<nat, seq<u8>>, g: nat, written: seq<u8>, more: seq<u8>, cut: nat, n: nat)
    requires cut <= |more| && n == |written| + cut
    ensures CutFiles(log[g := written + more], g, n) == log[g := written + more[..cut]]
  {
    assert (written + more)[..n] == written + more[..cut];
  }

  /** The crash leaves the file of the whole append, cut. */
  lemma CrashedIsCut(c: Codec, log: map<nat, seq<u8>>, before: L.Log, e: Entry, cut: nat) returns (n: nat)
    requires Represents(c, log, before.generations) && c.Fits(e) && cut <= |EncodeEntry(c, e)|
    ensures c.AllFit(CurrentEntries(before)) && n == |EncodeAll(c, CurrentEntries(before))| + cut
    ensures n <= |Appended(c, log, before.current, e)[before.current]|
    ensures CrashedAppend(c, log, before.current, e, cut)
         == CutFiles(Appended(c, log, before.current, e), before.current, n)
  {
    var written := EncodeAll(c, CurrentEntries(before));
    n := |written| + cut;
    CutOfAppended(log, before.current, written, EncodeEntry(c, e), cut, n);
  }

  /** Cutting the new entry off again, or an empty file in its place, changes nothing for a replay. */
  lemma WithoutTheNewEntry(before: L.Log, e: Entry)
    requires L.WellFormed(before)
    ensures L.Flatten(WithCurrent(L.Append(before, e), CurrentEntries(before)).generations)
         == L.Flatten(before.generations)
  {
    var g, es := before.current, CurrentEntries(before);
    SameBeside(before.generations, g, CurrentEntries(before) + [e], es);
    L.FlattenAtLast(before.generations, g);
    L.FlattenAtLast(before.generations[g := es + [e]][g := es], g);
  }

  lemma SameBeside(generations: map<nat, seq<Entry>>, g: nat, a: seq<Entry>, b: seq<Entry>)
    ensures generations[g := a][g := b] - {g} == generations - {g}
  {
  }

  lemma WithTheNewEntry(before: L.Log, e: Entry)
    ensures WithCurrent(L.Append(before, e), CurrentEntries(before) + [e]) == L.Append(before, e)
  {
  }

  lemma TornAppendReplays(c: Codec, log: map<nat, seq<u8>>, before: L.Log, e: Entry, torn: map<nat, seq<u8>>,
                          n: nat, k: nat, bound: nat)
    requires c.Lawful() && Represents(c, log, before.generations) && L.WellFormed(before) && c.Fits(e)
    requires n <= |Appended(c, log, before.current, e)[before.current]|
    requires torn == CutFiles(Appended(c, log, before.current, e), before.current, n)
    requires c.AllFit(CurrentEntries(before) + [e]) && k == WholeWithin(c, CurrentEntries(before) + [e], n)
    ensures ReplayAll(c, torn, before.current, bound)
         == Ok(L.Replay(WithCurrent(L.Append(before, e), (CurrentEntries(before) + [e])[..k]), bound))
  {
    AppendRepresents(c, log, before.generations, before.current, e);
    TornTailReplay(c, Appended(c, log, before.current, e), L.Append(before, e).generations, before.current, n, bound);
  }

  /** The log after the crash: the old one, or the one with the entry written whole. */
  ghost function LogAfterCrash(before: L.Log, e: Entry, complete: bool): L.Log {
    if complete then L.Append(before, e) else before
  }

  lemma KeptAfterCrash(before: L.Log, e: Entry, k: nat, complete: bool, bound: nat)
    requires L.WellFormed(before) && k == |CurrentEntries(before)| + if complete then 1 else 0
    ensures L.Replay(WithCurrent(L.Append(before, e), (CurrentEntries(before) + [e])[..k]), bound)
         == L.Replay(LogAfterCrash(before, e, complete), bound)
  {
    var es := CurrentEntries(before);
    if complete {
      assert (es + [e])[..k] == es + [e];
      WithTheNewEntry(before, e);
    } else {
      assert (es + [e])[..k] == es;
      WithoutTheNewEntry(before, e);
    }
  }

  lemma CrashedAppendReplays(c: Codec, log: map<nat, seq<u8>>, before: L.Log, e: Entry, cut: nat,
                             torn: map<nat, seq<u8>>, bound: nat)
    requires c.Lawful() && Represents(c, log, before.generations) && L.WellFormed(before)
    requires c.Fits(e) && cut <= |EncodeEntry(c, e)| && torn == CrashedAppend(c, log, before.current, e, cut)
    ensures ReplayAll(c, torn, before.current, bound)
         == Ok(L.Replay(LogAfterCrash(before, e, cut == |EncodeEntry(c, e)|), bound))
  {
    var n := CrashedIsCut(c, log, before, e, cut);
    var k := CutInLast(c, CurrentEntries(before), e, cut, n);
    TornAppendReplays(c, log, before, e, torn, n, k, bound);
    KeptAfterCrash(before, e, k, cut == |EncodeEntry(c, e)|, bound);
  }

  /** An append that crashes after any byte loses nothing that was acknowledged: the index opens with its
      whole history, and with the new entry exactly if that was written to its last byte. */
  lemma CrashedAppendOpens(c: Codec, log: map<nat, seq<u8>>, d: Disk, h: seq<Entry>, e: Entry, cut: nat)
    requires c.Lawful() && Represents(c, log, d.wal.generations) && DiskHolds(d, h)
    requires c.Fits(e) && e.sequenceNumber == L.LastNumber(h) + 1 && cut <= |EncodeEntry(c, e)|
    ensures var after := OpenFiles(c, CrashedAppend(c, log, d.wal.current, e, cut), d.wal.current, d);
            var kept := if cut == |EncodeEntry(c, e)| then h + [e] else h;
            && after.Ok?
            && after.value.searchable == Fold(kept)
            && after.value.lastSequence == L.LastNumber(kept)
  {
    var torn := CrashedAppend(c, log, d.wal.current, e, cut);
    CrashedAppendReplays(c, log, d.wal, e, cut, torn, MaxSequence(d.files, d.manifest));
    OpensFrom(c, torn, d, LogAfterCrash(d.wal, e, cut == |EncodeEntry(c, e)|));
    ReopenReplays(d, h);
    if cut == |EncodeEntry(c, e)| {
      AppendHolds(d, h, e);
      ReopenReplays(d.(wal := L.Append(d.wal, e)), h + [e]);
    }
  }
}
