// The object that owns a log directory: the CURRENT file and one byte file per generation.
module WalManagers {
  import opened Bytes
  import opened Values
  import opened Wal
  import L = Log

  class WalManager {
    const codec: Codec
    /** The generation named by the file CURRENT. */
    var current: nat
    /** The generation files of the directory. */
    var files: map<nat, seq<u8>>
    /** What this object has written.  While the directory is `Valid` that is what its files mean; behind a tail
        that was lost before the object was made it is not, and only the bytes count. */
    ghost var generations: map<nat, seq<Entry>>

    ghost predicate Valid()
      reads this
    {
      codec.Lawful() && Represents(codec, files, generations)
    }

    ghost function View(): L.Log
      reads this
    {
      L.Log(current, generations)
    }

    constructor (codec: Codec)
      requires codec.Lawful()
      ensures Valid() && View() == L.Empty()
      ensures this.codec == codec
    {
      this.codec := codec;
      current := 1;
      files := map[];
      generations := map[];
    }

    /** The entry goes behind whatever the current file holds, a lost tail included. */
    method Append(sequenceNumber: u64, now: i64, record: Record)
      requires codec.Fits(Entry(sequenceNumber, now, record))
      modifies this
      ensures current == old(current)
      ensures files == Appended(codec, old(files), current, Entry(sequenceNumber, now, record))
      ensures View() == L.Append(old(View()), Entry(sequenceNumber, now, record))
      ensures old(Valid()) ==> Valid()
    {
      ghost var e := Entry(sequenceNumber, now, record);
      ghost var before := files;
      var payload := codec.encode(record);
      var header := BuildHeader(sequenceNumber, now, record, payload);
      var written := if current in files then files[current] else [];
      files := files[current := written + header];
      files := files[current := files[current] + payload];

      HeaderThenPayload(written, header, payload);
      assert files == Appended(codec, before, current, e);
      if Represents(codec, before, generations) {
        AppendRepresents(codec, before, generations, current, e);
      }
      generations := L.Append(View(), e).generations;
    }

    method BuildHeader(sequenceNumber: u64, now: i64, record: Record, payload: seq<u8>) returns (header: seq<u8>)
      requires codec.Fits(Entry(sequenceNumber, now, record)) && payload == codec.encode(record)
      ensures header == EncodeHeader(codec, Entry(sequenceNumber, now, record))
    {
      header := [WAL_VERSION];
      header := header + [RecordType(record)];
      header := header + U32Bytes(|payload|);
      header := header + U64Bytes(sequenceNumber);
      header := header + I64Bytes(now);
      header := header + U32Bytes(codec.checksum(payload));
    }

    static lemma HeaderThenPayload(written: seq<u8>, header: seq<u8>, payload: seq<u8>)
      ensures (written + header) + payload == written + (header + payload)
    {
    }

    method Rollover() returns (next: nat)
      modifies this`current
      ensures next == current == old(current) + 1
      ensures View() == L.Rollover(old(View()))
      ensures old(Valid()) ==> Valid()
    {
      next := current + 1;
      current := next;
    }

    /** Directory entries come in any order and are then sorted. */
    method ListGenerations() returns (gs: seq<nat>)
      ensures gs == L.Ascending(files.Keys) && L.StrictlyAscending(gs)
      ensures forall g :: g in gs ==> g in files
    {
      gs := [];
      var unread := files.Keys;
      while unread != {}
        invariant unread <= files.Keys
        invariant L.StrictlyAscending(gs)
        invariant L.Elements(gs) == files.Keys - unread
        decreases unread
      {
        var g :| g in unread;
        assert g !in gs by {
          assert g !in L.Elements(gs);
        }
        gs := Insert(gs, g);
        unread := unread - {g};
      }
      assert L.Elements(gs) == files.Keys;
      L.AscendingIsUnique(gs);
      forall g | g in gs ensures g in files { assert g in L.Elements(gs); }
    }

    static lemma ElementsOfInsert(front: seq<nat>, g: nat, back: seq<nat>)
      ensures L.Elements(front + [g] + back) == L.Elements(front + back) + {g}
    {
    }

    static lemma InsertAscends(gs: seq<nat>, i: nat, g: nat)
      requires L.StrictlyAscending(gs) && g !in gs && i <= |gs|
      requires forall k :: 0 <= k < i ==> gs[k] < g
      requires i < |gs| ==> g <= gs[i]
      ensures L.StrictlyAscending(gs[..i] + [g] + gs[i..])
    {
    }

    static method Insert(gs: seq<nat>, g: nat) returns (r: seq<nat>)
      requires L.StrictlyAscending(gs) && g !in gs
      ensures L.StrictlyAscending(r)
      ensures L.Elements(r) == L.Elements(gs) + {g}
    {
      var i := 0;
      while i < |gs| && gs[i] < g
        invariant i <= |gs|
        invariant forall k :: 0 <= k < i ==> gs[k] < g
      {
        i := i + 1;
      }
      r := gs[..i] + [g] + gs[i..];
      assert gs == gs[..i] + gs[i..];
      ElementsOfInsert(gs[..i], g, gs[i..]);
      InsertAscends(gs, i, g);
    }

    /** Any directory, whether or not its files are whole. */
    method ReplayFrom(bound: nat) returns (r: Result<seq<Entry>, WalError>)
      ensures r == ReplayAll(codec, files, current, bound)
    {
      var gs := ListGenerations();
      r := ReplayListed(gs, bound);
    }

    method ReplayListed(gs: seq<nat>, bound: nat) returns (r: Result<seq<Entry>, WalError>)
      requires forall g :: g in gs ==> g in files
      ensures r == ReplayFiles(codec, files, current, gs, bound)
    {
      var entries := [];
      var i := 0;
      while i < |gs|
        invariant i <= |gs|
        invariant ReplayFiles(codec, files, current, gs[..i], bound) == Ok(entries)
      {
        assert gs[..i + 1][..i] == gs[..i];
        var file := ScanFile(files[gs[i]], gs[i] == current, bound);
        if file.Err? {
          ErrorPersists(codec, files, current, gs, bound, i + 1);
          return file;
        }
        assert gs[..i + 1][i] == gs[i];
        entries := entries + file.value;
        i := i + 1;
      }
      assert gs[..i] == gs;
      r := Ok(entries);
    }

    /** On a directory this object wrote, a replay is that of the log. */
    lemma ReplayIsExact(bound: nat)
      requires Valid()
      ensures ReplayAll(codec, files, current, bound) == Ok(L.Replay(View(), bound))
    {
      ReplayRefinesLog(codec, files, generations, current, bound);
    }

    /** The loop over one file: an offset moves from record to record. */
    method ScanFile(bytes: seq<u8>, isCurrent: bool, bound: nat) returns (r: Result<seq<Entry>, WalError>)
      ensures r == KeepAbove(Scan(codec, bytes, isCurrent), bound)
    {
      var entries := [];
      var offset: nat := 0;
      ghost var seen := [];
      ghost var all := Scan(codec, bytes, isCurrent);
      assert bytes[0..] == bytes;
      PrependNothing(all);
      while true
        invariant offset <= |bytes| && entries == L.Above(seen, bound)
        invariant all == Prepend(seen, Scan(codec, bytes[offset..], isCurrent))
        decreases |bytes| - offset
      {
        var read :- ReadRecord(bytes, offset, isCurrent);
        if read.None? {
          break;
        }
        var (e, next) := read.value;
        if e.sequenceNumber > bound {
          entries := entries + [e];
        }
        L.AboveConcat(seen, [e], bound);
        PrependMore(seen, e, Scan(codec, bytes[next..], isCurrent));
        seen := seen + [e];
        offset := next;
      }
      assert seen + [] == seen;
      r := Ok(entries);
    }

    /** The record at the offset with the position behind it, or nothing at the end of the readable part. */
    method ReadRecord(bytes: seq<u8>, offset: nat, isCurrent: bool) returns (r: Result<Option<(Entry, nat)>, WalError>)
      requires offset <= |bytes|
      ensures r.Err? ==> Scan(codec, bytes[offset..], isCurrent) == Err(r.error)
      ensures r == Ok(None) ==> Scan(codec, bytes[offset..], isCurrent) == Ok([])
      ensures r.Ok? && r.value.Some? ==>
                && offset < r.value.value.1 <= |bytes|
                && Scan(codec, bytes[offset..], isCurrent)
                   == Prepend([r.value.value.0], Scan(codec, bytes[r.value.value.1..], isCurrent))
    {
      if offset + HEADER_LENGTH > |bytes| {
        return Ok(None);
      }
      var header := ParseHeader(bytes[offset..offset + HEADER_LENGTH]);
      assert bytes[offset..][..HEADER_LENGTH] == bytes[offset..offset + HEADER_LENGTH];
      if header.version != WAL_VERSION {
        return Err(UnsupportedVersion);
      }
      var payloadStart := offset + HEADER_LENGTH;
      var payloadEnd := payloadStart + header.payloadLength;
      if payloadEnd > |bytes| {
        return if isCurrent then Ok(None) else Err(PartialRecord);
      }
      var payload := bytes[payloadStart..payloadEnd];
      assert bytes[offset..][HEADER_LENGTH..HEADER_LENGTH + header.payloadLength] == payload;
      if codec.checksum(payload) != header.checksum {
        return Err(ChecksumMismatch);
      }
      var record := DecodeRecord(codec, header.kind, payload);
      if record.Err? {
        return Err(record.error);
      }
      assert bytes[offset..][HEADER_LENGTH + header.payloadLength..] == bytes[payloadEnd..];
      r := Ok(Some((Entry(header.sequenceNumber, header.recordedAt, record.value), payloadEnd)));
    }

    static lemma PrependNothing(r: Result<seq<Entry>, WalError>)
      ensures Prepend([], r) == r
    {
      if r.Ok? {
        assert [] + r.value == r.value;
      }
    }

    /** What a replay takes from one file. */
    static function KeepAbove(r: Result<seq<Entry>, WalError>, bound: nat): Result<seq<Entry>, WalError> {
      if r.Ok? then Ok(L.Above(r.value, bound)) else r
    }

    static lemma PrependMore(seen: seq<Entry>, e: Entry, r: Result<seq<Entry>, WalError>)
      ensures Prepend(seen, Prepend([e], r)) == Prepend(seen + [e], r)
    {
      if r.Ok? {
        assert seen + ([e] + r.value) == seen + [e] + r.value;
      }
    }

    method MaxSequenceInGeneration(g: nat) returns (last: Option<nat>)
      ensures last == if g in files then LastSequence(files[g]) else None
    {
      if g !in files {
        return None;
      }
      var bytes := files[g];
      var offset := 0;
      last := None;
      while offset + HEADER_LENGTH <= |bytes|
        invariant offset <= |bytes|
        invariant LastSequence(bytes)
               == if LastSequence(bytes[offset..]).Some? then LastSequence(bytes[offset..]) else last
      {
        var header := ParseHeader(bytes[offset..offset + HEADER_LENGTH]);
        assert bytes[offset..][..HEADER_LENGTH] == bytes[offset..offset + HEADER_LENGTH];
        var payloadEnd := offset + HEADER_LENGTH + header.payloadLength;
        if payloadEnd > |bytes| {
          break;
        }
        assert bytes[offset..][HEADER_LENGTH + header.payloadLength..] == bytes[payloadEnd..];
        last := Some(header.sequenceNumber);
        offset := payloadEnd;
      }
    }

    /** Any directory: every older file whose last whole record is covered is removed and counted. */
    method TrimThrough(bound: nat) returns (trimmed: nat)
      modifies this`files, this`generations
      ensures files == TrimFiles(old(files), current, bound)
      ensures trimmed == |RemovableFiles(old(files), current, bound)|
      ensures View() == L.Trim(old(View()), bound)
      ensures old(Valid()) ==> Valid()
    {
      if Valid() {
        TrimRefinesLog(codec, files, generations, current, bound);
      }
      var gs := ListGenerations();
      trimmed := RemoveCovered(gs, bound);
      generations := L.Trim(View(), bound).generations;
    }

    method RemoveCovered(gs: seq<nat>, bound: nat) returns (removed: nat)
      requires L.StrictlyAscending(gs) && gs == L.Ascending(files.Keys)
      modifies this`files
      ensures files == TrimFiles(old(files), current, bound)
      ensures removed == |RemovableFiles(old(files), current, bound)|
    {
      removed := 0;
      ghost var before := files;
      var i := 0;
      NothingRemoved(before, current, bound, gs);
      while i < |gs|
        invariant i <= |gs|
        invariant files == LeftOfFirst(before, current, bound, gs, i)
        invariant removed == |RemovedOfFirst(before, current, bound, gs, i)|
      {
        RemoveNext(before, current, bound, gs, i);
        CountNext(before, current, bound, gs, i);
        var covered := IsCovered(gs[i], bound);
        if covered {
          files := files - {gs[i]};
          removed := removed + 1;
        }
        i := i + 1;
      }
      AllTurnsTrim(before, current, bound, gs);
    }

    method IsCovered(g: nat, bound: nat) returns (covered: bool)
      ensures covered == RemovableFile(files, current, bound, g)
    {
      if g == current {
        return false;
      }
      var last := MaxSequenceInGeneration(g);
      covered := last.Some? && last.value <= bound;
    }

    /** What the trim loop has removed after its first `n` turns. */
    static ghost function RemovedOfFirst(files: map<nat, seq<u8>>, current: nat, bound: nat, gs: seq<nat>, n: nat)
      : set<nat>
      requires n <= |gs|
    {
      set g | g in gs[..n] && RemovableFile(files, current, bound, g)
    }

    static ghost function LeftOfFirst(files: map<nat, seq<u8>>, current: nat, bound: nat, gs: seq<nat>, n: nat)
      : map<nat, seq<u8>>
      requires n <= |gs|
    {
      files - RemovedOfFirst(files, current, bound, gs, n)
    }

    static lemma NothingRemoved(files: map<nat, seq<u8>>, current: nat, bound: nat, gs: seq<nat>)
      ensures RemovedOfFirst(files, current, bound, gs, 0) == {}
      ensures LeftOfFirst(files, current, bound, gs, 0) == files
    {
    }

    /** The next turn decides by what is left as it would by the whole directory. */
    static lemma RemoveNext(files: map<nat, seq<u8>>, current: nat, bound: nat, gs: seq<nat>, n: nat)
      requires n < |gs| && L.StrictlyAscending(gs)
      ensures var left := LeftOfFirst(files, current, bound, gs, n);
              && RemovableFile(left, current, bound, gs[n]) == RemovableFile(files, current, bound, gs[n])
              && LeftOfFirst(files, current, bound, gs, n + 1)
                 == if RemovableFile(files, current, bound, gs[n]) then left - {gs[n]} else left
    {
      var gone, next := RemovedOfFirst(files, current, bound, gs, n), RemovedOfFirst(files, current, bound, gs, n + 1);
      assert gs[n] !in gone;
      assert next == gone + if RemovableFile(files, current, bound, gs[n]) then {gs[n]} else {};
    }

    static lemma CountNext(files: map<nat, seq<u8>>, current: nat, bound: nat, gs: seq<nat>, n: nat)
      requires n < |gs| && L.StrictlyAscending(gs)
      ensures |RemovedOfFirst(files, current, bound, gs, n + 1)|
           == |RemovedOfFirst(files, current, bound, gs, n)|
              + if RemovableFile(files, current, bound, gs[n]) then 1 else 0
    {
      var gone, next := RemovedOfFirst(files, current, bound, gs, n), RemovedOfFirst(files, current, bound, gs, n + 1);
      assert gs[n] !in gone;
      assert next == gone + if RemovableFile(files, current, bound, gs[n]) then {gs[n]} else {};
    }

    static lemma AllTurnsTrim(files: map<nat, seq<u8>>, current: nat, bound: nat, gs: seq<nat>)
      requires gs == L.Ascending(files.Keys)
      ensures RemovedOfFirst(files, current, bound, gs, |gs|) == RemovableFiles(files, current, bound)
      ensures LeftOfFirst(files, current, bound, gs, |gs|) == TrimFiles(files, current, bound)
    {
      L.ElementsOfAscending(files.Keys);
      assert forall g :: g in gs[..|gs|] <==> g in L.Elements(gs);
    }
  }
}
