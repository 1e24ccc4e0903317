// The object behind an open index: its fields are updated in place, and each method is the function of
// the same name in IndexState.
module IndexHandles {
  import opened Bytes
  import opened Values
  import opened Mappings
  import opened IndexState
  import opened Durability
  import opened Flushing
  import opened Recovery
  import opened Runs
  import opened Snapshots
  import opened Wal
  import opened WalManagers
  import L = Log

  /** The directory of an index: manifest.json, the segment files, metadata.json and the named snapshots. */
  class IndexDirectory {
    var manifest: Manifest
    var files: map<nat, Snapshot>
    var mappings: FieldMappings
    var snapshots: map<Text, SnapshotFile>

    constructor (mappings: FieldMappings)
      ensures manifest == [] && files == map[] && this.mappings == mappings && snapshots == map[]
    {
      manifest := [];
      files := map[];
      snapshots := map[];
      this.mappings := mappings;
    }
  }

  datatype BulkOperation =
    | BulkIndex(id: Text, source: Json)
    | BulkDelete(id: Text)
  {
    function AsEvent(now: i64): Event {
      match this
      case BulkIndex(id, source) => Indexing(id, source, now)
      case BulkDelete(id) => Deleting(id, now)
    }

    function AsRecord(): Record {
      match this
      case BulkIndex(id, source) => IndexDocument(id, source)
      case BulkDelete(id) => DeleteDocument(id)
    }
  }

  /** What a bulk request answers for one operation. */
  function Answer(settings: Settings, s: State, operation: BulkOperation, now: i64): Result<nat, MappingError> {
    match operation
    case BulkIndex(id, source) =>
      var indexed :- IndexDoc(settings, s, id, source, now);
      Ok(indexed.memory.lastSequence)
    case BulkDelete(id) => Ok(s.memory.lastSequence + 1)
  }

  /** The state behind one operation of a bulk request. */
  function Applied(settings: Settings, s: State, operation: BulkOperation, now: i64): State {
    match operation
    case BulkIndex(id, source) =>
      var indexed := IndexDoc(settings, s, id, source, now);
      if indexed.Ok? then indexed.value else s
    case BulkDelete(id) => DeleteDoc(s, id, now)
  }

  function AsEvents(operations: seq<BulkOperation>, now: i64): seq<Event> {
    seq(|operations|, i requires 0 <= i < |operations| => operations[i].AsEvent(now))
  }

  /** The state of the disk after each step of a flush up to the trim. */
  ghost function DisksToTrim(settings: Settings, s: State): (disks: seq<Disk>)
    ensures disks == [s.disk, RolledOver(s.disk), WithSegmentFile(s.disk, s.memory),
                      WithSwappedManifest(s.disk, s.memory), Trimmed(s.disk, s.memory)]
  {
    [DiskAt(settings, s, BeforeFlush), DiskAt(settings, s, AfterRollover), DiskAt(settings, s, AfterSegmentFile),
     DiskAt(settings, s, AfterManifestSwap), DiskAt(settings, s, DuringTrim(CoveredGenerations(s.disk, s.memory)))]
  }

  /** The state of the disk after each step of a flush. */
  ghost function FlushDisks(settings: Settings, s: State): seq<Disk> {
    DisksToTrim(settings, s)
    + (if PlanMerge(settings.Threshold(), ExtendedManifest(s.memory)).Some?
       then [DiskAt(settings, s, AfterMergedFile), DiskAt(settings, s, AfterFlush)] else [])
  }

  lemma PlanIsNotEmpty(threshold: nat, segments: Manifest)
    ensures PlanMerge(threshold, segments).Some? ==> PlanMerge(threshold, segments).value != []
  {
  }

  lemma FlushMergesNothing(settings: Settings, s: State, flushed: State)
    requires flushed == IndexState.FlushWithoutMerge(s)
    requires PlanMerge(settings.Threshold(), flushed.memory.manifest).None?
    ensures IndexState.Flush(settings, s) == flushed
    ensures FlushDisks(settings, s) == DisksToTrim(settings, s)
  {
    assert DisksToTrim(settings, s) + [] == DisksToTrim(settings, s);
  }

  lemma DisksOfMerge(settings: Settings, s: State, between: Disk, after: Disk)
    requires PlanMerge(settings.Threshold(), ExtendedManifest(s.memory)).Some?
    requires between == DiskAt(settings, s, AfterMergedFile) && after == IndexState.Flush(settings, s).disk
    ensures FlushDisks(settings, s) == DisksToTrim(settings, s) + [between, after]
  {
  }

  /** Pending operations applied one by one, in any order. */
  method Overlay(docs: Docs, pending: Pending) returns (r: Docs)
    ensures r == ApplyPending(docs, pending)
  {
    r := docs;
    var rest := pending.Keys;
    while rest != {}
      invariant rest <= pending.Keys
      invariant forall id :: Lookup(r, id)
                          == Lookup(if id in rest then docs else ApplyPending(docs, pending), id)
      decreases rest
    {
      var id :| id in rest;
      match pending[id] {
        case Upsert(source) => r := r[id := source];
        case Delete => r := r - {id};
      }
      rest := rest - {id};
    }
    SameLookups(r, ApplyPending(docs, pending));
  }

  /** The documents of the segments, last write winning, and the highest number among them. */
  method LoadSegments(files: map<nat, Snapshot>, segments: Manifest) returns (docs: Docs, bound: nat)
    ensures docs == Union(files, segments) && bound == MaxSequence(files, segments)
  {
    docs, bound := map[], 0;
    var i := 0;
    while i < |segments|
      invariant i <= |segments|
      invariant docs == Union(files, segments[..i]) && bound == MaxSequence(files, segments[..i])
    {
      assert segments[..i + 1] == segments[..i] + [segments[i]];
      UnionStep(files, segments[..i], segments[i]);
      if segments[i].segmentNumber in files {
        docs := docs + files[segments[i].segmentNumber].documents;
        if segments[i].lastSequence > bound {
          bound := segments[i].lastSequence;
        }
      }
      i := i + 1;
    }
    assert segments[..i] == segments;
  }

  method ReplayEntries(docs: Docs, bound: nat, entries: seq<Entry>) returns (r: Docs, last: nat)
    ensures r == ReplayOnto(docs, entries)
    ensures last == if entries == [] then bound else entries[|entries| - 1].sequenceNumber
  {
    r, last := docs, bound;
    var i := 0;
    while i < |entries|
      invariant i <= |entries|
      invariant r == ReplayOnto(docs, entries[..i])
      invariant last == if i == 0 then bound else entries[i - 1].sequenceNumber
    {
      assert entries[..i + 1][..i] == entries[..i];
      last := entries[i].sequenceNumber;
      match entries[i].record {
        case IndexDocument(id, source) => r := r[id := source];
        case DeleteDocument(id) => r := r - {id};
        case MappingUpdate(_, _) =>
      }
      i := i + 1;
    }
    assert entries[..i] == entries;
  }

  class IndexHandle {
    const settings: Settings
    const wal: WalManager
    const dir: IndexDirectory
    var manifest: Manifest
    var searchable: Docs
    var pending: Pending
    var lastSequence: nat
    var mappings: FieldMappings

    /** The log is whole.  No operation needs this: a handle opened behind a lost tail has them all. */
    ghost predicate Valid()
      reads this, wal
    {
      wal.Valid()
    }

    ghost function OnDisk(): Disk
      reads wal, dir
    {
      Disk(wal.View(), dir.manifest, dir.files, dir.mappings)
    }

    ghost function View(): State
      reads this, wal, dir
    {
      State(OnDisk(), Memory(manifest, searchable, pending, lastSequence, mappings))
    }

    /** Whether the log can take the next entry: it has room for its number and its payload. */
    predicate CanLog(record: Record, now: i64)
      reads this
    {
      wal.codec.Fits(Entry(lastSequence + 1, now, record))
    }

    constructor Loaded(settings: Settings, wal: WalManager, dir: IndexDirectory, manifest: Manifest, searchable: Docs,
                       lastSequence: nat, mappings: FieldMappings)
      ensures this.settings == settings && this.wal == wal && this.dir == dir
      ensures this.manifest == manifest && this.searchable == searchable && pending == map[]
      ensures this.lastSequence == lastSequence && this.mappings == mappings
    {
      this.settings, this.wal, this.dir := settings, wal, dir;
      this.manifest, this.searchable, this.pending := manifest, searchable, map[];
      this.lastSequence, this.mappings := lastSequence, mappings;
    }

    /** Any directory: opening fails exactly when the log cannot be replayed, with its error; otherwise the
        handle shows what the disk holds. */
    static method OpenIndex(settings: Settings, wal: WalManager, dir: IndexDirectory)
      returns (r: Result<IndexHandle, WalError>)
      ensures var d := Disk(wal.View(), dir.manifest, dir.files, dir.mappings);
              && (r.Err? ==> OpenFiles(wal.codec, wal.files, wal.current, d) == Err(r.error))
              && (r.Ok? ==> OpenFiles(wal.codec, wal.files, wal.current, d) == Ok(r.value.View().memory))
      ensures r.Ok? ==> fresh(r.value) && r.value.wal == wal && r.value.dir == dir && r.value.settings == settings
      ensures wal.Valid() ==>
                r.Ok? && r.value.Valid() && r.value.View() == State(r.value.OnDisk(), Open(r.value.OnDisk()))
    {
      var docs, bound := LoadSegments(dir.files, dir.manifest);
      var replayed := wal.ReplayFrom(bound);
      if wal.Valid() {
        wal.ReplayIsExact(bound);
      }
      if replayed.Err? {
        return Err(replayed.error);
      }
      var searchable, last := ReplayEntries(docs, bound, replayed.value);
      var handle := new IndexHandle.Loaded(settings, wal, dir, dir.manifest, searchable, last, dir.mappings);
      r := Ok(handle);
    }

    method ValidateAndUpdateMappings(source: Json) returns (r: Result<(), MappingError>)
      modifies this`mappings, dir`mappings
      ensures var checked := Validate(settings.clock, settings.mode, old(mappings), source);
              if checked.Ok? then r == Ok(()) && View() == SetMappings(old(View()), checked.value)
              else r == Err(checked.error) && View() == old(View())
    {
      var updated := ValidateAndUpdate(settings.clock, settings.mode, mappings, source);
      if updated.Err? {
        return Err(updated.error);
      }
      mappings := updated.value;
      dir.mappings := updated.value;
      r := Ok(());
    }

    /** The log is written first; only then does memory show the operation. */
    method LogOperation(record: Record, op: PendingOperation, now: i64) returns (number: nat)
      requires CanLog(record, now) && (record.IndexDocument? || record.DeleteDocument?)
      modifies this`pending, this`lastSequence, wal
      ensures old(Valid()) ==> Valid()
      ensures View() == IndexState.Log(old(View()), now, record, op)
      ensures number == lastSequence == old(lastSequence) + 1
      ensures wal.files == Appended(wal.codec, old(wal.files), wal.current, Entry(number, now, record))
    {
      ghost var s := View();
      number := lastSequence + 1;
      wal.Append(number, now, record);
      assert OnDisk() == s.disk.(wal := L.Append(s.disk.wal, Entry(number, now, record)));
      pending := pending[record.id := op];
      lastSequence := number;
      assert View().memory == s.memory.(pending := s.memory.pending[record.id := op], lastSequence := number);
    }

    static lemma IndexDocIs(settings: Settings, s: State, id: Text, source: Json, now: i64)
      ensures var checked := Validate(settings.clock, settings.mode, s.memory.mappings, source);
              IndexDoc(settings, s, id, source, now)
              == if checked.Err? then Err(checked.error)
                 else Ok(IndexState.Log(SetMappings(s, checked.value), now, Record.IndexDocument(id, source),
                                        Upsert(source)))
    {
    }

    /** A rejected document changes nothing. */
    method IndexDocument(id: Text, source: Json, now: i64) returns (r: Result<nat, MappingError>)
      requires CanLog(Record.IndexDocument(id, source), now)
      modifies this`mappings, this`pending, this`lastSequence, wal, dir`mappings
      ensures old(Valid()) ==> Valid()
      ensures var indexed := IndexDoc(settings, old(View()), id, source, now);
              if indexed.Ok? then r == Ok(lastSequence) && View() == indexed.value
              else r == Err(indexed.error) && View() == old(View())
      ensures r.Err? ==> wal.files == old(wal.files)
      ensures r.Ok? ==>
                && r.value == old(lastSequence) + 1
                && wal.files == Appended(wal.codec, old(wal.files), wal.current,
                                         Entry(r.value, now, Record.IndexDocument(id, source)))
    {
      IndexDocIs(settings, View(), id, source, now);
      var checked := ValidateAndUpdateMappings(source);
      if checked.Err? {
        return Err(checked.error);
      }
      var number := LogOperation(Record.IndexDocument(id, source), Upsert(source), now);
      r := Ok(number);
    }

    method DeleteDocument(id: Text, now: i64) returns (number: nat)
      requires CanLog(Record.DeleteDocument(id), now)
      modifies this`pending, this`lastSequence, wal
      ensures old(Valid()) ==> Valid()
      ensures View() == DeleteDoc(old(View()), id, now)
      ensures number == lastSequence == old(lastSequence) + 1
      ensures wal.files == Appended(wal.codec, old(wal.files), wal.current,
                                    Entry(number, now, Record.DeleteDocument(id)))
    {
      number := LogOperation(Record.DeleteDocument(id), Delete, now);
    }

    method Refresh() returns (refreshed: nat)
      modifies this`searchable, this`pending
      ensures View() == IndexState.Refresh(old(View()))
      ensures refreshed == |old(pending)|
    {
      refreshed := |pending|;
      searchable := Overlay(searchable, pending);
      pending := map[];
    }

    method Merge() returns (merged: nat)
      modifies this`searchable
      ensures View() == IndexState.Merge(old(View()))
      ensures merged == |Live(old(View().memory))|
    {
      var docs := Overlay(searchable, pending);
      merged := |docs|;
      searchable := docs;
    }

    method GetDocument(id: Text) returns (source: Option<Json>)
      ensures source == Lookup(Live(View().memory), id)
    {
      if id in pending {
        match pending[id] {
          case Upsert(s) => source := Some(s);
          case Delete => source := None;
        }
      } else if id in searchable {
        source := Some(searchable[id]);
      } else {
        source := None;
      }
    }

    /** A bulk request is its operations in order; one that is rejected does not stop the others. */
    method BulkApply(operations: seq<BulkOperation>, now: i64)
      returns (errors: bool, items: seq<Result<nat, MappingError>>)
      requires lastSequence + |operations| < TWO_64
      requires forall i :: 0 <= i < |operations| ==> |wal.codec.encode(operations[i].AsRecord())| < 0x1_0000_0000
      modifies this`mappings, this`pending, this`lastSequence, wal, dir`mappings
      ensures old(Valid()) ==> Valid()
      ensures View() == Run(settings, old(View()), AsEvents(operations, now))
      ensures var logged := History(settings, old(View()), AsEvents(operations, now));
              wal.codec.AllFit(logged) && wal.files == AppendedAll(wal.codec, old(wal.files), wal.current, logged)
      ensures items == Answers(settings, old(View()), operations, now) && errors == AnyRejected(items)
    {
      ghost var start, before := View(), wal.files;
      errors, items := false, [];
      var i := 0;
      while i < |operations|
        invariant i <= |operations| && lastSequence <= start.memory.lastSequence + i
        invariant old(Valid()) ==> Valid()
        invariant View() == Run(settings, start, AsEvents(operations[..i], now))
        invariant HasLogged(wal.codec, before, wal.files, wal.current,
                            History(settings, start, AsEvents(operations[..i], now)))
        invariant items == Answers(settings, start, operations[..i], now) && errors == AnyRejected(items)
      {
        NextTurn(settings, start, operations, i, now);
        ghost var s, files := View(), wal.files;
        var item := ApplyOne(operations[i], now);
        MoreLogged(wal.codec, before, files, wal.files, wal.current,
                   History(settings, start, AsEvents(operations[..i], now)),
                   Acknowledged(settings, s, operations[i].AsEvent(now)));
        OneMoreItem(items, item);
        errors := errors || item.Err?;
        items := items + [item];
        i := i + 1;
      }
      assert operations[..i] == operations;
    }

    method ApplyOne(operation: BulkOperation, now: i64) returns (item: Result<nat, MappingError>)
      requires CanLog(operation.AsRecord(), now)
      modifies this`mappings, this`pending, this`lastSequence, wal, dir`mappings
      ensures old(Valid()) ==> Valid()
      ensures View() == Applied(settings, old(View()), operation, now)
      ensures item == Answer(settings, old(View()), operation, now)
      ensures HasLogged(wal.codec, old(wal.files), wal.files, wal.current,
                        Acknowledged(settings, old(View()), operation.AsEvent(now)))
      ensures lastSequence <= old(lastSequence) + 1 && wal.current == old(wal.current)
    {
      OneLogged(settings, View(), operation, now, wal.codec, wal.files, wal.current,
                Entry(lastSequence + 1, now, operation.AsRecord()));
      match operation {
        case BulkIndex(id, source) =>
          item := IndexDocument(id, source, now);
        case BulkDelete(id) =>
          var number := DeleteDocument(id, now);
          item := Ok(number);
      }
    }

    /** The log files have grown by these entries. */
    static ghost predicate HasLogged(c: Codec, before: map<nat, seq<u8>>, after: map<nat, seq<u8>>, current: nat,
                                     logged: seq<Entry>)
    {
      c.AllFit(logged) && after == AppendedAll(c, before, current, logged)
    }

    static lemma OneLogged(settings: Settings, s: State, operation: BulkOperation, now: i64, c: Codec,
                           files: map<nat, seq<u8>>, current: nat, e: Entry)
      requires e == Entry(s.memory.lastSequence + 1, now, operation.AsRecord()) && c.Fits(e)
      ensures Answer(settings, s, operation, now).Err? ==>
                HasLogged(c, files, files, current, Acknowledged(settings, s, operation.AsEvent(now)))
      ensures Answer(settings, s, operation, now).Ok? ==>
                HasLogged(c, files, Appended(c, files, current, e), current,
                          Acknowledged(settings, s, operation.AsEvent(now)))
    {
      AppendedOne(c, files, current, e);
    }

    static lemma MoreLogged(c: Codec, before: map<nat, seq<u8>>, files: map<nat, seq<u8>>, after: map<nat, seq<u8>>,
                            current: nat, logged: seq<Entry>, more: seq<Entry>)
      requires HasLogged(c, before, files, current, logged) && HasLogged(c, files, after, current, more)
      ensures HasLogged(c, before, after, current, logged + more)
    {
      AppendedMore(c, before, current, logged, more);
    }

    /** The answers of a bulk request, each from the state its operation finds. */
    static ghost function Answers(settings: Settings, start: State, operations: seq<BulkOperation>, now: i64)
      : seq<Result<nat, MappingError>>
    {
      if operations == [] then []
      else
        var front := operations[..|operations| - 1];
        Answers(settings, start, front, now)
        + [Answer(settings, Run(settings, start, AsEvents(front, now)), operations[|operations| - 1], now)]
    }

    /** The numbers under which operations were accepted. */
    static function Numbers(items: seq<Result<nat, MappingError>>): seq<nat> {
      if items == [] then []
      else
        var front, last := Numbers(items[..|items| - 1]), items[|items| - 1];
        if last.Ok? then front + [last.value] else front
    }

    static function NumbersOf(es: seq<Entry>): seq<nat> {
      seq(|es|, i requires 0 <= i < |es| => es[i].sequenceNumber)
    }

    /** The items carry the numbers of the logged entries, in order. */
    static lemma {:induction false} ItemsCarryNumbers(settings: Settings, start: State, operations: seq<BulkOperation>,
                                                      now: i64)
      ensures Numbers(Answers(settings, start, operations, now))
           == NumbersOf(History(settings, start, AsEvents(operations, now)))
    {
      if operations != [] {
        var i := |operations| - 1;
        ItemsCarryNumbers(settings, start, operations[..i], now);
        NextTurn(settings, start, operations, i, now);
        assert operations[..i + 1] == operations;
        var s := Run(settings, start, AsEvents(operations[..i], now));
        OneNumber(settings, s, operations[i], now);
        NumbersConcat(History(settings, start, AsEvents(operations[..i], now)),
                      Acknowledged(settings, s, operations[i].AsEvent(now)));
        OneItemMore(Answers(settings, start, operations[..i], now), Answer(settings, s, operations[i], now));
      }
    }

    static lemma OneItemMore(items: seq<Result<nat, MappingError>>, item: Result<nat, MappingError>)
      ensures Numbers(items + [item]) == Numbers(items) + if item.Ok? then [item.value] else []
    {
      assert (items + [item])[..|items|] == items && Numbers(items) + [] == Numbers(items);
    }

    static lemma NumbersConcat(a: seq<Entry>, b: seq<Entry>)
      ensures NumbersOf(a + b) == NumbersOf(a) + NumbersOf(b)
    {
    }

    static lemma OneNumber(settings: Settings, s: State, operation: BulkOperation, now: i64)
      ensures var item := Answer(settings, s, operation, now);
              NumbersOf(Acknowledged(settings, s, operation.AsEvent(now))) == if item.Ok? then [item.value] else []
    {
    }

    static ghost predicate AnyRejected(items: seq<Result<nat, MappingError>>) {
      exists i :: 0 <= i < |items| && items[i].Err?
    }

    static lemma OneMoreItem(items: seq<Result<nat, MappingError>>, item: Result<nat, MappingError>)
      ensures AnyRejected(items + [item]) <==> AnyRejected(items) || item.Err?
    {
      if AnyRejected(items) {
        var i :| 0 <= i < |items| && items[i].Err?;
        assert (items + [item])[i].Err?;
      }
      assert (items + [item])[|items|] == item;
    }

    static lemma NextTurn(settings: Settings, start: State, operations: seq<BulkOperation>, i: nat, now: i64)
      requires i < |operations|
      ensures var evs, more := AsEvents(operations[..i], now), AsEvents(operations[..i + 1], now);
              var s, ev := Run(settings, start, evs), operations[i].AsEvent(now);
              && Run(settings, start, more) == Applied(settings, s, operations[i], now)
              && History(settings, start, more) == History(settings, start, evs) + Acknowledged(settings, s, ev)
              && Answers(settings, start, operations[..i + 1], now)
                 == Answers(settings, start, operations[..i], now) + [Answer(settings, s, operations[i], now)]
    {
      var evs := AsEvents(operations[..i + 1], now);
      assert evs[..i] == AsEvents(operations[..i], now);
      assert operations[..i + 1][..i] == operations[..i];
    }

    /** The live documents and the last number, with their metadata, under a name; the index stays as it is. */
    method CreateSnapshot(name: Text, checksum: Snapshot -> u32) returns (r: Result<SnapshotMetadata, SnapshotError>)
      modifies dir`snapshots
      ensures View() == old(View())
      ensures var snapshot := IndexState.CreateSnapshot(View().memory);
              if IsValidName(name)
              then r == Ok(MetadataOf(name, snapshot, checksum))
                   && dir.snapshots == Written(old(dir.snapshots), name, snapshot, checksum)
              else r == Err(InvalidName) && dir.snapshots == old(dir.snapshots)
    {
      var docs := Overlay(searchable, pending);
      var snapshot := Snapshot(lastSequence, docs);
      var metadata := SnapshotMetadata(name, lastSequence, |docs|, checksum(snapshot));
      if !IsValidName(name) {
        return Err(InvalidName);
      }
      dir.snapshots := dir.snapshots[DataPath(name) := DataFile(snapshot)];
      dir.snapshots := dir.snapshots[MetadataPath(name) := MetadataFile(metadata)];
      r := Ok(metadata);
    }

    /** A snapshot that cannot be read, or whose checksum is wrong, changes nothing.  The new last number is
        the one in the metadata. */
    method RestoreSnapshot(name: Text, checksum: Snapshot -> u32) returns (r: Result<nat, SnapshotError>)
      modifies this, wal
      ensures old(Valid()) ==> Valid()
      ensures var read := ReadNamed(dir.snapshots, name, checksum);
              if read.Err? then r == Err(read.error) && View() == old(View()) && wal.files == old(wal.files)
              else
                && wal.files == TrimFiles(old(wal.files), wal.current, read.value.0.lastSequence)
                && r == Ok(|read.value.0.documents|)
                && View().disk == IndexState.RestoreSnapshot(old(View()), read.value.0).disk
                && View().memory == IndexState.RestoreSnapshot(old(View()), read.value.0)
                                    .memory.(lastSequence := read.value.1.lastSequence)
    {
      var read := ReadNamed(dir.snapshots, name, checksum);
      if read.Err? {
        return Err(read.error);
      }
      var (snapshot, metadata) := read.value;
      searchable := snapshot.documents;
      pending := map[];
      lastSequence := metadata.lastSequence;
      var _ := wal.Rollover();
      var _ := wal.TrimThrough(snapshot.lastSequence);
      r := Ok(|snapshot.documents|);
    }

    /** What was created under a name is what a restore by that name shows. */
    lemma RestoresTheCreated(files: map<Text, SnapshotFile>, name: Text, taken: Memory, s: State,
                             checksum: Snapshot -> u32)
      requires IsValidName(name)
      ensures var read := ReadNamed(Written(files, name, IndexState.CreateSnapshot(taken), checksum), name, checksum);
              && read.Ok?
              && Live(IndexState.RestoreSnapshot(s, read.value.0).memory) == Live(taken)
              && read.value.1.lastSequence == read.value.0.lastSequence == taken.lastSequence
    {
      WrittenReadsBack(files, name, IndexState.CreateSnapshot(taken), checksum);
      SnapshotRestoresLive(taken, s);
    }

    /** Segments of the plan are read, overlaid by the pending operations, written as one new segment, and
        replaced by it in the manifest. */
    method ApplyMergePlan(plan: Manifest) returns (ghost between: Disk)
      modifies this, dir
      ensures View() == IndexState.ApplyMergePlan(old(View()), plan)
      ensures plan != [] ==> between == WithMergedFile(old(OnDisk()), old(View()).memory, plan)
    {
      between := OnDisk();
      if plan == [] {
        return;
      }
      var collected, _ := LoadSegments(dir.files, plan);
      var merged := Overlay(collected, pending);
      var number := NextSegmentNumber(manifest);
      dir.files := dir.files[number := Snapshot(lastSequence, merged)];
      between := OnDisk();
      var kept := Keep(manifest, plan);
      var updated := kept + [SegmentMeta(number, lastSequence, |merged|)];
      dir.manifest := updated;
      manifest := updated;
      searchable := merged;
    }

    static method Keep(segments: Manifest, plan: Manifest) returns (kept: Manifest)
      ensures kept == Without(segments, plan)
    {
      kept := [];
      var i := 0;
      while i < |segments|
        invariant i <= |segments|
        invariant kept == Without(segments[..i], plan)
      {
        assert segments[..i + 1][..i] == segments[..i];
        if !Names(plan, segments[i].segmentNumber) {
          kept := kept + [segments[i]];
        }
        i := i + 1;
      }
      assert segments[..i] == segments;
    }

    /** The steps of a flush up to the trim. */
    method FlushWithoutMerge() returns (ghost disks: seq<Disk>)
      modifies this, wal, dir
      ensures old(Valid()) ==> Valid()
      ensures View() == IndexState.FlushWithoutMerge(old(View()))
      ensures wal.files == TrimFiles(old(wal.files), wal.current, old(lastSequence))
      ensures disks == DisksToTrim(settings, old(View()))
    {
      ghost var d, m := OnDisk(), View().memory;
      var _ := wal.Rollover();
      ghost var rolled := OnDisk();
      assert rolled == RolledOver(d);
      var number := NextSegmentNumber(manifest);
      dir.files := dir.files[number := Snapshot(lastSequence, searchable)];
      ghost var written := OnDisk();
      assert written == WithSegmentFile(d, m);
      var updated := manifest + [SegmentMeta(number, lastSequence, |searchable|)];
      dir.manifest := updated;
      ghost var swapped := OnDisk();
      assert swapped == WithSwappedManifest(d, m);
      manifest := updated;
      var _ := wal.TrimThrough(lastSequence);
      assert OnDisk() == Trimmed(d, m);
      disks := [d, rolled, written, swapped, OnDisk()];
    }

    /** The disk goes through the states of `FlushDisks`, and nothing else. */
    method Flush() returns (flushed: nat, number: nat, ghost disks: seq<Disk>)
      modifies this, wal, dir
      ensures old(Valid()) ==> Valid()
      ensures View() == IndexState.Flush(settings, old(View()))
      ensures wal.files == TrimFiles(old(wal.files), wal.current, old(lastSequence))
      ensures flushed == |old(searchable)| && number == old(lastSequence)
      ensures disks == FlushDisks(settings, old(View()))
    {
      ghost var s := View();
      flushed, number := |searchable|, lastSequence;
      disks := FlushWithoutMerge();
      var plan := PlanMerge(settings.Threshold(), manifest);
      ghost var flushedState := View();
      if plan.Some? {
        PlanIsNotEmpty(settings.Threshold(), manifest);
        FlushMerges(settings, s, flushedState, plan.value);
        FlushWritesMerged(settings, s, flushedState, plan.value);
        ghost var between := ApplyMergePlan(plan.value);
        disks := disks + [between, OnDisk()];
        DisksOfMerge(settings, s, between, OnDisk());
      } else {
        FlushMergesNothing(settings, s, flushedState);
      }
    }
  }
}
