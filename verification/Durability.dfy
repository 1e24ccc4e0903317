// Nothing acknowledged is lost: what survives a crash at any step, over whole runs, and exactly when a
// flush is safe.
module Durability {
  import opened Bytes
  import opened Values
  import opened Mappings
  import opened IndexState
  import L = Log

  // ----- documents and histories -----

  /** `get_document` reads the live view. */
  lemma GetDocumentReadsLive(m: Memory, id: Text)
    ensures GetDocument(m, id) == Lookup(Live(m), id)
  {
  }

  /** An accepted document is what `get_document` answers from then on; no other answer changes. */
  lemma IndexedIsShown(settings: Settings, s: State, id: Text, source: Json, now: i64, other: Text)
    requires IndexDoc(settings, s, id, source, now).Ok?
    ensures var m := IndexDoc(settings, s, id, source, now).value.memory;
            && GetDocument(m, other) == (if other == id then Some(source) else GetDocument(s.memory, other))
            && m.lastSequence == s.memory.lastSequence + 1
  {
  }

  /** A deleted document is not answered any more; no other answer changes. */
  lemma DeletedIsGone(s: State, id: Text, now: i64, other: Text)
    ensures var m := DeleteDoc(s, id, now).memory;
            && GetDocument(m, other) == (if other == id then None else GetDocument(s.memory, other))
            && m.lastSequence == s.memory.lastSequence + 1
  {
  }

  /** What a history amounts to for one id: the source it was indexed with last, unless it was deleted since. */
  lemma LastEntryDecides(h: seq<Entry>, e: Entry, id: Text)
    ensures Lookup(Fold(h + [e]), id)
         == if e.record.IndexDocument? && e.record.id == id then Some(e.record.source)
            else if e.record.DeleteDocument? && e.record.id == id then None
            else Lookup(Fold(h), id)
  {
    FoldOneMore(h, e);
  }

  /** Of the segments that hold an id the last one decides. */
  lemma LastSegmentDecides(files: map<nat, Snapshot>, segments: Manifest, last: SegmentMeta, id: Text)
    ensures Lookup(Union(files, segments + [last]), id)
         == if last.segmentNumber in files && id in files[last.segmentNumber].documents
            then Some(files[last.segmentNumber].documents[id])
            else Lookup(Union(files, segments), id)
  {
    assert (segments + [last])[..|segments|] == segments;
  }

  lemma {:induction false} ReplayConcat(docs: Docs, a: seq<Entry>, b: seq<Entry>)
    ensures ReplayOnto(docs, a + b) == ReplayOnto(ReplayOnto(docs, a), b)
  {
    if b == [] {
      assert a + b == a;
    } else {
      ReplayConcat(docs, a, b[..|b| - 1]);
      assert (a + b)[..|a + b| - 1] == a + b[..|b| - 1];
    }
  }

  /** Refreshing does not change what the index holds, and leaves nothing pending. */
  lemma RefreshKeepsLive(s: State)
    ensures Live(Refresh(s).memory) == Live(s.memory)
    ensures Refresh(s).memory.searchable == Live(s.memory)
  {
  }

  /** What `get_document` answered before a refresh is what a search sees after it, and nothing is left pending. */
  lemma RefreshPublishes(s: State, id: Text)
    ensures Lookup(Refresh(s).memory.searchable, id) == GetDocument(s.memory, id)
    ensures Refresh(s).disk == s.disk
    ensures Refresh(s).memory == s.memory.(searchable := Refresh(s).memory.searchable, pending := map[])
  {
    GetDocumentReadsLive(s.memory, id);
  }

  /** What `get_document` answered before a merge is what a search sees after it; all else stays. */
  lemma MergePublishes(s: State, id: Text)
    ensures Lookup(Merge(s).memory.searchable, id) == GetDocument(s.memory, id)
    ensures Merge(s).disk == s.disk && Merge(s).memory == s.memory.(searchable := Merge(s).memory.searchable)
  {
    GetDocumentReadsLive(s.memory, id);
  }

  /** Merging keeps the pending operations; applying them again, now or at a later refresh, changes nothing. */
  lemma MergeKeepsLive(s: State)
    ensures Live(Merge(s).memory) == Live(s.memory)
    ensures Live(Refresh(Merge(s)).memory) == Live(s.memory)
  {
  }

  /** A restored snapshot shows what the index held when it was taken. */
  lemma SnapshotRestoresLive(taken: Memory, s: State)
    ensures Live(RestoreSnapshot(s, CreateSnapshot(taken)).memory) == Live(taken)
  {
  }

  // ----- the invariant -----

  ghost predicate GoodHistory(h: seq<Entry>) {
    L.Increasing(h) && L.AllAbove(h, 0)
  }

  ghost predicate GoodManifest(files: map<nat, Snapshot>, segments: Manifest) {
    && (forall i, j :: 0 <= i < j < |segments| ==> segments[i].segmentNumber < segments[j].segmentNumber)
    && (forall i :: 0 <= i < |segments| ==> GoodSegment(files, segments[i]))
  }

  ghost predicate GoodSegment(files: map<nat, Snapshot>, segment: SegmentMeta) {
    && segment.segmentNumber in files
    && files[segment.segmentNumber].lastSequence == segment.lastSequence
    && |files[segment.segmentNumber].documents| == segment.documentCount
  }

  /** Memory and disk have the same manifest, its numbers ascend, and it describes its files. */
  ghost predicate ManifestHolds(s: State) {
    s.memory.manifest == s.disk.manifest && GoodManifest(s.disk.files, s.disk.manifest)
  }

  /** The segments hold the history up to their highest number, and the log still holds the rest. */
  ghost predicate DiskHolds(d: Disk, h: seq<Entry>) {
    var bound := MaxSequence(d.files, d.manifest);
    && GoodHistory(h)
    && L.WellFormed(d.wal) && L.Bounded(d.wal.generations, L.LastNumber(h))
    && bound <= L.LastNumber(h)
    && L.Replay(d.wal, bound) == L.Above(h, bound)
    && Union(d.files, d.manifest) == Fold(L.UpTo(h, bound))
    && GoodManifest(d.files, d.manifest)
  }

  ghost predicate MemoryHolds(s: State, h: seq<Entry>) {
    && s.memory.manifest == s.disk.manifest
    && s.memory.mappings == s.disk.mappings
    && s.memory.lastSequence == L.LastNumber(h)
    && Live(s.memory) == Fold(h)
  }

  ghost predicate Holds(s: State, h: seq<Entry>) {
    DiskHolds(s.disk, h) && MemoryHolds(s, h)
  }

  lemma LastOfAbove(h: seq<Entry>, bound: nat)
    requires GoodHistory(h) && bound <= L.LastNumber(h)
    ensures L.Above(h, bound) == [] ==> L.LastNumber(h) == bound
    ensures L.Above(h, bound) != [] ==> L.LastNumber(L.Above(h, bound)) == L.LastNumber(h)
  {
  }

  lemma ReopenReplays(d: Disk, h: seq<Entry>)
    requires DiskHolds(d, h)
    ensures Open(d).searchable == Fold(h)
    ensures Open(d).lastSequence == L.LastNumber(h)
  {
    var bound := MaxSequence(d.files, d.manifest);
    var covered, rest := L.UpTo(h, bound), L.Above(h, bound);
    assert h == covered + rest by { L.SplitAtBound(h, bound); }
    ReplayConcat(map[], covered, rest);
    LastOfAbove(h, bound);
  }

  /** Reopening from a disk that holds the history gives back exactly that history. */
  lemma ReopenHolds(d: Disk, h: seq<Entry>)
    requires DiskHolds(d, h)
    ensures Open(d).searchable == Fold(h)
    ensures Holds(State(d, Open(d)), h)
  {
    ReopenReplays(d, h);
    NothingPending(Fold(h));
  }

  /** A restart keeps the disk and nothing of the memory. */
  lemma RestartReadsDisk(s: State, other: Memory)
    ensures var r := Restart(s);
            && r == Restart(s.(memory := other))
            && r.disk == s.disk && r.memory == Open(s.disk)
            && r.memory.pending == map[] && r.memory.manifest == s.disk.manifest
            && r.memory.mappings == s.disk.mappings
  {
  }

  lemma NothingPending(docs: Docs)
    ensures ApplyPending(docs, map[]) == docs
  {
  }

  lemma NewIndexHolds(mappings: FieldMappings)
    ensures Holds(NewIndex(mappings), [])
  {
  }

  // ----- logging -----

  lemma HistoryGrows(h: seq<Entry>, e: Entry)
    requires GoodHistory(h) && e.sequenceNumber == L.LastNumber(h) + 1
    ensures GoodHistory(h + [e]) && L.LastNumber(h + [e]) == e.sequenceNumber
    ensures L.AtMost(h, e.sequenceNumber - 1)
  {
  }

  lemma AppendReplays(log: L.Log, h: seq<Entry>, e: Entry, bound: nat)
    requires L.WellFormed(log) && L.Replay(log, bound) == L.Above(h, bound)
    ensures L.Replay(L.Append(log, e), bound) == L.Above(h + [e], bound)
  {
    L.AppendExtendsFlatten(log, e);
    L.AboveConcat(L.Flatten(log.generations), [e], bound);
    L.AboveConcat(h, [e], bound);
  }

  lemma UpToIgnoresLater(h: seq<Entry>, e: Entry, bound: nat)
    requires e.sequenceNumber > bound
    ensures L.UpTo(h + [e], bound) == L.UpTo(h, bound)
  {
    L.UpToConcat(h, [e], bound);
    assert L.UpTo([e], bound) == [];
  }

  lemma AppendHolds(d: Disk, h: seq<Entry>, e: Entry)
    requires DiskHolds(d, h) && e.sequenceNumber == L.LastNumber(h) + 1
    ensures DiskHolds(d.(wal := L.Append(d.wal, e)), h + [e])
  {
    var bound := MaxSequence(d.files, d.manifest);
    HistoryGrows(h, e);
    L.AppendKeepsOrder(d.wal, e);
    AppendReplays(d.wal, h, e, bound);
    UpToIgnoresLater(h, e, bound);
  }

  /** A logged operation extends the history by its entry. */
  lemma LogHolds(s: State, h: seq<Entry>, now: i64, record: Record, op: PendingOperation)
    requires Holds(s, h)
    requires record.IndexDocument? || record.DeleteDocument?
    requires op == if record.IndexDocument? then Upsert(record.source) else Delete
    ensures Holds(Log(s, now, record, op), h + [Entry(s.memory.lastSequence + 1, now, record)])
  {
    AppendHolds(s.disk, h, Entry(s.memory.lastSequence + 1, now, record));
    LogInMemory(s, h, now, record, op);
  }

  lemma LogInMemory(s: State, h: seq<Entry>, now: i64, record: Record, op: PendingOperation)
    requires MemoryHolds(s, h)
    requires record.IndexDocument? || record.DeleteDocument?
    requires op == if record.IndexDocument? then Upsert(record.source) else Delete
    ensures MemoryHolds(Log(s, now, record, op), h + [Entry(s.memory.lastSequence + 1, now, record)])
  {
    LoggedIsLive(s.memory.searchable, s.memory.pending, record, op);
    FoldOneMore(h, Entry(s.memory.lastSequence + 1, now, record));
  }

  lemma LoggedIsLive(docs: Docs, pending: Pending, record: Record, op: PendingOperation)
    requires record.IndexDocument? || record.DeleteDocument?
    requires op == if record.IndexDocument? then Upsert(record.source) else Delete
    ensures ApplyPending(docs, pending[record.id := op]) == ReplayOne(ApplyPending(docs, pending), record)
  {
  }

  lemma FoldOneMore(h: seq<Entry>, e: Entry)
    ensures Fold(h + [e]) == ReplayOne(Fold(h), e.record)
  {
    assert (h + [e])[..|h|] == h;
  }

  lemma MappingsHold(s: State, h: seq<Entry>, mappings: FieldMappings)
    requires Holds(s, h)
    ensures Holds(SetMappings(s, mappings), h)
  {
  }
}
