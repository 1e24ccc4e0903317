// Each condition of the flush guard fails in some permitted run: reachable states from which a flush
// loses, resurrects or drops a document.
module Hazards {
  import opened Bytes
  import opened Values
  import opened Mappings
  import opened IndexState
  import opened Durability
  import opened Flushing
  import opened Restoring
  import opened Runs
  import L = Log

  const A: Text := [97]
  const B: Text := [98]
  const SOURCE: Json := Object([])

  function SettingsWith(clock: Clock, threshold: nat): Settings {
    Settings(clock, ControlledDynamic, Some(threshold))
  }

  /** Some permitted run of a new index ends in this state. */
  ghost predicate Reachable(settings: Settings, s: State) {
    exists evs: seq<Event> ::
      PermittedRun(settings, NewIndex(map[]), evs) && Run(settings, NewIndex(map[]), evs) == s
  }

  lemma NewIsReachable(settings: Settings)
    ensures Reachable(settings, NewIndex(map[]))
  {
    assert PermittedRun(settings, NewIndex(map[]), []) && Run(settings, NewIndex(map[]), []) == NewIndex(map[]);
  }

  lemma NextIsReachable(settings: Settings, s: State, ev: Event)
    requires Reachable(settings, s) && Permitted(settings, s, ev)
    ensures Reachable(settings, Step(settings, s, ev))
  {
    var start := NewIndex(map[]);
    var evs: seq<Event> :| PermittedRun(settings, start, evs) && Run(settings, start, evs) == s;
    assert (evs + [ev])[..|evs|] == evs;
    assert PermittedRun(settings, start, evs + [ev]) && Run(settings, start, evs + [ev]) == Step(settings, s, ev);
  }

  lemma ReachableHolds(settings: Settings, s: State) returns (h: seq<Entry>)
    requires Reachable(settings, s)
    ensures Holds(s, h)
  {
    var evs: seq<Event> :|
      PermittedRun(settings, NewIndex(map[]), evs) && Run(settings, NewIndex(map[]), evs) == s;
    RunHolds(settings, map[], evs);
    h := History(settings, NewIndex(map[]), evs);
  }

  // ----- pending at flush -----

  lemma OneIndexed(clock: Clock, threshold: nat) returns (s: State)
    ensures Reachable(SettingsWith(clock, threshold), s)
    ensures s.memory == Memory([], map[], map[A := Upsert(SOURCE)], 1, map[])
    ensures s.disk.manifest == []
    ensures s.disk.wal == L.Log(1, map[1 := [Entry(1, 0, IndexDocument(A, SOURCE))]])
  {
    var settings := SettingsWith(clock, threshold);
    NewIsReachable(settings);
    NextIsReachable(settings, NewIndex(map[]), Indexing(A, SOURCE, 0));
    s := Step(settings, NewIndex(map[]), Indexing(A, SOURCE, 0));
    var e := Entry(1, 0, IndexDocument(A, SOURCE));
    assert [] + [e] == [e];
  }

  /** A pending document that no segment holds is lost where a flush crashes behind its manifest swap. */
  lemma PendingIsLost(settings: Settings, s: State, h: seq<Entry>, id: Text)
    requires Holds(s, h) && id in Live(s.memory)
    requires id !in s.memory.searchable && id !in Union(s.disk.files, s.disk.manifest)
    ensures id !in Open(DiskAt(settings, s, AfterManifestSwap)).searchable && !FlushIsSafe(settings, s)
  {
    SwappedContents(s, h);
    assert IsCrashPoint(settings, s, AfterManifestSwap);
  }

  /** A document that is indexed and not refreshed is lost by the next flush. */
  lemma UnrefreshedDocumentIsLost(clock: Clock, threshold: nat) returns (s: State)
    ensures Reachable(SettingsWith(clock, threshold), s) && !FlushIsSafe(SettingsWith(clock, threshold), s)
    ensures A in Live(s.memory)
    ensures A !in Open(DiskAt(SettingsWith(clock, threshold), s, AfterManifestSwap)).searchable
  {
    s := OneIndexed(clock, threshold);
    var h := ReachableHolds(SettingsWith(clock, threshold), s);
    PendingIsLost(SettingsWith(clock, threshold), s, h, A);
  }

  // ----- deleted after a flush -----

  lemma OneRefreshed(clock: Clock, threshold: nat) returns (s: State)
    ensures Reachable(SettingsWith(clock, threshold), s)
    ensures s.memory == Memory([], map[A := SOURCE], map[], 1, map[])
    ensures s.disk.manifest == []
    ensures s.disk.wal == L.Log(1, map[1 := [Entry(1, 0, IndexDocument(A, SOURCE))]])
  {
    var before := OneIndexed(clock, threshold);
    NextIsReachable(SettingsWith(clock, threshold), before, Refreshing);
    s := Refresh(before);
    assert s.memory.searchable == map[A := SOURCE];
  }

  /** The state after a crash behind the manifest swap of a flush with nothing pending. */
  lemma CrashedFlush(settings: Settings, s: State) returns (after: State)
    requires Reachable(settings, s) && s.memory.pending == map[]
    requires Union(s.disk.files, s.disk.manifest).Keys <= s.memory.searchable.Keys
    requires |Small(settings.Threshold(), s.memory.manifest)| < 2
    ensures Reachable(settings, after)
    ensures after.disk.manifest == after.memory.manifest == s.memory.manifest + [FlushedSegment(s.memory)]
    ensures Union(after.disk.files, after.disk.manifest) == after.memory.searchable == s.memory.searchable
    ensures after.memory.pending == map[]
    ensures after.memory.lastSequence == s.memory.lastSequence && after.memory.mappings == s.memory.mappings
  {
    var h := ReachableHolds(settings, s);
    var d := WithSwappedManifest(s.disk, s.memory);
    after := State(d, Open(d));
    PlainGuard(settings.Threshold(), s.disk, s.memory);
    CrashIsReachable(settings, s);
    AfterCrash(s, h);
  }

  lemma CrashIsReachable(settings: Settings, s: State)
    requires Reachable(settings, s) && FlushGuard(settings.Threshold(), s.disk, s.memory)
    ensures var d := WithSwappedManifest(s.disk, s.memory); Reachable(settings, State(d, Open(d)))
  {
    NextIsReachable(settings, s, CrashWhileFlushing(AfterManifestSwap));
  }

  lemma AfterCrash(s: State, h: seq<Entry>)
    requires Holds(s, h)
    requires Union(s.disk.files, s.disk.manifest).Keys <= s.memory.searchable.Keys
    ensures var d := WithSwappedManifest(s.disk, s.memory);
            && Union(d.files, d.manifest) == s.memory.searchable
            && Open(d) == Memory(d.manifest, s.memory.searchable, map[], s.memory.lastSequence, s.memory.mappings)
  {
    SwappedContents(s, h);
    NothingLeft(s.disk, h);
    var d := WithSwappedManifest(s.disk, s.memory);
    var below, docs := Union(s.disk.files, s.disk.manifest), s.memory.searchable;
    assert Union(d.files, d.manifest) == docs by {
      Overrides(below, docs);
    }
  }

  ghost predicate HoldsOneDocument(s: State) {
    && s.memory.pending == map[] && s.memory.mappings == map[]
    && s.memory.searchable == map[A := SOURCE]
    && s.memory.lastSequence == 1
  }

  lemma OneFlushed(clock: Clock, threshold: nat) returns (s: State)
    ensures Reachable(SettingsWith(clock, threshold), s) && HoldsOneDocument(s)
    ensures s.memory.manifest == [SegmentMeta(1, 1, 1)]
    ensures Union(s.disk.files, s.disk.manifest) == s.memory.searchable
  {
    var before := OneRefreshed(clock, threshold);
    s := CrashedFlush(SettingsWith(clock, threshold), before);
    assert FlushedSegment(before.memory) == SegmentMeta(1, 1, 1) by { OneIsOne(before.memory.searchable); }
    assert [] + [SegmentMeta(1, 1, 1)] == [SegmentMeta(1, 1, 1)];
  }

  lemma OneIsOne(docs: Docs)
    requires docs == map[A := SOURCE]
    ensures |docs| == 1
  {
  }

  /** A document deleted after a flush comes back with the next one. */
  lemma DeletedDocumentIsResurrected(clock: Clock, threshold: nat) returns (s: State)
    ensures Reachable(SettingsWith(clock, threshold), s) && !FlushIsSafe(SettingsWith(clock, threshold), s)
    ensures s.memory.pending == map[]
    ensures A !in Live(s.memory)
    ensures A in Open(DiskAt(SettingsWith(clock, threshold), s, AfterManifestSwap)).searchable
  {
    var settings := SettingsWith(clock, threshold);
    var flushed := OneFlushed(clock, threshold);
    NextIsReachable(settings, flushed, Deleting(A, 0));
    var deleted := DeleteDoc(flushed, A, 0);
    NextIsReachable(settings, deleted, Refreshing);
    s := Refresh(deleted);
    var h := ReachableHolds(settings, s);
    SwappedContents(s, h);
    assert IsCrashPoint(settings, s, AfterManifestSwap);
  }

  // ----- two small segments behind a larger one -----

  lemma TwoFlushed(clock: Clock) returns (s: State)
    ensures Reachable(SettingsWith(clock, 2), s) && HoldsOneDocument(s)
    ensures s.memory.manifest == [SegmentMeta(1, 1, 1), SegmentMeta(2, 1, 1)]
    ensures Union(s.disk.files, s.disk.manifest) == s.memory.searchable
  {
    var before := OneFlushed(clock, 2);
    OneIsOneSmall(before.memory.manifest);
    s := CrashedFlush(SettingsWith(clock, 2), before);
    assert FlushedSegment(before.memory) == SegmentMeta(2, 1, 1) by { OneIsOne(before.memory.searchable); }
    assert [SegmentMeta(1, 1, 1)] + [SegmentMeta(2, 1, 1)] == [SegmentMeta(1, 1, 1), SegmentMeta(2, 1, 1)];
  }

  lemma OneIsOneSmall(segments: Manifest)
    requires |segments| == 1
    ensures |Small(2, segments)| <= 1
  {
    assert segments[..0] == [];
  }

  lemma TwoAreSmall(m: Memory)
    requires m.manifest == [SegmentMeta(1, 1, 1), SegmentMeta(2, 1, 1)]
    requires B in m.searchable && A in m.searchable
    ensures TakesOldOnly(2, m)
  {
    SmallStep(2, [], SegmentMeta(1, 1, 1));
    SmallStep(2, [SegmentMeta(1, 1, 1)], SegmentMeta(2, 1, 1));
    assert [] + [SegmentMeta(1, 1, 1)] == [SegmentMeta(1, 1, 1)];
    assert [SegmentMeta(1, 1, 1)] + [SegmentMeta(2, 1, 1)] == m.manifest;
    TwoOrMore(m.searchable);
  }

  lemma TwoOrMore(docs: Docs)
    requires A in docs && B in docs
    ensures |docs| >= 2
  {
    assert A != B by { assert A[0] != B[0]; }
    KeysNoLarger({A, B}, docs.Keys);
  }

  lemma OneMoreDocument(clock: Clock) returns (s: State)
    ensures Reachable(SettingsWith(clock, 2), s)
    ensures s.memory.manifest == [SegmentMeta(1, 1, 1), SegmentMeta(2, 1, 1)]
    ensures s.memory.pending == map[] && A in s.memory.searchable && B in s.memory.searchable
    ensures B !in Union(s.disk.files, s.disk.manifest)
  {
    var settings := SettingsWith(clock, 2);
    var flushed := TwoFlushed(clock);
    NextIsReachable(settings, flushed, Indexing(B, SOURCE, 0));
    var indexed := Step(settings, flushed, Indexing(B, SOURCE, 0));
    NextIsReachable(settings, indexed, Refreshing);
    s := Refresh(indexed);
    assert A != B by { assert A[0] != B[0]; }
  }

  /** When the new segment is left out, a document that no old segment holds is gone after the flush. */
  lemma OnlyOldIsMerged(settings: Settings, s: State, h: seq<Entry>, id: Text)
    requires Holds(s, h) && TakesOldOnly(settings.Threshold(), s.memory)
    requires id !in Union(s.disk.files, s.disk.manifest) && id !in s.memory.pending
    ensures id !in Live(Flush(settings, s).memory)
  {
    var threshold := settings.Threshold();
    PlanAfterFlush(threshold, s.memory);
    MergeCollects(threshold, s, Small(threshold, s.memory.manifest));
    SmallHasNoOtherIds(threshold, s.disk.files, s.disk.manifest);
  }

  /** Two crashes behind a manifest swap leave two small segments.  Once the index has grown to the merge
      threshold, a flush that completes merges only those two and drops the newer document. */
  lemma NewerDocumentIsDropped(clock: Clock) returns (s: State)
    ensures Reachable(SettingsWith(clock, 2), s) && !FlushIsSafe(SettingsWith(clock, 2), s)
    ensures s.memory.pending == map[]
    ensures B in Live(s.memory)
    ensures B !in Live(Flush(SettingsWith(clock, 2), s).memory)
  {
    s := OneMoreDocument(clock);
    var h := ReachableHolds(SettingsWith(clock, 2), s);
    TwoAreSmall(s.memory);
    OnlyOldIsMerged(SettingsWith(clock, 2), s, h, B);
  }

  // ----- restoring -----

  /** Restoring the latest snapshot and reopening loses what was never flushed. */
  lemma RestoredSnapshotIsNotDurable(clock: Clock, threshold: nat) returns (s: State)
    ensures Reachable(SettingsWith(clock, threshold), s)
    ensures Live(RestoreSnapshot(s, CreateSnapshot(s.memory)).memory) == Live(s.memory) == map[A := SOURCE]
    ensures Open(RestoreSnapshot(s, CreateSnapshot(s.memory)).disk).searchable == map[]
  {
    s := OneRefreshed(clock, threshold);
    var h := ReachableHolds(SettingsWith(clock, threshold), s);
    SnapshotRestoresLive(s.memory, s);
    ReopenAfterRestore(s, h, CreateSnapshot(s.memory));
    LatestLosesLog(s, h, CreateSnapshot(s.memory));
    assert Live(s.memory) == map[A := SOURCE];
  }

  /** Restoring an older snapshot and writing: at the next opening the write is lost and what the restore
      had taken away is back. */
  lemma WriteAfterRestoreIsLost(clock: Clock, threshold: nat) returns (s: State, written: State)
    ensures Reachable(SettingsWith(clock, threshold), s)
    ensures written == Log(RestoreSnapshot(s, CreateSnapshot(NewIndex(map[]).memory)), 0,
                           IndexDocument(B, SOURCE), Upsert(SOURCE))
    ensures Live(written.memory) == map[B := SOURCE]
    ensures Open(written.disk).searchable == map[A := SOURCE]
  {
    s := OneFlushed(clock, threshold);
    var h := ReachableHolds(SettingsWith(clock, threshold), s);
    var first := CreateSnapshot(NewIndex(map[]).memory);
    written := Log(RestoreSnapshot(s, first), 0, IndexDocument(B, SOURCE), Upsert(SOURCE));
    OneIsLive(RestoreSnapshot(s, first).memory, IndexDocument(B, SOURCE));
    assert MaxSequence(s.disk.files, s.disk.manifest) == 1 by { MaxOfOne(s.disk.files, s.disk.manifest[0]); }
    FirstWriteIsLost(s, h, first, 0, IndexDocument(B, SOURCE));
    NothingPending(s.memory.searchable);
  }

  lemma OneIsLive(m: Memory, record: Record)
    requires record.IndexDocument? && m.searchable == map[] && m.pending == map[]
    ensures Live(m.(pending := m.pending[record.id := Upsert(record.source)])) == map[record.id := record.source]
  {
  }

  lemma MaxOfOne(files: map<nat, Snapshot>, segment: SegmentMeta)
    requires segment.segmentNumber in files
    ensures MaxSequence(files, [segment]) == segment.lastSequence
  {
  }
}
