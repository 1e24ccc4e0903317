// When a flush is safe: the exact condition under which a crash at any of its steps, and its completion,
// leave the documents of the index as they were.
module Flushing {
  import opened Bytes
  import opened Values
  import opened Mappings
  import opened IndexState
  import opened Durability
  import L = Log

  // ----- unions of segments -----

  lemma UnionStep(files: map<nat, Snapshot>, front: Manifest, last: SegmentMeta)
    ensures Union(files, front + [last])
         == if last.segmentNumber in files then Union(files, front) + files[last.segmentNumber].documents
            else Union(files, front)
    ensures MaxSequence(files, front + [last])
         == if last.segmentNumber in files && last.lastSequence > MaxSequence(files, front) then last.lastSequence
            else MaxSequence(files, front)
  {
    assert (front + [last])[..|front|] == front;
  }

  lemma UnionAppend(files: map<nat, Snapshot>, segments: Manifest, last: SegmentMeta)
    requires last.segmentNumber in files
    ensures Union(files, segments + [last]) == Union(files, segments) + files[last.segmentNumber].documents
    ensures MaxSequence(files, segments + [last])
         == if last.lastSequence > MaxSequence(files, segments) then last.lastSequence else MaxSequence(files, segments)
  {
    assert (segments + [last])[..|segments|] == segments;
  }

  lemma {:induction false} UnionIgnores(files: map<nat, Snapshot>, segments: Manifest, number: nat, snapshot: Snapshot)
    requires !Names(segments, number)
    ensures Union(files[number := snapshot], segments) == Union(files, segments)
    ensures MaxSequence(files[number := snapshot], segments) == MaxSequence(files, segments)
  {
    if segments != [] {
      var front, last := segments[..|segments| - 1], segments[|segments| - 1];
      assert forall i :: 0 <= i < |front| ==> front[i] == segments[i];
      assert last.segmentNumber != number by { assert segments[|segments| - 1] == last; }
      UnionIgnores(files, front, number, snapshot);
    }
  }

  /** A new segment gets a number that no referenced segment has. */
  lemma NextNumberIsFresh(files: map<nat, Snapshot>, segments: Manifest)
    requires GoodManifest(files, segments)
    ensures forall x :: x in segments ==> x.segmentNumber < NextSegmentNumber(segments)
    ensures !Names(segments, NextSegmentNumber(segments))
  {
  }

  lemma {:induction false} SmallFromManifest(threshold: nat, segments: Manifest)
    ensures forall x :: x in Small(threshold, segments) ==> x in segments && IsSmall(threshold, x)
  {
    if segments != [] {
      SmallFromManifest(threshold, segments[..|segments| - 1]);
    }
  }

  lemma {:induction false} SmallHasNoOtherIds(threshold: nat, files: map<nat, Snapshot>, segments: Manifest)
    ensures Union(files, Small(threshold, segments)).Keys <= Union(files, segments).Keys
  {
    if segments != [] {
      var front, last := segments[..|segments| - 1], segments[|segments| - 1];
      SmallHasNoOtherIds(threshold, files, front);
      assert segments == front + [last];
      UnionStep(files, front, last);
      UnionStep(files, Small(threshold, front), last);
    }
  }

  lemma {:induction false} WithoutFromManifest(segments: Manifest, plan: Manifest)
    ensures forall x :: x in Without(segments, plan) ==> x in segments
  {
    if segments != [] {
      WithoutFromManifest(segments[..|segments| - 1], plan);
    }
  }

  lemma {:induction false} WithoutHasNoOtherIds(files: map<nat, Snapshot>, segments: Manifest, plan: Manifest)
    ensures Union(files, Without(segments, plan)).Keys <= Union(files, segments).Keys
  {
    if segments != [] {
      var front, last := segments[..|segments| - 1], segments[|segments| - 1];
      WithoutHasNoOtherIds(files, front, plan);
      assert segments == front + [last];
      UnionStep(files, front, last);
      UnionStep(files, Without(front, plan), last);
    }
  }

  lemma {:induction false} WithoutIsNoNewer(files: map<nat, Snapshot>, segments: Manifest, plan: Manifest)
    ensures MaxSequence(files, Without(segments, plan)) <= MaxSequence(files, segments)
  {
    if segments != [] {
      var front, last := segments[..|segments| - 1], segments[|segments| - 1];
      WithoutIsNoNewer(files, front, plan);
      assert segments == front + [last];
      UnionStep(files, front, last);
      UnionStep(files, Without(front, plan), last);
    }
  }

  lemma GoodFront(files: map<nat, Snapshot>, segments: Manifest)
    requires segments != [] && GoodManifest(files, segments)
    ensures GoodManifest(files, segments[..|segments| - 1])
    ensures forall x :: x in segments[..|segments| - 1] ==> x.segmentNumber < segments[|segments| - 1].segmentNumber
  {
    var front := segments[..|segments| - 1];
    forall i | 0 <= i < |front| ensures GoodSegment(files, front[i]) {
      assert GoodSegment(files, segments[i]);
    }
  }

  lemma GoodAppend(files: map<nat, Snapshot>, segments: Manifest, last: SegmentMeta)
    requires GoodManifest(files, segments) && GoodSegment(files, last)
    requires forall x :: x in segments ==> x.segmentNumber < last.segmentNumber
    ensures GoodManifest(files, segments + [last])
  {
    forall i | 0 <= i < |segments| ensures segments[i].segmentNumber < last.segmentNumber {
      assert segments[i] in segments;
    }
  }

  lemma {:induction false} WithoutAscends(files: map<nat, Snapshot>, segments: Manifest, plan: Manifest)
    requires GoodManifest(files, segments)
    ensures GoodManifest(files, Without(segments, plan))
  {
    if segments != [] {
      var front, last := segments[..|segments| - 1], segments[|segments| - 1];
      GoodFront(files, segments);
      WithoutAscends(files, front, plan);
      WithoutFromManifest(front, plan);
      assert GoodSegment(files, last);
      GoodAppend(files, Without(front, plan), last);
    }
  }

  /** A file under a fresh number does not disturb a manifest, and may then be added to it. */
  lemma ManifestGrows(files: map<nat, Snapshot>, segments: Manifest, number: nat, snapshot: Snapshot)
    requires GoodManifest(files, segments)
    requires forall x :: x in segments ==> x.segmentNumber < number
    ensures GoodManifest(files[number := snapshot], segments)
    ensures GoodManifest(files[number := snapshot],
                         segments + [SegmentMeta(number, snapshot.lastSequence, |snapshot.documents|)])
  {
    var after := files[number := snapshot];
    forall i | 0 <= i < |segments| ensures GoodSegment(after, segments[i]) {
      assert segments[i] in segments && GoodSegment(files, segments[i]);
      assert after[segments[i].segmentNumber] == files[segments[i].segmentNumber];
    }
    GoodAppend(after, segments, SegmentMeta(number, snapshot.lastSequence, |snapshot.documents|));
  }

  // ----- the condition -----

  /** Every pending operation already shows in the segments overlaid by the searchable documents. */
  ghost predicate PendingIsFlushed(d: Disk, m: Memory) {
    forall id :: id in m.pending ==>
      match m.pending[id]
      case Upsert(source) => Lookup(Union(d.files, d.manifest) + m.searchable, id) == Some(source)
      case Delete => id !in Union(d.files, d.manifest) && id !in m.searchable
  }

  /** No active segment holds an id that was deleted since. */
  ghost predicate SegmentsAreLive(d: Disk, m: Memory) {
    forall id :: id in Union(d.files, d.manifest) ==> id in m.searchable || id in m.pending
  }

  /** The merge behind the flush takes the new segment in, unless two small old segments exist and the
      new one is not small; then those small segments alone must hold all documents. */
  ghost predicate MergeIsSafe(threshold: nat, d: Disk, m: Memory) {
    || |Small(threshold, m.manifest)| < 2
    || 0 < |m.searchable| < threshold
    || ApplyPending(Union(d.files, Small(threshold, m.manifest)), m.pending) == Live(m)
  }

  ghost predicate FlushGuard(threshold: nat, d: Disk, m: Memory) {
    PendingIsFlushed(d, m) && SegmentsAreLive(d, m) && MergeIsSafe(threshold, d, m)
  }

  /** What a user expects of a flush: it changes no document, and neither does a crash at any of its steps. */
  ghost predicate FlushIsSafe(settings: Settings, s: State) {
    && Live(Flush(settings, s).memory) == Live(s.memory)
    && forall p :: IsCrashPoint(settings, s, p) ==> Open(DiskAt(settings, s, p)).searchable == Live(s.memory)
  }

  /** The new segment on top of the old ones shows the live view exactly when nothing pending is missing
      from it and nothing old is resurrected. */
  lemma OverlayIsLiveExactlyWhen(d: Disk, m: Memory)
    ensures Union(d.files, d.manifest) + m.searchable == Live(m)
       <==> PendingIsFlushed(d, m) && SegmentsAreLive(d, m)
  {
    var overlay, live := Union(d.files, d.manifest) + m.searchable, Live(m);
    if overlay == live {
      forall id | id in m.pending
        ensures match m.pending[id]
                case Upsert(source) => Lookup(overlay, id) == Some(source)
                case Delete => id !in Union(d.files, d.manifest) && id !in m.searchable
      {
        assert Lookup(overlay, id) == Lookup(live, id);
      }
      forall id | id in Union(d.files, d.manifest) ensures id in m.searchable || id in m.pending {
        assert id in overlay;
      }
    }
    if PendingIsFlushed(d, m) && SegmentsAreLive(d, m) {
      forall id ensures Lookup(overlay, id) == Lookup(live, id) {
        if id in m.pending {
          assert m.pending[id].Upsert? || m.pending[id].Delete?;
        }
      }
      SameLookups(overlay, live);
    }
  }

  lemma SameLookups(a: Docs, b: Docs)
    requires forall id :: Lookup(a, id) == Lookup(b, id)
    ensures a == b
  {
    forall id ensures id in a <==> id in b {
      assert Lookup(a, id) == Lookup(b, id);
    }
    forall id | id in a ensures a[id] == b[id] {
      assert Lookup(a, id) == Lookup(b, id);
    }
  }

  // ----- the disk after each step -----

  lemma RolloverHolds(d: Disk, h: seq<Entry>)
    requires DiskHolds(d, h)
    ensures DiskHolds(RolledOver(d), h)
  {
  }

  lemma SegmentFileHolds(s: State, h: seq<Entry>)
    requires Holds(s, h)
    ensures DiskHolds(WithSegmentFile(s.disk, s.memory), h)
  {
    RolloverHolds(s.disk, h);
    NextNumberIsFresh(s.disk.files, s.disk.manifest);
    UnionIgnores(s.disk.files, s.disk.manifest, FlushedSegment(s.memory).segmentNumber, FlushedSnapshot(s.memory));
    SwapKeepsManifest(s);
  }

  /** Beyond the last number the log has nothing to add. */
  lemma NothingLeft(d: Disk, h: seq<Entry>)
    requires DiskHolds(d, h)
    ensures L.Replay(d.wal, L.LastNumber(h)) == [] && L.Above(h, L.LastNumber(h)) == []
    ensures L.UpTo(h, L.LastNumber(h)) == h
  {
    forall i | 0 <= i < |h| ensures h[i].sequenceNumber <= L.LastNumber(h) {
      assert i < |h| - 1 ==> h[i].sequenceNumber < h[|h| - 1].sequenceNumber;
    }
    L.NothingAbove(h, L.LastNumber(h));
    L.AboveTwice(L.Flatten(d.wal.generations), MaxSequence(d.files, d.manifest), L.LastNumber(h));
    L.AboveTwice(h, MaxSequence(d.files, d.manifest), L.LastNumber(h));
  }

  /** The new segment's file, and then its entry in the manifest, leave the manifest in order. */
  lemma SwapKeepsManifest(s: State)
    requires ManifestHolds(s)
    ensures GoodManifest(WithSegmentFile(s.disk, s.memory).files, s.disk.manifest)
    ensures ManifestHolds(FlushWithoutMerge(s))
  {
    NextNumberIsFresh(s.disk.files, s.disk.manifest);
    ManifestGrows(s.disk.files, s.disk.manifest, FlushedSegment(s.memory).segmentNumber, FlushedSnapshot(s.memory));
  }

  /** What the swapped manifest says, whether or not that is right. */
  lemma SwappedContents(s: State, h: seq<Entry>)
    requires Holds(s, h)
    ensures var d := WithSwappedManifest(s.disk, s.memory);
            && GoodManifest(d.files, d.manifest)
            && Union(d.files, d.manifest) == Union(s.disk.files, s.disk.manifest) + s.memory.searchable
            && MaxSequence(d.files, d.manifest) == s.memory.lastSequence
            && Open(d).searchable == Union(d.files, d.manifest)
  {
    var n, snapshot := FlushedSegment(s.memory).segmentNumber, FlushedSnapshot(s.memory);
    var d := WithSwappedManifest(s.disk, s.memory);
    NextNumberIsFresh(s.disk.files, s.disk.manifest);
    UnionIgnores(s.disk.files, s.disk.manifest, n, snapshot);
    SwapKeepsManifest(s);
    UnionAppend(d.files, s.disk.manifest, FlushedSegment(s.memory));
    NothingLeft(s.disk, h);
  }

  lemma SwapHolds(s: State, h: seq<Entry>)
    requires Holds(s, h) && PendingIsFlushed(s.disk, s.memory) && SegmentsAreLive(s.disk, s.memory)
    ensures DiskHolds(WithSwappedManifest(s.disk, s.memory), h)
  {
    SwappedContents(s, h);
    OverlayIsLiveExactlyWhen(s.disk, s.memory);
    NothingLeft(s.disk, h);
    RolloverHolds(s.disk, h);
  }

  /** Removing covered generations, all of them or some before a crash, loses nothing. */
  lemma RemovalHolds(d: Disk, h: seq<Entry>, gone: set<nat>)
    requires DiskHolds(d, h) && MaxSequence(d.files, d.manifest) == L.LastNumber(h)
    requires gone <= L.RemovableGenerations(d.wal, L.LastNumber(h))
    ensures DiskHolds(d.(wal := L.Remove(d.wal, gone)), h)
  {
    L.RemovalKeepsReplay(d.wal, L.LastNumber(h), gone, L.LastNumber(h));
  }

  lemma FlushWithoutMergeHolds(s: State, h: seq<Entry>, gone: set<nat>)
    requires Holds(s, h) && PendingIsFlushed(s.disk, s.memory) && SegmentsAreLive(s.disk, s.memory)
    requires gone <= CoveredGenerations(s.disk, s.memory)
    ensures DiskHolds(WithRemoved(s.disk, s.memory, gone), h)
    ensures Holds(FlushWithoutMerge(s), h)
    ensures MaxSequence(Trimmed(s.disk, s.memory).files, Trimmed(s.disk, s.memory).manifest) == s.memory.lastSequence
  {
    SwapHolds(s, h);
    SwappedContents(s, h);
    RemovalHolds(WithSwappedManifest(s.disk, s.memory), h, gone);
    RemovalHolds(WithSwappedManifest(s.disk, s.memory), h, CoveredGenerations(s.disk, s.memory));
  }

  lemma MergedFileHolds(s: State, h: seq<Entry>, plan: Manifest)
    requires Holds(s, h)
    ensures DiskHolds(WithMergedFile(s.disk, s.memory, plan), h)
  {
    NextNumberIsFresh(s.disk.files, s.disk.manifest);
    UnionIgnores(s.disk.files, s.disk.manifest, NextSegmentNumber(s.disk.manifest),
                 MergedSnapshot(s.disk, s.memory, plan));
    MergeKeepsManifest(s, plan);
  }

  /** A merge keeps the manifest in order. */
  lemma MergeKeepsManifest(s: State, plan: Manifest)
    requires ManifestHolds(s)
    ensures ManifestHolds(ApplyMergePlan(s, plan))
    ensures GoodManifest(WithMergedFile(s.disk, s.memory, plan).files, s.disk.manifest)
  {
    var d := s.disk;
    var number, snapshot := NextSegmentNumber(d.manifest), MergedSnapshot(d, s.memory, plan);
    NextNumberIsFresh(d.files, d.manifest);
    WithoutAscends(d.files, d.manifest, plan);
    WithoutFromManifest(d.manifest, plan);
    ManifestGrows(d.files, Without(d.manifest, plan), number, snapshot);
    ManifestGrows(d.files, d.manifest, number, snapshot);
  }

  /** The manifest after a merge is stamped with the last number. */
  lemma MergedManifestIsNewest(s: State, plan: Manifest)
    requires ManifestHolds(s) && MaxSequence(s.disk.files, s.disk.manifest) <= s.memory.lastSequence && plan != []
    ensures var after := ApplyMergePlan(s, plan).disk;
            MaxSequence(after.files, after.manifest) == s.memory.lastSequence
  {
    var d := s.disk;
    var after := ApplyMergePlan(s, plan).disk;
    var number, snapshot := NextSegmentNumber(d.manifest), MergedSnapshot(d, s.memory, plan);
    WithoutIsNoNewer(d.files, d.manifest, plan);
    WithoutHasFreshNumber(d.files, d.manifest, plan);
    UnionIgnores(d.files, Without(d.manifest, plan), number, snapshot);
    UnionAppend(after.files, Without(d.manifest, plan), after.manifest[|after.manifest| - 1]);
  }

  lemma WithoutHasFreshNumber(files: map<nat, Snapshot>, segments: Manifest, plan: Manifest)
    requires GoodManifest(files, segments)
    ensures !Names(Without(segments, plan), NextSegmentNumber(segments))
  {
    NextNumberIsFresh(files, segments);
    WithoutFromManifest(segments, plan);
    var rest := Without(segments, plan);
    forall i | 0 <= i < |rest| ensures rest[i].segmentNumber != NextSegmentNumber(segments) {
      assert rest[i] in segments;
    }
  }

  /** The documents after a merge, whether or not they are right. */
  lemma MergedContents(s: State, h: seq<Entry>, plan: Manifest)
    requires Holds(s, h) && plan != []
    ensures var after := ApplyMergePlan(s, plan);
            && Union(after.disk.files, after.disk.manifest)
               == Union(s.disk.files, Without(s.disk.manifest, plan)) + MergedDocuments(s.disk, s.memory, plan)
            && Live(after.memory) == MergedDocuments(s.disk, s.memory, plan)
  {
    var d, after := s.disk, ApplyMergePlan(s, plan).disk;
    WithoutHasFreshNumber(d.files, d.manifest, plan);
    UnionIgnores(d.files, Without(d.manifest, plan), NextSegmentNumber(d.manifest), MergedSnapshot(d, s.memory, plan));
    UnionAppend(after.files, Without(d.manifest, plan), after.manifest[|after.manifest| - 1]);
    PendingTwice(Union(d.files, plan), s.memory.pending);
  }

  lemma PendingTwice(docs: Docs, pending: Pending)
    ensures ApplyPending(ApplyPending(docs, pending), pending) == ApplyPending(docs, pending)
  {
  }

  /** A merge that yields the live view, from segments without foreign ids, keeps the index. */
  lemma MergeHolds(s: State, h: seq<Entry>, plan: Manifest)
    requires Holds(s, h) && plan != []
    requires MergedDocuments(s.disk, s.memory, plan) == Live(s.memory)
    requires Union(s.disk.files, s.disk.manifest).Keys <= Live(s.memory).Keys
    ensures Holds(ApplyMergePlan(s, plan), h)
  {
    var after := ApplyMergePlan(s, plan);
    MergeKeepsManifest(s, plan);
    MergedManifestIsNewest(s, plan);
    MergedContents(s, h, plan);
    WithoutHasNoOtherIds(s.disk.files, s.disk.manifest, plan);
    Overrides(Union(s.disk.files, Without(s.disk.manifest, plan)), Live(s.memory));
    NothingLeft(s.disk, h);
    assert DiskHolds(after.disk, h);
    assert MemoryHolds(after, h);
  }

  lemma Overrides(a: Docs, b: Docs)
    requires a.Keys <= b.Keys
    ensures a + b == b
  {
  }

  /** Every flush, safe or not, keeps the manifest in order, wherever it is interrupted. */
  lemma FlushKeepsManifest(settings: Settings, s: State, p: CrashPoint)
    requires ManifestHolds(s)
    ensures ManifestHolds(Flush(settings, s))
    ensures GoodManifest(DiskAt(settings, s, p).files, DiskAt(settings, s, p).manifest)
  {
    SwapKeepsManifest(s);
    var flushed := FlushWithoutMerge(s);
    var plan := PlanMerge(settings.Threshold(), flushed.memory.manifest);
    if plan.Some? {
      MergeKeepsManifest(flushed, plan.value);
    }
  }

  // ----- the merge behind a flush -----

  /** The plan, in terms of the old small segments and the new segment. */
  function PlanFor(threshold: nat, m: Memory): Option<Manifest> {
    var small, newest := Small(threshold, m.manifest), FlushedSegment(m);
    if TakesOldOnly(threshold, m) then Some(small)
    else if IsSmall(threshold, newest) && small != [] then Some(small + [newest])
    else if |m.searchable| >= threshold then Some([newest])
    else None
  }

  /** Two or more small old segments, and a new one that is not small: the merge leaves the new one out. */
  predicate TakesOldOnly(threshold: nat, m: Memory) {
    |Small(threshold, m.manifest)| >= 2 && !IsSmall(threshold, FlushedSegment(m))
  }

  lemma PlanAfterFlush(threshold: nat, m: Memory)
    ensures PlanMerge(threshold, ExtendedManifest(m)) == PlanFor(threshold, m)
  {
    assert ExtendedManifest(m)[..|m.manifest|] == m.manifest;
  }

  lemma SmallHasFreshNumber(threshold: nat, files: map<nat, Snapshot>, segments: Manifest)
    requires GoodManifest(files, segments)
    ensures !Names(Small(threshold, segments), NextSegmentNumber(segments))
  {
    NextNumberIsFresh(files, segments);
    SmallFromManifest(threshold, segments);
    var small := Small(threshold, segments);
    forall i | 0 <= i < |small| ensures small[i].segmentNumber != NextSegmentNumber(segments) {
      assert small[i] in segments;
    }
  }

  /** Old documents under the new segment do not matter once the guard holds. */
  lemma OldSegmentsAreOverridden(d: Disk, m: Memory, below: Docs)
    requires PendingIsFlushed(d, m) && SegmentsAreLive(d, m)
    requires below.Keys <= Union(d.files, d.manifest).Keys
    ensures ApplyPending(below + m.searchable, m.pending) == Live(m)
  {
    var merged, live := ApplyPending(below + m.searchable, m.pending), Live(m);
    forall id ensures Lookup(merged, id) == Lookup(live, id) {
      if id in below && id !in m.pending {
        assert id in Union(d.files, d.manifest);
      }
    }
    SameLookups(merged, live);
  }

  /** What a planned merge collects: the small old segments, the new segment, or both. */
  function Collected(threshold: nat, s: State): Docs {
    var small := Union(s.disk.files, Small(threshold, s.memory.manifest));
    if TakesOldOnly(threshold, s.memory) then small
    else if IsSmall(threshold, FlushedSegment(s.memory)) then small + s.memory.searchable
    else s.memory.searchable
  }

  lemma MergeCollects(threshold: nat, s: State, plan: Manifest)
    requires ManifestHolds(s) && PlanMerge(threshold, ExtendedManifest(s.memory)) == Some(plan)
    ensures plan != []
    ensures Union(Trimmed(s.disk, s.memory).files, plan) == Collected(threshold, s)
  {
    PlanAfterFlush(threshold, s.memory);
    var newest, files := FlushedSegment(s.memory), Trimmed(s.disk, s.memory).files;
    var small := Small(threshold, s.memory.manifest);
    SmallHasFreshNumber(threshold, s.disk.files, s.disk.manifest);
    UnionIgnores(s.disk.files, small, newest.segmentNumber, FlushedSnapshot(s.memory));
    UnionStep(files, small, newest);
    UnionStep(files, [], newest);
    assert [] + [newest] == [newest];
    NothingBelow(s.memory.searchable);
  }

  lemma NothingBelow(docs: Docs)
    ensures map[] + docs == docs
  {
    var none: Docs := map[];
    assert none + docs == docs;
  }

  /** With the guard, a planned merge yields the live view. */
  lemma GuardedMergeIsLive(threshold: nat, s: State)
    requires s.memory.manifest == s.disk.manifest
    requires FlushGuard(threshold, s.disk, s.memory)
    ensures ApplyPending(Collected(threshold, s), s.memory.pending) == Live(s.memory)
  {
    var small := Union(s.disk.files, Small(threshold, s.memory.manifest));
    if TakesOldOnly(threshold, s.memory) {
    } else if IsSmall(threshold, FlushedSegment(s.memory)) {
      SmallHasNoOtherIds(threshold, s.disk.files, s.disk.manifest);
      OldSegmentsAreOverridden(s.disk, s.memory, small);
    }
  }

  lemma OverlayIdsAreLive(d: Disk, m: Memory)
    requires PendingIsFlushed(d, m) && SegmentsAreLive(d, m)
    ensures (Union(d.files, d.manifest) + m.searchable).Keys <= Live(m).Keys
  {
    OverlayIsLiveExactlyWhen(d, m);
  }

  lemma PlannedMergeHolds(threshold: nat, s: State, h: seq<Entry>, plan: Manifest)
    requires Holds(s, h) && FlushGuard(threshold, s.disk, s.memory)
    requires PlanMerge(threshold, ExtendedManifest(s.memory)) == Some(plan)
    ensures Holds(ApplyMergePlan(FlushWithoutMerge(s), plan), h)
  {
    var flushed := FlushWithoutMerge(s);
    FlushWithoutMergeHolds(s, h, {});
    GuardedMergeIsLive(threshold, s);
    MergeCollects(threshold, s, plan);
    SwappedContents(s, h);
    OverlayIdsAreLive(s.disk, s.memory);
    MergeHolds(flushed, h, plan);
  }

  /** Under the guard, a completed flush leaves the whole history on disk. */
  lemma GuardedFlushHolds(settings: Settings, s: State, h: seq<Entry>)
    requires Holds(s, h) && FlushGuard(settings.Threshold(), s.disk, s.memory)
    ensures Holds(Flush(settings, s), h)
  {
    FlushWithoutMergeHolds(s, h, {});
    var plan := PlanMerge(settings.Threshold(), ExtendedManifest(s.memory));
    if plan.Some? {
      PlannedMergeHolds(settings.Threshold(), s, h, plan.value);
    }
  }

  lemma TrimEmptiesLog(s: State, h: seq<Entry>)
    requires Holds(s, h)
    ensures var log := Trimmed(s.disk, s.memory).wal;
            && log.current == s.disk.wal.current + 1
            && forall g :: g in log.generations ==> log.generations[g] == []
  {
    var log := RolledOver(s.disk).wal;
    forall g | g in Trimmed(s.disk, s.memory).wal.generations ensures log.generations[g] == [] {
      assert g in log.generations && !L.Removable(log, s.memory.lastSequence, g);
      assert L.AtMost(s.disk.wal.generations[g], L.LastNumber(h));
    }
  }

  /** A completed flush, safe or not, leaves a new generation of the log and no entry in any, and segments that
      reach up to the last number. */
  lemma FlushCoversLog(settings: Settings, s: State, h: seq<Entry>)
    requires Holds(s, h)
    ensures var d := Flush(settings, s).disk;
            && d.wal.current == s.disk.wal.current + 1
            && (forall g :: g in d.wal.generations ==> d.wal.generations[g] == [])
            && MaxSequence(d.files, d.manifest) == s.memory.lastSequence
  {
    TrimEmptiesLog(s, h);
    SwappedContents(s, h);
    SwapKeepsManifest(s);
    var flushed := FlushWithoutMerge(s);
    var plan := PlanMerge(settings.Threshold(), flushed.memory.manifest);
    if plan.Some? {
      MergedManifestIsNewest(flushed, plan.value);
    }
  }

  /** What a crash in a flush finds on the disk: the log has rolled over first, then the segment's file is there,
      then the manifest names it, and then covered generations go away. */
  lemma CrashPointsInOrder(settings: Settings, s: State, gone: set<nat>)
    ensures var n, next := FlushedSegment(s.memory).segmentNumber, s.disk.wal.current + 1;
            var rolled, written := DiskAt(settings, s, AfterRollover), DiskAt(settings, s, AfterSegmentFile);
            var swapped, trimming := DiskAt(settings, s, AfterManifestSwap), DiskAt(settings, s, DuringTrim(gone));
            && DiskAt(settings, s, BeforeFlush) == s.disk
            && rolled == s.disk.(wal := s.disk.wal.(current := next))
            && written == rolled.(files := s.disk.files[n := Snapshot(s.memory.lastSequence, s.memory.searchable)])
            && swapped == written.(manifest := s.memory.manifest + [FlushedSegment(s.memory)])
            && trimming == swapped.(wal := L.Log(next, s.disk.wal.generations - gone))
  {
  }

  /** The disk has not changed its meaning before the manifest is swapped. */
  predicate IsBeforeSwap(p: CrashPoint) {
    p.BeforeFlush? || p.AfterRollover? || p.AfterSegmentFile?
  }

  lemma CrashBeforeSwapHolds(settings: Settings, s: State, h: seq<Entry>, p: CrashPoint)
    requires Holds(s, h) && IsBeforeSwap(p)
    ensures DiskHolds(DiskAt(settings, s, p), h)
  {
    match p
    case BeforeFlush =>
    case AfterRollover => RolloverHolds(s.disk, h);
    case AfterSegmentFile => SegmentFileHolds(s, h);
  }

  /** Under the guard, so does a crash at any step. */
  lemma GuardedCrashHolds(settings: Settings, s: State, h: seq<Entry>, p: CrashPoint)
    requires Holds(s, h) && FlushGuard(settings.Threshold(), s.disk, s.memory)
    requires IsCrashPoint(settings, s, p)
    ensures DiskHolds(DiskAt(settings, s, p), h)
  {
    if IsBeforeSwap(p) {
      CrashBeforeSwapHolds(settings, s, h, p);
    } else if p.AfterManifestSwap? {
      SwapHolds(s, h);
    } else if p.DuringTrim? {
      FlushWithoutMergeHolds(s, h, p.gone);
    } else if p.AfterMergedFile? {
      FlushWithoutMergeHolds(s, h, {});
      MergedFileHolds(FlushWithoutMerge(s), h, PlanMerge(settings.Threshold(), ExtendedManifest(s.memory)).value);
    } else {
      GuardedFlushHolds(settings, s, h);
    }
  }

  /** Without the guard something is lost, resurrected or reverted. */
  lemma SafeFlushIsGuarded(settings: Settings, s: State, h: seq<Entry>)
    requires Holds(s, h) && FlushIsSafe(settings, s)
    ensures FlushGuard(settings.Threshold(), s.disk, s.memory)
  {
    var threshold := settings.Threshold();
    SwappedContents(s, h);
    assert IsCrashPoint(settings, s, AfterManifestSwap);
    assert Open(DiskAt(settings, s, AfterManifestSwap)).searchable == Live(s.memory);
    OverlayIsLiveExactlyWhen(s.disk, s.memory);
    if TakesOldOnly(threshold, s.memory) {
      PlanAfterFlush(threshold, s.memory);
      var plan := Small(threshold, s.memory.manifest);
      FlushWithoutMergeHolds(s, h, {});
      MergeCollects(threshold, s, plan);
      MergedContents(FlushWithoutMerge(s), h, plan);
    }
  }

  /** A flush is safe exactly when everything pending already shows, no deleted id is left in a segment,
      and the merge behind it does not go back to old segments. */
  lemma FlushIsSafeExactlyWhen(settings: Settings, s: State, h: seq<Entry>)
    requires Holds(s, h)
    ensures FlushIsSafe(settings, s) <==> FlushGuard(settings.Threshold(), s.disk, s.memory)
  {
    if FlushIsSafe(settings, s) {
      SafeFlushIsGuarded(settings, s, h);
    }
    if FlushGuard(settings.Threshold(), s.disk, s.memory) {
      GuardedFlushHolds(settings, s, h);
      forall p | IsCrashPoint(settings, s, p) ensures Open(DiskAt(settings, s, p)).searchable == Live(s.memory) {
        GuardedCrashHolds(settings, s, h, p);
        ReopenHolds(DiskAt(settings, s, p), h);
      }
    }
  }

  /** The plain sufficient condition: nothing pending, every id in a segment searchable, at most one
      small segment. */
  lemma PlainGuard(threshold: nat, d: Disk, m: Memory)
    requires m.pending == map[]
    requires Union(d.files, d.manifest).Keys <= m.searchable.Keys
    requires |Small(threshold, m.manifest)| < 2
    ensures FlushGuard(threshold, d, m)
  {
  }
}
