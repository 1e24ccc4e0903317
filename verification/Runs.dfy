// Whole runs of an index: any interleaving of writes, refreshes, merges, flushes, restarts and crashes.
module Runs {
  import opened Bytes
  import opened Values
  import opened Mappings
  import opened IndexState
  import opened Durability
  import opened Flushing
  import opened Restoring
  import L = Log

  datatype Event =
    | Indexing(id: Text, source: Json, now: i64)
    | Deleting(id: Text, now: i64)
    | Refreshing
    | Merging
    | Flushing
    | Restarting
    /** A crash after the mappings were saved and before the log was written. */
    | CrashWhileIndexing(source: Json)
    | CrashWhileFlushing(point: CrashPoint)
    | Restoring(snapshot: Snapshot)
    /** A crash while a restore trims the log, with some of the generations gone. */
    | CrashWhileRestoring(snapshot: Snapshot, gone: set<nat>)

  ghost function Step(settings: Settings, s: State, ev: Event): State {
    match ev
    case Indexing(id, source, now) =>
      var r := IndexDoc(settings, s, id, source, now);
      if r.Ok? then r.value else s
    case Deleting(id, now) => DeleteDoc(s, id, now)
    case Refreshing => Refresh(s)
    case Merging => Merge(s)
    case Flushing => Flush(settings, s)
    case Restarting => Restart(s)
    case CrashWhileIndexing(source) =>
      var r := Validate(settings.clock, settings.mode, s.memory.mappings, source);
      if r.Ok? then Restart(SetMappings(s, r.value)) else Restart(s)
    case CrashWhileFlushing(p) =>
      var d := DiskAt(settings, s, p);
      State(d, Open(d))
    case Restoring(snapshot) => RestoreSnapshot(s, snapshot)
    case CrashWhileRestoring(_, gone) => Restart(s.(disk := PartlyTrimmed(s.disk, gone)))
  }

  /** The entries that an event acknowledges. */
  function Acknowledged(settings: Settings, s: State, ev: Event): seq<Entry> {
    match ev
    case Indexing(id, source, now) =>
      if Validate(settings.clock, settings.mode, s.memory.mappings, source).Ok?
      then [Entry(s.memory.lastSequence + 1, now, IndexDocument(id, source))] else []
    case Deleting(id, now) => [Entry(s.memory.lastSequence + 1, now, DeleteDocument(id))]
    case _ => []
  }

  /** Flushes happen under their guard; a flush that crashes before its manifest is swapped needs none.  A
      restore brings back what the index holds, with everything flushed; one that crashes must not have trimmed
      beyond the segments. */
  ghost predicate Permitted(settings: Settings, s: State, ev: Event) {
    match ev
    case Flushing => FlushGuard(settings.Threshold(), s.disk, s.memory)
    case CrashWhileFlushing(p) =>
      IsCrashPoint(settings, s, p) && (IsBeforeSwap(p) || FlushGuard(settings.Threshold(), s.disk, s.memory))
    case Restoring(snapshot) =>
      snapshot == CreateSnapshot(s.memory) && MaxSequence(s.disk.files, s.disk.manifest) == s.memory.lastSequence
    case CrashWhileRestoring(snapshot, gone) =>
      && snapshot.lastSequence <= MaxSequence(s.disk.files, s.disk.manifest)
      && gone <= L.RemovableGenerations(L.Rollover(s.disk.wal), snapshot.lastSequence)
    case _ => true
  }

  ghost function Run(settings: Settings, start: State, evs: seq<Event>): State {
    if evs == [] then start
    else Step(settings, Run(settings, start, evs[..|evs| - 1]), evs[|evs| - 1])
  }

  ghost function History(settings: Settings, start: State, evs: seq<Event>): seq<Entry> {
    if evs == [] then []
    else
      History(settings, start, evs[..|evs| - 1])
      + Acknowledged(settings, Run(settings, start, evs[..|evs| - 1]), evs[|evs| - 1])
  }

  ghost predicate PermittedRun(settings: Settings, start: State, evs: seq<Event>) {
    evs == [] ||
    (PermittedRun(settings, start, evs[..|evs| - 1]) &&
     Permitted(settings, Run(settings, start, evs[..|evs| - 1]), evs[|evs| - 1]))
  }

  // ----- durability -----

  lemma IndexHolds(settings: Settings, s: State, h: seq<Entry>, id: Text, source: Json, now: i64)
    requires Holds(s, h)
    ensures var ev := Indexing(id, source, now);
            Holds(Step(settings, s, ev), h + Acknowledged(settings, s, ev))
  {
    assert h + [] == h;
    var r := Validate(settings.clock, settings.mode, s.memory.mappings, source);
    if r.Ok? {
      MappingsHold(s, h, r.value);
      var mapped, record := SetMappings(s, r.value), IndexDocument(id, source);
      LogHolds(mapped, h, now, record, Upsert(source));
      assert Step(settings, s, Indexing(id, source, now)) == Log(mapped, now, record, Upsert(source));
    }
  }

  lemma CrashWhileIndexingHolds(settings: Settings, s: State, h: seq<Entry>, source: Json)
    requires Holds(s, h)
    ensures Holds(Step(settings, s, CrashWhileIndexing(source)), h)
  {
    var r := Validate(settings.clock, settings.mode, s.memory.mappings, source);
    if r.Ok? {
      MappingsHold(s, h, r.value);
      ReopenHolds(SetMappings(s, r.value).disk, h);
    } else {
      ReopenHolds(s.disk, h);
    }
  }

  lemma CrashWhileFlushingHolds(settings: Settings, s: State, h: seq<Entry>, p: CrashPoint)
    requires Holds(s, h) && Permitted(settings, s, CrashWhileFlushing(p))
    ensures Holds(Step(settings, s, CrashWhileFlushing(p)), h)
  {
    if IsBeforeSwap(p) {
      CrashBeforeSwapHolds(settings, s, h, p);
    } else {
      GuardedCrashHolds(settings, s, h, p);
    }
    ReopenHolds(DiskAt(settings, s, p), h);
  }

  lemma QuietStepHolds(settings: Settings, s: State, h: seq<Entry>, ev: Event)
    requires Holds(s, h) && (ev.Refreshing? || ev.Merging? || ev.Restarting?)
    ensures Holds(Step(settings, s, ev), h)
  {
    RefreshKeepsLive(s);
    MergeKeepsLive(s);
    ReopenHolds(s.disk, h);
  }

  lemma StepHolds(settings: Settings, s: State, h: seq<Entry>, ev: Event)
    requires Holds(s, h) && Permitted(settings, s, ev)
    ensures Holds(Step(settings, s, ev), h + Acknowledged(settings, s, ev))
  {
    assert h + [] == h;
    match ev
    case Indexing(id, source, now) => IndexHolds(settings, s, h, id, source, now);
    case Deleting(id, now) => LogHolds(s, h, now, DeleteDocument(id), Delete);
    case Flushing => GuardedFlushHolds(settings, s, h);
    case CrashWhileIndexing(source) => CrashWhileIndexingHolds(settings, s, h, source);
    case CrashWhileFlushing(p) => CrashWhileFlushingHolds(settings, s, h, p);
    case Restoring(snapshot) => LatestKeepsHistoryExactlyWhen(s, h);
    case CrashWhileRestoring(snapshot, gone) =>
      PartlyTrimmedHolds(s.disk, h, snapshot.lastSequence, gone);
      ReopenHolds(PartlyTrimmed(s.disk, gone), h);
    case _ => QuietStepHolds(settings, s, h, ev);
  }

  /** After every permitted run the index holds the fold of all acknowledged operations in order, and so
      does an index reopened from its disk. */
  lemma {:induction false} RunHolds(settings: Settings, mappings: FieldMappings, evs: seq<Event>)
    requires PermittedRun(settings, NewIndex(mappings), evs)
    ensures var s, h := Run(settings, NewIndex(mappings), evs), History(settings, NewIndex(mappings), evs);
            && Holds(s, h)
            && Live(s.memory) == Fold(h)
            && Open(s.disk).searchable == Fold(h)
            && Open(s.disk).lastSequence == s.memory.lastSequence
  {
    var start := NewIndex(mappings);
    if evs == [] {
      NewIndexHolds(mappings);
    } else {
      var front := evs[..|evs| - 1];
      RunHolds(settings, mappings, front);
      StepHolds(settings, Run(settings, start, front), History(settings, start, front), evs[|evs| - 1]);
    }
    ReopenHolds(Run(settings, start, evs).disk, History(settings, start, evs));
  }

  // ----- what an event does, where its history says nothing of it -----

  /** Refresh and merge show a search the whole history, a refresh drops what is pending, and a flush leaves an
      empty log behind segments that reach the last number. */
  lemma EventsDoTheirWork(settings: Settings, s: State, h: seq<Entry>)
    requires Holds(s, h)
    ensures var r := Step(settings, s, Refreshing).memory; r.searchable == Fold(h) && r.pending == map[]
    ensures var r := Step(settings, s, Merging).memory; r.searchable == Fold(h) && r.pending == s.memory.pending
    ensures var d := Step(settings, s, Flushing).disk;
            && d.wal.current == s.disk.wal.current + 1
            && (forall g :: g in d.wal.generations ==> d.wal.generations[g] == [])
            && MaxSequence(d.files, d.manifest) == s.memory.lastSequence
  {
    FlushCoversLog(settings, s, h);
  }

  predicate IsCrash(ev: Event) {
    ev.Restarting? || ev.CrashWhileIndexing? || ev.CrashWhileFlushing? || ev.CrashWhileRestoring?
  }

  /** A restart or crash leaves memory as an opening reads it from the disk; a restart leaves the disk alone, and
      every restore event first rolls the log over. */
  lemma CrashesForgetMemory(settings: Settings, s: State, ev: Event)
    ensures var r := Step(settings, s, ev);
            && (IsCrash(ev) ==> r.memory == Open(r.disk))
            && (ev.Restarting? ==> r.disk == s.disk)
            && (ev.Restoring? || ev.CrashWhileRestoring? ==> r.disk.wal.current == s.disk.wal.current + 1)
            && (ev.Restoring? ==> Live(r.memory) == ev.snapshot.documents)
            && (ev.CrashWhileRestoring? ==> r.disk.wal.generations == s.disk.wal.generations - ev.gone)
  {
  }

  // ----- at most one small segment -----

  ghost predicate OneSmall(settings: Settings, segments: Manifest) {
    |Small(settings.Threshold(), segments)| <= 1
  }

  /** With at most one small old segment, every merge behind a flush takes the new segment in. */
  lemma NewestIsMerged(settings: Settings, m: Memory)
    requires OneSmall(settings, m.manifest)
    ensures var plan := PlanMerge(settings.Threshold(), ExtendedManifest(m));
            plan.Some? ==> FlushedSegment(m) in plan.value
    ensures forall d: Disk :: MergeIsSafe(settings.Threshold(), d, m)
  {
  }

  lemma SmallStep(threshold: nat, front: Manifest, last: SegmentMeta)
    ensures Small(threshold, front + [last])
         == if IsSmall(threshold, last) then Small(threshold, front) + [last] else Small(threshold, front)
  {
  }

  /** A plan that names all small segments leaves none behind. */
  lemma {:induction false} NoSmallLeft(threshold: nat, segments: Manifest, plan: Manifest)
    requires forall x :: x in segments && IsSmall(threshold, x) ==> x in plan
    ensures Small(threshold, Without(segments, plan)) == []
  {
    if segments != [] {
      var front, last := segments[..|segments| - 1], segments[|segments| - 1];
      NoSmallLeft(threshold, front, plan);
      SmallStep(threshold, Without(front, plan), last);
      if IsSmall(threshold, last) {
        assert last in plan;
      }
    }
  }

  lemma {:induction false} SmallAreListed(threshold: nat, segments: Manifest)
    ensures forall x :: x in segments && IsSmall(threshold, x) ==> x in Small(threshold, segments)
  {
    if segments != [] {
      SmallAreListed(threshold, segments[..|segments| - 1]);
      assert segments == segments[..|segments| - 1] + [segments[|segments| - 1]];
    }
  }

  lemma SubsetIsNoLarger(a: Docs, b: Docs)
    requires a.Keys <= b.Keys
    ensures |a| <= |b|
  {
    KeysNoLarger(a.Keys, b.Keys);
  }

  lemma {:induction false} KeysNoLarger(a: set<Text>, b: set<Text>)
    requires a <= b
    ensures |a| <= |b|
  {
    if a != {} {
      var x :| x in a;
      KeysNoLarger(a - {x}, b - {x});
    }
  }

  /** The merge behind a flush takes the new segment alone and, by pending deletions, leaves less of it
      than the threshold, beside a small old segment. */
  predicate ShrinksToSmall(threshold: nat, m: Memory) {
    && |Small(threshold, m.manifest)| == 1
    && |m.searchable| >= threshold
    && 0 < |Live(m)| < threshold
  }

  /** A flush that completes leaves at most one small segment, however many stood before, except when its
      merge shrinks the new segment. */
  lemma FlushLeavesOneSmallExactlyWhen(settings: Settings, s: State)
    requires ManifestHolds(s)
    ensures OneSmall(settings, Flush(settings, s).disk.manifest) <==> !ShrinksToSmall(settings.Threshold(), s.memory)
  {
    var threshold := settings.Threshold();
    PlanAfterFlush(threshold, s.memory);
    SmallStep(threshold, s.memory.manifest, FlushedSegment(s.memory));
    var plan := PlanMerge(threshold, ExtendedManifest(s.memory));
    if plan.Some? {
      if TakesOldOnly(threshold, s.memory) || IsSmall(threshold, FlushedSegment(s.memory)) {
        AllSmallMerged(settings, s, plan.value);
      } else {
        NewestAloneMerged(settings, s, plan.value);
      }
    }
  }

  lemma AllSmallPlanned(threshold: nat, m: Memory, plan: Manifest)
    requires PlanFor(threshold, m) == Some(plan)
    requires TakesOldOnly(threshold, m) || IsSmall(threshold, FlushedSegment(m))
    ensures forall x :: x in ExtendedManifest(m) && IsSmall(threshold, x) ==> x in plan
  {
    SmallAreListed(threshold, m.manifest);
  }

  lemma AllSmallMerged(settings: Settings, s: State, plan: Manifest)
    requires PlanFor(settings.Threshold(), s.memory) == Some(plan)
    requires TakesOldOnly(settings.Threshold(), s.memory) || IsSmall(settings.Threshold(), FlushedSegment(s.memory))
    ensures OneSmall(settings, ApplyMergePlan(FlushWithoutMerge(s), plan).disk.manifest)
  {
    var threshold, flushed := settings.Threshold(), FlushWithoutMerge(s);
    AllSmallPlanned(threshold, s.memory, plan);
    NoSmallLeft(threshold, ExtendedManifest(s.memory), plan);
    var merged := MergedManifest(flushed.disk, flushed.memory, plan);
    SmallStep(threshold, Without(ExtendedManifest(s.memory), plan), merged[|merged| - 1]);
  }

  lemma NewestAloneMerged(settings: Settings, s: State, plan: Manifest)
    requires ManifestHolds(s) && PlanMerge(settings.Threshold(), ExtendedManifest(s.memory)) == Some(plan)
    requires !TakesOldOnly(settings.Threshold(), s.memory) && !IsSmall(settings.Threshold(), FlushedSegment(s.memory))
    ensures OneSmall(settings, Flush(settings, s).disk.manifest) <==> !ShrinksToSmall(settings.Threshold(), s.memory)
  {
    var threshold := settings.Threshold();
    var extended, flushed := ExtendedManifest(s.memory), FlushWithoutMerge(s);
    PlanAfterFlush(threshold, s.memory);
    WithoutTheNewest(s, plan);
    MergeCollects(threshold, s, plan);
    var merged := MergedManifest(flushed.disk, flushed.memory, plan);
    SmallStep(threshold, Without(extended, plan), merged[|merged| - 1]);
  }

  lemma WithoutTheNewest(s: State, plan: Manifest)
    requires ManifestHolds(s) && plan == [FlushedSegment(s.memory)]
    ensures Without(ExtendedManifest(s.memory), plan) == s.memory.manifest
  {
    NextNumberIsFresh(s.disk.files, s.disk.manifest);
    assert plan[0].segmentNumber == FlushedSegment(s.memory).segmentNumber;
    assert ExtendedManifest(s.memory)[..|s.memory.manifest|] == s.memory.manifest;
    WithoutNothing(s.memory.manifest, plan);
  }

  lemma {:induction false} WithoutNothing(segments: Manifest, plan: Manifest)
    requires forall x :: x in segments ==> !Names(plan, x.segmentNumber)
    ensures Without(segments, plan) == segments
  {
    if segments != [] {
      WithoutNothing(segments[..|segments| - 1], plan);
    }
  }

  /** With nothing pending, or under the guard, the documents do not become fewer by the merge. */
  lemma FlushKeepsOneSmall(settings: Settings, s: State)
    requires ManifestHolds(s)
    requires s.memory.pending == map[] || FlushGuard(settings.Threshold(), s.disk, s.memory)
    ensures OneSmall(settings, Flush(settings, s).disk.manifest)
  {
    FlushLeavesOneSmallExactlyWhen(settings, s);
    SubsetIsNoLarger(s.memory.searchable, Live(s.memory));
  }

  // ----- the manifest over all runs -----

  lemma StepKeepsManifest(settings: Settings, s: State, ev: Event)
    requires ManifestHolds(s)
    ensures ManifestHolds(Step(settings, s, ev))
  {
    match ev
    case Flushing => FlushKeepsManifest(settings, s, AfterFlush);
    case CrashWhileFlushing(p) => FlushKeepsManifest(settings, s, p);
    case _ =>
  }

  /** After every run, unguarded flushes, crashes anywhere and restores of any snapshot included, memory and disk
      have the same manifest, its numbers ascend and the next one is new. */
  lemma {:induction false} RunKeepsManifest(settings: Settings, mappings: FieldMappings, evs: seq<Event>)
    ensures var s := Run(settings, NewIndex(mappings), evs);
            ManifestHolds(s) && !Names(s.disk.manifest, NextSegmentNumber(s.memory.manifest))
  {
    var start := NewIndex(mappings);
    if evs != [] {
      var front := evs[..|evs| - 1];
      RunKeepsManifest(settings, mappings, front);
      StepKeepsManifest(settings, Run(settings, start, front), evs[|evs| - 1]);
    }
    var s := Run(settings, start, evs);
    NextNumberIsFresh(s.disk.files, s.disk.manifest);
  }

  /** A flush that completes has nothing pending or is guarded, and none crashes behind its manifest swap. */
  ghost predicate Orderly(settings: Settings, s: State, ev: Event) {
    match ev
    case Flushing => s.memory.pending == map[] || FlushGuard(settings.Threshold(), s.disk, s.memory)
    case CrashWhileFlushing(p) => IsBeforeSwap(p)
    case _ => true
  }

  ghost predicate OrderlyRun(settings: Settings, start: State, evs: seq<Event>) {
    evs == [] ||
    (OrderlyRun(settings, start, evs[..|evs| - 1]) &&
     Orderly(settings, Run(settings, start, evs[..|evs| - 1]), evs[|evs| - 1]))
  }

  lemma StepKeepsOneSmall(settings: Settings, s: State, ev: Event)
    requires ManifestHolds(s) && Orderly(settings, s, ev)
    requires OneSmall(settings, s.disk.manifest)
    ensures OneSmall(settings, Step(settings, s, ev).disk.manifest)
  {
    if ev.Flushing? {
      FlushKeepsOneSmall(settings, s);
    }
  }

  /** In such runs there is never more than one small segment, so the third condition of the guard is
      always met. */
  lemma {:induction false} OrderlyRunsKeepOneSmall(settings: Settings, mappings: FieldMappings, evs: seq<Event>)
    requires OrderlyRun(settings, NewIndex(mappings), evs)
    ensures var s := Run(settings, NewIndex(mappings), evs);
            OneSmall(settings, s.disk.manifest) && MergeIsSafe(settings.Threshold(), s.disk, s.memory)
  {
    var start := NewIndex(mappings);
    if evs != [] {
      var front, last := evs[..|evs| - 1], evs[|evs| - 1];
      OrderlyRunsKeepOneSmall(settings, mappings, front);
      RunKeepsManifest(settings, mappings, front);
      StepKeepsOneSmall(settings, Run(settings, start, front), last);
    }
    RunKeepsManifest(settings, mappings, evs);
  }
}
