// Field types over whole runs: they never change, and every document an index can show conforms to them.
module Typing {
  import opened Bytes
  import opened Values
  import opened Mappings
  import opened IndexState
  import opened Flushing
  import opened Runs
  import L = Log

  ghost predicate DocsConform(clock: Clock, mappings: FieldMappings, docs: Docs) {
    forall id :: id in docs ==> Conforms(clock, mappings, docs[id])
  }

  ghost predicate PendingConforms(clock: Clock, mappings: FieldMappings, pending: Pending) {
    forall id :: id in pending && pending[id].Upsert? ==> Conforms(clock, mappings, pending[id].source)
  }

  ghost predicate EntriesConform(clock: Clock, mappings: FieldMappings, es: seq<Entry>) {
    forall i :: 0 <= i < |es| && es[i].record.IndexDocument? ==> Conforms(clock, mappings, es[i].record.source)
  }

  ghost predicate FilesConform(clock: Clock, mappings: FieldMappings, files: map<nat, Snapshot>) {
    forall n :: n in files ==> DocsConform(clock, mappings, files[n].documents)
  }

  ghost predicate LogConforms(clock: Clock, mappings: FieldMappings, log: L.Log) {
    forall g :: g in log.generations ==> EntriesConform(clock, mappings, log.generations[g])
  }

  ghost predicate DiskConforms(clock: Clock, d: Disk) {
    FilesConform(clock, d.mappings, d.files) && LogConforms(clock, d.mappings, d.wal)
  }

  /** Wherever a document is kept, it conforms to the mappings. */
  ghost predicate AllConform(clock: Clock, s: State) {
    && s.disk.mappings == s.memory.mappings
    && DiskConforms(clock, s.disk)
    && DocsConform(clock, s.memory.mappings, s.memory.searchable)
    && PendingConforms(clock, s.memory.mappings, s.memory.pending)
  }

  lemma LiveConforms(clock: Clock, mappings: FieldMappings, docs: Docs, pending: Pending)
    requires DocsConform(clock, mappings, docs) && PendingConforms(clock, mappings, pending)
    ensures DocsConform(clock, mappings, ApplyPending(docs, pending))
  {
  }

  lemma {:induction false} UnionConforms(clock: Clock, mappings: FieldMappings, files: map<nat, Snapshot>,
                                         segments: Manifest)
    requires FilesConform(clock, mappings, files)
    ensures DocsConform(clock, mappings, Union(files, segments))
  {
    if segments != [] {
      UnionConforms(clock, mappings, files, segments[..|segments| - 1]);
    }
  }

  lemma {:induction false} FlattenConforms(clock: Clock, mappings: FieldMappings, generations: map<nat, seq<Entry>>)
    requires forall g :: g in generations ==> EntriesConform(clock, mappings, generations[g])
    ensures EntriesConform(clock, mappings, L.Flatten(generations))
    decreases generations.Keys
  {
    if generations != map[] {
      var m := L.Max(generations.Keys);
      FlattenConforms(clock, mappings, generations - {m});
      assert EntriesConform(clock, mappings, generations[m]);
    }
  }

  lemma {:induction false} AboveConforms(clock: Clock, mappings: FieldMappings, es: seq<Entry>, bound: nat)
    requires EntriesConform(clock, mappings, es)
    ensures EntriesConform(clock, mappings, L.Above(es, bound))
  {
    if es != [] {
      assert EntriesConform(clock, mappings, es[1..]) by {
        forall i | 0 <= i < |es[1..]| && es[1..][i].record.IndexDocument?
          ensures Conforms(clock, mappings, es[1..][i].record.source)
        {
          assert es[1..][i] == es[i + 1];
        }
      }
      AboveConforms(clock, mappings, es[1..], bound);
    }
  }

  lemma {:induction false} ReplayConforms(clock: Clock, mappings: FieldMappings, docs: Docs, es: seq<Entry>)
    requires DocsConform(clock, mappings, docs) && EntriesConform(clock, mappings, es)
    ensures DocsConform(clock, mappings, ReplayOnto(docs, es))
  {
    if es != [] {
      ReplayConforms(clock, mappings, docs, es[..|es| - 1]);
      assert es[|es| - 1].record.IndexDocument? ==> Conforms(clock, mappings, es[|es| - 1].record.source);
    }
  }

  lemma OpenConforms(clock: Clock, d: Disk)
    requires DiskConforms(clock, d)
    ensures AllConform(clock, State(d, Open(d)))
  {
    UnionConforms(clock, d.mappings, d.files, d.manifest);
    FlattenConforms(clock, d.mappings, d.wal.generations);
    AboveConforms(clock, d.mappings, L.Flatten(d.wal.generations), MaxSequence(d.files, d.manifest));
    ReplayConforms(clock, d.mappings, Union(d.files, d.manifest), L.Replay(d.wal, MaxSequence(d.files, d.manifest)));
  }

  lemma MoreMappingsConform(clock: Clock, s: State, after: FieldMappings)
    requires AllConform(clock, s) && Extends(s.memory.mappings, after)
    ensures AllConform(clock, SetMappings(s, after))
  {
  }

  lemma LogOperationConforms(clock: Clock, s: State, now: i64, record: Record, op: PendingOperation)
    requires AllConform(clock, s) && (record.IndexDocument? || record.DeleteDocument?)
    requires op == if record.IndexDocument? then Upsert(record.source) else Delete
    requires record.IndexDocument? ==> Conforms(clock, s.memory.mappings, record.source)
    ensures AllConform(clock, Log(s, now, record, op))
  {
  }

  lemma FlushWithoutMergeConforms(clock: Clock, s: State, gone: set<nat>)
    requires AllConform(clock, s)
    ensures DiskConforms(clock, RolledOver(s.disk))
    ensures DiskConforms(clock, WithSegmentFile(s.disk, s.memory))
    ensures DiskConforms(clock, WithSwappedManifest(s.disk, s.memory))
    ensures DiskConforms(clock, WithRemoved(s.disk, s.memory, gone))
  {
  }

  lemma FlushedConforms(clock: Clock, s: State)
    requires AllConform(clock, s)
    ensures AllConform(clock, FlushWithoutMerge(s))
  {
  }

  lemma MergeConforms(clock: Clock, s: State, plan: Manifest)
    requires AllConform(clock, s)
    ensures DiskConforms(clock, WithMergedFile(s.disk, s.memory, plan))
    ensures AllConform(clock, ApplyMergePlan(s, plan))
  {
    UnionConforms(clock, s.disk.mappings, s.disk.files, plan);
    LiveConforms(clock, s.disk.mappings, Union(s.disk.files, plan), s.memory.pending);
  }

  lemma FlushConforms(settings: Settings, s: State)
    requires AllConform(settings.clock, s)
    ensures AllConform(settings.clock, Flush(settings, s))
    ensures Flush(settings, s).memory.mappings == s.memory.mappings
  {
    FlushedConforms(settings.clock, s);
    var flushed := FlushWithoutMerge(s);
    var plan := PlanMerge(settings.Threshold(), flushed.memory.manifest);
    if plan.Some? {
      MergeConforms(settings.clock, flushed, plan.value);
    }
  }

  lemma MergedFileConforms(settings: Settings, s: State)
    requires AllConform(settings.clock, s)
    ensures var d := DiskAt(settings, s, AfterMergedFile);
            DiskConforms(settings.clock, d) && d.mappings == s.memory.mappings
  {
    FlushedConforms(settings.clock, s);
    var flushed := FlushWithoutMerge(s);
    var plan := PlanMerge(settings.Threshold(), flushed.memory.manifest);
    if plan.Some? {
      MergeConforms(settings.clock, flushed, plan.value);
      FlushWritesMerged(settings, s, flushed, plan.value);
    } else {
      assert DiskAt(settings, s, AfterMergedFile) == flushed.disk;
    }
  }

  lemma CrashedFlushConforms(settings: Settings, s: State, p: CrashPoint)
    requires AllConform(settings.clock, s)
    ensures DiskConforms(settings.clock, DiskAt(settings, s, p))
    ensures DiskAt(settings, s, p).mappings == s.memory.mappings
  {
    match p
    case AfterFlush => FlushConforms(settings, s);
    case AfterMergedFile => MergedFileConforms(settings, s);
    case DuringTrim(gone) => FlushWithoutMergeConforms(settings.clock, s, gone);
    case _ => FlushWithoutMergeConforms(settings.clock, s, {});
  }

  /** JSON objects name each field once. */
  ghost predicate IsJson(source: Json) {
    source.Object? ==> DistinctNames(source.fields)
  }

  ghost predicate WellFormedEvent(ev: Event) {
    match ev
    case Indexing(_, source, _) => IsJson(source)
    case CrashWhileIndexing(source) => IsJson(source)
    case _ => true
  }

  lemma WriteConforms(settings: Settings, s: State, ev: Event)
    requires AllConform(settings.clock, s) && WellFormedEvent(ev)
    requires ev.Indexing? || ev.Deleting? || ev.CrashWhileIndexing?
    ensures AllConform(settings.clock, Step(settings, s, ev))
    ensures Extends(s.memory.mappings, Step(settings, s, ev).memory.mappings)
    ensures settings.mode.Strict? ==> Step(settings, s, ev).memory.mappings == s.memory.mappings
  {
    if ev.Deleting? {
      LogOperationConforms(settings.clock, s, ev.now, DeleteDocument(ev.id), Delete);
    } else {
      var r := Validate(settings.clock, settings.mode, s.memory.mappings, ev.source);
      if r.Ok? {
        AcceptedConforms(settings.clock, settings.mode, s.memory.mappings, ev.source);
        var mapped := SetMappings(s, r.value);
        MoreMappingsConform(settings.clock, s, r.value);
        if ev.Indexing? {
          LogOperationConforms(settings.clock, mapped, ev.now, IndexDocument(ev.id, ev.source), Upsert(ev.source));
        } else {
          OpenConforms(settings.clock, mapped.disk);
        }
      } else if ev.CrashWhileIndexing? {
        OpenConforms(settings.clock, s.disk);
      }
    }
  }

  lemma TrimmedConforms(clock: Clock, s: State, gone: set<nat>)
    requires AllConform(clock, s)
    ensures DiskConforms(clock, PartlyTrimmed(s.disk, gone))
  {
  }

  /** A restored snapshot conforms to the mappings of its index. */
  ghost predicate RestoresConforming(clock: Clock, s: State, ev: Event) {
    ev.Restoring? ==> DocsConform(clock, s.memory.mappings, ev.snapshot.documents)
  }

  lemma OtherStepConforms(settings: Settings, s: State, ev: Event)
    requires AllConform(settings.clock, s) && RestoresConforming(settings.clock, s, ev)
    requires !ev.Indexing? && !ev.Deleting? && !ev.CrashWhileIndexing?
    ensures AllConform(settings.clock, Step(settings, s, ev))
    ensures Step(settings, s, ev).memory.mappings == s.memory.mappings
  {
    match ev
    case Refreshing =>
      LiveConforms(settings.clock, s.memory.mappings, s.memory.searchable, s.memory.pending);
    case Merging =>
      LiveConforms(settings.clock, s.memory.mappings, s.memory.searchable, s.memory.pending);
    case Flushing => FlushConforms(settings, s);
    case Restarting => OpenConforms(settings.clock, s.disk);
    case CrashWhileFlushing(p) =>
      CrashedFlushConforms(settings, s, p);
      OpenConforms(settings.clock, DiskAt(settings, s, p));
    case Restoring(snapshot) =>
      TrimmedConforms(settings.clock, s, L.RemovableGenerations(L.Rollover(s.disk.wal), snapshot.lastSequence));
    case CrashWhileRestoring(_, gone) =>
      TrimmedConforms(settings.clock, s, gone);
      OpenConforms(settings.clock, PartlyTrimmed(s.disk, gone));
  }

  /** One event never changes the type of a field, in strict mode adds none, and keeps every document
      conforming; a rejected document changes nothing at all. */
  lemma StepConforms(settings: Settings, s: State, ev: Event)
    requires AllConform(settings.clock, s) && WellFormedEvent(ev) && RestoresConforming(settings.clock, s, ev)
    ensures AllConform(settings.clock, Step(settings, s, ev))
    ensures Extends(s.memory.mappings, Step(settings, s, ev).memory.mappings)
    ensures settings.mode.Strict? ==> Step(settings, s, ev).memory.mappings == s.memory.mappings
    ensures ev.Indexing? && Validate(settings.clock, settings.mode, s.memory.mappings, ev.source).Err? ==>
              Step(settings, s, ev) == s
  {
    if ev.Indexing? || ev.Deleting? || ev.CrashWhileIndexing? {
      WriteConforms(settings, s, ev);
    } else {
      OtherStepConforms(settings, s, ev);
    }
  }

  /** The snapshot was taken at some point of the run. */
  ghost predicate IsTaken(settings: Settings, start: State, evs: seq<Event>, snapshot: Snapshot) {
    exists k :: 0 <= k <= |evs| && snapshot == CreateSnapshot(Run(settings, start, evs[..k]).memory)
  }

  /** Sources are JSON, and only snapshots that the index took itself are restored. */
  ghost predicate WellFormedRun(settings: Settings, start: State, evs: seq<Event>) {
    forall i :: 0 <= i < |evs| ==>
      WellFormedEvent(evs[i]) && (evs[i].Restoring? ==> IsTaken(settings, start, evs[..i], evs[i].snapshot))
  }

  lemma WellFormedFront(settings: Settings, start: State, evs: seq<Event>)
    requires evs != [] && WellFormedRun(settings, start, evs)
    ensures WellFormedRun(settings, start, evs[..|evs| - 1])
  {
    var front := evs[..|evs| - 1];
    forall i | 0 <= i < |front|
      ensures WellFormedEvent(front[i])
      ensures front[i].Restoring? ==> IsTaken(settings, start, front[..i], front[i].snapshot)
    {
      assert front[i] == evs[i] && front[..i] == evs[..i];
    }
  }

  lemma DocsConformToMore(clock: Clock, before: FieldMappings, after: FieldMappings, docs: Docs)
    requires DocsConform(clock, before, docs) && Extends(before, after)
    ensures DocsConform(clock, after, docs)
  {
  }

  /** What an index held at any point of its run conforms to the mappings at the end of the run. */
  lemma {:induction false} EarlierConforms(settings: Settings, start: State, evs: seq<Event>, k: nat)
    requires AllConform(settings.clock, start) && WellFormedRun(settings, start, evs) && k <= |evs|
    ensures var s, m := Run(settings, start, evs), Run(settings, start, evs[..k]).memory;
            && AllConform(settings.clock, s)
            && Extends(m.mappings, s.memory.mappings)
            && (settings.mode.Strict? ==> s.memory.mappings == m.mappings)
            && DocsConform(settings.clock, s.memory.mappings, Live(m))
    decreases |evs|, 0
  {
    if evs == [] {
      assert evs[..k] == [];
      LiveConforms(settings.clock, start.memory.mappings, start.memory.searchable, start.memory.pending);
    } else {
      var front, last := evs[..|evs| - 1], evs[|evs| - 1];
      WellFormedFront(settings, start, evs);
      FrontConforms(settings, start, front, last);
      if k == |evs| {
        assert evs[..k] == evs;
        var m := Run(settings, start, evs).memory;
        LiveConforms(settings.clock, m.mappings, m.searchable, m.pending);
      } else {
        assert evs[..k] == front[..k];
        EarlierConforms(settings, start, front, k);
        DocsConformToMore(settings.clock, Run(settings, start, front).memory.mappings,
                          Run(settings, start, evs).memory.mappings, Live(Run(settings, start, evs[..k]).memory));
      }
    }
  }

  lemma {:induction false} FrontConforms(settings: Settings, start: State, front: seq<Event>, last: Event)
    requires AllConform(settings.clock, start) && WellFormedRun(settings, start, front) && WellFormedEvent(last)
    requires last.Restoring? ==> IsTaken(settings, start, front, last.snapshot)
    ensures var s := Run(settings, start, front);
            && AllConform(settings.clock, Step(settings, s, last))
            && Extends(s.memory.mappings, Step(settings, s, last).memory.mappings)
            && (settings.mode.Strict? ==> Step(settings, s, last).memory.mappings == s.memory.mappings)
    decreases |front|, 1
  {
    EarlierConforms(settings, start, front, |front|);
    if last.Restoring? {
      var k :| 0 <= k <= |front| && last.snapshot == CreateSnapshot(Run(settings, start, front[..k]).memory);
      EarlierConforms(settings, start, front, k);
    }
    StepConforms(settings, Run(settings, start, front), last);
  }

  /** Over every run, with or without safe flushes and crashes, and with restores of the index's own snapshots,
      all live documents conform to the mappings and no field that was ever mapped has changed its type. */
  lemma RunConforms(settings: Settings, mappings: FieldMappings, evs: seq<Event>)
    requires WellFormedRun(settings, NewIndex(mappings), evs)
    ensures AllConform(settings.clock, Run(settings, NewIndex(mappings), evs))
    ensures var m := Run(settings, NewIndex(mappings), evs).memory;
            && Extends(mappings, m.mappings)
            && (settings.mode.Strict? ==> m.mappings == mappings)
            && DocsConform(settings.clock, m.mappings, Live(m))
  {
    var m := Run(settings, NewIndex(mappings), evs).memory;
    EarlierConforms(settings, NewIndex(mappings), evs, 0);
    assert evs[..0] == [];
    LiveConforms(settings.clock, m.mappings, m.searchable, m.pending);
  }
}
