// One index as state on disk and in memory, with every operation as a function on that state.
module IndexState {
  import opened Bytes
  import opened Values
  import opened Mappings
  import L = Log

  /** Documents by id: an id's value is the document's source. */
  type Docs = map<Text, Json>

  datatype PendingOperation = Upsert(source: Json) | Delete

  type Pending = map<Text, PendingOperation>

  datatype SegmentMeta = SegmentMeta(segmentNumber: nat, lastSequence: nat, documentCount: nat)

  type Manifest = seq<SegmentMeta>

  datatype Snapshot = Snapshot(lastSequence: nat, documents: Docs)

  /** The log, the manifest, the segment files (also those the manifest does not name) and the mappings
      of metadata.json. */
  datatype Disk = Disk(wal: L.Log, manifest: Manifest, files: map<nat, Snapshot>, mappings: FieldMappings)

  datatype Memory = Memory(manifest: Manifest, searchable: Docs, pending: Pending, lastSequence: nat,
                           mappings: FieldMappings)

  datatype State = State(disk: Disk, memory: Memory)

  datatype Settings = Settings(clock: Clock, mode: MappingMode, mergeThreshold: Option<nat>) {
    function Threshold(): nat {
      if mergeThreshold.Some? then mergeThreshold.value else 8
    }
  }

  // ----- views -----

  function ApplyPending(docs: Docs, pending: Pending): Docs {
    map id | id in docs.Keys + pending.Keys && !(id in pending && pending[id].Delete?) ::
      if id in pending then pending[id].source else docs[id]
  }

  /** The documents of an index: what is searchable with the pending operations applied. */
  function Live(m: Memory): Docs {
    ApplyPending(m.searchable, m.pending)
  }

  function GetDocument(m: Memory, id: Text): Option<Json> {
    if id in m.pending then
      match m.pending[id]
      case Upsert(source) => Some(source)
      case Delete => None
    else if id in m.searchable then Some(m.searchable[id])
    else None
  }

  function Lookup(docs: Docs, id: Text): Option<Json> {
    if id in docs then Some(docs[id]) else None
  }

  function ReplayOne(docs: Docs, record: Record): Docs {
    match record
    case IndexDocument(id, source) => docs[id := source]
    case DeleteDocument(id) => docs - {id}
    case MappingUpdate(_, _) => docs
  }

  function ReplayOnto(docs: Docs, es: seq<Entry>): Docs {
    if es == [] then docs
    else ReplayOne(ReplayOnto(docs, es[..|es| - 1]), es[|es| - 1].record)
  }

  /** What a history of acknowledged operations amounts to. */
  function Fold(history: seq<Entry>): Docs {
    ReplayOnto(map[], history)
  }

  // ----- segments -----

  /** The documents of the segments, later ones overriding earlier ones; a missing file counts for nothing. */
  function Union(files: map<nat, Snapshot>, segments: Manifest): Docs {
    if segments == [] then map[]
    else
      var front, last := Union(files, segments[..|segments| - 1]), segments[|segments| - 1];
      if last.segmentNumber in files then front + files[last.segmentNumber].documents else front
  }

  function MaxSequence(files: map<nat, Snapshot>, segments: Manifest): nat {
    if segments == [] then 0
    else
      var front, last := MaxSequence(files, segments[..|segments| - 1]), segments[|segments| - 1];
      if last.segmentNumber in files && last.lastSequence > front then last.lastSequence else front
  }

  function NextSegmentNumber(segments: Manifest): nat {
    if segments == [] then 1 else segments[|segments| - 1].segmentNumber + 1
  }

  predicate IsSmall(threshold: nat, segment: SegmentMeta) {
    0 < segment.documentCount < threshold
  }

  function Small(threshold: nat, segments: Manifest): Manifest {
    if segments == [] then []
    else
      var front, last := Small(threshold, segments[..|segments| - 1]), segments[|segments| - 1];
      if IsSmall(threshold, last) then front + [last] else front
  }

  predicate Names(segments: Manifest, number: nat) {
    exists i :: 0 <= i < |segments| && segments[i].segmentNumber == number
  }

  /** The segments that a plan leaves in the manifest. */
  function Without(segments: Manifest, plan: Manifest): Manifest {
    if segments == [] then []
    else
      var front, last := Without(segments[..|segments| - 1], plan), segments[|segments| - 1];
      if Names(plan, last.segmentNumber) then front else front + [last]
  }

  // ----- opening -----

  ghost function Open(d: Disk): Memory {
    var base := Union(d.files, d.manifest);
    var bound := MaxSequence(d.files, d.manifest);
    var entries := L.Replay(d.wal, bound);
    Memory(d.manifest, ReplayOnto(base, entries), map[],
           if entries == [] then bound else entries[|entries| - 1].sequenceNumber, d.mappings)
  }

  ghost function Restart(s: State): State {
    State(s.disk, Open(s.disk))
  }

  function NewIndex(mappings: FieldMappings): State {
    State(Disk(L.Empty(), [], map[], mappings), Memory([], map[], map[], 0, mappings))
  }

  // ----- writing -----

  function Log(s: State, now: i64, record: Record, op: PendingOperation): State
    requires record.IndexDocument? || record.DeleteDocument?
  {
    var number := s.memory.lastSequence + 1;
    State(s.disk.(wal := L.Append(s.disk.wal, Entry(number, now, record))),
          s.memory.(pending := s.memory.pending[record.id := op], lastSequence := number))
  }

  function SetMappings(s: State, mappings: FieldMappings): State {
    State(s.disk.(mappings := mappings), s.memory.(mappings := mappings))
  }

  function IndexDoc(settings: Settings, s: State, id: Text, source: Json, now: i64): Result<State, MappingError> {
    var mappings :- Validate(settings.clock, settings.mode, s.memory.mappings, source);
    Ok(Log(SetMappings(s, mappings), now, IndexDocument(id, source), Upsert(source)))
  }

  function DeleteDoc(s: State, id: Text, now: i64): State {
    Log(s, now, DeleteDocument(id), Delete)
  }

  function Refresh(s: State): State {
    s.(memory := s.memory.(searchable := Live(s.memory), pending := map[]))
  }

  /** `merge` publishes the live view as searchable but keeps the pending operations; on disk it only
      writes the file current.json, which an index with a manifest never reads. */
  function Merge(s: State): State {
    s.(memory := s.memory.(searchable := Live(s.memory)))
  }

  // ----- flushing -----

  function FlushedSnapshot(m: Memory): Snapshot {
    Snapshot(m.lastSequence, m.searchable)
  }

  function FlushedSegment(m: Memory): SegmentMeta {
    SegmentMeta(NextSegmentNumber(m.manifest), m.lastSequence, |m.searchable|)
  }

  function ExtendedManifest(m: Memory): Manifest {
    m.manifest + [FlushedSegment(m)]
  }

  function PlanMerge(threshold: nat, segments: Manifest): Option<Manifest> {
    var below := Small(threshold, segments);
    if |below| >= 2 then Some(below)
    else if segments != [] && segments[|segments| - 1].documentCount >= threshold then Some([segments[|segments| - 1]])
    else None
  }

  function RolledOver(d: Disk): Disk {
    d.(wal := L.Rollover(d.wal))
  }

  function WithSegmentFile(d: Disk, m: Memory): Disk {
    RolledOver(d).(files := d.files[FlushedSegment(m).segmentNumber := FlushedSnapshot(m)])
  }

  function WithSwappedManifest(d: Disk, m: Memory): Disk {
    WithSegmentFile(d, m).(manifest := ExtendedManifest(m))
  }

  /** Some of the covered generations are gone. */
  function WithRemoved(d: Disk, m: Memory, gone: set<nat>): Disk {
    var swapped := WithSwappedManifest(d, m);
    swapped.(wal := L.Remove(swapped.wal, gone))
  }

  function CoveredGenerations(d: Disk, m: Memory): set<nat> {
    L.RemovableGenerations(WithSwappedManifest(d, m).wal, m.lastSequence)
  }

  function Trimmed(d: Disk, m: Memory): Disk {
    WithRemoved(d, m, CoveredGenerations(d, m))
  }

  /** Memory when the merge is planned. */
  function Swapped(m: Memory): Memory {
    m.(manifest := ExtendedManifest(m))
  }

  function MergedDocuments(d: Disk, m: Memory, plan: Manifest): Docs {
    ApplyPending(Union(d.files, plan), m.pending)
  }

  function MergedSnapshot(d: Disk, m: Memory, plan: Manifest): Snapshot {
    Snapshot(m.lastSequence, MergedDocuments(d, m, plan))
  }

  function MergedManifest(d: Disk, m: Memory, plan: Manifest): Manifest {
    Without(m.manifest, plan)
    + [SegmentMeta(NextSegmentNumber(m.manifest), m.lastSequence, |MergedDocuments(d, m, plan)|)]
  }

  function WithMergedFile(d: Disk, m: Memory, plan: Manifest): Disk {
    d.(files := d.files[NextSegmentNumber(m.manifest) := MergedSnapshot(d, m, plan)])
  }

  function ApplyMergePlan(s: State, plan: Manifest): State {
    if plan == [] then s
    else
      var manifest := MergedManifest(s.disk, s.memory, plan);
      State(WithMergedFile(s.disk, s.memory, plan).(manifest := manifest),
            s.memory.(manifest := manifest, searchable := MergedDocuments(s.disk, s.memory, plan)))
  }

  function FlushWithoutMerge(s: State): State {
    State(Trimmed(s.disk, s.memory), Swapped(s.memory))
  }

  function Flush(settings: Settings, s: State): State {
    var flushed := FlushWithoutMerge(s);
    match PlanMerge(settings.Threshold(), flushed.memory.manifest)
    case Some(plan) => ApplyMergePlan(flushed, plan)
    case None => flushed
  }

  /** Where a crash can interrupt a flush: after each of its steps on the disk. */
  datatype CrashPoint =
    | BeforeFlush
    | AfterRollover
    | AfterSegmentFile
    | AfterManifestSwap
    | DuringTrim(gone: set<nat>)
    | AfterMergedFile
    | AfterFlush

  ghost predicate IsCrashPoint(settings: Settings, s: State, p: CrashPoint) {
    match p
    case DuringTrim(gone) => gone <= CoveredGenerations(s.disk, s.memory)
    case AfterMergedFile => PlanMerge(settings.Threshold(), ExtendedManifest(s.memory)).Some?
    case _ => true
  }

  function DiskAt(settings: Settings, s: State, p: CrashPoint): Disk
  {
    match p
    case BeforeFlush => s.disk
    case AfterRollover => RolledOver(s.disk)
    case AfterSegmentFile => WithSegmentFile(s.disk, s.memory)
    case AfterManifestSwap => WithSwappedManifest(s.disk, s.memory)
    case DuringTrim(gone) => WithRemoved(s.disk, s.memory, gone)
    case AfterMergedFile =>
      var flushed := FlushWithoutMerge(s);
      (match PlanMerge(settings.Threshold(), flushed.memory.manifest)
       case Some(plan) => WithMergedFile(flushed.disk, flushed.memory, plan)
       case None => flushed.disk)
    case AfterFlush => Flush(settings, s).disk
  }

  lemma FlushMerges(settings: Settings, s: State, flushed: State, plan: Manifest)
    requires flushed == FlushWithoutMerge(s)
    requires PlanMerge(settings.Threshold(), flushed.memory.manifest) == Some(plan)
    ensures Flush(settings, s) == ApplyMergePlan(flushed, plan)
  {
  }

  lemma FlushWritesMerged(settings: Settings, s: State, flushed: State, plan: Manifest)
    requires flushed == FlushWithoutMerge(s)
    requires PlanMerge(settings.Threshold(), flushed.memory.manifest) == Some(plan)
    ensures DiskAt(settings, s, AfterMergedFile) == WithMergedFile(flushed.disk, flushed.memory, plan)
  {
  }

  // ----- snapshots -----

  function CreateSnapshot(m: Memory): Snapshot {
    Snapshot(m.lastSequence, Live(m))
  }

  /** The restored view lives in memory; on disk the log is rolled over and trimmed, the manifest is not
      touched. */
  function RestoreSnapshot(s: State, snapshot: Snapshot): State {
    State(s.disk.(wal := L.Trim(L.Rollover(s.disk.wal), snapshot.lastSequence)),
          s.memory.(searchable := snapshot.documents, pending := map[], lastSequence := snapshot.lastSequence))
  }

  /** The disk where a restore crashes in its trim, with some of the generations gone. */
  function PartlyTrimmed(d: Disk, gone: set<nat>): Disk {
    d.(wal := L.Remove(L.Rollover(d.wal), gone))
  }
}
