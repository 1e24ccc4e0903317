// What a restored snapshot is worth: what the index shows when it is opened again, and which of the writes
// after a restore survive.
module Restoring {
  import opened Bytes
  import opened Values
  import opened Mappings
  import opened IndexState
  import opened Durability
  import opened Flushing
  import L = Log

  // ----- what a trim takes away -----

  lemma {:induction false} FlattenAllAbove(generations: map<nat, seq<Entry>>, bound: nat)
    requires forall g :: g in generations ==> L.AllAbove(generations[g], bound)
    ensures L.AllAbove(L.Flatten(generations), bound)
    decreases generations.Keys
  {
    if generations != map[] {
      var m := L.Max(generations.Keys);
      FlattenAllAbove(generations - {m}, bound);
    }
  }

  /** A removable generation lies behind all that is left. */
  lemma RemainderIsAbove(log: L.Log, bound: nat, last: nat)
    requires L.WellFormed(log) && L.Removable(log, bound, last)
    requires forall g :: g in L.RemovableGenerations(log, bound) ==> g <= last
    ensures L.AllAbove(L.Flatten(L.Trim(log, bound).generations), L.LastNumber(log.generations[last]))
  {
    var rest, covered := L.Trim(log, bound).generations, L.LastNumber(log.generations[last]);
    forall g | g in rest ensures L.AllAbove(rest[g], covered) {
      assert g in log.generations && !L.Removable(log, bound, g);
      assert g < last ==> L.Precedes(log.generations[g], log.generations[last]);
      assert g > last ==> L.Precedes(log.generations[last], log.generations[g]);
    }
    FlattenAllAbove(rest, covered);
  }

  /** The highest number of the entries that a trim removes; 0 where it removes none. */
  ghost function TrimmedThrough(log: L.Log, bound: nat): nat {
    var gone := L.RemovableGenerations(log, bound);
    if gone == {} then 0 else L.LastNumber(log.generations[L.Max(gone)])
  }

  lemma RemovableAreTrimmed(log: L.Log, bound: nat)
    requires L.WellFormed(log)
    ensures L.RemovableGenerations(log, bound) <= L.RemovableGenerations(log, TrimmedThrough(log, bound))
    ensures TrimmedThrough(log, bound) <= bound
  {
    var gone := L.RemovableGenerations(log, bound);
    if gone != {} {
      var last := L.Max(gone);
      forall g | g in gone ensures L.Removable(log, TrimmedThrough(log, bound), g) {
        if g != last {
          assert L.Precedes(log.generations[g], log.generations[last]);
        }
      }
    }
  }

  function Higher(a: nat, b: nat): nat {
    if a < b then b else a
  }

  /** What a replay gives after a trim, however far the trim went: the entries above both the replay's bound
      and everything removed. */
  lemma ReplayAfterTrim(log: L.Log, bound: nat, n: nat)
    requires L.WellFormed(log)
    ensures L.Replay(L.Trim(log, bound), n) == L.Replay(log, Higher(n, TrimmedThrough(log, bound)))
  {
    var gone, covered := L.RemovableGenerations(log, bound), TrimmedThrough(log, bound);
    RemovableAreTrimmed(log, bound);
    L.RemovalKeepsReplay(log, covered, gone, Higher(n, covered));
    if gone != {} && n < covered {
      RemainderIsAbove(log, bound, L.Max(gone));
      var rest := L.Flatten(L.Trim(log, bound).generations);
      L.EverythingAbove(rest, covered);
      L.EverythingAbove(rest, n);
    }
  }

  // ----- reopening after a restore -----

  /** The entries that the log loses when a snapshot is restored. */
  ghost function LostThrough(s: State, snapshot: Snapshot): nat {
    TrimmedThrough(L.Rollover(s.disk.wal), snapshot.lastSequence)
  }

  /** A restore writes nothing that an opening reads: an index opened again shows its segments with the
      entries that the restore has left in the log, whatever the snapshot holds. */
  lemma ReopenAfterRestore(s: State, h: seq<Entry>, snapshot: Snapshot)
    requires Holds(s, h)
    ensures var bound := MaxSequence(s.disk.files, s.disk.manifest);
            Open(RestoreSnapshot(s, snapshot).disk).searchable
            == ReplayOnto(Union(s.disk.files, s.disk.manifest), L.Above(h, Higher(bound, LostThrough(s, snapshot))))
  {
    var bound, rolled := MaxSequence(s.disk.files, s.disk.manifest), L.Rollover(s.disk.wal);
    var n := Higher(bound, LostThrough(s, snapshot));
    ReplayAfterTrim(rolled, snapshot.lastSequence, bound);
    L.AboveTwice(L.Flatten(s.disk.wal.generations), bound, n);
    L.AboveTwice(h, bound, n);
  }

  /** The latest snapshot covers the whole log. */
  lemma LatestLosesLog(s: State, h: seq<Entry>, snapshot: Snapshot)
    requires Holds(s, h) && snapshot.lastSequence >= s.memory.lastSequence
    ensures var bound := MaxSequence(s.disk.files, s.disk.manifest);
            L.Above(h, Higher(bound, LostThrough(s, snapshot))) == []
  {
    var bound, rolled := MaxSequence(s.disk.files, s.disk.manifest), L.Rollover(s.disk.wal);
    var rest := L.Trim(rolled, snapshot.lastSequence).generations;
    forall g | g in rest ensures rest[g] == [] {
      assert g in rolled.generations && !L.Removable(rolled, snapshot.lastSequence, g);
      assert L.AtMost(rolled.generations[g], L.LastNumber(h));
    }
    NothingFlattened(rest);
    ReplayAfterTrim(rolled, snapshot.lastSequence, bound);
    L.AboveTwice(L.Flatten(s.disk.wal.generations), bound, Higher(bound, LostThrough(s, snapshot)));
    L.AboveTwice(h, bound, Higher(bound, LostThrough(s, snapshot)));
  }

  lemma {:induction false} NothingFlattened(generations: map<nat, seq<Entry>>)
    requires forall g :: g in generations ==> generations[g] == []
    ensures L.Flatten(generations) == []
    decreases generations.Keys
  {
    if generations != map[] {
      var m := L.Max(generations.Keys);
      NothingFlattened(generations - {m});
    }
  }

  /** The latest snapshot, restored, survives a reopening exactly when the segments alone held all documents. */
  lemma RestoreIsDurableExactlyWhen(s: State, h: seq<Entry>)
    requires Holds(s, h)
    ensures var restored := RestoreSnapshot(s, CreateSnapshot(s.memory));
            && Live(restored.memory) == Live(s.memory)
            && (Open(restored.disk).searchable == Live(restored.memory)
                <==> Union(s.disk.files, s.disk.manifest) == Live(s.memory))
  {
    var latest := CreateSnapshot(s.memory);
    SnapshotRestoresLive(s.memory, s);
    ReopenAfterRestore(s, h, latest);
    LatestLosesLog(s, h, latest);
  }

  /** A trim that stays behind the segments loses nothing. */
  lemma PartlyTrimmedHolds(d: Disk, h: seq<Entry>, bound: nat, gone: set<nat>)
    requires DiskHolds(d, h) && bound <= MaxSequence(d.files, d.manifest)
    requires gone <= L.RemovableGenerations(L.Rollover(d.wal), bound)
    ensures DiskHolds(PartlyTrimmed(d, gone), h)
  {
    RolloverHolds(d, h);
    L.RemovalKeepsReplay(L.Rollover(d.wal), bound, gone, MaxSequence(d.files, d.manifest));
  }

  /** The latest snapshot, restored, leaves the whole history on disk and in memory exactly when everything
      logged was flushed. */
  lemma LatestKeepsHistoryExactlyWhen(s: State, h: seq<Entry>)
    requires Holds(s, h)
    ensures Holds(RestoreSnapshot(s, CreateSnapshot(s.memory)), h)
       <==> MaxSequence(s.disk.files, s.disk.manifest) == s.memory.lastSequence
  {
    var bound, latest := MaxSequence(s.disk.files, s.disk.manifest), CreateSnapshot(s.memory);
    var rolled := L.Rollover(s.disk.wal);
    if bound == s.memory.lastSequence {
      PartlyTrimmedHolds(s.disk, h, bound, L.RemovableGenerations(rolled, bound));
      SnapshotRestoresLive(s.memory, s);
    }
    if Holds(RestoreSnapshot(s, latest), h) {
      LatestLosesLog(s, h, latest);
      ReplayAfterTrim(rolled, latest.lastSequence, bound);
      L.AboveTwice(L.Flatten(s.disk.wal.generations), bound, Higher(bound, LostThrough(s, latest)));
      L.AboveTwice(h, bound, Higher(bound, LostThrough(s, latest)));
      LastOfAbove(h, bound);
    }
  }

  /** A snapshot no newer than the segments: reopening undoes the restore altogether, so it survives
      exactly when it holds what the index held before. */
  lemma OlderRestoreIsDurableExactlyWhen(s: State, h: seq<Entry>, snapshot: Snapshot)
    requires Holds(s, h) && snapshot.lastSequence <= MaxSequence(s.disk.files, s.disk.manifest)
    ensures var restored := RestoreSnapshot(s, snapshot);
            && Open(restored.disk).searchable == Live(s.memory)
            && (Open(restored.disk).searchable == Live(restored.memory) <==> snapshot.documents == Live(s.memory))
  {
    RemovableAreTrimmed(L.Rollover(s.disk.wal), snapshot.lastSequence);
    ReopenAfterRestore(s, h, snapshot);
    var bound := MaxSequence(s.disk.files, s.disk.manifest);
    ReopenReplays(s.disk, h);
    NothingPending(snapshot.documents);
    assert Open(s.disk).searchable == ReplayOnto(Union(s.disk.files, s.disk.manifest), L.Above(h, bound));
  }

  // ----- writing after a restore -----

  function OperationOf(record: Record): PendingOperation
    requires !record.MappingUpdate?
  {
    if record.IndexDocument? then Upsert(record.source) else Delete
  }

  /** Writes logged one after the other. */
  function LogAll(s: State, now: i64, records: seq<Record>): State
    requires forall r :: r in records ==> !r.MappingUpdate?
  {
    if records == [] then s
    else
      var last := records[|records| - 1];
      Log(LogAll(s, now, records[..|records| - 1]), now, last, OperationOf(last))
  }

  function EntriesAfter(number: nat, now: i64, records: seq<Record>): (es: seq<Entry>)
    ensures |es| == |records|
    ensures forall i :: 0 <= i < |es| ==> es[i] == Entry(number + 1 + i, now, records[i])
  {
    seq(|records|, i requires 0 <= i < |records| => Entry(number + 1 + i, now, records[i]))
  }

  ghost predicate CurrentIsLast(log: L.Log) {
    forall g :: g in log.generations ==> g <= log.current
  }

  lemma LogOne(s: State, now: i64, record: Record)
    requires !record.MappingUpdate? && CurrentIsLast(s.disk.wal)
    ensures var after := Log(s, now, record, OperationOf(record));
            && L.Flatten(after.disk.wal.generations)
               == L.Flatten(s.disk.wal.generations) + [Entry(s.memory.lastSequence + 1, now, record)]
            && CurrentIsLast(after.disk.wal)
            && after.memory.lastSequence == s.memory.lastSequence + 1
            && after.disk.manifest == s.disk.manifest && after.disk.files == s.disk.files
  {
    L.AppendExtendsFlatten(s.disk.wal, Entry(s.memory.lastSequence + 1, now, record));
  }

  lemma {:induction false} LoggedEntries(s: State, now: i64, records: seq<Record>)
    requires (forall r :: r in records ==> !r.MappingUpdate?) && CurrentIsLast(s.disk.wal)
    ensures var after := LogAll(s, now, records);
            && L.Flatten(after.disk.wal.generations)
               == L.Flatten(s.disk.wal.generations) + EntriesAfter(s.memory.lastSequence, now, records)
            && CurrentIsLast(after.disk.wal)
            && after.memory.lastSequence == s.memory.lastSequence + |records|
            && after.disk.manifest == s.disk.manifest && after.disk.files == s.disk.files
  {
    if records == [] {
      assert EntriesAfter(s.memory.lastSequence, now, records) == [];
    } else {
      var front, last := records[..|records| - 1], records[|records| - 1];
      LoggedEntries(s, now, front);
      var before, es := LogAll(s, now, front), EntriesAfter(s.memory.lastSequence, now, front);
      LogOne(before, now, last);
      EntriesGrow(s.memory.lastSequence, now, records);
      SeqAssociative(L.Flatten(s.disk.wal.generations), es, [Entry(before.memory.lastSequence + 1, now, last)]);
    }
  }

  lemma SeqAssociative<T>(a: seq<T>, b: seq<T>, c: seq<T>)
    ensures (a + b) + c == a + (b + c)
  {
  }

  lemma EntriesGrow(number: nat, now: i64, records: seq<Record>)
    requires records != []
    ensures EntriesAfter(number, now, records)
         == EntriesAfter(number, now, records[..|records| - 1])
            + [Entry(number + |records|, now, records[|records| - 1])]
  {
  }

  /** How many of the first writes get numbers that the segments already cover. */
  function Skipped(number: nat, bound: nat, writes: nat): (n: nat)
    ensures n <= writes
  {
    if bound <= number then 0 else if bound - number <= writes then bound - number else writes
  }

  lemma AboveNumbered(number: nat, now: i64, records: seq<Record>, bound: nat)
    ensures var es := EntriesAfter(number, now, records);
            L.Above(es, bound) == es[Skipped(number, bound, |records|)..]
  {
    var es := EntriesAfter(number, now, records);
    var n := Skipped(number, bound, |records|);
    assert es == es[..n] + es[n..];
    L.AboveConcat(es[..n], es[n..], bound);
    L.NothingAbove(es[..n], bound);
    L.EverythingAbove(es[n..], bound);
  }

  /** What a reopening makes of writes logged from any state: as many of the first ones are skipped as
      the numbering lies behind the segments, and the others are applied. */
  lemma WritesAreSkipped(s: State, now: i64, records: seq<Record>)
    requires (forall r :: r in records ==> !r.MappingUpdate?) && CurrentIsLast(s.disk.wal)
    ensures var bound := MaxSequence(s.disk.files, s.disk.manifest);
            var n := Skipped(s.memory.lastSequence, bound, |records|);
            Open(LogAll(s, now, records).disk).searchable
            == ReplayOnto(Open(s.disk).searchable, EntriesAfter(s.memory.lastSequence, now, records)[n..])
  {
    var bound := MaxSequence(s.disk.files, s.disk.manifest);
    var es := EntriesAfter(s.memory.lastSequence, now, records);
    LoggedEntries(s, now, records);
    L.AboveConcat(L.Flatten(s.disk.wal.generations), es, bound);
    AboveNumbered(s.memory.lastSequence, now, records, bound);
    ReplayConcat(Union(s.disk.files, s.disk.manifest), L.Replay(s.disk.wal, bound), L.Above(es, bound));
  }

  /** After an older snapshot is restored, the numbers of new writes start again behind it: the first ones,
      up to the highest number of the segments, are gone at the next opening, and nothing else is. */
  lemma WritesAfterRestore(s: State, h: seq<Entry>, snapshot: Snapshot, now: i64, records: seq<Record>)
    requires Holds(s, h) && snapshot.lastSequence <= MaxSequence(s.disk.files, s.disk.manifest)
    requires forall r :: r in records ==> !r.MappingUpdate?
    ensures var n := Skipped(snapshot.lastSequence, MaxSequence(s.disk.files, s.disk.manifest), |records|);
            Open(LogAll(RestoreSnapshot(s, snapshot), now, records).disk).searchable
            == ReplayOnto(Live(s.memory), EntriesAfter(snapshot.lastSequence, now, records)[n..])
  {
    OlderRestoreIsDurableExactlyWhen(s, h, snapshot);
    WritesAreSkipped(RestoreSnapshot(s, snapshot), now, records);
  }

  /** One write after the restore of a snapshot older than the segments. */
  lemma FirstWriteIsLost(s: State, h: seq<Entry>, snapshot: Snapshot, now: i64, record: Record)
    requires Holds(s, h) && snapshot.lastSequence < MaxSequence(s.disk.files, s.disk.manifest)
    requires !record.MappingUpdate?
    ensures Open(Log(RestoreSnapshot(s, snapshot), now, record, OperationOf(record)).disk).searchable == Live(s.memory)
  {
    var restored := RestoreSnapshot(s, snapshot);
    WritesAfterRestore(s, h, snapshot, now, [record]);
    assert LogAll(restored, now, [record]) == Log(restored, now, record, OperationOf(record)) by {
      assert [record][..0] == [];
    }
    assert EntriesAfter(snapshot.lastSequence, now, [record])[1..] == [];
  }
}
