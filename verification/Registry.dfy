// The handle registry under concurrency: any number of threads asking for handles, creating, deleting and
// updating indexes, as a step relation over the registry's lock, the catalog's lock and the handle table.
module Registry {
  import opened Values

  type Name = string
  type Thread = nat
  type Handle = nat

  datatype Call = GetHandle(name: Name) | CreateIndex(name: Name) | DeleteIndex(name: Name) | UpdateSettings(name: Name)

  /** Where a thread stands.  The comment says which locks it holds there. */
  datatype Phase =
    | Idle
    // index_handle
    | Lookup(name: Name)
    | AwaitRead(name: Name)
    | Recheck(name: Name)                       // read
    | AwaitOpen(name: Name)                     // read
    | Load(name: Name)                          // read, catalog
    | Insert(name: Name, handle: Handle)        // read
    | LeaveRead                                 // read
    // create_index
    | AwaitCreate(name: Name)
    | AwaitCatalogCreate(name: Name)            // write
    | MakeDirectory(name: Name)                 // write, catalog
    | WriteMetadata(name: Name)                 // write, catalog
    | AwaitReopen(name: Name)                   // write
    | Reload(name: Name)                        // write, catalog
    | Publish(name: Name, handle: Handle)       // write
    // delete_index
    | AwaitDelete(name: Name)
    | AwaitCatalogDelete(name: Name)            // write
    | RemoveDirectory(name: Name)               // write, catalog
    | Forget(name: Name)                        // write
    | LeaveWrite                                // write
    // update_index_settings
    | AwaitUpdate(name: Name)
    | Update(name: Name)                        // catalog

  predicate HoldsRead(p: Phase) {
    p.Recheck? || p.AwaitOpen? || p.Load? || p.Insert? || p.LeaveRead?
  }

  predicate HoldsWrite(p: Phase) {
    || p.AwaitCatalogCreate? || p.MakeDirectory? || p.WriteMetadata? || p.AwaitReopen? || p.Reload? || p.Publish?
    || p.AwaitCatalogDelete? || p.RemoveDirectory? || p.Forget? || p.LeaveWrite?
  }

  predicate HoldsCatalog(p: Phase) {
    p.Load? || p.MakeDirectory? || p.WriteMetadata? || p.Reload? || p.RemoveDirectory? || p.Update?
  }

  /** The life of an index a handle was opened in: its name and how often that name had been deleted. */
  datatype Life = Life(name: Name, deletions: nat)

  /** A handle given out to a thread, with the life of the index at that moment. */
  datatype Answer = Answer(thread: Thread, life: Life, handle: Handle)

  /** `metadata` names the indexes with a readable metadata.json.  `damaged` names those that lost it to an
      operation that failed part-way, for as long as no delete of theirs has succeeded since. */
  datatype State = State(
    phases: seq<Phase>,
    readers: set<Thread>,
    writer: Option<Thread>,
    catalog: Option<Thread>,
    directories: set<Name>,
    metadata: set<Name>,
    damaged: set<Name>,
    cached: map<Name, Handle>,
    deletions: map<Name, nat>,
    lives: seq<Life>,
    answers: seq<Answer>)

  function Start(threads: nat, directories: set<Name>, metadata: set<Name>): State {
    State(seq(threads, _ => Idle), {}, None, None, directories, metadata, {}, map[], map[], [], [])
  }

  function Current(s: State, name: Name): Life {
    Life(name, if name in s.deletions then s.deletions[name] else 0)
  }

  // ----- steps -----

  /** A call begins, a thread goes on, or the file system fails it: with nothing done, or part-way. */
  datatype Move = Begin(call: Call) | Proceed | Fail | FailPartWay

  predicate Enabled(s: State, t: Thread, m: Move) {
    && t < |s.phases|
    && var p := s.phases[t];
       match m
       case Begin(_) => p.Idle?
       case Fail => p.Load? || p.MakeDirectory? || p.WriteMetadata? || p.Reload? || p.RemoveDirectory? || p.Update?
       case FailPartWay =>
         || (p.MakeDirectory? && p.name !in s.directories)
         || (p.RemoveDirectory? && p.name in s.directories)
         || (p.Update? && p.name in s.metadata)
       case Proceed =>
         && !p.Idle?
         && (p.AwaitRead? ==> s.writer.None?)
         && (p.AwaitCreate? || p.AwaitDelete? ==> s.writer.None? && s.readers == {})
         && (AwaitsCatalog(p) ==> s.catalog.None?)
  }

  predicate AwaitsCatalog(p: Phase) {
    p.AwaitOpen? || p.AwaitCatalogCreate? || p.AwaitReopen? || p.AwaitCatalogDelete? || p.AwaitUpdate?
  }

  function Give(s: State, t: Thread, name: Name, handle: Handle): State {
    s.(answers := s.answers + [Answer(t, Current(s, name), handle)])
  }

  function Open(s: State, name: Name): State {
    s.(lives := s.lives + [Current(s, name)], catalog := None)
  }

  function Apply(s: State, t: Thread, m: Move): State
    requires Enabled(s, t, m)
  {
    Effect(s, t, m).(phases := s.phases[t := Next(s, s.phases[t], m)])
  }

  /** Where the thread stands next. */
  function Next(s: State, p: Phase, m: Move): Phase {
    match m
    case Begin(GetHandle(n)) => Lookup(n)
    case Begin(CreateIndex(n)) => AwaitCreate(n)
    case Begin(DeleteIndex(n)) => AwaitDelete(n)
    case Begin(UpdateSettings(n)) => AwaitUpdate(n)
    case Fail => if p.Load? then LeaveRead else if p.Update? then Idle else LeaveWrite
    case FailPartWay => if p.Update? then Idle else LeaveWrite
    case Proceed =>
      match p
      case Lookup(n) => if n in s.cached then Idle else AwaitRead(n)
      case AwaitRead(n) => Recheck(n)
      case Recheck(n) => if n in s.cached then LeaveRead else AwaitOpen(n)
      case AwaitOpen(n) => Load(n)
      case Load(n) => if n in s.metadata then Insert(n, |s.lives|) else LeaveRead
      case Insert(_, _) => LeaveRead
      case AwaitCreate(n) => AwaitCatalogCreate(n)
      case AwaitCatalogCreate(n) => MakeDirectory(n)
      case MakeDirectory(n) => if n in s.directories then LeaveWrite else WriteMetadata(n)
      case WriteMetadata(n) => AwaitReopen(n)
      case AwaitReopen(n) => Reload(n)
      case Reload(n) => if n in s.metadata then Publish(n, |s.lives|) else LeaveWrite
      case Publish(_, _) => LeaveWrite
      case AwaitDelete(n) => AwaitCatalogDelete(n)
      case AwaitCatalogDelete(n) => RemoveDirectory(n)
      case RemoveDirectory(n) => if n in s.directories then Forget(n) else LeaveWrite
      case Forget(_) => LeaveWrite
      case AwaitUpdate(n) => Update(n)
      case _ => Idle
  }

  function Removed(s: State, name: Name): State {
    s.(directories := s.directories - {name}, metadata := s.metadata - {name}, damaged := s.damaged - {name})
  }

  /** What the step does to the locks, the files, the table and the answers. */
  function Effect(s: State, t: Thread, m: Move): State
    requires Enabled(s, t, m)
  {
    match m
    case Begin(_) => s
    case Fail => s.(catalog := None)
    case FailPartWay =>
      var name := s.phases[t].name;
      if s.phases[t].MakeDirectory? then s.(directories := s.directories + {name}, catalog := None)
      else s.(metadata := s.metadata - {name}, damaged := s.damaged + {name}, catalog := None)
    case Proceed =>
      match s.phases[t]
      case Lookup(n) => if n in s.cached then Give(s, t, n, s.cached[n]) else s
      case AwaitRead(_) => s.(readers := s.readers + {t})
      case Recheck(n) => if n in s.cached then Give(s, t, n, s.cached[n]) else s
      case Load(n) => if n in s.metadata then Open(s, n) else s.(catalog := None)
      case Insert(n, h) =>
        if n in s.cached then Give(s, t, n, s.cached[n]) else Give(s.(cached := s.cached[n := h]), t, n, h)
      case LeaveRead => s.(readers := s.readers - {t})
      case MakeDirectory(n) =>
        if n in s.directories then s.(catalog := None) else s.(directories := s.directories + {n})
      case WriteMetadata(n) => s.(metadata := s.metadata + {n}, catalog := None)
      case Reload(n) => if n in s.metadata then Open(s, n) else s.(catalog := None)
      case Publish(n, h) => s.(cached := s.cached[n := h])
      case RemoveDirectory(n) =>
        if n in s.directories then Removed(s, n).(catalog := None) else s.(catalog := None)
      case Forget(n) =>
        s.(cached := s.cached - {n}, deletions := s.deletions[n := Current(s, n).deletions + 1])
      case LeaveWrite => s.(writer := None)
      case Update(_) => s.(catalog := None)
      case p => if p.AwaitCreate? || p.AwaitDelete? then s.(writer := Some(t)) else s.(catalog := Some(t))
  }

  // ----- the invariant -----

  ghost predicate Locks(s: State) {
    && (forall t :: t in s.readers ==> t < |s.phases|)
    && (forall t :: 0 <= t < |s.phases| ==> (t in s.readers <==> HoldsRead(s.phases[t])))
    && (forall t :: 0 <= t < |s.phases| ==> (s.writer == Some(t) <==> HoldsWrite(s.phases[t])))
    && (forall t :: 0 <= t < |s.phases| ==> (s.catalog == Some(t) <==> HoldsCatalog(s.phases[t])))
    && (s.writer.Some? ==> s.writer.value < |s.phases| && s.readers == {})
    && (s.catalog.Some? ==> s.catalog.value < |s.phases|)
  }

  /** A delete of the name has removed its files and not yet its handle. */
  predicate Forgetting(s: State, name: Name) {
    s.writer.Some? && s.writer.value < |s.phases| && s.phases[s.writer.value] == Forget(name)
  }

  /** The index has its metadata, or an operation that failed part-way took it. */
  predicate Kept(s: State, name: Name) {
    name in s.metadata || name in s.damaged
  }

  ghost predicate Files(s: State) {
    && s.metadata <= s.directories
    && s.damaged <= s.directories - s.metadata
    && forall n :: n in s.cached ==> Kept(s, n) || Forgetting(s, n)
  }

  predicate OpenedFor(s: State, handle: Handle, name: Name) {
    handle < |s.lives| && s.lives[handle] == Current(s, name)
  }

  /** What a thread knows of the index it works on. */
  predicate Knows(s: State, p: Phase) {
    match p
    case Insert(n, h) => Kept(s, n) && OpenedFor(s, h, n)
    case WriteMetadata(n) => n in s.directories && n !in s.damaged && n !in s.cached
    case AwaitReopen(n) => Kept(s, n) && n !in s.cached
    case Reload(n) => Kept(s, n) && n !in s.cached
    case Publish(n, h) => Kept(s, n) && n !in s.cached && OpenedFor(s, h, n)
    case Forget(n) => n !in s.directories
    case _ => true
  }

  ghost predicate Knowledge(s: State) {
    forall t :: 0 <= t < |s.phases| ==> Knows(s, s.phases[t])
  }

  ghost predicate Handles(s: State) {
    forall n :: n in s.cached ==> OpenedFor(s, s.cached[n], n)
  }

  /** An answer names the life its handle was opened in; while that life lasts, the handle is the cached one. */
  predicate Stands(s: State, a: Answer) {
    && a.handle < |s.lives| && s.lives[a.handle] == a.life
    && a.life.deletions <= Current(s, a.life.name).deletions
    && (a.life == Current(s, a.life.name) ==> a.life.name in s.cached && s.cached[a.life.name] == a.handle)
  }

  ghost predicate Answers(s: State) {
    forall i :: 0 <= i < |s.answers| ==> Stands(s, s.answers[i])
  }

  /** One handle for one life. */
  ghost predicate Agreed(s: State) {
    forall i, j :: 0 <= i < |s.answers| && 0 <= j < |s.answers| && s.answers[i].life == s.answers[j].life ==>
      s.answers[i].handle == s.answers[j].handle
  }

  ghost predicate Invariant(s: State) {
    Locks(s) && Files(s) && Knowledge(s) && Handles(s) && Answers(s) && Agreed(s)
  }

  lemma StartHolds(threads: nat, directories: set<Name>, metadata: set<Name>)
    requires metadata <= directories
    ensures Invariant(Start(threads, directories, metadata))
  {
  }

  // ----- what a step may touch -----

  /** The thread's locks change with its phase, and a lock is taken only when it is free. */
  ghost predicate LocksFollow(s: State, t: Thread, r: State)
    requires t < |s.phases| && |r.phases| == |s.phases|
  {
    var before, after := s.phases[t], r.phases[t];
    && r.phases == s.phases[t := after]
    && r.readers == (if HoldsRead(after) then s.readers + {t} else s.readers - {t})
    && r.writer == (if HoldsWrite(after) then Some(t) else if HoldsWrite(before) then None else s.writer)
    && r.catalog == (if HoldsCatalog(after) then Some(t) else if HoldsCatalog(before) then None else s.catalog)
    && (HoldsRead(after) && !HoldsRead(before) ==> s.writer.None?)
    && (HoldsWrite(after) && !HoldsWrite(before) ==> s.writer.None? && s.readers == {})
    && (HoldsCatalog(after) && !HoldsCatalog(before) ==> s.catalog.None?)
  }

  lemma ApplyFollows(s: State, t: Thread, m: Move)
    requires Locks(s) && Enabled(s, t, m)
    ensures |Apply(s, t, m).phases| == |s.phases| && LocksFollow(s, t, Apply(s, t, m))
  {
    Moved(s, t, m);
    ReadersFollow(s, t, m);
    WriterFollows(s, t, m);
    CatalogFollows(s, t, m);
  }

  lemma Moved(s: State, t: Thread, m: Move)
    requires Enabled(s, t, m)
    ensures var r := Apply(s, t, m); |r.phases| == |s.phases| && r.phases == s.phases[t := r.phases[t]]
  {
  }

  lemma ReadersFollow(s: State, t: Thread, m: Move)
    requires Locks(s) && Enabled(s, t, m)
    ensures var r := Apply(s, t, m);
            && |r.phases| == |s.phases|
            && r.readers == (if HoldsRead(r.phases[t]) then s.readers + {t} else s.readers - {t})
            && (HoldsRead(r.phases[t]) && !HoldsRead(s.phases[t]) ==> s.writer.None?)
  {
    assert t in s.readers <==> HoldsRead(s.phases[t]);
    assert t in s.readers ==> s.readers + {t} == s.readers;
    assert t !in s.readers ==> s.readers - {t} == s.readers;
  }

  lemma WriterFollows(s: State, t: Thread, m: Move)
    requires Locks(s) && Enabled(s, t, m)
    ensures var r := Apply(s, t, m);
            && |r.phases| == |s.phases|
            && r.writer == (if HoldsWrite(r.phases[t]) then Some(t)
                            else if HoldsWrite(s.phases[t]) then None else s.writer)
            && (HoldsWrite(r.phases[t]) && !HoldsWrite(s.phases[t]) ==> s.writer.None? && s.readers == {})
  {
    assert s.writer == Some(t) <==> HoldsWrite(s.phases[t]);
  }

  lemma CatalogFollows(s: State, t: Thread, m: Move)
    requires Locks(s) && Enabled(s, t, m)
    ensures var r := Apply(s, t, m);
            && |r.phases| == |s.phases|
            && r.catalog == (if HoldsCatalog(r.phases[t]) then Some(t)
                             else if HoldsCatalog(s.phases[t]) then None else s.catalog)
            && (HoldsCatalog(r.phases[t]) && !HoldsCatalog(s.phases[t]) ==> s.catalog.None?)
  {
    assert s.catalog == Some(t) <==> HoldsCatalog(s.phases[t]);
  }

  lemma LocksStep(s: State, t: Thread, m: Move)
    requires Locks(s) && Enabled(s, t, m)
    ensures Locks(Apply(s, t, m))
  {
    ApplyFollows(s, t, m);
    LocksKept(s, t, Apply(s, t, m));
  }

  lemma LocksKept(s: State, t: Thread, r: State)
    requires Locks(s) && t < |s.phases| && |r.phases| == |s.phases| && LocksFollow(s, t, r)
    ensures Locks(r)
  {
  }

  /** Without the write lock no file changes, except that a failing update can take an index its metadata. */
  ghost predicate FilesStay(s: State, t: Thread, m: Move, r: State)
    requires t < |s.phases|
  {
    && r.directories == s.directories
    && (forall n :: Kept(r, n) <==> Kept(s, n))
    && (m != FailPartWay ==> r.metadata == s.metadata && r.damaged == s.damaged)
    && s.damaged <= r.damaged && r.damaged - s.damaged <= s.metadata
  }

  lemma FilesTouched(s: State, t: Thread, m: Move)
    requires Enabled(s, t, m) && !HoldsWrite(s.phases[t])
    ensures FilesStay(s, t, m, Apply(s, t, m))
  {
    if m == FailPartWay {
      UpdateFails(s, t);
    } else {
      FilesUntouched(s, t, m);
    }
  }

  lemma FilesUntouched(s: State, t: Thread, m: Move)
    requires Enabled(s, t, m) && !HoldsWrite(s.phases[t]) && m != FailPartWay
    ensures var r := Apply(s, t, m);
            r.directories == s.directories && r.metadata == s.metadata && r.damaged == s.damaged
  {
    EffectLeavesFiles(s, t, m, s.phases[t]);
  }

  lemma EffectLeavesFiles(s: State, t: Thread, m: Move, p: Phase)
    requires Enabled(s, t, m) && p == s.phases[t] && !HoldsWrite(p) && m != FailPartWay
    ensures var r := Effect(s, t, m);
            r.directories == s.directories && r.metadata == s.metadata && r.damaged == s.damaged
  {
  }

  lemma UpdateFails(s: State, t: Thread)
    requires Enabled(s, t, FailPartWay) && s.phases[t].Update?
    ensures var r, n := Apply(s, t, FailPartWay), s.phases[t].name;
            && n in s.metadata && r.directories == s.directories
            && r.metadata == s.metadata - {n} && r.damaged == s.damaged + {n}
  {
  }

  /** The handle table changes in three phases. */
  lemma TableTouched(s: State, t: Thread, m: Move)
    requires Enabled(s, t, m)
    ensures var r, p := Apply(s, t, m), s.phases[t];
            && (m != Proceed || (!p.Insert? && !p.Publish? && !p.Forget?) ==> r.cached == s.cached)
            && (m != Proceed || !p.Forget? ==> r.deletions == s.deletions)
  {
    EffectOnTable(s, t, m, s.phases[t]);
  }

  lemma EffectOnTable(s: State, t: Thread, m: Move, p: Phase)
    requires Enabled(s, t, m) && p == s.phases[t]
    ensures var r := Effect(s, t, m);
            && (m != Proceed || (!p.Insert? && !p.Publish? && !p.Forget?) ==> r.cached == s.cached)
            && (m != Proceed || !p.Forget? ==> r.deletions == s.deletions)
  {
  }

  lemma LivesTouched(s: State, t: Thread, m: Move)
    requires Enabled(s, t, m)
    ensures var r, p := Apply(s, t, m), s.phases[t];
            r.lives == if m == Proceed && (p.Load? || p.Reload?) && p.name in s.metadata
                       then s.lives + [Current(s, p.name)] else s.lives
  {
    EffectOnLives(s, t, m, s.phases[t]);
  }

  lemma EffectOnLives(s: State, t: Thread, m: Move, p: Phase)
    requires Enabled(s, t, m) && p == s.phases[t]
    ensures Effect(s, t, m).lives
            == if m == Proceed && (p.Load? || p.Reload?) && p.name in s.metadata
               then s.lives + [Current(s, p.name)] else s.lives
  {
  }

  lemma LivesGrow(s: State, t: Thread, m: Move)
    requires Enabled(s, t, m)
    ensures var r := Apply(s, t, m);
            |s.lives| <= |r.lives| && forall h :: 0 <= h < |s.lives| ==> r.lives[h] == s.lives[h]
  {
    LivesTouched(s, t, m);
  }

  lemma Touched(s: State, t: Thread, m: Move)
    requires Enabled(s, t, m)
    ensures var r, p := Apply(s, t, m), s.phases[t];
            && |r.phases| == |s.phases| && r.phases == s.phases[t := r.phases[t]]
            && (!HoldsWrite(p) ==> FilesStay(s, t, m, r))
            && (m != Proceed || (!p.Insert? && !p.Publish? && !p.Forget?) ==> r.cached == s.cached)
            && (m != Proceed || !p.Forget? ==> r.deletions == s.deletions)
            && |s.lives| <= |r.lives| && (forall h :: 0 <= h < |s.lives| ==> r.lives[h] == s.lives[h])
  {
    Moved(s, t, m);
    if !HoldsWrite(s.phases[t]) {
      FilesTouched(s, t, m);
    }
    TableTouched(s, t, m);
    LivesGrow(s, t, m);
  }

  lemma FilesStep(s: State, t: Thread, m: Move)
    requires Invariant(s) && Enabled(s, t, m)
    ensures Files(Apply(s, t, m))
  {
    Touched(s, t, m);
    var r, p := Apply(s, t, m), s.phases[t];
    forall n | n in r.cached ensures Kept(r, n) || Forgetting(r, n) {
      assert Knows(s, p);
      if n in s.cached && !Kept(s, n) {
        ForgettingKept(s, t, m, n);
      }
    }
  }

  /** Only the deleting thread itself leaves the phase in which it forgets, and it then removes the handle. */
  lemma ForgettingKept(s: State, t: Thread, m: Move, n: Name)
    requires Locks(s) && Enabled(s, t, m) && Forgetting(s, n)
    ensures Forgetting(Apply(s, t, m), n) || (s.phases[t] == Forget(n) && m == Proceed)
  {
    ApplyFollows(s, t, m);
  }

  lemma KnowledgeStep(s: State, t: Thread, m: Move)
    requires Invariant(s) && Enabled(s, t, m)
    ensures Knowledge(Apply(s, t, m))
  {
    var r := Apply(s, t, m);
    Touched(s, t, m);
    forall u | 0 <= u < |r.phases| ensures Knows(r, r.phases[u]) {
      if u == t {
        SelfKnows(s, t, m);
      } else {
        OthersKnow(s, t, m, u);
      }
    }
  }

  lemma SelfKnows(s: State, t: Thread, m: Move)
    requires Invariant(s) && Enabled(s, t, m)
    ensures |Apply(s, t, m).phases| == |s.phases| && Knows(Apply(s, t, m), Apply(s, t, m).phases[t])
  {
    assert Knows(s, s.phases[t]);
    assert s.phases[t].MakeDirectory? ==> s.writer == Some(t);
  }

  /** A writer is alone; a reader disturbs nothing that other readers know. */
  lemma OthersKnow(s: State, t: Thread, m: Move, u: Thread)
    requires Invariant(s) && Enabled(s, t, m) && u < |s.phases| && u != t
    ensures Knows(Apply(s, t, m), s.phases[u])
  {
    Touched(s, t, m);
    assert Knows(s, s.phases[u]);
    assert HoldsRead(s.phases[u]) ==> u in s.readers;
    assert HoldsRead(s.phases[t]) ==> t in s.readers;
    assert HoldsWrite(s.phases[u]) ==> s.writer == Some(u);
    assert HoldsWrite(s.phases[t]) ==> s.writer == Some(t);
  }

  lemma HandlesStep(s: State, t: Thread, m: Move)
    requires Invariant(s) && Enabled(s, t, m)
    ensures Handles(Apply(s, t, m))
  {
    Touched(s, t, m);
    assert Knows(s, s.phases[t]);
  }

  lemma AnswersStep(s: State, t: Thread, m: Move)
    requires Invariant(s) && Enabled(s, t, m)
    ensures Answers(Apply(s, t, m))
  {
    var r := Apply(s, t, m);
    forall i | 0 <= i < |r.answers| ensures Stands(r, r.answers[i]) {
      if i < |s.answers| {
        StillStands(s, t, m, s.answers[i]);
      } else {
        NewAnswerStands(s, t, m);
      }
    }
  }

  /** No step replaces a cached handle within a life of its index. */
  lemma StillStands(s: State, t: Thread, m: Move, a: Answer)
    requires Invariant(s) && Enabled(s, t, m) && Stands(s, a)
    ensures Stands(Apply(s, t, m), a)
  {
    Touched(s, t, m);
    assert Knows(s, s.phases[t]);
  }

  lemma NewAnswerStands(s: State, t: Thread, m: Move)
    requires Invariant(s) && Enabled(s, t, m)
    ensures var r := Apply(s, t, m);
            r.answers == s.answers || (AddsAnswer(s, r) && Stands(r, r.answers[|s.answers|]))
  {
    assert Knows(s, s.phases[t]);
  }

  /** One answer more, and it is for the present life of its index. */
  ghost predicate AddsAnswer(s: State, r: State) {
    && |r.answers| == |s.answers| + 1 && r.answers[..|s.answers|] == s.answers
    && var life := r.answers[|s.answers|].life; life == Current(r, life.name)
  }

  lemma StillAgreed(s: State, r: State)
    requires Agreed(s) && Answers(r) && (r.answers == s.answers || AddsAnswer(s, r))
    ensures Agreed(r)
  {
    forall i, j | 0 <= i < |r.answers| && 0 <= j < |r.answers| && r.answers[i].life == r.answers[j].life
      ensures r.answers[i].handle == r.answers[j].handle
    {
      assert Stands(r, r.answers[i]) && Stands(r, r.answers[j]);
      assert i < |s.answers| ==> r.answers[i] == s.answers[i];
      assert j < |s.answers| ==> r.answers[j] == s.answers[j];
    }
  }

  /** Two answers for one life: while it lasts both are the cached handle. */
  lemma AgreedStep(s: State, t: Thread, m: Move)
    requires Invariant(s) && Enabled(s, t, m)
    ensures Agreed(Apply(s, t, m))
  {
    NewAnswerStands(s, t, m);
    AnswersStep(s, t, m);
    StillAgreed(s, Apply(s, t, m));
  }

  lemma InvariantStep(s: State, t: Thread, m: Move)
    requires Invariant(s) && Enabled(s, t, m)
    ensures Invariant(Apply(s, t, m))
  {
    LocksStep(s, t, m);
    FilesStep(s, t, m);
    KnowledgeStep(s, t, m);
    HandlesStep(s, t, m);
    AnswersStep(s, t, m);
    AgreedStep(s, t, m);
  }

  // ----- whole runs -----

  datatype Turn = Turn(thread: Thread, move: Move)

  /** The schedule takes `s` to `r`. */
  ghost predicate Runs(s: State, schedule: seq<Turn>, r: State)
    decreases |schedule|
  {
    if schedule == [] then r == s
    else
      var first := schedule[0];
      Enabled(s, first.thread, first.move) && Runs(Apply(s, first.thread, first.move), schedule[1..], r)
  }

  lemma {:induction false} RunHolds(s: State, schedule: seq<Turn>, r: State)
    requires Invariant(s) && Runs(s, schedule, r)
    ensures Invariant(r)
    decreases |schedule|
  {
    if schedule != [] {
      InvariantStep(s, schedule[0].thread, schedule[0].move);
      RunHolds(Apply(s, schedule[0].thread, schedule[0].move), schedule[1..], r);
    }
  }

  ghost predicate Reachable(r: State) {
    exists threads, directories, metadata, schedule: seq<Turn> ::
      metadata <= directories && Runs(Start(threads, directories, metadata), schedule, r)
  }

  lemma ReachableHolds(r: State)
    requires Reachable(r)
    ensures Invariant(r)
  {
    var threads, directories, metadata, schedule: seq<Turn> :|
      metadata <= directories && Runs(Start(threads, directories, metadata), schedule, r);
    StartHolds(threads, directories, metadata);
    RunHolds(Start(threads, directories, metadata), schedule, r);
  }

  /** The file system can fail exactly the thread that holds the catalog. */
  lemma FailsExactlyWhen(s: State, t: Thread)
    requires Reachable(s)
    ensures Enabled(s, t, Fail) <==> s.catalog == Some(t)
    ensures Enabled(s, t, FailPartWay) ==> s.catalog == Some(t)
  {
    ReachableHolds(s);
  }

  /** A create that fails part-way leaves a name that is taken, and no index or handle under it. */
  lemma FailedCreateTakesName(s: State, t: Thread)
    requires Reachable(s) && Enabled(s, t, FailPartWay) && s.phases[t].MakeDirectory?
    ensures var n, r := s.phases[t].name, Apply(s, t, FailPartWay);
            n in r.directories && n !in r.metadata && n !in r.cached
  {
    ReachableHolds(s);
  }

  /** A cached handle's index is missing exactly for the name whose delete has removed the files and not yet the
      handle, and for names that lost their metadata to an operation that failed part-way. */
  lemma CachedIndexExists(s: State, name: Name)
    requires Reachable(s) && name in s.cached
    ensures name !in s.metadata <==> Forgetting(s, name) || name in s.damaged
    ensures s.writer.None? ==> (name !in s.metadata <==> name in s.damaged)
  {
    ReachableHolds(s);
    if Forgetting(s, name) {
      assert Knows(s, s.phases[s.writer.value]);
    }
  }

  lemma NoDamageDone(s: State, t: Thread, m: Move)
    requires Enabled(s, t, m) && m != FailPartWay
    ensures Apply(s, t, m).damaged <= s.damaged
  {
  }

  /** Where nothing has failed part-way, a cached handle's index exists while nobody creates or deletes. */
  lemma {:induction false} UndamagedStay(s: State, schedule: seq<Turn>, r: State)
    requires Runs(s, schedule, r) && s.damaged == {}
    requires forall i :: 0 <= i < |schedule| ==> schedule[i].move != FailPartWay
    ensures r.damaged == {}
    decreases |schedule|
  {
    if schedule != [] {
      NoDamageDone(s, schedule[0].thread, schedule[0].move);
      UndamagedStay(Apply(s, schedule[0].thread, schedule[0].move), schedule[1..], r);
    }
  }

  /** Successful calls within one life of an index all return the same handle, and no two lives share one. */
  lemma OneHandlePerLife(s: State, i: nat, j: nat)
    requires Reachable(s) && i < |s.answers| && j < |s.answers|
    ensures s.answers[i].life == s.answers[j].life <==> s.answers[i].handle == s.answers[j].handle
  {
    ReachableHolds(s);
    assert Stands(s, s.answers[i]) && Stands(s, s.answers[j]);
  }

  /** Creating an index never displaces a cached handle. */
  lemma CreateDisplacesNothing(s: State, t: Thread)
    requires Reachable(s) && t < |s.phases| && s.phases[t].Publish?
    ensures s.phases[t].name !in s.cached
    ensures s.phases[t].name in s.metadata <==> s.phases[t].name !in s.damaged
  {
    ReachableHolds(s);
    assert Knows(s, s.phases[t]);
  }

  /** A thread that changes indexes is alone inside the registry's lock. */
  lemma WritersAreAlone(s: State, t: Thread, u: Thread)
    requires Reachable(s) && t < |s.phases| && u < |s.phases| && t != u && HoldsWrite(s.phases[t])
    ensures !HoldsWrite(s.phases[u]) && !HoldsRead(s.phases[u])
  {
    ReachableHolds(s);
    assert s.writer == Some(t);
    assert HoldsRead(s.phases[u]) <==> u in s.readers;
  }

  // ----- progress -----

  /** At most this many steps are left of a call. */
  function Rank(p: Phase): nat {
    match p
    case Idle => 0
    case LeaveRead => 1
    case LeaveWrite => 1
    case Update(_) => 1
    case Insert(_, _) => 2
    case Publish(_, _) => 2
    case Forget(_) => 2
    case AwaitUpdate(_) => 2
    case Load(_) => 3
    case Reload(_) => 3
    case RemoveDirectory(_) => 3
    case AwaitOpen(_) => 4
    case AwaitReopen(_) => 4
    case AwaitCatalogDelete(_) => 4
    case Recheck(_) => 5
    case WriteMetadata(_) => 5
    case AwaitDelete(_) => 5
    case AwaitRead(_) => 6
    case MakeDirectory(_) => 6
    case Lookup(_) => 7
    case AwaitCatalogCreate(_) => 7
    case AwaitCreate(_) => 8
  }

  function Work(phases: seq<Phase>): nat {
    if phases == [] then 0 else Rank(phases[0]) + Work(phases[1..])
  }

  lemma {:induction false} WorkUpdated(phases: seq<Phase>, t: nat, p: Phase)
    requires t < |phases|
    ensures Work(phases[t := p]) == Work(phases) - Rank(phases[t]) + Rank(p)
  {
    if t == 0 {
      assert phases[t := p][1..] == phases[1..];
    } else {
      assert phases[t := p][1..] == phases[1..][t - 1 := p];
      WorkUpdated(phases[1..], t - 1, p);
    }
  }

  lemma RankFalls(s: State, p: Phase, m: Move)
    requires !p.Idle? && !m.Begin?
    requires m.Fail? ==> p.Load? || p.MakeDirectory? || p.WriteMetadata? || p.Reload? || p.RemoveDirectory? || p.Update?
    requires m.FailPartWay? ==> p.MakeDirectory? || p.RemoveDirectory? || p.Update?
    ensures Rank(Next(s, p, m)) < Rank(p)
  {
  }

  lemma WorkFalls(s: State, t: Thread, m: Move)
    requires Enabled(s, t, m) && !m.Begin?
    ensures Work(Apply(s, t, m).phases) < Work(s.phases)
  {
    RankFalls(s, s.phases[t], m);
    WorkUpdated(s.phases, t, Next(s, s.phases[t], m));
  }

  lemma RunsFurther(s: State, t: Thread, m: Move, rest: seq<Turn>, r: State)
    requires Enabled(s, t, m) && Runs(Apply(s, t, m), rest, r)
    ensures Runs(s, [Turn(t, m)] + rest, r)
  {
    assert ([Turn(t, m)] + rest)[1..] == rest;
  }

  ghost predicate NoNewCalls(schedule: seq<Turn>) {
    forall i :: 0 <= i < |schedule| ==> !schedule[i].move.Begin?
  }

  /** However the threads are scheduled, the calls under way need no more than their work. */
  lemma {:induction false} EveryCallEnds(s: State, schedule: seq<Turn>, r: State)
    requires Runs(s, schedule, r) && NoNewCalls(schedule)
    ensures |schedule| + Work(r.phases) <= Work(s.phases)
    decreases |schedule|
  {
    if schedule != [] {
      var t, m := schedule[0].thread, schedule[0].move;
      WorkFalls(s, t, m);
      EveryCallEnds(Apply(s, t, m), schedule[1..], r);
    }
  }

  /** The two locks never block each other: as long as a call is under way, some thread can go on with one. */
  lemma NeverStuck(s: State) returns (t: Thread)
    requires Invariant(s) && exists u :: 0 <= u < |s.phases| && !s.phases[u].Idle?
    ensures Enabled(s, t, Proceed)
  {
    if s.catalog.Some? {
      t := s.catalog.value;
    } else if s.writer.Some? {
      t := s.writer.value;
    } else if s.readers != {} {
      t :| t in s.readers;
    } else {
      t :| 0 <= t < |s.phases| && !s.phases[t].Idle?;
    }
  }

  /** From every reachable state the calls under way can all be brought to an end. */
  lemma {:induction false} AllCallsCanEnd(s: State) returns (schedule: seq<Turn>, r: State)
    requires Invariant(s)
    ensures Runs(s, schedule, r) && NoNewCalls(schedule)
    ensures forall t :: 0 <= t < |r.phases| ==> r.phases[t].Idle?
    decreases Work(s.phases)
  {
    if forall t :: 0 <= t < |s.phases| ==> s.phases[t].Idle? {
      return [], s;
    }
    var t := NeverStuck(s);
    InvariantStep(s, t, Proceed);
    WorkFalls(s, t, Proceed);
    var rest;
    rest, r := AllCallsCanEnd(Apply(s, t, Proceed));
    schedule := [Turn(t, Proceed)] + rest;
    RunsFurther(s, t, Proceed, rest, r);
  }

  // ----- the unlocked lookup -----

  /** The first lookup takes no lock, so it answers for an index that is not there exactly while the deleting
      thread has removed the files and not yet the handle, or where the metadata was lost part-way. */
  lemma LookupOutlivesIndexExactlyWhen(s: State, t: Thread)
    requires Reachable(s) && t < |s.phases| && s.phases[t].Lookup?
    ensures var name, r := s.phases[t].name, Apply(s, t, Proceed);
            r.answers != s.answers && name !in r.metadata
            <==> name in s.cached && (Forgetting(s, name) || name in s.damaged)
  {
    ReachableHolds(s);
    var name := s.phases[t].name;
    if Forgetting(s, name) {
      assert Knows(s, s.phases[s.writer.value]);
    }
  }

  lemma {:induction false} RunsOneMore(s: State, schedule: seq<Turn>, mid: State, t: Thread, m: Move)
    requires Runs(s, schedule, mid) && Enabled(mid, t, m)
    ensures Runs(s, schedule + [Turn(t, m)], Apply(mid, t, m))
    decreases |schedule|
  {
    var longer := schedule + [Turn(t, m)];
    if schedule == [] {
      assert longer[1..] == [];
    } else {
      assert longer[1..] == schedule[1..] + [Turn(t, m)];
      RunsOneMore(Apply(s, schedule[0].thread, schedule[0].move), schedule[1..], mid, t, m);
    }
  }

  lemma Take(s: State, t: Thread, m: Move) returns (r: State)
    requires Reachable(s) && Enabled(s, t, m)
    ensures Reachable(r) && r == Apply(s, t, m)
  {
    var threads, directories, metadata, schedule: seq<Turn> :|
      metadata <= directories && Runs(Start(threads, directories, metadata), schedule, s);
    RunsOneMore(Start(threads, directories, metadata), schedule, s, t, m);
    r := Apply(s, t, m);
  }

  /** Thread 0 of two is at work on its own. */
  ghost predicate Alone(s: State, p: Phase) {
    && Reachable(s) && s.phases == [p, Idle] && s.readers == {}
    && s.writer == (if HoldsWrite(p) then Some(0) else None) && s.catalog == (if HoldsCatalog(p) then Some(0) else None)
  }

  lemma AloneTakes(s: State, p: Phase, m: Move) returns (r: State)
    requires Alone(s, p) && Enabled(s, 0, m) && !p.AwaitRead?
    ensures Alone(r, Next(s, p, m)) && r == Apply(s, 0, m)
  {
    ReachableHolds(s);
    r := Take(s, 0, m);
    ApplyFollows(s, 0, m);
  }

  lemma CreateEnters(s: State, name: Name) returns (r: State)
    requires Alone(s, Idle)
    ensures Alone(r, AwaitCatalogCreate(name)) && r.directories == s.directories
  {
    r := AloneTakes(s, Idle, Begin(CreateIndex(name)));
    r := AloneTakes(r, AwaitCreate(name), Proceed);
  }

  lemma CreateStarts(s: State, name: Name) returns (r: State)
    requires Alone(s, Idle) && name !in s.directories
    ensures Alone(r, WriteMetadata(name))
  {
    r := CreateEnters(s, name);
    r := AloneTakes(r, AwaitCatalogCreate(name), Proceed);
    r := AloneTakes(r, MakeDirectory(name), Proceed);
  }

  lemma CreateReopens(s: State, name: Name) returns (r: State)
    requires Alone(s, WriteMetadata(name))
    ensures Alone(r, Reload(name)) && name in r.metadata
  {
    r := AloneTakes(s, WriteMetadata(name), Proceed);
    r := AloneTakes(r, AwaitReopen(name), Proceed);
  }

  lemma CreateEnds(s: State, name: Name) returns (r: State)
    requires Alone(s, WriteMetadata(name))
    ensures Alone(r, LeaveWrite) && name in r.metadata && name in r.cached
  {
    r := CreateReopens(s, name);
    var handle := |r.lives|;
    r := AloneTakes(r, Reload(name), Proceed);
    r := AloneTakes(r, Publish(name, handle), Proceed);
  }

  lemma DeleteStarts(s: State, name: Name) returns (r: State)
    requires Alone(s, LeaveWrite)
    ensures Alone(r, AwaitDelete(name)) && r.directories == s.directories && r.cached == s.cached
  {
    r := AloneTakes(s, LeaveWrite, Proceed);
    r := AloneTakes(r, Idle, Begin(DeleteIndex(name)));
  }

  lemma DeleteUntilRemoval(s: State, name: Name) returns (r: State)
    requires Alone(s, AwaitDelete(name))
    ensures Alone(r, RemoveDirectory(name)) && r.directories == s.directories && r.cached == s.cached
  {
    r := AloneTakes(s, AwaitDelete(name), Proceed);
    r := AloneTakes(r, AwaitCatalogDelete(name), Proceed);
  }

  lemma DeleteUntilForget(s: State, name: Name) returns (r: State)
    requires Alone(s, AwaitDelete(name)) && name in s.directories && name in s.cached
    ensures Alone(r, Forget(name)) && name in r.cached
  {
    r := DeleteUntilRemoval(s, name);
    r := AloneTakes(r, RemoveDirectory(name), Proceed);
  }

  /** That moment is reachable: a thread creates an index and starts deleting it, and another one looks it up. */
  lemma LookupCanOutliveIndex(name: Name) returns (s: State)
    ensures Reachable(s) && |s.phases| == 2 && s.phases[1] == Lookup(name)
    ensures name in s.cached && Forgetting(s, name)
  {
    s := Start(2, {}, {});
    assert Runs(s, [], s);
    s := CreateStarts(s, name);
    s := CreateEnds(s, name);
    ReachableHolds(s);
    s := DeleteStarts(s, name);
    s := DeleteUntilForget(s, name);
    s := Take(s, 1, Begin(GetHandle(name)));
  }

  /** So is an index that stays lost: its delete fails part-way and leaves the handle, and with nobody at work
      the handle is still given out. */
  lemma DamageIsReachable(name: Name) returns (s: State)
    ensures Reachable(s) && |s.phases| == 2 && s.phases[0] == Idle && s.phases[1] == Lookup(name)
    ensures s.writer.None? && s.readers == {} && s.catalog.None?
    ensures name in s.cached && name !in s.metadata && name in s.damaged && name in s.directories
  {
    s := Start(2, {}, {});
    assert Runs(s, [], s);
    s := CreateStarts(s, name);
    s := CreateEnds(s, name);
    ReachableHolds(s);
    s := DeleteStarts(s, name);
    s := DeleteFails(s, name);
    s := Take(s, 1, Begin(GetHandle(name)));
  }

  lemma DeleteFails(s: State, name: Name) returns (r: State)
    requires Alone(s, AwaitDelete(name)) && name in s.directories && name in s.cached
    ensures Alone(r, Idle)
    ensures name in r.cached && name !in r.metadata && name in r.damaged && name in r.directories
  {
    r := DeleteUntilRemoval(s, name);
    r := RemovalFails(r, name);
    r := AloneTakes(r, LeaveWrite, Proceed);
  }

  lemma RemovalFails(s: State, name: Name) returns (r: State)
    requires Alone(s, RemoveDirectory(name)) && name in s.directories && name in s.cached
    ensures Alone(r, LeaveWrite)
    ensures name in r.cached && name !in r.metadata && name in r.damaged && name in r.directories
  {
    r := AloneTakes(s, RemoveDirectory(name), FailPartWay);
  }
}
