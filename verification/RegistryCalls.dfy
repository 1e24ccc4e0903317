// What the registry's calls return: the verdict on every call under every schedule, and what holds of the index
// at the moment a call returns.
module RegistryCalls {
  import opened Values
  import opened Registry

  datatype Outcome =
    | Answered(name: Name, handle: Handle)
    | Created(name: Name)
    | Deleted(name: Name)
    | Updated(name: Name)
    | NotFound(name: Name)
    | AlreadyExists(name: Name)
    | Failed

  /** What a step decides that its call will return. */
  function Decides(s: State, p: Phase, m: Move): Option<Outcome> {
    match m
    case Begin(_) => None
    case Fail => Some(Failed)
    case FailPartWay => Some(Failed)
    case Proceed =>
      match p
      case Lookup(n) => if n in s.cached then Some(Answered(n, s.cached[n])) else None
      case Recheck(n) => if n in s.cached then Some(Answered(n, s.cached[n])) else None
      case Load(n) => if n in s.metadata then None else Some(NotFound(n))
      case Insert(n, h) => Some(Answered(n, if n in s.cached then s.cached[n] else h))
      case MakeDirectory(n) => if n in s.directories then Some(AlreadyExists(n)) else None
      case Reload(n) => if n in s.metadata then None else Some(NotFound(n))
      case Publish(n, _) => Some(Created(n))
      case RemoveDirectory(n) => if n in s.directories then None else Some(NotFound(n))
      case Forget(n) => Some(Deleted(n))
      case Update(n) => Some(if n in s.metadata then Updated(n) else NotFound(n))
      case _ => None
  }

  /** The registry, and what each thread's last call returns once that is decided. */
  datatype Ledger = Ledger(state: State, decided: map<Thread, Outcome>)

  function Serve(l: Ledger, t: Thread, m: Move): Ledger
    requires Enabled(l.state, t, m)
  {
    var decided := match Decides(l.state, l.state.phases[t], m)
                   case Some(outcome) => l.decided[t := outcome]
                   case None => if m.Begin? then l.decided - {t} else l.decided;
    Ledger(Apply(l.state, t, m), decided)
  }

  /** The schedule takes `l` to `r`. */
  ghost predicate Serves(l: Ledger, schedule: seq<Turn>, r: Ledger)
    decreases |schedule|
  {
    if schedule == [] then r == l
    else
      var first := schedule[0];
      && Enabled(l.state, first.thread, first.move)
      && Serves(Serve(l, first.thread, first.move), schedule[1..], r)
  }

  // ----- the verdict on a call -----

  /** The phases of a call in which nothing is decided yet. */
  predicate Under(call: Call, p: Phase) {
    match call
    case GetHandle(n) =>
      || p in {Lookup(n), AwaitRead(n), Recheck(n), AwaitOpen(n), Load(n)}
      || (p.Insert? && p.name == n)
    case CreateIndex(n) =>
      || p in {AwaitCreate(n), AwaitCatalogCreate(n), MakeDirectory(n), WriteMetadata(n), AwaitReopen(n), Reload(n)}
      || (p.Publish? && p.name == n)
    case DeleteIndex(n) => p in {AwaitDelete(n), AwaitCatalogDelete(n), RemoveDirectory(n), Forget(n)}
    case UpdateSettings(n) => p in {AwaitUpdate(n), Update(n)}
  }

  /** The call has its outcome and only gives its locks back. */
  predicate IsOver(p: Phase) {
    p.Idle? || p.LeaveRead? || p.LeaveWrite?
  }

  /** What a call can come upon: an index that is not there, or one that is there already. */
  datatype Finding = Absent | Taken

  predicate Shows(finding: Finding, s: State, p: Phase) {
    match finding
    case Absent =>
      || ((p.Load? || p.Reload? || p.Update?) && p.name !in s.metadata)
      || (p.RemoveDirectory? && p.name !in s.directories)
    case Taken => p.MakeDirectory? && p.name in s.directories
  }

  /** At one of its turns the thread comes upon it. */
  ghost predicate Finds(s: State, schedule: seq<Turn>, t: Thread, finding: Finding)
    decreases |schedule|
  {
    schedule != [] &&
    var first := schedule[0];
    Enabled(s, first.thread, first.move) &&
    (|| (first == Turn(t, Proceed) && Shows(finding, s, s.phases[t]))
     || Finds(Apply(s, first.thread, first.move), schedule[1..], t, finding))
  }

  predicate Fails(m: Move) {
    m == Fail || m == FailPartWay
  }

  /** The file system fails one of the thread's turns. */
  ghost predicate Struck(schedule: seq<Turn>, t: Thread) {
    exists k :: 0 <= k < |schedule| && schedule[k].thread == t && Fails(schedule[k].move)
  }

  ghost predicate NoCallBy(schedule: seq<Turn>, t: Thread) {
    forall k :: 0 <= k < |schedule| && schedule[k].thread == t ==> !schedule[k].move.Begin?
  }

  predicate IsSuccess(call: Call, outcome: Outcome) {
    match call
    case GetHandle(n) => outcome.Answered? && outcome.name == n
    case CreateIndex(n) => outcome == Created(n)
    case DeleteIndex(n) => outcome == Deleted(n)
    case UpdateSettings(n) => outcome == Updated(n)
  }

  /** The outcome that a call has to have. */
  predicate IsVerdict(call: Call, outcome: Outcome, struck: bool, taken: bool, absent: bool) {
    if struck then outcome == Failed
    else if taken then outcome == AlreadyExists(call.name)
    else if absent then outcome == NotFound(call.name)
    else IsSuccess(call, outcome)
  }

  lemma OwnTurn(s: State, t: Thread, m: Move, call: Call)
    requires Enabled(s, t, m) && Under(call, s.phases[t]) && !m.Begin?
    ensures var p, outcome := s.phases[t], Decides(s, s.phases[t], m);
            var taken, absent := m == Proceed && Shows(Taken, s, p), m == Proceed && Shows(Absent, s, p);
            match outcome
            case None => Under(call, Next(s, p, m)) && !Fails(m) && !taken && !absent
            case Some(o) =>
              && IsOver(Next(s, p, m)) && IsVerdict(call, o, Fails(m), taken, absent)
  {
  }

  lemma OtherTurn(l: Ledger, u: Thread, m: Move, t: Thread)
    requires Enabled(l.state, u, m) && u != t && t < |l.state.phases|
    ensures var r := Serve(l, u, m);
            && |r.state.phases| == |l.state.phases| && r.state.phases[t] == l.state.phases[t]
            && (t in r.decided <==> t in l.decided) && (t in l.decided ==> r.decided[t] == l.decided[t])
  {
  }

  lemma StruckByStep(schedule: seq<Turn>, t: Thread)
    requires schedule != []
    ensures Struck(schedule, t) <==>
              (schedule[0].thread == t && Fails(schedule[0].move)) || Struck(schedule[1..], t)
    ensures NoCallBy(schedule, t) ==> NoCallBy(schedule[1..], t)
  {
    assert forall k :: 0 <= k < |schedule| - 1 ==> schedule[1..][k] == schedule[k + 1];
    if Struck(schedule, t) {
      var k :| 0 <= k < |schedule| && schedule[k].thread == t && Fails(schedule[k].move);
      assert k > 0 ==> schedule[1..][k - 1] == schedule[k];
    }
  }

  /** Once a call is over nothing strikes it and it comes upon nothing. */
  lemma {:induction false} OutcomeStays(l: Ledger, schedule: seq<Turn>, r: Ledger, t: Thread)
    requires Serves(l, schedule, r) && NoCallBy(schedule, t)
    requires t < |l.state.phases| && IsOver(l.state.phases[t]) && t in l.decided
    ensures t in r.decided && r.decided[t] == l.decided[t]
    ensures !Struck(schedule, t)
    ensures !Finds(l.state, schedule, t, Taken) && !Finds(l.state, schedule, t, Absent)
    decreases |schedule|
  {
    if schedule != [] {
      var u, m := schedule[0].thread, schedule[0].move;
      StruckByStep(schedule, t);
      if u != t {
        OtherTurn(l, u, m, t);
      }
      OutcomeStays(Serve(l, u, m), schedule[1..], r, t);
    }
  }

  /** Under every schedule a call that has ended returns: its failure exactly if the file system failed one of its
      turns, that the index exists exactly if its directory was there when it was to be made, that there is no such
      index exactly if it was missing when it was read or removed, and otherwise its success. */
  lemma {:induction false} CallReturnsExactly(l: Ledger, schedule: seq<Turn>, r: Ledger, t: Thread, call: Call)
    requires Serves(l, schedule, r) && NoCallBy(schedule, t)
    requires t < |l.state.phases| && Under(call, l.state.phases[t]) && t !in l.decided
    requires t < |r.state.phases| && r.state.phases[t].Idle?
    ensures t in r.decided
    ensures IsVerdict(call, r.decided[t], Struck(schedule, t), Finds(l.state, schedule, t, Taken),
                      Finds(l.state, schedule, t, Absent))
    decreases |schedule|
  {
    if schedule != [] {
      var u, m := schedule[0].thread, schedule[0].move;
      StruckByStep(schedule, t);
      var next := Serve(l, u, m);
      if u != t {
        OtherTurn(l, u, m, t);
        CallReturnsExactly(next, schedule[1..], r, t, call);
      } else {
        OwnTurn(l.state, t, m, call);
        if Decides(l.state, l.state.phases[t], m).Some? {
          OutcomeStays(next, schedule[1..], r, t);
        } else {
          CallReturnsExactly(next, schedule[1..], r, t, call);
        }
      }
    }
  }

  lemma CallBegins(l: Ledger, t: Thread, call: Call)
    requires Enabled(l.state, t, Begin(call))
    ensures var r := Serve(l, t, Begin(call));
            t < |r.state.phases| && Under(call, r.state.phases[t]) && t !in r.decided
  {
  }

  // ----- handles -----

  /** The handles a thread was given, with the lives of their indexes. */
  function AnswersTo(answers: seq<Answer>, t: Thread): seq<Answer> {
    if answers == [] then []
    else
      var front, last := AnswersTo(answers[..|answers| - 1], t), answers[|answers| - 1];
      if last.thread == t then front + [last] else front
  }

  /** What a decision gives the thread. */
  function Given(s: State, t: Thread, outcome: Option<Outcome>): seq<Answer> {
    if outcome.Some? && outcome.value.Answered?
    then [Answer(t, Current(s, outcome.value.name), outcome.value.handle)] else []
  }

  /** A handle is given out exactly where a step decides to return it. */
  lemma GivesWhatItDecides(s: State, t: Thread, m: Move)
    requires Enabled(s, t, m)
    ensures Apply(s, t, m).answers == s.answers + Given(s, t, Decides(s, s.phases[t], m))
  {
    EffectGives(s, t, m, s.phases[t]);
  }

  lemma EffectGives(s: State, t: Thread, m: Move, p: Phase)
    requires Enabled(s, t, m) && p == s.phases[t]
    ensures Effect(s, t, m).answers == s.answers + Given(s, t, Decides(s, p, m))
  {
  }

  lemma AnswersAfter(s: State, u: Thread, m: Move, t: Thread)
    requires Enabled(s, u, m)
    ensures AnswersTo(Apply(s, u, m).answers, t)
         == AnswersTo(s.answers, t) + if u == t then Given(s, t, Decides(s, s.phases[t], m)) else []
  {
    GivesWhatItDecides(s, u, m);
    var given := Given(s, u, Decides(s, s.phases[u], m));
    assert s.answers + [] == s.answers && AnswersTo(s.answers, t) + [] == AnswersTo(s.answers, t);
    if given != [] {
      assert (s.answers + given)[..|s.answers|] == s.answers;
    }
  }

  lemma DeletionsGrow(s: State, t: Thread, m: Move, n: Name)
    requires Enabled(s, t, m)
    ensures Current(Apply(s, t, m), n).deletions
         == Current(s, n).deletions + if m == Proceed && s.phases[t] == Forget(n) then 1 else 0
  {
  }

  /** The new answers are the one handle that the call returns, or none. */
  ghost predicate GaveWhatItReturns(before: seq<Answer>, after: seq<Answer>, outcome: Outcome, t: Thread, since: nat) {
    if outcome.Answered? then
      && |after| == |before| + 1 && after[..|before|] == before
      && var a := after[|before|];
         a == Answer(t, Life(outcome.name, a.life.deletions), outcome.handle) && a.life.deletions >= since
    else after == before
  }

  lemma {:induction false} AnswersStay(l: Ledger, schedule: seq<Turn>, r: Ledger, t: Thread)
    requires Serves(l, schedule, r) && NoCallBy(schedule, t)
    requires t < |l.state.phases| && IsOver(l.state.phases[t])
    ensures AnswersTo(r.state.answers, t) == AnswersTo(l.state.answers, t)
    decreases |schedule|
  {
    if schedule != [] {
      var u, m := schedule[0].thread, schedule[0].move;
      StruckByStep(schedule, t);
      AnswersAfter(l.state, u, m, t);
      if u != t {
        OtherTurn(l, u, m, t);
      }
      AnswersStay(Serve(l, u, m), schedule[1..], r, t);
    }
  }

  /** A call gives its thread exactly the handle it returns, for a life of the index that had not ended when the
      call began. */
  lemma {:induction false} CallGivesWhatItReturns(l: Ledger, schedule: seq<Turn>, r: Ledger, t: Thread, call: Call)
    requires Serves(l, schedule, r) && NoCallBy(schedule, t)
    requires t < |l.state.phases| && Under(call, l.state.phases[t]) && t !in l.decided
    requires t < |r.state.phases| && r.state.phases[t].Idle?
    ensures t in r.decided
    ensures GaveWhatItReturns(AnswersTo(l.state.answers, t), AnswersTo(r.state.answers, t), r.decided[t], t,
                              Current(l.state, call.name).deletions)
    decreases |schedule|
  {
    if schedule != [] {
      var u, m := schedule[0].thread, schedule[0].move;
      StruckByStep(schedule, t);
      var next := Serve(l, u, m);
      AnswersAfter(l.state, u, m, t);
      DeletionsGrow(l.state, u, m, call.name);
      if u != t {
        OtherTurn(l, u, m, t);
        CallGivesWhatItReturns(next, schedule[1..], r, t, call);
      } else {
        OwnTurn(l.state, t, m, call);
        if Decides(l.state, l.state.phases[t], m).Some? {
          OutcomeStays(next, schedule[1..], r, t);
          AnswersStay(next, schedule[1..], r, t);
        } else {
          CallGivesWhatItReturns(next, schedule[1..], r, t, call);
        }
      }
    }
  }

  lemma {:induction false} ServesRuns(l: Ledger, schedule: seq<Turn>, r: Ledger)
    requires Serves(l, schedule, r)
    ensures Runs(l.state, schedule, r.state)
    decreases |schedule|
  {
    if schedule != [] {
      ServesRuns(Serve(l, schedule[0].thread, schedule[0].move), schedule[1..], r);
    }
  }

  // ----- undisturbed calls -----

  predicate IsDeleting(p: Phase, n: Name) {
    p in {AwaitDelete(n), AwaitCatalogDelete(n), RemoveDirectory(n), Forget(n)}
  }

  /** The index is there and no thread is deleting it. */
  ghost predicate IsSafe(s: State, n: Name) {
    n in s.metadata && forall u :: 0 <= u < |s.phases| ==> !IsDeleting(s.phases[u], n)
  }

  /** Nobody starts deleting it, and nothing fails part-way. */
  ghost predicate LeavesAlone(schedule: seq<Turn>, n: Name) {
    forall k :: 0 <= k < |schedule| ==> schedule[k].move != Begin(DeleteIndex(n)) && schedule[k].move != FailPartWay
  }

  lemma StaysSafe(s: State, u: Thread, m: Move, n: Name)
    requires Enabled(s, u, m) && IsSafe(s, n) && m != Begin(DeleteIndex(n)) && m != FailPartWay
    requires s.metadata <= s.directories
    ensures IsSafe(Apply(s, u, m), n) && Current(Apply(s, u, m), n) == Current(s, n)
  {
    DeletionsGrow(s, u, m, n);
    Moved(s, u, m);
  }

  lemma {:induction false} SafeFindsNothing(s: State, schedule: seq<Turn>, r: State, t: Thread, n: Name)
    requires Invariant(s) && Runs(s, schedule, r) && IsSafe(s, n) && LeavesAlone(schedule, n)
    requires NoCallBy(schedule, t) && t < |s.phases| && (Under(GetHandle(n), s.phases[t]) || IsOver(s.phases[t]))
    ensures !Finds(s, schedule, t, Absent) && !Finds(s, schedule, t, Taken)
    ensures Current(r, n) == Current(s, n)
    decreases |schedule|
  {
    if schedule != [] {
      var u, m := schedule[0].thread, schedule[0].move;
      StruckByStep(schedule, t);
      StaysSafe(s, u, m, n);
      InvariantStep(s, u, m);
      Moved(s, u, m);
      assert LeavesAlone(schedule[1..], n) by {
        assert forall k :: 0 <= k < |schedule| - 1 ==> schedule[1..][k] == schedule[k + 1];
      }
      if u == t && !IsOver(s.phases[t]) {
        OwnTurn(s, t, m, GetHandle(n));
      }
      SafeFindsNothing(Apply(s, u, m), schedule[1..], r, t, n);
    }
  }

  lemma LastAnswer(answers: seq<Answer>, t: Thread, a: Answer) returns (i: nat)
    requires a in AnswersTo(answers, t)
    ensures i < |answers| && answers[i] == a
  {
    if answers[|answers| - 1] == a {
      i := |answers| - 1;
    } else {
      i := LastAnswer(answers[..|answers| - 1], t, a);
    }
  }

  /** A call for the handle of an index that is there, that nobody deletes and that no failure strikes, returns the
      handle, gives it to its thread and leaves it cached, whatever all other threads do meanwhile. */
  lemma HandleIsReturned(l: Ledger, schedule: seq<Turn>, r: Ledger, t: Thread, n: Name)
    requires Invariant(l.state) && Enabled(l.state, t, Begin(GetHandle(n)))
    requires Serves(Serve(l, t, Begin(GetHandle(n))), schedule, r) && NoCallBy(schedule, t)
    requires t < |r.state.phases| && r.state.phases[t].Idle?
    requires IsSafe(l.state, n) && LeavesAlone(schedule, n) && !Struck(schedule, t)
    ensures n in r.state.cached && t in r.decided && r.decided[t] == Answered(n, r.state.cached[n])
    ensures AnswersTo(r.state.answers, t)
         == AnswersTo(l.state.answers, t) + [Answer(t, Current(r.state, n), r.state.cached[n])]
  {
    var begun := Serve(l, t, Begin(GetHandle(n)));
    CallBegins(l, t, GetHandle(n));
    InvariantStep(l.state, t, Begin(GetHandle(n)));
    StaysSafe(l.state, t, Begin(GetHandle(n)), n);
    AnswersAfter(l.state, t, Begin(GetHandle(n)), t);
    ServesRuns(begun, schedule, r);
    SafeFindsNothing(begun.state, schedule, r.state, t, n);
    CallReturnsExactly(begun, schedule, r, t, GetHandle(n));
    CallGivesWhatItReturns(begun, schedule, r, t, GetHandle(n));
    RunHolds(begun.state, schedule, r.state);
    AnswerIsCached(r.state, t, AnswersTo(l.state.answers, t), r.decided[t], Current(begun.state, n).deletions);
  }

  /** An answer for the present life is the cached handle. */
  lemma AnswerIsCached(s: State, t: Thread, before: seq<Answer>, outcome: Outcome, since: nat)
    requires Invariant(s) && outcome.Answered? && Current(s, outcome.name).deletions == since
    requires GaveWhatItReturns(before, AnswersTo(s.answers, t), outcome, t, since)
    ensures outcome.name in s.cached && s.cached[outcome.name] == outcome.handle
    ensures AnswersTo(s.answers, t) == before + [Answer(t, Current(s, outcome.name), outcome.handle)]
  {
    var after := AnswersTo(s.answers, t);
    var a := after[|before|];
    var i := LastAnswer(s.answers, t, a);
    assert Stands(s, s.answers[i]);
    assert after == after[..|before|] + [a];
  }

  // ----- what holds when a call returns -----

  /** What the outcome says of the index. */
  predicate Promise(s: State, outcome: Outcome) {
    match outcome
    case Answered(n, h) => n in s.cached && s.cached[n] == h
    case Created(n) => n in s.cached && n in s.directories
    case Deleted(n) => n !in s.cached && n !in s.directories
    case NotFound(n) => n !in s.metadata
    case AlreadyExists(n) => n in s.directories
    case Updated(_) => true
    case Failed => true
  }

  /** Calls that are about to give back the registry's lock keep what they return. */
  ghost predicate Promises(l: Ledger) {
    forall t :: 0 <= t < |l.state.phases| && (l.state.phases[t].LeaveRead? || l.state.phases[t].LeaveWrite?) ==>
      t in l.decided && Promise(l.state, l.decided[t])
  }

  lemma OwnPromise(l: Ledger, t: Thread, m: Move)
    requires Invariant(l.state) && Enabled(l.state, t, m)
    ensures var p, r := Next(l.state, l.state.phases[t], m), Serve(l, t, m);
            p.LeaveRead? || p.LeaveWrite? ==> t in r.decided && Promise(r.state, r.decided[t])
  {
    assert Knows(l.state, l.state.phases[t]);
  }

  lemma OthersPromise(l: Ledger, u: Thread, m: Move, t: Thread)
    requires Invariant(l.state) && Promises(l) && Enabled(l.state, u, m) && u != t && t < |l.state.phases|
    requires l.state.phases[t].LeaveRead? || l.state.phases[t].LeaveWrite?
    ensures Promise(Apply(l.state, u, m), l.decided[t])
  {
    var s := l.state;
    assert HoldsRead(s.phases[t]) ==> t in s.readers;
    assert HoldsRead(s.phases[u]) ==> u in s.readers;
    assert HoldsWrite(s.phases[t]) ==> s.writer == Some(t);
    assert HoldsWrite(s.phases[u]) ==> s.writer == Some(u);
    FilesTouched(s, u, m);
    TableTouched(s, u, m);
  }

  lemma PromisesStep(l: Ledger, u: Thread, m: Move)
    requires Invariant(l.state) && Promises(l) && Enabled(l.state, u, m)
    ensures Promises(Serve(l, u, m))
  {
    var r := Serve(l, u, m);
    Moved(l.state, u, m);
    forall t | 0 <= t < |r.state.phases| && (r.state.phases[t].LeaveRead? || r.state.phases[t].LeaveWrite?)
      ensures t in r.decided && Promise(r.state, r.decided[t])
    {
      if t == u {
        OwnPromise(l, u, m);
      } else {
        OtherTurn(l, u, m, t);
        OthersPromise(l, u, m, t);
      }
    }
  }

  /** In every run, a call that returns a handle, or that the index was created, deleted, missing or there already,
      returns while that is so. */
  lemma {:induction false} ReturnsWhatIs(threads: nat, directories: set<Name>, metadata: set<Name>, schedule: seq<Turn>,
                                         r: Ledger)
    requires metadata <= directories && Serves(Ledger(Start(threads, directories, metadata), map[]), schedule, r)
    ensures Promises(r)
  {
    StartHolds(threads, directories, metadata);
    PromisesKept(Ledger(Start(threads, directories, metadata), map[]), schedule, r);
  }

  lemma {:induction false} PromisesKept(l: Ledger, schedule: seq<Turn>, r: Ledger)
    requires Invariant(l.state) && Promises(l) && Serves(l, schedule, r)
    ensures Promises(r)
    decreases |schedule|
  {
    if schedule != [] {
      var t, m := schedule[0].thread, schedule[0].move;
      InvariantStep(l.state, t, m);
      PromisesStep(l, t, m);
      PromisesKept(Serve(l, t, m), schedule[1..], r);
    }
  }
}
