// The write-ahead log as its users see it: numbered generations of entries, one of them current.
module Log {
  import opened Values

  datatype Log = Log(current: nat, generations: map<nat, seq<Entry>>)

  // ----- generations in ascending order -----

  ghost function Max(s: set<nat>): (m: nat)
    requires s != {}
    ensures m in s && forall x :: x in s ==> x <= m
    decreases s
  {
    var x :| x in s;
    var rest := s - {x};
    if rest == {} then
      assert s == {x};
      x
    else
      var m := Max(rest);
      assert s == rest + {x};
      if x < m then m else x
  }

  lemma MaxIsUnique(s: set<nat>, m: nat)
    requires m in s && forall x :: x in s ==> x <= m
    ensures Max(s) == m
  {
  }

  /** The generations of a directory listing, ascending. */
  ghost function Ascending(s: set<nat>): (gs: seq<nat>)
    decreases s
  {
    if s == {} then []
    else Ascending(s - {Max(s)}) + [Max(s)]
  }

  ghost function Elements(gs: seq<nat>): set<nat> {
    set g | g in gs
  }

  ghost predicate StrictlyAscending(gs: seq<nat>) {
    forall i, j :: 0 <= i < j < |gs| ==> gs[i] < gs[j]
  }

  lemma {:induction false} ElementsOfAscending(s: set<nat>)
    ensures Elements(Ascending(s)) == s
    decreases s
  {
    if s != {} {
      ElementsOfAscending(s - {Max(s)});
      var front := Ascending(s - {Max(s)});
      assert forall g :: g in front + [Max(s)] <==> g in front || g == Max(s);
      assert Elements(front + [Max(s)]) == Elements(front) + {Max(s)};
    }
  }

  /** A strictly ascending list is determined by its elements. */
  lemma {:induction false} AscendingIsUnique(gs: seq<nat>)
    requires StrictlyAscending(gs)
    ensures gs == Ascending(Elements(gs))
  {
    if gs != [] {
      var last := gs[|gs| - 1];
      var front := gs[..|gs| - 1];
      assert gs == front + [last];
      assert Elements(gs) == Elements(front) + {last};
      assert Max(Elements(gs)) == last;
      assert Elements(gs) - {last} == Elements(front);
      AscendingIsUnique(front);
    }
  }

  /** All entries, generation after generation. */
  ghost function Flatten(generations: map<nat, seq<Entry>>): (es: seq<Entry>)
    decreases generations.Keys
  {
    if generations == map[] then []
    else
      var m := Max(generations.Keys);
      Flatten(generations - {m}) + generations[m]
  }

  /** Entries numbered above `bound`. */
  function Above(es: seq<Entry>, bound: nat): (r: seq<Entry>)
  {
    if es == [] then []
    else (if es[0].sequenceNumber > bound then [es[0]] else []) + Above(es[1..], bound)
  }

  /** Entries numbered at most `bound`. */
  function UpTo(es: seq<Entry>, bound: nat): (r: seq<Entry>)
  {
    if es == [] then []
    else (if es[0].sequenceNumber <= bound then [es[0]] else []) + UpTo(es[1..], bound)
  }

  ghost predicate Increasing(es: seq<Entry>) {
    forall i, j :: 0 <= i < j < |es| ==> es[i].sequenceNumber < es[j].sequenceNumber
  }

  ghost predicate AtMost(es: seq<Entry>, bound: int) {
    forall i :: 0 <= i < |es| ==> es[i].sequenceNumber <= bound
  }

  ghost predicate AllAbove(es: seq<Entry>, bound: nat) {
    forall i :: 0 <= i < |es| ==> es[i].sequenceNumber > bound
  }

  // ----- operations -----

  /** Every number in `a` is below every number in `b`. */
  ghost predicate Precedes(a: seq<Entry>, b: seq<Entry>) {
    forall i, j :: 0 <= i < |a| && 0 <= j < |b| ==> a[i].sequenceNumber < b[j].sequenceNumber
  }

  /** Sequence numbers rise within each generation and from one generation to the next. */
  ghost predicate Ordered(generations: map<nat, seq<Entry>>) {
    && (forall g :: g in generations ==> Increasing(generations[g]))
    && (forall g, h :: g in generations && h in generations && g < h ==> Precedes(generations[g], generations[h]))
  }

  /** Every entry of the log is numbered at most `bound`. */
  ghost predicate Bounded(generations: map<nat, seq<Entry>>, bound: int) {
    forall g :: g in generations ==> AtMost(generations[g], bound)
  }

  ghost predicate WellFormed(log: Log) {
    && (forall g :: g in log.generations ==> g <= log.current)
    && Ordered(log.generations)
  }

  function Empty(): Log {
    Log(1, map[])
  }

  /** The file of the current generation comes into being with its first entry. */
  function Append(log: Log, e: Entry): Log {
    var written := if log.current in log.generations then log.generations[log.current] else [];
    log.(generations := log.generations[log.current := written + [e]])
  }

  function Rollover(log: Log): Log {
    log.(current := log.current + 1)
  }

  /** A generation that a trim through `bound` may remove: not the current one, not empty, and its
      last entry is numbered at most `bound`. */
  predicate Removable(log: Log, bound: nat, g: nat) {
    && g in log.generations
    && g != log.current
    && log.generations[g] != []
    && log.generations[g][|log.generations[g]| - 1].sequenceNumber <= bound
  }

  function RemovableGenerations(log: Log, bound: nat): set<nat> {
    set g | g in log.generations.Keys && Removable(log, bound, g)
  }

  function Remove(log: Log, gs: set<nat>): Log {
    log.(generations := log.generations - gs)
  }

  function Trim(log: Log, bound: nat): Log {
    Remove(log, RemovableGenerations(log, bound))
  }

  ghost function Replay(log: Log, bound: nat): seq<Entry> {
    Above(Flatten(log.generations), bound)
  }

  // ----- filters -----

  lemma ConcatAssociates<T>(a: seq<T>, b: seq<T>, c: seq<T>)
    ensures a + (b + c) == (a + b) + c
  {
  }

  lemma TailOfConcat<T>(a: seq<T>, b: seq<T>)
    requires a != []
    ensures (a + b)[1..] == a[1..] + b
  {
  }

  lemma {:induction false} AboveConcat(a: seq<Entry>, b: seq<Entry>, bound: nat)
    ensures Above(a + b, bound) == Above(a, bound) + Above(b, bound)
  {
    if a == [] {
      assert a + b == b;
    } else {
      AboveConcat(a[1..], b, bound);
      TailOfConcat(a, b);
      ConcatAssociates(if a[0].sequenceNumber > bound then [a[0]] else [], Above(a[1..], bound), Above(b, bound));
    }
  }

  lemma {:induction false} UpToConcat(a: seq<Entry>, b: seq<Entry>, bound: nat)
    ensures UpTo(a + b, bound) == UpTo(a, bound) + UpTo(b, bound)
  {
    if a == [] {
      assert a + b == b;
    } else {
      UpToConcat(a[1..], b, bound);
      TailOfConcat(a, b);
      ConcatAssociates(if a[0].sequenceNumber <= bound then [a[0]] else [], UpTo(a[1..], bound), UpTo(b, bound));
    }
  }

  lemma {:induction false} NothingAbove(es: seq<Entry>, bound: nat)
    requires AtMost(es, bound)
    ensures Above(es, bound) == []
    ensures UpTo(es, bound) == es
  {
    if es != [] {
      NothingAbove(es[1..], bound);
    }
  }

  lemma {:induction false} EverythingAbove(es: seq<Entry>, bound: nat)
    requires AllAbove(es, bound)
    ensures Above(es, bound) == es
    ensures UpTo(es, bound) == []
  {
    if es != [] {
      EverythingAbove(es[1..], bound);
    }
  }

  /** A strictly increasing history splits at any bound. */
  lemma {:induction false} SplitAtBound(es: seq<Entry>, bound: nat)
    requires Increasing(es)
    ensures es == UpTo(es, bound) + Above(es, bound)
  {
    if es != [] {
      if es[0].sequenceNumber > bound {
        FirstIsLeast(es, bound);
        EverythingAbove(es, bound);
        SplitStep([], [], es);
      } else {
        SplitAtBound(es[1..], bound);
        FirstIsKept(es, bound);
        SplitStep([es[0]], UpTo(es[1..], bound), Above(es[1..], bound));
        assert es == [es[0]] + es[1..];
      }
    }
  }

  lemma FirstIsLeast(es: seq<Entry>, bound: nat)
    requires Increasing(es) && es != [] && es[0].sequenceNumber > bound
    ensures AllAbove(es, bound)
  {
  }

  lemma FirstIsKept(es: seq<Entry>, bound: nat)
    requires es != [] && es[0].sequenceNumber <= bound
    ensures UpTo(es, bound) == [es[0]] + UpTo(es[1..], bound)
    ensures Above(es, bound) == Above(es[1..], bound)
  {
    assert [] + Above(es[1..], bound) == Above(es[1..], bound);
  }

  lemma SplitStep(first: seq<Entry>, a: seq<Entry>, b: seq<Entry>)
    ensures first + (a + b) == (first + a) + b
    ensures [] + b == b
  {
  }

  lemma {:induction false} AboveTwice(es: seq<Entry>, low: nat, high: nat)
    requires low <= high
    ensures Above(Above(es, low), high) == Above(es, high)
  {
    if es != [] {
      AboveTwice(es[1..], low, high);
      AboveConcat(if es[0].sequenceNumber > low then [es[0]] else [], Above(es[1..], low), high);
    }
  }

  // ----- what each operation does to a replay -----

  lemma FlattenAtLast(generations: map<nat, seq<Entry>>, g: nat)
    requires forall k :: k in generations ==> k <= g
    ensures Flatten(generations) == Flatten(generations - {g}) + (if g in generations then generations[g] else [])
  {
    if g in generations {
      assert Max(generations.Keys) == g;
    } else {
      assert generations - {g} == generations;
    }
  }

  lemma AppendExtendsFlatten(log: Log, e: Entry)
    requires forall g :: g in log.generations ==> g <= log.current
    ensures Flatten(Append(log, e).generations) == Flatten(log.generations) + [e]
  {
    var after := Append(log, e).generations;
    FlattenAtLast(log.generations, log.current);
    FlattenAtLast(after, log.current);
    assert after - {log.current} == log.generations - {log.current};
  }

  /** Appending an entry numbered above all others keeps the log in order. */
  lemma AppendKeepsOrder(log: Log, e: Entry)
    requires WellFormed(log) && Bounded(log.generations, e.sequenceNumber - 1)
    ensures WellFormed(Append(log, e)) && Bounded(Append(log, e).generations, e.sequenceNumber)
  {
  }

  lemma FlattenWithout(generations: map<nat, seq<Entry>>, g: nat, m: nat)
    requires m in generations && m != g && forall k :: k in generations ==> k <= m
    ensures Flatten(generations - {g}) == Flatten((generations - {m}) - {g}) + generations[m]
  {
    var rest := generations - {g};
    FlattenAtLast(rest, m);
    assert rest - {m} == (generations - {m}) - {g};
  }

  /** Removing one generation whose entries are all covered leaves every later replay unchanged. */
  lemma {:induction false} RemoveOne(generations: map<nat, seq<Entry>>, g: nat, bound: nat)
    requires g in generations && AtMost(generations[g], bound)
    ensures Above(Flatten(generations - {g}), bound) == Above(Flatten(generations), bound)
    decreases generations.Keys
  {
    var m := Max(generations.Keys);
    var front := generations - {m};
    AboveConcat(Flatten(front), generations[m], bound);
    if g == m {
      NothingAbove(generations[m], bound);
    } else {
      RemoveOne(front, g, bound);
      FlattenWithout(generations, g, m);
      AboveConcat(Flatten(front - {g}), generations[m], bound);
    }
  }

  ghost predicate AllCovered(generations: map<nat, seq<Entry>>, gs: set<nat>, bound: nat) {
    forall g :: g in gs ==> g in generations && AtMost(generations[g], bound)
  }

  lemma CoveredInTurn(generations: map<nat, seq<Entry>>, g: nat, gs: set<nat>, bound: nat)
    requires g in gs && AllCovered(generations, gs, bound)
    ensures AllCovered(generations - {g}, gs - {g}, bound)
    ensures (generations - {g}) - (gs - {g}) == generations - gs
  {
  }

  lemma {:induction false} RemoveCovered(generations: map<nat, seq<Entry>>, gs: set<nat>, bound: nat)
    requires AllCovered(generations, gs, bound)
    ensures Above(Flatten(generations - gs), bound) == Above(Flatten(generations), bound)
    decreases gs
  {
    if gs == {} {
      assert generations - gs == generations;
    } else {
      var g :| g in gs;
      RemoveOne(generations, g, bound);
      CoveredInTurn(generations, g, gs, bound);
      RemoveCovered(generations - {g}, gs - {g}, bound);
    }
  }

  /** In an increasing log the last entry decides: what a trim may remove holds nothing above the bound. */
  lemma RemovableIsCovered(log: Log, bound: nat, g: nat)
    requires WellFormed(log) && Removable(log, bound, g)
    ensures AtMost(log.generations[g], bound)
  {
  }

  /** What a trim removes: the older generations with entries, all of them numbered at most `bound`. */
  lemma TrimRemovesExactly(log: Log, bound: nat, g: nat)
    requires WellFormed(log) && g in log.generations
    ensures g !in Trim(log, bound).generations
       <==> g != log.current && log.generations[g] != [] && AtMost(log.generations[g], bound)
  {
    if Removable(log, bound, g) {
      RemovableIsCovered(log, bound, g);
    }
  }

  /** A trim, and any partial trim that a crash leaves behind, hides nothing above its bound and
      never touches the current generation. */
  lemma RemovalKeepsReplay(log: Log, bound: nat, gs: set<nat>, n: nat)
    requires WellFormed(log)
    requires gs <= RemovableGenerations(log, bound) && bound <= n
    ensures WellFormed(Remove(log, gs))
    ensures Replay(Remove(log, gs), n) == Replay(log, n)
    ensures log.current in log.generations ==>
              log.current in Remove(log, gs).generations
              && Remove(log, gs).generations[log.current] == log.generations[log.current]
  {
    assert AllCovered(log.generations, gs, n) by {
      forall g | g in gs ensures g in log.generations && AtMost(log.generations[g], n) {
        RemovableIsCovered(log, bound, g);
      }
    }
    RemoveCovered(log.generations, gs, n);
  }

  // ----- whole runs -----

  datatype Step =
    | DoAppend(entry: Entry)
    | DoRollover
    | DoTrim(bound: nat)

  function Apply(log: Log, step: Step): Log {
    match step
    case DoAppend(e) => Append(log, e)
    case DoRollover => Rollover(log)
    case DoTrim(bound) => Trim(log, bound)
  }

  function Run(steps: seq<Step>): Log {
    if steps == [] then Empty() else Apply(Run(steps[..|steps| - 1]), steps[|steps| - 1])
  }

  function Appended(steps: seq<Step>): seq<Entry> {
    if steps == [] then []
    else
      var last := steps[|steps| - 1];
      Appended(steps[..|steps| - 1]) + (if last.DoAppend? then [last.entry] else [])
  }

  /** Appends are numbered upwards from 1 and no trim reaches beyond `n`. */
  ghost predicate Disciplined(steps: seq<Step>, n: nat) {
    && Increasing(Appended(steps))
    && AllAbove(Appended(steps), 0)
    && forall i :: 0 <= i < |steps| && steps[i].DoTrim? ==> steps[i].bound <= n
  }

  function LastNumber(es: seq<Entry>): nat {
    if es == [] then 0 else es[|es| - 1].sequenceNumber
  }

  lemma DisciplinedPrefix(steps: seq<Step>, n: nat)
    requires steps != [] && Disciplined(steps, n)
    ensures Disciplined(steps[..|steps| - 1], n)
    ensures steps[|steps| - 1].DoAppend? ==>
              LastNumber(Appended(steps[..|steps| - 1])) < steps[|steps| - 1].entry.sequenceNumber
  {
    var before, after := Appended(steps[..|steps| - 1]), Appended(steps);
    assert forall i :: 0 <= i < |before| ==> before[i] == after[i];
    if steps[|steps| - 1].DoAppend? {
      assert after[|before|] == steps[|steps| - 1].entry;
    }
  }

  /** Whatever appends, rollovers and trims came before, replaying above `n` gives exactly the appended
      entries above `n`, in order. */
  lemma {:induction false} ReplayAfterRun(steps: seq<Step>, n: nat)
    requires Disciplined(steps, n)
    ensures WellFormed(Run(steps)) && Bounded(Run(steps).generations, LastNumber(Appended(steps)))
    ensures Replay(Run(steps), n) == Above(Appended(steps), n)
  {
    if steps != [] {
      var front, last := steps[..|steps| - 1], steps[|steps| - 1];
      var log := Run(front);
      DisciplinedPrefix(steps, n);
      ReplayAfterRun(front, n);
      match last
      case DoAppend(e) =>
        forall g | g in log.generations ensures AtMost(log.generations[g], e.sequenceNumber - 1) {}
        AppendKeepsOrder(log, e);
        AppendExtendsFlatten(log, e);
        AboveConcat(Flatten(log.generations), [e], n);
        AboveConcat(Appended(front), [e], n);
      case DoRollover =>
        assert Appended(steps) == Appended(front);
      case DoTrim(bound) =>
        RemovalKeepsReplay(log, bound, RemovableGenerations(log, bound), n);
        assert Appended(steps) == Appended(front);
    }
  }

  /** A run that ends with a trim leaves, beside the current generation, none whose entries are all covered. */
  lemma RunTrims(steps: seq<Step>, n: nat, bound: nat, g: nat)
    requires steps != [] && steps[|steps| - 1] == DoTrim(bound) && Disciplined(steps, n)
    requires g in Run(steps).generations && g != Run(steps).current
    ensures Run(steps).generations[g] == [] || !AtMost(Run(steps).generations[g], bound)
  {
    var before := Run(steps[..|steps| - 1]);
    DisciplinedPrefix(steps, n);
    ReplayAfterRun(steps[..|steps| - 1], n);
    TrimRemovesExactly(before, bound, g);
  }
}
