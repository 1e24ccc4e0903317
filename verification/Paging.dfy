// Paging with search_after: for which sorted results walking from cursor to cursor shows every hit exactly
// once.
module Paging {
  import opened Bytes
  import opened Values
  import opened Mappings
  import opened Sorting
  import opened Texts
  import I = IndexState
  import R = Runs
  import T = Typing

  const MAX_SEARCH_SIZE: nat := 10_000

  /** The order in which sorting leaves the hits of one request. */
  ghost predicate Sorted(e: Reading, sort: Option<SortSpec>, hits: seq<Hit>) {
    forall i, j :: 0 <= i < j < |hits| ==> CompareHits(e, sort, hits[i], hits[j]) == Less
  }

  /** Two sorted arrangements of the same hits are the same. */
  lemma {:induction false} SortedIsUnique(e: Reading, sort: Option<SortSpec>, a: seq<Hit>, b: seq<Hit>)
    requires Sorted(e, sort, a) && Sorted(e, sort, b) && multiset(a) == multiset(b)
    requires OneKind(e, sort, a)
    ensures a == b
  {
    if a == [] {
      assert |multiset(b)| == 0;
    } else {
      assert a[0] in multiset(b) && b != [] && b[0] in multiset(a);
      HeadIsLeast(e, sort, a, b);
      TailsMatch(a, b);
      SortedIsUnique(e, sort, a[1..], b[1..]);
    }
  }

  lemma TailsMatch(a: seq<Hit>, b: seq<Hit>)
    requires a != [] && b != [] && a[0] == b[0] && multiset(a) == multiset(b)
    ensures multiset(a[1..]) == multiset(b[1..])
    ensures a[1..] == b[1..] ==> a == b
  {
    assert a == [a[0]] + a[1..] && b == [b[0]] + b[1..];
    assert multiset(a[1..]) == multiset(a) - multiset{a[0]};
    assert multiset(b[1..]) == multiset(b) - multiset{b[0]};
  }

  lemma HeadIsLeast(e: Reading, sort: Option<SortSpec>, a: seq<Hit>, b: seq<Hit>)
    requires a != [] && b != [] && Sorted(e, sort, a) && Sorted(e, sort, b) && OneKind(e, sort, a)
    requires a[0] in multiset(b) && b[0] in multiset(a)
    ensures a[0] == b[0]
  {
    var i :| 0 <= i < |a| && a[i] == b[0];
    var j :| 0 <= j < |b| && b[j] == a[0];
    if i > 0 && j > 0 {
      var three := [a[0], a[i], a[0]];
      assert OneKind(e, sort, three);
      ComparatorIsTotalOrder(e, sort, a[0], a[i], a[0]);
      assert false;
    }
  }

  // ----- the cursor's own order -----

  /** A cursor compares ids as it compares values: as instants where both read as timestamps, and not at all
      where only one of them does. */
  function IdOrder(e: Reading, l: Hit, r: Hit): Ordering {
    CompareOptions(e.Key(Str(l.id)), e.Key(Str(r.id)))
  }

  function CursorByValue(e: Reading, sort: Option<SortSpec>, l: Hit, r: Hit): Ordering {
    if sort.None? then Equal
    else Directed(CompareOptions(FieldKey(e, sort.value.field, l), FieldKey(e, sort.value.field, r)), sort)
  }

  /** Value, score and id, all in the direction of the sort. */
  function CursorOrder(e: Reading, sort: Option<SortSpec>, l: Hit, r: Hit): Ordering {
    CursorByValue(e, sort, l, r)
    .Then(Directed(CompareInts(l.score, r.score), sort))
    .Then(Directed(IdOrder(e, l, r), sort))
  }

  lemma ListsFrom(e: Reading, sort: Option<SortSpec>, values: seq<Json>, cursor: seq<Json>, i: nat)
    requires i < |cursor| && i < |values|
    ensures CompareLists(e, sort, values, cursor, i)
            == CompareJson(e, sort, values[i], cursor[i]).Then(CompareLists(e, sort, values, cursor, i + 1))
  {
  }

  lemma CursorIsLexicographic(e: Reading, sort: Option<SortSpec>, l: Hit, r: Hit)
    ensures CompareLists(e, sort, SortValues(sort, l), SortValues(sort, r), 0) == CursorOrder(e, sort, l, r)
  {
    var values, cursor := SortValues(sort, l), SortValues(sort, r);
    if sort.Some? {
      ListsFrom(e, sort, values, cursor, 0);
      ListsFrom(e, sort, values, cursor, 1);
      ListsFrom(e, sort, values, cursor, 2);
      assert CompareJson(e, sort, values[0], cursor[0]) == CursorByValue(e, sort, l, r);
    } else {
      ListsFrom(e, sort, values, cursor, 0);
      ListsFrom(e, sort, values, cursor, 1);
    }
  }

  lemma OptionsOrder(a: Option<Comparable>, b: Option<Comparable>)
    ensures CompareOptions(b, a) == CompareOptions(a, b).Reverse()
  {
    if a.Some? && b.Some? {
      KeysOrder(a.value, b.value);
    }
  }

  lemma OptionsFit(a: Option<Comparable>, b: Option<Comparable>, c: Option<Comparable>)
    requires SameKind(a, b) && SameKind(b, c)
    ensures Fits(CompareOptions(a, b), CompareOptions(b, c), CompareOptions(a, c))
  {
    if a.Some? && b.Some? && c.Some? {
      KeysFit(a.value, b.value, c.value);
    }
  }

  /** Being after is transitive.  Ids that cannot be compared are never after each other. */
  lemma CursorIsTransitive(e: Reading, sort: Option<SortSpec>, hits: seq<Hit>, i: nat, j: nat, k: nat)
    requires OneKind(e, sort, hits) && i < |hits| && j < |hits| && k < |hits|
    requires CursorOrder(e, sort, hits[i], hits[j]) == Greater && CursorOrder(e, sort, hits[j], hits[k]) == Greater
    ensures CursorOrder(e, sort, hits[i], hits[k]) == Greater
  {
    var a, b, c := hits[i], hits[j], hits[k];
    var value := (x: Hit, y: Hit) => CursorByValue(e, sort, x, y);
    var score := (x: Hit, y: Hit) => Directed(CompareInts(x.score, y.score), sort);
    if sort.Some? {
      OptionsFit(FieldKey(e, sort.value.field, a), FieldKey(e, sort.value.field, b), FieldKey(e, sort.value.field, c));
    }
    assert Fits(value(a, b), value(b, c), value(a, c)) && Fits(score(a, b), score(b, c), score(a, c));
    IdsAreTransitive(e, sort, a, b, c);
    ThenIsTransitive(value(a, b), value(b, c), value(a, c), score(a, b), score(b, c), score(a, c),
                     Directed(IdOrder(e, a, b), sort), Directed(IdOrder(e, b, c), sort),
                     Directed(IdOrder(e, a, c), sort));
  }

  lemma IdsAreTransitive(e: Reading, sort: Option<SortSpec>, a: Hit, b: Hit, c: Hit)
    ensures Directed(IdOrder(e, a, b), sort) == Greater && Directed(IdOrder(e, b, c), sort) == Greater ==>
              Directed(IdOrder(e, a, c), sort) == Greater
  {
    var ka, kb, kc := e.Key(Str(a.id)), e.Key(Str(b.id)), e.Key(Str(c.id));
    if SameKind(ka, kb) && SameKind(kb, kc) {
      OptionsFit(ka, kb, kc);
    }
  }

  lemma ThenIsTransitive(v: Ordering, v': Ordering, v'': Ordering, s: Ordering, s': Ordering, s'': Ordering,
                         d: Ordering, d': Ordering, d'': Ordering)
    requires Fits(v, v', v'') && Fits(s, s', s'') && (d == d' == Greater ==> d'' == Greater)
    requires v.Then(s).Then(d) == Greater && v'.Then(s').Then(d') == Greater
    ensures v''.Then(s'').Then(d'') == Greater
  {
  }

  lemma CursorReverses(e: Reading, sort: Option<SortSpec>, l: Hit, r: Hit)
    ensures CursorOrder(e, sort, r, l) == CursorOrder(e, sort, l, r).Reverse()
  {
    OptionsOrder(e.Key(Str(l.id)), e.Key(Str(r.id)));
    if sort.Some? {
      OptionsOrder(FieldKey(e, sort.value.field, l), FieldKey(e, sort.value.field, r));
    }
  }

  // ----- neighbours -----

  /** The later of two neighbouring hits lies behind the cursor of the earlier one. */
  predicate Follows(e: Reading, sort: Option<SortSpec>, a: Hit, b: Hit) {
    var rises := a.score < b.score || (a.score == b.score && IdOrder(e, a, b) == Less);
    var falls := a.score > b.score || (a.score == b.score && IdOrder(e, a, b) == Greater);
    match sort
    case None => rises
    case Some(spec) =>
      var differ := CompareByValue(e, spec, a, b) != Equal;
      if spec.descending then
        if differ then FieldKey(e, spec.field, a).Some? && FieldKey(e, spec.field, b).Some? else falls
      else differ || rises
  }

  lemma FollowsExactlyWhen(e: Reading, sort: Option<SortSpec>, a: Hit, b: Hit)
    requires CompareHits(e, sort, a, b) == Less
    ensures CursorOrder(e, sort, b, a) == Greater <==> Follows(e, sort, a, b)
  {
    OptionsOrder(e.Key(Str(a.id)), e.Key(Str(b.id)));
    if sort.Some? {
      var ka, kb := FieldKey(e, sort.value.field, a), FieldKey(e, sort.value.field, b);
      if ka.Some? && kb.Some? {
        KeysOrder(ka.value, kb.value);
      }
    }
  }

  /** Where ids do not read as timestamps, ids decide nothing: among equal values scores must not fall, or under
      a descending sort must fall. */
  lemma PlainIdsFollowExactlyWhen(e: Reading, sort: Option<SortSpec>, a: Hit, b: Hit)
    requires CompareHits(e, sort, a, b) == Less && e.clock(a.id).None? && e.clock(b.id).None?
    ensures sort.None? ==> (Follows(e, sort, a, b) <==> a.score == b.score)
    ensures sort.Some? && CompareByValue(e, sort.value, a, b) == Equal ==>
              (Follows(e, sort, a, b) <==> if sort.value.descending then a.score > b.score else a.score <= b.score)
  {
    TextOrder(a.id, b.id);
  }

  ghost predicate NeighboursFollow(e: Reading, sort: Option<SortSpec>, hits: seq<Hit>) {
    forall i :: 0 < i < |hits| ==> Follows(e, sort, hits[i - 1], hits[i])
  }

  /** The page behind the cursor of hit `i`. */
  function Next(e: Reading, sort: Option<SortSpec>, hits: seq<Hit>, i: nat): (r: nat)
    requires i < |hits|
    ensures r <= |hits|
  {
    FirstAfter(e, sort, hits, SortValues(sort, hits[i]), 0)
  }

  ghost predicate CursorsAreExact(e: Reading, sort: Option<SortSpec>, hits: seq<Hit>) {
    forall i :: 0 <= i < |hits| ==> Next(e, sort, hits, i) == i + 1
  }

  lemma AfterIsGreater(e: Reading, sort: Option<SortSpec>, hits: seq<Hit>, i: nat, j: nat)
    requires i < |hits| && j < |hits|
    ensures IsAfter(e, sort, hits[j], SortValues(sort, hits[i])) <==> CursorOrder(e, sort, hits[j], hits[i]) == Greater
  {
    CursorIsLexicographic(e, sort, hits[j], hits[i]);
  }

  /** In a transitive relation that holds from each place to the one before it, it holds from each to all
      before it. */
  lemma {:induction false} NeighboursSuffice(n: nat, behind: (nat, nat) -> bool, i: nat, j: nat)
    requires forall k {:trigger behind(k, k - 1)} :: 0 < k < n ==> behind(k, k - 1)
    requires forall a: nat, b: nat, c: nat {:trigger behind(a, b), behind(b, c)} ::
               a < n && b < n && c < n && behind(a, b) && behind(b, c) ==> behind(a, c)
    requires i < j < n
    ensures behind(j, i)
    decreases j
  {
    assert behind(j, j - 1);
    if i < j - 1 {
      NeighboursSuffice(n, behind, i, j - 1);
    }
  }

  predicate IsBehind(e: Reading, sort: Option<SortSpec>, hits: seq<Hit>, a: nat, b: nat) {
    a < |hits| && b < |hits| && CursorOrder(e, sort, hits[a], hits[b]) == Greater
  }

  /** Where neighbours follow each other, later hits lie behind the cursors of all earlier ones. */
  lemma LaterIsGreater(e: Reading, sort: Option<SortSpec>, hits: seq<Hit>, i: nat, j: nat)
    requires Sorted(e, sort, hits) && OneKind(e, sort, hits) && NeighboursFollow(e, sort, hits)
    requires i < j < |hits|
    ensures CursorOrder(e, sort, hits[j], hits[i]) == Greater
  {
    var behind := (a: nat, b: nat) => IsBehind(e, sort, hits, a, b);
    forall k {:trigger behind(k, k - 1)} | 0 < k < |hits| ensures behind(k, k - 1) {
      FollowsExactlyWhen(e, sort, hits[k - 1], hits[k]);
    }
    forall a: nat, b: nat, c: nat | a < |hits| && b < |hits| && c < |hits| && behind(a, b) && behind(b, c)
      ensures behind(a, c)
    {
      CursorIsTransitive(e, sort, hits, a, b, c);
    }
    NeighboursSuffice(|hits|, behind, i, j);
    assert behind(j, i);
  }

  lemma FollowersAreNext(e: Reading, sort: Option<SortSpec>, hits: seq<Hit>, i: nat)
    requires Sorted(e, sort, hits) && OneKind(e, sort, hits)
    requires NeighboursFollow(e, sort, hits) && i < |hits|
    ensures Next(e, sort, hits, i) == i + 1
  {
    var r := Next(e, sort, hits, i);
    if r <= i {
      AfterIsGreater(e, sort, hits, i, r);
      CursorReverses(e, sort, hits[r], hits[i]);
      if r < i {
        LaterIsGreater(e, sort, hits, r, i);
      }
      assert false;
    } else if r > i + 1 {
      AfterIsGreater(e, sort, hits, i, i + 1);
      LaterIsGreater(e, sort, hits, i, i + 1);
      assert false;
    }
  }

  /** Every cursor finds the hit behind it exactly when all neighbours follow each other. */
  lemma CursorsExactExactlyWhen(e: Reading, sort: Option<SortSpec>, hits: seq<Hit>)
    requires Sorted(e, sort, hits) && OneKind(e, sort, hits)
    ensures CursorsAreExact(e, sort, hits) <==> NeighboursFollow(e, sort, hits)
  {
    if NeighboursFollow(e, sort, hits) {
      forall i | 0 <= i < |hits| ensures Next(e, sort, hits, i) == i + 1 {
        FollowersAreNext(e, sort, hits, i);
      }
    }
    if CursorsAreExact(e, sort, hits) {
      forall i | 0 < i < |hits| ensures Follows(e, sort, hits[i - 1], hits[i]) {
        assert Next(e, sort, hits, i - 1) == i;
        AfterIsGreater(e, sort, hits, i - 1, i);
        FollowsExactlyWhen(e, sort, hits[i - 1], hits[i]);
      }
    }
  }

  // ----- walking through the pages -----

  /** For each hit, where the page behind its cursor begins. */
  type Cursors = nat -> nat

  ghost predicate CursorsWithin(hits: seq<Hit>, next: Cursors) {
    forall i :: 0 <= i < |hits| ==> next(i) <= |hits|
  }

  function CursorsOf(e: Reading, sort: Option<SortSpec>, hits: seq<Hit>): Cursors {
    (i: nat) => if i < |hits| then Next(e, sort, hits, i) else |hits|
  }

  function PageEnd(hits: seq<Hit>, from: nat, size: nat): (to: nat)
    requires from < |hits| && size > 0
    ensures from < to <= |hits|
  {
    var step := if size < MAX_SEARCH_SIZE then size else MAX_SEARCH_SIZE;
    if from + step < |hits| then from + step else |hits|
  }

  /** What a client collects in a number of requests, each with the last hit's values as its cursor. */
  ghost function Walk(hits: seq<Hit>, next: Cursors, size: nat, from: nat, requests: nat): seq<Hit>
    requires CursorsWithin(hits, next) && size > 0 && from <= |hits|
    decreases requests
  {
    if requests == 0 || from == |hits| then []
    else
      var to := PageEnd(hits, from, size);
      hits[from..to] + Walk(hits, next, size, next(to - 1), requests - 1)
  }

  ghost predicate WalksAreExact(hits: seq<Hit>, next: Cursors)
    requires CursorsWithin(hits, next)
  {
    forall size: nat, requests: nat :: size > 0 && requests >= |hits| ==> Walk(hits, next, size, 0, requests) == hits
  }

  lemma WalkStep(hits: seq<Hit>, next: Cursors, size: nat, from: nat, requests: nat, shown: seq<Hit>)
    returns (to: nat, rest: seq<Hit>)
    requires CursorsWithin(hits, next)
    requires size > 0 && from < |hits| && requests > 0 && shown == Walk(hits, next, size, from, requests)
    ensures to == PageEnd(hits, from, size) && from < to <= |hits| && shown == hits[from..to] + rest
    ensures next(to - 1) <= |hits| && rest == Walk(hits, next, size, next(to - 1), requests - 1)
  {
    to := PageEnd(hits, from, size);
    rest := Walk(hits, next, size, next(to - 1), requests - 1);
  }

  lemma Split<T>(s: seq<T>, from: nat, to: nat)
    requires from <= to <= |s|
    ensures s[from..to] + s[to..] == s[from..]
  {
  }

  lemma {:induction false} ExactCursorsWalkAll(hits: seq<Hit>, next: Cursors, size: nat, from: nat, requests: nat,
                                               shown: seq<Hit>)
    requires CursorsWithin(hits, next) && (forall i :: 0 <= i < |hits| ==> next(i) == i + 1)
    requires size > 0 && from <= |hits| && requests >= |hits| - from
    requires shown == Walk(hits, next, size, from, requests)
    ensures shown == hits[from..]
    decreases requests
  {
    if requests > 0 && from < |hits| {
      var to, rest := WalkStep(hits, next, size, from, requests, shown);
      ExactCursorsWalkAll(hits, next, size, to, requests - 1, rest);
      Split(hits, from, to);
    }
  }

  lemma FirstThenRest(hits: seq<Hit>, from: nat, page: seq<Hit>, rest: seq<Hit>)
    requires from < |hits| && page == hits[from..from + 1] && page + rest == hits[from..]
    ensures rest == hits[from + 1..]
  {
  }

  /** What a walk shows first is the hit it starts from. */
  lemma WalkStartsAt(hits: seq<Hit>, next: Cursors, from: nat, start: nat, requests: nat, shown: seq<Hit>)
    requires CursorsWithin(hits, next) && DistinctIds(hits) && from <= |hits| && start <= |hits| && requests > 0
    requires shown == Walk(hits, next, 1, start, requests) && shown == hits[from..]
    ensures start == from
  {
    if start < |hits| {
      var to, rest := WalkStep(hits, next, 1, start, requests, shown);
      assert shown[0] == hits[start];
    }
  }

  /** A client that takes one hit at a time and sees them all has found each behind the one before. */
  lemma {:induction false} ExactWalkFindsNext(hits: seq<Hit>, next: Cursors, from: nat, requests: nat, shown: seq<Hit>)
    requires CursorsWithin(hits, next) && DistinctIds(hits) && from <= |hits| && requests > |hits| - from
    requires shown == Walk(hits, next, 1, from, requests) && shown == hits[from..]
    ensures forall i :: from <= i < |hits| ==> next(i) == i + 1
    decreases requests
  {
    if from < |hits| {
      var to, rest := WalkStep(hits, next, 1, from, requests, shown);
      FirstThenRest(hits, from, hits[from..to], rest);
      WalkStartsAt(hits, next, from + 1, next(from), requests - 1, rest);
      ExactWalkFindsNext(hits, next, from + 1, requests - 1, rest);
    }
  }

  /** Whatever the cursors do: all walks show everything exactly when each cursor finds the hit behind its own. */
  lemma WalksExactExactlyWhen(hits: seq<Hit>, next: Cursors)
    requires CursorsWithin(hits, next) && DistinctIds(hits)
    ensures WalksAreExact(hits, next) <==> forall i :: 0 <= i < |hits| ==> next(i) == i + 1
  {
    if forall i :: 0 <= i < |hits| ==> next(i) == i + 1 {
      forall size: nat, requests: nat | size > 0 && requests >= |hits|
        ensures Walk(hits, next, size, 0, requests) == hits
      {
        ExactCursorsWalkAll(hits, next, size, 0, requests, Walk(hits, next, size, 0, requests));
      }
    }
    if WalksAreExact(hits, next) {
      ExactWalkFindsNext(hits, next, 0, |hits| + 1, Walk(hits, next, 1, 0, |hits| + 1));
    }
  }

  /** For every page size the pages show all hits once and in order, exactly when neighbours follow each
      other: ascending, equal values come with scores, and equal scores with ids, that rise; descending, no hit
      lacks a value next to one that has it, and equal values come with scores and ids that fall; without a
      sort, all scores are equal and ids rise. */
  lemma PagingIsExactExactlyWhen(e: Reading, sort: Option<SortSpec>, hits: seq<Hit>)
    requires Sorted(e, sort, hits) && OneKind(e, sort, hits) && DistinctIds(hits)
    ensures CursorsWithin(hits, CursorsOf(e, sort, hits))
    ensures WalksAreExact(hits, CursorsOf(e, sort, hits)) <==> NeighboursFollow(e, sort, hits)
  {
    CursorsExactExactlyWhen(e, sort, hits);
    CursorsAgree(e, sort, hits);
    WalksExactExactlyWhen(hits, CursorsOf(e, sort, hits));
  }

  lemma CursorsAgree(e: Reading, sort: Option<SortSpec>, hits: seq<Hit>)
    ensures CursorsWithin(hits, CursorsOf(e, sort, hits))
    ensures CursorsAreExact(e, sort, hits) <==> forall i :: 0 <= i < |hits| ==> CursorsOf(e, sort, hits)(i) == i + 1
  {
    assert forall i :: 0 <= i < |hits| ==> CursorsOf(e, sort, hits)(i) == Next(e, sort, hits, i);
  }

  /** Ids that read as timestamps compare as equal to ids that do not, and such a hit is skipped. */
  lemma TimestampIdIsSkipped(e: Reading, spec: SortSpec, a: Hit, b: Hit)
    requires Sorted(e, Some(spec), [a, b]) && !spec.descending
    requires a.source == b.source && a.score == b.score
    requires e.clock(a.id).Some? && e.clock(b.id).None?
    ensures !Follows(e, Some(spec), a, b) && Next(e, Some(spec), [a, b], 0) == 2
  {
    var sort := Some(spec);
    var hits := [a, b];
    assert CompareHits(e, sort, hits[0], hits[1]) == Less;
    var cursor := SortValues(sort, a);
    var key := FieldKey(e, spec.field, a);
    OptionsOrder(key, key);
    assert CompareJson(e, sort, cursor[0], cursor[0]) == Equal;
    NotAfter(e, sort, a, cursor);
    NotAfter(e, sort, b, cursor);
  }

  lemma NotAfter(e: Reading, sort: Option<SortSpec>, h: Hit, cursor: seq<Json>)
    requires |cursor| == |SortValues(sort, h)|
    requires forall i :: 0 <= i < |cursor| ==> CompareJson(e, sort, SortValues(sort, h)[i], cursor[i]) == Equal
    ensures !IsAfter(e, sort, h, cursor)
  {
    var values := SortValues(sort, h);
    ListsFrom(e, sort, values, cursor, 0);
    ListsFrom(e, sort, values, cursor, 1);
    if sort.Some? {
      ListsFrom(e, sort, values, cursor, 2);
    }
  }

  // ----- documents of one index -----

  /** Documents that conform to the same mappings have one kind of value in every field. */
  lemma ConformingHitsAreOneKind(e: Reading, mappings: FieldMappings, sort: Option<SortSpec>, hits: seq<Hit>)
    requires forall i :: 0 <= i < |hits| ==> Conforms(e.clock, mappings, hits[i].source)
    ensures OneKind(e, sort, hits)
  {
    if sort.Some? {
      forall i, j | 0 <= i < |hits| && 0 <= j < |hits|
        ensures SameKind(FieldKey(e, sort.value.field, hits[i]), FieldKey(e, sort.value.field, hits[j]))
      {
        KeyHasMappedKind(e, mappings, sort.value.field, hits[i]);
        KeyHasMappedKind(e, mappings, sort.value.field, hits[j]);
      }
    }
  }

  predicate KindOf(key: Comparable, t: FieldType) {
    match t
    case Keyword => key.TextKey?
    case Timestamp => key.TimeKey?
    case BooleanType => key.BooleanKey?
    case ObjectType => false
    case _ => key.NumberKey?
  }

  lemma KeyHasMappedKind(e: Reading, mappings: FieldMappings, field: Text, hit: Hit)
    requires Conforms(e.clock, mappings, hit.source)
    ensures var key := FieldKey(e, field, hit);
            key.Some? ==> field in mappings && KindOf(key.value, mappings[field])
  {
    GetFinds(hit.source.fields, field);
    if FieldKey(e, field, hit).Some? {
      var value := Field(hit.source, field).value;
      var i :| 0 <= i < |hit.source.fields| && hit.source.fields[i] == (field, value);
      assert FieldConforms(e.clock, mappings, hit.source.fields[i]);
    }
  }

  lemma ThreeFoundAreOneKind(e: Reading, settings: I.Settings, mappings: FieldMappings, evs: seq<R.Event>, s: I.State,
                             sort: Option<SortSpec>, a: Hit, b: Hit, c: Hit)
    requires settings.clock == e.clock && s == R.Run(settings, I.NewIndex(mappings), evs)
    requires T.WellFormedRun(settings, I.NewIndex(mappings), evs)
    requires FoundIn(s.memory.searchable, a) && FoundIn(s.memory.searchable, b) && FoundIn(s.memory.searchable, c)
    ensures OneKind(e, sort, [a, b, c])
  {
    T.RunConforms(settings, mappings, evs);
    FoundHitsAreOneKind(e, s.memory.mappings, s.memory.searchable, sort, [a, b, c]);
  }

  /** In every state an index can reach, the hits of a search are totally ordered by any sort. */
  lemma SearchHitsAreOrdered(e: Reading, settings: I.Settings, mappings: FieldMappings, evs: seq<R.Event>, s: I.State,
                             sort: Option<SortSpec>, a: Hit, b: Hit, c: Hit)
    requires settings.clock == e.clock && s == R.Run(settings, I.NewIndex(mappings), evs)
    requires T.WellFormedRun(settings, I.NewIndex(mappings), evs)
    requires FoundIn(s.memory.searchable, a) && FoundIn(s.memory.searchable, b) && FoundIn(s.memory.searchable, c)
    ensures CompareHits(e, sort, b, a) == CompareHits(e, sort, a, b).Reverse()
    ensures CompareHits(e, sort, a, b) == Equal ==> a.id == b.id
    ensures Fits(CompareHits(e, sort, a, b), CompareHits(e, sort, b, c), CompareHits(e, sort, a, c))
  {
    ThreeFoundAreOneKind(e, settings, mappings, evs, s, sort, a, b, c);
    ComparatorIsTotalOrder(e, sort, a, b, c);
  }

  predicate FoundIn(docs: I.Docs, hit: Hit) {
    hit.id in docs && docs[hit.id] == hit.source
  }

  lemma FoundHitsAreOneKind(e: Reading, mappings: FieldMappings, docs: I.Docs, sort: Option<SortSpec>, hits: seq<Hit>)
    requires T.DocsConform(e.clock, mappings, docs)
    requires forall i :: 0 <= i < |hits| ==> FoundIn(docs, hits[i])
    ensures OneKind(e, sort, hits)
  {
    forall i | 0 <= i < |hits| ensures Conforms(e.clock, mappings, hits[i].source) {
      assert Conforms(e.clock, mappings, docs[hits[i].id]);
    }
    ConformingHitsAreOneKind(e, mappings, sort, hits);
  }
}
