// Boolean queries: how a document is matched, how the query-string compiler combines queries, and exactly
// which expressions it compiles without changing their meaning.
module Queries {
  import opened Values
  import Levenshtein

  /** What a term is compared with: a word, or the JSON value the word reads as. */
  datatype Operand =
    | Word(text: string)
    | Literal(json: Json)

  /** The query that a single clause builds.  Two clauses that build the same query are one leaf. */
  datatype Leaf =
    | Term(field: string, operand: Operand, fuzziness: Option<Levenshtein.Fuzziness>)
    | Range(field: string, gte: Option<Json>, gt: Option<Json>, lte: Option<Json>, lt: Option<Json>)
    | Wildcard(field: string, pattern: string)

  datatype Query =
    | Single(leaf: Leaf)
    | Bool(must: seq<Query>, should: seq<Query>, filter: seq<Query>, mustNot: seq<Query>,
           minimumShouldMatch: Option<nat>)

  /** A document, as far as matching goes: the single queries that match it. */
  type World = set<Leaf>

  // ----- matching -----

  predicate Matches(q: Query, w: World)
    decreases q, 1
  {
    match q
    case Single(leaf) => leaf in w
    case Bool(must, should, filter, mustNot, minimum) =>
      var needed :=
        if should == [] then 0
        else if must == [] && filter == [] then (if minimum.Some? then minimum.value else 1)
        else (if minimum.Some? then minimum.value else 0);
      && Count(must, w) == |must|
      && Count(filter, w) == |filter|
      && Count(mustNot, w) == 0
      && Count(should, w) >= needed
  }

  /** How many of the queries match. */
  function Count(qs: seq<Query>, w: World): (n: nat)
    ensures n <= |qs|
    decreases qs, 0
  {
    if qs == [] then 0 else (if Matches(qs[0], w) then 1 else 0) + Count(qs[1..], w)
  }

  predicate All(qs: seq<Query>, w: World) {
    Count(qs, w) == |qs|
  }

  predicate Any(qs: seq<Query>, w: World) {
    Count(qs, w) > 0
  }

  // ----- what matching means -----

  /** Where in the list a query stands that matches. */
  ghost function Places(qs: seq<Query>, w: World): set<nat> {
    set i: nat | i < |qs| && Matches(qs[i], w)
  }

  lemma {:induction false} CountIsPlaces(qs: seq<Query>, w: World)
    ensures Count(qs, w) == |Places(qs, w)|
  {
    if qs == [] {
      assert Places(qs, w) == {};
    } else {
      CountIsPlaces(qs[1..], w);
      PlacesBehindFirst(qs, w);
    }
  }

  lemma PlacesBehindFirst(qs: seq<Query>, w: World)
    requires qs != []
    ensures |Places(qs, w)| == |Places(qs[1..], w)| + if Matches(qs[0], w) then 1 else 0
  {
    var later := set i | i in Places(qs[1..], w) :: i + 1;
    ShiftKeepsSize(Places(qs[1..], w), later);
    forall i: nat ensures i in later <==> i in Places(qs, w) && i != 0 {
      if i in Places(qs, w) && i != 0 {
        assert qs[1..][i - 1] == qs[i];
        assert i - 1 in Places(qs[1..], w);
      }
    }
    assert Places(qs, w) == later + if Matches(qs[0], w) then {0} else {};
  }

  lemma {:induction false} ShiftKeepsSize(s: set<nat>, shifted: set<nat>)
    requires shifted == set i | i in s :: i + 1
    ensures |shifted| == |s|
    decreases s
  {
    if s != {} {
      var x :| x in s;
      var rest := set i | i in s - {x} :: i + 1;
      forall y ensures y in shifted <==> y in rest || y == x + 1 {
        assert y in shifted ==> y - 1 in s;
        assert y in rest ==> y - 1 in s;
        assert x + 1 in shifted;
        assert y in shifted && y != x + 1 ==> y - 1 in s - {x};
      }
      assert shifted == rest + {x + 1};
      ShiftKeepsSize(s - {x}, rest);
    }
  }

  lemma FullWhenAll(qs: seq<Query>, w: World)
    ensures Count(qs, w) == |qs| <==> forall i :: 0 <= i < |qs| ==> Matches(qs[i], w)
    ensures Count(qs, w) == 0 <==> forall i :: 0 <= i < |qs| ==> !Matches(qs[i], w)
    ensures Count(qs, w) > 0 <==> exists i :: 0 <= i < |qs| && Matches(qs[i], w)
  {
    if qs != [] {
      FullWhenAll(qs[1..], w);
      assert forall i :: 0 < i < |qs| ==> qs[i] == qs[1..][i - 1];
      assert forall i :: 0 <= i < |qs| - 1 ==> qs[1..][i] == qs[i + 1];
    }
  }

  /** Each query of `must` and of `filter` has to match and none of `must_not`; of `should`, where it holds any,
      as many as the minimum says, or without one at least one if there is nothing else to match. */
  lemma MatchesExactlyWhen(must: seq<Query>, should: seq<Query>, filter: seq<Query>, mustNot: seq<Query>,
                           minimum: Option<nat>, w: World)
    ensures Matches(Bool(must, should, filter, mustNot, minimum), w) <==>
              && (forall i :: 0 <= i < |must| ==> Matches(must[i], w))
              && (forall i :: 0 <= i < |filter| ==> Matches(filter[i], w))
              && (forall i :: 0 <= i < |mustNot| ==> !Matches(mustNot[i], w))
              && (should != [] && minimum.Some? ==> |Places(should, w)| >= minimum.value)
              && (should != [] && minimum.None? && must == [] && filter == [] ==>
                    exists i :: 0 <= i < |should| && Matches(should[i], w))
  {
    FullWhenAll(must, w);
    FullWhenAll(filter, w);
    FullWhenAll(mustNot, w);
    FullWhenAll(should, w);
    CountIsPlaces(should, w);
  }

  lemma {:induction false} CountConcat(a: seq<Query>, b: seq<Query>, w: World)
    ensures Count(a + b, w) == Count(a, w) + Count(b, w)
  {
    if a == [] {
      assert a + b == b;
    } else {
      CountConcat(a[1..], b, w);
      assert (a + b)[1..] == a[1..] + b;
    }
  }

  lemma CountOne(q: Query, w: World)
    ensures Count([q], w) == if Matches(q, w) then 1 else 0
  {
    assert [q][1..] == [];
    assert Count([q][1..], w) == 0;
  }

  // ----- the compiler's combinators -----

  /** What one side of an AND puts into `must`. */
  function MustUnit(q: Query): seq<Query> {
    match q
    case Bool(must, should, filter, _, _) =>
      if must != [] || filter != [] then [Bool(must, should, filter, [], None)]
      else if should != [] then [Bool([], should, [], [], None)]
      else []
    case Single(_) => [q]
  }

  function MustNotOf(q: Query): seq<Query> {
    if q.Bool? then q.mustNot else []
  }

  function MakeBoolMust(left: Query, right: Query): Query {
    Bool(MustUnit(left) + MustUnit(right), [], [], MustNotOf(left) + MustNotOf(right), None)
  }

  function ShouldUnit(q: Query): seq<Query> {
    if q.Bool? then q.should else [q]
  }

  function MustOf(q: Query): seq<Query> {
    if q.Bool? then q.must else []
  }

  function MakeBoolShould(left: Query, right: Query): Query {
    Bool(MustOf(left) + MustOf(right), ShouldUnit(left) + ShouldUnit(right), [], [], None)
  }

  function MakeBoolMustNotAnd(left: Query, right: Query): Query {
    match left
    case Bool(must, should, filter, _, _) => Bool(must, should, filter, [right], None)
    case Single(_) => Bool([left], [], [], [right], None)
  }

  /** The query without its `must_not` part. */
  predicate Core(q: Query, w: World) {
    match q
    case Single(leaf) => leaf in w
    case Bool(must, should, filter, _, minimum) => Matches(Bool(must, should, filter, [], minimum), w)
  }

  lemma MatchesIsCoreWithoutNot(q: Query, w: World)
    ensures Matches(q, w) <==> Core(q, w) && !Any(MustNotOf(q), w)
  {
  }

  /** AND is exact for every two queries that set no minimum. */
  lemma MustIsConjunction(left: Query, right: Query, w: World)
    requires left.Bool? ==> left.minimumShouldMatch.None?
    requires right.Bool? ==> right.minimumShouldMatch.None?
    ensures Matches(MakeBoolMust(left, right), w) <==> Matches(left, w) && Matches(right, w)
    ensures Core(MakeBoolMust(left, right), w) <==> Core(left, w) && Core(right, w)
  {
    MustUnitIsCore(left, w);
    MustUnitIsCore(right, w);
    CountConcat(MustUnit(left), MustUnit(right), w);
    CountConcat(MustNotOf(left), MustNotOf(right), w);
  }

  lemma MustUnitIsCore(q: Query, w: World)
    requires q.Bool? ==> q.minimumShouldMatch.None?
    ensures All(MustUnit(q), w) <==> Core(q, w)
  {
    if MustUnit(q) != [] {
      CountOne(MustUnit(q)[0], w);
    }
  }

  // ----- what the parser produces -----

  /** Parser results set no minimum and no filter, and have something to match. */
  predicate Produced(q: Query) {
    q.Bool? ==> q.filter == [] && q.minimumShouldMatch == None && (q.must != [] || q.should != [])
  }

  lemma CombinatorsProduce(left: Query, right: Query)
    requires Produced(left) && Produced(right)
    ensures Produced(MakeBoolMust(left, right))
    ensures Produced(MakeBoolShould(left, right))
    ensures Produced(MakeBoolMustNotAnd(left, right))
    ensures MustOf(MakeBoolMust(left, right)) != []
  {
  }

  /** With a `must` part, `should` decides nothing; without one, one of `should` has to match. */
  lemma CoreOfProduced(q: Query, w: World)
    requires Produced(q)
    ensures Core(q, w) <==> if MustOf(q) != [] then All(MustOf(q), w) else Any(ShouldUnit(q), w)
  {
    if q.Single? {
      CountOne(q, w);
    }
  }

  /** OR adds up `must` and `should` parts and drops the `must_not` parts. */
  lemma ShouldParts(left: Query, right: Query, w: World)
    requires Produced(left) && Produced(right)
    ensures var q := MakeBoolShould(left, right);
            && (MustOf(q) == [] <==> MustOf(left) == [] && MustOf(right) == [])
            && (All(MustOf(q), w) <==> All(MustOf(left), w) && All(MustOf(right), w))
            && (Any(ShouldUnit(q), w) <==> Any(ShouldUnit(left), w) || Any(ShouldUnit(right), w))
            && (Matches(q, w) <==> Core(q, w))
  {
    CountConcat(MustOf(left), MustOf(right), w);
    CountConcat(ShouldUnit(left), ShouldUnit(right), w);
  }

  /** NOT keeps the left side's parts and replaces its `must_not` part. */
  lemma MustNotAndParts(left: Query, right: Query, w: World)
    requires Produced(left)
    ensures var q := MakeBoolMustNotAnd(left, right);
            && (Core(q, w) <==> Core(left, w))
            && (Matches(q, w) <==> Core(left, w) && !Matches(right, w))
  {
    CountOne(right, w);
    CountOne(left, w);
  }

  // ----- expressions -----

  datatype Tree<T> =
    | Atom(leaf: T)
    | And(left: Tree<T>, right: Tree<T>)
    | Or(left: Tree<T>, right: Tree<T>)
    | AndNot(left: Tree<T>, right: Tree<T>)

  type Expr = Tree<Leaf>

  function Compile(e: Expr): (q: Query)
    ensures Produced(q)
  {
    match e
    case Atom(leaf) => Single(leaf)
    case And(l, r) => MakeBoolMust(Compile(l), Compile(r))
    case Or(l, r) => MakeBoolShould(Compile(l), Compile(r))
    case AndNot(l, r) => MakeBoolMustNotAnd(Compile(l), Compile(r))
  }

  /** What the expression says of a document. */
  predicate Meaning(e: Expr, w: World) {
    match e
    case Atom(leaf) => leaf in w
    case And(l, r) => Meaning(l, w) && Meaning(r, w)
    case Or(l, r) => Meaning(l, w) || Meaning(r, w)
    case AndNot(l, r) => Meaning(l, w) && !Meaning(r, w)
  }

  /** A NOT that stands in the conjunction at the top. */
  predicate TopNot(e: Expr) {
    match e
    case Atom(_) => false
    case Or(_, _) => false
    case And(l, r) => TopNot(l) || TopNot(r)
    case AndNot(_, _) => true
  }

  predicate IsDisjunction(e: Expr) {
    e.Atom? || e.Or?
  }

  /** OR joins clauses and other ORs only, and nothing left of a NOT contains another NOT in its conjunction. */
  predicate Faithful(e: Expr) {
    match e
    case Atom(_) => true
    case And(l, r) => Faithful(l) && Faithful(r)
    case Or(l, r) => Faithful(l) && Faithful(r) && IsDisjunction(l) && IsDisjunction(r)
    case AndNot(l, r) => Faithful(l) && Faithful(r) && !TopNot(l)
  }

  lemma {:induction false} TopNotIsMustNot(e: Expr)
    ensures TopNot(e) <==> MustNotOf(Compile(e)) != []
  {
    match e
    case Atom(_) =>
    case And(l, r) =>
      TopNotIsMustNot(l);
      TopNotIsMustNot(r);
    case Or(_, _) =>
    case AndNot(_, _) =>
  }

  /** A faithful disjunction compiles to `should` clauses only. */
  lemma {:induction false} DisjunctionHasNoMust(e: Expr)
    requires Faithful(e) && IsDisjunction(e)
    ensures MustOf(Compile(e)) == [] && MustNotOf(Compile(e)) == []
  {
    if e.Or? {
      DisjunctionHasNoMust(e.left);
      DisjunctionHasNoMust(e.right);
    }
  }

  /** Faithful expressions keep their meaning, for every document. */
  lemma {:induction false} FaithfulKeepsMeaning(e: Expr, w: World)
    requires Faithful(e)
    ensures Matches(Compile(e), w) <==> Meaning(e, w)
  {
    match e
    case Atom(_) =>
    case And(l, r) =>
      FaithfulKeepsMeaning(l, w);
      FaithfulKeepsMeaning(r, w);
      MustIsConjunction(Compile(l), Compile(r), w);
    case Or(l, r) =>
      FaithfulKeepsMeaning(l, w);
      FaithfulKeepsMeaning(r, w);
      DisjunctionHasNoMust(l);
      DisjunctionHasNoMust(r);
      ShouldParts(Compile(l), Compile(r), w);
      CorePieces(Compile(l), Compile(r), w);
    case AndNot(l, r) =>
      FaithfulKeepsMeaning(l, w);
      FaithfulKeepsMeaning(r, w);
      TopNotIsMustNot(l);
      MatchesIsCoreWithoutNot(Compile(l), w);
      MustNotAndParts(Compile(l), Compile(r), w);
  }

  lemma CorePieces(left: Query, right: Query, w: World)
    requires Produced(left) && Produced(right)
    ensures Core(left, w) <==> if MustOf(left) != [] then All(MustOf(left), w) else Any(ShouldUnit(left), w)
    ensures Core(right, w) <==> if MustOf(right) != [] then All(MustOf(right), w) else Any(ShouldUnit(right), w)
    ensures var q := MakeBoolShould(left, right);
            Core(q, w) <==> if MustOf(q) != [] then All(MustOf(q), w) else Any(ShouldUnit(q), w)
    ensures Matches(left, w) <==> Core(left, w) && !Any(MustNotOf(left), w)
    ensures Matches(right, w) <==> Core(right, w) && !Any(MustNotOf(right), w)
  {
    CombinatorsProduce(left, right);
    CoreOfProduced(left, w);
    CoreOfProduced(right, w);
    CoreOfProduced(MakeBoolShould(left, right), w);
    MatchesIsCoreWithoutNot(left, w);
    MatchesIsCoreWithoutNot(right, w);
  }

  // ----- only faithful expressions keep their meaning -----

  function Leaves(e: Expr): set<Leaf> {
    match e
    case Atom(leaf) => {leaf}
    case And(l, r) => Leaves(l) + Leaves(r)
    case Or(l, r) => Leaves(l) + Leaves(r)
    case AndNot(l, r) => Leaves(l) + Leaves(r)
  }

  /** No two clauses build the same query. */
  predicate ReadOnce(e: Expr) {
    match e
    case Atom(_) => true
    case And(l, r) => ReadOnce(l) && ReadOnce(r) && Leaves(l) !! Leaves(r)
    case Or(l, r) => ReadOnce(l) && ReadOnce(r) && Leaves(l) !! Leaves(r)
    case AndNot(l, r) => ReadOnce(l) && ReadOnce(r) && Leaves(l) !! Leaves(r)
  }

  /** The queries of an expression's clauses, as they are written. */
  function Clauses(e: Expr): seq<Leaf> {
    match e
    case Atom(leaf) => [leaf]
    case And(l, r) => Clauses(l) + Clauses(r)
    case Or(l, r) => Clauses(l) + Clauses(r)
    case AndNot(l, r) => Clauses(l) + Clauses(r)
  }

  predicate NoTwins(s: seq<Leaf>) {
    forall i, j :: 0 <= i < j < |s| ==> s[i] != s[j]
  }

  lemma NoTwinsConcat(a: seq<Leaf>, b: seq<Leaf>)
    ensures NoTwins(a + b) <==> NoTwins(a) && NoTwins(b) && forall x :: x in a ==> x !in b
  {
    var c := a + b;
    assert forall i :: 0 <= i < |a| ==> c[i] == a[i];
    assert forall j :: 0 <= j < |b| ==> c[|a| + j] == b[j];
    if NoTwins(c) {
      forall i, j | 0 <= i < j < |b| ensures b[i] != b[j] {
        assert c[|a| + i] != c[|a| + j];
      }
      forall i, j | 0 <= i < |a| && 0 <= j < |b| ensures a[i] != b[j] {
        assert c[i] != c[|a| + j];
      }
    } else {
      var i, j :| 0 <= i < j < |c| && c[i] == c[j];
      if i < |a| <= j {
        assert c[i] in a && c[j] == b[j - |a|];
      } else if |a| <= i {
        assert b[i - |a|] == b[j - |a|];
      }
    }
  }

  /** An expression is read-once exactly when no query stands in it twice. */
  lemma {:induction false} ReadOnceExactlyWhen(e: Expr)
    ensures forall x :: x in Leaves(e) <==> x in Clauses(e)
    ensures ReadOnce(e) <==> NoTwins(Clauses(e))
  {
    if !e.Atom? {
      ReadOnceExactlyWhen(e.left);
      ReadOnceExactlyWhen(e.right);
      NoTwinsConcat(Clauses(e.left), Clauses(e.right));
    }
  }

  /** Two documents that agree on an expression's clauses are the same to it and to its compiled parts. */
  ghost predicate Alike(e: Expr, v: World, w: World) {
    var q := Compile(e);
    && (Meaning(e, v) <==> Meaning(e, w))
    && (All(MustOf(q), v) <==> All(MustOf(q), w))
    && (Any(ShouldUnit(q), v) <==> Any(ShouldUnit(q), w))
    && (Any(MustNotOf(q), v) <==> Any(MustNotOf(q), w))
    && (Core(q, v) <==> Core(q, w))
    && (Matches(q, v) <==> Matches(q, w))
  }

  lemma {:induction false} OnlyLeavesMatter(e: Expr, v: World, w: World)
    requires v * Leaves(e) == w * Leaves(e)
    ensures Alike(e, v, w)
    decreases e, 1
  {
    match e
    case Atom(leaf) =>
      assert leaf in v <==> leaf in v * Leaves(e);
      assert leaf in w <==> leaf in w * Leaves(e);
      CountOne(Single(leaf), v);
      CountOne(Single(leaf), w);
    case And(l, r) =>
      AlikeParts(e, l, r, v, w);
      AndParts(l, r, v);
      AndParts(l, r, w);
    case Or(l, r) =>
      AlikeParts(e, l, r, v, w);
      OrParts(l, r, v);
      OrParts(l, r, w);
    case AndNot(l, r) =>
      AlikeParts(e, l, r, v, w);
      AndNotParts(l, r, v);
      AndNotParts(l, r, w);
  }

  lemma AlikeParts(e: Expr, l: Expr, r: Expr, v: World, w: World)
    requires v * Leaves(e) == w * Leaves(e) && Leaves(e) == Leaves(l) + Leaves(r) && l < e && r < e
    ensures Alike(l, v, w) && Alike(r, v, w)
    decreases e, 0
  {
    assert v * Leaves(l) == (v * Leaves(e)) * Leaves(l);
    assert w * Leaves(l) == (w * Leaves(e)) * Leaves(l);
    assert v * Leaves(r) == (v * Leaves(e)) * Leaves(r);
    assert w * Leaves(r) == (w * Leaves(e)) * Leaves(r);
    OnlyLeavesMatter(l, v, w);
    OnlyLeavesMatter(r, v, w);
  }

  /** The compiled parts of a conjunction, from those of its sides. */
  lemma AndParts(l: Expr, r: Expr, w: World)
    ensures var q, left, right := Compile(And(l, r)), Compile(l), Compile(r);
            && MustOf(q) != []
            && (All(MustOf(q), w) <==> Core(left, w) && Core(right, w))
            && (Core(q, w) <==> Core(left, w) && Core(right, w))
            && (Any(MustNotOf(q), w) <==> Any(MustNotOf(left), w) || Any(MustNotOf(right), w))
            && (Matches(q, w) <==> Matches(left, w) && Matches(right, w))
            && !Any(ShouldUnit(q), w)
  {
    var q, left, right := Compile(And(l, r)), Compile(l), Compile(r);
    MustIsConjunction(left, right, w);
    CombinatorsProduce(left, right);
    CoreOfProduced(q, w);
    CountConcat(MustNotOf(left), MustNotOf(right), w);
  }

  lemma OrParts(l: Expr, r: Expr, w: World)
    ensures var q, left, right := Compile(Or(l, r)), Compile(l), Compile(r);
            && (MustOf(q) == [] <==> MustOf(left) == [] && MustOf(right) == [])
            && (All(MustOf(q), w) <==> All(MustOf(left), w) && All(MustOf(right), w))
            && (Any(ShouldUnit(q), w) <==> Any(ShouldUnit(left), w) || Any(ShouldUnit(right), w))
            && (Core(q, w) <==> if MustOf(q) != [] then All(MustOf(q), w) else Any(ShouldUnit(q), w))
            && (Matches(q, w) <==> Core(q, w))
            && !Any(MustNotOf(q), w)
  {
    ShouldParts(Compile(l), Compile(r), w);
    CorePieces(Compile(l), Compile(r), w);
  }

  lemma AndNotParts(l: Expr, r: Expr, w: World)
    ensures var q, left, right := Compile(AndNot(l, r)), Compile(l), Compile(r);
            && (Core(q, w) <==> Core(left, w))
            && (Matches(q, w) <==> Core(left, w) && !Matches(right, w))
            && (Any(MustNotOf(q), w) <==> Matches(right, w))
            && (All(MustOf(q), w) <==> if l.Atom? then l.leaf in w else All(MustOf(left), w))
            && (Any(ShouldUnit(q), w) <==> if l.Atom? then false else Any(ShouldUnit(left), w))
  {
    MustNotAndParts(Compile(l), Compile(r), w);
    CountOne(Compile(r), w);
    CountOne(Compile(l), w);
  }

  /** A document that is like `v` for the left expression and like `w` for the right one. */
  lemma Combine(l: Expr, r: Expr, v: World, w: World) returns (u: World)
    requires Leaves(l) !! Leaves(r)
    ensures Alike(l, v, u) && Alike(r, w, u)
  {
    u := v * Leaves(l) + (w - Leaves(l));
    assert v * Leaves(l) == u * Leaves(l);
    assert w * Leaves(r) == u * Leaves(r);
    OnlyLeavesMatter(l, v, u);
    OnlyLeavesMatter(r, w, u);
  }

  /** Some document satisfies an expression and its compiled query. */
  lemma {:induction false} Satisfy(e: Expr) returns (w: World)
    requires ReadOnce(e)
    ensures Meaning(e, w) && Matches(Compile(e), w) && Core(Compile(e), w)
  {
    match e
    case Atom(leaf) => w := {leaf};
    case And(l, r) =>
      var a := Satisfy(l);
      var b := Satisfy(r);
      w := Combine(l, r, a, b);
      AndParts(l, r, w);
    case Or(l, r) =>
      var a := Satisfy(l);
      var b := Satisfy(r);
      w := Combine(l, r, a, b);
      OrParts(l, r, w);
      CorePieces(Compile(l), Compile(r), w);
    case AndNot(l, r) =>
      var a := Satisfy(l);
      var b := Refute(r);
      w := Combine(l, r, a, b);
      AndNotParts(l, r, w);
      MatchesIsCoreWithoutNot(Compile(r), w);
  }

  /** Some document fails an expression and the positive part of its compiled query. */
  lemma {:induction false} Refute(e: Expr) returns (w: World)
    requires ReadOnce(e)
    ensures !Meaning(e, w) && !Core(Compile(e), w) && !Matches(Compile(e), w)
  {
    match e
    case Atom(leaf) => w := {};
    case And(l, r) =>
      var a := Refute(l);
      w := a;
      AndParts(l, r, w);
    case Or(l, r) =>
      var a := Refute(l);
      var b := Refute(r);
      w := Combine(l, r, a, b);
      OrParts(l, r, w);
      CorePieces(Compile(l), Compile(r), w);
    case AndNot(l, r) =>
      w := Refute(l);
      AndNotParts(l, r, w);
  }

  /** Where a NOT stands in the conjunction at the top, some document meets the positive part only. */
  lemma {:induction false} MeetPositivePart(e: Expr) returns (w: World)
    requires ReadOnce(e) && TopNot(e)
    ensures Core(Compile(e), w) && !Meaning(e, w)
  {
    if e.AndNot? {
      var a := Satisfy(e.left);
      var b := Satisfy(e.right);
      w := Combine(e.left, e.right, a, b);
      AndNotParts(e.left, e.right, w);
    } else if TopNot(e.left) {
      var a := MeetPositivePart(e.left);
      var b := Satisfy(e.right);
      w := Combine(e.left, e.right, a, b);
      AndParts(e.left, e.right, w);
    } else {
      var a := Satisfy(e.left);
      var b := MeetPositivePart(e.right);
      w := Combine(e.left, e.right, a, b);
      AndParts(e.left, e.right, w);
    }
  }

  /** A side of an OR that compiles to a `must` part makes the query miss documents of the other side. */
  lemma OrMisses(l: Expr, r: Expr) returns (w: World)
    requires ReadOnce(Or(l, r)) && (MustOf(Compile(l)) != [] || MustOf(Compile(r)) != [])
    ensures Meaning(Or(l, r), w) && !Matches(Compile(Or(l, r)), w)
  {
    if MustOf(Compile(l)) != [] {
      var a := Refute(l);
      var b := Satisfy(r);
      w := Combine(l, r, a, b);
    } else {
      var a := Satisfy(l);
      var b := Refute(r);
      w := Combine(l, r, a, b);
    }
    OrParts(l, r, w);
    CorePieces(Compile(l), Compile(r), w);
  }

  /** A NOT at the top of a side of an OR is dropped, and the query finds too much. */
  lemma OrFindsTooMuch(l: Expr, r: Expr) returns (w: World)
    requires ReadOnce(Or(l, r)) && (TopNot(l) || TopNot(r))
    requires MustOf(Compile(l)) == [] && MustOf(Compile(r)) == []
    ensures !Meaning(Or(l, r), w) && Matches(Compile(Or(l, r)), w)
  {
    if TopNot(l) {
      var a := MeetPositivePart(l);
      var b := Refute(r);
      w := Combine(l, r, a, b);
    } else {
      var a := Refute(l);
      var b := MeetPositivePart(r);
      w := Combine(l, r, a, b);
    }
    OrParts(l, r, w);
    CorePieces(Compile(l), Compile(r), w);
  }

  /** Every other expression whose clauses build distinct queries has a document that tells query and meaning apart. */
  lemma {:induction false} UnfaithfulDiffers(e: Expr) returns (w: World)
    requires ReadOnce(e) && !Faithful(e)
    ensures Matches(Compile(e), w) != Meaning(e, w)
    decreases e, 1
  {
    match e
    case And(l, r) => w := UnfaithfulAnd(l, r);
    case Or(l, r) => w := UnfaithfulOr(l, r);
    case AndNot(l, r) => w := UnfaithfulAndNot(l, r);
  }

  lemma {:induction false} UnfaithfulAnd(l: Expr, r: Expr) returns (w: World)
    requires ReadOnce(And(l, r)) && !Faithful(And(l, r))
    ensures Matches(Compile(And(l, r)), w) != Meaning(And(l, r), w)
    decreases And(l, r), 0
  {
    if !Faithful(l) {
      var a := UnfaithfulDiffers(l);
      var b := Satisfy(r);
      w := Combine(l, r, a, b);
    } else {
      var a := Satisfy(l);
      var b := UnfaithfulDiffers(r);
      w := Combine(l, r, a, b);
    }
    AndParts(l, r, w);
  }

  lemma {:induction false} UnfaithfulOr(l: Expr, r: Expr) returns (w: World)
    requires ReadOnce(Or(l, r)) && !Faithful(Or(l, r))
    ensures Matches(Compile(Or(l, r)), w) != Meaning(Or(l, r), w)
    decreases Or(l, r), 0
  {
    if MustOf(Compile(l)) != [] || MustOf(Compile(r)) != [] {
      w := OrMisses(l, r);
    } else if TopNot(l) || TopNot(r) {
      w := OrFindsTooMuch(l, r);
    } else {
      OnlyConjunctionsHaveMust(l);
      OnlyConjunctionsHaveMust(r);
      if !Faithful(l) {
        var a := UnfaithfulDiffers(l);
        var b := Refute(r);
        w := Combine(l, r, a, b);
      } else {
        var a := Refute(l);
        var b := UnfaithfulDiffers(r);
        w := Combine(l, r, a, b);
      }
      TopNotIsMustNot(l);
      TopNotIsMustNot(r);
      OrParts(l, r, w);
      CorePieces(Compile(l), Compile(r), w);
    }
  }

  lemma OnlyConjunctionsHaveMust(e: Expr)
    requires MustOf(Compile(e)) == [] && !TopNot(e)
    ensures IsDisjunction(e)
  {
    if e.And? {
      CombinatorsProduce(Compile(e.left), Compile(e.right));
    }
  }

  lemma {:induction false} UnfaithfulAndNot(l: Expr, r: Expr) returns (w: World)
    requires ReadOnce(AndNot(l, r)) && !Faithful(AndNot(l, r))
    ensures Matches(Compile(AndNot(l, r)), w) != Meaning(AndNot(l, r), w)
    decreases AndNot(l, r), 0
  {
    if TopNot(l) {
      var a := MeetPositivePart(l);
      var b := Refute(r);
      w := Combine(l, r, a, b);
    } else if !Faithful(l) {
      var a := UnfaithfulDiffers(l);
      var b := Refute(r);
      w := Combine(l, r, a, b);
      TopNotIsMustNot(l);
      MatchesIsCoreWithoutNot(Compile(l), w);
    } else {
      var a := Satisfy(l);
      var b := UnfaithfulDiffers(r);
      w := Combine(l, r, a, b);
    }
    AndNotParts(l, r, w);
  }

  /** For expressions whose clauses build distinct queries: the compiled query means the same, for every
      document, exactly when the expression is faithful. */
  lemma KeepsMeaningExactlyWhen(e: Expr)
    requires ReadOnce(e)
    ensures (forall w: World :: Matches(Compile(e), w) <==> Meaning(e, w)) <==> Faithful(e)
  {
    if Faithful(e) {
      forall w: World ensures Matches(Compile(e), w) <==> Meaning(e, w) {
        FaithfulKeepsMeaning(e, w);
      }
    } else {
      var w := UnfaithfulDiffers(e);
    }
  }

  // ----- documents with fields -----

  /** The values of a document's fields. */
  type Fields = string -> Option<Json>

  /** Whether a single query matches a field with this value, or without one. */
  type Test = (Leaf, Option<Json>) -> bool

  function WorldOf(test: Test, e: Expr, document: Fields): World {
    set leaf | leaf in Leaves(e) && test(leaf, document(leaf.field))
  }

  /** No field is asked for twice. */
  ghost predicate FieldOnce(e: Expr) {
    ReadOnce(e) && forall a, b :: a in Leaves(e) && b in Leaves(e) && a.field == b.field ==> a == b
  }

  /** Some values of the field match and some do not. */
  ghost predicate IsOpen(test: Test, leaf: Leaf) {
    (exists v :: test(leaf, v)) && exists v :: !test(leaf, v)
  }

  ghost function ValueFor(test: Test, leaf: Leaf, wanted: bool): (v: Option<Json>)
    requires IsOpen(test, leaf)
    ensures test(leaf, v) == wanted
  {
    var v :| test(leaf, v) == wanted;
    v
  }

  /** Every choice of matching clauses is made by some document. */
  lemma SomeDocument(test: Test, e: Expr, w: World) returns (document: Fields)
    requires FieldOnce(e) && forall leaf :: leaf in Leaves(e) ==> IsOpen(test, leaf)
    ensures WorldOf(test, e, document) == w * Leaves(e)
  {
    var values := map leaf | leaf in Leaves(e) :: ValueFor(test, leaf, leaf in w);
    document := (field: string) =>
      if exists leaf :: leaf in values && leaf.field == field
      then (var leaf :| leaf in values && leaf.field == field; values[leaf])
      else None;
    forall leaf | leaf in Leaves(e) ensures document(leaf.field) == values[leaf] {
      assert leaf in values;
    }
  }

  /** So the same holds of real documents: where no field is asked for twice, the compiled query finds exactly
      the documents that the expression describes if and only if the expression is faithful. */
  lemma FindsItsDocumentsExactlyWhen(test: Test, e: Expr)
    requires FieldOnce(e) && forall leaf :: leaf in Leaves(e) ==> IsOpen(test, leaf)
    ensures (forall document: Fields ::
               Matches(Compile(e), WorldOf(test, e, document)) <==> Meaning(e, WorldOf(test, e, document)))
            <==> Faithful(e)
  {
    if Faithful(e) {
      forall document: Fields
        ensures Matches(Compile(e), WorldOf(test, e, document)) <==> Meaning(e, WorldOf(test, e, document))
      {
        FaithfulKeepsMeaning(e, WorldOf(test, e, document));
      }
    } else {
      var w := UnfaithfulDiffers(e);
      var document := SomeDocument(test, e, w);
      OnlyLeavesMatter(e, WorldOf(test, e, document), w);
    }
  }
}
