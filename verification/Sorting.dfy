// Sort order of search hits and the positions that search_after cursors find in it.
module Sorting {
  import opened Bytes
  import opened Values
  import opened Mappings
  import opened Texts

  // ----- comparable values -----

  datatype Comparable = NumberKey(place: int) | TimeKey(instant: int) | TextKey(text: Text) | BooleanKey(b: bool)

  /** Library conversions: RFC 3339 parsing, and the place of an integer in the total order of floats. */
  datatype Reading = Reading(clock: Clock, places: int -> int) {
    function Place(n: Number): int {
      match n
      case Unsigned(u) => places(u)
      case Negative(i) => places(i)
      case Float(place) => place
    }

    function Key(value: Json): Option<Comparable> {
      match value
      case Num(n) => Some(NumberKey(Place(n)))
      case Boolean(b) => Some(BooleanKey(b))
      case Str(raw) => Some(match clock(raw) case Some(instant) => TimeKey(instant) case None => TextKey(raw))
      case _ => None
    }
  }

  function CompareBools(a: bool, b: bool): Ordering {
    if a == b then Equal else if b then Less else Greater
  }

  /** Values of different kinds compare as equal. */
  function CompareKeys(a: Comparable, b: Comparable): Ordering {
    match (a, b)
    case (NumberKey(x), NumberKey(y)) => CompareInts(x, y)
    case (TimeKey(x), TimeKey(y)) => CompareInts(x, y)
    case (TextKey(x), TextKey(y)) => CompareTexts(x, y)
    case (BooleanKey(x), BooleanKey(y)) => CompareBools(x, y)
    case _ => Equal
  }

  // ----- the sort comparator -----

  datatype SortSpec = SortSpec(field: Text, descending: bool)

  /** A scored document; the score is its place in the total order of floats. */
  datatype Hit = Hit(id: Text, source: Json, score: int)

  function Directed(o: Ordering, sort: Option<SortSpec>): Ordering {
    if sort.Some? && sort.value.descending then o.Reverse() else o
  }

  function FieldKey(e: Reading, field: Text, hit: Hit): Option<Comparable> {
    match Field(hit.source, field)
    case Some(value) => e.Key(value)
    case None => None
  }

  /** Missing values come last in both directions. */
  function CompareByValue(e: Reading, sort: SortSpec, l: Hit, r: Hit): Ordering {
    match (FieldKey(e, sort.field, l), FieldKey(e, sort.field, r))
    case (Some(a), Some(b)) => Directed(CompareKeys(a, b), Some(sort))
    case (None, Some(_)) => Greater
    case (Some(_), None) => Less
    case (None, None) => Equal
  }

  function CompareHits(e: Reading, sort: Option<SortSpec>, l: Hit, r: Hit): Ordering {
    match sort
    case Some(spec) => CompareByValue(e, spec, l, r).Then(CompareTexts(l.id, r.id))
    case None => CompareInts(r.score, l.score).Then(CompareTexts(l.id, r.id))
  }

  // ----- cursors -----

  /** What a hit reports of itself, and what the next request sends back as its cursor. */
  function SortValues(sort: Option<SortSpec>, hit: Hit): seq<Json> {
    var tie := [Num(Float(hit.score)), Str(hit.id)];
    match sort
    case Some(spec) =>
      [match Field(hit.source, spec.field) case Some(value) => value case None => Null] + tie
    case None => tie
  }

  function CompareJson(e: Reading, sort: Option<SortSpec>, l: Json, r: Json): Ordering {
    Directed(CompareOptions(e.Key(l), e.Key(r)), sort)
  }

  function CompareOptions(a: Option<Comparable>, b: Option<Comparable>): Ordering {
    match (a, b)
    case (Some(x), Some(y)) => CompareKeys(x, y)
    case (None, Some(_)) => Greater
    case (Some(_), None) => Less
    case (None, None) => Equal
  }

  /** A hit's values against a cursor, from position `i` on. */
  function CompareLists(e: Reading, sort: Option<SortSpec>, values: seq<Json>, cursor: seq<Json>, i: nat): Ordering
    decreases |cursor| - i
  {
    if i >= |cursor| then Equal
    else if i >= |values| then Less
    else CompareJson(e, sort, values[i], cursor[i]).Then(CompareLists(e, sort, values, cursor, i + 1))
  }

  predicate IsAfter(e: Reading, sort: Option<SortSpec>, hit: Hit, cursor: seq<Json>) {
    CompareLists(e, sort, SortValues(sort, hit), cursor, 0) == Greater
  }

  /** Where the page behind a cursor begins: at the first hit after it, from `k` on. */
  function FirstAfter(e: Reading, sort: Option<SortSpec>, hits: seq<Hit>, cursor: seq<Json>, k: nat): (r: nat)
    requires k <= |hits|
    ensures k <= r <= |hits|
    ensures r < |hits| ==> IsAfter(e, sort, hits[r], cursor)
    ensures forall j :: k <= j < r ==> !IsAfter(e, sort, hits[j], cursor)
    decreases |hits| - k
  {
    if k == |hits| || IsAfter(e, sort, hits[k], cursor) then k else FirstAfter(e, sort, hits, cursor, k + 1)
  }

  // ----- orders -----

  predicate SameKind(a: Option<Comparable>, b: Option<Comparable>) {
    a.Some? && b.Some? ==>
      && (a.value.NumberKey? <==> b.value.NumberKey?) && (a.value.TimeKey? <==> b.value.TimeKey?)
      && (a.value.TextKey? <==> b.value.TextKey?)
  }

  lemma KeysOrder(a: Comparable, b: Comparable)
    ensures CompareKeys(b, a) == CompareKeys(a, b).Reverse()
  {
    if a.TextKey? && b.TextKey? {
      TextOrder(a.text, b.text);
    }
  }

  lemma KeysFit(a: Comparable, b: Comparable, c: Comparable)
    requires SameKind(Some(a), Some(b)) && SameKind(Some(b), Some(c))
    ensures Fits(CompareKeys(a, b), CompareKeys(b, c), CompareKeys(a, c))
  {
    if a.TextKey? {
      TextsFit(a.text, b.text, c.text);
    }
  }

  lemma ByValueOrder(e: Reading, sort: SortSpec, a: Hit, b: Hit)
    ensures CompareByValue(e, sort, b, a) == CompareByValue(e, sort, a, b).Reverse()
  {
    var ka, kb := FieldKey(e, sort.field, a), FieldKey(e, sort.field, b);
    if ka.Some? && kb.Some? {
      KeysOrder(ka.value, kb.value);
    }
  }

  lemma ByValueFits(e: Reading, sort: SortSpec, a: Hit, b: Hit, c: Hit)
    requires SameKind(FieldKey(e, sort.field, a), FieldKey(e, sort.field, b))
    requires SameKind(FieldKey(e, sort.field, b), FieldKey(e, sort.field, c))
    ensures Fits(CompareByValue(e, sort, a, b), CompareByValue(e, sort, b, c), CompareByValue(e, sort, a, c))
  {
    var ka, kb, kc := FieldKey(e, sort.field, a), FieldKey(e, sort.field, b), FieldKey(e, sort.field, c);
    if ka.Some? && kb.Some? && kc.Some? {
      KeysFit(ka.value, kb.value, kc.value);
    }
  }

  /** All values of the sort field are of one kind. */
  ghost predicate OneKind(e: Reading, sort: Option<SortSpec>, hits: seq<Hit>) {
    sort.Some? ==>
      forall i, j :: 0 <= i < |hits| && 0 <= j < |hits| ==>
        SameKind(FieldKey(e, sort.value.field, hits[i]), FieldKey(e, sort.value.field, hits[j]))
  }

  ghost predicate DistinctIds(hits: seq<Hit>) {
    forall i, j :: 0 <= i < j < |hits| ==> hits[i].id != hits[j].id
  }

  /** On values of one kind the comparator is a total order, and equal only on equal ids. */
  lemma ComparatorIsTotalOrder(e: Reading, sort: Option<SortSpec>, a: Hit, b: Hit, c: Hit)
    requires OneKind(e, sort, [a, b, c])
    ensures CompareHits(e, sort, b, a) == CompareHits(e, sort, a, b).Reverse()
    ensures CompareHits(e, sort, a, b) == Equal ==> a.id == b.id
    ensures Fits(CompareHits(e, sort, a, b), CompareHits(e, sort, b, c), CompareHits(e, sort, a, c))
  {
    TextOrder(a.id, b.id);
    TextsFit(a.id, b.id, c.id);
    if sort.Some? {
      var hits := [a, b, c];
      assert SameKind(FieldKey(e, sort.value.field, hits[0]), FieldKey(e, sort.value.field, hits[1]));
      assert SameKind(FieldKey(e, sort.value.field, hits[1]), FieldKey(e, sort.value.field, hits[2]));
      ByValueOrder(e, sort.value, a, b);
      ByValueFits(e, sort.value, a, b, c);
      FitsThen(CompareByValue(e, sort.value, a, b), CompareByValue(e, sort.value, b, c),
               CompareByValue(e, sort.value, a, c),
               CompareTexts(a.id, b.id), CompareTexts(b.id, c.id), CompareTexts(a.id, c.id));
    }
  }

  // ----- what the order says of the values -----

  /** Of two values the first one is less: as numbers, as instants where both read as timestamps, as texts where
      neither does, and false before true. */
  ghost predicate IsLess(e: Reading, a: Json, b: Json) {
    || (a.Num? && b.Num? && e.Place(a.n) < e.Place(b.n))
    || (a.Boolean? && b.Boolean? && !a.b && b.b)
    || (a.Str? && b.Str? && e.clock(a.s).Some? && e.clock(b.s).Some? && e.clock(a.s).value < e.clock(b.s).value)
    || (a.Str? && b.Str? && e.clock(a.s).None? && e.clock(b.s).None? && LexicographicallyLess(a.s, b.s))
  }

  /** Null, arrays and objects do not count as values. */
  predicate HasValue(hit: Hit, field: Text) {
    var value := Field(hit.source, field);
    value.Some? && (value.value.Num? || value.value.Boolean? || value.value.Str?)
  }

  /** The value of the first hit puts it in front: the lesser one, or under a descending sort the greater one,
      and any value goes before none. */
  ghost predicate GoesFirst(e: Reading, sort: SortSpec, l: Hit, r: Hit) {
    && HasValue(l, sort.field)
    && (HasValue(r, sort.field) ==>
          var a, b := Field(l.source, sort.field).value, Field(r.source, sort.field).value;
          if sort.descending then IsLess(e, b, a) else IsLess(e, a, b))
  }

  /** Rounding an integer to a float never reverses two integers. */
  ghost predicate Rounds(e: Reading) {
    forall i, j :: i <= j ==> e.places(i) <= e.places(j)
  }

  /** Integers compare as integers, as far as floats tell them apart. */
  lemma IntegersExactlyWhen(e: Reading, a: Number, b: Number)
    requires Rounds(e) && Whole(a).Some? && Whole(b).Some?
    requires e.places(Whole(a).value) == e.places(Whole(b).value) ==> Whole(a) == Whole(b)
    ensures IsLess(e, Num(a), Num(b)) <==> Whole(a).value < Whole(b).value
  {
  }

  lemma KeysExactlyWhen(e: Reading, a: Json, b: Json)
    requires (a.Num? || a.Boolean? || a.Str?) && (b.Num? || b.Boolean? || b.Str?)
    ensures e.Key(a).Some? && e.Key(b).Some?
    ensures CompareKeys(e.Key(a).value, e.Key(b).value) == Less <==> IsLess(e, a, b)
    ensures CompareKeys(e.Key(a).value, e.Key(b).value) == Greater <==> IsLess(e, b, a)
  {
    if a.Str? && b.Str? {
      TextsExactlyWhen(a.s, b.s);
      TextsExactlyWhen(b.s, a.s);
      TextOrder(a.s, b.s);
    }
  }

  lemma ValuesExactlyWhen(e: Reading, sort: SortSpec, l: Hit, r: Hit)
    ensures CompareByValue(e, sort, l, r) == Less <==> GoesFirst(e, sort, l, r)
    ensures CompareByValue(e, sort, l, r) == Greater <==> GoesFirst(e, sort, r, l)
  {
    if HasValue(l, sort.field) && HasValue(r, sort.field) {
      KeysExactlyWhen(e, Field(l.source, sort.field).value, Field(r.source, sort.field).value);
    }
  }

  /** Which of two hits comes first: the one whose value puts it in front, without a sort the one with the higher
      score, and otherwise the one with the lesser id. */
  lemma ComparesLessExactlyWhen(e: Reading, sort: Option<SortSpec>, l: Hit, r: Hit)
    ensures sort.Some? ==>
              (CompareHits(e, sort, l, r) == Less <==>
                 || GoesFirst(e, sort.value, l, r)
                 || (!GoesFirst(e, sort.value, r, l) && LexicographicallyLess(l.id, r.id)))
    ensures sort.None? ==>
              (CompareHits(e, sort, l, r) == Less <==>
                 l.score > r.score || (l.score == r.score && LexicographicallyLess(l.id, r.id)))
  {
    TextsExactlyWhen(l.id, r.id);
    if sort.Some? {
      ValuesExactlyWhen(e, sort.value, l, r);
    }
  }

  /** Missing values come last, whatever the direction. */
  lemma MissingComesLast(e: Reading, sort: SortSpec, present: Hit, missing: Hit)
    requires FieldKey(e, sort.field, present).Some? && FieldKey(e, sort.field, missing).None?
    ensures CompareHits(e, Some(sort), present, missing) == Less
  {
  }
}
