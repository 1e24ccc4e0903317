// Range clauses: which stored values a range matches, and what the comparisons of a query string ask for.
module Ranges {
  import opened Values
  import opened Queries
  import opened QueryParsing
  import opened Sorting

  // ----- the range query -----

  /** A float by its value: unlike in the total order, the two zeros are one. */
  function Amount(place: int): int {
    if place < 0 then place + 1 else place
  }

  function NumberIn(e: Reading, value: Json): Option<int> {
    if value.Num? then Some(Amount(e.Place(value.n))) else None
  }

  function InstantIn(e: Reading, value: Json): Option<int> {
    if value.Str? then e.clock(value.s) else None
  }

  /** A bound that is not of the value's kind is met by nothing. */
  predicate Meets(read: Json -> Option<int>, bound: Option<Json>, test: int -> bool) {
    match bound
    case None => true
    case Some(value) => read(value).Some? && test(read(value).value)
  }

  predicate WithinBounds(read: Json -> Option<int>, x: int, range: Leaf)
    requires range.Range?
  {
    && Meets(read, range.gte, b => x >= b)
    && Meets(read, range.gt, b => x > b)
    && Meets(read, range.lte, b => x <= b)
    && Meets(read, range.lt, b => x < b)
  }

  predicate RangeMatches(e: Reading, range: Leaf, stored: Option<Json>)
    requires range.Range?
  {
    match stored
    case None => false
    case Some(value) =>
      match e.Key(value)
      case Some(NumberKey(place)) => WithinBounds(v => NumberIn(e, v), Amount(place), range)
      case Some(TimeKey(instant)) => WithinBounds(v => InstantIn(e, v), instant, range)
      case _ => false
  }

  // ----- what it matches -----

  /** The first number is smaller, as IEEE 754 compares them. */
  predicate IsSmaller(e: Reading, a: Number, b: Number) {
    e.Place(a) < e.Place(b) && !(e.Place(a) == -1 && e.Place(b) == 0)
  }

  lemma AmountsExactlyWhen(e: Reading, a: Number, b: Number)
    ensures Amount(e.Place(a)) < Amount(e.Place(b)) <==> IsSmaller(e, a, b)
  {
  }

  /** A number is in the range if every bound is a number that it keeps. */
  lemma NumberMatchesExactlyWhen(e: Reading, range: Leaf, n: Number)
    requires range.Range?
    ensures RangeMatches(e, range, Some(Num(n))) <==>
              && (range.gte.Some? ==> range.gte.value.Num? && !IsSmaller(e, n, range.gte.value.n))
              && (range.gt.Some? ==> range.gt.value.Num? && IsSmaller(e, range.gt.value.n, n))
              && (range.lte.Some? ==> range.lte.value.Num? && !IsSmaller(e, range.lte.value.n, n))
              && (range.lt.Some? ==> range.lt.value.Num? && IsSmaller(e, n, range.lt.value.n))
  {
  }

  /** An instant is in the range if every bound is a timestamp that it keeps. */
  lemma InstantMatchesExactlyWhen(e: Reading, range: Leaf, text: Text, instant: int)
    requires range.Range? && e.clock(text) == Some(instant)
    ensures RangeMatches(e, range, Some(Str(text))) <==>
              && (range.gte.Some? ==> IsInstant(e, range.gte.value, (b: int) => b <= instant))
              && (range.gt.Some? ==> IsInstant(e, range.gt.value, (b: int) => b < instant))
              && (range.lte.Some? ==> IsInstant(e, range.lte.value, (b: int) => instant <= b))
              && (range.lt.Some? ==> IsInstant(e, range.lt.value, (b: int) => instant < b))
  {
  }

  predicate IsInstant(e: Reading, value: Json, test: int -> bool) {
    value.Str? && e.clock(value.s).Some? && test(e.clock(value.s).value)
  }

  /** Booleans, other texts, null, arrays, objects and missing values are in no range. */
  lemma OthersMatchNothing(e: Reading, range: Leaf, stored: Option<Json>)
    requires range.Range?
    requires stored.Some? ==> !stored.value.Num? && InstantIn(e, stored.value).None?
    ensures !RangeMatches(e, range, stored)
  {
  }

  // ----- the comparisons of a query string -----

  datatype Comparison = AtLeast | AtMost | Above | Below {
    function Sign(): string {
      match this
      case AtLeast => ">="
      case AtMost => "<="
      case Above => ">"
      case Below => "<"
    }
  }

  predicate Compares(e: Reading, comparison: Comparison, v: Number, n: Number) {
    match comparison
    case AtLeast => !IsSmaller(e, v, n)
    case AtMost => !IsSmaller(e, n, v)
    case Above => IsSmaller(e, n, v)
    case Below => IsSmaller(e, v, n)
  }

  /** `field:>=5` and its kind match exactly the numbers that compare so with the one that is written; a text that
      is no number is refused. */
  lemma ComparisonExactlyWhen(readers: Readers, e: Reading, field: string, comparison: Comparison, text: string,
                              stored: Option<Json>)
    requires comparison.Above? || comparison.Below? ==> !StartsWith(text, "=")
    ensures var leaf := Classify(readers, field, comparison.Sign() + text);
            && (readers.number(text).None? ==> leaf.None?)
            && (readers.number(text).Some? ==> leaf.Some? && leaf.value.Range? && leaf.value.field == field)
            && (readers.number(text).Some? && readers.number(text).value.Num? ==>
                  (RangeMatches(e, leaf.value, stored) <==>
                     && stored.Some? && stored.value.Num?
                     && Compares(e, comparison, stored.value.n, readers.number(text).value.n)))
  {
    SignStands(comparison, text);
    var leaf := Classify(readers, field, comparison.Sign() + text);
    if readers.number(text).Some? && readers.number(text).value.Num? {
      BoundedByNumber(e, leaf.value, stored, readers.number(text).value);
      if stored.Some? && stored.value.Num? {
        NumberMatchesExactlyWhen(e, leaf.value, stored.value.n);
      }
    }
  }

  lemma SignStands(comparison: Comparison, text: string)
    requires comparison.Above? || comparison.Below? ==> !StartsWith(text, "=")
    ensures var value := comparison.Sign() + text;
            && (StartsWith(value, ">=") <==> comparison.AtLeast?) && (StartsWith(value, "<=") <==> comparison.AtMost?)
            && (StartsWith(value, ">") <==> comparison.AtLeast? || comparison.Above?)
            && (StartsWith(value, "<") <==> comparison.AtMost? || comparison.Below?)
            && value[|comparison.Sign()|..] == text
  {
    var value := comparison.Sign() + text;
    assert value[..|comparison.Sign()|] == comparison.Sign();
    assert value[..1] == [comparison.Sign()[0]];
    if (comparison.Above? || comparison.Below?) && |value| >= 2 {
      assert text[..1] == [text[0]] && value[..2][1] == text[0];
    }
  }

  /** A range with a bound that is a number holds nothing but numbers. */
  lemma BoundedByNumber(e: Reading, range: Leaf, stored: Option<Json>, bound: Json)
    requires range.Range? && bound.Num?
    requires Some(bound) in [range.gte, range.gt, range.lte, range.lt]
    ensures RangeMatches(e, range, stored) ==> stored.Some? && stored.value.Num?
  {
    assert InstantIn(e, bound).None?;
  }

  /** `field:a..b` matches exactly the numbers between the two that are written, these included; a side that is no
      number is refused. */
  lemma BetweenExactlyWhen(readers: Readers, e: Reading, field: string, low: string, high: string,
                           stored: Option<Json>)
    requires !StartsWith(low, "<") && !StartsWith(low, ">") && (low != "" || high != "")
    requires forall k :: !DotsAt(low + ".", k)
    ensures var leaf := Classify(readers, field, low + ".." + high);
            && (readers.number(low).None? || readers.number(high).None? ==> leaf.None?)
            && (readers.number(low).Some? && readers.number(high).Some? ==>
                  leaf.Some? && leaf.value.Range? && leaf.value.field == field)
            && (readers.number(low).Some? && readers.number(high).Some?
                && readers.number(low).value.Num? && readers.number(high).value.Num? ==>
                  (RangeMatches(e, leaf.value, stored) <==>
                     && stored.Some? && stored.value.Num?
                     && !IsSmaller(e, stored.value.n, readers.number(low).value.n)
                     && !IsSmaller(e, readers.number(high).value.n, stored.value.n)))
  {
    DotsStand(low, high);
    var leaf := Classify(readers, field, low + ".." + high);
    if leaf.Some? && readers.number(low).value.Num? && readers.number(high).value.Num? {
      BoundedByNumber(e, leaf.value, stored, readers.number(low).value);
      if stored.Some? && stored.value.Num? {
        NumberMatchesExactlyWhen(e, leaf.value, stored.value.n);
      }
    }
  }

  lemma DotsStand(low: string, high: string)
    requires !StartsWith(low, "<") && !StartsWith(low, ">") && (low != "" || high != "")
    requires forall k :: !DotsAt(low + ".", k)
    ensures var value := low + ".." + high;
            && !StartsWith(value, "<=") && !StartsWith(value, ">=")
            && !StartsWith(value, "<") && !StartsWith(value, ">") && value != ".."
            && FirstDots(value, 0) == Some(|low|) && value[..|low|] == low && value[|low| + 2..] == high
  {
    var value := low + ".." + high;
    assert value[0] == if low == "" then '.' else low[0];
    if low != "" {
      assert low[..1] == [low[0]];
    }
    assert DotsAt(value, |low|);
    forall k | 0 <= k < |low| ensures !DotsAt(value, k) {
      assert !DotsAt(low + ".", k);
    }
  }

  // ----- ranges among other clauses -----

  /** Ranges are decided as above; what words and patterns match is left to `words`. */
  function TestOf(e: Reading, words: Test): Test {
    (leaf: Leaf, stored: Option<Json>) => if leaf.Range? then RangeMatches(e, leaf, stored) else words(leaf, stored)
  }

  /** A comparison matches some values and not others, so it is open to any choice of matching documents. */
  lemma ComparisonIsOpen(readers: Readers, e: Reading, words: Test, field: string, comparison: Comparison,
                         text: string)
    requires comparison.Above? || comparison.Below? ==> !StartsWith(text, "=")
    requires readers.number(text).Some? && readers.number(text).value.Num?
    ensures var leaf := Classify(readers, field, comparison.Sign() + text);
            leaf.Some? && IsOpen(TestOf(e, words), leaf.value)
  {
    var place := e.Place(readers.number(text).value.n);
    var met := Some(Num(Float(if comparison.AtLeast? || comparison.Above? then place + 2 else place - 2)));
    ComparisonExactlyWhen(readers, e, field, comparison, text, met);
    ComparisonExactlyWhen(readers, e, field, comparison, text, None);
    var leaf := Classify(readers, field, comparison.Sign() + text).value;
    assert TestOf(e, words)(leaf, met) && !TestOf(e, words)(leaf, None);
  }
}
