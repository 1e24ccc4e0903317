// Edit distance: the matrix the search engine fills, the scripts of single-character edits it measures, and
// exactly which strings it measures correctly.
module Levenshtein {
  import opened Values

  // ----- edit scripts -----

  /** One column of an alignment: a character kept, replaced, deleted (`to` is None) or inserted (`from` is None). */
  datatype Column = Column(from: Option<char>, to: Option<char>)

  type Script = seq<Column>

  function Last<T>(s: seq<T>): T
    requires s != []
  {
    s[|s| - 1]
  }

  function Init<T>(s: seq<T>): seq<T>
    requires s != []
  {
    s[..|s| - 1]
  }

  function Shown(c: Option<char>): string {
    if c.Some? then [c.value] else []
  }

  function Source(s: Script): string {
    if s == [] then [] else Source(Init(s)) + Shown(Last(s).from)
  }

  function Target(s: Script): string {
    if s == [] then [] else Target(Init(s)) + Shown(Last(s).to)
  }

  /** The number of edits: every column that changes something. */
  function Cost(s: Script): nat {
    if s == [] then 0 else Cost(Init(s)) + if Last(s).from == Last(s).to then 0 else 1
  }

  predicate Turns(s: Script, a: string, b: string) {
    Source(s) == a && Target(s) == b
  }

  // ----- the distance -----

  function Min(x: nat, y: nat): nat {
    if x <= y then x else y
  }

  function EditDistance(a: string, b: string): nat
    decreases |a| + |b|
  {
    if a == [] then |b|
    else if b == [] then |a|
    else
      Min(Min(EditDistance(Init(a), b) + 1, EditDistance(a, Init(b)) + 1),
          EditDistance(Init(a), Init(b)) + if Last(a) == Last(b) then 0 else 1)
  }

  lemma AddColumn(s: Script, c: Column)
    ensures Source(s + [c]) == Source(s) + Shown(c.from)
    ensures Target(s + [c]) == Target(s) + Shown(c.to)
    ensures Cost(s + [c]) == Cost(s) + if c.from == c.to then 0 else 1
  {
    assert Init(s + [c]) == s;
  }

  lemma AddedTurns(s: Script, a: string, b: string, c: Column)
    requires Turns(s, a, b)
    ensures Turns(s + [c], a + Shown(c.from), b + Shown(c.to))
    ensures Cost(s + [c]) == Cost(s) + if c.from == c.to then 0 else 1
  {
    AddColumn(s, c);
  }

  lemma Extend(u: Script, a: string, b: string, c: Column) returns (v: Script)
    requires Turns(u, a, b)
    ensures Turns(v, a + Shown(c.from), b + Shown(c.to))
    ensures Cost(v) == Cost(u) + if c.from == c.to then 0 else 1
  {
    AddedTurns(u, a, b, c);
    v := u + [c];
  }

  lemma Ends<T>(s: seq<T>)
    requires s != []
    ensures Init(s) + [Last(s)] == s
  {
  }

  /** The last column of a cheapest script. */
  function LastColumn(a: string, b: string): (c: Column)
    requires a != [] || b != []
    ensures c.from.Some? ==> a != [] && c.from.value == Last(a)
    ensures c.to.Some? ==> b != [] && c.to.value == Last(b)
    ensures c.from.Some? || c.to.Some?
    ensures EditDistance(a, b)
            == EditDistance(if c.from.Some? then Init(a) else a, if c.to.Some? then Init(b) else b)
               + if c.from == c.to then 0 else 1
  {
    if a == [] then Column(None, Some(Last(b)))
    else if b == [] then Column(Some(Last(a)), None)
    else if EditDistance(a, b) == EditDistance(Init(a), b) + 1 then Column(Some(Last(a)), None)
    else if EditDistance(a, b) == EditDistance(a, Init(b)) + 1 then Column(None, Some(Last(b)))
    else Column(Some(Last(a)), Some(Last(b)))
  }

  /** Some script costs no more than the distance. */
  lemma {:induction false} DistanceIsAttained(a: string, b: string) returns (s: Script)
    ensures Turns(s, a, b) && Cost(s) == EditDistance(a, b)
    decreases |a| + |b|
  {
    if a == [] && b == [] {
      return [];
    }
    var c := LastColumn(a, b);
    var a' := if c.from.Some? then Init(a) else a;
    var b' := if c.to.Some? then Init(b) else b;
    Shortened(a, c.from);
    Shortened(b, c.to);
    s := DistanceIsAttained(a', b');
    s := Extend(s, a', b', c);
  }

  lemma Shortened(a: string, c: Option<char>)
    requires c.Some? ==> a != [] && c.value == Last(a)
    ensures (if c.Some? then Init(a) else a) + Shown(c) == a
  {
    if c.Some? {
      Ends(a);
    }
  }

  /** Neighbouring distances differ by at most one. */
  lemma {:induction false} OneCharacterMore(a: string, b: string, c: char)
    ensures EditDistance(a + [c], b) <= EditDistance(a, b) + 1
    ensures EditDistance(a, b + [c]) <= EditDistance(a, b) + 1
  {
    assert Init(a + [c]) == a && Init(b + [c]) == b;
    if b == [] {
    }
  }

  lemma ColumnCovers(a: string, b: string, c: Column)
    ensures EditDistance(a + Shown(c.from), b + Shown(c.to)) <= EditDistance(a, b) + if c.from == c.to then 0 else 1
  {
    assert a + [] == a && b + [] == b;
    match c
    case Column(None, None) =>
    case Column(Some(x), None) => OneCharacterMore(a, b, x);
    case Column(None, Some(y)) => OneCharacterMore(a, b, y);
    case Column(Some(x), Some(y)) => BothOneMore(a, b, x, y);
  }

  /** No script is cheaper than the distance. */
  lemma {:induction false} DistanceIsMinimal(s: Script, a: string, b: string)
    requires Turns(s, a, b)
    ensures EditDistance(a, b) <= Cost(s)
    decreases |s|
  {
    if s != [] {
      var a', b' := Source(Init(s)), Target(Init(s));
      DistanceIsMinimal(Init(s), a', b');
      ColumnCovers(a', b', Last(s));
    }
  }

  lemma {:induction false} BothOneMore(a: string, b: string, x: char, y: char)
    ensures EditDistance(a + [x], b + [y]) <= EditDistance(a, b) + if x == y then 0 else 1
  {
    assert Init(a + [x]) == a && Init(b + [y]) == b;
  }

  // ----- a metric -----

  function Flipped(s: Script): Script {
    seq(|s|, i requires 0 <= i < |s| => Column(s[i].to, s[i].from))
  }

  lemma {:induction false} FlippedTurns(s: Script)
    ensures Turns(Flipped(s), Target(s), Source(s)) && Cost(Flipped(s)) == Cost(s)
  {
    if s != [] {
      assert Init(Flipped(s)) == Flipped(Init(s));
      FlippedTurns(Init(s));
    }
  }

  lemma {:induction false} Symmetric(a: string, b: string)
    ensures EditDistance(a, b) == EditDistance(b, a)
  {
    var s := DistanceIsAttained(a, b);
    FlippedTurns(s);
    DistanceIsMinimal(Flipped(s), b, a);
    var t := DistanceIsAttained(b, a);
    FlippedTurns(t);
    DistanceIsMinimal(Flipped(t), a, b);
  }

  lemma {:induction false} FreeScriptsKeep(s: Script)
    requires Cost(s) == 0
    ensures Source(s) == Target(s)
  {
    if s != [] {
      FreeScriptsKeep(Init(s));
    }
  }

  lemma {:induction false} SelfDistance(a: string)
    ensures EditDistance(a, a) == 0
  {
    if a != [] {
      SelfDistance(Init(a));
    }
  }

  lemma {:induction false} ZeroExactlyWhenEqual(a: string, b: string)
    ensures EditDistance(a, b) == 0 <==> a == b
  {
    if EditDistance(a, b) == 0 {
      var s := DistanceIsAttained(a, b);
      FreeScriptsKeep(s);
    }
    SelfDistance(a);
  }

  /** Two scripts one after the other make one script that costs no more than both. */
  lemma {:induction false} Compose(s: Script, t: Script) returns (u: Script)
    requires Target(s) == Source(t)
    ensures Turns(u, Source(s), Target(t)) && Cost(u) <= Cost(s) + Cost(t)
    decreases |s| + |t|
  {
    if s == [] && t == [] {
      u := [];
    } else if t != [] && Last(t).from.None? {
      u := Compose(s, Init(t));
      u := Extend(u, Source(s), Target(Init(t)), Last(t));
    } else if s != [] && Last(s).to.None? {
      u := Compose(Init(s), t);
      u := Extend(u, Source(Init(s)), Target(t), Last(s));
    } else {
      SameLast(s, t);
      u := Compose(Init(s), Init(t));
      u := Extend(u, Source(Init(s)), Target(Init(t)), Column(Last(s).from, Last(t).to));
    }
  }

  lemma SameLast(s: Script, t: Script)
    requires Target(s) == Source(t) && (s != [] || t != [])
    requires s == [] || Last(s).to.Some?
    requires t == [] || Last(t).from.Some?
    ensures s != [] && t != [] && Last(s).to == Last(t).from && Target(Init(s)) == Source(Init(t))
  {
    if s != [] {
      assert Last(Target(s)) == Last(s).to.value && Init(Target(s)) == Target(Init(s));
    }
    if t != [] {
      assert Last(Source(t)) == Last(t).from.value && Init(Source(t)) == Source(Init(t));
    }
  }

  lemma TriangleInequality(a: string, b: string, c: string)
    ensures EditDistance(a, c) <= EditDistance(a, b) + EditDistance(b, c)
  {
    var s := DistanceIsAttained(a, b);
    var t := DistanceIsAttained(b, c);
    var u := Compose(s, t);
    DistanceIsMinimal(u, a, c);
  }

  // ----- the matrix -----

  /** A string by its bytes: the character at the byte where it starts, nothing at its other bytes. */
  type EncodedString = seq<Option<char>>

  predicate Ascii(u: EncodedString) {
    forall k :: 0 <= k < |u| ==> u[k].Some?
  }

  function Chars(u: EncodedString): string {
    if u == [] then [] else Chars(Init(u)) + Shown(Last(u))
  }

  /** The content of a cell: rows and columns count bytes, and those inside a character are never filled. */
  function Cell(a: EncodedString, b: EncodedString, i: nat, j: nat): nat
    requires i <= |a| && j <= |b|
  {
    if i == 0 then j
    else if j == 0 then i
    else if a[i - 1].None? || b[j - 1].None? then 0
    else
      Min(Min(Cell(a, b, i - 1, j) + 1, Cell(a, b, i, j - 1) + 1),
          Cell(a, b, i - 1, j - 1) + if a[i - 1] == b[j - 1] then 0 else 1)
  }

  ghost predicate Filled(matrix: array2<nat>, a: EncodedString, b: EncodedString, k: nat)
    requires k <= |a| && matrix.Length0 == |a| + 1 && matrix.Length1 == |b| + 1
    reads matrix
  {
    forall l :: 0 <= l <= |b| ==> matrix[k, l] == Cell(a, b, k, l)
  }

  ghost predicate Blank(matrix: array2<nat>, a: EncodedString, b: EncodedString, k: nat)
    requires k <= |a| && matrix.Length0 == |a| + 1 && matrix.Length1 == |b| + 1
    reads matrix
  {
    matrix[k, 0] == k && forall l :: 0 < l <= |b| ==> matrix[k, l] == 0
  }

  method Distance(a: EncodedString, b: EncodedString) returns (r: nat)
    ensures r == Cell(a, b, |a|, |b|)
  {
    if a == [] {
      return |b|;
    }
    if b == [] {
      return |a|;
    }
    var matrix := FirstRowAndColumn(a, b);
    for i := 0 to |a|
      invariant forall k :: 0 <= k <= i ==> Filled(matrix, a, b, k)
      invariant forall k :: i < k <= |a| ==> Blank(matrix, a, b, k)
    {
      FillRow(matrix, a, b, i);
    }
    r := matrix[|a|, |b|];
  }

  method FirstRowAndColumn(a: EncodedString, b: EncodedString) returns (matrix: array2<nat>)
    ensures fresh(matrix) && matrix.Length0 == |a| + 1 && matrix.Length1 == |b| + 1
    ensures Filled(matrix, a, b, 0) && forall k :: 0 < k <= |a| ==> Blank(matrix, a, b, k)
  {
    matrix := new nat[|a| + 1, |b| + 1]((i, j) => 0);
    for i := 0 to |a| + 1
      invariant forall k, l :: 0 <= k <= |a| && 0 <= l <= |b| ==> matrix[k, l] == if l == 0 && k < i then k else 0
    {
      matrix[i, 0] := i;
    }
    for j := 0 to |b| + 1
      invariant forall k, l :: 0 < k <= |a| && 0 <= l <= |b| ==> matrix[k, l] == if l == 0 then k else 0
      invariant forall l :: 0 <= l <= |b| ==> matrix[0, l] == if l < j then l else 0
    {
      matrix[0, j] := j;
    }
  }

  /** The inner loop: one row below a filled one. */
  method FillRow(matrix: array2<nat>, a: EncodedString, b: EncodedString, i: nat)
    requires i < |a| && matrix.Length0 == |a| + 1 && matrix.Length1 == |b| + 1
    requires Filled(matrix, a, b, i) && Blank(matrix, a, b, i + 1)
    modifies matrix
    ensures Filled(matrix, a, b, i + 1)
    ensures forall k :: 0 <= k <= |a| && k != i + 1 ==>
              && (old(Filled(matrix, a, b, k)) ==> Filled(matrix, a, b, k))
              && (old(Blank(matrix, a, b, k)) ==> Blank(matrix, a, b, k))
  {
    var row := i + 1;
    if a[i].Some? {
      for j := 0 to |b|
        invariant forall l :: 0 <= l <= j ==> matrix[row, l] == Cell(a, b, row, l)
        invariant forall l :: j < l <= |b| ==> matrix[row, l] == 0
        invariant forall k, l :: 0 <= k <= |a| && k != row && 0 <= l <= |b| ==> matrix[k, l] == old(matrix[k, l])
      {
        if b[j].Some? {
          var cost := if a[i] == b[j] then 0 else 1;
          matrix[row, j + 1] := Min(Min(matrix[i, j + 1] + 1, matrix[row, j] + 1), matrix[i, j] + cost);
        }
      }
    }
  }

  // ----- which strings are measured correctly -----

  lemma {:induction false} AsciiChars(u: EncodedString)
    requires Ascii(u)
    ensures |Chars(u)| == |u| && forall k :: 0 <= k < |u| ==> u[k] == Some(Chars(u)[k])
  {
    if u != [] {
      AsciiChars(Init(u));
    }
  }

  /** One step of the recurrence that both the distance and the matrix obey. */
  predicate Recurrence(here: nat, up: nat, left: nat, diagonal: nat, same: bool) {
    here == Min(Min(up + 1, left + 1), diagonal + if same then 0 else 1)
  }

  lemma PrefixDistance(s: string, t: string, i: nat, j: nat)
    requires 0 < i <= |s| && 0 < j <= |t|
    ensures Recurrence(EditDistance(s[..i], t[..j]), EditDistance(s[..i - 1], t[..j]), EditDistance(s[..i], t[..j - 1]),
                       EditDistance(s[..i - 1], t[..j - 1]), s[i - 1] == t[j - 1])
  {
    assert Init(s[..i]) == s[..i - 1] && Init(t[..j]) == t[..j - 1];
  }

  lemma CellStep(a: EncodedString, b: EncodedString, s: string, t: string, i: nat, j: nat)
    requires Encodes(a, s) && Encodes(b, t) && 0 < i <= |s| && 0 < j <= |t|
    ensures Recurrence(Cell(a, b, i, j), Cell(a, b, i - 1, j), Cell(a, b, i, j - 1), Cell(a, b, i - 1, j - 1),
                       s[i - 1] == t[j - 1])
  {
    assert a[i - 1] == Some(s[i - 1]) && b[j - 1] == Some(t[j - 1]);
  }

  ghost predicate Encodes(a: EncodedString, s: string) {
    |s| == |a| && forall k :: 0 <= k < |a| ==> a[k] == Some(s[k])
  }

  type Table = (nat, nat) -> nat

  /** `d` obeys the recurrence at the prefixes of length `i` and `j`. */
  ghost predicate Recurs(d: Table, s: string, t: string, i: nat, j: nat)
    requires i <= |s| && j <= |t|
  {
    if i == 0 || j == 0 then d(i, j) == i + j
    else Recurrence(d(i, j), d(i - 1, j), d(i, j - 1), d(i - 1, j - 1), s[i - 1] == t[j - 1])
  }

  ghost predicate Tabulates(d: Table, s: string, t: string) {
    forall i: nat, j: nat {:trigger Recurs(d, s, t, i, j)} :: i <= |s| && j <= |t| ==> Recurs(d, s, t, i, j)
  }

  /** The recurrence determines the table. */
  lemma {:induction false} TablesAgree(c: Table, d: Table, s: string, t: string, i: nat, j: nat)
    requires i <= |s| && j <= |t| && Tabulates(c, s, t) && Tabulates(d, s, t)
    ensures c(i, j) == d(i, j)
    decreases i + j
  {
    assert Recurs(c, s, t, i, j) && Recurs(d, s, t, i, j);
    if i > 0 && j > 0 {
      TablesAgree(c, d, s, t, i - 1, j);
      TablesAgree(c, d, s, t, i, j - 1);
      TablesAgree(c, d, s, t, i - 1, j - 1);
    }
  }

  lemma CellsTabulate(a: EncodedString, b: EncodedString, s: string, t: string, c: Table)
    requires Encodes(a, s) && Encodes(b, t)
    requires forall i: nat, j: nat :: i <= |s| && j <= |t| ==> c(i, j) == Cell(a, b, i, j)
    ensures Tabulates(c, s, t)
  {
    forall i: nat, j: nat | i <= |s| && j <= |t| ensures Recurs(c, s, t, i, j) {
      if i > 0 && j > 0 {
        CellStep(a, b, s, t, i, j);
      }
    }
  }

  lemma PrefixesTabulate(s: string, t: string, d: Table)
    requires forall i: nat, j: nat :: i <= |s| && j <= |t| ==> d(i, j) == EditDistance(s[..i], t[..j])
    ensures Tabulates(d, s, t)
  {
    forall i: nat, j: nat | i <= |s| && j <= |t| ensures Recurs(d, s, t, i, j) {
      if i == 0 || j == 0 {
        EmptyPrefix(s, t, i, j);
      } else {
        PrefixDistance(s, t, i, j);
      }
    }
  }

  /** On ASCII strings the last cell holds the distance. */
  lemma CellIsDistance(a: EncodedString, b: EncodedString, s: string, t: string)
    requires Encodes(a, s) && Encodes(b, t)
    ensures Cell(a, b, |a|, |b|) == EditDistance(s, t)
  {
    var c: Table := (i: nat, j: nat) => if i <= |a| && j <= |b| then Cell(a, b, i, j) else 0;
    var d: Table := (i: nat, j: nat) => if i <= |s| && j <= |t| then EditDistance(s[..i], t[..j]) else 0;
    CellsTabulate(a, b, s, t, c);
    PrefixesTabulate(s, t, d);
    TablesAgree(c, d, s, t, |s|, |t|);
    assert s[..|s|] == s && t[..|t|] == t;
  }

  lemma EmptyPrefix(s: string, t: string, i: nat, j: nat)
    requires i <= |s| && j <= |t| && (i == 0 || j == 0)
    ensures EditDistance(s[..i], t[..j]) == i + j
  {
  }

  /** ASCII strings are measured exactly. */
  lemma AsciiIsExact(a: EncodedString, b: EncodedString)
    requires Ascii(a) && Ascii(b)
    ensures Cell(a, b, |a|, |b|) == EditDistance(Chars(a), Chars(b))
  {
    AsciiChars(a);
    AsciiChars(b);
    CellIsDistance(a, b, Chars(a), Chars(b));
  }

  lemma {:induction false} FewerCharsThanBytes(u: EncodedString)
    requires !Ascii(u)
    ensures |Chars(u)| < |u|
  {
    if Ascii(Init(u)) {
      AsciiChars(Init(u));
    } else {
      FewerCharsThanBytes(Init(u));
    }
  }

  /** A string is measured correctly against every ASCII string exactly when it is ASCII itself. */
  lemma ExactExactlyWhenAscii(a: EncodedString)
    ensures (forall b: EncodedString :: Ascii(b) ==> Cell(a, b, |a|, |b|) == EditDistance(Chars(a), Chars(b)))
       <==> Ascii(a)
  {
    if Ascii(a) {
      forall b: EncodedString | Ascii(b) ensures Cell(a, b, |a|, |b|) == EditDistance(Chars(a), Chars(b)) {
        AsciiIsExact(a, b);
      }
    } else {
      var empty: EncodedString := [];
      FewerCharsThanBytes(a);
      assert Ascii(empty) && Cell(a, empty, |a|, |empty|) == |a| && EditDistance(Chars(a), Chars(empty)) == |Chars(a)|;
    }
  }

  /** Behind a last character of several bytes nothing is measured: the distance comes out as zero. */
  lemma WideEndingsMeasureZero(a: EncodedString, b: EncodedString)
    requires a != [] && b != []
    ensures Last(a).None? || Last(b).None? ==> Cell(a, b, |a|, |b|) == 0
  {
  }

  // ----- fuzzy matching -----

  datatype Fuzziness = Auto | Exact(distance: nat)

  /** The distance allowed, by the byte length of the queried value. */
  function Threshold(query: EncodedString, fuzziness: Fuzziness): nat {
    match fuzziness
    case Exact(distance) => distance
    case Auto => if |query| <= 2 then 0 else if |query| <= 5 then 1 else 2
  }

  /** How many edits are allowed: the number given, or with `auto` one from three bytes on and two from six. */
  lemma AllowedExactlyWhen(query: EncodedString, fuzziness: Fuzziness, edits: nat)
    ensures edits <= Threshold(query, fuzziness) <==>
              || (fuzziness.Exact? && edits <= fuzziness.distance)
              || (fuzziness.Auto? && (edits == 0 || (edits == 1 && |query| >= 3) || (edits == 2 && |query| >= 6)))
  {
  }

  /** Without tolerance, inequality makes no match at all; with it, the distance decides. */
  method FuzzyMatch(stored: EncodedString, query: EncodedString, fuzziness: Fuzziness) returns (r: Option<bool>)
    ensures r == if Threshold(query, fuzziness) == 0 then (if stored == query then Some(true) else None)
                 else Some(Cell(stored, query, |stored|, |query|) <= Threshold(query, fuzziness))
    ensures Ascii(stored) && Ascii(query) ==>
              (r == Some(true) <==> exists s: Script :: Turns(s, Chars(stored), Chars(query))
                                                        && Cost(s) <= Threshold(query, fuzziness))
  {
    var threshold := Threshold(query, fuzziness);
    if Ascii(stored) && Ascii(query) {
      WithinExactlyWhen(stored, query, threshold);
      EqualExactlyWhen(stored, query);
    }
    if threshold == 0 {
      r := if stored == query then Some(true) else None;
    } else {
      var distance := Distance(stored, query);
      r := Some(distance <= threshold);
    }
  }

  lemma EqualExactlyWhen(a: EncodedString, b: EncodedString)
    requires Ascii(a) && Ascii(b)
    ensures a == b <==> EditDistance(Chars(a), Chars(b)) == 0
  {
    ZeroExactlyWhenEqual(Chars(a), Chars(b));
    AsciiChars(a);
    AsciiChars(b);
    if Chars(a) == Chars(b) {
      assert forall k :: 0 <= k < |a| ==> a[k] == b[k];
    }
  }

  lemma WithinExactlyWhen(a: EncodedString, b: EncodedString, threshold: nat)
    requires Ascii(a) && Ascii(b)
    ensures Cell(a, b, |a|, |b|) == EditDistance(Chars(a), Chars(b))
    ensures EditDistance(Chars(a), Chars(b)) <= threshold
            <==> exists s: Script :: Turns(s, Chars(a), Chars(b)) && Cost(s) <= threshold
  {
    AsciiIsExact(a, b);
    var attained := DistanceIsAttained(Chars(a), Chars(b));
    if s: Script :| Turns(s, Chars(a), Chars(b)) && Cost(s) <= threshold {
      DistanceIsMinimal(s, Chars(a), Chars(b));
    }
  }
}
