// Orderings, the byte order of texts, and the sorted keys of a map.
module Texts {
  import opened Bytes
  import opened Values

  datatype Ordering = Less | Equal | Greater {
    function Reverse(): Ordering {
      match this
      case Less => Greater
      case Equal => Equal
      case Greater => Less
    }

    function Then(next: Ordering): Ordering {
      if Equal? then next else this
    }
  }

  function CompareInts(a: int, b: int): Ordering {
    if a < b then Less else if a > b then Greater else Equal
  }

  function CompareTexts(a: Text, b: Text): Ordering {
    if a == [] then (if b == [] then Equal else Less)
    else if b == [] then Greater
    else CompareInts(a[0], b[0]).Then(CompareTexts(a[1..], b[1..]))
  }

  /** The orderings of three values fit together. */
  predicate Fits(ab: Ordering, bc: Ordering, ac: Ordering) {
    (ab == Equal ==> ac == bc) && (bc == Equal ==> ac == ab) && (ab == bc ==> ac == ab)
  }

  lemma FitsThen(ab: Ordering, bc: Ordering, ac: Ordering, ab': Ordering, bc': Ordering, ac': Ordering)
    requires Fits(ab, bc, ac) && Fits(ab', bc', ac')
    ensures Fits(ab.Then(ab'), bc.Then(bc'), ac.Then(ac'))
    ensures Fits(ab.Reverse(), bc.Reverse(), ac.Reverse())
  {
  }

  lemma {:induction false} TextOrder(a: Text, b: Text)
    ensures CompareTexts(b, a) == CompareTexts(a, b).Reverse()
    ensures CompareTexts(a, b) == Equal <==> a == b
  {
    if a != [] && b != [] {
      TextOrder(a[1..], b[1..]);
      assert a == [a[0]] + a[1..] && b == [b[0]] + b[1..];
    }
  }

  lemma {:induction false} TextsFit(a: Text, b: Text, c: Text)
    ensures Fits(CompareTexts(a, b), CompareTexts(b, c), CompareTexts(a, c))
  {
    if a != [] && b != [] && c != [] {
      TextsFit(a[1..], b[1..], c[1..]);
      FitsThen(CompareInts(a[0], b[0]), CompareInts(b[0], c[0]), CompareInts(a[0], c[0]),
               CompareTexts(a[1..], b[1..]), CompareTexts(b[1..], c[1..]), CompareTexts(a[1..], c[1..]));
    }
  }

  /** Where two texts first differ, the smaller byte decides; a text comes before its continuations. */
  predicate DiffersAt(a: Text, b: Text, k: nat) {
    && k <= |a| && k <= |b| && a[..k] == b[..k]
    && k < |b| && (k == |a| || a[k] < b[k])
  }

  ghost predicate LexicographicallyLess(a: Text, b: Text) {
    exists k: nat :: DiffersAt(a, b, k)
  }

  lemma {:induction false} TextsExactlyWhen(a: Text, b: Text)
    ensures CompareTexts(a, b) == Less <==> LexicographicallyLess(a, b)
  {
    if a != [] && b != [] && a[0] == b[0] {
      TextsExactlyWhen(a[1..], b[1..]);
      if LexicographicallyLess(a[1..], b[1..]) {
        var k: nat :| DiffersAt(a[1..], b[1..], k);
        FirstByteMore(a, b, k);
      }
      if LexicographicallyLess(a, b) {
        var k: nat :| DiffersAt(a, b, k);
        assert k > 0;
        FirstByteMore(a, b, k - 1);
      }
    } else if b != [] && (a == [] || a[0] < b[0]) {
      assert DiffersAt(a, b, 0);
    }
  }

  lemma FirstByteMore(a: Text, b: Text, k: nat)
    requires a != [] && b != [] && a[0] == b[0]
    ensures DiffersAt(a[1..], b[1..], k) <==> DiffersAt(a, b, k + 1)
  {
    if k < |a| && k < |b| {
      assert a[..k + 1] == [a[0]] + a[1..][..k] && b[..k + 1] == [b[0]] + b[1..][..k];
      assert a[1..][..k] == a[..k + 1][1..] && b[1..][..k] == b[..k + 1][1..];
    }
  }

  // ----- sorted keys -----

  predicate Before(a: Text, b: Text) {
    CompareTexts(a, b) == Less
  }

  lemma BeforeIsTransitive(a: Text, b: Text, c: Text)
    requires Before(a, b) && Before(b, c)
    ensures Before(a, c)
  {
    TextsFit(a, b, c);
  }

  lemma BeforeIsTotal(a: Text, b: Text)
    ensures Before(a, b) || a == b || Before(b, a)
    ensures !(Before(a, b) && (a == b || Before(b, a)))
  {
    TextOrder(a, b);
  }

  ghost predicate IsLeast(s: set<Text>, m: Text) {
    m in s && forall x :: x in s ==> x == m || Before(m, x)
  }

  ghost function Least(s: set<Text>): (m: Text)
    requires s != {}
    ensures IsLeast(s, m)
    decreases |s|
  {
    var x :| x in s;
    var rest := s - {x};
    if rest == {} then
      assert s == {x};
      x
    else
      var least := Least(rest);
      BeforeIsTotal(x, least);
      assert forall y :: y in s ==> y == x || y in rest;
      assert forall y :: y in rest && Before(x, least) ==> Before(x, y) by {
        forall y | y in rest && Before(x, least) ensures Before(x, y) {
          if y != least {
            BeforeIsTransitive(x, least, y);
          }
        }
      }
      if Before(x, least) then x else least
  }

  lemma LeastIsUnique(s: set<Text>, m: Text)
    requires IsLeast(s, m)
    ensures Least(s) == m
  {
    BeforeIsTotal(m, Least(s));
  }

  /** The order in which a sorted map lists its keys. */
  ghost function Ascending(s: set<Text>): (order: seq<Text>)
    decreases |s|
  {
    if s == {} then [] else [Least(s)] + Ascending(s - {Least(s)})
  }

  ghost predicate StrictlySorted(order: seq<Text>) {
    forall i, j :: 0 <= i < j < |order| ==> Before(order[i], order[j])
  }

  lemma {:induction false} AscendingLists(s: set<Text>)
    ensures forall x :: x in Ascending(s) <==> x in s
    ensures |Ascending(s)| == |s|
    decreases |s|
  {
    if s != {} {
      AscendingLists(s - {Least(s)});
      assert forall x :: x in Ascending(s) <==> x == Least(s) || x in Ascending(s - {Least(s)});
    }
  }

  lemma {:induction false} AscendingIsSorted(s: set<Text>)
    ensures StrictlySorted(Ascending(s))
    decreases |s|
  {
    if s != {} {
      var rest := s - {Least(s)};
      AscendingIsSorted(rest);
      AscendingLists(rest);
      forall j | 0 <= j < |Ascending(rest)| ensures Before(Least(s), Ascending(rest)[j]) {
        assert Ascending(rest)[j] in Ascending(rest);
      }
    }
  }

  /** Lists a sorted map's keys. */
  method SortedKeys(keys: set<Text>) returns (order: seq<Text>)
    ensures order == Ascending(keys)
  {
    order := [];
    var rest := keys;
    while rest != {}
      invariant Ascending(keys) == order + Ascending(rest)
      decreases |rest|
    {
      var least := FindLeast(rest);
      LeastIsUnique(rest, least);
      assert Ascending(rest) == [least] + Ascending(rest - {least});
      order := order + [least];
      rest := rest - {least};
    }
  }

  method FindLeast(s: set<Text>) returns (least: Text)
    requires s != {}
    ensures IsLeast(s, least)
  {
    least :| least in s;
    var rest := s - {least};
    while rest != {}
      invariant least in s && rest <= s && least !in rest
      invariant forall x :: x in s - rest ==> x == least || Before(least, x)
      decreases |rest|
    {
      var x :| x in rest;
      BeforeIsTotal(x, least);
      if Before(x, least) {
        forall y | y in s - rest && y != least ensures Before(x, y) {
          BeforeIsTransitive(x, least, y);
        }
        least := x;
      }
      rest := rest - {x};
    }
  }
}
