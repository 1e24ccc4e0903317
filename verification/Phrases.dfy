// The phrase check: whether a document's recorded offsets let the tokens of a phrase follow one another.
module Phrases {
  import opened Bytes
  import opened Values
  import opened Positions
  import E = Extraction
  import P = Positions

  /** The offsets recorded for a term, if it is in the dictionary. */
  type Recorded = Text -> Option<seq<u32>>

  /** All offsets of one document in a posting list. */
  function OffsetsIn(list: PostingList, docId: u64): seq<u32> {
    if list == [] then []
    else (if list[0].docId == docId then list[0].positions else []) + OffsetsIn(list[1..], docId)
  }

  function RecordedIn(reader: Reader, docId: u64): Recorded {
    (term: Text) =>
      match P.Get(reader, term)
      case Some(list) => Some(OffsetsIn(list, docId))
      case None => None
  }

  // ----- the greedy check -----

  /** One or two bytes behind the previous token, in 32-bit arithmetic, and behind its start. */
  predicate Allowed(previous: u32, length: nat, p: u32) {
    (p == Truncated(previous + length + 1) || p == Truncated(previous + length + 2)) && p > previous
  }

  function FirstAllowed(offsets: seq<u32>, previous: u32, length: nat): (r: Option<u32>)
    ensures r.Some? ==> r.value in offsets && Allowed(previous, length, r.value)
    ensures r.None? ==> forall p :: p in offsets ==> !Allowed(previous, length, p)
  {
    if offsets == [] then None
    else if Allowed(previous, length, offsets[0]) then Some(offsets[0])
    else FirstAllowed(offsets[1..], previous, length)
  }

  /** From token `k` matched at `previous`, always the first allowed offset of the next one. */
  function Chain(recorded: Recorded, tokens: seq<Text>, k: nat, previous: u32): Option<u32>
    requires k < |tokens|
    decreases |tokens| - k
  {
    if k + 1 == |tokens| then Some(previous)
    else
      match recorded(tokens[k + 1])
      case None => None
      case Some(offsets) =>
        match FirstAllowed(offsets, previous, |tokens[k]|)
        case None => None
        case Some(p) => Chain(recorded, tokens, k + 1, p)
  }

  function FirstChain(recorded: Recorded, tokens: seq<Text>, starts: seq<u32>): Option<u32>
    requires tokens != []
  {
    if starts == [] then None
    else
      var end := Chain(recorded, tokens, 0, starts[0]);
      if end.Some? then end else FirstChain(recorded, tokens, starts[1..])
  }

  function Consecutive(recorded: Recorded, tokens: seq<Text>): Option<u32>
    requires tokens != []
  {
    match recorded(tokens[0])
    case None => None
    case Some(starts) => FirstChain(recorded, tokens, starts)
  }

  // ----- the loops -----

  /** The first allowed offset among the document's postings. */
  method NextOffset(list: PostingList, docId: u64, previous: u32, length: nat) returns (r: Option<u32>)
    ensures r == FirstAllowed(OffsetsIn(list, docId), previous, length)
  {
    ghost var all := FirstAllowed(OffsetsIn(list, docId), previous, length);
    for i := 0 to |list|
      invariant FirstAllowed(OffsetsIn(list[i..], docId), previous, length) == all
    {
      OffsetsStep(list, docId, i);
      if list[i].docId == docId {
        AllowedInConcat(list[i].positions, OffsetsIn(list[i + 1..], docId), previous, length);
        r := NextAmong(list[i].positions, previous, length);
        if r.Some? {
          return;
        }
      }
    }
    r := None;
  }

  lemma OffsetsStep(list: PostingList, docId: u64, i: nat)
    requires i < |list|
    ensures OffsetsIn(list[i..], docId)
            == if list[i].docId == docId then list[i].positions + OffsetsIn(list[i + 1..], docId)
               else OffsetsIn(list[i + 1..], docId)
  {
  }

  method NextAmong(positions: seq<u32>, previous: u32, length: nat) returns (r: Option<u32>)
    ensures r == FirstAllowed(positions, previous, length)
  {
    for j := 0 to |positions|
      invariant FirstAllowed(positions[j..], previous, length) == FirstAllowed(positions, previous, length)
    {
      if Allowed(previous, length, positions[j]) {
        return Some(positions[j]);
      }
      assert positions[j..][1..] == positions[j + 1..];
    }
    r := None;
  }

  lemma {:induction false} AllowedInConcat(a: seq<u32>, b: seq<u32>, previous: u32, length: nat)
    ensures FirstAllowed(a + b, previous, length)
            == if FirstAllowed(a, previous, length).Some? then FirstAllowed(a, previous, length)
               else FirstAllowed(b, previous, length)
  {
    if a == [] {
      assert a + b == b;
    } else {
      assert (a + b)[1..] == a[1..] + b;
      AllowedInConcat(a[1..], b, previous, length);
    }
  }

  method FollowChain(reader: Reader, docId: u64, tokens: seq<Text>, start: u32) returns (r: Option<u32>)
    requires tokens != []
    ensures r == Chain(RecordedIn(reader, docId), tokens, 0, start)
  {
    var previous := start;
    var k := 0;
    while k + 1 < |tokens|
      invariant 0 <= k < |tokens|
      invariant Chain(RecordedIn(reader, docId), tokens, k, previous)
             == Chain(RecordedIn(reader, docId), tokens, 0, start)
    {
      var list := Lookup(reader, tokens[k + 1]);
      if list.None? {
        return None;
      }
      var next := NextOffset(list.value, docId, previous, |tokens[k]|);
      if next.None? {
        return None;
      }
      previous := next.value;
      k := k + 1;
    }
    r := Some(previous);
  }

  method TokensAreConsecutive(reader: Reader, docId: u64, tokens: seq<Text>) returns (r: Option<u32>)
    requires tokens != []
    ensures r == Consecutive(RecordedIn(reader, docId), tokens)
  {
    var list := Lookup(reader, tokens[0]);
    if list.None? {
      return None;
    }
    ghost var recorded := RecordedIn(reader, docId);
    ghost var all := Consecutive(recorded, tokens);
    for i := 0 to |list.value|
      invariant FirstChain(recorded, tokens, OffsetsIn(list.value[i..], docId)) == all
    {
      OffsetsStep(list.value, docId, i);
      if list.value[i].docId == docId {
        ChainInConcat(recorded, tokens, list.value[i].positions, OffsetsIn(list.value[i + 1..], docId));
        r := StartAmong(reader, docId, tokens, list.value[i].positions);
        if r.Some? {
          return;
        }
      }
    }
    r := None;
  }

  method StartAmong(reader: Reader, docId: u64, tokens: seq<Text>, positions: seq<u32>) returns (r: Option<u32>)
    requires tokens != []
    ensures r == FirstChain(RecordedIn(reader, docId), tokens, positions)
  {
    ghost var recorded := RecordedIn(reader, docId);
    for j := 0 to |positions|
      invariant FirstChain(recorded, tokens, positions[j..]) == FirstChain(recorded, tokens, positions)
    {
      assert positions[j..][1..] == positions[j + 1..];
      r := FollowChain(reader, docId, tokens, positions[j]);
      if r.Some? {
        return;
      }
    }
    r := None;
  }

  lemma {:induction false} ChainInConcat(recorded: Recorded, tokens: seq<Text>, a: seq<u32>, b: seq<u32>)
    requires tokens != []
    ensures FirstChain(recorded, tokens, a + b)
            == if FirstChain(recorded, tokens, a).Some? then FirstChain(recorded, tokens, a)
               else FirstChain(recorded, tokens, b)
  {
    if a == [] {
      assert a + b == b;
    } else {
      assert (a + b)[1..] == a[1..] + b;
      ChainInConcat(recorded, tokens, a[1..], b);
    }
  }

  // ----- what success means -----

  predicate Has(recorded: Recorded, term: Text, p: u32) {
    recorded(term).Some? && p in recorded(term).value
  }

  /** One or two bytes from the end of a token at `p` to `q`. */
  predicate Near(p: u32, length: nat, q: u32) {
    1 <= q - (p + length) <= 2
  }

  /** Recorded offsets of the tokens from `k` on, each near the end of the one before. */
  predicate IsPhrase(recorded: Recorded, tokens: seq<Text>, k: nat, ps: seq<u32>)
    decreases |ps|
  {
    && ps != [] && k + |ps| == |tokens| && Has(recorded, tokens[k], ps[0])
    && (|ps| > 1 ==> Near(ps[0], |tokens[k]|, ps[1]) && IsPhrase(recorded, tokens, k + 1, ps[1..]))
  }

  /** Tokens short enough that a wrapped offset always lies before its predecessor. */
  predicate Short(tokens: seq<Text>) {
    forall i :: 0 <= i < |tokens| ==> |tokens[i]| + 2 <= 0x1_0000_0000
  }

  /** Wrapping never makes an offset allowed. */
  lemma AllowedIsNear(previous: u32, length: nat, p: u32)
    requires length + 2 <= 0x1_0000_0000
    ensures Allowed(previous, length, p) <==> Near(previous, length, p)
  {
  }

  lemma {:induction false} ChainIsPhrase(recorded: Recorded, tokens: seq<Text>, k: nat,
                                         previous: u32) returns (ps: seq<u32>)
    requires Short(tokens) && k < |tokens| && Chain(recorded, tokens, k, previous).Some?
    requires Has(recorded, tokens[k], previous)
    ensures IsPhrase(recorded, tokens, k, ps) && ps[0] == previous
    ensures ps[|ps| - 1] == Chain(recorded, tokens, k, previous).value
    decreases |tokens| - k
  {
    if k + 1 == |tokens| {
      ps := [previous];
    } else {
      var p := FirstAllowed(recorded(tokens[k + 1]).value, previous, |tokens[k]|).value;
      var rest := ChainIsPhrase(recorded, tokens, k + 1, p);
      AllowedIsNear(previous, |tokens[k]|, p);
      ps := [previous] + rest;
      assert ps[1..] == rest;
    }
  }

  /** A successful check shows a phrase: recorded offsets of all tokens, in order, with gaps of one or two
      bytes. */
  lemma {:induction false} FirstChainIsPhrase(recorded: Recorded, tokens: seq<Text>, starts: seq<u32>, all: seq<u32>)
    returns (ps: seq<u32>)
    requires tokens != [] && Short(tokens) && FirstChain(recorded, tokens, starts).Some?
    requires recorded(tokens[0]) == Some(all) && forall p :: p in starts ==> p in all
    ensures IsPhrase(recorded, tokens, 0, ps) && ps[|ps| - 1] == FirstChain(recorded, tokens, starts).value
  {
    if Chain(recorded, tokens, 0, starts[0]).Some? {
      ps := ChainIsPhrase(recorded, tokens, 0, starts[0]);
    } else {
      ps := FirstChainIsPhrase(recorded, tokens, starts[1..], all);
    }
  }

  lemma SuccessIsPhrase(recorded: Recorded, tokens: seq<Text>) returns (ps: seq<u32>)
    requires tokens != [] && Short(tokens) && Consecutive(recorded, tokens).Some?
    ensures IsPhrase(recorded, tokens, 0, ps) && ps[|ps| - 1] == Consecutive(recorded, tokens).value
  {
    var starts := recorded(tokens[0]).value;
    ps := FirstChainIsPhrase(recorded, tokens, starts, starts);
  }

  /** Recorded at `q` and right behind it. */
  predicate HasNeighbours(recorded: Recorded, term: Text, q: nat) {
    q + 1 < 0x1_0000_0000 && Has(recorded, term, q) && Has(recorded, term, q + 1)
  }

  /** The bytes that the first `i` tokens take at least, each with one byte behind it. */
  function Start(tokens: seq<Text>, i: nat): nat
    requires i <= |tokens|
  {
    if i == 0 then 0 else Start(tokens, i - 1) + |tokens[i - 1]| + 1
  }

  /** The token is not recorded at two neighbouring offsets that both leave room for the tokens before it. */
  ghost predicate IsPlain(recorded: Recorded, tokens: seq<Text>, i: nat)
    requires i < |tokens|
  {
    forall q: nat :: HasNeighbours(recorded, tokens[i], q) ==> q < Start(tokens, i)
  }

  /** No token between the first and the last is recorded at two such offsets. */
  ghost predicate Unambiguous(recorded: Recorded, tokens: seq<Text>) {
    forall i :: 0 < i < |tokens| - 1 ==> IsPlain(recorded, tokens, i)
  }

  lemma {:induction false} PhraseIsChain(recorded: Recorded, tokens: seq<Text>, k: nat, ps: seq<u32>)
    requires Short(tokens) && Unambiguous(recorded, tokens) && IsPhrase(recorded, tokens, k, ps)
    requires k < |tokens| && ps[0] >= Start(tokens, k)
    ensures Chain(recorded, tokens, k, ps[0]).Some?
    decreases |ps|
  {
    if |ps| > 1 {
      assert Has(recorded, tokens[k + 1], ps[1]);
      AllowedIsNear(ps[0], |tokens[k]|, ps[1]);
      var p := FirstAllowed(recorded(tokens[k + 1]).value, ps[0], |tokens[k]|).value;
      AllowedIsNear(ps[0], |tokens[k]|, p);
      if |ps| > 2 {
        OnlyOneIsNear(recorded, tokens, k, ps[0], p, ps[1]);
        PhraseIsChain(recorded, tokens, k + 1, ps[1..]);
      }
    }
  }

  lemma OnlyOneIsNear(recorded: Recorded, tokens: seq<Text>, k: nat, previous: u32, p: u32, q: u32)
    requires Unambiguous(recorded, tokens) && k + 2 < |tokens| && previous >= Start(tokens, k)
    requires Has(recorded, tokens[k + 1], p) && Has(recorded, tokens[k + 1], q)
    requires Near(previous, |tokens[k]|, p) && Near(previous, |tokens[k]|, q)
    ensures p == q
  {
    assert IsPlain(recorded, tokens, k + 1);
    assert !HasNeighbours(recorded, tokens[k + 1], p) && !HasNeighbours(recorded, tokens[k + 1], q);
  }

  lemma {:induction false} SomeChainSucceeds(recorded: Recorded, tokens: seq<Text>, starts: seq<u32>, p: u32)
    requires tokens != [] && p in starts && Chain(recorded, tokens, 0, p).Some?
    ensures FirstChain(recorded, tokens, starts).Some?
  {
    if starts[0] != p && Chain(recorded, tokens, 0, starts[0]).None? {
      SomeChainSucceeds(recorded, tokens, starts[1..], p);
    }
  }

  lemma PhraseSucceeds(recorded: Recorded, tokens: seq<Text>, ps: seq<u32>)
    requires tokens != [] && Short(tokens) && Unambiguous(recorded, tokens) && IsPhrase(recorded, tokens, 0, ps)
    ensures Consecutive(recorded, tokens).Some?
  {
    PhraseIsChain(recorded, tokens, 0, ps);
    SomeChainSucceeds(recorded, tokens, recorded(tokens[0]).value, ps[0]);
  }

  ghost predicate HasPhrase(recorded: Recorded, tokens: seq<Text>) {
    exists ps :: IsPhrase(recorded, tokens, 0, ps)
  }

  /** Where no inner token is recorded at two such offsets, the greedy check succeeds exactly when there is a
      phrase.  For phrases of one or two tokens that is always so. */
  lemma ConsecutiveExactlyWhen(recorded: Recorded, tokens: seq<Text>)
    requires tokens != [] && Short(tokens) && Unambiguous(recorded, tokens)
    ensures Consecutive(recorded, tokens).Some? <==> HasPhrase(recorded, tokens)
  {
    if Consecutive(recorded, tokens).Some? {
      var ps := SuccessIsPhrase(recorded, tokens);
      assert HasPhrase(recorded, tokens);
    }
    if HasPhrase(recorded, tokens) {
      var ps :| IsPhrase(recorded, tokens, 0, ps);
      PhraseSucceeds(recorded, tokens, ps);
    }
  }

  // ----- when the greedy check misses a phrase -----

  ghost predicate IsMissed(recorded: Recorded, tokens: seq<Text>)
    requires tokens != []
  {
    HasPhrase(recorded, tokens) && Consecutive(recorded, tokens).None?
  }

  lemma {:induction false} PartsArePhrase(recorded: Recorded, tokens: seq<Text>, k: nat, ps: seq<u32>)
    requires ps != [] && k + |ps| == |tokens|
    requires forall i :: 0 <= i < |ps| ==> Has(recorded, tokens[k + i], ps[i])
    requires forall i :: 0 < i < |ps| ==> Near(ps[i - 1], |tokens[k + i - 1]|, ps[i])
    ensures IsPhrase(recorded, tokens, k, ps)
    decreases |ps|
  {
    if |ps| > 1 {
      forall i | 0 <= i < |ps| - 1 ensures Has(recorded, tokens[k + 1 + i], ps[1..][i]) {
        assert Has(recorded, tokens[k + (i + 1)], ps[i + 1]);
      }
      forall i | 0 < i < |ps| - 1 ensures Near(ps[1..][i - 1], |tokens[k + 1 + i - 1]|, ps[1..][i]) {
        assert Near(ps[i + 1 - 1], |tokens[k + (i + 1) - 1]|, ps[i + 1]);
      }
      PartsArePhrase(recorded, tokens, k + 1, ps[1..]);
    }
  }

  /** Each place is near the end of the token before it. */
  predicate FollowOn(tokens: seq<Text>, ps: seq<u32>) {
    |ps| == |tokens| && forall j :: 0 < j < |ps| ==> Near(ps[j - 1], |tokens[j - 1]|, ps[j])
  }

  /** Each token but `i` is recorded at its place and nowhere else. */
  predicate OneEach(recorded: Recorded, tokens: seq<Text>, i: nat, ps: seq<u32>) {
    |ps| == |tokens| && forall j :: 0 <= j < |tokens| && j != i ==> recorded(tokens[j]) == Some([ps[j]])
  }

  /** The places of a phrase in which only the token `i` has other offsets too. */
  predicate IsLaidOut(recorded: Recorded, tokens: seq<Text>, i: nat, ps: seq<u32>)
    requires i < |tokens|
  {
    FollowOn(tokens, ps) && OneEach(recorded, tokens, i, ps) && Has(recorded, tokens[i], ps[i])
  }

  lemma AmongOne(r: u32, previous: u32, length: nat)
    ensures FirstAllowed([r], previous, length) == if Allowed(previous, length, r) then Some(r) else None
  {
  }

  /** Up to the token `i` the check can only follow the phrase. */
  lemma {:induction false} ChainReaches(recorded: Recorded, tokens: seq<Text>, i: nat, ps: seq<u32>, k: nat)
    requires k < i < |tokens| && Short(tokens) && IsLaidOut(recorded, tokens, i, ps)
    requires Chain(recorded, tokens, i - 1, ps[i - 1]).None?
    ensures Chain(recorded, tokens, k, ps[k]).None?
    decreases i - k
  {
    if k < i - 1 {
      ChainReaches(recorded, tokens, i, ps, k + 1);
      assert Near(ps[k + 1 - 1], |tokens[k + 1 - 1]|, ps[k + 1]);
      AllowedIsNear(ps[k], |tokens[k]|, ps[k + 1]);
      AmongOne(ps[k + 1], ps[k], |tokens[k]|);
    }
  }

  /** There the check takes one of two neighbours, and the token behind goes with the other. */
  lemma WrongNeighbour(recorded: Recorded, tokens: seq<Text>, i: nat, ps: seq<u32>, taken: u32)
    requires Short(tokens) && 0 < i < |tokens| - 1 && IsLaidOut(recorded, tokens, i, ps)
    requires FirstAllowed(recorded(tokens[i]).value, ps[i - 1], |tokens[i - 1]|) == Some(taken)
    requires !Allowed(taken, |tokens[i]|, ps[i + 1])
    ensures IsMissed(recorded, tokens)
  {
    LaidOutIsPhrase(recorded, tokens, i, ps);
    AmongOne(ps[i + 1], taken, |tokens[i]|);
    ChainStops(recorded, tokens, i, ps[i - 1], taken);
    ChainReaches(recorded, tokens, i, ps, 0);
    OneStart(recorded, tokens, ps[0]);
  }

  lemma LaidOutIsPhrase(recorded: Recorded, tokens: seq<Text>, i: nat, ps: seq<u32>)
    requires i < |tokens| && IsLaidOut(recorded, tokens, i, ps)
    ensures HasPhrase(recorded, tokens)
  {
    forall j | 0 <= j < |ps| ensures Has(recorded, tokens[j], ps[j]) {
      assert j != i ==> recorded(tokens[j]) == Some([ps[j]]);
    }
    PartsArePhrase(recorded, tokens, 0, ps);
  }

  lemma ChainStops(recorded: Recorded, tokens: seq<Text>, i: nat, previous: u32, taken: u32)
    requires 0 < i < |tokens| - 1 && recorded(tokens[i]).Some? && recorded(tokens[i + 1]).Some?
    requires FirstAllowed(recorded(tokens[i]).value, previous, |tokens[i - 1]|) == Some(taken)
    requires FirstAllowed(recorded(tokens[i + 1]).value, taken, |tokens[i]|) == None
    ensures Chain(recorded, tokens, i - 1, previous) == None
  {
    assert Chain(recorded, tokens, i, taken) == None;
  }

  lemma OneStart(recorded: Recorded, tokens: seq<Text>, p: u32)
    requires tokens != [] && Chain(recorded, tokens, 0, p) == None
    ensures FirstChain(recorded, tokens, [p]) == None
  {
    assert [p][1..] == [];
  }

  ghost predicate Distinct(tokens: seq<Text>) {
    forall j, k :: 0 <= j < k < |tokens| ==> tokens[j] != tokens[k]
  }

  function IndexOf(tokens: seq<Text>, term: Text): (j: nat)
    requires term in tokens
    ensures j < |tokens| && tokens[j] == term
  {
    if tokens[0] == term then 0 else 1 + IndexOf(tokens[1..], term)
  }

  /** A document with these offsets of the token `i` and one of each other token. */
  function Beside(tokens: seq<Text>, i: nat, offsets: seq<u32>, ps: seq<u32>): Recorded
    requires i < |tokens| == |ps|
  {
    (term: Text) =>
      if term == tokens[i] then Some(offsets)
      else if term in tokens then Some([ps[IndexOf(tokens, term)]])
      else None
  }

  lemma BesideRecords(tokens: seq<Text>, i: nat, offsets: seq<u32>, ps: seq<u32>) returns (recorded: Recorded)
    requires Distinct(tokens) && i < |tokens| == |ps|
    ensures recorded(tokens[i]) == Some(offsets) && OneEach(recorded, tokens, i, ps)
  {
    recorded := Beside(tokens, i, offsets, ps);
    forall j | 0 <= j < |tokens| && j != i ensures recorded(tokens[j]) == Some([ps[j]]) {
      assert tokens[j] != tokens[i];
      assert IndexOf(tokens, tokens[j]) == j;
    }
  }

  lemma {:induction false} StartRises(tokens: seq<Text>, j: nat, k: nat)
    requires j <= k <= |tokens|
    ensures Start(tokens, j) <= Start(tokens, k)
  {
    if j < k {
      StartRises(tokens, j, k - 1);
    }
  }

  /** The first tokens close together up to `q`, the token `i` at `other`, and those behind it from `r` on. */
  function PlaceOf(tokens: seq<Text>, i: nat, q: u32, other: u32, r: nat, j: nat): u32
    requires i + 1 < |tokens| && j < |tokens| && Start(tokens, i) <= q
    requires r + Start(tokens, |tokens| - 1) - Start(tokens, i + 1) < 0x1_0000_0000
  {
    StartRises(tokens, j, if j < i then i else j);
    StartRises(tokens, if j <= i then i + 1 else j, |tokens| - 1);
    StartRises(tokens, i + 1, if j <= i then i + 1 else j);
    if j < i then q - (Start(tokens, i) - Start(tokens, j))
    else if j == i then other
    else r + (Start(tokens, j) - Start(tokens, i + 1))
  }

  lemma PlacesAreNear(tokens: seq<Text>, i: nat, q: u32, other: u32, r: nat, j: nat)
    requires 0 < i < |tokens| - 1 && 0 < j < |tokens| && Start(tokens, i) <= q
    requires r + Start(tokens, |tokens| - 1) - Start(tokens, i + 1) < 0x1_0000_0000
    requires q <= other <= q + 1 && 1 <= r - (other + |tokens[i]|) <= 2
    ensures Near(PlaceOf(tokens, i, q, other, r, j - 1), |tokens[j - 1]|, PlaceOf(tokens, i, q, other, r, j))
  {
    assert Start(tokens, j) == Start(tokens, j - 1) + |tokens[j - 1]| + 1;
  }

  lemma Places(tokens: seq<Text>, i: nat, q: u32, other: u32, r: nat) returns (ps: seq<u32>)
    requires 0 < i < |tokens| - 1 && Start(tokens, i) <= q
    requires r + Start(tokens, |tokens| - 1) - Start(tokens, i + 1) < 0x1_0000_0000
    requires q <= other <= q + 1 && 1 <= r - (other + |tokens[i]|) <= 2
    ensures FollowOn(tokens, ps)
    ensures ps[i - 1] == q - |tokens[i - 1]| - 1 && ps[i] == other && ps[i + 1] == r
  {
    ps := seq(|tokens|, j requires 0 <= j < |tokens| => PlaceOf(tokens, i, q, other, r, j));
    forall j | 0 < j < |ps| ensures Near(ps[j - 1], |tokens[j - 1]|, ps[j]) {
      PlacesAreNear(tokens, i, q, other, r, j);
    }
    assert Start(tokens, i) == Start(tokens, i - 1) + |tokens[i - 1]| + 1;
  }

  /** All inner tokens but `i` are plain. */
  ghost predicate OthersArePlain(recorded: Recorded, tokens: seq<Text>, i: nat) {
    forall j :: 0 < j < |tokens| - 1 && j != i ==> IsPlain(recorded, tokens, j)
  }

  /** Room for the phrase below the limit of 32 bits. */
  predicate HasRoom(tokens: seq<Text>, i: nat, q: nat)
    requires i + 1 < |tokens|
  {
    q + 2 + Start(tokens, |tokens| - 1) - Start(tokens, i) < 0x1_0000_0000
  }

  /** Whatever else is recorded of an inner token: two neighbouring offsets that leave room for the tokens before
      it, and there are places for all other tokens with which an existing phrase is missed. */
  lemma NeighboursAreMissed(tokens: seq<Text>, i: nat, offsets: seq<u32>, q: u32) returns (recorded: Recorded)
    requires Distinct(tokens) && Short(tokens) && 0 < i < |tokens| - 1
    requires q in offsets && q + 1 in offsets && q >= Start(tokens, i) && HasRoom(tokens, i, q)
    ensures recorded(tokens[i]) == Some(offsets) && OthersArePlain(recorded, tokens, i) && IsMissed(recorded, tokens)
  {
    var x, y := |tokens[i - 1]|, |tokens[i]|;
    var p: u32 := q - x - 1;
    AllowedIsNear(p, x, q);
    var taken := FirstAllowed(offsets, p, x).value;
    AllowedIsNear(p, x, taken);
    if taken == q {
      recorded := MissedAround(tokens, i, offsets, q, q, q + 1, q + y + 3);
    } else {
      recorded := MissedAround(tokens, i, offsets, q, taken, q, q + y + 1);
    }
  }

  lemma MissedAround(tokens: seq<Text>, i: nat, offsets: seq<u32>, q: u32, taken: u32, other: u32, r: nat)
    returns (recorded: Recorded)
    requires Distinct(tokens) && Short(tokens) && 0 < i < |tokens| - 1 && Start(tokens, i) <= q && other in offsets
    requires r + Start(tokens, |tokens| - 1) - Start(tokens, i + 1) < 0x1_0000_0000
    requires q <= other <= q + 1 && 1 <= r - (other + |tokens[i]|) <= 2 && !(1 <= r - (taken + |tokens[i]|) <= 2)
    requires FirstAllowed(offsets, q - |tokens[i - 1]| - 1, |tokens[i - 1]|) == Some(taken)
    ensures recorded(tokens[i]) == Some(offsets) && OthersArePlain(recorded, tokens, i) && IsMissed(recorded, tokens)
  {
    var ps := Places(tokens, i, q, other, r);
    recorded := BesideRecords(tokens, i, offsets, ps);
    AllowedIsNear(taken, |tokens[i]|, r);
    WrongNeighbour(recorded, tokens, i, ps, taken);
    OneOffsetIsPlain(recorded, tokens, i, ps);
  }

  lemma OneOffsetIsPlain(recorded: Recorded, tokens: seq<Text>, i: nat, ps: seq<u32>)
    requires OneEach(recorded, tokens, i, ps)
    ensures OthersArePlain(recorded, tokens, i)
  {
    forall j, q: nat | 0 < j < |tokens| - 1 && j != i ensures !HasNeighbours(recorded, tokens[j], q) {
      assert recorded(tokens[j]) == Some([ps[j]]);
    }
  }

  /** The check is right wherever the other tokens stand, if none of them misleads it. */
  ghost predicate IsExactWithin(tokens: seq<Text>, i: nat, offsets: seq<u32>)
    requires i < |tokens|
  {
    forall recorded: Recorded {:trigger HasPhrase(recorded, tokens)} ::
      recorded(tokens[i]) == Some(offsets) && OthersArePlain(recorded, tokens, i) ==>
        (Consecutive(recorded, tokens).Some? <==> HasPhrase(recorded, tokens))
  }

  /** So the condition on an inner token cannot be weakened: in a phrase of different tokens, and away from the
      limit of 32 bits, the check is right in every document exactly when no two neighbouring offsets of the token
      leave room for the tokens before it. */
  lemma InnerTokenExactlyWhen(tokens: seq<Text>, i: nat, offsets: seq<u32>)
    requires Distinct(tokens) && Short(tokens) && 0 < i < |tokens| - 1
    requires forall q :: q in offsets ==> HasRoom(tokens, i, q)
    ensures IsExactWithin(tokens, i, offsets) <==>
              forall q: u32 :: q in offsets && q + 1 in offsets ==> q < Start(tokens, i)
  {
    if forall q: u32 :: q in offsets && q + 1 in offsets ==> q < Start(tokens, i) {
      forall recorded: Recorded | recorded(tokens[i]) == Some(offsets) && OthersArePlain(recorded, tokens, i)
        ensures Consecutive(recorded, tokens).Some? <==> HasPhrase(recorded, tokens)
      {
        assert IsPlain(recorded, tokens, i);
        ConsecutiveExactlyWhen(recorded, tokens);
      }
    } else {
      var q: u32 :| q in offsets && q + 1 in offsets && q >= Start(tokens, i);
      var recorded := NeighboursAreMissed(tokens, i, offsets, q);
      assert HasPhrase(recorded, tokens);
    }
  }

  // ----- in a document with one text -----

  /** The offsets of one text, as the extraction records them. */
  function RecordedOf(index: E.Offsets): Recorded {
    (term: Text) => if term in index then Some(index[term]) else None
  }

  lemma {:induction false} PhraseParts(recorded: Recorded, tokens: seq<Text>, k: nat, ps: seq<u32>, i: nat)
    requires IsPhrase(recorded, tokens, k, ps) && i < |ps|
    ensures k + i < |tokens| && Has(recorded, tokens[k + i], ps[i])
    ensures i + 1 < |ps| ==> Near(ps[i], |tokens[k + i]|, ps[i + 1])
    decreases i
  {
    if i > 0 {
      PhraseParts(recorded, tokens, k + 1, ps[1..], i - 1);
    }
  }

  /** Found in the offsets of a text, the tokens stand in the lowercased text in order, with gaps of one or two
      bytes. */
  lemma PhraseStandsInText(lower: Text, mask: seq<bool>, tokens: seq<Text>) returns (ps: seq<u32>)
    requires |mask| == |lower| && tokens != [] && Short(tokens)
    requires Consecutive(RecordedOf(E.OffsetsOf(lower, mask)), tokens).Some?
    ensures |ps| == |tokens|
    ensures forall i :: 0 <= i < |ps| ==> E.Occurs(lower, tokens[i], ps[i])
    ensures forall i :: 0 < i < |ps| ==> Near(ps[i - 1], |tokens[i - 1]|, ps[i])
  {
    var recorded := RecordedOf(E.OffsetsOf(lower, mask));
    ps := SuccessIsPhrase(recorded, tokens);
    forall i | 0 <= i < |ps| ensures E.Occurs(lower, tokens[i], ps[i]) {
      PhraseParts(recorded, tokens, 0, ps, i);
      E.OffsetsAreOccurrences(lower, mask, tokens[i]);
    }
    forall i | 0 < i < |ps| ensures Near(ps[i - 1], |tokens[i - 1]|, ps[i]) {
      PhraseParts(recorded, tokens, 0, ps, i - 1);
    }
  }

  // ----- a text in which a phrase is missed -----

  /** x yy  z y */
  const TEXT: Text := [120, 32, 121, 121, 32, 32, 122, 32, 121]
  const BLANK: seq<bool> := [false, true, false, false, true, true, false, true, false]

  predicate IsExample(text: Text, mask: seq<bool>) {
    && |text| == |mask| == 9
    && text[0] == 120 && text[1] == 32 && text[2] == 121 && text[3] == 121 && text[4] == 32 && text[5] == 32
    && text[6] == 122 && text[7] == 32 && text[8] == 121
    && !mask[0] && mask[1] && !mask[2] && !mask[3] && mask[4] && mask[5] && !mask[6] && mask[7] && !mask[8]
  }

  const X: Text := [120]
  const Y: Text := [121]
  const Z: Text := [122]

  lemma TokenStep(lower: Text, mask: seq<bool>, i: nat, j: nat)
    requires |lower| == |mask| && i < j <= |mask| && (forall k :: i <= k < j ==> !mask[k]) && (j < |mask| ==> mask[j])
    ensures E.TokensFrom(lower, mask, i) == [lower[i..j]] + E.TokensFrom(lower, mask, j)
  {
    assert E.RunEnd(mask, i) == j;
  }

  lemma BlankStep(lower: Text, mask: seq<bool>, i: nat)
    requires |lower| == |mask| && i < |mask| && mask[i]
    ensures E.TokensFrom(lower, mask, i) == E.TokensFrom(lower, mask, i + 1)
  {
  }

  lemma TokensOfExample(lower: Text, mask: seq<bool>)
    requires IsExample(lower, mask)
    ensures E.TokensFrom(lower, mask, 0) == [X, [121, 121], Z, Y]
  {
    TokenStep(lower, mask, 0, 1);
    BlankStep(lower, mask, 1);
    TokenStep(lower, mask, 2, 4);
    BlankStep(lower, mask, 4);
    BlankStep(lower, mask, 5);
    TokenStep(lower, mask, 6, 7);
    BlankStep(lower, mask, 7);
    TokenStep(lower, mask, 8, 9);
    assert E.TokensFrom(lower, mask, 9) == [];
    assert lower[0..1] == X && lower[2..4] == [121, 121];
    assert lower[6..7] == Z && lower[8..9] == Y;
    assert [X] + ([[121, 121]] + ([Z] + ([Y] + []))) == [X, [121, 121], Z, Y];
  }

  lemma ByteOccurs(text: Text, c: u8, p: nat)
    ensures E.Occurs(text, [c], p) <==> p < |text| && text[p] == c
  {
    if p < |text| {
      assert text[p..p + 1] == [text[p]];
    }
  }

  predicate Scans(text: Text, t: Text, from: nat, offsets: seq<u32>)
    requires t != []
  {
    E.Scan(text, t, from) == offsets
  }

  /** Scanning for one byte: the next place, and on behind it. */
  lemma ScanByte(text: Text, c: u8, from: nat, p: nat, rest: seq<u32>)
    requires from <= p < |text| < E.OFFSET_LIMIT && text[p] == c && forall k :: from <= k < p ==> text[k] != c
    requires Scans(text, [c], p + 1, rest)
    ensures Scans(text, [c], from, [p] + rest)
  {
    E.FindIsFirst(text, [c], from);
    ByteOccurs(text, c, p);
    ByteOccurs(text, c, E.Find(text, [c], from).value);
    E.ScanStep(text, [c], from, Some(p));
  }

  lemma ScanEnds(text: Text, c: u8, from: nat)
    requires forall k :: from <= k < |text| ==> text[k] != c
    ensures Scans(text, [c], from, [])
  {
    E.FindIsFirst(text, [c], from);
    var found := E.Find(text, [c], from);
    if found.Some? {
      ByteOccurs(text, c, found.value);
    }
  }

  lemma OffsetsOfOne(text: Text, c: u8, p: nat)
    requires |text| < E.OFFSET_LIMIT && p < |text| && forall k :: 0 <= k < |text| ==> (text[k] == c <==> k == p)
    ensures Scans(text, [c], 0, [p])
  {
    ScanEnds(text, c, p + 1);
    ScanByte(text, c, 0, p, []);
    assert [p] + [] == [p];
  }

  lemma OffsetsOfThree(text: Text, c: u8, p: nat, q: nat, r: nat)
    requires |text| < E.OFFSET_LIMIT && p < q < r < |text|
    requires forall k :: 0 <= k < |text| ==> (text[k] == c <==> k == p || k == q || k == r)
    ensures Scans(text, [c], 0, [p, q, r])
  {
    ScanEnds(text, c, r + 1);
    ScanByte(text, c, q + 1, r, []);
    ScanByte(text, c, p + 1, q, [r] + []);
    ScanByte(text, c, 0, p, [q] + ([r] + []));
    assert [p] + ([q] + ([r] + [])) == [p, q, r];
  }

  lemma RecordedOnce(text: Text, mask: seq<bool>, t: Text, offsets: seq<u32>)
    requires IsExample(text, mask)
    requires t != [] && Scans(text, t, 0, offsets) && offsets != [] && multiset([X, [121, 121], Z, Y])[t] == 1
    ensures RecordedOf(E.OffsetsOf(text, mask))(t) == Some(offsets)
  {
    TokensOfExample(text, mask);
    E.NoTokenIsEmpty(text, mask, 0);
    E.RecordedAreCopies(text, E.TokensFrom(text, mask, 0), t);
    assert E.Copies(offsets, 1) == offsets;
  }

  lemma RecordedOfExample(text: Text, mask: seq<bool>, recorded: Recorded)
    requires IsExample(text, mask) && recorded == RecordedOf(E.OffsetsOf(text, mask))
    ensures recorded(X) == Some([0]) && recorded(Y) == Some([2, 3, 8]) && recorded(Z) == Some([6])
  {
    OffsetsOfOne(text, 120, 0);
    OffsetsOfThree(text, 121, 2, 3, 8);
    OffsetsOfOne(text, 122, 6);
    RecordedOnce(text, mask, X, [0]);
    RecordedOnce(text, mask, Y, [2, 3, 8]);
    RecordedOnce(text, mask, Z, [6]);
  }

  /** In the offsets of the text `x yy  z y` the check misses the phrase x y z: from x it follows the first y
      of yy, and z goes with the second. */
  lemma GreedyCheckCanMiss()
    ensures IsMissed(RecordedOf(E.OffsetsOf(TEXT, BLANK)), [X, Y, Z])
  {
    assert IsExample(TEXT, BLANK);
    var recorded := RecordedOf(E.OffsetsOf(TEXT, BLANK));
    RecordedOfExample(TEXT, BLANK, recorded);
    assert [2, 3, 8][1] == 3;
    assert IsLaidOut(recorded, [X, Y, Z], 1, [0, 3, 6]);
    WrongNeighbour(recorded, [X, Y, Z], 1, [0, 3, 6], 2);
  }
}
