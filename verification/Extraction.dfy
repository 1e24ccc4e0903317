// Where the terms of a document stand: splitting texts into tokens and recording the byte offsets of each.
module Extraction {
  import opened Bytes
  import opened ByteReading
  import opened Values

  const OFFSET_LIMIT: nat := 0x1_0000_0000

  /** Whether a byte of a text belongs to white space.  That is decided by Unicode, in a library. */
  type Blanks = (Text, nat) -> bool

  function Mask(blanks: Blanks, text: Text): (mask: seq<bool>)
    ensures |mask| == |text|
  {
    seq(|text|, (i: nat) => blanks(text, i))
  }

  type Offsets = map<Text, seq<u32>>

  function LowerByte(c: u8): u8 {
    if 65 <= c <= 90 then c + 32 else c
  }

  function Lower(text: Text): (lower: Text)
    ensures |lower| == |text|
  {
    seq(|text|, i requires 0 <= i < |text| => LowerByte(text[i]))
  }

  /** The capital letters of ASCII become small ones, and nothing else changes. */
  lemma LoweredExactlyWhen(text: Text, k: nat)
    requires k < |text|
    ensures var c, lower := text[k], Lower(text)[k];
            && (lower == c <==> c < 'A' as int || c > 'Z' as int)
            && (lower != c ==> lower - 'a' as int == c - 'A' as int)
  {
  }

  // ----- tokens -----

  /** A longest stretch without white space. */
  ghost predicate IsToken(mask: seq<bool>, i: nat, j: nat) {
    && i < j <= |mask| && (forall k :: i <= k < j ==> !mask[k])
    && (i == 0 || mask[i - 1]) && (j == |mask| || mask[j])
  }

  function RunEnd(mask: seq<bool>, i: nat): (j: nat)
    requires i <= |mask|
    ensures i <= j <= |mask| && (forall k :: i <= k < j ==> !mask[k]) && (j < |mask| ==> mask[j])
    decreases |mask| - i
  {
    if i == |mask| || mask[i] then i else RunEnd(mask, i + 1)
  }

  function TokensFrom(lower: Text, mask: seq<bool>, i: nat): seq<Text>
    requires i <= |mask| == |lower|
    decreases |mask| - i
  {
    if i == |mask| then []
    else if mask[i] then TokensFrom(lower, mask, i + 1)
    else [lower[i..RunEnd(mask, i)]] + TokensFrom(lower, mask, RunEnd(mask, i))
  }

  method Tokenize(lower: Text, mask: seq<bool>) returns (tokens: seq<Text>)
    requires |mask| == |lower|
    ensures tokens == TokensFrom(lower, mask, 0)
  {
    tokens := [];
    var i := 0;
    while i < |mask|
      invariant 0 <= i <= |mask| && tokens + TokensFrom(lower, mask, i) == TokensFrom(lower, mask, 0)
    {
      if mask[i] {
        i := i + 1;
      } else {
        var j := i;
        while j < |mask| && !mask[j]
          invariant i <= j <= |mask| && RunEnd(mask, j) == RunEnd(mask, i) && (j == i ==> !mask[i])
        {
          j := j + 1;
        }
        tokens := tokens + [lower[i..j]];
        i := j;
      }
    }
  }

  /** Some stretch from `from` on has this text. */
  ghost predicate IsStretchFrom(lower: Text, mask: seq<bool>, from: nat, t: Text)
    requires |lower| == |mask|
  {
    exists i: nat, j: nat :: from <= i && IsToken(mask, i, j) && lower[i..j] == t
  }

  lemma BehindBlank(lower: Text, mask: seq<bool>, from: nat, t: Text)
    requires from < |mask| == |lower| && mask[from]
    ensures IsStretchFrom(lower, mask, from, t) <==> IsStretchFrom(lower, mask, from + 1, t)
  {
    if IsStretchFrom(lower, mask, from, t) {
      var i: nat, j: nat :| from <= i && IsToken(mask, i, j) && lower[i..j] == t;
      assert from + 1 <= i;
    }
  }

  lemma BehindStretch(lower: Text, mask: seq<bool>, from: nat, end: nat, t: Text)
    requires |mask| == |lower| && IsToken(mask, from, end)
    ensures IsStretchFrom(lower, mask, from, t) <==> lower[from..end] == t || IsStretchFrom(lower, mask, end, t)
  {
    if IsStretchFrom(lower, mask, from, t) {
      var i: nat, j: nat :| from <= i && IsToken(mask, i, j) && lower[i..j] == t;
      SameStretch(mask, from, end, i, j);
    }
  }

  /** The tokens are the texts of the token stretches. */
  lemma {:induction false} TokensAreStretches(lower: Text, mask: seq<bool>, from: nat, t: Text)
    requires from <= |mask| == |lower| && (from == 0 || from == |mask| || mask[from - 1] || mask[from])
    ensures t in TokensFrom(lower, mask, from) <==> IsStretchFrom(lower, mask, from, t)
    decreases |mask| - from
  {
    if from < |mask| {
      if mask[from] {
        TokensAreStretches(lower, mask, from + 1, t);
        BehindBlank(lower, mask, from, t);
      } else {
        var end := RunEnd(mask, from);
        TokensAreStretches(lower, mask, end, t);
        BehindStretch(lower, mask, from, end, t);
      }
    }
  }

  lemma SameStretch(mask: seq<bool>, from: nat, end: nat, i: nat, j: nat)
    requires IsToken(mask, from, end) && IsToken(mask, i, j) && from <= i
    ensures (i == from && j == end) || end <= i
  {
  }

  // ----- occurrences -----

  /** The first position from which the token stands. */
  function Find(text: Text, token: Text, from: nat): (r: Option<nat>)
    ensures r.Some? ==> from <= r.value && r.value + |token| <= |text|
    decreases |text| - from
  {
    if from + |token| > |text| then None
    else if Occurs(text, token, from) then Some(from)
    else Find(text, token, from + 1)
  }

  lemma {:induction false} FindIsFirst(text: Text, token: Text, from: nat)
    ensures var r := Find(text, token, from);
            && (r.Some? ==> Occurs(text, token, r.value))
            && forall p :: from <= p && (r.Some? ==> p < r.value) ==> !Occurs(text, token, p)
    decreases |text| - from
  {
    if from + |token| <= |text| && !Occurs(text, token, from) {
      FindIsFirst(text, token, from + 1);
    }
  }

  predicate Occurs(text: Text, token: Text, p: nat) {
    p + |token| <= |text| && text[p..p + |token|] == token
  }

  /** The recorded offsets of a token: occurrences that do not overlap, as far as they fit 32 bits. */
  function Scan(text: Text, token: Text, from: nat): seq<u32>
    requires token != []
    decreases |text| - from
  {
    match Find(text, token, from)
    case None => []
    case Some(p) => if p < OFFSET_LIMIT then [p] + Scan(text, token, p + |token|) else Scan(text, token, p + 1)
  }

  lemma {:induction false} ScanIsSound(text: Text, token: Text, from: nat, p: u32)
    requires token != [] && p in Scan(text, token, from)
    ensures from <= p && Occurs(text, token, p)
    decreases |text| - from
  {
    FindIsFirst(text, token, from);
    var q := Find(text, token, from).value;
    if q >= OFFSET_LIMIT {
      ScanIsSound(text, token, q + 1, p);
    } else if p != q {
      ScanIsSound(text, token, q + |token|, p);
    }
  }

  ghost predicate IsClear(mask: seq<bool>, from: nat, to: nat) {
    to <= |mask| && forall k :: from <= k < to ==> !mask[k]
  }

  /** The bytes of a token contain no white space, wherever they stand. */
  ghost predicate Consistent(lower: Text, mask: seq<bool>) {
    && |mask| == |lower|
    && forall i: nat, j: nat, p: nat ::
         IsToken(mask, i, j) && Occurs(lower, lower[i..j], p) ==> IsClear(mask, p, p + (j - i))
  }

  /** With white space decided byte by byte that is always so. */
  lemma BytewiseIsConsistent(lower: Text, mask: seq<bool>, space: u8 -> bool)
    requires |mask| == |lower| && forall k :: 0 <= k < |mask| ==> mask[k] == space(lower[k])
    ensures Consistent(lower, mask)
  {
    forall i: nat, j: nat, p: nat | IsToken(mask, i, j) && Occurs(lower, lower[i..j], p)
      ensures IsClear(mask, p, p + (j - i))
    {
      forall k | p <= k < p + (j - i) ensures !mask[k] {
        assert lower[p..p + (j - i)][k - p] == lower[i..j][k - p];
      }
    }
  }

  // ----- characters -----

  predicate IsContinuation(c: u8) {
    128 <= c < 192
  }

  /** The bytes of a character, as its first byte tells. */
  function Width(c: u8): nat {
    if c < 128 then 1 else if c < 224 then 2 else if c < 240 then 3 else 4
  }

  /** The leading bits of a first byte give the width of its character, as section 3 of RFC 3629 has it. */
  lemma LeadingBitsExactlyWhen(c: u8)
    ensures IsContinuation(c) <==> c / 64 == 2
    ensures c / 128 == 0 ==> Width(c) == 1
    ensures c / 32 == 6 ==> Width(c) == 2
    ensures c / 16 == 14 ==> Width(c) == 3
    ensures c / 8 == 30 ==> Width(c) == 4
  {
  }

  function CharacterEnd(text: Text, s: nat): (e: nat)
    requires s < |text|
    ensures s < e <= |text| && (forall k :: s < k < e ==> IsContinuation(text[k]))
    ensures e < |text| ==> !IsContinuation(text[e])
    decreases |text| - s
  {
    if s + 1 == |text| || !IsContinuation(text[s + 1]) then s + 1 else CharacterEnd(text, s + 1)
  }

  /** Characters of UTF-8: a first byte that is no continuation byte, and the continuation bytes it announces. */
  ghost predicate IsUtf8(text: Text) {
    && (text != [] ==> !IsContinuation(text[0]))
    && forall s {:trigger CharacterEnd(text, s)} :: 0 <= s < |text| && !IsContinuation(text[s]) ==>
         CharacterEnd(text, s) - s == Width(text[s])
  }

  function CharacterAt(text: Text, s: nat): Text
    requires s < |text|
  {
    text[s..CharacterEnd(text, s)]
  }

  /** White space is decided for whole characters, by their bytes. */
  ghost predicate IsByCharacter(text: Text, mask: seq<bool>, space: Text -> bool) {
    && |mask| == |text|
    && forall s, k {:trigger CharacterAt(text, s), mask[k]} ::
         0 <= s < |text| && !IsContinuation(text[s]) && s <= k < CharacterEnd(text, s) ==>
           mask[k] == space(CharacterAt(text, s))
  }

  function CharacterStart(text: Text, k: nat): (s: nat)
    requires k < |text| && !IsContinuation(text[0])
    ensures s <= k && !IsContinuation(text[s]) && k < CharacterEnd(text, s)
  {
    if !IsContinuation(text[k]) then k
    else
      var s := CharacterStart(text, k - 1);
      assert CharacterEnd(text, s) != k;
      s
  }

  lemma SameWithinCharacter(text: Text, mask: seq<bool>, space: Text -> bool, b: nat)
    requires IsUtf8(text) && IsByCharacter(text, mask, space) && 0 < b < |text| && IsContinuation(text[b])
    ensures mask[b - 1] == mask[b]
  {
    var s := CharacterStart(text, b - 1);
    assert b != CharacterEnd(text, s);
    assert mask[b - 1] == space(CharacterAt(text, s));
    assert mask[b] == space(CharacterAt(text, s));
  }

  /** A stretch between white space begins and ends with a character. */
  lemma StretchIsCharacters(text: Text, mask: seq<bool>, space: Text -> bool, i: nat, j: nat)
    requires IsUtf8(text) && IsByCharacter(text, mask, space) && IsToken(mask, i, j)
    ensures !IsContinuation(text[i]) && (j < |text| ==> !IsContinuation(text[j]))
  {
    if i > 0 && IsContinuation(text[i]) {
      SameWithinCharacter(text, mask, space, i);
    }
    if j < |text| && IsContinuation(text[j]) {
      SameWithinCharacter(text, mask, space, j);
    }
  }

  /** The same bytes elsewhere are the same characters: UTF-8 synchronises itself. */
  lemma SameCharacter(text: Text, i: nat, j: nat, p: nat, s: nat)
    requires IsUtf8(text) && i <= s < j <= |text| && p + (j - i) <= |text| && text[p..p + (j - i)] == text[i..j]
    requires !IsContinuation(text[s]) && CharacterEnd(text, s) <= j
    ensures !IsContinuation(text[p + (s - i)])
    ensures CharacterEnd(text, p + (s - i)) == p + (CharacterEnd(text, s) - i)
    ensures CharacterAt(text, p + (s - i)) == CharacterAt(text, s)
  {
    var e, s', e' := CharacterEnd(text, s), p + (s - i), p + (CharacterEnd(text, s) - i);
    forall k | s <= k < e ensures text[p + (k - i)] == text[k] {
      assert text[p..p + (j - i)][k - i] == text[i..j][k - i];
    }
    assert text[s'] == text[s];
    assert text[s'..e'] == text[s..e] by {
      forall k | 0 <= k < e - s ensures text[s'..e'][k] == text[s..e][k] {
        assert text[p + (s + k - i)] == text[s + k];
      }
    }
  }

  lemma NoSpaceElsewhere(text: Text, mask: seq<bool>, space: Text -> bool, i: nat, j: nat, p: nat, k: nat)
    requires IsUtf8(text) && IsByCharacter(text, mask, space) && IsToken(mask, i, j)
    requires Occurs(text, text[i..j], p) && i <= k < j
    ensures !mask[p + (k - i)]
  {
    StretchIsCharacters(text, mask, space, i, j);
    var s := CharacterStart(text, k);
    assert s >= i;
    assert CharacterEnd(text, s) <= j;
    SameCharacter(text, i, j, p, s);
    assert mask[k] == space(CharacterAt(text, s));
    assert mask[p + (k - i)] == space(CharacterAt(text, p + (s - i)));
  }

  lemma {:induction false} NoSpaceInOccurrence(text: Text, mask: seq<bool>, space: Text -> bool, i: nat, j: nat,
                                               p: nat, n: nat)
    requires IsUtf8(text) && IsByCharacter(text, mask, space) && IsToken(mask, i, j) && Occurs(text, text[i..j], p)
    requires n <= j - i
    ensures IsClear(mask, p, p + n)
  {
    if n > 0 {
      NoSpaceInOccurrence(text, mask, space, i, j, p, n - 1);
      NoSpaceElsewhere(text, mask, space, i, j, p, i + n - 1);
      OneMoreClear(mask, p, p + n - 1);
    }
  }

  lemma OneMoreClear(mask: seq<bool>, from: nat, to: nat)
    requires from <= to < |mask| && IsClear(mask, from, to) && !mask[to]
    ensures IsClear(mask, from, to + 1)
  {
  }

  /** So in every UTF-8 text the bytes of a token contain no white space, wherever they stand. */
  lemma CharacterwiseIsConsistent(text: Text, mask: seq<bool>, space: Text -> bool)
    requires IsUtf8(text) && IsByCharacter(text, mask, space)
    ensures Consistent(text, mask)
  {
    forall i: nat, j: nat, p: nat | IsToken(mask, i, j) && Occurs(text, text[i..j], p)
      ensures IsClear(mask, p, p + (j - i))
    {
      NoSpaceInOccurrence(text, mask, space, i, j, p, j - i);
    }
  }

  lemma {:induction false} LowerEndsAlike(text: Text, s: nat)
    requires s < |text|
    ensures CharacterEnd(Lower(text), s) == CharacterEnd(text, s)
    decreases |text| - s
  {
    if s + 1 < |text| && IsContinuation(text[s + 1]) {
      LowerEndsAlike(text, s + 1);
    }
  }

  /** Lowering the letters A to Z touches no other character. */
  lemma LowerIsUtf8(text: Text)
    requires IsUtf8(text)
    ensures IsUtf8(Lower(text))
  {
    forall s | 0 <= s < |text| && !IsContinuation(Lower(text)[s])
      ensures CharacterEnd(Lower(text), s) - s == Width(Lower(text)[s])
    {
      LowerEndsAlike(text, s);
    }
  }

  lemma ClearEndsBefore(mask: seq<bool>, from: nat, to: nat, i: nat)
    requires from < i <= |mask| && mask[i - 1] && IsClear(mask, from, to)
    ensures to < i
  {
  }

  /** Wherever the token stands, there is no white space. */
  ghost predicate IsSolid(lower: Text, mask: seq<bool>, token: Text) {
    forall p: nat :: Occurs(lower, token, p) ==> IsClear(mask, p, p + |token|)
  }

  lemma FoundNoLater(text: Text, token: Text, from: nat, i: nat) returns (p: nat)
    requires Occurs(text, token, i) && from <= i
    ensures Find(text, token, from) == Some(p) && from <= p <= i && Occurs(text, token, p)
  {
    FindIsFirst(text, token, from);
    p := Find(text, token, from).value;
  }

  lemma ScanBehind(text: Text, token: Text, from: nat, p: nat, scan: seq<u32>) returns (rest: seq<u32>)
    requires token != [] && Find(text, token, from) == Some(p) && p < OFFSET_LIMIT && scan == Scan(text, token, from)
    ensures scan == [p] + rest && rest == Scan(text, token, p + |token|)
  {
    ScanStep(text, token, from, Some(p));
    rest := Scan(text, token, p + |token|);
  }

  /** The occurrence before a stretch cannot reach into it. */
  lemma {:induction false} SolidIsScanned(lower: Text, mask: seq<bool>, i: nat, token: Text, from: nat, scan: seq<u32>)
    requires |mask| == |lower| && IsSolid(lower, mask, token) && token != [] && scan == Scan(lower, token, from)
    requires Occurs(lower, token, i) && (i == 0 || mask[i - 1]) && from <= i < OFFSET_LIMIT
    ensures i in scan
    decreases |lower| - from
  {
    var p := FoundNoLater(lower, token, from, i);
    var rest := ScanBehind(lower, token, from, p, scan);
    if p < i {
      ClearEndsBefore(mask, p, p + |token|, i);
      SolidIsScanned(lower, mask, i, token, p + |token|, rest);
    }
  }

  /** Every stretch of the token is recorded. */
  lemma ScanIsComplete(lower: Text, mask: seq<bool>, i: nat, j: nat, token: Text, from: nat)
    requires Consistent(lower, mask) && IsToken(mask, i, j) && token == lower[i..j] && from <= i < OFFSET_LIMIT
    ensures i in Scan(lower, token, from)
  {
    forall p: nat | Occurs(lower, token, p) ensures IsClear(mask, p, p + |token|) {
      assert Occurs(lower, lower[i..j], p);
    }
    SolidIsScanned(lower, mask, i, token, from, Scan(lower, token, from));
  }

  // ----- the offsets of one text -----

  function WithToken(seen: Offsets, lower: Text, token: Text): Offsets
    requires token != []
  {
    var offsets := Scan(lower, token, 0);
    if offsets == [] then seen
    else seen[token := (if token in seen then seen[token] else []) + offsets]
  }

  /** A token that the text repeats is scanned for again, and its offsets are recorded once more. */
  function SeenAfter(lower: Text, tokens: seq<Text>): Offsets
    requires [] !in tokens
  {
    if tokens == [] then map[]
    else WithToken(SeenAfter(lower, tokens[..|tokens| - 1]), lower, tokens[|tokens| - 1])
  }

  method RecordToken(seen: Offsets, lower: Text, token: Text) returns (r: Offsets)
    requires token != []
    ensures r == WithToken(seen, lower, token)
  {
    var offsets := FindAll(lower, token);
    r := seen;
    if offsets != [] {
      r := r[token := (if token in r then r[token] else []) + offsets];
    }
  }

  /** The search loop for one token. */
  method FindAll(lower: Text, token: Text) returns (offsets: seq<u32>)
    requires token != []
    ensures offsets == Scan(lower, token, 0)
  {
    offsets := [];
    ghost var rest := Scan(lower, token, 0);
    ghost var all := rest;
    var from: nat := 0;
    while true
      invariant from <= |lower| && rest == Scan(lower, token, from) && all == offsets + rest
      decreases |lower| - from
    {
      var found := Find(lower, token, from);
      rest := ScanTurn(lower, token, from, found, offsets, rest, all);
      if found.None? {
        break;
      }
      if found.value < OFFSET_LIMIT {
        offsets := offsets + [found.value];
      }
      from := found.value + if found.value < OFFSET_LIMIT then |token| else 1;
    }
  }

  lemma ScanTurn(lower: Text, token: Text, from: nat, found: Option<nat>, offsets: seq<u32>, rest: seq<u32>,
                 all: seq<u32>)
    returns (left: seq<u32>)
    requires token != [] && found == Find(lower, token, from)
    requires rest == Scan(lower, token, from) && all == offsets + rest
    ensures found.None? ==> offsets == all
    ensures found.Some? ==>
              left == Scan(lower, token, found.value + if found.value < OFFSET_LIMIT then |token| else 1)
    ensures found.Some? && found.value < OFFSET_LIMIT ==> all == (offsets + [found.value]) + left
    ensures found.Some? && found.value >= OFFSET_LIMIT ==> all == offsets + left
  {
    ScanStep(lower, token, from, found);
    left := [];
    if found.Some? {
      left := Scan(lower, token, found.value + if found.value < OFFSET_LIMIT then |token| else 1);
    }
  }

  lemma ScanStep(lower: Text, token: Text, from: nat, found: Option<nat>)
    requires token != [] && found == Find(lower, token, from)
    ensures Scan(lower, token, from)
            == if found.None? then []
               else if found.value < OFFSET_LIMIT then [found.value] + Scan(lower, token, found.value + |token|)
               else Scan(lower, token, found.value + 1)
  {
  }

  method RecordTokens(lower: Text, tokens: seq<Text>) returns (seen: Offsets)
    requires [] !in tokens
    ensures seen == SeenAfter(lower, tokens)
  {
    seen := map[];
    for i := 0 to |tokens|
      invariant seen == SeenAfter(lower, tokens[..i])
    {
      assert tokens[..i + 1][..i] == tokens[..i];
      seen := RecordToken(seen, lower, tokens[i]);
    }
    assert tokens[..|tokens|] == tokens;
  }

  lemma {:induction false} NoTokenIsEmpty(lower: Text, mask: seq<bool>, i: nat)
    requires i <= |mask| == |lower|
    ensures [] !in TokensFrom(lower, mask, i)
    decreases |mask| - i
  {
    if i < |mask| {
      NoTokenIsEmpty(lower, mask, if mask[i] then i + 1 else RunEnd(mask, i));
    }
  }

  function OffsetsOf(lower: Text, mask: seq<bool>): Offsets
    requires |mask| == |lower|
  {
    NoTokenIsEmpty(lower, mask, 0);
    SeenAfter(lower, TokensFrom(lower, mask, 0))
  }

  lemma {:induction false} SeenAreTokens(lower: Text, tokens: seq<Text>, t: Text)
    requires [] !in tokens
    ensures t in SeenAfter(lower, tokens) <==> t in tokens && Scan(lower, t, 0) != []
    ensures t in SeenAfter(lower, tokens) ==>
              forall p :: p in SeenAfter(lower, tokens)[t] <==> p in Scan(lower, t, 0)
  {
    if tokens != [] {
      SeenAreTokens(lower, tokens[..|tokens| - 1], t);
      assert tokens == tokens[..|tokens| - 1] + [tokens[|tokens| - 1]];
    }
  }

  // ----- how often an offset is recorded -----

  function RecordedFor(seen: Offsets, t: Text): seq<u32> {
    if t in seen then seen[t] else []
  }

  /** The offsets, `n` times over. */
  function Copies(offsets: seq<u32>, n: nat): seq<u32> {
    if n == 0 then [] else Copies(offsets, n - 1) + offsets
  }

  lemma OneTokenMore(tokens: seq<Text>, t: Text)
    requires tokens != []
    ensures multiset(tokens)[t]
         == multiset(tokens[..|tokens| - 1])[t] + if tokens[|tokens| - 1] == t then 1 else 0
  {
    assert tokens == tokens[..|tokens| - 1] + [tokens[|tokens| - 1]];
  }

  lemma {:induction false} RecordedAreCopies(lower: Text, tokens: seq<Text>, t: Text)
    requires [] !in tokens && t != []
    ensures RecordedFor(SeenAfter(lower, tokens), t) == Copies(Scan(lower, t, 0), multiset(tokens)[t])
  {
    if tokens != [] {
      RecordedAreCopies(lower, tokens[..|tokens| - 1], t);
      OneTokenMore(tokens, t);
      if Scan(lower, t, 0) == [] {
        assert Copies(Scan(lower, t, 0), multiset(tokens)[t]) == [] by { CopiesOfNothing(multiset(tokens)[t]); }
        CopiesOfNothing(multiset(tokens[..|tokens| - 1])[t]);
        SeenAreTokens(lower, tokens, t);
      }
    }
  }

  lemma {:induction false} CopiesOfNothing(n: nat)
    ensures Copies([], n) == []
  {
    if n > 0 {
      CopiesOfNothing(n - 1);
    }
  }

  ghost predicate Ascends(offsets: seq<u32>) {
    forall i, j :: 0 <= i < j < |offsets| ==> offsets[i] < offsets[j]
  }

  lemma {:induction false} ScanAscends(text: Text, token: Text, from: nat)
    requires token != []
    ensures Ascends(Scan(text, token, from))
    decreases |text| - from
  {
    match Find(text, token, from)
    case None =>
    case Some(p) =>
      if p < OFFSET_LIMIT {
        var rest := Scan(text, token, p + |token|);
        ScanAscends(text, token, p + |token|);
        forall k | 0 <= k < |rest| ensures p < rest[k] {
          ScanIsSound(text, token, p + |token|, rest[k]);
        }
      } else {
        ScanAscends(text, token, p + 1);
      }
  }

  lemma {:induction false} AscendingOnce(offsets: seq<u32>, p: u32)
    requires Ascends(offsets)
    ensures multiset(offsets)[p] == if p in offsets then 1 else 0
  {
    if offsets != [] {
      AscendingOnce(offsets[1..], p);
      assert offsets == [offsets[0]] + offsets[1..];
    }
  }

  lemma {:induction false} CountInCopies(offsets: seq<u32>, n: nat, p: u32)
    ensures |Copies(offsets, n)| == n * |offsets|
    ensures multiset(Copies(offsets, n))[p] == n * multiset(offsets)[p]
  {
    if n > 0 {
      CountInCopies(offsets, n - 1, p);
      OneMore(n, |offsets|);
      OneMore(n, multiset(offsets)[p]);
    }
  }

  lemma OneMore(n: nat, x: nat)
    requires n > 0
    ensures n * x == (n - 1) * x + x
  {
  }

  /** A token that stands `n` times in a text is searched for `n` times: each of its offsets is recorded `n`
      times, so exactly a token that the text does not repeat is recorded right. */
  lemma RecordedOncePerRepetition(lower: Text, mask: seq<bool>, t: Text, p: u32)
    requires |mask| == |lower| && t != []
    ensures var n, recorded := multiset(TokensFrom(lower, mask, 0))[t], RecordedFor(OffsetsOf(lower, mask), t);
            && |recorded| == n * |Scan(lower, t, 0)|
            && multiset(recorded)[p] == (if p in Scan(lower, t, 0) then n else 0)
            && (recorded != [] ==> (Ascends(recorded) <==> n == 1))
  {
    NoTokenIsEmpty(lower, mask, 0);
    RecordedAreCopies(lower, TokensFrom(lower, mask, 0), t);
    ScanAscends(lower, t, 0);
    CopiesOfAscending(Scan(lower, t, 0), multiset(TokensFrom(lower, mask, 0))[t], p);
  }

  lemma CopiesOfAscending(offsets: seq<u32>, n: nat, p: u32)
    requires Ascends(offsets)
    ensures |Copies(offsets, n)| == n * |offsets|
    ensures multiset(Copies(offsets, n))[p] == if p in offsets then n else 0
    ensures Copies(offsets, n) != [] ==> (Ascends(Copies(offsets, n)) <==> n == 1)
  {
    AscendingOnce(offsets, p);
    CountInCopies(offsets, n, p);
    if Copies(offsets, n) != [] {
      CopiesAscendExactlyWhen(offsets, n);
    }
  }

  lemma CopiesAscendExactlyWhen(offsets: seq<u32>, n: nat)
    requires Ascends(offsets) && Copies(offsets, n) != []
    ensures Ascends(Copies(offsets, n)) <==> n == 1
  {
    CopiesOfNothing(n);
    if n == 1 {
      assert Copies(offsets, 1) == offsets;
    } else {
      var p := offsets[0];
      CountInCopies(offsets, n, p);
      AscendingOnce(offsets, p);
      if Ascends(Copies(offsets, n)) {
        AscendingOnce(Copies(offsets, n), p);
      }
    }
  }

  /** In one text: every recorded offset is an occurrence of a token. */
  lemma OffsetsAreOccurrences(lower: Text, mask: seq<bool>, t: Text)
    requires |mask| == |lower| && t in OffsetsOf(lower, mask)
    ensures IsStretchFrom(lower, mask, 0, t)
    ensures forall p :: p in OffsetsOf(lower, mask)[t] ==> Occurs(lower, t, p)
  {
    var tokens := TokensFrom(lower, mask, 0);
    NoTokenIsEmpty(lower, mask, 0);
    SeenAreTokens(lower, tokens, t);
    TokensAreStretches(lower, mask, 0, t);
    forall p | p in OffsetsOf(lower, mask)[t] ensures Occurs(lower, t, p) {
      ScanIsSound(lower, t, 0, p);
    }
  }

  /** And every stretch of a token within the first 2^32 bytes is recorded. */
  lemma StretchesAreRecorded(lower: Text, mask: seq<bool>, i: nat, j: nat)
    requires Consistent(lower, mask) && IsToken(mask, i, j) && i < OFFSET_LIMIT
    ensures lower[i..j] in OffsetsOf(lower, mask) && i in OffsetsOf(lower, mask)[lower[i..j]]
  {
    var tokens := TokensFrom(lower, mask, 0);
    NoTokenIsEmpty(lower, mask, 0);
    SeenAreTokens(lower, tokens, lower[i..j]);
    TokensAreStretches(lower, mask, 0, lower[i..j]);
    ScanIsComplete(lower, mask, i, j, lower[i..j], 0);
  }

  // ----- the offsets of a document -----

  function TextOffsets(blanks: Blanks, text: Text): Offsets {
    OffsetsOf(Lower(text), Mask(blanks, text))
  }

  /** The fields' offsets one after the other: where two texts share a term, the later one's replace the
      earlier one's. */
  function FieldsExtracted(blanks: Blanks, fields: seq<(Text, Json)>): Offsets
  {
    if fields == [] then map[]
    else
      var front := FieldsExtracted(blanks, fields[..|fields| - 1]);
      match fields[|fields| - 1].1
      case Str(text) => front + TextOffsets(blanks, text)
      case _ => front
  }

  function Extracted(blanks: Blanks, source: Json): Offsets
  {
    if source.Object? then FieldsExtracted(blanks, source.fields) else map[]
  }

  method ExtractPositions(blanks: Blanks, source: Json) returns (index: Offsets)
    ensures index == Extracted(blanks, source)
  {
    index := map[];
    if source.Object? {
      var fields := source.fields;
      for i := 0 to |fields|
        invariant index == FieldsExtracted(blanks, fields[..i])
      {
        assert fields[..i + 1][..i] == fields[..i];
        if fields[i].1.Str? {
          var text := fields[i].1.s;
          var tokens := Tokenize(Lower(text), Mask(blanks, text));
          NoTokenIsEmpty(Lower(text), Mask(blanks, text), 0);
          var seen := RecordTokens(Lower(text), tokens);
          index := index + seen;
        }
      }
      assert fields[..|fields|] == fields;
    }
  }

  predicate HasTerm(blanks: Blanks, field: (Text, Json), t: Text) {
    field.1.Str? && t in TextOffsets(blanks, field.1.s)
  }

  /** The last text of the document that has the term. */
  function LastText(blanks: Blanks, fields: seq<(Text, Json)>, t: Text): (k: Option<nat>)
    ensures k.Some? ==>
              && k.value < |fields| && HasTerm(blanks, fields[k.value], t)
              && forall l :: k.value < l < |fields| ==> !HasTerm(blanks, fields[l], t)
    ensures k.None? ==> forall l :: 0 <= l < |fields| ==> !HasTerm(blanks, fields[l], t)
  {
    if fields == [] then None
    else if HasTerm(blanks, fields[|fields| - 1], t) then Some(|fields| - 1)
    else LastText(blanks, fields[..|fields| - 1], t)
  }

  /** A term is recorded for the last text that has it, and for no other. */
  lemma {:induction false} LastTextWins(blanks: Blanks, fields: seq<(Text, Json)>, t: Text)
    ensures var k, r := LastText(blanks, fields, t), FieldsExtracted(blanks, fields);
            && (t in r <==> k.Some?)
            && (k.Some? ==> r[t] == TextOffsets(blanks, fields[k.value].1.s)[t])
  {
    if fields != [] {
      LastTextWins(blanks, fields[..|fields| - 1], t);
    }
  }

  /** What a document's index says of a term is true of the last text that has it: its offsets are occurrences
      there, and all the token's stretches are among them if the text is UTF-8. */
  lemma ExtractedPositionsOccur(blanks: Blanks, fields: seq<(Text, Json)>, t: Text, p: u32, space: Text -> bool)
    requires t in FieldsExtracted(blanks, fields)
    ensures var k := LastText(blanks, fields, t);
            && k.Some?
            && var text := fields[k.value].1.s;
               && (p in FieldsExtracted(blanks, fields)[t] ==> Occurs(Lower(text), t, p))
               && (IsUtf8(text) && IsByCharacter(Lower(text), Mask(blanks, text), space) ==>
                     forall j: nat :: IsToken(Mask(blanks, text), p, j) && Lower(text)[p..j] == t ==>
                       p in FieldsExtracted(blanks, fields)[t])
  {
    LastTextWins(blanks, fields, t);
    var text := fields[LastText(blanks, fields, t).value].1.s;
    OffsetsAreOccurrences(Lower(text), Mask(blanks, text), t);
    if IsUtf8(text) && IsByCharacter(Lower(text), Mask(blanks, text), space) {
      LowerIsUtf8(text);
      CharacterwiseIsConsistent(Lower(text), Mask(blanks, text), space);
      forall j: nat | IsToken(Mask(blanks, text), p, j) && Lower(text)[p..j] == t
        ensures p in FieldsExtracted(blanks, fields)[t]
      {
        StretchesAreRecorded(Lower(text), Mask(blanks, text), p, j);
      }
    }
  }
}
