// Fixed-width little-endian integers, as every file format of the engine writes them.
module Bytes {
  type u8 = x: int | 0 <= x < 256
  type u32 = x: int | 0 <= x < 0x1_0000_0000
  type u64 = x: int | 0 <= x < 0x1_0000_0000_0000_0000
  type i64 = x: int | -0x8000_0000_0000_0000 <= x < 0x8000_0000_0000_0000

  const TWO_64: int := 0x1_0000_0000_0000_0000

  /** The low `width` bytes of `n`, least significant first. */
  function LittleEndian(n: nat, width: nat): (s: seq<u8>)
    ensures |s| == width
  {
    if width == 0 then [] else [n % 256] + LittleEndian(n / 256, width - 1)
  }

  function FromLittleEndian(s: seq<u8>): (n: nat)
  {
    if s == [] then 0 else s[0] + 256 * FromLittleEndian(s[1..])
  }

  /** 256 to the power `width`: the number of values that `width` bytes can hold. */
  function Capacity(width: nat): (c: nat)
    ensures c >= 1
  {
    if width == 0 then 1 else 256 * Capacity(width - 1)
  }

  lemma {:induction false} LittleEndianRoundTrip(n: nat, width: nat)
    requires n < Capacity(width)
    ensures FromLittleEndian(LittleEndian(n, width)) == n
  {
    if width > 0 {
      LittleEndianRoundTrip(n / 256, width - 1);
      assert LittleEndian(n, width)[1..] == LittleEndian(n / 256, width - 1);
    }
  }

  lemma Capacities()
    ensures Capacity(4) == 0x1_0000_0000
    ensures Capacity(8) == TWO_64
  {
  }

  lemma {:induction false} FromLittleEndianBound(s: seq<u8>)
    ensures FromLittleEndian(s) < Capacity(|s|)
  {
    if s != [] {
      FromLittleEndianBound(s[1..]);
    }
  }

  /** The least significant byte comes first. */
  lemma {:induction false} ByteOfNumber(n: nat, width: nat, k: nat)
    requires k < width
    ensures LittleEndian(n, width)[k] == (n / Capacity(k)) % 256
  {
    if k > 0 {
      ByteOfNumber(n / 256, width - 1, k - 1);
      DivideTwice(n, Capacity(k - 1));
    }
  }

  lemma DivideTwice(n: nat, d: nat)
    requires d > 0
    ensures n / 256 / d == n / (256 * d)
  {
    var q := n / 256 / d;
    assert n == 256 * (n / 256) + n % 256;
    assert n / 256 == d * q + (n / 256) % d;
    assert n == 256 * d * q + (256 * ((n / 256) % d) + n % 256);
    QuotientIs(n, 256 * d, q, 256 * ((n / 256) % d) + n % 256);
  }

  lemma QuotientIs(n: nat, d: nat, q: nat, r: nat)
    requires d > 0 && r < d && n == d * q + r
    ensures n / d == q
  {
    var other := n / d;
    assert n == d * other + n % d;
    assert d * q - d * other == d * (q - other);
    Multiples(d, q - other);
  }

  lemma Multiples(d: nat, k: int)
    ensures k >= 1 ==> d * k >= d
    ensures k <= -1 ==> d * k + d <= 0
  {
  }

  function U32Bytes(n: u32): (s: seq<u8>)
    ensures |s| == 4
  {
    LittleEndian(n, 4)
  }

  function U64Bytes(n: u64): (s: seq<u8>)
    ensures |s| == 8
  {
    LittleEndian(n, 8)
  }

  /** Two's complement. */
  function I64Bytes(n: i64): (s: seq<u8>)
    ensures |s| == 8
  {
    LittleEndian(if n < 0 then n + TWO_64 else n, 8)
  }

  function ReadU32(s: seq<u8>): (n: u32)
    requires |s| == 4
  {
    FromLittleEndianBound(s);
    Capacities();
    FromLittleEndian(s)
  }

  function ReadU64(s: seq<u8>): (n: u64)
    requires |s| == 8
  {
    FromLittleEndianBound(s);
    Capacities();
    FromLittleEndian(s)
  }

  function ReadI64(s: seq<u8>): (n: i64)
    requires |s| == 8
  {
    var raw := ReadU64(s);
    if raw < 0x8000_0000_0000_0000 then raw else raw - TWO_64
  }

  lemma U32RoundTrip(n: u32)
    ensures ReadU32(U32Bytes(n)) == n
  {
    Capacities();
    LittleEndianRoundTrip(n, 4);
  }

  lemma U64RoundTrip(n: u64)
    ensures ReadU64(U64Bytes(n)) == n
  {
    Capacities();
    LittleEndianRoundTrip(n, 8);
  }

  lemma I64RoundTrip(n: i64)
    ensures ReadI64(I64Bytes(n)) == n
  {
    Capacities();
    LittleEndianRoundTrip(if n < 0 then n + TWO_64 else n, 8);
  }

  // ----- bytes from values -----

  lemma {:induction false} FromLittleEndianRoundTrip(s: seq<u8>)
    ensures LittleEndian(FromLittleEndian(s), |s|) == s
  {
    if s != [] {
      FromLittleEndianRoundTrip(s[1..]);
      assert FromLittleEndian(s) % 256 == s[0] && FromLittleEndian(s) / 256 == FromLittleEndian(s[1..]);
      assert [s[0]] + s[1..] == s;
    }
  }

  lemma SameU64(a: seq<u8>, b: seq<u8>)
    requires |a| == |b| == 8 && ReadU64(a) == ReadU64(b)
    ensures a == b
  {
    FromLittleEndianRoundTrip(a);
    FromLittleEndianRoundTrip(b);
  }

  lemma SameI64(a: seq<u8>, b: seq<u8>)
    requires |a| == |b| == 8 && ReadI64(a) == ReadI64(b)
    ensures a == b
  {
    SameU64(a, b);
  }

  lemma {:induction false} UpperAreZero(n: nat, used: nat, width: nat)
    requires n < Capacity(used) && used <= width
    ensures forall k :: used <= k < width ==> LittleEndian(n, width)[k] == 0
  {
    if width > 0 {
      UpperAreZero(n / 256, if used > 0 then used - 1 else 0, width - 1);
    }
  }

  lemma {:induction false} NotAllZero(n: nat, used: nat, width: nat)
    requires 0 < n < Capacity(used) && used <= width
    ensures exists k :: 0 <= k < used && LittleEndian(n, width)[k] != 0
  {
    if n % 256 == 0 {
      NotAllZero(n / 256, used - 1, width - 1);
      var k :| 0 <= k < used - 1 && LittleEndian(n / 256, width - 1)[k] != 0;
      assert LittleEndian(n, width)[k + 1] != 0;
    } else {
      assert LittleEndian(n, width)[0] != 0;
    }
  }
}
