// Reading fixed-width numbers out of a byte array, and where the pieces of an encoding stand in it.
module ByteReading {
  import opened Bytes

  /** Which bytes are UTF-8 is decided by the standard library. */
  type Utf8 = seq<u8> -> bool

  /** The bytes stand at `pos`. */
  ghost predicate Stands(data: seq<u8>, pos: nat, bytes: seq<u8>) {
    pos + |bytes| <= |data| && forall k :: 0 <= k < |bytes| ==> data[pos + k] == bytes[k]
  }

  function U32At(data: seq<u8>, pos: nat): u32
    requires pos + 4 <= |data|
  {
    ReadU32(data[pos..pos + 4])
  }

  function U64At(data: seq<u8>, pos: nat): u64
    requires pos + 8 <= |data|
  {
    ReadU64(data[pos..pos + 8])
  }

  function I64At(data: seq<u8>, pos: nat): i64
    requires pos + 8 <= |data|
  {
    ReadI64(data[pos..pos + 8])
  }

  lemma SliceStands(data: seq<u8>, pos: nat, bytes: seq<u8>)
    requires Stands(data, pos, bytes)
    ensures data[pos..pos + |bytes|] == bytes
  {
  }

  lemma PartsStand(data: seq<u8>, pos: nat, a: seq<u8>, b: seq<u8>)
    requires Stands(data, pos, a + b)
    ensures Stands(data, pos, a) && Stands(data, pos + |a|, b)
  {
    forall k | 0 <= k < |a| ensures data[pos + k] == a[k] {
      assert (a + b)[k] == a[k];
    }
    forall k | 0 <= k < |b| ensures data[pos + |a| + k] == b[k] {
      assert (a + b)[|a| + k] == b[k];
    }
  }

  lemma FrontStands(a: seq<u8>, b: seq<u8>, pos: nat, bytes: seq<u8>)
    requires Stands(a, pos, bytes)
    ensures Stands(a + b, pos, bytes)
  {
  }

  lemma EndStands(a: seq<u8>, b: seq<u8>)
    ensures Stands(a + b, |a|, b)
  {
  }

  lemma WithinStands(data: seq<u8>, pos: nat, bytes: seq<u8>, from: nat, part: seq<u8>)
    requires Stands(data, pos, bytes) && Stands(bytes, from, part)
    ensures Stands(data, pos + from, part)
  {
  }

  lemma SuffixStands(data: seq<u8>, from: nat, pos: nat, bytes: seq<u8>)
    requires from <= pos && Stands(data, pos, bytes)
    ensures Stands(data[from..], pos - from, bytes)
  {
  }

  lemma U32Stands(data: seq<u8>, pos: nat, n: u32)
    requires Stands(data, pos, U32Bytes(n))
    ensures U32At(data, pos) == n
  {
    SliceStands(data, pos, U32Bytes(n));
    U32RoundTrip(n);
  }

  lemma U64Stands(data: seq<u8>, pos: nat, n: u64)
    requires Stands(data, pos, U64Bytes(n))
    ensures U64At(data, pos) == n
  {
    SliceStands(data, pos, U64Bytes(n));
    U64RoundTrip(n);
  }

  lemma I64Stands(data: seq<u8>, pos: nat, n: i64)
    requires Stands(data, pos, I64Bytes(n))
    ensures I64At(data, pos) == n
  {
    SliceStands(data, pos, I64Bytes(n));
    I64RoundTrip(n);
  }
}
