// Columnar doc values: packing keyword, integer and boolean columns, decoding them, and the terms aggregation
// over a column.
module DocValues {
  import opened Bytes
  import opened ByteReading
  import opened Values
  import opened Texts

  // ----- what a column holds for a document -----

  function StringOf(source: Json, field: Text): Option<Text> {
    match Field(source, field)
    case Some(Str(s)) => Some(s)
    case _ => None
  }

  /** A number as a signed 64-bit integer, where it is one. */
  function IntegerOf(source: Json, field: Text): i64 {
    match Field(source, field)
    case Some(Num(Unsigned(u))) => if u < 0x8000_0000_0000_0000 then u else 0
    case Some(Num(Negative(i))) => i
    case _ => 0
  }

  function BooleanOf(source: Json, field: Text): bool {
    match Field(source, field)
    case Some(Boolean(b)) => b
    case _ => false
  }

  function StringsOf(sources: seq<Json>, field: Text): seq<Option<Text>> {
    seq(|sources|, i requires 0 <= i < |sources| => StringOf(sources[i], field))
  }

  function IntegersOf(sources: seq<Json>, field: Text): seq<i64> {
    seq(|sources|, i requires 0 <= i < |sources| => IntegerOf(sources[i], field))
  }

  function BooleansOf(sources: seq<Json>, field: Text): seq<bool> {
    seq(|sources|, i requires 0 <= i < |sources| => BooleanOf(sources[i], field))
  }

  // ----- booleans -----

  function Bit(byte: bv8, k: nat): bool
    requires k < 8
  {
    (byte >> k) & 1 != 0
  }

  function Mask(k: nat): bv8
    requires k < 8
  {
    1 << k
  }

  /** The first `k` bits of byte `j`. */
  function ByteOf(bits: seq<bool>, j: nat, k: nat): bv8
    requires k <= 8
  {
    if k == 0 then 0
    else
      var rest := ByteOf(bits, j, k - 1);
      if j * 8 + k - 1 < |bits| && bits[j * 8 + k - 1] then rest | Mask(k - 1) else rest
  }

  function Pack(bits: seq<bool>): seq<bv8> {
    seq((|bits| + 7) / 8, j requires 0 <= j => ByteOf(bits, j, 8))
  }

  function Unpack(data: seq<bv8>, count: nat): Option<seq<bool>> {
    if (count + 7) / 8 > |data| then None
    else Some(seq(count, i requires 0 <= i < count => Bit(data[i / 8], i % 8)))
  }

  lemma MaskSetsOneBit(byte: bv8, k: nat, l: nat)
    requires k < 8 && l < 8
    ensures Bit(byte | Mask(k), l) == (k == l || Bit(byte, l))
    ensures !Bit(0, l)
  {
    assert (byte | Mask(k)) >> l == (byte >> l) | (Mask(k) >> l);
    assert (Mask(k) >> l) & 1 != 0 <==> k == l;
  }

  lemma {:induction false} ByteHoldsBits(bits: seq<bool>, j: nat, k: nat, l: nat)
    requires k <= 8 && l < 8
    ensures Bit(ByteOf(bits, j, k), l) == (l < k && j * 8 + l < |bits| && bits[j * 8 + l])
  {
    if k == 0 {
      MaskSetsOneBit(0, 0, l);
    } else {
      ByteHoldsBits(bits, j, k - 1, l);
      MaskSetsOneBit(ByteOf(bits, j, k - 1), k - 1, l);
    }
  }

  /** Any number of booleans survives packing. */
  lemma BooleansRoundTrip(bits: seq<bool>)
    ensures Unpack(Pack(bits), |bits|) == Some(bits)
  {
    forall i | 0 <= i < |bits| ensures Bit(Pack(bits)[i / 8], i % 8) == bits[i] {
      ByteHoldsBits(bits, i / 8, 8, i % 8);
      assert i / 8 * 8 + i % 8 == i;
    }
    assert Unpack(Pack(bits), |bits|).value == bits;
  }

  /** From documents through the column and back: each has the boolean it holds, or false. */
  lemma BooleansReadBack(sources: seq<Json>, field: Text, i: nat)
    requires i < |sources|
    ensures var read := Unpack(Pack(BooleansOf(sources, field)), |sources|);
            && read.Some? && |read.value| == |sources|
            && (read.value[i] <==> Field(sources[i], field) == Some(Boolean(true)))
  {
    BooleansRoundTrip(BooleansOf(sources, field));
  }

  /** How many of the bits of byte `j` lie among the first `i` bits. */
  function BitsDone(i: nat, j: nat): (k: nat)
    ensures k <= 8
  {
    if i <= j * 8 then 0 else if i - j * 8 < 8 then i - j * 8 else 8
  }

  /** Sets bits in place in a zeroed buffer. */
  method EncodeBooleans(sources: seq<Json>, field: Text) returns (result: array<bv8>)
    ensures fresh(result) && result[..] == Pack(BooleansOf(sources, field))
  {
    ghost var bits := BooleansOf(sources, field);
    result := new bv8[(|sources| + 7) / 8](j => 0);
    for i := 0 to |sources|
      invariant forall j :: 0 <= j < result.Length ==> result[j] == ByteOf(bits, j, BitsDone(i, j))
    {
      OneBitMore(bits, i);
      if BooleanOf(sources[i], field) {
        result[i / 8] := result[i / 8] | Mask(i % 8);
      }
    }
    AllBitsDone(bits, result[..]);
  }

  lemma OneBitMore(bits: seq<bool>, i: nat)
    requires i < |bits|
    ensures forall j: nat :: j != i / 8 ==> BitsDone(i + 1, j) == BitsDone(i, j)
    ensures ByteOf(bits, i / 8, BitsDone(i + 1, i / 8))
            == if bits[i] then ByteOf(bits, i / 8, BitsDone(i, i / 8)) | Mask(i % 8)
               else ByteOf(bits, i / 8, BitsDone(i, i / 8))
  {
    ByteStep(bits, i / 8, i % 8);
  }

  lemma ByteStep(bits: seq<bool>, j: nat, k: nat)
    requires k < 8 && j * 8 + k < |bits|
    ensures ByteOf(bits, j, k + 1) == if bits[j * 8 + k] then ByteOf(bits, j, k) | Mask(k) else ByteOf(bits, j, k)
  {
  }

  lemma {:induction false} NoBitsBehind(bits: seq<bool>, j: nat, k: nat, l: nat)
    requires l <= k <= 8 && |bits| <= j * 8 + l
    ensures ByteOf(bits, j, k) == ByteOf(bits, j, l)
    decreases k
  {
    if l < k {
      NoBitsBehind(bits, j, k - 1, l);
    }
  }

  lemma AllBitsDone(bits: seq<bool>, data: seq<bv8>)
    requires |data| == (|bits| + 7) / 8
    requires forall j :: 0 <= j < |data| ==> data[j] == ByteOf(bits, j, BitsDone(|bits|, j))
    ensures data == Pack(bits)
  {
    forall j | 0 <= j < |data| ensures data[j] == ByteOf(bits, j, 8) {
      if BitsDone(|bits|, j) < 8 {
        NoBitsBehind(bits, j, 8, BitsDone(|bits|, j));
      }
    }
  }

  method DecodeBooleans(data: seq<bv8>, count: nat) returns (r: Option<seq<bool>>)
    ensures r == Unpack(data, count)
  {
    if (count + 7) / 8 > |data| {
      return None;
    }
    var values := [];
    for i := 0 to count
      invariant |values| == i && forall k :: 0 <= k < i ==> values[k] == Bit(data[k / 8], k % 8)
    {
      values := values + [(data[i / 8] >> (i % 8)) & 1 != 0];
    }
    assert values == Unpack(data, count).value;
    r := Some(values);
  }

  // ----- integers -----

  function EncodeNumbers(values: seq<i64>): (bytes: seq<u8>)
    ensures |bytes| == |values| * 8
  {
    if values == [] then [] else I64Bytes(values[0]) + EncodeNumbers(values[1..])
  }

  function NumbersAt(data: seq<u8>, pos: nat, count: nat): seq<i64>
    requires pos + count * 8 <= |data|
    decreases count
  {
    if count == 0 then [] else [I64At(data, pos)] + NumbersAt(data, pos + 8, count - 1)
  }

  function DecodeNumbers(data: seq<u8>, count: nat): Option<seq<i64>> {
    if |data| != count * 8 then None else Some(NumbersAt(data, 0, count))
  }

  lemma {:induction false} NumbersStand(data: seq<u8>, pos: nat, values: seq<i64>)
    requires Stands(data, pos, EncodeNumbers(values))
    ensures NumbersAt(data, pos, |values|) == values
    decreases |values|
  {
    if values != [] {
      PartsStand(data, pos, I64Bytes(values[0]), EncodeNumbers(values[1..]));
      I64Stands(data, pos, values[0]);
      NumbersStand(data, pos + 8, values[1..]);
    }
  }

  /** Any number of integers survives packing. */
  lemma NumbersRoundTrip(values: seq<i64>)
    ensures DecodeNumbers(EncodeNumbers(values), |values|) == Some(values)
  {
    NumbersStand(EncodeNumbers(values), 0, values);
  }

  predicate HoldsInteger(source: Json, field: Text) {
    var held := Field(source, field);
    held.Some? && held.value.Num? && IsSigned64(held.value.n)
  }

  /** From documents through the column and back: each has the integer it holds, or zero where that is none of 64
      bits. */
  lemma IntegersReadBack(sources: seq<Json>, field: Text, i: nat)
    requires i < |sources|
    ensures var read := DecodeNumbers(EncodeNumbers(IntegersOf(sources, field)), |sources|);
            && read.Some? && |read.value| == |sources|
            && (HoldsInteger(sources[i], field) ==> Whole(Field(sources[i], field).value.n) == Some(read.value[i]))
            && (!HoldsInteger(sources[i], field) ==> read.value[i] == 0)
  {
    NumbersRoundTrip(IntegersOf(sources, field));
  }

  method EncodeIntegers(sources: seq<Json>, field: Text) returns (bytes: seq<u8>)
    ensures bytes == EncodeNumbers(IntegersOf(sources, field))
  {
    bytes := [];
    ghost var values := IntegersOf(sources, field);
    for i := 0 to |sources|
      invariant bytes + EncodeNumbers(values[i..]) == EncodeNumbers(values)
    {
      assert values[i..][1..] == values[i + 1..];
      bytes := bytes + I64Bytes(IntegerOf(sources[i], field));
    }
  }

  method DecodeIntegers(data: seq<u8>, count: nat) returns (r: Option<seq<i64>>)
    ensures r == DecodeNumbers(data, count)
  {
    if |data| != count * 8 {
      return None;
    }
    var values: seq<i64> := [];
    for i := 0 to count
      invariant values + NumbersAt(data, i * 8, count - i) == NumbersAt(data, 0, count)
    {
      values := values + [I64At(data, i * 8)];
    }
    assert values + [] == values;
    r := Some(values);
  }

  // ----- keywords -----

  /** The string pool after the first `k` documents; its first byte is reserved. */
  function PoolUpTo(strings: seq<Option<Text>>, k: nat): (pool: seq<u8>)
    requires k <= |strings|
    ensures |pool| >= 1
  {
    if k == 0 then [0]
    else PoolUpTo(strings, k - 1) + if strings[k - 1].Some? then strings[k - 1].value else []
  }

  function OffsetOf(strings: seq<Option<Text>>, k: nat): nat
    requires k < |strings|
  {
    if strings[k].Some? then |PoolUpTo(strings, k)| else 0
  }

  /** Every offset fits its 32 bits. */
  predicate OffsetsFit(strings: seq<Option<Text>>, k: nat)
    requires k <= |strings|
  {
    forall i :: 0 <= i < k ==> |PoolUpTo(strings, i)| < 0x1_0000_0000
  }

  lemma {:induction false} PoolGrows(strings: seq<Option<Text>>, i: nat, k: nat)
    requires i <= k <= |strings|
    ensures |PoolUpTo(strings, i)| <= |PoolUpTo(strings, k)|
  {
    if i < k {
      PoolGrows(strings, i, k - 1);
    }
  }

  /** They do exactly when what stands in front of the last string is shorter than 2^32. */
  lemma OffsetsFitExactlyWhen(strings: seq<Option<Text>>)
    ensures OffsetsFit(strings, |strings|)
       <==> strings == [] || |PoolUpTo(strings, |strings| - 1)| < 0x1_0000_0000
  {
    if strings != [] {
      forall i | 0 <= i < |strings| ensures |PoolUpTo(strings, i)| <= |PoolUpTo(strings, |strings| - 1)| {
        PoolGrows(strings, i, |strings| - 1);
      }
    }
  }

  function TableUpTo(strings: seq<Option<Text>>, k: nat): (table: seq<u8>)
    requires k <= |strings| && OffsetsFit(strings, k)
    ensures |table| == k * 4
  {
    if k == 0 then [] else TableUpTo(strings, k - 1) + U32Bytes(OffsetOf(strings, k - 1))
  }

  function EncodeStrings(strings: seq<Option<Text>>): seq<u8>
    requires OffsetsFit(strings, |strings|)
  {
    TableUpTo(strings, |strings|) + PoolUpTo(strings, |strings|)
  }

  /** The column's bytes, or nothing where the pool outgrows its offsets. */
  method EncodeKeywords(sources: seq<Json>, field: Text) returns (r: Option<seq<u8>>)
    ensures var strings := StringsOf(sources, field);
            r == if OffsetsFit(strings, |strings|) then Some(EncodeStrings(strings)) else None
  {
    ghost var strings := StringsOf(sources, field);
    var pool: seq<u8> := [0];
    var offsets: seq<u32> := [];
    for i := 0 to |sources|
      invariant OffsetsFit(strings, i) && pool == PoolUpTo(strings, i)
      invariant |offsets| == i && forall k :: 0 <= k < i ==> offsets[k] == OffsetOf(strings, k)
    {
      if |pool| >= 0x1_0000_0000 {
        return None;
      }
      var s := StringOf(sources[i], field);
      if s.Some? {
        offsets := offsets + [|pool|];
        pool := pool + s.value;
      } else {
        offsets := offsets + [0];
      }
    }
    var table := EncodeOffsetTable(offsets, strings);
    r := Some(table + pool);
  }

  method EncodeOffsetTable(offsets: seq<u32>, ghost strings: seq<Option<Text>>) returns (table: seq<u8>)
    requires |offsets| == |strings| && OffsetsFit(strings, |strings|)
    requires forall k :: 0 <= k < |offsets| ==> offsets[k] == OffsetOf(strings, k)
    ensures table == TableUpTo(strings, |strings|)
  {
    table := [];
    for i := 0 to |offsets|
      invariant table == TableUpTo(strings, i)
    {
      table := table + U32Bytes(offsets[i]);
    }
  }

  /** Decoding finds malformed data missing, and panics on a slice that ends before it starts. */
  datatype Decoded = Missing | Decoded(values: seq<Text>) | Panic

  function TextAt(utf8: Utf8, pool: seq<u8>, start: nat, end: nat): Text
    requires start <= end <= |pool|
  {
    if utf8(pool[start..end]) then pool[start..end] else []
  }

  function EndAt(data: seq<u8>, count: nat, i: nat): nat
    requires i < count && count * 4 <= |data|
  {
    if i + 1 < count then U32At(data, (i + 1) * 4) else |data| - count * 4
  }

  /** The text of one document. */
  function DecodeOne(utf8: Utf8, data: seq<u8>, count: nat, i: nat): Decoded
    requires i < count && count * 4 <= |data|
  {
    var pool := data[count * 4..];
    var start, end := U32At(data, i * 4), EndAt(data, count, i);
    if start > |pool| || end > |pool| then Missing
    else if start > end then Panic
    else Decoded([TextAt(utf8, pool, start, end)])
  }

  function Behind(front: Decoded, rest: Decoded): Decoded {
    if !front.Decoded? then front
    else if rest.Decoded? then Decoded(front.values + rest.values)
    else rest
  }

  function DecodeFrom(utf8: Utf8, data: seq<u8>, count: nat, i: nat): Decoded
    requires i <= count && count * 4 <= |data|
    decreases count - i
  {
    if i == count then Decoded([])
    else Behind(DecodeOne(utf8, data, count, i), DecodeFrom(utf8, data, count, i + 1))
  }

  function DecodeStrings(utf8: Utf8, data: seq<u8>, count: nat): Decoded {
    if count * 4 > |data| then Missing else DecodeFrom(utf8, data, count, 0)
  }

  /** The text that the offset table cuts out for one document; bytes that are no UTF-8 read as no text. */
  predicate CutsOut(utf8: Utf8, data: seq<u8>, count: nat, k: nat, value: Text)
    requires k < count && count * 4 <= |data|
  {
    var start, end := U32At(data, k * 4), EndAt(data, count, k);
    && start <= end <= |data| - count * 4
    && var cut := data[count * 4 + start..count * 4 + end]; value == if utf8(cut) then cut else []
  }

  ghost predicate CutsOutAll(utf8: Utf8, data: seq<u8>, count: nat, i: nat, values: seq<Text>)
    requires count * 4 <= |data|
  {
    i + |values| == count && forall j :: 0 <= j < |values| ==> CutsOut(utf8, data, count, i + j, values[j])
  }

  lemma CutsOutStep(utf8: Utf8, data: seq<u8>, count: nat, i: nat, values: seq<Text>)
    requires i < count && count * 4 <= |data|
    ensures CutsOutAll(utf8, data, count, i, values) <==>
              && values != [] && CutsOut(utf8, data, count, i, values[0])
              && CutsOutAll(utf8, data, count, i + 1, values[1..])
  {
    if values != [] {
      assert forall j :: 0 <= j < |values| - 1 ==> values[1..][j] == values[j + 1];
      if CutsOutAll(utf8, data, count, i + 1, values[1..]) && CutsOut(utf8, data, count, i, values[0]) {
        forall j | 0 <= j < |values| ensures CutsOut(utf8, data, count, i + j, values[j]) {
          assert j > 0 ==> CutsOut(utf8, data, count, i + 1 + (j - 1), values[1..][j - 1]);
        }
      }
      if CutsOutAll(utf8, data, count, i, values) {
        forall j | 0 <= j < |values| - 1 ensures CutsOut(utf8, data, count, i + 1 + j, values[1..][j]) {
          assert CutsOut(utf8, data, count, i + (j + 1), values[j + 1]);
        }
      }
    }
  }

  lemma {:induction false} DecodesFromExactlyWhen(utf8: Utf8, data: seq<u8>, count: nat, i: nat, values: seq<Text>)
    requires i <= count && count * 4 <= |data|
    ensures DecodeFrom(utf8, data, count, i) == Decoded(values) <==> CutsOutAll(utf8, data, count, i, values)
    decreases count - i
  {
    if i == count {
      assert DecodeFrom(utf8, data, count, i) == Decoded([]);
    } else {
      if values != [] {
        DecodesFromExactlyWhen(utf8, data, count, i + 1, values[1..]);
      }
      DecodesStep(utf8, data, count, i, DecodeFrom(utf8, data, count, i + 1), values);
    }
  }

  lemma DecodesStep(utf8: Utf8, data: seq<u8>, count: nat, i: nat, rest: Decoded, values: seq<Text>)
    requires i < count && count * 4 <= |data| && rest == DecodeFrom(utf8, data, count, i + 1)
    requires values != [] ==> (rest == Decoded(values[1..]) <==> CutsOutAll(utf8, data, count, i + 1, values[1..]))
    ensures DecodeFrom(utf8, data, count, i) == Decoded(values) <==> CutsOutAll(utf8, data, count, i, values)
  {
    CutsOutStep(utf8, data, count, i, values);
    BehindSplits(DecodeOne(utf8, data, count, i), rest, values);
    if values != [] {
      OneCutsOut(utf8, data, count, i, values[0]);
    }
  }

  lemma BehindSplits(one: Decoded, rest: Decoded, values: seq<Text>)
    requires one.Decoded? ==> |one.values| == 1
    ensures Behind(one, rest) == Decoded(values)
       <==> values != [] && one == Decoded([values[0]]) && rest == Decoded(values[1..])
  {
    if values != [] {
      assert values == [values[0]] + values[1..];
    }
    if one.Decoded? && rest.Decoded? && Behind(one, rest) == Decoded(values) {
      assert values[1..] == rest.values;
    }
  }

  lemma OneCutsOut(utf8: Utf8, data: seq<u8>, count: nat, i: nat, value: Text)
    requires i < count && count * 4 <= |data|
    ensures DecodeOne(utf8, data, count, i) == Decoded([value]) <==> CutsOut(utf8, data, count, i, value)
  {
    var start, end := U32At(data, i * 4), EndAt(data, count, i);
    if start <= end <= |data| - count * 4 {
      assert data[count * 4..][start..end] == data[count * 4 + start..count * 4 + end];
      var read := TextAt(utf8, data[count * 4..], start, end);
      assert [read] == [value] <==> [read][0] == [value][0];
    }
  }

  /** A column of any bytes decodes to these values exactly when it has the whole offset table, and each pair of
      offsets cuts the value out of what stands behind the table. */
  lemma DecodesExactlyWhen(utf8: Utf8, data: seq<u8>, count: nat, values: seq<Text>)
    ensures DecodeStrings(utf8, data, count) == Decoded(values)
       <==> && count * 4 <= |data| && |values| == count
            && forall k :: 0 <= k < count ==> CutsOut(utf8, data, count, k, values[k])
  {
    if count * 4 <= |data| {
      DecodesFromExactlyWhen(utf8, data, count, 0, values);
      assert CutsOutAll(utf8, data, count, 0, values) <==>
               |values| == count && forall k :: 0 <= k < count ==> CutsOut(utf8, data, count, 0 + k, values[k]);
    }
  }

  method DecodeKeywords(utf8: Utf8, data: seq<u8>, count: nat) returns (r: Decoded)
    ensures r == DecodeStrings(utf8, data, count)
  {
    if count * 4 > |data| {
      return Missing;
    }
    var values: seq<Text> := [];
    ghost var all := DecodeFrom(utf8, data, count, 0);
    DecodeStarts(all);
    for i := 0 to count
      invariant StillToDecode(utf8, data, count, i, values, all)
    {
      var one := DecodeNext(utf8, data, count, i);
      DecodeTurn(utf8, data, count, i, values, one, all);
      if !one.Decoded? {
        return one;
      }
      values := values + one.values;
    }
    assert values + [] == values;
    r := Decoded(values);
  }

  method DecodeNext(utf8: Utf8, data: seq<u8>, count: nat, i: nat) returns (r: Decoded)
    requires i < count && count * 4 <= |data|
    ensures r == DecodeOne(utf8, data, count, i)
  {
    var pool := data[count * 4..];
    var start: nat := U32At(data, i * 4);
    var end: nat := if i + 1 < count then U32At(data, (i + 1) * 4) else |pool|;
    if start > |pool| || end > |pool| {
      return Missing;
    }
    if start > end {
      return Panic;
    }
    r := Decoded([TextAt(utf8, pool, start, end)]);
  }

  /** Decoding what is left completes the result. */
  ghost predicate StillToDecode(utf8: Utf8, data: seq<u8>, count: nat, i: nat, values: seq<Text>, all: Decoded) {
    i <= count && count * 4 <= |data| && Behind(Decoded(values), DecodeFrom(utf8, data, count, i)) == all
  }

  lemma DecodeStarts(rest: Decoded)
    ensures Behind(Decoded([]), rest) == rest
  {
  }

  lemma DecodeTurn(utf8: Utf8, data: seq<u8>, count: nat, i: nat, values: seq<Text>, one: Decoded, all: Decoded)
    requires i < count && count * 4 <= |data| && one == DecodeOne(utf8, data, count, i)
    requires StillToDecode(utf8, data, count, i, values, all)
    ensures !one.Decoded? ==> all == one
    ensures one.Decoded? ==> StillToDecode(utf8, data, count, i + 1, values + one.values, all)
  {
  }

  // ----- which keyword columns decode correctly -----

  /** UTF-8: a zero byte is valid, and valid pieces join to valid text. */
  ghost predicate Lawful(utf8: Utf8) {
    utf8([]) && utf8([0]) && forall a, b :: utf8(a) && utf8(b) ==> utf8(a + b)
  }

  ghost predicate Valid(utf8: Utf8, strings: seq<Option<Text>>) {
    forall i :: 0 <= i < |strings| && strings[i].Some? ==> utf8(strings[i].value)
  }

  predicate AllPresent(strings: seq<Option<Text>>) {
    forall i :: 0 <= i < |strings| ==> strings[i].Some?
  }

  /** What the column is meant to say: the string of each document, empty where it has none. */
  function Intended(strings: seq<Option<Text>>): (values: seq<Text>)
    ensures |values| == |strings|
  {
    seq(|strings|, i requires 0 <= i < |strings| => if strings[i].Some? then strings[i].value else [])
  }

  lemma {:induction false} PoolStands(strings: seq<Option<Text>>, n: nat, k: nat)
    requires k < n <= |strings|
    ensures |PoolUpTo(strings, k)| <= |PoolUpTo(strings, n)|
    ensures strings[k].Some? ==>
              Stands(PoolUpTo(strings, n), |PoolUpTo(strings, k)|, strings[k].value)
              && |PoolUpTo(strings, k + 1)| == |PoolUpTo(strings, k)| + |strings[k].value|
    decreases n
  {
    if k < n - 1 {
      PoolStands(strings, n - 1, k);
    }
  }

  lemma {:induction false} PoolIsValid(utf8: Utf8, strings: seq<Option<Text>>, k: nat)
    requires Lawful(utf8) && Valid(utf8, strings) && k <= |strings|
    ensures utf8(PoolUpTo(strings, k))
    decreases k
  {
    if k > 0 {
      PoolIsValid(utf8, strings, k - 1);
    }
  }

  lemma {:induction false} OffsetStands(strings: seq<Option<Text>>, n: nat, k: nat)
    requires k < n <= |strings| && OffsetsFit(strings, n)
    ensures OffsetOf(strings, k) < 0x1_0000_0000
    ensures Stands(TableUpTo(strings, n), k * 4, U32Bytes(OffsetOf(strings, k)))
    decreases n
  {
    if k < n - 1 {
      OffsetStands(strings, n - 1, k);
    }
  }

  /** Where the decoder cuts the pool for document `i`. */
  function CutEnd(strings: seq<Option<Text>>, i: nat): nat
    requires i < |strings|
  {
    if i + 1 < |strings| then OffsetOf(strings, i + 1) else |PoolUpTo(strings, |strings|)|
  }

  lemma ColumnReads(strings: seq<Option<Text>>, data: seq<u8>, pool: seq<u8>, i: nat)
    requires i < |strings| && OffsetsFit(strings, |strings|) && data == EncodeStrings(strings)
    requires pool == PoolUpTo(strings, |strings|)
    ensures |strings| * 4 <= |data| && data[|strings| * 4..] == pool
    ensures U32At(data, i * 4) == OffsetOf(strings, i) && EndAt(data, |strings|, i) == CutEnd(strings, i)
    ensures OffsetOf(strings, i) <= |pool| && CutEnd(strings, i) <= |pool|
  {
    var table := TableUpTo(strings, |strings|);
    PoolBehindTable(data, table, pool);
    OffsetReads(strings, data, table, pool, i);
    OffsetWithinPool(strings, i);
    if i + 1 < |strings| {
      OffsetReads(strings, data, table, pool, i + 1);
      OffsetWithinPool(strings, i + 1);
    }
  }

  lemma PoolBehindTable(data: seq<u8>, table: seq<u8>, pool: seq<u8>)
    requires data == table + pool
    ensures data[|table|..] == pool
  {
  }

  lemma OffsetWithinPool(strings: seq<Option<Text>>, i: nat)
    requires i < |strings|
    ensures OffsetOf(strings, i) <= |PoolUpTo(strings, |strings|)|
  {
    PoolStands(strings, |strings|, i);
  }

  lemma OffsetReads(strings: seq<Option<Text>>, data: seq<u8>, table: seq<u8>, pool: seq<u8>, i: nat)
    requires i < |strings| && OffsetsFit(strings, |strings|) && table == TableUpTo(strings, |strings|)
    requires data == table + pool
    ensures U32At(data, i * 4) == OffsetOf(strings, i)
  {
    OffsetStands(strings, |strings|, i);
    assert Stands(data, 0, table);
    WithinStands(data, 0, table, i * 4, U32Bytes(OffsetOf(strings, i)));
    U32Stands(data, i * 4, OffsetOf(strings, i));
  }

  lemma PresentEnd(strings: seq<Option<Text>>, i: nat)
    requires AllPresent(strings) && i < |strings|
    ensures CutEnd(strings, i) == OffsetOf(strings, i) + |strings[i].value|
  {
    assert strings[i].Some? && (i + 1 < |strings| ==> strings[i + 1].Some?);
  }

  lemma TextStands(utf8: Utf8, pool: seq<u8>, from: nat, end: nat, text: Text)
    requires Stands(pool, from, text) && end == from + |text| && utf8(text)
    ensures TextAt(utf8, pool, from, end) == text
  {
    SliceStands(pool, from, text);
  }

  /** With every string present each cut is the string itself. */
  lemma PresentCuts(utf8: Utf8, strings: seq<Option<Text>>, i: nat)
    requires AllPresent(strings) && Valid(utf8, strings) && i < |strings|
    ensures OffsetOf(strings, i) <= CutEnd(strings, i) <= |PoolUpTo(strings, |strings|)|
    ensures TextAt(utf8, PoolUpTo(strings, |strings|), OffsetOf(strings, i), CutEnd(strings, i)) == strings[i].value
  {
    PoolStands(strings, |strings|, i);
    PresentEnd(strings, i);
    TextStands(utf8, PoolUpTo(strings, |strings|), OffsetOf(strings, i), CutEnd(strings, i), strings[i].value);
  }

  lemma {:induction false} PresentDecode(utf8: Utf8, strings: seq<Option<Text>>, data: seq<u8>, i: nat)
    requires AllPresent(strings) && Valid(utf8, strings) && OffsetsFit(strings, |strings|)
    requires data == EncodeStrings(strings) && i <= |strings|
    ensures DecodeFrom(utf8, data, |strings|, i) == Decoded(Intended(strings)[i..])
    decreases |strings| - i
  {
    if i < |strings| {
      PresentDecode(utf8, strings, data, i + 1);
      PresentDecodesOne(utf8, strings, data, i);
      IntendedFrom(strings, i);
    }
  }

  lemma PresentDecodesOne(utf8: Utf8, strings: seq<Option<Text>>, data: seq<u8>, i: nat)
    requires AllPresent(strings) && Valid(utf8, strings) && OffsetsFit(strings, |strings|)
    requires data == EncodeStrings(strings) && i < |strings|
    ensures |strings| * 4 <= |data| && DecodeOne(utf8, data, |strings|, i) == Decoded([strings[i].value])
  {
    ColumnReads(strings, data, PoolUpTo(strings, |strings|), i);
    PresentCuts(utf8, strings, i);
  }

  lemma IntendedFrom(strings: seq<Option<Text>>, i: nat)
    requires i < |strings| && strings[i].Some?
    ensures Intended(strings)[i..] == [strings[i].value] + Intended(strings)[i + 1..]
  {
  }

  lemma {:induction false} DecodedAt(utf8: Utf8, data: seq<u8>, count: nat, i: nat, k: nat, values: seq<Text>)
    requires i <= k < count && count * 4 <= |data| && DecodeFrom(utf8, data, count, i) == Decoded(values)
    ensures U32At(data, k * 4) <= EndAt(data, count, k) <= |data| - count * 4
    ensures |values| == count - i
    ensures values[k - i] == TextAt(utf8, data[count * 4..], U32At(data, k * 4), EndAt(data, count, k))
    decreases k - i
  {
    LengthDecoded(utf8, data, count, i, values);
    if i < k {
      DecodedAt(utf8, data, count, i + 1, k, values[1..]);
    }
  }

  lemma {:induction false} LengthDecoded(utf8: Utf8, data: seq<u8>, count: nat, i: nat, values: seq<Text>)
    requires i <= count && count * 4 <= |data| && DecodeFrom(utf8, data, count, i) == Decoded(values)
    ensures |values| == count - i
    ensures i < count ==> DecodeFrom(utf8, data, count, i + 1) == Decoded(values[1..])
    decreases count - i
  {
    if i < count {
      LengthDecoded(utf8, data, count, i + 1, values[1..]);
    }
  }

  lemma CutOfMissing(utf8: Utf8, strings: seq<Option<Text>>, k: nat)
    requires Lawful(utf8) && Valid(utf8, strings)
    requires k < |strings| && strings[k].None? && (k + 1 < |strings| ==> strings[k + 1].Some?)
    ensures 0 < CutEnd(strings, k) <= |PoolUpTo(strings, |strings|)|
    ensures utf8(PoolUpTo(strings, |strings|)[0..CutEnd(strings, k)])
  {
    var n := if k + 1 < |strings| then k + 1 else |strings|;
    PoolIsValid(utf8, strings, n);
    PoolPrefix(strings, |strings|, n);
    assert PoolUpTo(strings, |strings|)[0..CutEnd(strings, k)] == PoolUpTo(strings, n);
  }

  /** A missing string before a present one, or at the end, decodes to text that is not empty. */
  lemma MissingDecodesWrong(utf8: Utf8, strings: seq<Option<Text>>, data: seq<u8>, k: nat, values: seq<Text>)
    requires Lawful(utf8) && Valid(utf8, strings) && OffsetsFit(strings, |strings|) && data == EncodeStrings(strings)
    requires k < |strings| && strings[k].None? && (k + 1 < |strings| ==> strings[k + 1].Some?)
    requires |strings| * 4 <= |data| && DecodeFrom(utf8, data, |strings|, 0) == Decoded(values)
    ensures |values| == |strings| && values[k] != []
  {
    var pool := PoolUpTo(strings, |strings|);
    CutOfMissing(utf8, strings, k);
    ColumnReads(strings, data, pool, k);
    DecodedAt(utf8, data, |strings|, 0, k, values);
    TextIsShown(utf8, pool, CutEnd(strings, k));
  }

  lemma TextIsShown(utf8: Utf8, pool: seq<u8>, end: nat)
    requires 0 < end <= |pool| && utf8(pool[0..end])
    ensures TextAt(utf8, pool, 0, end) != []
  {
  }

  lemma {:induction false} PoolPrefix(strings: seq<Option<Text>>, n: nat, k: nat)
    requires k <= n <= |strings|
    ensures PoolUpTo(strings, k) <= PoolUpTo(strings, n)
    decreases n
  {
    if k < n {
      PoolPrefix(strings, n - 1, k);
    }
  }

  lemma {:induction false} LastMissing(strings: seq<Option<Text>>, i: nat) returns (k: nat)
    requires i < |strings| && strings[i].None?
    ensures i <= k < |strings| && strings[k].None? && (k + 1 < |strings| ==> strings[k + 1].Some?)
    decreases |strings| - i
  {
    if i + 1 < |strings| && strings[i + 1].None? {
      k := LastMissing(strings, i + 1);
    } else {
      k := i;
    }
  }

  /** A keyword column decodes to what it is meant to say exactly when every document has the string. */
  lemma KeywordsDecodeExactlyWhen(utf8: Utf8, strings: seq<Option<Text>>)
    requires Lawful(utf8) && Valid(utf8, strings) && OffsetsFit(strings, |strings|)
    ensures DecodeStrings(utf8, EncodeStrings(strings), |strings|) == Decoded(Intended(strings))
       <==> AllPresent(strings)
  {
    var data := EncodeStrings(strings);
    if AllPresent(strings) {
      PresentDecode(utf8, strings, data, 0);
      assert Intended(strings)[0..] == Intended(strings);
    } else {
      var i :| 0 <= i < |strings| && strings[i].None?;
      var k := LastMissing(strings, i);
      if DecodeStrings(utf8, data, |strings|) == Decoded(Intended(strings)) {
        MissingDecodesWrong(utf8, strings, data, k, Intended(strings));
        assert false;
      }
    }
  }

  predicate HoldsText(source: Json, field: Text) {
    Field(source, field).Some? && Field(source, field).value.Str?
  }

  /** The column says of each document the string that it holds. */
  ghost predicate SaysStrings(read: Decoded, sources: seq<Json>, field: Text) {
    && read.Decoded? && |read.values| == |sources|
    && forall i :: 0 <= i < |sources| ==> Field(sources[i], field) == Some(Str(read.values[i]))
  }

  /** From documents through the column and back: it says what the documents hold exactly when every one of them
      holds a string. */
  lemma KeywordsReadBackExactlyWhen(utf8: Utf8, sources: seq<Json>, field: Text)
    requires Lawful(utf8) && OffsetsFit(StringsOf(sources, field), |sources|)
    requires forall i :: 0 <= i < |sources| && HoldsText(sources[i], field) ==> utf8(Field(sources[i], field).value.s)
    ensures SaysStrings(DecodeStrings(utf8, EncodeStrings(StringsOf(sources, field)), |sources|), sources, field)
       <==> forall i :: 0 <= i < |sources| ==> HoldsText(sources[i], field)
  {
    var strings := StringsOf(sources, field);
    assert forall i :: 0 <= i < |sources| ==> (strings[i].Some? <==> HoldsText(sources[i], field));
    KeywordsDecodeExactlyWhen(utf8, strings);
  }

  /** Decoding panics exactly when a document without the string follows one that has it. */
  lemma KeywordsPanicExactlyWhen(utf8: Utf8, strings: seq<Option<Text>>)
    requires OffsetsFit(strings, |strings|)
    ensures DecodeStrings(utf8, EncodeStrings(strings), |strings|) == Panic <==>
              exists i :: 0 < i < |strings| && strings[i - 1].Some? && strings[i].None?
  {
    PanicFrom(utf8, strings, EncodeStrings(strings), 0);
  }

  lemma {:induction false} PanicFrom(utf8: Utf8, strings: seq<Option<Text>>, data: seq<u8>, from: nat)
    requires OffsetsFit(strings, |strings|) && data == EncodeStrings(strings) && from <= |strings|
    ensures DecodeFrom(utf8, data, |strings|, from) == Panic <==>
              exists i :: from < i < |strings| && strings[i - 1].Some? && strings[i].None?
    ensures DecodeFrom(utf8, data, |strings|, from) != Missing
    decreases |strings| - from
  {
    if from < |strings| {
      PanicFrom(utf8, strings, data, from + 1);
      ColumnReads(strings, data, PoolUpTo(strings, |strings|), from);
      CutIsBackwardsExactlyWhen(strings, from);
      if from + 1 < |strings| && strings[from].Some? && strings[from + 1].None? {
        assert strings[from + 1 - 1].Some?;
      }
    }
  }

  lemma CutIsBackwardsExactlyWhen(strings: seq<Option<Text>>, i: nat)
    requires i < |strings|
    ensures OffsetOf(strings, i) > CutEnd(strings, i) <==>
              i + 1 < |strings| && strings[i].Some? && strings[i + 1].None?
  {
  }

  // ----- the terms aggregation -----

  /** Strings, numbers and booleans are counted. */
  function ScalarOf(source: Json, field: Text): Option<Json> {
    match Field(source, field)
    case Some(value) => if value.Str? || value.Num? || value.Boolean? then Some(value) else None
    case None => None
  }

  function ScalarsOf(sources: seq<Json>, field: Text): seq<Json> {
    if sources == [] then []
    else
      var front := ScalarsOf(sources[..|sources| - 1], field);
      match ScalarOf(sources[|sources| - 1], field)
      case Some(value) => front + [value]
      case None => front
  }

  function Strs(values: seq<Text>): seq<Json> {
    seq(|values|, i requires 0 <= i < |values| => Str(values[i]))
  }

  /** The counted values: those of the column, if there is one, and those of the documents otherwise. */
  function CountedValues(utf8: Utf8, sources: seq<Json>, field: Text,
                         column: Option<(seq<u8>, nat)>)
    : Option<seq<Json>>
  {
    match column
    case None => Some(ScalarsOf(sources, field))
    case Some((data, count)) =>
      match DecodeStrings(utf8, data, count)
      case Decoded(values) => Some(Strs(values))
      case Missing => Some(ScalarsOf(sources, field))
      case Panic => None
  }

  /** Each bucket's count is how often its key occurs. */
  ghost predicate Tallies<K(!new)>(counts: map<K, nat>, values: seq<K>) {
    forall k :: (k in counts <==> k in multiset(values)) && (k in counts ==> counts[k] == multiset(values)[k])
  }

  /** Which documents hold the value. */
  ghost function Holders(sources: seq<Json>, field: Text, value: Json): set<nat> {
    set i: nat | i < |sources| && Field(sources[i], field) == Some(value)
  }

  /** Strings, numbers and booleans are counted once for each document that holds them, and nothing else is. */
  lemma {:induction false} ScalarsCountHolders(sources: seq<Json>, field: Text, value: Json)
    ensures multiset(ScalarsOf(sources, field))[value]
         == if value.Str? || value.Num? || value.Boolean? then |Holders(sources, field, value)| else 0
  {
    if sources == [] {
      assert Holders(sources, field, value) == {};
    } else {
      ScalarsCountHolders(sources[..|sources| - 1], field, value);
      OneHolderMore(sources, field, value);
    }
  }

  lemma OneHolderMore(sources: seq<Json>, field: Text, value: Json)
    requires sources != []
    ensures var n := |sources| - 1;
            |Holders(sources, field, value)|
            == |Holders(sources[..n], field, value)| + if Field(sources[n], field) == Some(value) then 1 else 0
  {
    var n := |sources| - 1;
    var before, after := Holders(sources[..n], field, value), Holders(sources, field, value);
    assert after == before + if Field(sources[n], field) == Some(value) then {n} else {};
    assert n !in before;
  }

  /** So a bucket over the documents counts the documents that hold its key. */
  lemma BucketsCountHolders(sources: seq<Json>, field: Text, counts: map<Json, nat>, value: Json)
    requires Tallies(counts, ScalarsOf(sources, field))
    ensures value in counts <==>
              (value.Str? || value.Num? || value.Boolean?) &&
              exists i :: 0 <= i < |sources| && Field(sources[i], field) == Some(value)
    ensures value in counts ==> counts[value] == |Holders(sources, field, value)|
  {
    ScalarsCountHolders(sources, field, value);
    var holders := Holders(sources, field, value);
    if i :| 0 <= i < |sources| && Field(sources[i], field) == Some(value) {
      assert i in holders;
    } else {
      assert holders == {};
    }
  }

  method CountAll<K(==,!new)>(values: seq<K>) returns (counts: map<K, nat>)
    ensures Tallies(counts, values)
  {
    counts := map[];
    for i := 0 to |values|
      invariant Tallies(counts, values[..i])
    {
      assert values[..i + 1] == values[..i] + [values[i]];
      var before := if values[i] in counts then counts[values[i]] else 0;
      counts := counts[values[i] := before + 1];
    }
    assert values[..|values|] == values;
  }

  method CollectScalars(sources: seq<Json>, field: Text) returns (values: seq<Json>)
    ensures values == ScalarsOf(sources, field)
  {
    values := [];
    for i := 0 to |sources|
      invariant values == ScalarsOf(sources[..i], field)
    {
      assert sources[..i + 1][..i] == sources[..i];
      var value := ScalarOf(sources[i], field);
      if value.Some? {
        values := values + [value.value];
      }
    }
    assert sources[..|sources|] == sources;
  }

  // ----- buckets -----

  /** A key and how often it occurs. */
  type Bucket = (Json, nat)

  /** Buckets of equal counts are told apart by a text of their key, or not at all. */
  type Tie = Json -> Text

  /** The larger count comes first, and of equal counts the smaller text. */
  predicate Leads(tie: Tie, a: Bucket, b: Bucket) {
    a.1 > b.1 || (a.1 == b.1 && CompareTexts(tie(a.0), tie(b.0)) != Greater)
  }

  lemma LeadsInOrder(tie: Tie, a: Bucket, b: Bucket, c: Bucket)
    ensures Leads(tie, a, b) || Leads(tie, b, a)
    ensures Leads(tie, a, b) && Leads(tie, b, c) ==> Leads(tie, a, c)
  {
    TextOrder(tie(a.0), tie(b.0));
    TextsFit(tie(a.0), tie(b.0), tie(c.0));
  }

  ghost predicate InOrder(tie: Tie, buckets: seq<Bucket>) {
    forall i, j :: 0 <= i < j < |buckets| ==> Leads(tie, buckets[i], buckets[j])
  }

  predicate HasKey(buckets: seq<Bucket>, k: Json) {
    exists i :: 0 <= i < |buckets| && buckets[i].0 == k
  }

  /** One bucket for each key, with its count. */
  ghost predicate Lists(buckets: seq<Bucket>, counts: map<Json, nat>) {
    && (forall k :: HasKey(buckets, k) <==> k in counts)
    && (forall i :: 0 <= i < |buckets| ==> buckets[i].0 in counts && buckets[i].1 == counts[buckets[i].0])
    && (forall i, j :: 0 <= i < j < |buckets| ==> buckets[i].0 != buckets[j].0)
  }

  method SortBuckets(tie: Tie, counts: map<Json, nat>) returns (buckets: seq<Bucket>)
    ensures Lists(buckets, counts) && InOrder(tie, buckets)
  {
    buckets := [];
    var rest := counts.Keys;
    ghost var taken: map<Json, nat> := map[];
    while rest != {}
      invariant rest <= counts.Keys && taken == (map k | k in counts && k !in rest :: counts[k])
      invariant Lists(buckets, taken) && InOrder(tie, buckets)
      decreases rest
    {
      var k :| k in rest;
      buckets := InsertBucket(tie, buckets, (k, counts[k]), taken);
      rest := rest - {k};
      taken := taken[k := counts[k]];
    }
    assert taken == counts;
  }

  method InsertBucket(tie: Tie, buckets: seq<Bucket>, b: Bucket, ghost counts: map<Json, nat>)
    returns (r: seq<Bucket>)
    requires Lists(buckets, counts) && InOrder(tie, buckets) && b.0 !in counts
    ensures Lists(r, counts[b.0 := b.1]) && InOrder(tie, r)
  {
    var i := 0;
    while i < |buckets| && Leads(tie, buckets[i], b)
      invariant i <= |buckets| && forall k :: 0 <= k < i ==> Leads(tie, buckets[k], b)
    {
      i := i + 1;
    }
    r := buckets[..i] + [b] + buckets[i..];
    InsertedInOrder(tie, buckets, i, b);
    InsertedLists(buckets, i, b, counts);
  }

  lemma InsertedInOrder(tie: Tie, buckets: seq<Bucket>, i: nat, b: Bucket)
    requires InOrder(tie, buckets) && i <= |buckets| && forall k :: 0 <= k < i ==> Leads(tie, buckets[k], b)
    requires i < |buckets| ==> !Leads(tie, buckets[i], b)
    ensures InOrder(tie, buckets[..i] + [b] + buckets[i..])
  {
    forall k | i <= k < |buckets| ensures Leads(tie, b, buckets[k]) {
      LeadsInOrder(tie, buckets[i], b, b);
      LeadsInOrder(tie, b, buckets[i], buckets[k]);
    }
  }

  lemma InsertedLists(buckets: seq<Bucket>, i: nat, b: Bucket, counts: map<Json, nat>)
    requires Lists(buckets, counts) && i <= |buckets| && b.0 !in counts
    ensures Lists(buckets[..i] + [b] + buckets[i..], counts[b.0 := b.1])
  {
    forall k ensures HasKey(buckets[..i] + [b] + buckets[i..], k) <==> HasKey(buckets, k) || k == b.0 {
      InsertedKeys(buckets, i, b, k);
    }
  }

  lemma InsertedKeys(buckets: seq<Bucket>, i: nat, b: Bucket, k: Json)
    requires i <= |buckets|
    ensures HasKey(buckets[..i] + [b] + buckets[i..], k) <==> HasKey(buckets, k) || k == b.0
  {
    var r := buckets[..i] + [b] + buckets[i..];
    if HasKey(buckets, k) {
      var j :| 0 <= j < |buckets| && buckets[j].0 == k;
      assert r[if j < i then j else j + 1].0 == k;
    }
    assert r[i].0 == b.0;
  }

  /** Over a column, buckets of equal counts come in any order; over the documents, in that of their keys. */
  method TermsAggregation(utf8: Utf8, tie: Tie, sources: seq<Json>, field: Text, column: Option<(seq<u8>, nat)>)
    returns (buckets: Option<seq<Bucket>>, ghost counts: map<Json, nat>)
    ensures var counted := CountedValues(utf8, sources, field, column);
            && (buckets.Some? <==> counted.Some?)
            && (buckets.Some? ==> Tallies(counts, counted.value) && Lists(buckets.value, counts))
    ensures buckets.Some? ==> CountsFall(buckets.value)
    ensures buckets.Some? && column.None? ==> TiesRise(tie, buckets.value)
  {
    counts := map[];
    if column.Some? {
      var decoded := DecodeKeywords(utf8, column.value.0, column.value.1);
      if decoded.Panic? {
        return None, map[];
      }
      if decoded.Decoded? {
        var tallies := CountAll(Strs(decoded.values));
        var listed := SortBuckets(k => [], tallies);
        OrderIs(k => [], listed);
        return Some(listed), tallies;
      }
    }
    var values := CollectScalars(sources, field);
    var tallies := CountAll(values);
    var listed := SortBuckets(tie, tallies);
    OrderIs(tie, listed);
    buckets, counts := Some(listed), tallies;
  }

  /** No bucket has a larger count than one before it. */
  ghost predicate CountsFall(buckets: seq<Bucket>) {
    forall i, j :: 0 <= i < j < |buckets| ==> buckets[i].1 >= buckets[j].1
  }

  /** Of buckets with equal counts, none has a lesser text than one before it. */
  ghost predicate TiesRise(tie: Tie, buckets: seq<Bucket>) {
    forall i, j :: 0 <= i < j < |buckets| && buckets[i].1 == buckets[j].1 ==>
      !LexicographicallyLess(tie(buckets[j].0), tie(buckets[i].0))
  }

  lemma OrderIs(tie: Tie, buckets: seq<Bucket>)
    requires InOrder(tie, buckets)
    ensures CountsFall(buckets) && TiesRise(tie, buckets)
  {
    forall i, j | 0 <= i < j < |buckets| && buckets[i].1 == buckets[j].1
      ensures !LexicographicallyLess(tie(buckets[j].0), tie(buckets[i].0))
    {
      assert Leads(tie, buckets[i], buckets[j]);
      TextOrder(tie(buckets[i].0), tie(buckets[j].0));
      TextsExactlyWhen(tie(buckets[j].0), tie(buckets[i].0));
    }
  }

  lemma {:induction false} StringsAreScalars(sources: seq<Json>, field: Text)
    requires AllPresent(StringsOf(sources, field))
    ensures ScalarsOf(sources, field) == Strs(Intended(StringsOf(sources, field)))
  {
    if sources != [] {
      var front, last := sources[..|sources| - 1], sources[|sources| - 1];
      forall i | 0 <= i < |front| ensures StringsOf(front, field)[i] == StringsOf(sources, field)[i] {
      }
      assert StringsOf(sources, field)[|sources| - 1].Some?;
      StringsAreScalars(front, field);
    }
  }

  /** Over a column the aggregation panics exactly when a document without the string was stored behind one that has
      it; over a column that cannot be decoded it counts the documents. */
  lemma AggregationPanicsExactlyWhen(utf8: Utf8, stored: seq<Json>, matched: seq<Json>, field: Text)
    requires OffsetsFit(StringsOf(stored, field), |stored|)
    ensures CountedValues(utf8, matched, field, Some((EncodeStrings(StringsOf(stored, field)), |stored|))).None?
       <==> exists i :: 0 < i < |stored| && HoldsText(stored[i - 1], field) && !HoldsText(stored[i], field)
  {
    var strings := StringsOf(stored, field);
    assert forall i :: 0 <= i < |stored| ==> (strings[i].Some? <==> HoldsText(stored[i], field));
    KeywordsPanicExactlyWhen(utf8, strings);
  }

  lemma UndecodedCountsDocuments(utf8: Utf8, matched: seq<Json>, field: Text, data: seq<u8>, count: nat)
    requires DecodeStrings(utf8, data, count).Missing?
    ensures CountedValues(utf8, matched, field, Some((data, count))) == CountedValues(utf8, matched, field, None)
    ensures CountedValues(utf8, matched, field, None) == Some(ScalarsOf(matched, field))
  {
  }

  /** A column counts the documents it was built from, whichever documents a query has matched: if all of
      them have the string, their strings, one for each. */
  lemma ColumnCountsStoredDocuments(utf8: Utf8, stored: seq<Json>, matched: seq<Json>, field: Text)
    requires var strings := StringsOf(stored, field);
             Lawful(utf8) && Valid(utf8, strings) && OffsetsFit(strings, |strings|) && AllPresent(strings)
    ensures var column := (EncodeStrings(StringsOf(stored, field)), |stored|);
            && CountedValues(utf8, matched, field, Some(column)) == CountedValues(utf8, stored, field, None)
            && |ScalarsOf(stored, field)| == |stored|
  {
    KeywordsDecodeExactlyWhen(utf8, StringsOf(stored, field));
    StringsAreScalars(stored, field);
  }

  ghost function Total<K(!new)>(counts: map<K, nat>): nat
    decreases counts.Keys
  {
    if counts == map[] then 0
    else
      var k :| k in counts;
      counts[k] + Total(counts - {k})
  }

  /** The buckets' counts sum up to the number of counted values. */
  lemma {:induction false} BucketsSumUp<K(!new)>(counts: map<K, nat>, m: multiset<K>)
    requires forall k :: (k in counts <==> k in m) && (k in counts ==> counts[k] == m[k])
    ensures Total(counts) == |m|
    decreases counts.Keys
  {
    if counts == map[] {
      assert m == multiset{};
    } else {
      var k :| k in counts && Total(counts) == counts[k] + Total(counts - {k});
      BucketsSumUp(counts - {k}, m[k := 0]);
    }
  }

  lemma AggregationSumsUp(utf8: Utf8, stored: seq<Json>, matched: seq<Json>, field: Text, counts: map<Json, nat>)
    requires var strings := StringsOf(stored, field);
             Lawful(utf8) && Valid(utf8, strings) && OffsetsFit(strings, |strings|) && AllPresent(strings)
    requires var column := (EncodeStrings(StringsOf(stored, field)), |stored|);
             var counted := CountedValues(utf8, matched, field, Some(column));
             counted.Some? && Tallies(counts, counted.value)
    ensures Total(counts) == |stored|
  {
    ColumnCountsStoredDocuments(utf8, stored, matched, field);
    BucketsSumUp(counts, multiset(ScalarsOf(stored, field)));
  }
}
