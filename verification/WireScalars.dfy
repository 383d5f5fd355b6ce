/**
 Scalar encodings of the Protocol Buffers wire format (encoding guide, sections
 "Base 128 Varints" and "Signed Integers") as `src/model.rs:351-432` writes them.
 */
module WireScalars {
  import opened Basics

  // ----- varints

  function Varint(value: nat): (bytes: seq<byte>)
    ensures bytes != []
  {
    if value < 128 then [value] else [value % 128 + 128] + Varint(value / 128)
  }

  /** Reads one varint of at most `limit` bytes; returns its value and what follows. */
  function ReadBase128(bytes: seq<byte>, limit: nat): (r: Option<(nat, seq<byte>)>)
    ensures r.Some? ==> |r.value.1| < |bytes|
  {
    if bytes == [] || limit == 0 then None
    else if bytes[0] < 128 then Some((bytes[0], bytes[1..]))
    else
      match ReadBase128(bytes[1..], limit - 1)
      case None => None
      case Some((high, rest)) => Some((bytes[0] - 128 + 128 * high, rest))
  }

  /** A decoder's view: at most ten bytes, and the value must fit 64 bits. */
  function ReadVarint(bytes: seq<byte>): (r: Option<(u64, seq<byte>)>)
    ensures r.Some? ==> |r.value.1| < |bytes|
  {
    match ReadBase128(bytes, 10)
    case Some((value, rest)) => if value < TWO_64 then Some((value, rest)) else None
    case None => None
  }

  function BitLength(value: nat): nat {
    if value == 0 then 0 else 1 + BitLength(value / 2)
  }

  function LeadingZeros(value: u64): int {
    64 - BitLength(value)
  }

  /** `value | 1` */
  function OrOne(value: nat): nat {
    if value % 2 == 0 then value + 1 else value
  }

  lemma VarintLenBound(value: u64)
    ensures ((63 - LeadingZeros(OrOne(value))) * 9 + 73) / 64 == |Varint(value)|
    ensures 1 <= |Varint(value)| <= 10
  {
    hide Varint, OrOne, BitLength;
    VarintBytes(value);
    Pow2Values();
    OrOneBound(value);
    BitLengthBound(OrOne(value), 64);
    SevenBitsPerByte(BitLength(OrOne(value)));
  }

  lemma OrOneBound(value: u64)
    ensures OrOne(value) < TWO_64 && BitLength(OrOne(value)) >= 1
  {
  }

  lemma SevenBitsPerByte(bits: nat)
    requires 1 <= bits <= 64
    ensures ((63 - (64 - bits)) * 9 + 73) / 64 == (bits + 6) / 7 <= 10
  {
  }

  /** Encoded size of a varint in closed form. `^ 63` complements the six bits of a leading-zero count. */
  function VarintLen(value: u64): (len: int)
    ensures len == |Varint(value)| && 1 <= len <= 10
  {
    VarintLenBound(value);
    ((63 - LeadingZeros(OrOne(value))) * 9 + 73) / 64
  }

  lemma BitLengthOrOne(value: nat)
    requires value >= 1
    ensures BitLength(OrOne(value)) == BitLength(value)
  {
    assert OrOne(value) / 2 == value / 2;
  }

  lemma {:induction false} BitLengthBound(value: nat, bits: nat)
    requires value < Pow2(bits)
    ensures BitLength(value) <= bits
  {
    if value > 0 {
      BitLengthBound(value / 2, bits - 1);
    }
  }

  lemma BitLengthBySeven(value: nat)
    requires value >= 128
    ensures BitLength(value) == 7 + BitLength(value / 128)
  {
    BitLengthByTwo(value);
    BitLengthByTwo(value / 4);
    BitLengthByTwo(value / 16);
    assert value / 4 / 4 == value / 16 && value / 16 / 4 == value / 64 && value / 64 / 2 == value / 128;
    assert value / 64 > 0;
  }

  lemma BitLengthByTwo(value: nat)
    requires value >= 4
    ensures BitLength(value) == 2 + BitLength(value / 4)
  {
    assert value / 2 > 0 && value / 2 / 2 == value / 4;
  }

  /** A varint carries seven bits per byte. */
  lemma {:induction false} VarintBytes(value: nat)
    ensures |Varint(value)| == (BitLength(OrOne(value)) + 6) / 7
  {
    if value < 128 {
      Pow2Values();
      BitLengthBound(OrOne(value), 7);
    } else {
      VarintBytes(value / 128);
      BitLengthOrOne(value);
      BitLengthOrOne(value / 128);
      BitLengthBySeven(value);
    }
  }

  lemma {:induction false} ReadBase128Varint(value: nat, rest: seq<byte>, limit: nat)
    requires |Varint(value)| <= limit
    ensures ReadBase128(Varint(value) + rest, limit) == Some((value, rest))
  {
    var bytes := Varint(value) + rest;
    if value < 128 {
      assert bytes[1..] == rest;
    } else {
      ReadBase128Varint(value / 128, rest, limit - 1);
      assert bytes[1..] == Varint(value / 128) + rest;
    }
  }

  /** Decoding inverts encoding, whatever follows. */
  lemma VarintRoundTrip(value: u64, rest: seq<byte>)
    ensures ReadVarint(Varint(value) + rest) == Some((value, rest))
  {
    var _ := VarintLen(value);
    ReadBase128Varint(value, rest, 10);
  }

  // ----- signed integers

  /** Two's complement bits of an `int64`. */
  function Int64Bits(value: i64): u64 {
    value % TWO_64
  }

  function FromInt64Bits(bits: u64): i64 {
    if bits < TWO_63 then bits else bits - TWO_64
  }

  lemma Int64BitsRoundTrip(value: i64)
    ensures FromInt64Bits(Int64Bits(value)) == value
  {
  }

  /** `(value << 1) ^ (value >> 63)`: the shifted sign is all zeros or all ones, so the
      exclusive or keeps or complements. */
  function ZigZag(value: i64): (r: u64)
    ensures r == if value >= 0 then 2 * value else -2 * value - 1
  {
    var doubled: int := Wrap(2 * value);
    WrapCongruent(2 * value, 2 * value - TWO_64, 1);
    WrapCongruent(2 * value, 2 * value + TWO_64, -1);
    Int64Bits(if value >= 0 then doubled else -doubled - 1)
  }

  function UnZigZag(bits: u64): i64 {
    if bits % 2 == 0 then bits / 2 else -(bits / 2) - 1
  }

  /** Zigzag is a bijection between `i64` and `u64`. */
  lemma ZigZagBijection(value: i64, bits: u64)
    ensures UnZigZag(ZigZag(value)) == value
    ensures ZigZag(UnZigZag(bits)) == bits
  {
  }

  // ----- fixed-width doubles

  /** The low `n` bytes of `value`, least significant first. */
  function LittleEndian(value: nat, n: nat): (bytes: seq<byte>)
    ensures |bytes| == n
  {
    if n == 0 then [] else [value % 256] + LittleEndian(value / 256, n - 1)
  }

  function FromLittleEndian(bytes: seq<byte>): nat {
    if bytes == [] then 0 else bytes[0] + 256 * FromLittleEndian(bytes[1..])
  }

  lemma {:induction false} LittleEndianRoundTrip(value: nat, n: nat)
    requires value < Pow2(8 * n)
    ensures FromLittleEndian(LittleEndian(value, n)) == value
  {
    if n > 0 {
      assert Pow2(8 * n) == 256 * Pow2(8 * (n - 1)) by { Pow2Add(8, 8 * (n - 1)); Pow2Values(); }
      LittleEndianRoundTrip(value / 256, n - 1);
    }
  }

  function DoubleBytes(bits: F64): (bytes: seq<byte>)
    ensures |bytes| == 8
  {
    LittleEndian(bits, 8)
  }

  function FromDoubleBytes(bytes: seq<byte>): u64
    requires |bytes| == 8
  {
    FromLittleEndian(bytes) % TWO_64
  }

  lemma DoubleRoundTrip(bits: F64)
    ensures FromDoubleBytes(DoubleBytes(bits)) == bits
  {
    hide LittleEndian, FromLittleEndian, Pow2;
    Pow2Values();
    LittleEndianRoundTrip(bits, 8);
  }
}
