/**
 * The variable-length integers of Go's encoding/binary package, used for the
 * length prefix of every frame of a recorded scenario: PutUvarint writes an
 * unsigned value in little-endian groups of seven bits, each byte but the last
 * carrying the continuation bit 0x80; PutVarint first maps a signed value to an
 * unsigned one by ZigZag encoding. ReadUvarint and ReadVarint invert them,
 * reading at most MaxVarintLen64 bytes.
 */
module Varint {
  /** One byte of a Go byte slice. */
  type byte = x: int | 0 <= x < 256

  const TWO_POW_63: int := 0x8000_0000_0000_0000
  const TWO_POW_64: int := 0x1_0000_0000_0000_0000

  /** Go's uint64. */
  type u64 = x: int | 0 <= x < TWO_POW_64

  /** Go's int64. */
  type i64 = x: int | -TWO_POW_63 <= x < TWO_POW_63

  /** binary.MaxVarintLen64: no varint of a 64-bit value is longer. */
  const MaxVarintLen64: nat := 10

  /**
   * Capacity(i) is the exclusive bound on what the bytes from position i on
   * may still contribute, in units of 128^i: every position before the tenth
   * adds seven bits, and the tenth may only add one.
   */
  function Capacity(i: nat): (c: nat)
    requires i < MaxVarintLen64
    ensures c >= 2
    decreases MaxVarintLen64 - i
  {
    if i == MaxVarintLen64 - 1 then 2 else 128 * Capacity(i + 1)
  }

  /** binary.PutUvarint: the base-128 little-endian encoding of x. */
  function PutUvarint(x: nat): (r: seq<byte>)
    ensures |r| >= 1
    ensures r[|r| - 1] < 128 && forall k :: 0 <= k < |r| - 1 ==> r[k] >= 128
    decreases x
  {
    if x < 128 then [x] else [x % 128 + 128] + PutUvarint(x / 128)
  }

  /** Why reading a varint can fail. */
  datatype VarintError =
    | EndOfStream     // io.EOF: no byte at all was available
    | UnexpectedEnd   // io.ErrUnexpectedEOF: the stream ended inside the varint
    | Overflow        // the value does not fit in 64 bits

  /** The value read and the number of bytes it occupied, or the failure. */
  datatype VarintRead = Read(value: int, size: nat) | Failed(error: VarintError)

  /**
   * binary.ReadUvarint, resumed after i bytes have been read: reads the rest
   * of the varint from the front of s.
   */
  function ReadUvarintFrom(s: seq<byte>, i: nat): (r: VarintRead)
    requires i <= MaxVarintLen64
    ensures r.Read? ==> i < MaxVarintLen64 && 0 <= r.value < Capacity(i)
    ensures r.Read? ==> 1 <= r.size <= |s| && r.size <= MaxVarintLen64 - i
    ensures r == Failed(EndOfStream) <==> i == 0 && s == []
    decreases MaxVarintLen64 - i
  {
    if i == MaxVarintLen64 then Failed(Overflow)
    else if |s| == 0 then (if i == 0 then Failed(EndOfStream) else Failed(UnexpectedEnd))
    else if s[0] < 128 then
      (if i == MaxVarintLen64 - 1 && s[0] > 1 then Failed(Overflow) else Read(s[0], 1))
    else
      match ReadUvarintFrom(s[1..], i + 1)
      case Read(v, n) => Read(s[0] - 128 + 128 * v, n + 1)
      case Failed(e) => Failed(e)
  }

  /** binary.ReadUvarint. */
  function ReadUvarint(s: seq<byte>): (r: VarintRead)
    ensures r.Read? ==> 0 <= r.value < TWO_POW_64 && 1 <= r.size <= |s| && r.size <= MaxVarintLen64
    ensures r == Failed(EndOfStream) <==> s == []
  {
    CapacityOfAll();
    ReadUvarintFrom(s, 0)
  }

  /** All ten positions together hold exactly 64 bits. */
  lemma CapacityOfAll()
    ensures Capacity(0) == TWO_POW_64
  {
  }

  /**
   * Reading back what PutUvarint wrote, after i bytes of room are used up,
   * gives the value and its length, whatever follows it.
   */
  lemma {:induction false} ReadPutUvarintFrom(x: nat, i: nat, rest: seq<byte>)
    requires i < MaxVarintLen64 && x < Capacity(i)
    ensures ReadUvarintFrom(PutUvarint(x) + rest, i) == Read(x, |PutUvarint(x)|)
  {
    var s := PutUvarint(x) + rest;
    if x >= 128 {
      assert i + 1 < MaxVarintLen64;
      assert x / 128 < Capacity(i + 1);
      assert s[0] == x % 128 + 128;
      assert s[1..] == PutUvarint(x / 128) + rest;
      ReadPutUvarintFrom(x / 128, i + 1, rest);
      assert x % 128 + 128 * (x / 128) == x;
    } else {
      assert s[0] == x;
    }
  }

  /**
   * A varint cut short, after i bytes of room are used up, is an unexpected
   * end of stream: the reader never mistakes it for a shorter value.
   */
  lemma {:induction false} ReadTruncatedUvarintFrom(x: nat, i: nat, j: nat)
    requires i < MaxVarintLen64 && x < Capacity(i)
    requires 0 < j < |PutUvarint(x)|
    ensures ReadUvarintFrom(PutUvarint(x)[..j], i) == Failed(UnexpectedEnd)
  {
    var s := PutUvarint(x)[..j];
    assert x >= 128;
    assert i + 1 < MaxVarintLen64;
    assert s[0] == x % 128 + 128;
    assert s[1..] == PutUvarint(x / 128)[..j - 1];
    if j > 1 {
      ReadTruncatedUvarintFrom(x / 128, i + 1, j - 1);
    }
  }

  /** ReadUvarint inverts PutUvarint on every uint64, which takes at most MaxVarintLen64 bytes. */
  lemma ReadPutUvarint(x: u64, rest: seq<byte>)
    ensures ReadUvarint(PutUvarint(x) + rest) == Read(x, |PutUvarint(x)|)
    ensures |PutUvarint(x)| <= MaxVarintLen64
  {
    CapacityOfAll();
    ReadPutUvarintFrom(x, 0, rest);
  }

  /** ReadUvarint reports every proper prefix of an encoded uint64 as an unexpected end. */
  lemma ReadTruncatedUvarint(x: u64, j: nat)
    requires 0 < j < |PutUvarint(x)|
    ensures ReadUvarint(PutUvarint(x)[..j]) == Failed(UnexpectedEnd)
  {
    CapacityOfAll();
    ReadTruncatedUvarintFrom(x, 0, j);
  }

  /** Go's uint64 addition, which wraps around modulo 2^64. */
  function AddU64(a: u64, b: u64): (r: u64)
    ensures a + b < TWO_POW_64 ==> r == a + b
    ensures a + b >= TWO_POW_64 ==> r == a + b - TWO_POW_64 && r < a
  {
    (a + b) % TWO_POW_64
  }

  /**
   * A wrapped sum is never smaller than its first operand exactly when the
   * addition does not overflow: scheduling fromNow ticks after now lands in
   * the past precisely when now + fromNow passes 2^64.
   */
  lemma AddU64NotBefore(a: u64, b: u64)
    ensures AddU64(a, b) >= a <==> a + b < TWO_POW_64
    ensures a + b < TWO_POW_64 ==> AddU64(a, b) == a + b
  {
    if a + b >= TWO_POW_64 {
      assert AddU64(a, b) == a + b - TWO_POW_64;
    }
  }

  /** ZigZag encoding, as binary.PutVarint does it: 0, -1, 1, -2, ... become 0, 1, 2, 3, ... */
  function ZigZag(v: i64): (u: u64)
    ensures v >= 0 <==> u % 2 == 0
  {
    if v >= 0 then 2 * v else -2 * v - 1
  }

  /** The inverse of ZigZag, as binary.ReadVarint does it. */
  function UnZigZag(u: u64): (v: i64)
    ensures ZigZag(v) == u
  {
    if u % 2 == 0 then u / 2 else -(u / 2) - 1
  }

  /** ZigZag is one-to-one: decoding an encoded value gives it back. */
  lemma ZigZagRoundTrip(v: i64)
    ensures UnZigZag(ZigZag(v)) == v
  {
  }

  /** binary.PutVarint. */
  function PutVarint(v: i64): (r: seq<byte>)
    ensures 1 <= |r| <= MaxVarintLen64
    ensures r[|r| - 1] < 128 && forall k :: 0 <= k < |r| - 1 ==> r[k] >= 128
  {
    ReadPutUvarint(ZigZag(v), []);
    PutUvarint(ZigZag(v))
  }

  /** binary.ReadVarint. */
  function ReadVarint(s: seq<byte>): (r: VarintRead)
    ensures r.Read? ==> -TWO_POW_63 <= r.value < TWO_POW_63 && 1 <= r.size <= |s| && r.size <= MaxVarintLen64
    ensures r == Failed(EndOfStream) <==> s == []
  {
    match ReadUvarint(s)
    case Read(u, n) => Read(UnZigZag(u), n)
    case Failed(e) => Failed(e)
  }

  /** ReadVarint inverts PutVarint on every int64, whatever follows the encoding. */
  lemma ReadPutVarint(v: i64, rest: seq<byte>)
    ensures ReadVarint(PutVarint(v) + rest) == Read(v, |PutVarint(v)|)
    ensures 1 <= |PutVarint(v)| <= MaxVarintLen64
  {
    ReadPutUvarint(ZigZag(v), rest);
    ZigZagRoundTrip(v);
  }
}
