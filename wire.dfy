/**
 * Bytes and fixed-width unsigned integers as they appear on the wire.
 *
 * The frame header is a `uint32_t` copied with `memcpy` in the host's byte
 * order. This model fixes it as little-endian (the order of the usual hosts)
 * and proves that the 4-byte encoding and decoding are mutual inverses.
 */
module Wire {

  type byte = b: int | 0 <= b < 0x100

  type Bytes = seq<byte>

  const Limit16: int := 0x1_0000
  const Limit32: int := 0x1_0000_0000

  type uint32 = n: int | 0 <= n < 0x1_0000_0000

  /** The four bytes of `n`, least significant first. */
  function LittleEndian32(n: uint32): (r: Bytes)
    ensures |r| == 4
  {
    var q1 := n / 0x100;
    var q2 := q1 / 0x100;
    [n % 0x100, q1 % 0x100, q2 % 0x100, q2 / 0x100]
  }

  /** The unsigned value of four bytes, least significant first. */
  function FromLittleEndian32(b: Bytes): (n: uint32)
    requires |b| == 4
    ensures n % 0x100 == b[0] && n / 0x100_0000 == b[3]
  {
    var low := b[0] as int + 0x100 * (b[1] as int) + 0x1_0000 * (b[2] as int);
    var n := low + 0x100_0000 * (b[3] as int);
    SplitByte(n, b[0], b[1] as int + 0x100 * (b[2] as int) + 0x1_0000 * (b[3] as int));
    SplitTop(n, low, b[3]);
    n
  }

  lemma SplitByte(x: int, lo: int, hi: int)
    requires 0 <= lo < 0x100 && 0 <= hi && x == lo + 0x100 * hi
    ensures x % 0x100 == lo && x / 0x100 == hi
  {
  }

  lemma SplitTop(x: int, lo: int, hi: int)
    requires 0 <= lo < 0x100_0000 && 0 <= hi && x == lo + 0x100_0000 * hi
    ensures x / 0x100_0000 == hi
  {
  }

  /** Decoding the encoding of a length gives the length back. */
  lemma DecodeEncode32(n: uint32)
    ensures FromLittleEndian32(LittleEndian32(n)) == n
  {
    var q1 := n / 0x100;
    var q2 := q1 / 0x100;
    assert n == n % 0x100 + 0x100 * q1;
    assert q1 == q1 % 0x100 + 0x100 * q2;
    assert q2 == q2 % 0x100 + 0x100 * (q2 / 0x100);
  }

  /** Encoding the value of a 4-byte header gives the same four bytes back. */
  lemma EncodeDecode32(b: Bytes)
    requires |b| == 4
    ensures LittleEndian32(FromLittleEndian32(b)) == b
  {
    var n := FromLittleEndian32(b);
    var h1: int := b[1] as int + 0x100 * (b[2] as int) + 0x1_0000 * (b[3] as int);
    var h2: int := b[2] as int + 0x100 * (b[3] as int);
    SplitByte(n, b[0], h1);
    SplitByte(h1, b[1], h2);
    SplitByte(h2, b[2], b[3]);
  }

  /** `std::vector::resize`: keeps the first `n` bytes and pads with zeros. */
  function Resize(s: Bytes, n: nat): (r: Bytes)
    ensures |r| == n
    ensures forall i :: 0 <= i < n ==> r[i] == if i < |s| then s[i] else 0
  {
    if n <= |s| then s[..n] else s + seq(n - |s|, _ => 0)
  }
}
