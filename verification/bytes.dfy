/** Bytes and the little-endian unsigned 32-bit integer that frames the
    metadata block (`u32::from_le_bytes`). */
module Bytes {

  newtype u8 = x: int | 0 <= x < 256

  /** One more than the largest `u32`. */
  const U32Limit: nat := 0x1_0000_0000

  /** The value of four bytes read as a little-endian `u32`. */
  function LeU32(b: seq<u8>): (n: nat)
    requires |b| == 4
    ensures n < U32Limit
  {
    b[0] as nat + 0x100 * b[1] as nat + 0x1_0000 * b[2] as nat + 0x100_0000 * b[3] as nat
  }

  /** The four little-endian bytes of a `u32` (`u32::to_le_bytes`): each
      byte is the low eight bits left after shifting out the ones before. */
  function LeBytes(n: nat): (b: seq<u8>)
    requires n < U32Limit
    ensures |b| == 4
  {
    var q1 := n / 0x100;
    var q2 := q1 / 0x100;
    [(n % 0x100) as u8, (q1 % 0x100) as u8, (q2 % 0x100) as u8, (q2 / 0x100) as u8]
  }

  /** A low byte and the rest are recovered by `% 0x100` and `/ 0x100`. */
  lemma SplitByte(lo: nat, hi: nat)
    requires lo < 0x100
    ensures (lo + 0x100 * hi) % 0x100 == lo
    ensures (lo + 0x100 * hi) / 0x100 == hi
  {
  }

  /** Reading back the bytes of a `u32` gives the same number. */
  lemma LeU32OfLeBytes(n: nat)
    requires n < U32Limit
    ensures LeU32(LeBytes(n)) == n
  {
    var q1 := n / 0x100;
    var q2 := q1 / 0x100;
    assert n == n % 0x100 + 0x100 * q1;
    assert q1 == q1 % 0x100 + 0x100 * q2;
    assert q2 == q2 % 0x100 + 0x100 * (q2 / 0x100);
  }

  /** Four bytes are recovered from the number they encode: no two byte
      quadruples name the same length. */
  lemma LeBytesOfLeU32(b: seq<u8>)
    requires |b| == 4
    ensures LeBytes(LeU32(b)) == b
  {
    var b0, b1, b2, b3 := b[0] as nat, b[1] as nat, b[2] as nat, b[3] as nat;
    var q2 := b2 + 0x100 * b3;
    var q1 := b1 + 0x100 * q2;
    assert LeU32(b) == b0 + 0x100 * q1;
    SplitByte(b0, q1);
    SplitByte(b1, q2);
    SplitByte(b2, b3);
  }
}
