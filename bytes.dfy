/** Machine integers used on the wire, and the little-endian `u32` codec
    (`u32::from_le_bytes` and its inverse). */
module Bytes {

  /** One byte of a notification buffer. */
  type u8 = x: int | 0 <= x < 0x100

  /** An unsigned 32-bit integer. */
  type u32 = x: int | 0 <= x < 0x1_0000_0000

  /** `u32::from_le_bytes`: the first byte is the least significant. */
  function LeU32(b: seq<u8>): (r: u32)
    requires |b| == 4
  {
    b[0] as int + 0x100 * (b[1] as int + 0x100 * (b[2] as int + 0x100 * b[3] as int))
  }

  /** `u32::to_le_bytes`: the four bytes of `v`, least significant first. */
  function EncodeLeU32(v: u32): (b: seq<u8>)
    ensures |b| == 4
  {
    [v % 0x100, v / 0x100 % 0x100, v / 0x1_0000 % 0x100, v / 0x100_0000]
  }

  /** Splitting off the low byte of `lo + 0x100 * q`. */
  lemma SplitLowByte(lo: int, q: int)
    requires 0 <= lo < 0x100 && 0 <= q
    ensures (lo + 0x100 * q) % 0x100 == lo && (lo + 0x100 * q) / 0x100 == q
  {
  }

  /** Each byte of the input can be read back off the decoded value. */
  lemma LeU32Bytes(b: seq<u8>)
    requires |b| == 4
    ensures LeU32(b) % 0x100 == b[0]
    ensures LeU32(b) / 0x100 % 0x100 == b[1]
    ensures LeU32(b) / 0x1_0000 % 0x100 == b[2]
    ensures LeU32(b) / 0x100_0000 == b[3]
  {
    var q2 := b[2] as int + 0x100 * b[3] as int;
    var q1 := b[1] as int + 0x100 * q2;
    var r := LeU32(b);
    SplitLowByte(b[0], q1);
    SplitLowByte(b[1], q2);
    SplitLowByte(b[2], b[3]);
    SplitLowByte(b[3], 0);
    DivDiv(r, 0x100);
    DivDiv(r, 0x1_0000);
  }

  /** Dividing by `m` and then by 0x100 is dividing by `m * 0x100`. */
  lemma DivDiv(x: nat, m: nat)
    requires m == 0x100 || m == 0x1_0000
    ensures x / m / 0x100 == x / (m * 0x100)
  {
    var q, r1 := x / m, x % m;
    var q2, r2 := q / 0x100, q % 0x100;
    assert x == m * q + r1;
    assert q == 0x100 * q2 + r2;
    if m == 0x100 {
      assert x == 0x1_0000 * q2 + (0x100 * r2 + r1);
    } else {
      assert x == 0x100_0000 * q2 + (0x1_0000 * r2 + r1);
    }
  }

  /** Decoding the encoding of a value gives the value back. */
  lemma LeU32OfEncode(v: u32)
    ensures LeU32(EncodeLeU32(v)) == v
  {
    var b := EncodeLeU32(v);
    var q1 := v / 0x100;
    var q2 := q1 / 0x100;
    DivDiv(v, 0x100);
    DivDiv(v, 0x1_0000);
    assert v == b[0] + 0x100 * q1;
    assert q1 == b[1] + 0x100 * q2;
    assert q2 == b[2] as int + 0x100 * b[3] as int;
  }

  /** Encoding the decoding of four bytes gives the bytes back: the
      decoder is injective, so a decoded value pins down the wire bytes. */
  lemma EncodeOfLeU32(b: seq<u8>)
    requires |b| == 4
    ensures EncodeLeU32(LeU32(b)) == b
  {
    LeU32Bytes(b);
    var e := EncodeLeU32(LeU32(b));
    assert e[0] == b[0] && e[1] == b[1] && e[2] == b[2] && e[3] == b[3];
  }
}
