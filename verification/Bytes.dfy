/** Bytes, 32-bit integers and their little-endian form. */
module Bytes {

  type Byte = b: int | 0 <= b < 0x100

  type Int32 = i: int | -0x8000_0000 <= i < 0x8000_0000

  /** The two's complement bit pattern of an integer, as a number below 2^32. */
  function Pattern(i: Int32): (u: nat)
    ensures u < 0x1_0000_0000
  {
    if i >= 0 then i else i + 0x1_0000_0000
  }

  /** The four bytes of an integer, lowest first. */
  function IntBytes(i: Int32): (bs: seq<Byte>)
    ensures |bs| == 4
  {
    var u := Pattern(i);
    [u % 0x100, u / 0x100 % 0x100, u / 0x1_0000 % 0x100, u / 0x100_0000]
  }

  /** The number that four bytes write, lowest first. */
  function Number(bs: seq<int>): int
    requires |bs| == 4
  {
    bs[0] + 0x100 * bs[1] + 0x1_0000 * bs[2] + 0x100_0000 * bs[3]
  }

  /** The integer stored in four bytes. */
  function BytesInt(bs: seq<Byte>): Int32
    requires |bs| == 4
  {
    var u := Number(bs);
    if u < 0x8000_0000 then u else u - 0x1_0000_0000
  }

  /** Every 32-bit integer survives being written and read. */
  lemma IntRoundTrip(i: Int32)
    ensures BytesInt(IntBytes(i)) == i
  {
    var u := Pattern(i);
    Digit(u);
    Digit(u / 0x100);
    Digit(u / 0x1_0000);
    assert u / 0x100 / 0x100 == u / 0x1_0000 && u / 0x1_0000 / 0x100 == u / 0x100_0000;
  }

  lemma Digit(u: nat)
    ensures u == u % 0x100 + 0x100 * (u / 0x100)
  {
  }

  lemma Split8(q: int, r: int)
    requires 0 <= r < 0x100
    ensures (0x100 * q + r) / 0x100 == q && (0x100 * q + r) % 0x100 == r
  {
  }

  lemma Split16(q: int, r: int)
    requires 0 <= r < 0x1_0000
    ensures (0x1_0000 * q + r) / 0x1_0000 == q
  {
  }

  lemma Split24(q: int, r: int)
    requires 0 <= r < 0x100_0000
    ensures (0x100_0000 * q + r) / 0x100_0000 == q
  {
  }

  lemma DigitsOf(b0: Byte, b1: Byte, b2: Byte, b3: Byte)
    ensures var u := b0 + 0x100 * b1 + 0x1_0000 * b2 + 0x100_0000 * b3;
      u % 0x100 == b0 && u / 0x100 % 0x100 == b1 && u / 0x1_0000 % 0x100 == b2 && u / 0x100_0000 == b3
  {
    Split8(b1 + 0x100 * b2 + 0x1_0000 * b3, b0);
    Split8(b2 + 0x100 * b3, b1);
    Split16(b2 + 0x100 * b3, b0 + 0x100 * b1);
    Split8(b3, b2);
    Split24(b3, b0 + 0x100 * b1 + 0x1_0000 * b2);
  }

  /** Every four bytes are the form of the integer read from them. */
  lemma BytesRoundTrip(bs: seq<Byte>)
    requires |bs| == 4
    ensures IntBytes(BytesInt(bs)) == bs
  {
    DigitsOf(bs[0], bs[1], bs[2], bs[3]);
    assert Pattern(BytesInt(bs)) == Number(bs);
  }

  /** d with bs written at off. */
  function WriteAt(d: seq<Byte>, off: nat, bs: seq<Byte>): (d': seq<Byte>)
    requires off + |bs| <= |d|
    ensures |d'| == |d|
    ensures d'[off..off + |bs|] == bs && d'[..off] == d[..off] && d'[off + |bs|..] == d[off + |bs|..]
  {
    d[..off] + bs + d[off + |bs|..]
  }
}
