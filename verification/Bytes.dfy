/** Bytes and the fixed-width fields the packet and record formats are made of. */
module Bytes {
  import opened Residues

  type byte = x: int | 0 <= x < 256

  const U16: nat := 0x1_0000

  type u16 = x: int | 0 <= x < 0x1_0000
  type u32 = x: int | 0 <= x < 0x1_0000_0000

  /** 16-bit field as a little-endian machine reads it. */
  function Le16(b: seq<byte>, o: nat): (r: nat)
    requires o + 2 <= |b|
    ensures r < U16
  {
    (b[o] as int) + 256 * (b[o + 1] as int)
  }

  function Le32(b: seq<byte>, o: nat): (r: nat)
    requires o + 4 <= |b|
    ensures r < U32
  {
    Le16(b, o) + U16 * Le16(b, o + 2)
  }

  function PutLe16(x: nat): (b: seq<byte>)
    requires x < U16
    ensures |b| == 2 && Le16(b, 0) == x
  {
    [x % 256, x / 256]
  }

  function PutLe32(x: nat): (b: seq<byte>)
    requires x < U32
    ensures |b| == 4 && Le32(b, 0) == x
  {
    var low, high := PutLe16(x % U16), PutLe16(x / U16);
    LeAt(low + high, 0, low, 0);
    LeAt(low + high, 2, high, 0);
    low + high
  }

  /** 16-bit field in network order. */
  function Be16(b: seq<byte>, o: nat): (r: nat)
    requires o + 2 <= |b|
    ensures r < U16
  {
    256 * (b[o] as int) + (b[o + 1] as int)
  }

  function PutBe16(x: nat): (b: seq<byte>)
    requires x < U16
    ensures |b| == 2 && Be16(b, 0) == x
  {
    [x / 256, x % 256]
  }

  /** Fields depend only on the bytes they are read from. */
  lemma LeAt(b: seq<byte>, o: nat, c: seq<byte>, p: nat)
    requires o + 2 <= |b| && p + 2 <= |c| && b[o..o + 2] == c[p..p + 2]
    ensures Le16(b, o) == Le16(c, p)
  {
    assert b[o] == b[o..o + 2][0] && b[o + 1] == b[o..o + 2][1];
    assert c[p] == c[p..p + 2][0] && c[p + 1] == c[p..p + 2][1];
  }

  lemma BeAt(b: seq<byte>, o: nat, c: seq<byte>, p: nat)
    requires o + 2 <= |b| && p + 2 <= |c| && b[o..o + 2] == c[p..p + 2]
    ensures Be16(b, o) == Be16(c, p)
  {
    assert b[o] == b[o..o + 2][0] && b[o + 1] == b[o..o + 2][1];
    assert c[p] == c[p..p + 2][0] && c[p + 1] == c[p..p + 2][1];
  }

  lemma Le32At(b: seq<byte>, o: nat, c: seq<byte>, p: nat)
    requires o + 4 <= |b| && p + 4 <= |c| && b[o..o + 4] == c[p..p + 4]
    ensures Le32(b, o) == Le32(c, p)
  {
    assert b[o..o + 2] == b[o..o + 4][..2] && b[o + 2..o + 4] == b[o..o + 4][2..];
    assert c[p..p + 2] == c[p..p + 4][..2] && c[p + 2..p + 4] == c[p..p + 4][2..];
    LeAt(b, o, c, p);
    LeAt(b, o + 2, c, p + 2);
  }
}
