/** Bytes, and the little-endian fields ZIP records are made of. */
module Bytes {
  type Byte = x: int | 0 <= x < 0x100
  type U16 = x: int | 0 <= x < 0x1_0000
  type U32 = x: int | 0 <= x < 0x1_0000_0000
  type Data = seq<Byte>

  /** `buffer.readUInt16LE(at)`; the precondition is the bound Node would throw for. */
  function U16At(b: Data, at: nat): U16
    requires at + 2 <= |b|
  {
    var low: int, high: int := b[at], b[at + 1];
    low + 0x100 * high
  }

  /** `buffer.readUInt32LE(at)`. */
  function U32At(b: Data, at: nat): U32
    requires at + 4 <= |b|
  {
    var low: int, high: int := U16At(b, at), U16At(b, at + 2);
    low + 0x1_0000 * high
  }

  /** The bytes weigh 1, 256, 65,536 and 16,777,216, the first the least. */
  lemma LittleEndian(b: Data, at: nat)
    requires at + 4 <= |b|
    ensures var w: int, x: int, y: int, z: int := b[at], b[at + 1], b[at + 2], b[at + 3];
            && U16At(b, at) == w + 0x100 * x
            && U32At(b, at) == w + 0x100 * x + 0x1_0000 * y + 0x100_0000 * z
  {
  }

  function Le16(x: U16): (b: Data)
    ensures |b| == 2
  {
    [x % 0x100, x / 0x100]
  }

  function Le32(x: U32): (b: Data)
    ensures |b| == 4
  {
    Le16(x % 0x1_0000) + Le16(x / 0x1_0000)
  }

  lemma ReadLe16(b: Data, at: nat, x: U16)
    requires at + 2 <= |b|
    ensures b[at..at + 2] == Le16(x) <==> U16At(b, at) == x
  {
  }

  lemma ReadLe32(b: Data, at: nat, x: U32)
    requires at + 4 <= |b|
    ensures b[at..at + 4] == Le32(x) <==> U32At(b, at) == x
  {
    ReadLe16(b, at, x % 0x1_0000);
    ReadLe16(b, at + 2, x / 0x1_0000);
    assert b[at..at + 4] == b[at..at + 2] + b[at + 2..at + 4];
    if b[at..at + 4] == Le32(x) {
      assert b[at..at + 2] == b[at..at + 4][..2] == Le16(x % 0x1_0000);
      assert b[at + 2..at + 4] == b[at..at + 4][2..] == Le16(x / 0x1_0000);
    }
  }

  /** `buffer.toString('latin1')`: one character per byte. */
  function Latin1(b: Data): (s: string)
    ensures |s| == |b|
    ensures forall i | 0 <= i < |b| :: s[i] == b[i] as char
  {
    seq(|b|, i requires 0 <= i < |b| => b[i] as char)
  }
}
