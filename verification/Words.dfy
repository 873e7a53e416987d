/** Machine integers and little-endian fields, written out over unbounded integers. */
module Words {

  type Byte = x: int | 0 <= x < 256
  type U16 = x: int | 0 <= x < 0x1_0000
  type U32 = x: int | 0 <= x < 0x1_0000_0000

  /** The value of a 32-bit unsigned expression. */
  function Wrap32(x: int): (r: U32)
    ensures 0 <= x < 0x1_0000_0000 ==> r == x
  {
    x % 0x1_0000_0000
  }

  /** `b[at] | b[at + 1] << 8` */
  function Le16(b: seq<Byte>, at: nat): U16
    requires at + 2 <= |b|
  {
    b[at] as int + 0x100 * b[at + 1] as int
  }

  /** `b[at] | b[at + 1] << 8 | b[at + 2] << 16 | b[at + 3] << 24` */
  function Le32(b: seq<Byte>, at: nat): U32
    requires at + 4 <= |b|
  {
    b[at] as int + 0x100 * b[at + 1] as int + 0x1_0000 * b[at + 2] as int + 0x100_0000 * b[at + 3] as int
  }

  function Bytes16(v: nat): (b: seq<Byte>)
    ensures |b| == 2
  {
    [v % 0x100, v / 0x100 % 0x100]
  }

  function Bytes32(v: nat): (b: seq<Byte>)
    ensures |b| == 4
  {
    [v % 0x100, v / 0x100 % 0x100, v / 0x1_0000 % 0x100, v / 0x100_0000 % 0x100]
  }

  /** The caller's array `was` after storing `items` from its start, at most `limit` of them. */
  function Filled<T>(was: seq<T>, items: seq<T>, limit: int): (r: seq<T>)
    ensures |r| == |was|
  {
    seq(|was|, k requires 0 <= k < |was| => if k < |items| && k < limit then items[k] else was[k])
  }

  lemma Digits(v: U32)
    ensures v == v % 0x100 + 0x100 * (v / 0x100 % 0x100) + 0x1_0000 * (v / 0x1_0000 % 0x100)
              + 0x100_0000 * (v / 0x100_0000 % 0x100)
  {
    assert v / 0x100 == v / 0x100 % 0x100 + 0x100 * (v / 0x1_0000);
    assert v / 0x1_0000 == v / 0x1_0000 % 0x100 + 0x100 * (v / 0x100_0000);
  }

  /** A field written little-endian is read back. */
  lemma Le32Back(b: seq<Byte>, at: nat, v: U32)
    requires at + 4 <= |b| && b[at..at + 4] == Bytes32(v)
    ensures Le32(b, at) == v
  {
    var w := b[at..at + 4];
    assert w[0] == b[at] && w[1] == b[at + 1] && w[2] == b[at + 2] && w[3] == b[at + 3];
    Digits(v);
  }

  lemma Le16Back(b: seq<Byte>, at: nat, v: U16)
    requires at + 2 <= |b| && b[at..at + 2] == Bytes16(v)
    ensures Le16(b, at) == v
  {
    var w := b[at..at + 2];
    assert w[0] == b[at] && w[1] == b[at + 1];
  }
}
