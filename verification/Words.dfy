/**
  Byte-addressed memory holding little-endian 32-bit words, the layout every
  boundary tag of the kernel heap is written in.
 */
module Words {

  type byte = x: int | 0 <= x < 0x100
  const TWO_TO_THE_32: nat := 0x1_0000_0000
  type u32 = x: int | 0 <= x < 0x1_0000_0000

  const PAGE_SIZE: nat := 0x1000

  function Power(base: nat, k: nat): nat {
    if k == 0 then 1 else base * Power(base, k - 1)
  }

  /** The number that bytes stand for, the least significant one first. */
  function LittleEndian(bytes: seq<byte>): nat {
    if bytes == [] then 0 else bytes[0] + 0x100 * LittleEndian(bytes[1..])
  }

  lemma FourBytes(b0: byte, b1: byte, b2: byte, b3: byte)
    ensures LittleEndian([b0, b1, b2, b3]) == b0 as int + 0x100 * (b1 as int) + 0x1_0000 * (b2 as int) + 0x100_0000 * (b3 as int)
  {
    assert [b0, b1, b2, b3][1..] == [b1, b2, b3] && [b1, b2, b3][1..] == [b2, b3] && [b2, b3][1..] == [b3];
    assert LittleEndian([b3]) == b3 as int;
    assert LittleEndian([b2, b3]) == b2 as int + 0x100 * LittleEndian([b3]);
    assert LittleEndian([b1, b2, b3]) == b1 as int + 0x100 * LittleEndian([b2, b3]);
  }

  /** The word stored at address `a`. */
  function Get32(m: seq<byte>, a: nat): (w: int)
    requires a + 4 <= |m|
    ensures 0 <= w < TWO_TO_THE_32
  {
    FourBytes(m[a], m[a + 1], m[a + 2], m[a + 3]);
    LittleEndian([m[a], m[a + 1], m[a + 2], m[a + 3]])
  }

  /** Byte `k` of the word `v`. */
  function ByteOf(v: u32, k: nat): byte
    requires k < 4
  {
    if k == 0 then v % 0x100
    else if k == 1 then (v / 0x100) % 0x100
    else if k == 2 then (v / 0x1_0000) % 0x100
    else v / 0x100_0000
  }

  /** Memory after the word `v` is stored at address `a`. */
  function Put32(m: seq<byte>, a: nat, v: u32): (m': seq<byte>)
    requires a + 4 <= |m|
    ensures |m'| == |m|
    ensures forall b :: 0 <= b < |m| && !(a <= b < a + 4) ==> m'[b] == m[b]
  {
    m[a := ByteOf(v, 0)][a + 1 := ByteOf(v, 1)][a + 2 := ByteOf(v, 2)][a + 3 := ByteOf(v, 3)]
  }

  lemma BytesMakeWord(v: u32)
    ensures LittleEndian([ByteOf(v, 0), ByteOf(v, 1), ByteOf(v, 2), ByteOf(v, 3)]) == v
  {
    FourBytes(ByteOf(v, 0), ByteOf(v, 1), ByteOf(v, 2), ByteOf(v, 3));
    var q := v / 0x100;
    assert v == 0x100 * q + v % 0x100;
    assert q == 0x100 * (q / 0x100) + q % 0x100 && q / 0x100 == v / 0x1_0000;
    assert v / 0x1_0000 == 0x100 * (v / 0x100_0000) + v / 0x1_0000 % 0x100;
  }

  /** Loading what was stored gives it back. */
  lemma GetPut(m: seq<byte>, a: nat, v: u32)
    requires a + 4 <= |m|
    ensures Get32(Put32(m, a, v), a) == v
  {
    hide ByteOf;
    BytesMakeWord(v);
    var m' := Put32(m, a, v);
    assert m'[a] == ByteOf(v, 0) && m'[a + 1] == ByteOf(v, 1) && m'[a + 2] == ByteOf(v, 2) && m'[a + 3] == ByteOf(v, 3);
  }

  /** `m` and `m'` hold the same bytes in [lo, hi). */
  ghost predicate SameIn(m: seq<byte>, m': seq<byte>, lo: int, hi: int) {
    |m| == |m'| && forall b :: 0 <= b < |m| && lo <= b < hi ==> m'[b] == m[b]
  }

  /** `m` and `m'` hold the same bytes everywhere but in [lo, hi). */
  ghost predicate SameOutside(m: seq<byte>, m': seq<byte>, lo: int, hi: int) {
    |m| == |m'| && forall b :: 0 <= b < |m| && !(lo <= b < hi) ==> m'[b] == m[b]
  }

  method LoadWord(m: array<byte>, a: nat) returns (w: nat)
    requires a + 4 <= m.Length
    ensures w == Get32(m[..], a)
  {
    FourBytes(m[a], m[a + 1], m[a + 2], m[a + 3]);
    w := m[a] as int + 0x100 * (m[a + 1] as int) + 0x1_0000 * (m[a + 2] as int) + 0x100_0000 * (m[a + 3] as int);
  }

  method StoreWord(m: array<byte>, a: nat, v: u32)
    requires a + 4 <= m.Length
    modifies m
    ensures m[..] == Put32(old(m[..]), a, v)
  {
    m[a], m[a + 1], m[a + 2], m[a + 3] := ByteOf(v, 0), ByteOf(v, 1), ByteOf(v, 2), ByteOf(v, 3);
  }
}
