/**
  The frame bitmap of src/paging.c: one bit a frame, packed in 32-bit words.
  A word is a natural number below 2^32 and its bits are read off by halving, so
  `WithBit(w, k)` is w | (1 << k) and `WithoutBit(w, k)` is w & ~(1 << k).
 */
module Bitmap {
  import opened Words

  datatype Option<+T> = None | Some(value: T)

  const FULL: u32 := 0xFFFF_FFFF

  predicate Bit(w: nat, j: nat) {
    if j == 0 then w % 2 == 1 else Bit(w / 2, j - 1)
  }

  function WithBit(w: nat, k: nat): nat {
    if k == 0 then w / 2 * 2 + 1 else WithBit(w / 2, k - 1) * 2 + w % 2
  }

  function WithoutBit(w: nat, k: nat): nat {
    if k == 0 then w / 2 * 2 else WithoutBit(w / 2, k - 1) * 2 + w % 2
  }

  lemma PowerOf32()
    ensures Power(2, 32) == 0x1_0000_0000
  {
    assert Power(2, 8) == 0x100;
    assert Power(2, 16) == 0x1_0000;
    assert Power(2, 24) == 0x100_0000;
  }

  /** Setting or clearing a bit changes that bit and no other. */
  lemma {:induction false} WordBits(w: nat, k: nat, j: nat)
    ensures Bit(WithBit(w, k), j) <==> j == k || Bit(w, j)
    ensures Bit(WithoutBit(w, k), j) <==> j != k && Bit(w, j)
  {
    if k != 0 {
      assert WithBit(w, k) / 2 == WithBit(w / 2, k - 1) && WithoutBit(w, k) / 2 == WithoutBit(w / 2, k - 1);
      if j != 0 { WordBits(w / 2, k - 1, j - 1); }
    }
  }

  /** Bit `j` weighs 2^j: it is read off by dividing, and setting it, where it was clear, adds its weight. */
  lemma {:induction false} BitWeighs(w: nat, j: nat)
    ensures Power(2, j) > 0 && (Bit(w, j) <==> w / Power(2, j) % 2 == 1)
    ensures WithBit(w, j) == if Bit(w, j) then w else w + Power(2, j)
    ensures WithoutBit(w, j) == if Bit(w, j) then w - Power(2, j) else w
  {
    if j > 0 {
      BitWeighs(w / 2, j - 1);
      HalfFirst(w, Power(2, j - 1));
    }
  }

  lemma HalfFirst(w: nat, p: nat)
    requires p > 0
    ensures w / (2 * p) == w / 2 / p
  {
    var q, r := w / 2 / p, w / 2 % p;
    assert w / 2 == q * p + r && w == 2 * (w / 2) + w % 2;
    assert w == q * (2 * p) + (2 * r + w % 2) && 2 * r + w % 2 < 2 * p;
    QuotientIs(w, 2 * p, q, 2 * r + w % 2);
  }

  lemma QuotientIs(w: nat, d: nat, q: nat, r: nat)
    requires w == q * d + r && r < d
    ensures w / d == q
  {
    Multiples(w / d, q, d);
    Multiples(q, w / d, d);
  }

  lemma Multiples(a: nat, b: nat, d: nat)
    ensures a < b ==> a * d + d <= b * d
  {
    if a < b { assert (a + 1) * d <= b * d; }
  }

  /** Setting or clearing one of the n low bits keeps an n-bit word an n-bit word. */
  lemma {:induction false} WordFits(w: nat, k: nat, n: nat)
    requires w < Power(2, n) && k < n
    ensures WithBit(w, k) < Power(2, n) && WithoutBit(w, k) < Power(2, n)
  {
    assert Power(2, n) == 2 * Power(2, n - 1) && w / 2 < Power(2, n - 1);
    if k != 0 { WordFits(w / 2, k - 1, n - 1); }
  }

  /** The number 2^n - 1 has all its n bits set. */
  lemma {:induction false} AllOnes(w: nat, n: nat, j: nat)
    requires w + 1 == Power(2, n) && j < n
    ensures Bit(w, j)
  {
    if j != 0 { AllOnes(w / 2, n - 1, j - 1); }
  }

  /** Bit `f` of the bitmap is set. */
  predicate Taken(bits: seq<u32>, f: nat)
    requires f < 32 * |bits|
  {
    Bit(bits[f / 32], f % 32)
  }

  function SetBit(bits: seq<u32>, f: nat): (bits': seq<u32>)
    requires f < 32 * |bits|
    ensures |bits'| == |bits|
  {
    PowerOf32();
    WordFits(bits[f / 32], f % 32, 32);
    bits[f / 32 := WithBit(bits[f / 32], f % 32)]
  }

  function ClearBit(bits: seq<u32>, f: nat): (bits': seq<u32>)
    requires f < 32 * |bits|
    ensures |bits'| == |bits|
  {
    PowerOf32();
    WordFits(bits[f / 32], f % 32, 32);
    bits[f / 32 := WithoutBit(bits[f / 32], f % 32)]
  }

  lemma SetBitTakes(bits: seq<u32>, f: nat, g: nat)
    requires f < 32 * |bits| && g < 32 * |bits|
    ensures Taken(SetBit(bits, f), g) <==> g == f || Taken(bits, g)
  {
    WordBits(bits[f / 32], f % 32, g % 32);
  }

  lemma ClearBitFrees(bits: seq<u32>, f: nat, g: nat)
    requires f < 32 * |bits| && g < 32 * |bits|
    ensures Taken(ClearBit(bits, f), g) <==> g != f && Taken(bits, g)
  {
    WordBits(bits[f / 32], f % 32, g % 32);
  }

  /** Frame `f` is bit f % 32 of word f / 32: taking and freeing it adds and takes away that bit's weight there, and nowhere else. */
  lemma FrameWeighs(bits: seq<u32>, f: nat, k: nat)
    requires f < 32 * |bits| && k < |bits|
    ensures Power(2, f % 32) > 0 && (Taken(bits, f) <==> bits[f / 32] / Power(2, f % 32) % 2 == 1)
    ensures SetBit(bits, f)[k] == bits[k] + if k == f / 32 && !Taken(bits, f) then Power(2, f % 32) else 0
    ensures ClearBit(bits, f)[k] == bits[k] - if k == f / 32 && Taken(bits, f) then Power(2, f % 32) else 0
  {
    hide Bit, WithBit, WithoutBit;
    BitWeighs(bits[f / 32], f % 32);
  }

  /** `f` is the lowest clear bit. */
  ghost predicate LeastClear(bits: seq<u32>, f: nat) {
    && f < 32 * |bits| && !Taken(bits, f)
    && forall g :: 0 <= g < f ==> Taken(bits, g)
  }

  ghost predicate AllTaken(bits: seq<u32>) {
    forall g :: 0 <= g < 32 * |bits| ==> Taken(bits, g)
  }

  lemma FullWord(bits: seq<u32>, i: nat)
    requires i < |bits| && bits[i] == FULL
    ensures forall g :: 32 * i <= g < 32 * (i + 1) ==> Taken(bits, g)
  {
    forall g | 32 * i <= g < 32 * (i + 1) ensures Taken(bits, g) {
      PowerOf32();
      AllOnes(FULL, 32, g % 32);
    }
  }

  /**
    first_frame: the scan over words, then over the bits of the first word that is
    not full. Where the source returns 0 when nothing is free, this returns None.
   */
  method FirstFrame(frames: array<u32>) returns (r: Option<nat>)
    ensures r.Some? ==> LeastClear(frames[..], r.value)
    ensures r.None? ==> AllTaken(frames[..])
  {
    hide Bit;
    var i := 0;
    while i < frames.Length
      invariant i <= frames.Length
      invariant forall g :: 0 <= g < 32 * i ==> Taken(frames[..], g)
    {
      if frames[i] != FULL {
        var j := 0;
        while j < 32
          invariant j <= 32
          invariant forall g :: 0 <= g < 32 * i + j ==> Taken(frames[..], g)
        {
          if !Bit(frames[i], j) {
            return Some(i * 4 * 8 + j);
          }
          j := j + 1;
        }
      } else {
        FullWord(frames[..], i);
      }
      i := i + 1;
    }
    return None;
  }
}
