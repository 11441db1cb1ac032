/**
  Decimal and hexadecimal texts of 32-bit numbers, as the formatter
  (src/printk.c:124-179) and the screen (src/screen.c:126-181) write them.
 */
module Numerals {
  import opened Words

  /** A C `char`, signed as on x86. */
  type char8 = c: int | -128 <= c < 128
  type text = seq<char8>

  const ZERO: char8 := '0' as int
  const LOWER_A: char8 := 'a' as int
  const LOWER_X: char8 := 'x' as int

  // ----- What the texts mean

  function Dec(n: nat): text {
    if n < 10 then [ZERO + n] else Dec(n / 10) + [ZERO + n % 10]
  }

  function HexDigit(d: nat): char8
    requires d < 16
  {
    if d >= 10 then d - 10 + LOWER_A else d + ZERO
  }

  lemma HexDigitIs(d: nat)
    requires d < 16
    ensures HexDigit(d) == "0123456789abcdef"[d] as int
  {
  }

  function HexDigits(n: nat): text {
    if n < 16 then [HexDigit(n)] else HexDigits(n / 16) + [HexDigit(n % 16)]
  }

  function Hex(n: nat): text { [ZERO, LOWER_X] + HexDigits(n) }

  function ParseDec(s: text): int {
    if s == [] then 0 else 10 * ParseDec(s[..|s| - 1]) + (s[|s| - 1] - ZERO)
  }

  function DigitValue(c: char8): int { if c >= LOWER_A then c - LOWER_A + 10 else c - ZERO }

  function ParseHex(s: text): int {
    if s == [] then 0 else 16 * ParseHex(s[..|s| - 1]) + DigitValue(s[|s| - 1])
  }

  /** Decimal texts read back, have digits only, and no leading zero. */
  lemma {:induction false} DecReadsBack(n: nat)
    ensures Dec(n) != [] && ParseDec(Dec(n)) == n
    ensures forall i :: 0 <= i < |Dec(n)| ==> ZERO <= Dec(n)[i] <= ZERO + 9
    ensures Dec(n)[0] == ZERO ==> n == 0
  {
    if n < 10 {
      assert [ZERO + n][..0] == [];
    } else {
      DecReadsBack(n / 10);
      assert Dec(n)[..|Dec(n)| - 1] == Dec(n / 10);
    }
  }

  lemma {:induction false} HexReadsBack(n: nat)
    ensures HexDigits(n) != [] && ParseHex(HexDigits(n)) == n
    ensures forall i :: 0 <= i < |HexDigits(n)| ==> ZERO <= HexDigits(n)[i] <= ZERO + 9 || LOWER_A <= HexDigits(n)[i] <= LOWER_A + 5
    ensures HexDigits(n)[0] == ZERO ==> n == 0
  {
    if n < 16 {
      assert [HexDigit(n)][..0] == [];
    } else {
      HexReadsBack(n / 16);
      assert HexDigits(n)[..|HexDigits(n)| - 1] == HexDigits(n / 16);
    }
  }

  /** A number of at most k hex digits has a text of at most k. */
  lemma {:induction false} HexLength(n: nat, k: nat)
    requires Shr(n, k) == 0 && 0 < k
    ensures |HexDigits(n)| <= k
  {
    if n >= 16 {
      if k > 1 { HexLength(n / 16, k - 1); }
    }
  }

  lemma {:induction false} DecLength(n: nat, k: nat)
    requires Tens(n, k) == 0 && 0 < k
    ensures |Dec(n)| <= k
  {
    if n >= 10 {
      if k > 1 { DecLength(n / 10, k - 1); }
    }
  }

  /** n with its last k decimal digits dropped. */
  function Tens(n: nat, k: nat): nat {
    if k == 0 then n else Tens(n / 10, k - 1)
  }

  /** n >> 4k. */
  function Shr(n: nat, k: nat): nat {
    if k == 0 then n else Shr(n / 16, k - 1)
  }

  lemma {:induction false} ShrStep(n: nat, k: nat)
    ensures Shr(n, k + 1) == Shr(n, k) / 16
  {
    if k > 0 { ShrStep(n / 16, k - 1); }
  }

  lemma {:induction false} ShrSmall(n: nat, k: nat)
    requires n < Power(16, k)
    ensures Shr(n, k) == 0
  {
    if k > 0 { ShrSmall(n / 16, k - 1); }
  }

  lemma {:induction false} TensSmall(n: nat, k: nat)
    requires n < Power(10, k)
    ensures Tens(n, k) == 0
  {
    if k > 0 { TensSmall(n / 10, k - 1); }
  }

  lemma ShrU32(n: u32)
    ensures Shr(n, 8) == 0
  {
    assert Power(16, 4) == 0x1_0000;
    assert Power(16, 8) == 0x1_0000_0000;
    ShrSmall(n, 8);
  }

  lemma TensU32(n: u32)
    ensures Tens(n, 10) == 0
  {
    assert Power(10, 5) == 100000;
    assert Power(10, 10) == 10000000000;
    TensSmall(n, 10);
  }

  // ----- u32_to_dec as it is: the accumulator is a char

  /** (char)n. */
  function AsChar(n: u32): char8 {
    if n % 256 < 128 then n % 256 else n % 256 - 256
  }

  /** The text u32_to_dec writes. */
  function DecOfChar(n: u32): text {
    if n == 0 then [ZERO] else if AsChar(n) > 0 then Dec(AsChar(n)) else []
  }

  lemma DecOfDigit(n: nat)
    ensures n < 10 ==> Dec(n) == [ZERO + n]
  {
  }

  /** The text is the number's own exactly below 128. */
  lemma DecOfCharRight(n: u32)
    ensures DecOfChar(n) == Dec(n) <==> n < 128
    ensures n % 256 == 0 && n > 0 ==> DecOfChar(n) == []
  {
    hide Dec, ParseDec;
    DecReadsBack(n);
    if n < 128 {
      assert AsChar(n) == n;
      DecOfDigit(n);
    } else if AsChar(n) > 0 {
      DecReadsBack(AsChar(n));
      assert ParseDec(Dec(AsChar(n))) < ParseDec(Dec(n));
    }
  }

  /**
    For any number: the text reads back as the lowest byte, without a leading zero, if that is
    from 1 to 127 or the number is 0, and is empty otherwise.
   */
  lemma DecOfCharReadsBack(n: u32)
    ensures DecOfChar(n) == [] <==> n > 0 && (n % 256 == 0 || n % 256 >= 128)
    ensures DecOfChar(n) != [] ==> ParseDec(DecOfChar(n)) == n % 256 && (DecOfChar(n)[0] == ZERO ==> n == 0)
  {
    hide Dec, ParseDec;
    DecOfDigit(n);
    DecReadsBack(n % 256);
    if n == 0 { DecReadsBack(0); }
  }

  /** u32_to_hex: eight nibbles from the top, leading zeros skipped, the last one always written. */
  method U32ToHex(n: u32, out: array<char8>) returns (idx: nat)
    requires out.Length >= 32
    modifies out
    ensures idx == |Hex(n)| <= 10 && out[..idx + 1] == Hex(n) + [0]
  {
    ShrU32(n);
    HexLength(n, 8);
    out[0], out[1] := ZERO, LOWER_X;
    idx := 2;
    var noZeroes := true;
    var k := 7;
    while k > 0
      invariant 0 <= k <= 7 && 2 <= idx <= 9 - k
      invariant noZeroes <==> Shr(n, k + 1) == 0
      invariant out[..idx] == [ZERO, LOWER_X] + (if noZeroes then [] else HexDigits(Shr(n, k + 1)))
    {
      ShrStep(n, k);
      var tmp := Shr(n, k) % 16;
      if !(tmp == 0 && noZeroes) {
        ghost var was := out[..idx];
        out[idx] := HexDigit(tmp);
        assert out[..idx + 1] == was + [HexDigit(tmp)];
        idx := idx + 1;
        noZeroes := false;
      }
      k := k - 1;
    }
    ShrStep(n, 0);
    ghost var was := out[..idx];
    out[idx] := HexDigit(n % 16);
    assert out[..idx + 1] == was + [HexDigit(n % 16)] == Hex(n);
    idx := idx + 1;
    ghost var digits := out[..idx];
    out[idx] := 0;
    assert out[..idx + 1] == digits + [0];
  }

  /** The digits of n, least significant first, as the loop over the accumulator leaves them. */
  function LowDigits(n: nat): text {
    if n == 0 then [] else [ZERO + n % 10] + LowDigits(n / 10)
  }

  lemma LowDigitsStep(n: nat)
    ensures n > 0 ==> LowDigits(n) == [ZERO + n % 10] + LowDigits(n / 10)
  {
  }

  lemma LowDigitsEnd()
    ensures LowDigits(0) == []
  {
  }

  lemma {:induction false} LowDigitsAt(n: nat, k: nat)
    requires 0 < n && k < |Dec(n)|
    ensures |LowDigits(n)| == |Dec(n)| && LowDigits(n)[k] == Dec(n)[|Dec(n)| - 1 - k]
  {
    if n >= 10 {
      LowDigitsAt(n / 10, if k > 0 then k - 1 else 0);
    } else {
      assert LowDigits(n / 10) == [];
    }
  }

  lemma {:induction false} LowDigitsLength(n: nat)
    requires 0 < n
    ensures |LowDigits(n)| == |Dec(n)|
  {
    DecReadsBack(n);
    LowDigitsAt(n, 0);
  }

  /** The first loop of the decimal routines: digits come out backwards. */
  method PeelDigits(n: u32, c: array<char8>) returns (i: nat)
    requires 0 < n && c.Length >= 32
    modifies c
    ensures i == |LowDigits(n)| <= 10 && c[..i] == LowDigits(n)
  {
    hide Dec, Tens, LowDigits;
    TensU32(n);
    DecLength(n, 10);
    LowDigitsLength(n);
    LowDigitsEnd();
    var acc: nat := n;
    i := 0;
    while acc > 0
      invariant 0 <= i <= |LowDigits(n)| && c[..i] + LowDigits(acc) == LowDigits(n)
      decreases acc
    {
      ghost var was := c[..i];
      LowDigitsStep(acc);
      c[i] := ZERO + acc % 10;
      assert c[..i + 1] == was + [ZERO + acc % 10];
      assert was + ([ZERO + acc % 10] + LowDigits(acc / 10)) == was + [ZERO + acc % 10] + LowDigits(acc / 10);
      acc := acc / 10;
      i := i + 1;
    }
  }

  /** Both loops: the digits are peeled off and copied round. */
  method DigitsOf(n: u32, out: array<char8>) returns (length: nat)
    requires 0 < n && out.Length >= 32
    modifies out
    ensures length == |Dec(n)| <= 10 && out[..length + 1] == Dec(n) + [0]
  {
    var c := new char8[32];
    length := PeelDigits(n, c);
    ghost var digits := c[..length];
    LowDigitsLength(n);
    out[length] := 0;
    var i, j := length - 1, 0;
    while i >= 0
      invariant -1 <= i && i + 1 + j == length && out[length] == 0
      invariant c[..length] == digits
      invariant forall k :: i < k < length ==> out[k] == digits[length - 1 - k]
    {
      assert c[..length][j] == c[j];
      out[i] := c[j];
      i, j := i - 1, j + 1;
    }
    forall k | 0 <= k < length ensures out[k] == Dec(n)[k] {
      LowDigitsAt(n, length - 1 - k);
    }
  }

  /** u32_to_dec. */
  method U32ToDec(n: u32, out: array<char8>) returns (length: nat)
    requires out.Length >= 32
    modifies out
    ensures length == |DecOfChar(n)| <= 10 && out[..length + 1] == DecOfChar(n) + [0]
  {
    if n == 0 {
      out[0], out[1] := ZERO, 0;
      assert out[..2] == [ZERO, 0];
      return 1;
    }
    var acc := AsChar(n);
    if acc > 0 {
      length := DigitsOf(acc, out);
    } else {
      out[0] := 0;
      length := 0;
    }
  }
}
