/**
  The formatter sprintk (src/printk.c:21-108): its directives as a recursive
  rendering, and the loop over the format that writes it.
 */
module Printk {
  import opened Words
  import opened Numerals
  import opened CStrings

  const PERCENT: char8 := '%' as int

  /** A variadic argument: a pointer to some bytes, or a 32-bit word. */
  datatype Arg = Str(bytes: text) | Num(n: u32)

  const TRUE: text := [116, 114, 117, 101]
  const FALSE: text := [102, 97, 108, 115, 101]
  const ARROW: text := [45, 62]
  const NUL: text := [78, 85, 76]

  const D_S: char8 := 's' as int
  const D_B: char8 := 'b' as int
  const D_C: char8 := 'c' as int
  const D_D: char8 := 'd' as int
  const D_X: char8 := 'x' as int
  const D_P: char8 := 'p' as int

  /** The directive after a percent sign takes an argument. */
  predicate Takes(d: char8) { d in {D_S, D_B, D_C, D_D, D_X, D_P} }

  /** The argument is of the kind the directive reads; a string has an end. */
  predicate Reads(d: char8, arg: Arg) {
    if d == D_S then arg.Str? && 0 in arg.bytes else arg.Num?
  }

  /** The string that some bytes begin with. */
  function UpToZero(bytes: text): (s: text)
    requires 0 in bytes
    ensures Terminated(bytes, s)
  {
    if bytes[0] == 0 then [] else [bytes[0]] + UpToZero(bytes[1..])
  }

  /** What one directive writes. Characters print as numbers, as %d does. */
  function Directive(d: char8, arg: Arg): text
    requires Takes(d) && Reads(d, arg)
  {
    if d == D_S then UpToZero(arg.bytes)
    else if d == D_B then (if arg.n != 0 then TRUE else FALSE)
    else if d == D_X then Hex(arg.n)
    else if d == D_P then ARROW + (if arg.n != 0 then DecOfChar(arg.n) else NUL)
    else DecOfChar(arg.n)
  }

  /** The format starts with a directive. */
  predicate AtDirective(fmt: text) { |fmt| >= 2 && fmt[0] == PERCENT }

  /** The arguments are as many as the format takes, each of the kind its directive reads. */
  predicate Matches(fmt: text, args: seq<Arg>)
    decreases |fmt|
  {
    if fmt == [] then true
    else if !AtDirective(fmt) then Matches(fmt[1..], args)
    else if Takes(fmt[1]) then args != [] && Reads(fmt[1], args[0]) && Matches(fmt[2..], args[1..])
    else Matches(fmt[2..], args)
  }

  /** The text of a format. A percent sign at the very end stands for itself, as does any unknown directive. */
  function Render(fmt: text, args: seq<Arg>): text
    requires Matches(fmt, args)
    decreases |fmt|
  {
    if fmt == [] then []
    else if !AtDirective(fmt) then [fmt[0]] + Render(fmt[1..], args)
    else if Takes(fmt[1]) then Directive(fmt[1], args[0]) + Render(fmt[2..], args[1..])
    else [fmt[1]] + Render(fmt[2..], args)
  }

  /** `s` with every percent sign doubled. */
  function Doubled(s: text): text {
    if s == [] then [] else (if s[0] == PERCENT then [PERCENT, PERCENT] else [s[0]]) + Doubled(s[1..])
  }

  /** Text with its percent signs doubled comes out as it was, whatever format follows it. */
  lemma {:induction false} DoubledRendersVerbatim(s: text, fmt: text, args: seq<Arg>)
    requires Matches(fmt, args)
    ensures Matches(Doubled(s) + fmt, args) && Render(Doubled(s) + fmt, args) == s + Render(fmt, args)
    decreases |s|
  {
    hide Matches, Render, Doubled;
    DoubledFront(s, fmt);
    if s == [] {
      assert [] + Render(fmt, args) == Render(fmt, args);
    } else {
      DoubledRendersVerbatim(s[1..], fmt, args);
      var rest := Doubled(s[1..]) + fmt;
      if s[0] == PERCENT { PercentFront(rest, args); } else { PlainFront(s[0], rest, args); }
      assert s == [s[0]] + s[1..];
      assert [s[0]] + (s[1..] + Render(fmt, args)) == ([s[0]] + s[1..]) + Render(fmt, args);
    }
  }

  lemma DoubledFront(s: text, fmt: text)
    ensures s == [] ==> Doubled(s) + fmt == fmt
    ensures s != [] ==> Doubled(s) + fmt == (if s[0] == PERCENT then [PERCENT, PERCENT] else [s[0]]) + (Doubled(s[1..]) + fmt)
  {
  }

  lemma PercentFront(rest: text, args: seq<Arg>)
    requires Matches(rest, args)
    ensures Matches([PERCENT, PERCENT] + rest, args)
    ensures Render([PERCENT, PERCENT] + rest, args) == [PERCENT] + Render(rest, args)
  {
    assert ([PERCENT, PERCENT] + rest)[2..] == rest;
  }

  lemma PlainFront(c: char8, rest: text, args: seq<Arg>)
    requires Matches(rest, args) && c != PERCENT
    ensures Matches([c] + rest, args) && Render([c] + rest, args) == [c] + Render(rest, args)
  {
    assert ([c] + rest)[1..] == rest;
  }

  /** Formatting a string with doubled percent signs gives the string back. */
  lemma DoubledRoundTrip(s: text)
    ensures Matches(Doubled(s), []) && Render(Doubled(s), []) == s
  {
    DoubledRendersVerbatim(s, [], []);
    assert Doubled(s) + [] == Doubled(s);
  }

  /** %x always reads back; %d reads back exactly when the number is below 128. */
  lemma NumbersReadBack(n: u32)
    ensures var x := Directive(D_X, Num(n)); x[..2] == [ZERO, LOWER_X] && ParseHex(x[2..]) == n
    ensures Directive(D_D, Num(n)) == Dec(n) <==> n < 128
    ensures n < 128 ==> ParseDec(Directive(D_D, Num(n))) == n
  {
    HexReadsBack(n);
    assert Hex(n)[2..] == HexDigits(n);
    DecReadsBack(n);
    DecOfCharRight(n);
  }

  /** The codes of a string's characters. */
  function Codes(s: string): seq<int> { seq(|s|, i requires 0 <= i < |s| => s[i] as int) }

  /** %b tells the truth: what stands there is "true" exactly for numbers that are not 0, and "false" for 0. */
  lemma TruthReadsBack(n: u32)
    ensures Directive(D_B, Num(n)) == Codes("true") <==> n != 0
    ensures Directive(D_B, Num(n)) == Codes("false") <==> n == 0
  {
    assert TRUE == Codes("true") && FALSE == Codes("false") && |TRUE| != |FALSE|;
  }

  /** %p: behind an arrow, "NUL" exactly for 0; other numbers as %d writes them, so that they read back below 128. */
  lemma PointerReadsBack(n: u32)
    ensures var s := Directive(D_P, Num(n));
            && |s| >= 2 && s[..2] == Codes("->")
            && (s[2..] == Codes("NUL") <==> n == 0)
            && (n != 0 ==> s[2..] == Directive(D_D, Num(n)))
            && (0 < n < 128 ==> ParseDec(s[2..]) == n)
  {
    hide Dec, ParseDec, DecOfChar;
    assert ARROW == Codes("->") && NUL == Codes("NUL");
    assert (ARROW + NUL)[2..] == NUL && (ARROW + DecOfChar(n))[2..] == DecOfChar(n);
    DecOfCharDigits(n);
    assert NUL[0] > ZERO + 9;
    if DecOfChar(n) != [] { assert DecOfChar(n)[0] != NUL[0]; }
    NumbersReadBack(n);
  }

  lemma DecOfCharDigits(n: u32)
    ensures forall i :: 0 <= i < |DecOfChar(n)| ==> ZERO <= DecOfChar(n)[i] <= ZERO + 9
  {
    hide Dec, ParseDec;
    if AsChar(n) > 0 { DecReadsBack(AsChar(n)); }
  }

  /** %c writes what %d does, and %s the string that its argument points to. */
  lemma CharactersAndStrings(n: u32, bytes: text)
    ensures Directive(D_C, Num(n)) == Directive(D_D, Num(n))
    ensures 0 in bytes ==> Terminated(bytes, Directive(D_S, Str(bytes)))
  {
  }

  /** A directive takes the next argument, and writes in front of what the rest of the format does. */
  lemma DirectiveFront(d: char8, arg: Arg, rest: text, args: seq<Arg>)
    requires Takes(d) && Reads(d, arg) && Matches(rest, args)
    ensures Matches([PERCENT, d] + rest, [arg] + args)
    ensures Render([PERCENT, d] + rest, [arg] + args) == Directive(d, arg) + Render(rest, args)
  {
    hide Directive;
    assert ([PERCENT, d] + rest)[2..] == rest && ([arg] + args)[1..] == args;
  }

  /** A directive there is not stands for its own letter, and a percent sign at the very end for itself. */
  lemma NoDirective(d: char8, rest: text, args: seq<Arg>)
    requires !Takes(d) && Matches(rest, args)
    ensures Matches([PERCENT, d] + rest, args) && Render([PERCENT, d] + rest, args) == [d] + Render(rest, args)
    ensures Matches([PERCENT], args) && Render([PERCENT], args) == [PERCENT]
  {
    assert ([PERCENT, d] + rest)[2..] == rest;
    assert [PERCENT][1..] == [] && [PERCENT] + Render([], args) == [PERCENT];
  }

  // ----- The loop

  /** `s` has been written from `at` on, and nothing else. */
  ghost predicate Appended(was: text, now: text, at: nat, s: text) {
    at + |s| <= |was| && now == was[..at] + s + was[at + |s|..]
  }

  lemma AppendedNothing(was: text, at: nat)
    requires at <= |was|
    ensures Appended(was, was, at, [])
  {
  }

  lemma AppendedTwice(was: text, mid: text, now: text, at: nat, s: text, t: text)
    requires Appended(was, mid, at, s) && Appended(mid, now, at + |s|, t)
    ensures Appended(was, now, at, s + t)
  {
    assert mid[..at + |s|] == was[..at] + s;
    assert mid[at + |s| + |t|..] == was[at + |s| + |t|..];
    assert was[..at] + s + t == was[..at] + (s + t);
  }

  method AppendChar(out: array<char8>, at: nat, c: char8)
    requires at < out.Length
    modifies out
    ensures Appended(old(out[..]), out[..], at, [c])
  {
    out[at] := c;
  }

  /** The loops that append one character after another. */
  method Append(out: array<char8>, at: nat, s: text) returns (next: nat)
    requires at + |s| <= out.Length
    modifies out
    ensures next == at + |s| && Appended(old(out[..]), out[..], at, s)
  {
    hide Appended;
    ghost var was := out[..];
    AppendedNothing(was, at);
    next := at;
    var x := 0;
    while x < |s|
      invariant x <= |s| && next == at + x && Appended(was, out[..], at, s[..x])
    {
      ghost var mid := out[..];
      AppendChar(out, next, s[x]);
      AppendedTwice(was, mid, out[..], at, s[..x], [s[x]]);
      assert s[..x + 1] == s[..x] + [s[x]];
      next, x := next + 1, x + 1;
    }
    assert s[..x] == s;
  }

  /** The loop of %s. */
  method AppendString(out: array<char8>, at: nat, bytes: text) returns (next: nat)
    requires 0 in bytes && at + |UpToZero(bytes)| <= out.Length
    modifies out
    ensures next == at + |UpToZero(bytes)| && Appended(old(out[..]), out[..], at, UpToZero(bytes))
  {
    hide Appended, UpToZero, Terminated;
    ghost var was, s := out[..], UpToZero(bytes);
    AppendedNothing(was, at);
    Characters(bytes, s);
    Ends(bytes, s);
    next := at;
    var x := 0;
    while bytes[x] != 0
      invariant x <= |s| && next == at + x && Appended(was, out[..], at, s[..x])
      decreases |s| - x
    {
      ghost var mid := out[..];
      AppendChar(out, next, bytes[x]);
      AppendedTwice(was, mid, out[..], at, s[..x], [s[x]]);
      assert s[..x + 1] == s[..x] + [s[x]];
      next, x := next + 1, x + 1;
    }
    assert s[..x] == s;
  }

  /** Appending the number texts by way of the routines' own buffer. */
  method AppendNumber(out: array<char8>, at: nat, n: u32, hex: bool) returns (next: nat)
    requires at + |if hex then Hex(n) else DecOfChar(n)| <= out.Length
    modifies out
    ensures var s := if hex then Hex(n) else DecOfChar(n); next == at + |s| && Appended(old(out[..]), out[..], at, s)
  {
    hide Appended;
    var t := new char8[32];
    var length;
    if hex { length := U32ToHex(n, t); } else { length := U32ToDec(n, t); }
    ghost var s := if hex then Hex(n) else DecOfChar(n);
    assert t[..length] == t[..length + 1][..length] == s;
    next := Append(out, at, t[..length]);
  }

  /** %p: an arrow, then the number, or NUL. */
  method AppendPointer(out: array<char8>, at: nat, n: u32) returns (next: nat)
    requires at + |ARROW + (if n != 0 then DecOfChar(n) else NUL)| <= out.Length
    modifies out
    ensures var s := ARROW + (if n != 0 then DecOfChar(n) else NUL); next == at + |s| && Appended(old(out[..]), out[..], at, s)
  {
    hide Dec, DecOfChar, Appended;
    ghost var was := out[..];
    next := Append(out, at, ARROW);
    ghost var mid := out[..];
    if n != 0 {
      next := AppendNumber(out, next, n, false);
      AppendedTwice(was, mid, out[..], at, ARROW, DecOfChar(n));
    } else {
      next := Append(out, next, NUL);
      AppendedTwice(was, mid, out[..], at, ARROW, NUL);
    }
  }

  method AppendDirective(out: array<char8>, at: nat, d: char8, arg: Arg) returns (next: nat)
    requires Takes(d) && Reads(d, arg) && at + |Directive(d, arg)| <= out.Length
    modifies out
    ensures next == at + |Directive(d, arg)| && Appended(old(out[..]), out[..], at, Directive(d, arg))
  {
    hide Dec, Hex, DecOfChar, Appended;
    if d == D_S {
      next := AppendString(out, at, arg.bytes);
    } else if d == D_B {
      next := Append(out, at, if arg.n != 0 then TRUE else FALSE);
    } else if d == D_X {
      next := AppendNumber(out, at, arg.n, true);
    } else if d == D_P {
      next := AppendPointer(out, at, arg.n);
    } else {
      next := AppendNumber(out, at, arg.n, false);
    }
  }

  /** How far the format is read, from `i` on: the loop stops once its index is past `outLength`. */
  function ReadUpTo(fmt: text, i: nat, outLength: nat): (n: nat)
    requires i <= |fmt|
    ensures i <= n <= |fmt|
    decreases |fmt| - i
  {
    if i == |fmt| || i > outLength then i
    else if fmt[i] == PERCENT && i + 1 < |fmt| then ReadUpTo(fmt, i + 2, outLength)
    else ReadUpTo(fmt, i + 1, outLength)
  }

  /** A format is read to its end if it has no more than outLength + 1 characters, and never further than one more. */
  lemma {:induction false} CutShort(fmt: text, i: nat, outLength: nat)
    requires i <= |fmt| && i <= outLength + 2
    ensures var n := ReadUpTo(fmt, i, outLength);
            && n <= outLength + 2 && (n < |fmt| ==> outLength < n)
            && (|fmt| <= outLength + 1 ==> n == |fmt|)
            && (n == |fmt| ==> |fmt| <= outLength + 2)
            && (i <= outLength && n == outLength + 2 ==> fmt[outLength] == PERCENT)
    decreases |fmt| - i
  {
    if i == |fmt| || i > outLength {
    } else if fmt[i] == PERCENT && i + 1 < |fmt| {
      CutShort(fmt, i + 2, outLength);
    } else {
      CutShort(fmt, i + 1, outLength);
    }
  }

  /** One round: what is read up to `n` is one character, or one directive, and then the rest up to `n`. */
  lemma ReadNext(fmt: text, i: nat, n: nat, outLength: nat, args: seq<Arg>)
    requires i < |fmt| && i <= outLength && n == ReadUpTo(fmt, i, outLength) && Matches(fmt[i..n], args)
    ensures if fmt[i] == PERCENT && i + 1 < |fmt| then
        && i + 2 <= n == ReadUpTo(fmt, i + 2, outLength)
        && if Takes(fmt[i + 1]) then
          && args != [] && Reads(fmt[i + 1], args[0]) && Matches(fmt[i + 2..n], args[1..])
          && Render(fmt[i..n], args) == Directive(fmt[i + 1], args[0]) + Render(fmt[i + 2..n], args[1..])
        else
          && Matches(fmt[i + 2..n], args)
          && Render(fmt[i..n], args) == [fmt[i + 1]] + Render(fmt[i + 2..n], args)
      else
        && i + 1 <= n == ReadUpTo(fmt, i + 1, outLength) && Matches(fmt[i + 1..n], args)
        && Render(fmt[i..n], args) == [fmt[i]] + Render(fmt[i + 1..n], args)
  {
    hide Directive;
    var tail := fmt[i..n];
    if fmt[i] == PERCENT && i + 1 < |fmt| {
      assert tail[1] == fmt[i + 1] && tail[2..] == fmt[i + 2..n];
    } else {
      assert tail[0] == fmt[i] && tail[1..] == fmt[i + 1..n];
    }
  }

  /** One round of the loop of sprintk: a character, or a directive and its argument, is read and `piece` is written. */
  method WriteNext(out: array<char8>, at: nat, fmt: seq<char8>, i: nat, rest: seq<Arg>, ghost s: text, ghost n: nat, ghost outLength: nat)
    returns (at': nat, i': nat, rest': seq<Arg>, ghost piece: text)
    requires |s| < |fmt| && fmt[|s|] == 0 && (forall k :: 0 <= k < |s| ==> fmt[k] == s[k] && s[k] != 0)
    requires i < |s| && i <= outLength && n == ReadUpTo(s, i, outLength) && Matches(s[i..n], rest)
    requires at + |Render(s[i..n], rest)| <= out.Length
    modifies out
    ensures i < i' <= n == ReadUpTo(s, i', outLength) && Matches(s[i'..n], rest')
    ensures Render(s[i..n], rest) == piece + Render(s[i'..n], rest')
    ensures at' == at + |piece| && Appended(old(out[..]), out[..], at, piece)
  {
    hide Render, Matches, Directive, ReadUpTo, Appended, Takes, Reads;
    ReadNext(s, i, n, outLength, rest);
    rest' := rest;
    if fmt[i] == PERCENT && fmt[i + 1] != 0 {
      i' := i + 2;
      if Takes(fmt[i + 1]) {
        piece := Directive(fmt[i + 1], rest[0]);
        at' := AppendDirective(out, at, fmt[i + 1], rest[0]);
        rest' := rest[1..];
      } else {
        piece := [fmt[i + 1]];
        at' := Append(out, at, [fmt[i + 1]]);
      }
    } else {
      i', piece := i + 1, [fmt[i]];
      at' := Append(out, at, [fmt[i]]);
    }
  }

  /**
    sprintk, with room for the text and its terminator. The text is that of the format as
    far as the loop reads it; nothing behind the terminator is touched.
   */
  method Sprintk(out: array<char8>, outLength: nat, fmt: seq<char8>, args: seq<Arg>, ghost s: text)
    requires Terminated(fmt, s) && Matches(s[..ReadUpTo(s, 0, outLength)], args)
    requires |Render(s[..ReadUpTo(s, 0, outLength)], args)| < out.Length
    modifies out
    ensures var text := Render(s[..ReadUpTo(s, 0, outLength)], args);
            out[..] == text + [0] + old(out[..])[|text| + 1..]
  {
    hide Render, Matches, Directive, ReadUpTo, Terminated, Appended, Takes, Reads;
    Characters(fmt, s);
    Ends(fmt, s);
    var outIdx: nat, i: nat, rest := 0, 0, args;
    ghost var was, n, written: text := out[..], ReadUpTo(s, 0, outLength), [];
    ghost var whole := Render(s[..n], args);
    assert s[..n] == s[0..n] && [] + whole == whole;
    AppendedNothing(was, 0);
    while i < |fmt| && fmt[i] != 0 && i <= outLength
      invariant 0 <= i <= n <= |s| && n == ReadUpTo(s, i, outLength) && Matches(s[i..n], rest)
      invariant outIdx == |written| && whole == written + Render(s[i..n], rest) && Appended(was, out[..], 0, written)
      decreases |s| - i
    {
      ghost var mid, piece := out[..], [];
      outIdx, i, rest, piece := WriteNext(out, outIdx, fmt, i, rest, s, n, outLength);
      Joined(written, piece, Render(s[i..n], rest));
      AppendedTwice(was, mid, out[..], 0, written, piece);
      written := written + piece;
    }
    ReadDone(s, i, n, outLength, rest);
    ghost var mid := out[..];
    AppendChar(out, outIdx, 0);
    AppendedTwice(was, mid, out[..], 0, written, [0]);
    AppendedAll(was, out[..], written + [0]);
    assert written == whole;
  }

  lemma Joined(a: text, b: text, c: text)
    ensures a + (b + c) == a + b + c
  {
  }

  lemma AppendedAll(was: text, now: text, s: text)
    requires Appended(was, now, 0, s)
    ensures |s| <= |was| && now == s + was[|s|..]
  {
  }

  lemma Ends(fmt: text, s: text)
    requires Terminated(fmt, s)
    ensures |s| < |fmt| && fmt[|s|] == 0
  {
  }

  lemma ReadDone(fmt: text, i: nat, n: nat, outLength: nat, args: seq<Arg>)
    requires i <= |fmt| && (i == |fmt| || i > outLength) && n == ReadUpTo(fmt, i, outLength)
    ensures n == i && Matches(fmt[i..n], args) && Render(fmt[i..n], args) == []
  {
  }
}
