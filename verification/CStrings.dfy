/** Zero-terminated strings and the helpers on them (src/io.c). */
module CStrings {
  import opened Words

  /** The buffer holds the string `s`: its characters, then a zero. */
  ghost predicate Terminated(buffer: seq<int>, s: seq<int>) {
    |s| < |buffer| && buffer[..|s|] == s && buffer[|s|] == 0 && 0 !in s
  }

  lemma Characters(buffer: seq<int>, s: seq<int>)
    requires Terminated(buffer, s)
    ensures forall k :: 0 <= k < |s| ==> buffer[k] == s[k] && s[k] != 0
  {
    forall k | 0 <= k < |s| ensures buffer[k] == s[k] && s[k] != 0 {
      assert buffer[..|s|][k] == s[k] && s[k] in s;
    }
  }

  /** A buffer holds at most one string. */
  lemma OneString(buffer: seq<int>, s: seq<int>, t: seq<int>)
    requires Terminated(buffer, s) && Terminated(buffer, t)
    ensures s == t
  {
    Characters(buffer, s);
    Characters(buffer, t);
    assert |s| == |t|;
  }

  method Strlen(src: seq<int>, ghost s: seq<int>) returns (i: nat)
    requires Terminated(src, s)
    ensures i == |s|
  {
    Characters(src, s);
    i := 0;
    while src[i] != 0
      invariant i <= |s|
      decreases |s| - i
    {
      i := i + 1;
    }
  }

  /** strcmp answers 0 exactly for equal strings, and 1 for all others. */
  method Strcmp(str1: seq<int>, str2: seq<int>, ghost s: seq<int>, ghost t: seq<int>) returns (failed: int)
    requires Terminated(str1, s) && Terminated(str2, t)
    ensures failed == 0 <==> s == t
    ensures failed == 0 || failed == 1
  {
    Characters(str1, s);
    Characters(str2, t);
    var i := 0;
    failed := 0;
    while str1[i] != 0 && str2[i] != 0
      invariant i <= |s| && i <= |t| && failed == 0
      invariant forall k :: 0 <= k < i ==> s[k] == t[k]
      decreases |s| - i
    {
      if str1[i] != str2[i] {
        failed := 1;
        break;
      }
      i := i + 1;
    }
    if (str1[i] == 0 && str2[i] != 0) || (str1[i] != 0 && str2[i] == 0) {
      failed := 1;
    }
  }

  /** `n` characters of `src` are copied by strcpy: the first one, whatever it is, and those up to the next zero. */
  ghost predicate Copies(src: seq<int>, n: nat) {
    1 <= n < |src| && src[n] == 0 && forall k :: 1 <= k < n ==> src[k] != 0
  }

  /** strcpy as it is: the zero is looked for only behind the first character, and is not copied. */
  method Strcpy(dest: array<byte>, src: seq<byte>, ghost n: nat)
    requires Copies(src, n) && n <= dest.Length
    modifies dest
    ensures dest[..] == src[..n] + old(dest[n..])
  {
    dest[0] := src[0];
    var i := 1;
    while src[i] != 0
      invariant 1 <= i <= n && forall k :: 0 <= k < i ==> dest[k] == src[k]
      invariant forall k :: i <= k < dest.Length ==> dest[k] == old(dest[k])
      decreases n - i
    {
      dest[i] := src[i];
      i := i + 1;
    }
  }

  /** Of a string that is not empty, strcpy copies exactly the characters. */
  lemma CopiesString(src: seq<int>, s: seq<int>)
    requires Terminated(src, s) && s != []
    ensures Copies(src, |s|) && src[..|s|] == s && forall n: nat :: Copies(src, n) ==> n == |s|
  {
    Characters(src, s);
  }

  /** The copy reads back as the string exactly when that is empty or the destination already had a zero behind it. */
  lemma CopyNeedsZero(dest: seq<int>, src: seq<int>, s: seq<int>, n: nat)
    requires Terminated(src, s) && Copies(src, n) && n < |dest|
    ensures Terminated(src[..n] + dest[n..], s) <==> s == [] || dest[n] == 0
  {
    if s != [] {
      CopiesString(src, s);
      assert (s + dest[n..])[..|s|] == s;
    }
  }
}
