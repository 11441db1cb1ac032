/**
  The ramdisk image and its packer (make_initrd.c): a count, 64 header slots of 76
  bytes, and the file contents one after another.
 */
module Initrd {
  import opened Words
  import opened CStrings

  const SLOTS: nat := 64
  const SLOT_BYTES: nat := 76
  const NAME_AT: nat := 1
  const OFFSET_AT: nat := 68
  const LENGTH_AT: nat := 72
  const DATA_AT: nat := 4868
  const MAGIC: byte := 0xBF

  datatype File = File(name: seq<byte>, content: seq<byte>)

  // ----- The layout

  /** Where file `i` starts, from the start of the image. */
  function Offset(files: seq<File>, i: nat): (o: nat)
    requires i <= |files|
    ensures DATA_AT <= o
  {
    if i == 0 then DATA_AT else Offset(files, i - 1) + |files[i - 1].content|
  }

  /** Where header `i` starts, from the start of the image. */
  function Slot(i: nat): nat { 4 + SLOT_BYTES * i }

  /** What the packer can take: at most 64 files, names that fit, an image below 4 GiB. */
  ghost predicate Fitting(files: seq<File>) {
    && |files| <= SLOTS && Offset(files, |files|) < TWO_TO_THE_32
    && forall i :: 0 <= i < |files| ==> |files[i].name| < 64 && 0 !in files[i].name
  }

  /** The header slot at `h` describes `f`, found at `offset`. */
  ghost predicate HeaderAt(m: seq<byte>, h: nat, f: File, offset: nat) {
    && h + SLOT_BYTES <= |m| && m[h] == MAGIC
    && Terminated(m[h + NAME_AT..h + NAME_AT + 64], f.name)
    && Get32(m, h + OFFSET_AT) == offset && Get32(m, h + LENGTH_AT) == |f.content|
  }

  ghost predicate ContentAt(m: seq<byte>, at: nat, content: seq<byte>) {
    at + |content| <= |m| && m[at..at + |content|] == content
  }

  /** Where the header of file `i` says the file is, once the first `k` offsets are absolute. */
  function Placed(files: seq<File>, base: nat, k: nat, i: nat): nat
    requires i <= |files|
  {
    (if i < k then base else 0) + Offset(files, i)
  }

  /** The header table behind `base` describes the files; the offsets in its first `k` headers are absolute. */
  ghost predicate Headers(m: seq<byte>, base: nat, files: seq<File>, k: nat) {
    forall i :: 0 <= i < |files| ==> HeaderAt(m, base + Slot(i), files[i], Placed(files, base, k, i))
  }

  /** The first `n` files have their contents where they belong. */
  ghost predicate Contents(m: seq<byte>, base: nat, files: seq<File>, n: nat)
    requires n <= |files|
  {
    forall i :: 0 <= i < n ==> ContentAt(m, base + Offset(files, i), files[i].content)
  }

  /** Memory holds the image of `files` at `base`; the offsets in its first `k` headers are absolute. */
  ghost predicate ImageAt(m: seq<byte>, base: nat, files: seq<File>, k: nat) {
    && base + DATA_AT <= |m| && Get32(m, base) == |files|
    && Headers(m, base, files, k) && Contents(m, base, files, |files|)
  }

  /** File extents follow one another: no two overlap, and the last ends the image. */
  lemma {:induction false} ExtentsTile(files: seq<File>, i: nat, j: nat)
    requires i < j <= |files|
    ensures Offset(files, i) + |files[i].content| <= Offset(files, j)
    ensures j == i + 1 ==> Offset(files, i) + |files[i].content| == Offset(files, j)
    decreases j
  {
    if i + 1 < j { ExtentsTile(files, i, j - 1); }
  }

  /** An image determines its files: there is only one way to read it. */
  lemma ImageDeterminesFiles(m: seq<byte>, base: nat, files: seq<File>, others: seq<File>)
    requires ImageAt(m, base, files, 0) && ImageAt(m, base, others, 0)
    ensures files == others
  {
    hide HeaderAt, ContentAt, Offset;
    forall i | 0 <= i < |files| ensures files[i] == others[i] {
      HeaderDetermines(m, base + Slot(i), files[i], others[i], Offset(files, i), Offset(others, i));
      assert ContentAt(m, base + Offset(files, i), files[i].content);
      assert ContentAt(m, base + Offset(others, i), others[i].content);
      ContentDetermines(m, base + Offset(files, i), files[i].content, others[i].content);
    }
  }

  lemma HeaderDetermines(m: seq<byte>, h: nat, f: File, g: File, offset: nat, offset': nat)
    requires HeaderAt(m, h, f, offset) && HeaderAt(m, h, g, offset')
    ensures f.name == g.name && |f.content| == |g.content| && offset == offset'
  {
    OneString(m[h + NAME_AT..h + NAME_AT + 64], f.name, g.name);
  }

  lemma ContentDetermines(m: seq<byte>, at: nat, content: seq<byte>, other: seq<byte>)
    requires ContentAt(m, at, content) && ContentAt(m, at, other) && |content| == |other|
    ensures content == other
  {
  }

  // ----- Where strcpy stops

  /** strcpy stops inside the field: a zero stands somewhere behind its first byte. */
  ghost predicate Stops(field: seq<byte>) {
    exists n: nat :: n < 64 && Copies(field, n)
  }

  ghost predicate NameStops(m: seq<byte>, h: nat) {
    h + SLOT_BYTES <= |m| && Stops(m[h + NAME_AT..h + NAME_AT + 64])
  }

  /**
    In the header table at `table`, strcpy stops inside the name's field where a name is
    empty. (Inside the field of any other name it stops anyway, at the terminator.)
   */
  ghost predicate EmptyNamesStop(m: seq<byte>, table: nat, files: seq<File>) {
    forall i :: 0 <= i < |files| && files[i].name == [] ==> NameStops(m, table + SLOT_BYTES * i)
  }

  /** What is in front of a name's second byte does not matter. */
  lemma NameStopsMoves(m: seq<byte>, h: nat, m': seq<byte>, h': nat)
    requires NameStops(m, h) && h' + SLOT_BYTES <= |m'|
    requires m'[h' + NAME_AT + 1..h' + NAME_AT + 64] == m[h + NAME_AT + 1..h + NAME_AT + 64]
    ensures NameStops(m', h')
  {
    var field, field' := m[h + NAME_AT..h + NAME_AT + 64], m'[h' + NAME_AT..h' + NAME_AT + 64];
    assert field[1..] == m[h + NAME_AT + 1..h + NAME_AT + 64];
    assert field'[1..] == m'[h' + NAME_AT + 1..h' + NAME_AT + 64];
    StopsBehindFirst(field, field');
  }

  lemma StopsBehindFirst(field: seq<byte>, field': seq<byte>)
    requires |field| == |field'| > 0 && field[1..] == field'[1..] && Stops(field)
    ensures Stops(field')
  {
    var n: nat :| n < 64 && Copies(field, n);
    forall k | 1 <= k < |field| ensures field'[k] == field[k] {
      assert field'[1..][k - 1] == field[1..][k - 1];
    }
    assert Copies(field', n);
  }

  lemma StopsMove(m: seq<byte>, table: nat, m': seq<byte>, table': nat, files: seq<File>)
    requires EmptyNamesStop(m, table, files) && |files| <= SLOTS
    requires table + SLOTS * SLOT_BYTES <= |m| && table' + SLOTS * SLOT_BYTES <= |m'|
    requires m'[table'..table' + SLOTS * SLOT_BYTES] == m[table..table + SLOTS * SLOT_BYTES]
    ensures EmptyNamesStop(m', table', files)
  {
    hide NameStops;
    forall i | 0 <= i < |files| && files[i].name == [] ensures NameStops(m', table' + SLOT_BYTES * i) {
      var h := SLOT_BYTES * i;
      SubSlice(m, table, SLOTS * SLOT_BYTES, h + NAME_AT + 1, h + NAME_AT + 64);
      SubSlice(m', table', SLOTS * SLOT_BYTES, h + NAME_AT + 1, h + NAME_AT + 64);
      NameStopsMoves(m, table + h, m', table' + h);
    }
  }

  /** Filling one slot of the table leaves them so: behind an empty name the slot keeps its bytes. */
  lemma StopsFilled(m: seq<byte>, m': seq<byte>, files: seq<File>, i: nat)
    requires EmptyNamesStop(m, 0, files) && i < |files| <= SLOTS && |m| == SLOTS * SLOT_BYTES
    requires SameOutside(m, m', SLOT_BYTES * i, SLOT_BYTES * i + SLOT_BYTES)
    requires SameIn(m, m', SLOT_BYTES * i + NAME_AT + |files[i].name| + 1, SLOT_BYTES * i + NAME_AT + 64)
    ensures EmptyNamesStop(m', 0, files)
  {
    hide NameStops;
    forall j | 0 <= j < |files| && files[j].name == [] ensures NameStops(m', 0 + SLOT_BYTES * j) {
      assert NameStops(m, 0 + SLOT_BYTES * j);
      var h := SLOT_BYTES * j;
      assert m'[h + NAME_AT + 1..h + NAME_AT + 64] == m[h + NAME_AT + 1..h + NAME_AT + 64];
      NameStopsMoves(m, h, m', h);
    }
  }

  // ----- The packer

  /** The host's strcpy, which does write the terminator. */
  method PutName(m: array<byte>, at: nat, name: seq<byte>)
    requires at + 64 <= m.Length && |name| < 64 && 0 !in name
    modifies m
    ensures Terminated(m[at..at + 64], name) && SameOutside(old(m[..]), m[..], at, at + |name| + 1)
  {
    var i := 0;
    while i < |name|
      invariant 0 <= i <= |name| && forall k :: 0 <= k < i ==> m[at + k] == name[k]
      invariant forall k :: 0 <= k < m.Length && !(at <= k < at + i) ==> m[k] == old(m[k])
    {
      m[at + i] := name[i];
      i := i + 1;
    }
    m[at + i] := 0;
    assert m[at..at + 64][..|name|] == name;
  }

  /** One round of the first loop of main. */
  method FillHeader(headers: array<byte>, h: nat, f: File, offset: u32)
    requires h + SLOT_BYTES <= headers.Length && |f.name| < 64 && 0 !in f.name && |f.content| < TWO_TO_THE_32
    modifies headers
    ensures HeaderAt(headers[..], h, f, offset) && SameOutside(old(headers[..]), headers[..], h, h + SLOT_BYTES)
    ensures SameIn(old(headers[..]), headers[..], h + NAME_AT + |f.name| + 1, h + NAME_AT + 64)
  {
    PutName(headers, h + NAME_AT, f.name);
    ghost var m := headers[..];
    assert m[h + NAME_AT..h + NAME_AT + 64] == headers[h + NAME_AT..h + NAME_AT + 64];
    StoreWord(headers, h + OFFSET_AT, offset);
    GetPut(m, h + OFFSET_AT, offset);
    ghost var m1 := headers[..];
    StoreWord(headers, h + LENGTH_AT, |f.content|);
    GetPut(m1, h + LENGTH_AT, |f.content|);
    headers[h] := MAGIC;
    assert headers[..][h + NAME_AT..h + NAME_AT + 64] == m[h + NAME_AT..h + NAME_AT + 64];
  }

  /** Where the bytes agree, so do the headers. */
  lemma HeaderMoves(m: seq<byte>, h: nat, m': seq<byte>, h': nat, f: File, offset: nat)
    requires HeaderAt(m, h, f, offset) && h' + SLOT_BYTES <= |m'|
    requires m'[h'..h' + SLOT_BYTES] == m[h..h + SLOT_BYTES]
    ensures HeaderAt(m', h', f, offset)
  {
    var s, s' := m[h..h + SLOT_BYTES], m'[h'..h' + SLOT_BYTES];
    hide Terminated, Get32;
    SubSlice(m, h, SLOT_BYTES, NAME_AT, NAME_AT + 64);
    SubSlice(m', h', SLOT_BYTES, NAME_AT, NAME_AT + 64);
    SameWord(m, h, s, OFFSET_AT);
    SameWord(m', h', s', OFFSET_AT);
    SameWord(m, h, s, LENGTH_AT);
    SameWord(m', h', s', LENGTH_AT);
    assert m[h] == s[0] && m'[h'] == s'[0];
  }

  lemma SubSlice(m: seq<byte>, h: nat, n: nat, a: nat, b: nat)
    requires h + n <= |m| && a <= b <= n
    ensures m[h..h + n][a..b] == m[h + a..h + b]
  {
    var s := m[h..h + n];
    var t, u := s[a..b], m[h + a..h + b];
    forall k | 0 <= k < |t| ensures t[k] == u[k] {
      var i := a + k;
      assert t[k] == s[i] && s[i] == m[h + i];
    }
  }

  lemma SameWord(m: seq<byte>, h: nat, s: seq<byte>, k: nat)
    requires h + |s| <= |m| && s == m[h..h + |s|] && k + 4 <= |s|
    ensures Get32(m, h + k) == Get32(s, k)
  {
    var a := h + k;
    assert s[k] == m[a] && s[k + 1] == m[a + 1] && s[k + 2] == m[a + 2] && s[k + 3] == m[a + 3];
  }

  /** The first `i` slots of the header table describe the first `i` files. */
  ghost predicate TableFilled(table: seq<byte>, files: seq<File>, i: nat)
    requires i <= |files|
  {
    forall k :: 0 <= k < i ==> HeaderAt(table, SLOT_BYTES * k, files[k], Offset(files, k))
  }

  lemma TableEmpty(table: seq<byte>, files: seq<File>)
    ensures TableFilled(table, files, 0)
  {
  }

  lemma TableGrows(m: seq<byte>, m': seq<byte>, files: seq<File>, i: nat)
    requires i < |files| && TableFilled(m, files, i)
    requires HeaderAt(m', SLOT_BYTES * i, files[i], Offset(files, i))
    requires SameOutside(m, m', SLOT_BYTES * i, SLOT_BYTES * i + SLOT_BYTES)
    ensures TableFilled(m', files, i + 1)
  {
    hide HeaderAt, SameOutside, Offset;
    forall k | 0 <= k < i + 1 ensures HeaderAt(m', SLOT_BYTES * k, files[k], Offset(files, k)) {
      if k < i { SlotUntouched(m, m', k, i, files[k], Offset(files, k)); }
    }
  }

  /** The first loop of main: one header a file, each file behind the one before. */
  method FillTable(files: seq<File>, headers: array<byte>)
    requires Fitting(files) && headers.Length == SLOTS * SLOT_BYTES
    modifies headers
    ensures TableFilled(headers[..], files, |files|)
    ensures EmptyNamesStop(old(headers[..]), 0, files) ==> EmptyNamesStop(headers[..], 0, files)
  {
    hide TableFilled, HeaderAt, SameOutside, SameIn, Fitting, EmptyNamesStop;
    TableEmpty(headers[..], files);
    var off: nat := SLOT_BYTES * SLOTS + 4;
    var i := 0;
    while i < |files|
      invariant i <= |files| && off == Offset(files, i)
      invariant TableFilled(headers[..], files, i)
      invariant EmptyNamesStop(old(headers[..]), 0, files) ==> EmptyNamesStop(headers[..], 0, files)
    {
      FileFits(files, i);
      ghost var m := headers[..];
      FillHeader(headers, SLOT_BYTES * i, files[i], off);
      TableGrows(m, headers[..], files, i);
      if EmptyNamesStop(m, 0, files) { StopsFilled(m, headers[..], files, i); }
      off := off + |files[i].content|;
      i := i + 1;
    }
  }

  /** main: the header table, then the image: count, table, contents. The table starts uninitialised. */
  method Pack(files: seq<File>, headers: array<byte>) returns (image: seq<byte>)
    requires Fitting(files) && headers.Length == SLOTS * SLOT_BYTES
    modifies headers
    ensures ImageAt(image, 0, files, 0) && |image| == Offset(files, |files|)
    ensures EmptyNamesStop(old(headers[..]), 0, files) ==> EmptyNamesStop(image, 4, files)
  {
    hide Fitting, TableFilled, Contents, TableAt, Headers, Get32, Offset, Slot, EmptyNamesStop;
    FillTable(files, headers);
    FewFiles(files);
    image := WordBytes(|files|) + headers[..];
    TableInImage(image, headers[..], files);
    if EmptyNamesStop(headers[..], 0, files) { StopsMove(headers[..], 0, image, 4, files); }
    NoContentsYet(image, files);
    var i := 0;
    while i < |files|
      invariant i <= |files| && |image| == Offset(files, i) && TableAt(image, files) && Contents(image, 0, files, i)
      invariant EmptyNamesStop(old(headers[..]), 0, files) ==> EmptyNamesStop(image, 4, files)
    {
      ghost var was := image;
      image := image + files[i].content;
      if EmptyNamesStop(was, 4, files) { StopsMove(was, 4, image, 4, files); }
      HeadersStay(was, image, files);
      ContentsGrow(was, image, files, i);
      i := i + 1;
    }
    ImageDone(image, files);
  }

  lemma FewFiles(files: seq<File>)
    requires Fitting(files)
    ensures |files| <= SLOTS && Offset(files, 0) == DATA_AT == 4 + SLOTS * SLOT_BYTES
    ensures forall i :: 0 <= i < |files| ==> Offset(files, i + 1) == Offset(files, i) + |files[i].content|
  {
  }

  lemma NoContentsYet(image: seq<byte>, files: seq<File>)
    ensures Contents(image, 0, files, 0)
  {
  }

  lemma ImageDone(image: seq<byte>, files: seq<File>)
    requires TableAt(image, files) && Contents(image, 0, files, |files|)
    ensures ImageAt(image, 0, files, 0)
  {
  }

  function WordBytes(v: u32): (s: seq<byte>)
    ensures |s| == 4
  {
    [ByteOf(v, 0), ByteOf(v, 1), ByteOf(v, 2), ByteOf(v, 3)]
  }

  lemma FileFits(files: seq<File>, i: nat)
    requires Fitting(files) && i < |files|
    ensures |files| <= SLOTS && Offset(files, i) + |files[i].content| < TWO_TO_THE_32
    ensures |files[i].name| < 64 && 0 !in files[i].name
  {
    ExtentsTile(files, i, |files|);
  }

  lemma SlotUntouched(m: seq<byte>, m': seq<byte>, k: nat, i: nat, f: File, offset: nat)
    requires HeaderAt(m, SLOT_BYTES * k, f, offset) && k < i
    requires SameOutside(m, m', SLOT_BYTES * i, SLOT_BYTES * i + SLOT_BYTES)
    ensures HeaderAt(m', SLOT_BYTES * k, f, offset)
  {
    HeaderMoves(m, SLOT_BYTES * k, m', SLOT_BYTES * k, f, offset);
  }

  lemma TableInImage(image: seq<byte>, table: seq<byte>, files: seq<File>)
    requires |files| <= SLOTS && |table| == SLOTS * SLOT_BYTES && image == WordBytes(|files|) + table
    requires TableFilled(table, files, |files|)
    ensures TableAt(image, files)
  {
    hide HeaderAt;
    BytesMakeWord(|files|);
    forall k | 0 <= k < |files| ensures HeaderAt(image, Slot(k), files[k], Offset(files, k)) {
      var h := SLOT_BYTES * k;
      assert image[4 + h..4 + h + SLOT_BYTES] == table[h..h + SLOT_BYTES];
      HeaderMoves(table, h, image, Slot(k), files[k], Offset(files, k));
    }
  }

  /** The count and the header table of `files` are at the start of the image. */
  ghost predicate TableAt(image: seq<byte>, files: seq<File>) {
    && DATA_AT <= |image| && |files| <= SLOTS && Get32(image, 0) == |files| && Headers(image, 0, files, 0)
  }

  lemma HeadersStay(was: seq<byte>, image: seq<byte>, files: seq<File>)
    requires TableAt(was, files) && was <= image
    ensures TableAt(image, files)
  {
    hide HeaderAt;
    forall k | 0 <= k < |files| ensures HeaderAt(image, Slot(k), files[k], Offset(files, k)) {
      var h := Slot(k);
      assert image[h..h + SLOT_BYTES] == was[h..h + SLOT_BYTES];
      HeaderMoves(was, h, image, h, files[k], Offset(files, k));
    }
  }

  lemma ContentsGrow(was: seq<byte>, image: seq<byte>, files: seq<File>, i: nat)
    requires i < |files| && |was| == Offset(files, i) && image == was + files[i].content
    requires Contents(was, 0, files, i)
    ensures Contents(image, 0, files, i + 1)
  {
    hide ContentAt, Offset;
    forall k | 0 <= k < i + 1 ensures ContentAt(image, Offset(files, k), files[k].content) {
      if k < i {
        ContentStays(was, image, Offset(files, k), files[k].content);
      } else {
        ContentAppended(was, files[i].content);
      }
    }
  }

  lemma ContentStays(was: seq<byte>, image: seq<byte>, at: nat, content: seq<byte>)
    requires ContentAt(was, at, content) && was <= image
    ensures ContentAt(image, at, content)
  {
    assert image[at..at + |content|] == was[at..at + |content|];
  }

  lemma ContentAppended(was: seq<byte>, content: seq<byte>)
    ensures ContentAt(was + content, |was|, content)
  {
  }
}
