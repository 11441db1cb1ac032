/** The kernel's ramdisk reader (src/initrd.c). */
module Ramdisks {
  import opened Words
  import opened CStrings
  import opened Initrd

  const NAME_BUFFER: nat := 255
  const DIRENT_NAME: nat := 128
  const DEV: seq<byte> := [100, 101, 118]

  /** A file node; the name sits in a 255-byte buffer. */
  datatype Node = Node(name: seq<byte>, length: nat, inode: nat)

  datatype Found = Dev | FileNode(inode: nat) | NotFound

  // ----- Reading in chunks

  /** What one read gives: nothing from behind the end, and no more than is left. */
  function Chunk(content: seq<byte>, offset: nat, size: nat): seq<byte> {
    if offset > |content| then []
    else content[offset..if offset + size > |content| then |content| else offset + size]
  }

  /** The reads of a file from `offset` on, one chunk after another. */
  function Chunks(content: seq<byte>, offset: nat, sizes: seq<nat>): seq<byte>
    decreases |sizes|
  {
    if sizes == [] then [] else Chunk(content, offset, sizes[0]) + Chunks(content, offset + sizes[0], sizes[1..])
  }

  function Total(sizes: seq<nat>): nat
    decreases |sizes|
  {
    if sizes == [] then 0 else sizes[0] + Total(sizes[1..])
  }

  /** Byte for byte: a read gives what it asks for, as far as the file goes, from the offset on. */
  lemma ChunkBytes(content: seq<byte>, offset: nat, size: nat)
    ensures |Chunk(content, offset, size)| ==
            if offset > |content| then 0 else if offset + size <= |content| then size else |content| - offset
    ensures forall i :: 0 <= i < |Chunk(content, offset, size)| ==> Chunk(content, offset, size)[i] == content[offset + i]
  {
  }

  lemma ChunkSplits(content: seq<byte>, offset: nat, a: nat, b: nat)
    ensures Chunk(content, offset, a) + Chunk(content, offset + a, b) == Chunk(content, offset, a + b)
  {
  }

  /** Reading in chunks of any sizes is reading once; sizes that cover the file give all of it. */
  lemma {:induction false} ChunksJoin(content: seq<byte>, offset: nat, sizes: seq<nat>)
    ensures Chunks(content, offset, sizes) == Chunk(content, offset, Total(sizes))
    ensures offset == 0 && Total(sizes) >= |content| ==> Chunks(content, offset, sizes) == content
    decreases |sizes|
  {
    ChunksAreOne(content, offset, sizes);
    assert offset == 0 && Total(sizes) >= |content| ==> Chunk(content, offset, Total(sizes)) == content;
  }

  lemma {:induction false} ChunksAreOne(content: seq<byte>, offset: nat, sizes: seq<nat>)
    ensures Chunks(content, offset, sizes) == Chunk(content, offset, Total(sizes))
    decreases |sizes|
  {
    if sizes == [] {
      assert Chunk(content, offset, 0) == [];
    } else {
      hide Chunk;
      ChunksAreOne(content, offset + sizes[0], sizes[1..]);
      ChunkSplits(content, offset, sizes[0], Total(sizes[1..]));
    }
  }

  /** What is copied out of memory for a read inside the file is the chunk. */
  lemma ChunkInMemory(m: seq<byte>, at: nat, content: seq<byte>, offset: nat, size: nat, n: nat)
    requires ContentAt(m, at, content) && offset <= |content|
    requires n == if offset + size > |content| then |content| - offset else size
    ensures at + offset + n <= |m| && m[at + offset..at + offset + n] == Chunk(content, offset, size)
  {
    SubSlice(m, at, |content|, offset, offset + n);
  }

  lemma ChunkBehindEnd(content: seq<byte>, offset: nat, size: nat)
    requires offset > |content|
    ensures Chunk(content, offset, size) == []
  {
  }

  /** The size initrd_read ends up with, in 32-bit arithmetic. */
  function ClippedSize(offset: u32, size: u32, length: u32): int {
    if (offset + size) % TWO_TO_THE_32 > length then length - offset else size
  }

  /** For an offset inside the file, the clipped read stays inside it exactly when offset + size does not wrap. */
  lemma ClipNeedsNoWrap(offset: u32, size: u32, length: u32)
    requires offset <= length
    ensures 0 <= offset + ClippedSize(offset, size, length) <= length <==> offset + size < TWO_TO_THE_32
  {
  }

  // ----- Mounting

  /** The reader's tables for `files`. */
  ghost predicate Lists(nodes: seq<Node>, files: seq<File>) {
    && |nodes| == |files|
    && forall i :: 0 <= i < |files| ==> Describes(nodes[i], files[i], i)
  }

  ghost predicate Describes(node: Node, f: File, i: nat) {
    && |node.name| == NAME_BUFFER && Terminated(node.name, f.name) && Stops(node.name)
    && node.length == |f.content| && node.inode == i
  }

  /** An image copied to `base` in memory is still an image. */
  lemma ImageLoaded(image: seq<byte>, m: seq<byte>, base: nat, files: seq<File>)
    requires ImageAt(image, 0, files, 0) && |files| <= SLOTS
    requires base + |image| <= |m| && m[base..base + |image|] == image
    ensures ImageAt(m, base, files, 0)
  {
    hide HeaderAt, ContentAt, Offset, Get32;
    forall i | 0 <= i < |files| ensures HeaderAt(m, base + Slot(i), files[i], Placed(files, base, 0, i)) {
      assert HeaderAt(image, 0 + Slot(i), files[i], Placed(files, 0, 0, i));
      SubSlice(m, base, |image|, Slot(i), Slot(i) + SLOT_BYTES);
      HeaderMoves(image, Slot(i), m, base + Slot(i), files[i], Offset(files, i));
    }
    forall i | 0 <= i < |files| ensures ContentAt(m, base + Offset(files, i), files[i].content) {
      assert ContentAt(image, 0 + Offset(files, i), files[i].content);
      ContentMoves(image, m, base, Offset(files, i), files[i].content);
    }
    SameWord(m, base, image, 0);
  }

  lemma ContentMoves(image: seq<byte>, m: seq<byte>, base: nat, at: nat, content: seq<byte>)
    requires base + |image| <= |m| && m[base..base + |image|] == image && ContentAt(image, at, content)
    ensures ContentAt(m, base + at, content)
  {
    SubSlice(m, base, |image|, at, at + |content|);
  }

  /** Making one offset absolute leaves the rest of the image as it is. */
  lemma MadeAbsolute(m: seq<byte>, m': seq<byte>, base: nat, files: seq<File>, i: nat)
    requires |files| <= SLOTS && i < |files| && ImageAt(m, base, files, i) && base + Offset(files, i) < TWO_TO_THE_32
    requires m' == Put32(m, base + Slot(i) + OFFSET_AT, base + Offset(files, i))
    ensures ImageAt(m', base, files, i + 1)
  {
    hide Headers, Contents, Put32, Get32, Offset;
    HeadersAbsolute(m, m', base, files, i);
    OnlyThere(m, m', base + Slot(i), base + Offset(files, i));
    ContentsApart(m, m', base, files, base + Slot(i));
    CountSame(m, m', base, base + Slot(i));
  }

  lemma OnlyThere(m: seq<byte>, m': seq<byte>, h: nat, v: u32)
    requires h + SLOT_BYTES <= |m| && m' == Put32(m, h + OFFSET_AT, v)
    ensures SameOutside(m, m', h, h + SLOT_BYTES)
  {
  }

  lemma HeadersAbsolute(m: seq<byte>, m': seq<byte>, base: nat, files: seq<File>, i: nat)
    requires |files| <= SLOTS && i < |files| && base + DATA_AT <= |m|
    requires Headers(m, base, files, i) && base + Offset(files, i) < TWO_TO_THE_32
    requires m' == Put32(m, base + Slot(i) + OFFSET_AT, base + Offset(files, i))
    ensures Headers(m', base, files, i + 1)
  {
    hide HeaderAt, Put32, Get32, Offset, Placed, SameOutside;
    OnlyThere(m, m', base + Slot(i), base + Offset(files, i));
    forall k | 0 <= k < |files| ensures HeaderAt(m', base + Slot(k), files[k], Placed(files, base, i + 1, k)) {
      assert HeaderAt(m, base + Slot(k), files[k], Placed(files, base, i, k));
      OneAbsolute(m, m', base, files, i, k);
    }
  }

  lemma OneAbsolute(m: seq<byte>, m': seq<byte>, base: nat, files: seq<File>, i: nat, k: nat)
    requires i < |files| && k < |files| && base + Slot(i) + SLOT_BYTES <= |m| && base + Offset(files, i) < TWO_TO_THE_32
    requires HeaderAt(m, base + Slot(k), files[k], Placed(files, base, i, k))
    requires SameOutside(m, m', base + Slot(i), base + Slot(i) + SLOT_BYTES)
    requires m' == Put32(m, base + Slot(i) + OFFSET_AT, base + Offset(files, i))
    ensures HeaderAt(m', base + Slot(k), files[k], Placed(files, base, i + 1, k))
  {
    hide HeaderAt, Put32, SameOutside, Offset;
    var h := base + Slot(i);
    if k == i {
      HeaderMadeAbsolute(m, m', h, files[i], Offset(files, i), base);
    } else {
      HeaderApart(m, m', h, base + Slot(k), files[k], Placed(files, base, i, k));
    }
  }

  lemma ContentsApart(m: seq<byte>, m': seq<byte>, base: nat, files: seq<File>, h: nat)
    requires Contents(m, base, files, |files|) && SameOutside(m, m', h, h + SLOT_BYTES) && h + SLOT_BYTES <= base + DATA_AT
    ensures Contents(m', base, files, |files|)
  {
    hide ContentAt, SameOutside, Offset;
    forall k | 0 <= k < |files| ensures ContentAt(m', base + Offset(files, k), files[k].content) {
      ContentApart(m, m', h, base + Offset(files, k), files[k].content);
    }
  }

  lemma CountSame(m: seq<byte>, m': seq<byte>, a: nat, h: nat)
    requires a + 4 <= |m| && a + 4 <= h && SameOutside(m, m', h, h + SLOT_BYTES)
    ensures Get32(m', a) == Get32(m, a)
  {
    assert m'[a] == m[a] && m'[a + 1] == m[a + 1] && m'[a + 2] == m[a + 2] && m'[a + 3] == m[a + 3];
  }

  lemma HeaderMadeAbsolute(m: seq<byte>, m': seq<byte>, h: nat, f: File, offset: nat, base: nat)
    requires HeaderAt(m, h, f, offset) && base + offset < TWO_TO_THE_32
    requires m' == Put32(m, h + OFFSET_AT, base + offset)
    ensures HeaderAt(m', h, f, base + offset)
  {
    hide Put32;
    GetPut(m, h + OFFSET_AT, base + offset);
    assert m'[h + NAME_AT..h + NAME_AT + 64] == m[h + NAME_AT..h + NAME_AT + 64];
  }

  lemma HeaderApart(m: seq<byte>, m': seq<byte>, h: nat, h': nat, f: File, offset: nat)
    requires HeaderAt(m, h', f, offset) && SameOutside(m, m', h, h + SLOT_BYTES)
    requires h' + SLOT_BYTES <= h || h + SLOT_BYTES <= h'
    ensures HeaderAt(m', h', f, offset)
  {
    HeaderFits(m, h', f, offset);
    hide HeaderAt;
    SameSlice(m, m', h, h + SLOT_BYTES, h', h' + SLOT_BYTES);
    HeaderMoves(m, h', m', h', f, offset);
  }

  lemma HeaderFits(m: seq<byte>, h: nat, f: File, offset: nat)
    requires HeaderAt(m, h, f, offset)
    ensures h + SLOT_BYTES <= |m|
  {
  }

  lemma SameSlice(m: seq<byte>, m': seq<byte>, lo: nat, hi: nat, a: nat, b: nat)
    requires SameOutside(m, m', lo, hi) && a <= b <= |m| && (b <= lo || hi <= a)
    ensures |m'| == |m| && m'[a..b] == m[a..b]
  {
  }

  lemma ContentApart(m: seq<byte>, m': seq<byte>, h: nat, at: nat, content: seq<byte>)
    requires ContentAt(m, at, content) && SameOutside(m, m', h, h + SLOT_BYTES) && h + SLOT_BYTES <= at
    ensures ContentAt(m', at, content)
  {
    SameSlice(m, m', h, h + SLOT_BYTES, at, at + |content|);
  }

  /** What the reader gets to see of header `i` and its file. */
  lemma HeaderOf(m: seq<byte>, base: nat, files: seq<File>, k: nat, i: nat)
    requires ImageAt(m, base, files, k) && i < |files|
    ensures HeaderAt(m, base + Slot(i), files[i], Placed(files, base, k, i))
    ensures ContentAt(m, base + Offset(files, i), files[i].content)
  {
    hide HeaderAt, ContentAt, Offset;
  }

  /** The node's name is copied into a zero-filled buffer, where strcpy needs to write no terminator. */
  method CopyName(field: seq<byte>, ghost s: seq<byte>) returns (name: seq<byte>)
    requires Terminated(field, s) && Stops(field)
    ensures |name| == NAME_BUFFER && Terminated(name, s) && Stops(name)
  {
    var buffer := new byte[NAME_BUFFER](_ => 0);
    ghost var zeroes := buffer[..];
    ghost var n: nat :| n < 64 && Copies(field, n);
    Strcpy(buffer, field, n);
    CopyNeedsZero(zeroes, field, s, n);
    name := buffer[..];
    assert name == field[..n] + zeroes[n..];
    assert Copies(name, n);
  }

  /** strcpy stops at the terminator of a name that is not empty. */
  lemma NamedStops(field: seq<byte>, s: seq<byte>)
    requires Terminated(field, s) && 0 < |s| < 64
    ensures Stops(field)
  {
    CopiesString(field, s);
  }

  /** Making an offset absolute leaves the names alone. */
  lemma StopsAbsolute(m: seq<byte>, m': seq<byte>, base: nat, files: seq<File>, i: nat, v: u32)
    requires EmptyNamesStop(m, base + 4, files)
    requires base + Slot(i) + SLOT_BYTES <= |m| && m' == Put32(m, base + Slot(i) + OFFSET_AT, v)
    ensures EmptyNamesStop(m', base + 4, files)
  {
    hide Put32, NameStops;
    forall j | 0 <= j < |files| && files[j].name == [] ensures NameStops(m', base + 4 + SLOT_BYTES * j) {
      var h := base + 4 + SLOT_BYTES * j;
      assert NameStops(m, h);
      NameKept(m, m', h, base + Slot(i));
    }
  }

  lemma NameKept(m: seq<byte>, m': seq<byte>, h: nat, slot: nat)
    requires NameStops(m, h) && SameOutside(m, m', slot + OFFSET_AT, slot + OFFSET_AT + 4)
    requires h + SLOT_BYTES <= slot || h == slot || slot + SLOT_BYTES <= h
    ensures NameStops(m', h)
  {
    hide Stops;
    SameSlice(m, m', slot + OFFSET_AT, slot + OFFSET_AT + 4, h + NAME_AT + 1, h + NAME_AT + 64);
    NameStopsMoves(m, h, m', h);
  }

  /** What the reader loads from header `i`. */
  lemma HeaderFields(m: seq<byte>, base: nat, files: seq<File>, k: nat, i: nat)
    requires ImageAt(m, base, files, k) && i < |files|
    ensures base + Slot(i) + SLOT_BYTES <= |m|
    ensures Get32(m, base + Slot(i) + OFFSET_AT) == Placed(files, base, k, i)
    ensures Get32(m, base + Slot(i) + LENGTH_AT) == |files[i].content|
    ensures Terminated(m[base + Slot(i) + NAME_AT..base + Slot(i) + NAME_AT + 64], files[i].name)
  {
    HeaderOf(m, base, files, k, i);
    hide ImageAt, Placed, Get32, Terminated;
  }

  /** One header's offset, made absolute where it stands. */
  method Absolute(mem: array<byte>, location: nat, ghost files: seq<File>, i: nat)
    requires |files| <= SLOTS && i < |files| && ImageAt(mem[..], location, files, i)
    requires location + Offset(files, i) < TWO_TO_THE_32 && EmptyNamesStop(mem[..], location + 4, files)
    modifies mem
    ensures ImageAt(mem[..], location, files, i + 1) && EmptyNamesStop(mem[..], location + 4, files)
  {
    hide ImageAt, Terminated, Get32, Put32, Offset, EmptyNamesStop;
    ghost var m := mem[..];
    HeaderFields(m, location, files, i, i);
    var h := location + Slot(i);
    var offset := LoadWord(mem, h + OFFSET_AT);
    StoreWord(mem, h + OFFSET_AT, offset + location);
    MadeAbsolute(m, mem[..], location, files, i);
    StopsAbsolute(m, mem[..], location, files, i, offset + location);
  }

  /** One round of the loop of initialise_initrd. */
  method MountOne(mem: array<byte>, location: nat, ghost files: seq<File>, i: nat) returns (node: Node)
    requires Fitting(files) && i < |files| && ImageAt(mem[..], location, files, i)
    requires location + Offset(files, |files|) < TWO_TO_THE_32 && EmptyNamesStop(mem[..], location + 4, files)
    modifies mem
    ensures ImageAt(mem[..], location, files, i + 1) && Describes(node, files[i], i)
    ensures EmptyNamesStop(mem[..], location + 4, files)
  {
    FileFits(files, i);
    ExtentsTile(files, i, |files|);
    hide Fitting, ImageAt, Offset, Placed, Terminated, Get32, EmptyNamesStop;
    Absolute(mem, location, files, i);
    node := MakeNode(mem, location, files, i);
  }

  /** The node of header `i`, whose offset is absolute by now. */
  method MakeNode(mem: array<byte>, location: nat, ghost files: seq<File>, i: nat) returns (node: Node)
    requires i < |files| && |files[i].name| < 64 && ImageAt(mem[..], location, files, i + 1)
    requires EmptyNamesStop(mem[..], location + 4, files)
    ensures Describes(node, files[i], i)
  {
    hide ImageAt, Placed, Terminated, Get32, Offset, Stops;
    HeaderFields(mem[..], location, files, i + 1, i);
    var h := location + Slot(i);
    var field := mem[h + NAME_AT..h + NAME_AT + 64];
    assert field == mem[..][h + NAME_AT..h + NAME_AT + 64];
    if files[i].name == [] {
      assert NameStops(mem[..], location + 4 + SLOT_BYTES * i);
    } else {
      NamedStops(field, files[i].name);
    }
    var name := CopyName(field, files[i].name);
    var length := LoadWord(mem, h + LENGTH_AT);
    node := Node(name, length, i);
  }

  lemma ListsGrow(nodes: seq<Node>, node: Node, files: seq<File>, i: nat)
    requires i < |files| && Lists(nodes, files[..i]) && Describes(node, files[i], i)
    ensures Lists(nodes + [node], files[..i + 1])
  {
    hide Describes;
  }

  /** The loop of initialise_initrd: every offset is made absolute in place, and a node is made of every header. */
  method Mount(mem: array<byte>, location: nat, ghost files: seq<File>) returns (nodes: seq<Node>)
    requires Fitting(files) && ImageAt(mem[..], location, files, 0) && EmptyNamesStop(mem[..], location + 4, files)
    requires location + Offset(files, |files|) < TWO_TO_THE_32
    modifies mem
    ensures Lists(nodes, files) && ImageAt(mem[..], location, files, |files|)
  {
    hide Fitting, Headers, Contents, Offset, Lists, Describes, EmptyNamesStop;
    var n := LoadWord(mem, location);
    nodes := [];
    NoNodes();
    var i := 0;
    while i < n
      invariant i <= n == |files|
      invariant Lists(nodes, files[..i]) && ImageAt(mem[..], location, files, i) && EmptyNamesStop(mem[..], location + 4, files)
    {
      var node := MountOne(mem, location, files, i);
      ListsGrow(nodes, node, files, i);
      nodes := nodes + [node];
      i := i + 1;
    }
    assert files[..i] == files;
  }

  lemma NoNodes()
    ensures forall files: seq<File> :: Lists([], files[..0])
  {
  }

  // ----- The mounted disk

  class Ramdisk {
    const mem: array<byte>
    const location: nat
    const dirent: array<byte>
    var direntInode: nat
    var rootNodes: seq<Node>
    ghost var files: seq<File>

    ghost predicate Valid()
      reads this, mem
    {
      && Fitting(files) && Lists(rootNodes, files) && ImageAt(mem[..], location, files, |files|)
      && location + Offset(files, |files|) < TWO_TO_THE_32
      && dirent.Length == DIRENT_NAME && dirent != mem
    }

    /** initialise_initrd */
    constructor (mem: array<byte>, location: nat, ghost files: seq<File>)
      requires Fitting(files) && ImageAt(mem[..], location, files, 0) && EmptyNamesStop(mem[..], location + 4, files)
      requires location + Offset(files, |files|) < TWO_TO_THE_32
      modifies mem
      ensures Valid() && this.files == files && this.mem == mem && this.location == location && fresh(dirent)
    {
      this.mem, this.location, this.files := mem, location, files;
      var name := new byte[DIRENT_NAME](_ => 0);
      dirent := name;
      direntInode, rootNodes := 0, [];
      new;
      hide Fitting, ImageAt, Lists, Offset, EmptyNamesStop;
      var nodes := Mount(mem, location, files);
      rootNodes := nodes;
    }

    /** The directory buffer shows an entry. */
    ghost predicate Shows(name: seq<byte>, inode: nat)
      reads this, dirent
    {
      Terminated(dirent[..], name) && direntInode == inode
    }

    /** The node's file, as far as a read needs it. */
    lemma NodeFile(node: Node)
      requires Valid() && node in rootNodes
      ensures node.inode < |files| && node.inode < |rootNodes|
      ensures node.length == |files[node.inode].content|
      ensures location + Slot(node.inode) + SLOT_BYTES <= mem.Length
      ensures Get32(mem[..], location + Slot(node.inode) + OFFSET_AT) == location + Offset(files, node.inode)
      ensures Get32(mem[..], location + Slot(node.inode) + LENGTH_AT) == |files[node.inode].content| < TWO_TO_THE_32
      ensures ContentAt(mem[..], location + Offset(files, node.inode), files[node.inode].content)
    {
      hide Fitting, ImageAt, Offset, Terminated, Get32;
      var i :| 0 <= i < |rootNodes| && rootNodes[i] == node;
      assert Describes(rootNodes[i], files[i], i);
      HeaderFields(mem[..], location, files, |files|, i);
      HeaderOf(mem[..], location, files, |files|, i);
    }

    /** A read of `size` bytes at `offset` answered `n`, and left the buffer `now`: the chunk, then what was there. */
    ghost predicate ReadGives(inode: nat, offset: nat, size: nat, was: seq<byte>, now: seq<byte>, n: nat)
      reads this
    {
      && inode < |files| && n == |Chunk(files[inode].content, offset, size)| <= |was|
      && now == Chunk(files[inode].content, offset, size) + was[n..]
    }

    /** initrd_read: the buffer, which has room for what is left of the file, gets the chunk, and nothing behind it is touched. */
    method Read(node: Node, offset: u32, size: u32, buffer: array<byte>) returns (n: nat)
      requires Valid() && node in rootNodes && (offset <= node.length ==> offset + size < TWO_TO_THE_32)
      requires buffer != mem && buffer != dirent && |Chunk(files[node.inode].content, offset, size)| <= buffer.Length
      modifies buffer
      ensures Valid() && ReadGives(node.inode, offset, size, old(buffer[..]), buffer[..], n)
    {
      hide Valid, Fitting, ImageAt, Offset, Terminated, Get32, Lists, ContentAt, Chunk;
      NodeFile(node);
      ghost var content, was := files[node.inode].content, buffer[..];
      var h := location + Slot(node.inode);
      var start := LoadWord(mem, h + OFFSET_AT);
      var length := LoadWord(mem, h + LENGTH_AT);
      if offset > length {
        ChunkBehindEnd(content, offset, size);
        assert was == [] + was[0..];
        return 0;
      }
      n := size;
      if (offset + size) % TWO_TO_THE_32 > length {
        n := length - offset;
      }
      ChunkInMemory(mem[..], start, content, offset, size, n);
      CopyOut(buffer, mem, start + offset, n);
    }

    /** What the reader knows of node `i`. */
    lemma NodeNamed(i: nat)
      requires Valid() && i < |files|
      ensures i < |rootNodes| && rootNodes[i].inode == i
      ensures Terminated(rootNodes[i].name, files[i].name) && |files[i].name| < 64 && Stops(rootNodes[i].name)
    {
      hide ImageAt, Offset, Terminated, Stops;
      assert Describes(rootNodes[i], files[i], i);
    }

    /** strcpy into the shared directory entry, and the terminator it leaves out. */
    method SetEntry(name: seq<byte>, inode: nat, ghost s: seq<byte>)
      requires Valid() && Terminated(name, s) && |s| < 64 && Stops(name)
      modifies `direntInode, dirent
      ensures Valid() && Shows(s, inode)
    {
      hide Fitting, ImageAt, Offset, Lists;
      ghost var n: nat :| n < 64 && Copies(name, n);
      if s != [] { CopiesString(name, s); }
      Strcpy(dirent, name, n);
      ghost var behind := old(dirent[n..]);
      var end := Strlen(name, s);
      assert dirent[..] == name[..n] + behind;
      dirent[end] := 0;
      direntInode := inode;
      assert dirent[..][..|s|] == s;
    }

    method SetDevEntry()
      requires Valid()
      modifies `direntInode, dirent
      ensures Valid() && Shows(DEV, 0)
    {
      hide Valid, Shows;
      DevString();
      NamedStops(DEV + [0], DEV);
      SetEntry(DEV + [0], 0, DEV);
    }

    /** The entry of file i. */
    method SetFileEntry(i: nat)
      requires Valid() && i < |files|
      modifies `direntInode, dirent
      ensures Valid() && Shows(files[i].name, i)
    {
      hide Valid, Shows;
      NodeNamed(i);
      var node := rootNodes[i];
      SetEntry(node.name, node.inode, files[i].name);
    }

    /**
      initrd_readdir, for the root directory or for /dev: entry 0 of the root is
      "dev", and entry i + 1 of either is file i. index - 1 wraps around for index 0.
     */
    method Readdir(isRoot: bool, index: u32) returns (found: bool)
      requires Valid()
      modifies `direntInode, dirent
      ensures Valid()
      ensures found <==> (isRoot && index == 0) || 0 < index <= |files|
      ensures isRoot && index == 0 ==> Shows(DEV, 0)
      ensures 0 < index <= |files| ==> Shows(files[index - 1].name, index - 1)
      ensures !found ==> dirent[..] == old(dirent[..]) && direntInode == old(direntInode)
    {
      hide *;
      FewNodes();
      Predecessor(index);
      if isRoot && index == 0 {
        SetDevEntry();
        return true;
      }
      if (index - 1) % TWO_TO_THE_32 >= |rootNodes| {
        return false;
      }
      SetFileEntry(index - 1);
      return true;
    }

    /** index - 1, as unsigned arithmetic has it. */
    lemma Predecessor(index: u32)
      ensures (index - 1) % TWO_TO_THE_32 == if index == 0 then TWO_TO_THE_32 - 1 else index - 1
      ensures SLOTS < TWO_TO_THE_32
    {
    }

    lemma FewNodes()
      requires Valid()
      ensures |rootNodes| == |files| <= SLOTS
    {
    }

    /** initrd_finddir: /dev first, then the first file of that name. */
    method Finddir(isRoot: bool, name: seq<byte>, ghost s: seq<byte>) returns (r: Found)
      requires Valid() && Terminated(name, s)
      ensures r == Dev <==> isRoot && s == DEV
      ensures r == NotFound <==> !(isRoot && s == DEV) && forall j :: 0 <= j < |files| ==> files[j].name != s
      ensures forall i :: 0 <= i < |files| ==>
                (r == FileNode(i) <==> !(isRoot && s == DEV) && files[i].name == s && forall j :: 0 <= j < i ==> files[j].name != s)
    {
      hide Valid, Terminated;
      if isRoot {
        var same := NamesDev(name, s);
        if same {
          return Dev;
        }
      }
      r := FindFile(name, s);
    }

    /** The loop of initrd_finddir. */
    method FindFile(name: seq<byte>, ghost s: seq<byte>) returns (r: Found)
      requires Valid() && Terminated(name, s)
      ensures !r.Dev?
      ensures r.FileNode? ==> r.inode < |files| && files[r.inode].name == s
      ensures r.FileNode? ==> forall j :: 0 <= j < r.inode ==> files[j].name != s
      ensures r == NotFound ==> forall j :: 0 <= j < |files| ==> files[j].name != s
    {
      hide *;
      FewNodes();
      var i := 0;
      while i < |rootNodes|
        invariant i <= |rootNodes| && forall j :: 0 <= j < i ==> files[j].name != s
      {
        NodeNamed(i);
        var differs := Strcmp(name, rootNodes[i].name, s, files[i].name);
        if differs == 0 {
          return FileNode(rootNodes[i].inode);
        }
        i := i + 1;
      }
      return NotFound;
    }
  }

  method NamesDev(name: seq<byte>, ghost s: seq<byte>) returns (same: bool)
    requires Terminated(name, s)
    ensures same <==> s == DEV
  {
    hide Terminated;
    DevString();
    var differs := Strcmp(name, DEV + [0], s, DEV);
    same := differs == 0;
  }

  lemma DevString()
    ensures Terminated(DEV + [0], DEV)
  {
  }

  /** memcpy out of the image. */
  method CopyOut(dest: array<byte>, src: array<byte>, at: nat, len: nat)
    requires at + len <= src.Length && len <= dest.Length && dest != src
    modifies dest
    ensures dest[..] == src[..][at..at + len] + old(dest[..])[len..]
  {
    ghost var m, was := src[..], dest[..];
    var k := 0;
    while k < len
      invariant k <= len && src[..] == m
      invariant forall j :: 0 <= j < k ==> dest[j] == m[at + j]
      invariant forall j :: k <= j < dest.Length ==> dest[j] == was[j]
    {
      dest[k] := src[at + k];
      k := k + 1;
    }
    assert dest[..] == m[at..at + len] + was[len..];
  }

  /**
    Writing and reading undo each other: whatever files were packed, and wherever the boot
    loader puts the image, the disk that is mounted there is a disk of exactly those files.
   */
  method PackAndMount(files: seq<File>, headers: array<byte>, location: nat) returns (disk: Ramdisk)
    requires Fitting(files) && headers.Length == SLOTS * SLOT_BYTES && location + Offset(files, |files|) < TWO_TO_THE_32
    requires EmptyNamesStop(headers[..], 0, files)
    modifies headers
    ensures disk.Valid() && disk.files == files && disk.location == location && fresh(disk) && fresh(disk.dirent)
  {
    hide ImageAt, Offset, EmptyNamesStop;
    var image := Pack(files, headers);
    FewFiles(files);
    var mem := new byte[location + |image|](i requires 0 <= i =>
      if i < location || |image| <= i - location then 0 else image[i - location]);
    assert mem[..][location..location + |image|] == image;
    ImageLoaded(image, mem[..], location, files);
    StopsMove(image, 4, mem[..], location + 4, files);
    disk := new Ramdisk(mem, location, files);
  }

  /**
    The header base as written, src/initrd.c:66: `location` points to words, so the table
    is looked for 16 bytes behind it, not 4. The string found where the name of file `i` is
    looked for is its name exactly when the name is shorter than 12 characters and what the
    name's slot holds from byte 12 on spells it again.
   */
  lemma LiteralHeaderBase(m: seq<byte>, location: nat, files: seq<File>, i: nat)
    requires ImageAt(m, location, files, 0) && i < |files|
    ensures var at, field := location + 16 + SLOT_BYTES * i + NAME_AT, location + Slot(i) + NAME_AT;
            && at <= |m| && field + 64 <= |m|
            && (Terminated(m[at..], files[i].name) <==>
                |files[i].name| < 12 && Terminated(m[field + 12..field + 64], files[i].name))
  {
    hide ImageAt, Get32, Offset, Terminated;
    HeaderFields(m, location, files, 0, i);
    var at := location + Slot(i) + NAME_AT;
    SubSlice(m, at, 64, 12, 64);
    ReadLate(m[at..at + 64], m[at + 12..], files[i].name);
  }

  /** If the name's slot is zero-filled behind the name, no name but the empty one is found there. */
  lemma LiteralHeaderBaseZeroFilled(m: seq<byte>, location: nat, files: seq<File>, i: nat)
    requires ImageAt(m, location, files, 0) && i < |files|
    requires var field := location + Slot(i) + NAME_AT;
      forall b :: field + |files[i].name| <= b < field + 64 && b < |m| ==> m[b] == 0
    ensures var at := location + 16 + SLOT_BYTES * i + NAME_AT;
            at <= |m| && (Terminated(m[at..], files[i].name) <==> files[i].name == [])
  {
    hide ImageAt, Get32, Offset;
    HeaderFields(m, location, files, 0, i);
    LiteralHeaderBase(m, location, files, i);
    var field, name := location + Slot(i) + NAME_AT, files[i].name;
    var late := m[field + 12..field + 64];
    if |name| < 12 {
      assert late[0] == m[field + 12] == 0;
      EmptyFirst(late, name);
    }
  }

  lemma EmptyFirst(buffer: seq<byte>, s: seq<byte>)
    requires buffer != [] && buffer[0] == 0
    ensures Terminated(buffer, s) <==> s == []
  {
    if s != [] && Terminated(buffer, s) { Characters(buffer, s); }
  }

  /** The string behind byte 12 of a name's slot, against the name itself. */
  lemma ReadLate(field: seq<byte>, late: seq<byte>, name: seq<byte>)
    requires Terminated(field, name) && |field| == 64 && |late| >= 52 && late[..52] == field[12..64]
    ensures Terminated(late, name) <==> |name| < 12 && Terminated(field[12..64], name)
  {
    hide Terminated;
    if |name| < 12 {
      SamePrefix(late, field[12..64], name);
    } else {
      BehindTwelve(field, late, name);
      OneStringOnly(late, name[12..], name);
    }
  }

  lemma SamePrefix(long: seq<byte>, short: seq<byte>, s: seq<byte>)
    requires |short| <= |long| && long[..|short|] == short && |s| < |short|
    ensures Terminated(long, s) <==> Terminated(short, s)
  {
    assert long[..|s|] == short[..|s|];
    assert long[|s|] == short[|s|];
  }

  lemma BehindTwelve(field: seq<byte>, late: seq<byte>, name: seq<byte>)
    requires Terminated(field, name) && |field| == 64 && |late| >= 52 && late[..52] == field[12..64] && 12 <= |name|
    ensures Terminated(late, name[12..])
  {
    Characters(field, name);
    var n := |name| - 12;
    forall k | 0 <= k < 52 ensures late[k] == field[k + 12] {
      assert late[..52][k] == late[k];
    }
    assert late[..n] == name[12..];
  }

  /**
    The base added to an offset as written, src/initrd.c:106: the word at `location` is the
    file count. The offset becomes the file's address exactly when the image lies at that number.
   */
  lemma LiteralOffsetBase(m: seq<byte>, location: nat, files: seq<File>, i: nat)
    requires ImageAt(m, location, files, 0) && i < |files| && location + Offset(files, i) < TWO_TO_THE_32
    ensures location + Slot(i) + SLOT_BYTES <= |m|
    ensures (Get32(m, location + Slot(i) + OFFSET_AT) + Get32(m, location)) % TWO_TO_THE_32 == location + Offset(files, i)
            <==> location == |files|
  {
    hide Headers, Contents, Get32, Offset;
    HeaderFields(m, location, files, 0, i);
    AddedTo(Offset(files, i), |files|, location);
  }

  lemma AddedTo(offset: nat, count: u32, location: nat)
    requires location + offset < TWO_TO_THE_32
    ensures (offset + count) % TWO_TO_THE_32 == location + offset <==> location == count
  {
  }

  /** Character `k` of a name in a zero-filled field. */
  function CharAt(name: seq<byte>, k: nat): byte { if k < |name| then name[k] else 0 }

  /**
    With the header base as written, the word taken for the offset of file `i` lies in the
    name of the next file: the offset is right exactly when the characters 3 to 6 of that name
    spell it, and never for a name of fewer than four. (Behind the name, zeros are assumed only
    up to there.)
   */
  lemma LiteralOffsetIsAName(m: seq<byte>, location: nat, files: seq<File>, i: nat)
    requires ImageAt(m, location, files, 0) && i + 1 < |files|
    requires var field := location + Slot(i + 1) + NAME_AT;
      forall b :: field + |files[i + 1].name| <= b < field + 7 && b < |m| ==> m[b] == 0
    ensures location + Slot(i + 1) + SLOT_BYTES <= |m|
    ensures var name := files[i + 1].name;
            Get32(m, location + 16 + SLOT_BYTES * i + OFFSET_AT) == Offset(files, i) <==>
            3 < |name| && LittleEndian([CharAt(name, 3), CharAt(name, 4), CharAt(name, 5), CharAt(name, 6)]) == Offset(files, i)
  {
    hide ImageAt, Offset, Terminated;
    HeaderFields(m, location, files, 0, i + 1);
    var field, name := location + Slot(i + 1) + NAME_AT, files[i + 1].name;
    NameBytes(m, field, name, 3);
    NameBytes(m, field, name, 4);
    NameBytes(m, field, name, 5);
    NameBytes(m, field, name, 6);
    if |name| <= 3 { FourBytes(0, 0, 0, 0); }
  }

  lemma NameBytes(m: seq<byte>, field: nat, name: seq<byte>, k: nat)
    requires field + 64 <= |m| && Terminated(m[field..field + 64], name) && k < 7
    requires forall b :: field + |name| <= b < field + 7 && b < |m| ==> m[b] == 0
    ensures m[field + k] == CharAt(name, k)
  {
    Characters(m[field..field + 64], name);
    if k < |name| { assert m[field..field + 64][k] == name[k]; }
  }

  /** For the last file the word lies in an unused slot; where that is zero-filled, the offset is never right. */
  lemma LiteralOffsetOfLast(m: seq<byte>, location: nat, files: seq<File>, i: nat)
    requires ImageAt(m, location, files, 0) && i + 1 == |files| < SLOTS
    ensures location + Slot(i + 1) + SLOT_BYTES <= |m|
    ensures (forall b :: location + Slot(i + 1) <= b < location + Slot(i + 1) + SLOT_BYTES ==> m[b] == 0)
            ==> Get32(m, location + 16 + SLOT_BYTES * i + OFFSET_AT) != Offset(files, i)
  {
    hide Offset, Headers, Contents;
    FourBytes(0, 0, 0, 0);
  }

  /** The contents of the first `n` files, one after another. */
  function Data(files: seq<File>, n: nat): (s: seq<byte>)
    requires n <= |files|
    ensures DATA_AT + |s| == Offset(files, n)
  {
    if n == 0 then [] else Data(files, n - 1) + files[n - 1].content
  }

  lemma {:induction false} DataInMemory(m: seq<byte>, base: nat, files: seq<File>, n: nat)
    requires n <= |files| && base + DATA_AT <= |m| && Contents(m, base, files, n)
    ensures base + Offset(files, n) <= |m| && m[base + DATA_AT..base + Offset(files, n)] == Data(files, n)
  {
    hide ContentAt, Contents, Offset, Data;
    DataAt(files, n);
    if n > 0 {
      LastContent(m, base, files, n);
      DataInMemory(m, base, files, n - 1);
      ContentJoins(m, base + DATA_AT, base + Offset(files, n - 1), files[n - 1].content);
    }
  }

  lemma DataAt(files: seq<File>, n: nat)
    requires n <= |files|
    ensures n == 0 ==> Data(files, n) == [] && Offset(files, n) == DATA_AT
    ensures n > 0 ==> Data(files, n) == Data(files, n - 1) + files[n - 1].content
    ensures n > 0 ==> Offset(files, n) == Offset(files, n - 1) + |files[n - 1].content|
  {
  }

  lemma LastContent(m: seq<byte>, base: nat, files: seq<File>, n: nat)
    requires 0 < n <= |files| && Contents(m, base, files, n)
    ensures Contents(m, base, files, n - 1) && ContentAt(m, base + Offset(files, n - 1), files[n - 1].content)
  {
    hide ContentAt, Offset;
  }

  lemma ContentJoins(m: seq<byte>, a: nat, b: nat, content: seq<byte>)
    requires a <= b && ContentAt(m, b, content)
    ensures b + |content| <= |m| && m[a..b + |content|] == m[a..b] + content
  {
  }

  /**
    With all 64 slots in use, the word for the last file is made of the bytes 4 to 7 of the
    contents, or of what stands behind the image where there are fewer.
   */
  lemma LiteralOffsetIsData(m: seq<byte>, location: nat, files: seq<File>)
    requires ImageAt(m, location, files, 0) && |files| == SLOTS && location + DATA_AT + 8 <= |m|
    ensures location + Offset(files, SLOTS) <= |m|
    ensures var behind := Data(files, SLOTS) + m[location + Offset(files, SLOTS)..];
            |behind| >= 8 && Get32(m, location + 16 + SLOT_BYTES * (SLOTS - 1) + OFFSET_AT) == LittleEndian(behind[4..8])
  {
    hide Offset, Headers, Data;
    DataInMemory(m, location, files, SLOTS);
    var a, c := location + DATA_AT, location + Offset(files, SLOTS);
    assert m[a..] == m[a..c] + m[c..];
    assert m[a..][4..8] == [m[a + 4], m[a + 5], m[a + 6], m[a + 7]];
  }

  lemma OneStringOnly(buffer: seq<byte>, s: seq<byte>, t: seq<byte>)
    requires Terminated(buffer, s) && |s| < |t|
    ensures !Terminated(buffer, t)
  {
    if Terminated(buffer, t) { OneString(buffer, s, t); }
  }
}
