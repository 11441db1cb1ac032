/**
  What the boundary-tagged heap means: a sequence of regions that tile the heap,
  each announced by a 12-byte header and closed by an 8-byte footer that points
  back to it (src/kheap.h, lines 24-33).
 */
module Regions {
  import opened Words

  const HEAP_MAGIC: u32 := 0x123890AB
  const HEADER: nat := 12
  const FOOTER: nat := 8
  const TAGS: nat := 20

  datatype Region = Region(addr: nat, size: nat, hole: bool) {
    function End(): nat { addr + size }
    function Payload(): nat { addr + HEADER }
  }

  // ----- Tags in memory

  /** The header and the footer of `r` are in memory. */
  ghost predicate Tagged(m: seq<byte>, r: Region) {
    && TAGS <= r.size && r.End() <= |m|
    && Get32(m, r.addr) == HEAP_MAGIC
    && m[r.addr + 4] == (if r.hole then 1 else 0)
    && Get32(m, r.addr + 8) == r.size
    && Get32(m, r.End() - 8) == HEAP_MAGIC
    && Get32(m, r.End() - 4) == r.addr
  }

  function PutHeader(m: seq<byte>, h: nat, hole: bool, size: u32): (m': seq<byte>)
    requires h + HEADER <= |m|
    ensures SameOutside(m, m', h, h + HEADER)
  {
    Put32(Put32(m, h, HEAP_MAGIC)[h + 4 := if hole then 1 else 0], h + 8, size)
  }

  function PutFooter(m: seq<byte>, f: nat, h: u32): (m': seq<byte>)
    requires f + FOOTER <= |m|
    ensures SameOutside(m, m', f, f + FOOTER)
  {
    Put32(Put32(m, f, HEAP_MAGIC), f + 4, h)
  }

  /** Memory after both tags of `r` are written. */
  function PutRegion(m: seq<byte>, r: Region): (m': seq<byte>)
    requires TAGS <= r.size && r.End() <= |m| < TWO_TO_THE_32
    ensures SameOutside(m, m', r.addr, r.End())
  {
    PutFooter(PutHeader(m, r.addr, r.hole, r.size), r.End() - FOOTER, r.addr)
  }

  lemma PutRegionTags(m: seq<byte>, r: Region)
    requires TAGS <= r.size && r.End() <= |m| < TWO_TO_THE_32
    ensures Tagged(PutRegion(m, r), r)
  {
    var a, f := r.addr, r.End() - FOOTER;
    var m1 := Put32(m, a, HEAP_MAGIC);
    GetPut(m, a, HEAP_MAGIC);
    var m2 := m1[a + 4 := if r.hole then 1 else 0];
    var m3 := Put32(m2, a + 8, r.size);
    GetPut(m2, a + 8, r.size);
    var m4 := Put32(m3, f, HEAP_MAGIC);
    GetPut(m3, f, HEAP_MAGIC);
    GetPut(m4, f + 4, r.addr);
  }

  /** The tags byte for byte: the magic number, lowest byte first, then the flag and the size, or the header's address. */
  lemma TagBytes(m: seq<byte>, a: nat, hole: bool, w: u32)
    requires a + HEADER <= |m|
    ensures var h := PutHeader(m, a, hole, w);
            && h[a..a + 5] == [0xAB, 0x90, 0x38, 0x12, if hole then 1 else 0]
            && w == h[a + 8] as int + 0x100 * (h[a + 9] as int) + 0x1_0000 * (h[a + 10] as int) + 0x100_0000 * (h[a + 11] as int)
    ensures var f := PutFooter(m, a, w);
            && f[a..a + 4] == [0xAB, 0x90, 0x38, 0x12]
            && w == f[a + 4] as int + 0x100 * (f[a + 5] as int) + 0x1_0000 * (f[a + 6] as int) + 0x100_0000 * (f[a + 7] as int)
  {
    BytesMakeWord(w);
    FourBytes(ByteOf(w, 0), ByteOf(w, 1), ByteOf(w, 2), ByteOf(w, 3));
    MagicBytes();
    hide ByteOf, LittleEndian;
  }

  lemma MagicBytes()
    ensures ByteOf(HEAP_MAGIC, 0) == 0xAB && ByteOf(HEAP_MAGIC, 1) == 0x90
    ensures ByteOf(HEAP_MAGIC, 2) == 0x38 && ByteOf(HEAP_MAGIC, 3) == 0x12
  {
  }

  // ----- Tilings

  /** The regions of `rs` follow one another and fill [lo, hi) exactly. */
  ghost predicate Tiles(rs: seq<Region>, lo: nat, hi: nat) {
    && lo <= hi
    && (rs == [] ==> lo == hi)
    && (rs != [] ==> rs[0].addr == lo && rs[|rs| - 1].End() == hi)
    && (forall i :: 0 <= i < |rs| ==> TAGS <= rs[i].size)
    && (forall i, j :: 0 <= i < j < |rs| ==>
          rs[i].End() <= rs[j].addr && (j == i + 1 ==> rs[i].End() == rs[j].addr))
  }

  /** `rs` tiles [lo, hi) and each of its regions is tagged in memory. */
  ghost predicate Laid(m: seq<byte>, rs: seq<Region>, lo: nat, hi: nat) {
    && Tiles(rs, lo, hi) && hi <= |m|
    && forall i :: 0 <= i < |rs| ==> Tagged(m, rs[i])
  }

  /** Every region lies inside the tiled interval. */
  lemma Inside(rs: seq<Region>, lo: nat, hi: nat, i: nat)
    requires Tiles(rs, lo, hi) && i < |rs|
    ensures lo <= rs[i].addr && rs[i].End() <= hi
  {
    if i > 0 { assert rs[0].End() <= rs[i].addr; }
    if i < |rs| - 1 { assert rs[i].End() <= rs[|rs| - 1].addr; }
  }

  /** The address where piece `k` of a tiling starts. */
  ghost function CutAt(rs: seq<Region>, hi: nat, k: nat): nat
    requires k <= |rs|
  {
    if k == |rs| then hi else rs[k].addr
  }

  lemma TilesSplit(rs: seq<Region>, lo: nat, hi: nat, k: nat)
    requires Tiles(rs, lo, hi) && k <= |rs|
    ensures Tiles(rs[..k], lo, CutAt(rs, hi, k))
    ensures Tiles(rs[k..], CutAt(rs, hi, k), hi)
  {
    if k < |rs| {
      Inside(rs, lo, hi, k);
      if k > 0 { assert rs[k - 1].End() == rs[k].addr; }
    }
  }

  lemma TilesConcat(a: seq<Region>, b: seq<Region>, lo: nat, mid: nat, hi: nat)
    requires Tiles(a, lo, mid) && Tiles(b, mid, hi)
    ensures Tiles(a + b, lo, hi)
  {
    var c := a + b;
    forall i, j | 0 <= i < j < |c|
      ensures c[i].End() <= c[j].addr && (j == i + 1 ==> c[i].End() == c[j].addr)
    {
      if i < |a| { Inside(a, lo, mid, i); }
      if j >= |a| { Inside(b, mid, hi, j - |a|); }
    }
    if b != [] && a == [] { assert c == b; }
  }

  lemma LaidSplit(m: seq<byte>, rs: seq<Region>, lo: nat, hi: nat, k: nat)
    requires Laid(m, rs, lo, hi) && k <= |rs|
    ensures Laid(m, rs[..k], lo, CutAt(rs, hi, k))
    ensures Laid(m, rs[k..], CutAt(rs, hi, k), hi)
  {
    TilesSplit(rs, lo, hi, k);
  }

  lemma LaidConcat(m: seq<byte>, a: seq<Region>, b: seq<Region>, lo: nat, mid: nat, hi: nat)
    requires Laid(m, a, lo, mid) && Laid(m, b, mid, hi)
    ensures Laid(m, a + b, lo, hi)
  {
    TilesConcat(a, b, lo, mid, hi);
  }

  lemma LaidOne(m: seq<byte>, r: Region)
    requires Tagged(m, r)
    ensures Laid(m, [r], r.addr, r.End())
  {
    hide Get32;
  }

  lemma LaidNone(m: seq<byte>, lo: nat)
    requires lo <= |m|
    ensures Laid(m, [], lo, lo)
  {
  }

  /** Tags survive any change of memory outside the tiled interval. */
  lemma LaidFrame(m: seq<byte>, m': seq<byte>, rs: seq<Region>, lo: nat, hi: nat)
    requires Laid(m, rs, lo, hi) && SameIn(m, m', lo, hi)
    ensures Laid(m', rs, lo, hi)
  {
    forall i | 0 <= i < |rs| ensures Tagged(m', rs[i]) {
      Inside(rs, lo, hi, i);
    }
  }

  /** `rs` with its pieces i..j replaced by `mid`. */
  function Replace(rs: seq<Region>, i: nat, j: nat, mid: seq<Region>): seq<Region>
    requires i <= j <= |rs|
  {
    rs[..i] + mid + rs[j..]
  }

  /**
    Rewriting the bytes of some neighbouring regions, so that they hold a laid-out
    `mid` over the same interval, leaves the whole heap laid out.
   */
  lemma LaidReplace(m: seq<byte>, m': seq<byte>, rs: seq<Region>, lo: nat, hi: nat, i: nat, j: nat, mid: seq<Region>)
    requires Laid(m, rs, lo, hi) && i < j <= |rs|
    requires SameOutside(m, m', CutAt(rs, hi, i), CutAt(rs, hi, j))
    requires Laid(m', mid, CutAt(rs, hi, i), CutAt(rs, hi, j))
    ensures Laid(m', Replace(rs, i, j, mid), lo, hi)
  {
    var a, b := CutAt(rs, hi, i), CutAt(rs, hi, j);
    LaidSplit(m, rs, lo, hi, i);
    LaidSplit(m, rs, lo, hi, j);
    LaidFrame(m, m', rs[..i], lo, a);
    LaidFrame(m, m', rs[j..], b, hi);
    LaidConcat(m', rs[..i], mid, lo, a, b);
    LaidConcat(m', rs[..i] + mid, rs[j..], lo, b, hi);
  }

  // ----- Walking the memory

  /** The region list a walk over `header->size` finds, from `a` up to `hi`. */
  ghost function Walk(m: seq<byte>, a: nat, hi: nat): seq<Region>
    requires hi <= |m|
    decreases hi - a
  {
    if a + TAGS > hi then []
    else
      var r := Region(a, Get32(m, a + 8), m[a + 4] == 1);
      if r.size < TAGS then [] else [r] + Walk(m, r.End(), hi)
  }

  /** The region list a walk over the footers' back pointers finds, from `b` down to `lo`. */
  ghost function WalkBack(m: seq<byte>, lo: nat, b: nat): seq<Region>
    requires b <= |m|
    decreases b
  {
    if b < lo + TAGS then []
    else
      var a := Get32(m, b - 4);
      if a + TAGS > b then [] else WalkBack(m, lo, a) + [Region(a, b - a, m[a + 4] == 1)]
  }

  /** The memory alone determines the regions: the walk steps exactly onto the end. */
  lemma {:induction false} WalkFindsRegions(m: seq<byte>, rs: seq<Region>, lo: nat, hi: nat)
    requires Laid(m, rs, lo, hi)
    ensures Walk(m, lo, hi) == rs
    decreases |rs|
  {
    hide Laid, Tagged, Walk;
    FirstLaid(m, rs, lo, hi);
    if rs != [] {
      WalkStep(m, rs[0], hi);
      WalkFindsRegions(m, rs[1..], rs[0].End(), hi);
      assert rs == [rs[0]] + rs[1..];
    }
  }

  lemma FirstLaid(m: seq<byte>, rs: seq<Region>, lo: nat, hi: nat)
    requires Laid(m, rs, lo, hi)
    ensures hi <= |m|
    ensures rs == [] ==> lo == hi && Walk(m, lo, hi) == []
    ensures rs != [] ==> rs[0].addr == lo && rs[0].End() <= hi && Tagged(m, rs[0]) && Laid(m, rs[1..], rs[0].End(), hi)
  {
    hide Tagged;
    if rs != [] {
      LaidSplit(m, rs, lo, hi, 1);
      Inside(rs, lo, hi, 0);
      if |rs| > 1 { assert rs[0].End() == rs[1].addr; }
    }
  }

  lemma WalkStep(m: seq<byte>, r: Region, hi: nat)
    requires Tagged(m, r) && r.End() <= hi <= |m|
    ensures Walk(m, r.addr, hi) == [r] + Walk(m, r.End(), hi)
  {
    hide Get32;
  }

  lemma WalkBackStep(m: seq<byte>, lo: nat, r: Region)
    requires Tagged(m, r) && lo <= r.addr
    ensures WalkBack(m, lo, r.End()) == WalkBack(m, lo, r.addr) + [r]
  {
  }

  lemma {:induction false} WalkBackFindsRegions(m: seq<byte>, rs: seq<Region>, lo: nat, hi: nat)
    requires Laid(m, rs, lo, hi)
    ensures WalkBack(m, lo, hi) == rs
    decreases |rs|
  {
    if rs != [] {
      var k := |rs| - 1;
      LaidSplit(m, rs, lo, hi, k);
      Inside(rs, lo, hi, k);
      WalkBackStep(m, lo, rs[k]);
      WalkBackFindsRegions(m, rs[..k], lo, rs[k].addr);
      assert rs == rs[..k] + [rs[k]];
    }
  }

  // ----- Holes, blocks and bytes

  /** No two holes stand side by side. */
  ghost predicate NoAdjacentHoles(rs: seq<Region>) {
    forall i, j :: 0 <= i < j < |rs| && j == i + 1 ==> !(rs[i].hole && rs[j].hole)
  }

  /** The allocated regions. */
  ghost function Blocks(rs: seq<Region>): set<Region> {
    set i | 0 <= i < |rs| && !rs[i].hole :: rs[i]
  }

  /** Total size of the regions that are holes (`hole`) or blocks (`!hole`). */
  ghost function Bytes(rs: seq<Region>, hole: bool): nat {
    if rs == [] then 0 else (if rs[0].hole == hole then rs[0].size else 0) + Bytes(rs[1..], hole)
  }

  /** Hole bytes and block bytes always add up to the heap's length. */
  lemma {:induction false} BytesAddUp(rs: seq<Region>, lo: nat, hi: nat)
    requires Tiles(rs, lo, hi)
    ensures Bytes(rs, true) + Bytes(rs, false) == hi - lo
    decreases |rs|
  {
    if rs != [] {
      TilesSplit(rs, lo, hi, 1);
      if |rs| > 1 { assert rs[0].End() == rs[1].addr; }
      BytesAddUp(rs[1..], rs[0].End(), hi);
    }
  }

  /** Distinct blocks have disjoint extents inside the heap. */
  lemma BlocksDisjoint(rs: seq<Region>, lo: nat, hi: nat, b: Region, c: Region)
    requires Tiles(rs, lo, hi) && b in rs && c in rs && b != c
    ensures b.End() <= c.addr || c.End() <= b.addr
    ensures lo <= b.addr && b.End() <= hi
  {
    var i :| 0 <= i < |rs| && rs[i] == b;
    var j :| 0 <= j < |rs| && rs[j] == c;
    Inside(rs, lo, hi, i);
    if i < j { assert rs[i].End() <= rs[j].addr; } else { assert rs[j].End() <= rs[i].addr; }
  }

  /** Two regions of one tiling that share an address are the same region. */
  lemma SameAddr(rs: seq<Region>, lo: nat, hi: nat, i: nat, j: nat)
    requires Tiles(rs, lo, hi) && i < |rs| && j < |rs|
    ensures rs[i].addr == rs[j].addr ==> i == j
  {
    if i < j { assert rs[i].End() <= rs[j].addr; }
    if j < i { assert rs[j].End() <= rs[i].addr; }
  }

  /**
    Canonical form: a tiling without adjacent holes is determined by its blocks
    and its two ends. So whenever the same blocks are live over the same heap, the
    region map is the same, whatever calls led there.
   */
  lemma {:induction false} CanonicalForm(p: seq<Region>, q: seq<Region>, lo: nat, hi: nat)
    requires Tiles(p, lo, hi) && Tiles(q, lo, hi)
    requires NoAdjacentHoles(p) && NoAdjacentHoles(q)
    requires Blocks(p) == Blocks(q)
    ensures p == q
    decreases |p|
  {
    hide Tiles, NoAdjacentHoles, Blocks;
    if p == [] || q == [] {
      EmptyTogether(p, q, lo, hi);
    } else {
      FirstRegionsAgree(p, q, lo, hi);
      TailOf(p, lo, hi);
      TailOf(q, lo, hi);
      CanonicalForm(p[1..], q[1..], p[0].End(), hi);
      assert p == [p[0]] + p[1..] && q == [q[0]] + q[1..];
    }
  }

  lemma EmptyTogether(p: seq<Region>, q: seq<Region>, lo: nat, hi: nat)
    requires Tiles(p, lo, hi) && Tiles(q, lo, hi) && (p == [] || q == [])
    ensures p == q
  {
    if p != [] { Inside(p, lo, hi, 0); }
    if q != [] { Inside(q, lo, hi, 0); }
  }

  lemma TailOf(p: seq<Region>, lo: nat, hi: nat)
    requires Tiles(p, lo, hi) && NoAdjacentHoles(p) && p != []
    ensures Tiles(p[1..], p[0].End(), hi) && NoAdjacentHoles(p[1..])
    ensures Blocks(p[1..]) == Blocks(p) - {p[0]}
  {
    TilesSplit(p, lo, hi, 1);
    if |p| > 1 { assert p[0].End() == p[1].addr; }
    TailBlocks(p, lo, hi);
  }

  lemma TailBlocks(p: seq<Region>, lo: nat, hi: nat)
    requires Tiles(p, lo, hi) && p != []
    ensures Blocks(p[1..]) == Blocks(p) - {p[0]}
  {
    var t := p[1..];
    forall r | r in Blocks(p) && r != p[0] ensures r in Blocks(t) {
      var i :| 0 <= i < |p| && !p[i].hole && p[i] == r;
      assert t[i - 1] == r;
    }
    forall r | r in Blocks(t) ensures r in Blocks(p) && r != p[0] {
      var i :| 0 <= i < |t| && !t[i].hole && t[i] == r;
      assert p[i + 1] == r;
      assert p[0].End() <= p[i + 1].addr;
    }
  }

  /** With the same blocks, the first region is the same on both sides. */
  lemma FirstRegionsAgree(p: seq<Region>, q: seq<Region>, lo: nat, hi: nat)
    requires Tiles(p, lo, hi) && Tiles(q, lo, hi) && p != [] && q != []
    requires NoAdjacentHoles(p) && NoAdjacentHoles(q) && Blocks(p) == Blocks(q)
    ensures p[0] == q[0]
  {
    if !p[0].hole {
      FirstBlockShared(p, q, lo, hi);
    } else if !q[0].hole {
      FirstBlockShared(q, p, lo, hi);
    } else {
      FirstHoleNotLonger(p, q, lo, hi);
      FirstHoleNotLonger(q, p, lo, hi);
    }
  }

  lemma FirstBlockShared(p: seq<Region>, q: seq<Region>, lo: nat, hi: nat)
    requires Tiles(p, lo, hi) && Tiles(q, lo, hi) && p != [] && q != []
    requires !p[0].hole && Blocks(p) == Blocks(q)
    ensures p[0] == q[0]
  {
    assert p[0] in Blocks(p);
    var j :| 0 <= j < |q| && !q[j].hole && q[j] == p[0];
    SameAddr(q, lo, hi, 0, j);
  }

  lemma FirstHoleNotLonger(p: seq<Region>, q: seq<Region>, lo: nat, hi: nat)
    requires Tiles(p, lo, hi) && Tiles(q, lo, hi) && p != [] && q != []
    requires p[0].hole && q[0].hole && NoAdjacentHoles(p) && Blocks(p) == Blocks(q)
    ensures q[0].End() <= p[0].End()
  {
    if |p| == 1 {
      Inside(q, lo, hi, 0);
    } else {
      assert p[0].End() == p[1].addr && !p[1].hole;
      assert p[1] in Blocks(p);
      var j :| 0 <= j < |q| && !q[j].hole && q[j] == p[1];
      assert q[0].End() <= q[j].addr;
    }
  }
}
