/**
  The four moves of the kernel heap on its region map: carving a block out of a
  hole, growing the end, merging a freed block with its neighbours, and trimming a
  hole at the end. Each keeps the map laid out, free of adjacent holes and indexed,
  and leaves the bytes of every other block alone.
 */
module HeapMoves {
  import opened Words
  import opened Regions
  import opened OrderedArrays
  import opened HeapState

  // ----- Sizes

  /** Strictly up to the next page boundary, as expand and contract round. */
  function NextPage(n: nat): (m: nat)
    ensures m % PAGE_SIZE == 0 && m - PAGE_SIZE <= n < m
  {
    n / PAGE_SIZE * PAGE_SIZE + PAGE_SIZE
  }

  predicate PageBoundary(a: nat) { a % PAGE_SIZE == 0 }

  /** It is the first boundary behind `n`, from any boundary `start` on: a bound leaves room for it or for none. */
  lemma FirstBoundaryBehind(start: nat, n: nat, bound: nat)
    requires start % PAGE_SIZE == 0
    ensures bound < start + NextPage(n) <==> forall a: nat :: PageBoundary(a) && start + n < a ==> bound < a
  {
    assert PageBoundary(start + NextPage(n));
    forall a: nat | PageBoundary(a) && start + n < a ensures start + NextPage(n) <= a {
      BoundariesApart(start + NextPage(n), a);
    }
  }

  lemma BoundariesApart(a: nat, b: nat)
    requires a % PAGE_SIZE == 0 && b % PAGE_SIZE == 0 && a - PAGE_SIZE < b
    ensures a <= b
  {
  }

  /** How far one expansion for a request of `newSize` bytes, tags included, moves the end. */
  function Growth(newSize: nat): nat { NextPage(newSize) }

  lemma GrowthIsExpansion(length: nat, newSize: nat)
    requires length % PAGE_SIZE == 0
    ensures NextPage(length + newSize) == length + Growth(newSize)
    ensures newSize < Growth(newSize) && Growth(newSize) % PAGE_SIZE == 0
  {
  }

  /** The payload behind a header at `x` starts on a page boundary. */
  predicate PayloadAligned(x: nat) { (x + HEADER) % PAGE_SIZE == 0 }

  /** Distance from a header to the first one behind whose payload is page-aligned: 0, or room for a hole. */
  function AlignGap(a: nat): (gap: nat)
    ensures (a + gap + HEADER) % PAGE_SIZE == 0
    ensures gap == 0 || TAGS <= gap
    ensures gap < PAGE_SIZE + TAGS
    ensures forall x: nat :: PayloadAligned(x) && (x == a || a + TAGS <= x) ==> a + gap <= x
  {
    var offset := (PAGE_SIZE - (a + HEADER) % PAGE_SIZE) % PAGE_SIZE;
    OnlyAlignedEvery(a, offset);
    if 0 < offset < TAGS then offset + PAGE_SIZE else offset
  }

  /** From `a` on, payloads are aligned at `offset` first, and then a page further. */
  lemma OnlyAlignedEvery(a: nat, offset: nat)
    requires offset == (PAGE_SIZE - (a + HEADER) % PAGE_SIZE) % PAGE_SIZE
    ensures forall x: nat :: PayloadAligned(x) && a <= x ==> x == a + offset || a + offset + PAGE_SIZE <= x
  {
    forall x: nat | PayloadAligned(x) && a <= x ensures x == a + offset || a + offset + PAGE_SIZE <= x {
      assert (a + offset + HEADER) % PAGE_SIZE == 0;
    }
  }

  function Gap(a: nat, pageAlign: bool): nat { if pageAlign then AlignGap(a) else 0 }

  predicate Fits(h: Region, newSize: nat, pageAlign: bool) {
    h.hole && Gap(h.addr, pageAlign) + newSize <= h.size
  }

  /** Region `i` is a hole that fits, and no hole that fits is smaller. */
  ghost predicate BestFit(rs: seq<Region>, i: nat, newSize: nat, pageAlign: bool) {
    && i < |rs| && Fits(rs[i], newSize, pageAlign)
    && forall j :: 0 <= j < |rs| && Fits(rs[j], newSize, pageAlign) ==> rs[i].size <= rs[j].size
  }

  ghost predicate NoFit(rs: seq<Region>, newSize: nat, pageAlign: bool) {
    forall j :: 0 <= j < |rs| ==> !Fits(rs[j], newSize, pageAlign)
  }

  // ----- Searching the index

  /** No region that fits has its address among the first k entries. */
  ghost predicate NoneBefore(rs: seq<Region>, index: seq<nat>, k: nat, newSize: nat, pageAlign: bool)
    requires k <= |index|
  {
    forall q :: 0 <= q < |rs| && Fits(rs[q], newSize, pageAlign) ==> rs[q].addr !in index[..k]
  }

  /** Of the entries of the index that fit, the first one is that of region `i`. */
  ghost predicate FirstEntry(rs: seq<Region>, index: seq<nat>, i: nat, newSize: nat, pageAlign: bool) {
    i < |rs| && exists k: nat :: k < |index| && index[k] == rs[i].addr && NoneBefore(rs, index, k, newSize, pageAlign)
  }

  lemma NoneBeforeFirst(rs: seq<Region>, index: seq<nat>, newSize: nat, pageAlign: bool)
    ensures NoneBefore(rs, index, 0, newSize, pageAlign)
  {
  }

  /** Entry `k` of the index is the address of a hole, whose header tells its size. */
  lemma IndexedRegion(m: seq<byte>, rs: seq<Region>, lo: nat, hi: nat, index: seq<nat>, k: nat) returns (q: nat)
    requires Laid(m, rs, lo, hi) && Indexed(m, rs, index, {}) && k < |index|
    ensures q < |rs| && rs[q].hole && rs[q].addr == index[k]
    ensures index[k] + HEADER <= |m| && Get32(m, index[k] + 8) == rs[q].size == SizeAt(m, index[k])
  {
    hide Get32, Tiles, Sorted;
    assert index[k] in multiset(index);
    var r :| r in Holes(rs, {}) && r.addr == index[k];
    q :| 0 <= q < |rs| && rs[q] == r;
    assert Tagged(m, rs[q]);
  }

  /** Every hole has its entry. */
  lemma EntryOf(m: seq<byte>, rs: seq<Region>, index: seq<nat>, q: nat) returns (k: nat)
    requires Indexed(m, rs, index, {}) && q < |rs| && rs[q].hole
    ensures k < |index| && index[k] == rs[q].addr
  {
    assert rs[q] in Holes(rs, {}) && rs[q].addr in HoleAddrs(rs, {});
    assert rs[q].addr in multiset(index);
    k :| 0 <= k < |index| && index[k] == rs[q].addr;
  }

  /** Every settled hole has its entry. */
  lemma HoleHasEntry(m: seq<byte>, rs: seq<Region>, index: seq<nat>, pending: set<nat>, q: nat)
    requires Indexed(m, rs, index, pending) && q < |rs| && rs[q].hole && rs[q].addr !in pending
    ensures rs[q].addr in index
  {
    assert rs[q] in Holes(rs, pending) && rs[q].addr in HoleAddrs(rs, pending);
    assert rs[q].addr in multiset(index);
  }

  /** The first entry that fits belongs to the smallest hole that fits. */
  lemma FirstFitIsBest(m: seq<byte>, rs: seq<Region>, lo: nat, hi: nat, index: seq<nat>, k: nat, q: nat, newSize: nat, pageAlign: bool)
    requires Laid(m, rs, lo, hi) && Indexed(m, rs, index, {}) && k < |index|
    requires NoneBefore(rs, index, k, newSize, pageAlign)
    requires q < |rs| && rs[q].addr == index[k] && Fits(rs[q], newSize, pageAlign) && rs[q].size == SizeAt(m, index[k])
    ensures BestFit(rs, q, newSize, pageAlign)
  {
    forall p | 0 <= p < |rs| && Fits(rs[p], newSize, pageAlign) ensures rs[q].size <= rs[p].size {
      var j := EntryOf(m, rs, index, p);
      forall i | 0 <= i < k ensures index[i] != rs[p].addr {
        assert index[..k][i] == index[i];
      }
      assert Tagged(m, rs[p]) && SizeAt(m, index[j]) == rs[p].size;
      if k < j { assert !Smaller(m)(index[j], index[k]); }
    }
  }

  lemma NoFitAtAll(m: seq<byte>, rs: seq<Region>, index: seq<nat>, newSize: nat, pageAlign: bool)
    requires Indexed(m, rs, index, {}) && NoneBefore(rs, index, |index|, newSize, pageAlign)
    ensures NoFit(rs, newSize, pageAlign)
  {
    forall q | 0 <= q < |rs| ensures !Fits(rs[q], newSize, pageAlign) {
      if rs[q].hole {
        var k := EntryOf(m, rs, index, q);
        assert index[..|index|] == index;
      }
    }
  }

  lemma NotThisOne(rs: seq<Region>, lo: nat, hi: nat, index: seq<nat>, k: nat, q: nat, newSize: nat, pageAlign: bool)
    requires Tiles(rs, lo, hi) && k < |index| && NoneBefore(rs, index, k, newSize, pageAlign)
    requires q < |rs| && rs[q].addr == index[k] && !Fits(rs[q], newSize, pageAlign)
    ensures NoneBefore(rs, index, k + 1, newSize, pageAlign)
  {
    assert index[..k + 1] == index[..k] + [index[k]];
    forall p | 0 <= p < |rs| && Fits(rs[p], newSize, pageAlign) ensures rs[p].addr !in index[..k + 1] {
      SameAddr(rs, lo, hi, p, q);
    }
  }

  // ----- Carving

  /** The block's whole size: a remainder too small for a hole goes to the block. */
  function BlockSize(room: nat, newSize: nat): nat
    requires newSize <= room
  {
    if room - newSize < TAGS then room else newSize
  }

  /** The block a request gets out of a hole that fits. */
  function BlockIn(h: Region, newSize: nat, pageAlign: bool): Region
    requires Fits(h, newSize, pageAlign)
  {
    var gap := Gap(h.addr, pageAlign);
    Region(h.addr + gap, BlockSize(h.size - gap, newSize), false)
  }

  /** A block of `newSize` bytes can start at `x` in the hole: aligned as asked, and with room for a hole in front, or none. */
  predicate CanStart(h: Region, newSize: nat, pageAlign: bool, x: nat) {
    && (x == h.addr || h.addr + TAGS <= x) && x + newSize <= h.End()
    && (pageAlign ==> PayloadAligned(x))
  }

  /** A hole fits exactly when a block can start somewhere in it. */
  lemma FitsIff(h: Region, newSize: nat, pageAlign: bool)
    ensures Fits(h, newSize, pageAlign) <==> h.hole && exists x: nat :: CanStart(h, newSize, pageAlign, x)
  {
    hide AlignGap;
    if Fits(h, newSize, pageAlign) {
      assert CanStart(h, newSize, pageAlign, h.addr + Gap(h.addr, pageAlign));
    }
  }

  /**
    A request can be carved, and the block serves it: it starts at the first address where it
    can, and is exactly as long as asked, unless what is left is too small for a hole; then it
    takes that as well.
   */
  lemma RequestServed(h: Region, newSize: nat, pageAlign: bool)
    requires Fits(h, newSize, pageAlign) && TAGS <= newSize
    ensures var b := BlockIn(h, newSize, pageAlign);
      && Carvable(h, Gap(h.addr, pageAlign), b.size)
      && newSize <= b.size < newSize + TAGS && h.addr <= b.addr && b.End() <= h.End()
      && (newSize < b.size ==> b.End() == h.End())
      && (pageAlign ==> b.Payload() % PAGE_SIZE == 0)
      && CanStart(h, newSize, pageAlign, b.addr) && forall x: nat :: CanStart(h, newSize, pageAlign, x) ==> b.addr <= x
  {
    hide AlignGap;
  }

  /** The regions a hole becomes: a hole in front, the block, a hole behind. */
  function Pieces(h: Region, gap: nat, size: nat): seq<Region>
    requires gap + size <= h.size
  {
    (if gap > 0 then [Region(h.addr, gap, true)] else [])
    + [Region(h.addr + gap, size, false)]
    + (if gap + size < h.size then [Region(h.addr + gap + size, h.size - gap - size, true)] else [])
  }

  ghost predicate Carvable(h: Region, gap: nat, size: nat) {
    && h.hole && (gap == 0 || TAGS <= gap) && TAGS <= size && gap + size <= h.size
    && (gap + size == h.size || gap + size + TAGS <= h.size)
  }

  function HolesOf(rs: seq<Region>): set<nat> { set r | r in rs && r.hole :: r.addr }

  /** The map once block `b` has been carved out of hole `i`. */
  ghost function Carved(rs: seq<Region>, i: nat, b: Region): seq<Region>
    requires i < |rs| && rs[i].addr <= b.addr && b.End() <= rs[i].End()
  {
    Replace(rs, i, i + 1, Pieces(rs[i], b.addr - rs[i].addr, b.size))
  }

  lemma CarvedIs(rs: seq<Region>, i: nat, gap: nat, b: Region)
    requires i < |rs| && b.addr == rs[i].addr + gap && gap + b.size <= rs[i].size
    ensures Carved(rs, i, b) == Replace(rs, i, i + 1, Pieces(rs[i], gap, b.size))
  {
  }

  lemma PiecesTile(h: Region, gap: nat, ps: seq<Region>, b: Region)
    requires Carvable(h, gap, b.size) && ps == Pieces(h, gap, b.size)
    requires b.addr == h.addr + gap && !b.hole
    ensures h.hole && h.addr <= b.addr < h.End()
    ensures Tiles(ps, h.addr, h.End()) && NoAdjacentHoles(ps) && ps != []
    ensures Blocks(ps) == {b}
    ensures forall a :: a in HolesOf(ps) ==> h.addr <= a < h.End()
  {
    hide Blocks;
    PiecesBlocks(h, gap, ps, b);
  }

  lemma PiecesBlocks(h: Region, gap: nat, ps: seq<Region>, b: Region)
    requires gap + b.size <= h.size && ps == Pieces(h, gap, b.size)
    requires b.addr == h.addr + gap && !b.hole
    ensures Blocks(ps) == {b}
  {
    assert ps[if gap > 0 then 1 else 0] == b;
  }

  /** The blocks of `rs'` are those of `rs` and the new block `b`. */
  ghost predicate BlockAdded(rs: seq<Region>, rs': seq<Region>, b: Region) {
    Blocks(rs') == Blocks(rs) + {b} && b !in Blocks(rs)
  }

  /** What carving does to the whole heap. */
  lemma Carve(m: seq<byte>, m': seq<byte>, rs: seq<Region>, lo: nat, hi: nat, index: seq<nat>, i: nat, gap: nat, ps: seq<Region>, b: Region)
    requires Laid(m, rs, lo, hi) && NoAdjacentHoles(rs)
    requires i < |rs| && Carvable(rs[i], gap, b.size) && Indexed(m, rs, index, {rs[i].addr})
    requires b.addr == rs[i].addr + gap && !b.hole
    requires ps == Pieces(rs[i], gap, b.size) && Writable(m, ps) && m' == PutRegions(m, ps)
    ensures Laid(m', Replace(rs, i, i + 1, ps), lo, hi) && NoAdjacentHoles(Replace(rs, i, i + 1, ps))
    ensures Indexed(m', Replace(rs, i, i + 1, ps), index, HolesOf(ps))
    ensures BlockAdded(rs, Replace(rs, i, i + 1, ps), b)
    ensures BytesKept(m, m', Blocks(rs))
  {
    hide *;
    var h := rs[i];
    LaidTiles(m, rs, lo, hi);
    CutAfter(rs, lo, hi, i);
    PiecesTile(h, gap, ps, b);
    PutRegionsLays(m, ps, h.addr, h.End());
    LaidReplace(m, m', rs, lo, hi, i, i + 1, ps);
    NoAdjacentCarved(rs, i, ps);
    CarveIndex(m, m', rs, lo, hi, index, i, ps);
    CarveBlocks(m, m', rs, lo, hi, i, ps, b);
  }

  lemma LaidTiles(m: seq<byte>, rs: seq<Region>, lo: nat, hi: nat)
    requires Laid(m, rs, lo, hi)
    ensures Tiles(rs, lo, hi) && hi <= |m|
  {
  }

  lemma CutAfter(rs: seq<Region>, lo: nat, hi: nat, i: nat)
    requires Tiles(rs, lo, hi) && i < |rs|
    ensures CutAt(rs, hi, i) == rs[i].addr && CutAt(rs, hi, i + 1) == rs[i].End()
    ensures lo <= rs[i].addr && rs[i].End() <= hi
  {
    Inside(rs, lo, hi, i);
    if i + 1 < |rs| { assert rs[i].End() == rs[i + 1].addr; }
  }

  lemma CarveIndex(m: seq<byte>, m': seq<byte>, rs: seq<Region>, lo: nat, hi: nat, index: seq<nat>, i: nat, ps: seq<Region>)
    requires Laid(m, rs, lo, hi) && i < |rs| && Indexed(m, rs, index, {rs[i].addr})
    requires Laid(m', Replace(rs, i, i + 1, ps), lo, hi)
    requires forall a :: a in HolesOf(ps) ==> rs[i].addr <= a < rs[i].End()
    ensures Indexed(m', Replace(rs, i, i + 1, ps), index, HolesOf(ps))
  {
    CutAfter(rs, lo, hi, i);
    assert rs[i..i + 1] == [rs[i]];
    assert forall r :: r in ps && r.hole ==> r.addr in HolesOf(ps);
    HolesReplace(rs, lo, hi, i, i + 1, ps, {rs[i].addr}, HolesOf(ps));
    IndexMoves(m, rs, lo, hi, {rs[i].addr}, m', Replace(rs, i, i + 1, ps), hi, HolesOf(ps), index);
  }

  lemma CarveBlocks(m: seq<byte>, m': seq<byte>, rs: seq<Region>, lo: nat, hi: nat, i: nat, ps: seq<Region>, b: Region)
    requires Tiles(rs, lo, hi) && i < |rs| && rs[i].hole && SameOutside(m, m', rs[i].addr, rs[i].End())
    requires Blocks(ps) == {b} && rs[i].addr <= b.addr < rs[i].End()
    ensures BlockAdded(rs, Replace(rs, i, i + 1, ps), b)
    ensures BytesKept(m, m', Blocks(rs))
  {
    CutAfter(rs, lo, hi, i);
    BlocksReplace(rs, i, i + 1, ps);
    assert rs[i..i + 1] == [rs[i]] && Blocks([rs[i]]) == {};
    OthersKept(m, m', rs, lo, hi, i, i + 1);
    InFront(rs, lo, hi, i);
    Behind(rs, lo, hi, i + 1);
  }

  /** The holes in front of and behind the block. */
  function FrontHole(h: Region, gap: nat): Region { Region(h.addr, gap, true) }

  function BackHole(h: Region, gap: nat, size: nat): Region
    requires gap + size <= h.size
  {
    Region(h.addr + gap + size, h.size - gap - size, true)
  }

  lemma PiecesAre(h: Region, gap: nat, size: nat)
    requires gap + size <= h.size
    ensures Pieces(h, gap, size) ==
      (if gap > 0 then [] + [FrontHole(h, gap)] else []) + [Region(h.addr + gap, size, false)]
      + (if gap + size < h.size then [BackHole(h, gap, size)] else [])
  {
  }

  lemma PiecesHoles(h: Region, gap: nat, size: nat)
    requires Carvable(h, gap, size)
    ensures HolesOf(Pieces(h, gap, size)) ==
      (if gap > 0 then {FrontHole(h, gap).addr} else {}) + (if gap + size < h.size then {BackHole(h, gap, size).addr} else {})
    ensures gap > 0 ==> FrontHole(h, gap) in Pieces(h, gap, size)
    ensures gap + size < h.size ==> BackHole(h, gap, size) in Pieces(h, gap, size)
    ensures FrontHole(h, gap).addr != BackHole(h, gap, size).addr
  {
    var ps := Pieces(h, gap, size);
    if gap > 0 { assert ps[0] == FrontHole(h, gap); }
    if gap + size < h.size { assert ps[|ps| - 1] == BackHole(h, gap, size); }
  }

  lemma NothingPut(m: seq<byte>)
    requires |m| < TWO_TO_THE_32
    ensures Writable(m, []) && PutRegions(m, []) == m
  {
  }

  lemma PutOneMore(m: seq<byte>, rs: seq<Region>, r: Region)
    requires Writable(m, rs) && TAGS <= r.size && r.End() <= |m|
    ensures Writable(m, rs + [r]) && PutRegions(m, rs + [r]) == PutRegion(PutRegions(m, rs), r)
  {
    assert (rs + [r])[..|rs|] == rs;
  }

  lemma PiecesEntered(rs: seq<Region>, i: nat, ps: seq<Region>)
    requires i < |rs|
    ensures forall r :: r in ps ==> r in Replace(rs, i, i + 1, ps)
  {
  }

  // ----- The first hole

  lemma FirstHole(m: seq<byte>, r: Region)
    requires r.hole && TAGS <= r.size && r.End() <= |m| < TWO_TO_THE_32
    ensures var m' := PutRegion(m, r);
      && Laid(m', [r], r.addr, r.End()) && NoAdjacentHoles([r])
      && Indexed(m', [r], Inserted([], r.addr, Smaller(m')), {})
  {
    PutRegionTags(m, r);
    assert Holes([r], {}) == {r};
    assert HoleAddrs([r], {}) == {r.addr};
    assert Inserted([], r.addr, Smaller(PutRegion(m, r))) == [r.addr];
  }

  // ----- Growing and trimming the end

  /**
    The hole that ends the heap, or a new one behind a last block, is made to end at
    `hi'` instead.
   */
  lemma Retail(m: seq<byte>, m': seq<byte>, rs: seq<Region>, lo: nat, hi: nat, index: seq<nat>, i: nat, pending: set<nat>, x: Region)
    requires Laid(m, rs, lo, hi) && NoAdjacentHoles(rs) && Indexed(m, rs, index, pending)
    requires i <= |rs| && AtEnd(rs, i, pending)
    requires x.hole && x.addr == CutAt(rs, hi, i) && Tagged(m', x)
    requires |m| == |m'| && SameIn(m, m', lo, x.addr)
    ensures Laid(m', Replace(rs, i, |rs|, [x]), lo, x.End()) && NoAdjacentHoles(Replace(rs, i, |rs|, [x]))
    ensures Indexed(m', Replace(rs, i, |rs|, [x]), index, {x.addr})
    ensures Blocks(Replace(rs, i, |rs|, [x])) == Blocks(rs) && BytesKept(m, m', Blocks(rs))
  {
    hide *;
    LaidTiles(m, rs, lo, hi);
    RetailLaid(m, m', rs, lo, hi, i, x);
    RetailHoles(rs, lo, hi, i, pending, x);
    IndexMoves(m, rs, lo, hi, pending, m', Replace(rs, i, |rs|, [x]), x.End(), {x.addr}, index);
    RetailBlocks(m, m', rs, lo, hi, i, pending, x);
  }

  /** Piece `i` is the last one, a hole still to be indexed, or comes behind a last block. */
  ghost predicate AtEnd(rs: seq<Region>, i: nat, pending: set<nat>)
    requires i <= |rs|
  {
    if i == |rs| then rs != [] && !rs[i - 1].hole && pending == {}
    else i == |rs| - 1 && rs[i].hole && pending == {rs[i].addr}
  }

  /** The number of the region that ends the heap if it is a hole, and of the next one if not. */
  function TailNumber(rs: seq<Region>): nat {
    if rs != [] && rs[|rs| - 1].hole then |rs| - 1 else |rs|
  }

  /** The regions once the end of the heap has moved from `hi` to `hi'`. */
  ghost function Retailed(rs: seq<Region>, hi: nat, hi': nat): seq<Region>
    requires CutAt(rs, hi, TailNumber(rs)) <= hi'
  {
    var a := CutAt(rs, hi, TailNumber(rs));
    Replace(rs, TailNumber(rs), |rs|, [Region(a, hi' - a, true)])
  }

  /** The region map with its end moved from `hi` to `hi'`, if it moved at all. */
  ghost function Extended(rs: seq<Region>, hi: nat, hi': nat): seq<Region>
    requires hi <= hi' && CutAt(rs, hi, TailNumber(rs)) <= hi
  {
    if hi == hi' then rs else Retailed(rs, hi, hi')
  }

  /** Where the room at the end of the heap starts. */
  ghost function TailStart(rs: seq<Region>, hi: nat): nat { CutAt(rs, hi, TailNumber(rs)) }

  lemma TailStartInside(rs: seq<Region>, lo: nat, hi: nat)
    requires Tiles(rs, lo, hi)
    ensures lo <= TailStart(rs, hi) <= hi
  {
    if TailNumber(rs) < |rs| { Inside(rs, lo, hi, |rs| - 1); }
  }

  /** Growing in several steps is growing once; the last hole keeps its address. */
  lemma ExtendedTwice(rs: seq<Region>, lo: nat, hi: nat, hi': nat, hi'': nat)
    requires Tiles(rs, lo, hi) && hi < hi' <= hi'' && TailStart(rs, hi) <= hi
    ensures var rs' := Retailed(rs, hi, hi');
      && rs' != [] && rs'[|rs'| - 1].hole && TailNumber(rs') == |rs'| - 1
      && TailStart(rs', hi') == TailStart(rs, hi)
      && Extended(rs', hi', hi'') == Extended(rs, hi, hi'')
  {
    var rs' := Retailed(rs, hi, hi');
    var a, n := TailStart(rs, hi), TailNumber(rs);
    assert rs' == rs[..n] + [Region(a, hi' - a, true)];
    if hi' < hi'' {
      assert Retailed(rs', hi', hi'') == rs'[..n] + [Region(a, hi'' - a, true)];
    }
  }

  /** The request fits behind the last block once the end has moved on `k` times. */
  ghost predicate Certain(rs: seq<Region>, hi: nat, newSize: nat, pageAlign: bool, k: nat)
    requires TailStart(rs, hi) <= hi
  {
    Gap(TailStart(rs, hi), pageAlign) + newSize <= hi - TailStart(rs, hi) + k * Growth(newSize)
  }

  /** One growth is enough for any plain request, two for any page-aligned one. */
  lemma GrowthsEnough(rs: seq<Region>, lo: nat, hi: nat, newSize: nat, pageAlign: bool)
    requires Tiles(rs, lo, hi) && hi % PAGE_SIZE == 0
    ensures TailStart(rs, hi) <= hi && Certain(rs, hi, newSize, pageAlign, if pageAlign then 2 else 1)
  {
    TailStartInside(rs, lo, hi);
    var a := TailStart(rs, hi);
    if TailNumber(rs) < |rs| { assert TAGS <= rs[|rs| - 1].size; }
    GapBound(a, hi);
  }

  lemma GapBound(a: nat, hi: nat)
    requires hi % PAGE_SIZE == 0 && (a == hi || a + TAGS <= hi)
    ensures AlignGap(a) <= hi - a + PAGE_SIZE - HEADER
  {
    var offset := (PAGE_SIZE - (a + HEADER) % PAGE_SIZE) % PAGE_SIZE;
    assert (a + HEADER + offset) % PAGE_SIZE == 0;
  }

  /** Each growth brings the request one growth nearer to fitting. */
  lemma CertainNearer(rs: seq<Region>, lo: nat, hi: nat, newSize: nat, pageAlign: bool, k: nat)
    requires Tiles(rs, lo, hi) && TailStart(rs, hi) <= hi && 0 < k && Certain(rs, hi, newSize, pageAlign, k)
    ensures var hi' := hi + Growth(newSize);
            && var rs' := Retailed(rs, hi, hi');
            && TailStart(rs', hi') <= hi' && Certain(rs', hi', newSize, pageAlign, k - 1) && TailNumber(rs') < |rs'|
  {
    hide Gap, Retailed, TailStart;
    ExtendedTwice(rs, lo, hi, hi + Growth(newSize), hi + Growth(newSize));
    assert k * Growth(newSize) == (k - 1) * Growth(newSize) + Growth(newSize);
  }

  /** With its end at `hi'` the heap has no hole that fits either. */
  ghost predicate StillNoFit(rs: seq<Region>, hi: nat, hi': int, newSize: nat, pageAlign: bool) {
    TailStart(rs, hi) <= hi <= hi' && NoFit(Extended(rs, hi, hi'), newSize, pageAlign)
  }

  /** With nothing left to wait for, the last hole itself fits. */
  lemma CertainFits(rs: seq<Region>, lo: nat, hi: nat, newSize: nat, pageAlign: bool)
    requires Tiles(rs, lo, hi) && TailStart(rs, hi) <= hi && Certain(rs, hi, newSize, pageAlign, 0) && 0 < newSize
    ensures !NoFit(rs, newSize, pageAlign)
  {
    assert TailNumber(rs) < |rs|;
    assert Fits(rs[|rs| - 1], newSize, pageAlign);
  }

  /**
    What a call of alloc did to the map `rs` that ended at `hi`: the end moved on
    `grown` times, where once less would not have done, then block `b` was carved out
    of the smallest hole `at` that fits, and nothing else changed.
   */
  ghost predicate Served(rs: seq<Region>, hi: nat, rs': seq<Region>, hi': nat,
                         newSize: nat, pageAlign: bool, grown: nat, at: nat, b: Region)
  {
    && hi <= hi' == hi + grown * Growth(newSize) && TailStart(rs, hi) <= hi
    && (grown > 0 ==> NoFit(rs, newSize, pageAlign) && StillNoFit(rs, hi, hi' - Growth(newSize), newSize, pageAlign))
    && var now := Extended(rs, hi, hi');
      BestFit(now, at, newSize, pageAlign) && b == BlockIn(now[at], newSize, pageAlign) && rs' == Carved(now, at, b)
  }

  /** What a refused call of alloc did: at most the end moved on, and still nothing fits. */
  ghost predicate Refused(rs: seq<Region>, hi: nat, rs': seq<Region>, hi': nat, newSize: nat, pageAlign: bool, grown: nat) {
    && hi <= hi' == hi + grown * Growth(newSize) && TailStart(rs, hi) <= hi
    && rs' == Extended(rs, hi, hi') && NoFit(rs', newSize, pageAlign)
  }

  lemma ServedLater(rs: seq<Region>, lo: nat, hi: nat, rs1: seq<Region>, hi1: nat, rs': seq<Region>, hi': nat,
                    newSize: nat, pageAlign: bool, grown: nat, at: nat, b: Region)
    requires Tiles(rs, lo, hi) && NoFit(rs, newSize, pageAlign) && TailStart(rs, hi) <= hi
    requires hi1 == hi + Growth(newSize) && rs1 == Retailed(rs, hi, hi1)
    requires Served(rs1, hi1, rs', hi', newSize, pageAlign, grown, at, b)
    ensures Served(rs, hi, rs', hi', newSize, pageAlign, grown + 1, at, b)
  {
    hide Tiles, NoFit, BestFit, BlockIn, Carved, TailStart, Retailed, Growth, StillNoFit;
    GrowthIsExpansion(0, newSize);
    ExtendedTwice(rs, lo, hi, hi1, hi');
    StillLater(rs, lo, hi, hi1, hi' - Growth(newSize), newSize, pageAlign);
    assert (grown + 1) * Growth(newSize) == grown * Growth(newSize) + Growth(newSize);
  }

  lemma StillLater(rs: seq<Region>, lo: nat, hi: nat, hi1: nat, hi': nat, newSize: nat, pageAlign: bool)
    requires Tiles(rs, lo, hi) && NoFit(rs, newSize, pageAlign) && TailStart(rs, hi) <= hi < hi1
    requires hi' == hi || StillNoFit(Retailed(rs, hi, hi1), hi1, hi', newSize, pageAlign)
    ensures StillNoFit(rs, hi, hi', newSize, pageAlign)
  {
    hide Tiles, NoFit, TailStart, Retailed;
    if hi' != hi { ExtendedTwice(rs, lo, hi, hi1, hi'); }
  }

  lemma RefusedLater(rs: seq<Region>, lo: nat, hi: nat, rs1: seq<Region>, hi1: nat, rs': seq<Region>, hi': nat,
                     newSize: nat, pageAlign: bool, grown: nat)
    requires Tiles(rs, lo, hi) && TailStart(rs, hi) <= hi
    requires hi1 == hi + Growth(newSize) && rs1 == Retailed(rs, hi, hi1)
    requires Refused(rs1, hi1, rs', hi', newSize, pageAlign, grown)
    ensures Refused(rs, hi, rs', hi', newSize, pageAlign, grown + 1)
  {
    ExtendedTwice(rs, lo, hi, hi1, hi');
  }

  lemma RefusedAtOnce(rs: seq<Region>, hi: nat, newSize: nat, pageAlign: bool)
    requires TailStart(rs, hi) <= hi && NoFit(rs, newSize, pageAlign)
    ensures Refused(rs, hi, rs, hi, newSize, pageAlign, 0)
  {
  }

  /** The endmost header of the index ends the heap exactly when the last region is a hole. */
  lemma EndmostHole(m: seq<byte>, rs: seq<Region>, lo: nat, hi: nat, index: seq<nat>, idx: int, value: nat)
    requires Laid(m, rs, lo, hi) && Indexed(m, rs, index, {}) && 0 < lo && rs != []
    requires -1 <= idx < |index| && (idx == -1 ==> value == 0) && (idx >= 0 ==> value == index[idx])
    requires forall k :: 0 <= k < |index| ==> index[k] <= value
    ensures rs[|rs| - 1].hole <==> idx >= 0 && value + SizeAt(m, value) == hi
    ensures rs[|rs| - 1].hole ==> value == rs[|rs| - 1].addr
  {
    var n := |rs| - 1;
    Inside(rs, lo, hi, n);
    if rs[n].hole {
      var k := EntryOf(m, rs, index, n);
    }
    if idx >= 0 {
      var q := IndexedRegion(m, rs, lo, hi, index, idx);
      assert q < n ==> rs[q].End() <= rs[n].addr;
      assert Tagged(m, rs[n]);
    }
  }

  lemma LastRegion(rs: seq<Region>, lo: nat, hi: nat)
    requires Tiles(rs, lo, hi) && lo < hi
    ensures rs != [] && rs[|rs| - 1].End() == hi && TAGS <= rs[|rs| - 1].size
  {
  }

  lemma LastTagged(m: seq<byte>, rs: seq<Region>, lo: nat, hi: nat)
    requires Laid(m, rs, lo, hi) && rs != []
    ensures Tagged(m, rs[|rs| - 1]) && rs[|rs| - 1].End() == hi && TAGS <= rs[|rs| - 1].size
  {
  }

  /** The stores that make the last hole end at `hi'`. */
  lemma GrowTags(m: seq<byte>, m': seq<byte>, rs: seq<Region>, lo: nat, hi: nat, h: Region, x: Region)
    requires Laid(m, rs, lo, hi) && rs != [] && h == rs[|rs| - 1] && h.hole && |m| < TWO_TO_THE_32
    requires x.addr == h.addr && x.hole && TAGS <= x.size && x.End() <= |m|
    requires m' == PutFooter(Put32(m, h.addr + 8, x.size), h.addr + x.size - FOOTER, h.addr)
    ensures Tagged(m', x) && SameIn(m, m', lo, x.addr)
  {
    hide Put32, PutFooter, Get32, Tagged, Laid, Tiles;
    LastTagged(m, rs, lo, hi);
    ResizedTags(m, h, x.size);
    assert x == Region(h.addr, x.size, true);
  }

  /** Entering a hole that was pending. */
  lemma Enter(m: seq<byte>, rs: seq<Region>, lo: nat, hi: nat, index: seq<nat>, pending: set<nat>, x: Region)
    requires Laid(m, rs, lo, hi) && Indexed(m, rs, index, pending) && x in rs && x.hole && x.addr in pending
    ensures Indexed(m, rs, Inserted(index, x.addr, Smaller(m)), pending - {x.addr})
  {
    var q :| 0 <= q < |rs| && rs[q] == x;
    forall r | r in rs && r.addr == x.addr ensures r == x {
      var p :| 0 <= p < |rs| && rs[p] == r;
      SameAddr(rs, lo, hi, p, q);
    }
    IndexInsert(m, rs, index, pending, x);
  }

  /** Growing the hole at the end of the heap, or adding one there: from the store to the index. */
  lemma Regrown(m: seq<byte>, m': seq<byte>, rs: seq<Region>, lo: nat, hi: nat, index: seq<nat>, pending: set<nat>, x: Region)
    requires Laid(m, rs, lo, hi) && NoAdjacentHoles(rs) && Indexed(m, rs, index, pending) && rs != []
    requires pending == if rs[|rs| - 1].hole then {rs[|rs| - 1].addr} else {}
    requires x.hole && x.addr == CutAt(rs, hi, TailNumber(rs)) && Tagged(m', x)
    requires |m| == |m'| && SameIn(m, m', lo, x.addr)
    ensures Laid(m', Retailed(rs, hi, x.End()), lo, x.End()) && NoAdjacentHoles(Retailed(rs, hi, x.End()))
    ensures Indexed(m', Retailed(rs, hi, x.End()), Inserted(index, x.addr, Smaller(m')), {})
    ensures Blocks(Retailed(rs, hi, x.End())) == Blocks(rs) && BytesKept(m, m', Blocks(rs))
  {
    var rs' := Retailed(rs, hi, x.End());
    assert rs' == Replace(rs, TailNumber(rs), |rs|, [x]);
    Retail(m, m', rs, lo, hi, index, TailNumber(rs), pending, x);
    hide Laid, Indexed, NoAdjacentHoles, Blocks, BytesKept;
    assert rs'[TailNumber(rs)] == x;
    Enter(m', rs', lo, x.End(), index, {x.addr}, x);
    assert {x.addr} - {x.addr} == {};
  }

  lemma RetailLaid(m: seq<byte>, m': seq<byte>, rs: seq<Region>, lo: nat, hi: nat, i: nat, x: Region)
    requires Laid(m, rs, lo, hi) && i <= |rs| && x.addr == CutAt(rs, hi, i) && Tagged(m', x)
    requires |m| == |m'| && SameIn(m, m', lo, x.addr)
    ensures Laid(m', Replace(rs, i, |rs|, [x]), lo, x.End())
  {
    hide Laid, Tiles, Tagged;
    LaidSplit(m, rs, lo, hi, i);
    LaidFrame(m, m', rs[..i], lo, x.addr);
    LaidOne(m', x);
    LaidConcat(m', rs[..i], [x], lo, x.addr, x.End());
    assert Replace(rs, i, |rs|, [x]) == rs[..i] + [x];
  }

  lemma RetailHoles(rs: seq<Region>, lo: nat, hi: nat, i: nat, pending: set<nat>, x: Region)
    requires Tiles(rs, lo, hi) && NoAdjacentHoles(rs)
    requires i <= |rs| && AtEnd(rs, i, pending) && x.addr == CutAt(rs, hi, i) && x.hole
    ensures NoAdjacentHoles(Replace(rs, i, |rs|, [x]))
    ensures Holes(Replace(rs, i, |rs|, [x]), {x.addr}) == Holes(rs, pending)
  {
    assert rs[i..|rs|] == if i < |rs| then [rs[i]] else [];
    HolesReplace(rs, lo, hi, i, |rs|, [x], pending, {x.addr});
    if 0 < i < |rs| { assert !(rs[i].hole && rs[i - 1].hole); }
  }

  lemma RetailBlocks(m: seq<byte>, m': seq<byte>, rs: seq<Region>, lo: nat, hi: nat, i: nat, pending: set<nat>, x: Region)
    requires Tiles(rs, lo, hi) && i <= |rs| && AtEnd(rs, i, pending) && x.addr == CutAt(rs, hi, i) && x.hole
    requires |m| == |m'| && SameIn(m, m', lo, x.addr)
    ensures Blocks(Replace(rs, i, |rs|, [x])) == Blocks(rs) && BytesKept(m, m', Blocks(rs))
  {
    BlocksReplace(rs, i, |rs|, [x]);
    assert rs[i..|rs|] == if i < |rs| then [rs[i]] else [];
    OthersKept(m, m', rs, lo, hi, i, |rs|);
  }

  // ----- Merging

  /** Where a freed region's merged hole starts and ends, as region numbers. */
  function MergeFrom(rs: seq<Region>, i: nat): nat
    requires i < |rs|
  {
    if i > 0 && rs[i - 1].hole then i - 1 else i
  }

  function MergeTo(rs: seq<Region>, i: nat): nat
    requires i < |rs|
  {
    if i + 1 < |rs| && rs[i + 1].hole then i + 2 else i + 1
  }

  /** The holes a freed region merges with. */
  function MergedHoles(rs: seq<Region>, i: nat): set<nat>
    requires i < |rs|
  {
    (if i > 0 && rs[i - 1].hole then {rs[i - 1].addr} else {})
    + (if i + 1 < |rs| && rs[i + 1].hole then {rs[i + 1].addr} else {})
  }

  function MergedRegion(rs: seq<Region>, i: nat): Region
    requires i < |rs|
  {
    var l := if i > 0 && rs[i - 1].hole then rs[i - 1].size else 0;
    var r := if i + 1 < |rs| && rs[i + 1].hole then rs[i + 1].size else 0;
    Region(rs[MergeFrom(rs, i)].addr, l + rs[i].size + r, true)
  }

  function Merged(rs: seq<Region>, i: nat): seq<Region>
    requires i < |rs|
  {
    Replace(rs, MergeFrom(rs, i), MergeTo(rs, i), [MergedRegion(rs, i)])
  }

  /** Midway through a merge: `x` is tagged in `m`, and outside it memory is as it was in `m0`. */
  ghost predicate Partly(m0: seq<byte>, m: seq<byte>, x: Region) {
    Tagged(m, x) && x.hole && SameOutside(m0, m, x.addr, x.End())
  }

  /** The left neighbour of a region, as its footer tells. */
  lemma LeftNeighbour(m0: seq<byte>, m: seq<byte>, rs: seq<Region>, lo: nat, hi: nat, i: nat, x: Region)
    requires Laid(m0, rs, lo, hi) && i < |rs| && Partly(m0, m, x) && x.addr == rs[i].addr
    ensures i > 0 <==> lo < x.addr
    ensures i > 0 ==> Tagged(m, rs[i - 1]) && rs[i - 1].End() == x.addr
  {
    if i > 0 {
      CutAfter(rs, lo, hi, i - 1);
      assert Tagged(m0, rs[i - 1]);
    }
    CutAfter(rs, lo, hi, i);
  }

  lemma NeighbourBefore(m0: seq<byte>, rs: seq<Region>, lo: nat, hi: nat, i: nat)
    requires Laid(m0, rs, lo, hi) && i < |rs|
    ensures i > 0 ==> rs[i - 1].End() == rs[i].addr && rs[i - 1].addr < rs[i].End()
  {
  }

  /** The right neighbour of a region, where its own extent ends. */
  lemma RightNeighbour(m0: seq<byte>, m: seq<byte>, rs: seq<Region>, lo: nat, hi: nat, i: nat, x: Region)
    requires Laid(m0, rs, lo, hi) && i < |rs| && Partly(m0, m, x) && x.End() == rs[i].End()
    ensures i + 1 < |rs| <==> x.End() < hi
    ensures i + 1 < |rs| ==> Tagged(m, rs[i + 1]) && rs[i + 1].addr == x.End()
  {
    CutAfter(rs, lo, hi, i);
    if i + 1 < |rs| {
      CutAfter(rs, lo, hi, i + 1);
      assert Tagged(m0, rs[i + 1]);
    }
  }

  lemma PartlyGrown(m0: seq<byte>, m: seq<byte>, m': seq<byte>, x: Region, y: Region)
    requires Partly(m0, m, x) && Tagged(m', y) && y.hole && SameOutside(m, m', y.addr, y.End())
    requires y.addr <= x.addr && x.End() <= y.End()
    ensures Partly(m0, m', y)
  {
  }

  lemma PartlyMarked(m0: seq<byte>, rs: seq<Region>, lo: nat, hi: nat, i: nat)
    requires Laid(m0, rs, lo, hi) && i < |rs|
    ensures rs[i].addr + 4 < |m0| && Partly(m0, m0[rs[i].addr + 4 := 1], rs[i].(hole := true))
  {
    assert Tagged(m0, rs[i]);
    MarkedTags(m0, rs[i]);
  }

  /** What freeing block `i` does to the whole heap. */
  lemma Merge(m: seq<byte>, m': seq<byte>, rs: seq<Region>, lo: nat, hi: nat, index: seq<nat>, i: nat, x: Region)
    requires Laid(m, rs, lo, hi) && NoAdjacentHoles(rs) && i < |rs| && !rs[i].hole
    requires Indexed(m, rs, index, MergedHoles(rs, i))
    requires x == MergedRegion(rs, i) && Tagged(m', x) && SameOutside(m, m', x.addr, x.End())
    ensures Laid(m', Merged(rs, i), lo, hi) && NoAdjacentHoles(Merged(rs, i))
    ensures Indexed(m', Merged(rs, i), index, {x.addr})
    ensures BlockDropped(rs, Merged(rs, i), rs[i]) && BytesKept(m, m', Blocks(Merged(rs, i)))
  {
    hide *;
    LaidTiles(m, rs, lo, hi);
    MergeCuts(rs, lo, hi, i, x);
    MergeLaid(m, m', rs, lo, hi, i, x);
    MergeNoAdjacent(rs, i);
    MergeHoles(rs, lo, hi, i, x);
    IndexMoves(m, rs, lo, hi, MergedHoles(rs, i), m', Merged(rs, i), hi, {x.addr}, index);
    MergeBlocks(m, m', rs, lo, hi, i, x);
  }

  ghost predicate BlockDropped(rs: seq<Region>, rs': seq<Region>, b: Region) {
    Blocks(rs') == Blocks(rs) - {b}
  }

  lemma MergeCuts(rs: seq<Region>, lo: nat, hi: nat, i: nat, x: Region)
    requires Tiles(rs, lo, hi) && i < |rs| && x == MergedRegion(rs, i)
    ensures MergeFrom(rs, i) <= i < MergeTo(rs, i) <= |rs| && x.hole
    ensures CutAt(rs, hi, MergeFrom(rs, i)) == x.addr && CutAt(rs, hi, MergeTo(rs, i)) == x.End()
    ensures forall a :: a in MergedHoles(rs, i) ==> x.addr <= a < x.End()
    ensures x.addr < x.End() <= hi
  {
    CutAfter(rs, lo, hi, i);
    if i > 0 { CutAfter(rs, lo, hi, i - 1); }
    if i + 1 < |rs| { CutAfter(rs, lo, hi, i + 1); }
  }

  lemma MergeLaid(m: seq<byte>, m': seq<byte>, rs: seq<Region>, lo: nat, hi: nat, i: nat, x: Region)
    requires Laid(m, rs, lo, hi) && i < |rs| && x == MergedRegion(rs, i)
    requires Tagged(m', x) && SameOutside(m, m', x.addr, x.End())
    ensures Laid(m', Merged(rs, i), lo, hi)
  {
    hide Laid, Tiles, Tagged, MergeFrom, MergeTo, MergedRegion;
    LaidTiles(m, rs, lo, hi);
    MergeCuts(rs, lo, hi, i, x);
    LaidOne(m', x);
    LaidReplace(m, m', rs, lo, hi, MergeFrom(rs, i), MergeTo(rs, i), [x]);
  }

  lemma MergeNoAdjacent(rs: seq<Region>, i: nat)
    requires NoAdjacentHoles(rs) && i < |rs|
    ensures NoAdjacentHoles(Merged(rs, i))
  {
    NoAdjacentMerged(rs, MergeFrom(rs, i), MergeTo(rs, i), i, MergedRegion(rs, i));
  }

  lemma MergeHoles(rs: seq<Region>, lo: nat, hi: nat, i: nat, x: Region)
    requires Tiles(rs, lo, hi) && i < |rs| && !rs[i].hole && x == MergedRegion(rs, i)
    ensures Holes(rs, MergedHoles(rs, i)) == Holes(Merged(rs, i), {x.addr})
  {
    hide Tiles, Holes, MergeFrom, MergeTo, MergedHoles, MergedRegion, Replace;
    MergeCuts(rs, lo, hi, i, x);
    MergedOnly(rs, i);
    HolesReplace(rs, lo, hi, MergeFrom(rs, i), MergeTo(rs, i), [x], MergedHoles(rs, i), {x.addr});
  }

  lemma MergedOnly(rs: seq<Region>, i: nat)
    requires i < |rs| && !rs[i].hole
    ensures MergeFrom(rs, i) <= MergeTo(rs, i) <= |rs|
    ensures forall r :: r in rs[MergeFrom(rs, i)..MergeTo(rs, i)] && r.hole ==> r.addr in MergedHoles(rs, i)
  {
    var a, c := MergeFrom(rs, i), MergeTo(rs, i);
    forall r | r in rs[a..c] && r.hole ensures r.addr in MergedHoles(rs, i) {
      var k :| 0 <= k < c - a && rs[a..c][k] == r;
      assert rs[a + k] == r;
    }
  }

  lemma MergeBlocks(m: seq<byte>, m': seq<byte>, rs: seq<Region>, lo: nat, hi: nat, i: nat, x: Region)
    requires Tiles(rs, lo, hi) && i < |rs| && !rs[i].hole && x == MergedRegion(rs, i)
    requires SameOutside(m, m', x.addr, x.End())
    ensures BlockDropped(rs, Merged(rs, i), rs[i]) && BytesKept(m, m', Blocks(Merged(rs, i)))
  {
    var a, c := MergeFrom(rs, i), MergeTo(rs, i);
    MergeCuts(rs, lo, hi, i, x);
    BlocksReplace(rs, a, c, [x]);
    assert Blocks([x]) == {};
    MiddleBlocks(rs, i);
    OthersKept(m, m', rs, lo, hi, a, c);
    OutsideMiddle(rs, lo, hi, i, a, c);
  }

  lemma OutsideMiddle(rs: seq<Region>, lo: nat, hi: nat, i: nat, a: nat, c: nat)
    requires Tiles(rs, lo, hi) && a <= i < c <= |rs|
    ensures rs[i] !in Blocks(rs[..a]) && rs[i] !in Blocks(rs[c..])
  {
    InFront(rs, lo, hi, a);
    Behind(rs, lo, hi, c);
    assert a < i ==> rs[a].End() <= rs[i].addr;
    assert c < |rs| ==> rs[i].End() <= rs[c].addr;
  }

  lemma MiddleBlocks(rs: seq<Region>, i: nat)
    requires i < |rs| && !rs[i].hole
    ensures Blocks(rs[MergeFrom(rs, i)..MergeTo(rs, i)]) == {rs[i]}
  {
    var a, c := MergeFrom(rs, i), MergeTo(rs, i);
    var mid := rs[a..c];
    assert mid[i - a] == rs[i];
    assert forall k :: 0 <= k < |mid| ==> mid[k] == rs[a + k];
  }

  // ----- Contracting

  /**
    The length contract leaves when asked for `asked` bytes: the next page boundary,
    not below the minimum, and far enough for a hole that starts at `asked`.
   */
  function ContractedLength(asked: nat, minimum: nat): nat {
    var rounded := if asked / PAGE_SIZE != 0 then NextPage(asked) else asked;
    var kept := if rounded < minimum then minimum else rounded;
    if kept - asked < TAGS then kept + PAGE_SIZE else kept
  }

  /** A hole at the end of the heap never vanishes, and never grows, when the heap contracts to it. */
  lemma ContractKeepsAHole(asked: nat, minimum: nat, length: nat)
    requires length % PAGE_SIZE == 0 && minimum % PAGE_SIZE == 0 && 0 < minimum <= length
    requires asked + TAGS <= length
    ensures var n := ContractedLength(asked, minimum);
      minimum <= n <= length && n % PAGE_SIZE == 0 && asked + TAGS <= n
  {
  }

  /** What freeing block `i` does to the map: a merge, and a contraction when the merged hole is last. */
  ghost predicate Freed(rs: seq<Region>, lo: nat, hi: nat, minimum: nat, i: nat, rs': seq<Region>, hi': nat)
    requires i < |rs|
  {
    var x := MergedRegion(rs, i);
    if x.End() == hi
    then
      && lo <= x.addr && hi' == lo + ContractedLength(x.addr - lo, minimum) <= hi
      && TailStart(Merged(rs, i), hi) <= hi' && rs' == Retailed(Merged(rs, i), hi, hi')
    else hi' == hi && rs' == Merged(rs, i)
  }

  /** A merged hole that reaches the end of the heap is the last region. */
  lemma MergedLast(rs: seq<Region>, lo: nat, hi: nat, i: nat)
    requires Tiles(rs, lo, hi) && i < |rs|
    ensures MergedRegion(rs, i) in Merged(rs, i)
    ensures MergedRegion(rs, i).End() == hi ==> var ms := Merged(rs, i);
      ms != [] && ms[|ms| - 1] == MergedRegion(rs, i) && TailNumber(ms) == |ms| - 1 && TailStart(ms, hi) == MergedRegion(rs, i).addr
  {
    var x, c := MergedRegion(rs, i), MergeTo(rs, i);
    MergeCuts(rs, lo, hi, i, x);
    if c < |rs| {
      Inside(rs, lo, hi, c);
    }
    assert Merged(rs, i)[MergeFrom(rs, i)] == x;
  }

  /**
    After a free the heap ends in the hole this left there, if there is one, and that is
    shorter than a page and 20 bytes unless the heap has come down to its minimum.
   */
  lemma FreedTrims(rs: seq<Region>, lo: nat, hi: nat, minimum: nat, i: nat, rs': seq<Region>, hi': nat)
    requires Tiles(rs, lo, hi) && i < |rs| && Freed(rs, lo, hi, minimum, i, rs', hi')
    requires minimum % PAGE_SIZE == 0 && 0 < minimum
    ensures if i + 1 == |rs| || (i + 2 == |rs| && rs[i + 1].hole) then
        rs' != [] && var x := rs'[|rs'| - 1]; x.hole && x.End() == hi' && (hi' == lo + minimum || x.size < PAGE_SIZE + TAGS)
      else hi' == hi
  {
    hide Merged, MergedRegion, ContractedLength;
    var x := MergedRegion(rs, i);
    MergeCuts(rs, lo, hi, i, x);
    if MergeTo(rs, i) == |rs| {
      MergedLast(rs, lo, hi, i);
      ContractTight(x.addr - lo, minimum);
      var ms := Merged(rs, i);
      assert rs' == ms[..|ms| - 1] + [Region(x.addr, hi' - x.addr, true)];
    } else {
      Inside(rs, lo, hi, MergeTo(rs, i));
    }
  }

  lemma ContractTight(asked: nat, minimum: nat)
    requires minimum % PAGE_SIZE == 0 && 0 < minimum
    ensures ContractedLength(asked, minimum) == minimum || ContractedLength(asked, minimum) < asked + PAGE_SIZE + TAGS
  {
  }

  lemma MergedSize(rs: seq<Region>, lo: nat, hi: nat, i: nat)
    requires Tiles(rs, lo, hi) && i < |rs|
    ensures var x := MergedRegion(rs, i); x.hole && TAGS <= x.size && lo <= x.addr && x.End() <= hi
  {
    var x := MergedRegion(rs, i);
    MergeCuts(rs, lo, hi, i, x);
    Inside(rs, lo, hi, MergeFrom(rs, i));
  }

  /** Trimming the last hole, while it is out of the index. */
  lemma Trimmed(m: seq<byte>, m': seq<byte>, rs: seq<Region>, lo: nat, hi: nat, index: seq<nat>, x: Region)
    requires Laid(m, rs, lo, hi) && NoAdjacentHoles(rs) && rs != [] && rs[|rs| - 1].hole
    requires Indexed(m, rs, index, {rs[|rs| - 1].addr})
    requires x.hole && x.addr == rs[|rs| - 1].addr && Tagged(m', x) && |m| == |m'| && SameIn(m, m', lo, x.addr)
    ensures Laid(m', Retailed(rs, hi, x.End()), lo, x.End()) && NoAdjacentHoles(Retailed(rs, hi, x.End()))
    ensures Indexed(m', Retailed(rs, hi, x.End()), index, {x.addr}) && x in Retailed(rs, hi, x.End())
    ensures Blocks(Retailed(rs, hi, x.End())) == Blocks(rs) && BytesKept(m, m', Blocks(rs))
  {
    var rs' := Retailed(rs, hi, x.End());
    assert rs' == Replace(rs, TailNumber(rs), |rs|, [x]);
    assert rs'[TailNumber(rs)] == x;
    Retail(m, m', rs, lo, hi, index, TailNumber(rs), {x.addr}, x);
  }

  // ----- Stores into payloads

  /** A store between the tags of a block disturbs no tag and no entry. */
  lemma PokeKeepsTags(m: seq<byte>, rs: seq<Region>, lo: nat, hi: nat, index: seq<nat>, b: Region, at: nat, v: byte)
    requires Laid(m, rs, lo, hi) && Indexed(m, rs, index, {}) && b in Blocks(rs) && b.Payload() <= at < b.End() - FOOTER
    ensures at < |m| && Laid(m[at := v], rs, lo, hi) && Indexed(m[at := v], rs, index, {})
  {
    var i :| 0 <= i < |rs| && !rs[i].hole && rs[i] == b;
    Inside(rs, lo, hi, i);
    forall j | 0 <= j < |rs| ensures Tagged(m[at := v], rs[j]) {
      TagsApart(rs, lo, hi, i, j);
      TagsElsewhere(m, rs[j], at, v);
    }
    hide Indexed, Tagged;
    IndexMoves(m, rs, lo, hi, {}, m[at := v], rs, hi, {}, index);
  }

  lemma TagsApart(rs: seq<Region>, lo: nat, hi: nat, i: nat, j: nat)
    requires Tiles(rs, lo, hi) && i < |rs| && j < |rs|
    ensures i == j || rs[j].End() <= rs[i].addr || rs[i].End() <= rs[j].addr
  {
  }

  lemma TagsElsewhere(m: seq<byte>, r: Region, at: nat, v: byte)
    requires Tagged(m, r) && at < |m|
    requires at < r.addr || r.addr + HEADER <= at < r.End() - FOOTER || r.End() <= at
    ensures Tagged(m[at := v], r)
  {
  }
}
