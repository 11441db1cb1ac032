/**
  Where src/kheap.c, and the clear of a cloned table, depart as written from the heap proved
  in KernelHeap: each departure as the code computes it, with the exact condition under which
  it is harmless.
 */
module HeapDefects {
  import opened Words
  import opened Regions
  import opened OrderedArrays
  import opened HeapState
  import opened HeapMoves

  // ----- contract, src/kheap.c:84-92

  /** The length contract settles on: the mask is 0x1000, so only bit 12 is looked at, and only it is kept. */
  function ContractAsWritten(asked: nat, minimum: nat): nat {
    var rounded := if asked / PAGE_SIZE % 2 == 1 then PAGE_SIZE + PAGE_SIZE else asked;
    if rounded < minimum then minimum else rounded
  }

  /** contract keeps everything in front of the freed hole, and a whole number of pages, only for these lengths. */
  lemma ContractRounds(asked: nat, minimum: nat)
    requires minimum % PAGE_SIZE == 0 && 2 * PAGE_SIZE <= minimum
    ensures var n := ContractAsWritten(asked, minimum);
            asked <= n && n % PAGE_SIZE == 0 <==> asked <= minimum || asked % (2 * PAGE_SIZE) == 0
  {
    TwoPages(asked, asked / PAGE_SIZE, asked % PAGE_SIZE);
  }

  lemma TwoPages(asked: nat, pages: nat, part: nat)
    requires pages == asked / PAGE_SIZE && part == asked % PAGE_SIZE
    ensures asked % (2 * PAGE_SIZE) == 0 <==> pages % 2 == 0 && part == 0
  {
  }

  /** A block that ends 0x71000 bytes into the heap loses its last page when the hole behind it is freed. */
  lemma ContractCutsABlock()
    ensures ContractAsWritten(0x7_1000, 0x7_0000) == 0x7_0000
    ensures 0x7_1000 + TAGS <= ContractedLength(0x7_1000, 0x7_0000)
  {
  }

  /**
    What is left of the last hole, by the code's own subtraction: the new length less the
    bytes in front of the hole, in 32 bits. It has room for its tags exactly when the hole
    starts at least 20 bytes below the minimum; it is empty, or smaller than its tags, or
    beyond the heap in the other three cases.
   */
  lemma HoleKeptByContract(asked: u32, minimum: u32)
    requires minimum % PAGE_SIZE == 0 && 2 * PAGE_SIZE <= minimum
    ensures var kept := (ContractAsWritten(asked, minimum) - asked) % TWO_TO_THE_32;
            && (TAGS <= kept && asked + kept < TWO_TO_THE_32 <==> asked + TAGS <= minimum)
            && (0 < kept < TAGS <==> asked < minimum < asked + TAGS)
            && (kept == 0 <==> asked == minimum || (minimum < asked && asked / PAGE_SIZE % 2 == 0))
            && (asked + kept >= TWO_TO_THE_32 <==> minimum < asked && asked / PAGE_SIZE % 2 == 1)
  {
    hide ContractAsWritten;
    KeptBytes(asked, minimum);
  }

  lemma KeptBytes(asked: u32, minimum: u32)
    requires minimum % PAGE_SIZE == 0 && 2 * PAGE_SIZE <= minimum
    ensures var n := ContractAsWritten(asked, minimum);
            n == if asked <= minimum || asked / PAGE_SIZE % 2 == 1 then minimum else asked
  {
  }

  /** The pages the loop of contract releases, from offset `i` down: it stops in front of the new length itself. */
  function ReleasedAsWritten(newSize: nat, i: nat): set<nat>
    requires i % PAGE_SIZE == 0
  {
    if newSize < i then {i} + ReleasedAsWritten(newSize, i - PAGE_SIZE) else {}
  }

  lemma {:induction false} ReleasedPages(newSize: nat, i: nat, p: nat)
    requires i % PAGE_SIZE == 0 && p % PAGE_SIZE == 0
    ensures p in ReleasedAsWritten(newSize, i) <==> newSize < p <= i
    decreases i
  {
    if newSize < i {
      ReleasedPages(newSize, i - PAGE_SIZE, p);
    }
  }

  /** Every page behind the new end is released exactly when the new length is not whole pages, or is the old one. */
  lemma PageAtNewEndStays(newSize: nat, oldSize: nat)
    requires oldSize % PAGE_SIZE == 0 && 0 < newSize <= oldSize
    ensures (forall p: nat :: p % PAGE_SIZE == 0 && newSize <= p < oldSize ==> p in ReleasedAsWritten(newSize, oldSize - PAGE_SIZE))
            <==> newSize == oldSize || newSize % PAGE_SIZE != 0
    ensures forall p: nat :: p % PAGE_SIZE == 0 && newSize <= p < oldSize ==>
              (p !in ReleasedAsWritten(newSize, oldSize - PAGE_SIZE) <==> p == newSize)
  {
    hide ReleasedAsWritten;
    AllButOne(newSize, oldSize);
    if newSize < oldSize && newSize % PAGE_SIZE == 0 {
      assert newSize !in ReleasedAsWritten(newSize, oldSize - PAGE_SIZE);
    }
  }

  lemma AllButOne(newSize: nat, oldSize: nat)
    requires oldSize % PAGE_SIZE == 0 && 0 < newSize <= oldSize
    ensures forall p: nat :: p % PAGE_SIZE == 0 && newSize <= p < oldSize ==>
              (p !in ReleasedAsWritten(newSize, oldSize - PAGE_SIZE) <==> p == newSize)
  {
    hide ReleasedAsWritten;
    forall p: nat | p % PAGE_SIZE == 0 && newSize <= p < oldSize
      ensures p in ReleasedAsWritten(newSize, oldSize - PAGE_SIZE) <==> p != newSize
    {
      ReleasedPages(newSize, oldSize - PAGE_SIZE, p);
      PageBefore(p, oldSize);
    }
  }

  lemma PageBefore(p: nat, oldSize: nat)
    requires p % PAGE_SIZE == 0 && oldSize % PAGE_SIZE == 0 && p < oldSize
    ensures p <= oldSize - PAGE_SIZE
  {
  }

  /**
    Where nothing was merged on the left (`do_add` is 1), free enters the hole in the index
    at its last line, even one that vanished; the index is right then exactly if it did not.
   */
  lemma EnteredWhileThere(m: seq<byte>, rs: seq<Region>, index: seq<nat>, a: nat)
    requires Indexed(m, rs, index, {a})
    ensures Indexed(m, rs, Inserted(index, a, Smaller(m)), {}) <==> exists r :: r in rs && r.hole && r.addr == a
  {
    hide Inserted;
    SmallerOrders(m);
    InsertedSorted(index, a, Smaller(m));
    var entered := Inserted(index, a, Smaller(m));
    assert a in multiset(entered);
    assert HoleAddrs(rs, {a}) == HoleAddrs(rs, {}) - {a};
    if r :| r in rs && r.hole && r.addr == a {
      assert r in Holes(rs, {}) && a in HoleAddrs(rs, {});
    }
  }

  /**
    After a left merge (`do_add` is 0) the left header `a` is in the index already. A hole
    that vanishes is looked for under the header `next` behind the freed block, which is no
    hole any more: nothing is found, and the index is right exactly if the hole is still there.
   */
  lemma LeftHeaderStays(m: seq<byte>, rs: seq<Region>, index: seq<nat>, a: nat, next: nat)
    requires multiset(index) == multiset(HoleAddrs(rs, {a})) + multiset{a} && Sorted(index, Smaller(m))
    requires next != a && forall r :: r in rs && r.hole ==> r.addr != next
    ensures next !in index
    ensures Indexed(m, rs, index, {}) <==> exists r :: r in rs && r.hole && r.addr == a
  {
    assert next in index ==> next in multiset(index);
    assert a in multiset(index);
    if r :| r in rs && r.hole && r.addr == a {
      assert r in Holes(rs, {}) && a in HoleAddrs(rs, {});
      assert HoleAddrs(rs, {}) == HoleAddrs(rs, {a}) + {a};
    }
  }

  // ----- free's neighbours, src/kheap.c:330-331 and 342-343

  /** The footer in front of a block and the header behind it are tags of the heap unless the block is the first, or the last, region. */
  lemma NeighbourTagsInside(rs: seq<Region>, lo: nat, hi: nat, i: nat)
    requires Tiles(rs, lo, hi) && i < |rs|
    ensures lo + FOOTER <= rs[i].addr <==> 0 < i
    ensures rs[i].End() + HEADER <= hi <==> i + 1 < |rs|
    ensures 0 < i ==> rs[i - 1].End() == rs[i].addr
    ensures i + 1 < |rs| ==> rs[i].End() == rs[i + 1].addr
  {
    Inside(rs, lo, hi, i);
    if 0 < i { Inside(rs, lo, hi, i - 1); }
    if i + 1 < |rs| { Inside(rs, lo, hi, i + 1); }
  }

  // ----- alloc's front hole, src/kheap.c:256-266

  /** The size of the hole in front of an aligned block, in 32-bit arithmetic. */
  function FrontHoleAsWritten(a: u32): u32 {
    (PAGE_SIZE - a % PAGE_SIZE - HEADER) % TWO_TO_THE_32
  }

  /** The front hole has room for its tags, and is the gap the search reckoned with, unless the header is near the page's end. */
  lemma FrontHoleFits(a: u32)
    ensures TAGS <= FrontHoleAsWritten(a) < PAGE_SIZE <==> a % PAGE_SIZE <= PAGE_SIZE - TAGS - HEADER
    ensures a % PAGE_SIZE <= PAGE_SIZE - TAGS - HEADER ==> FrontHoleAsWritten(a) == AlignGap(a)
    ensures (FrontHoleAsWritten(a) + a % PAGE_SIZE + HEADER) % TWO_TO_THE_32 == PAGE_SIZE
  {
    assert (a + HEADER) % PAGE_SIZE == (a % PAGE_SIZE + HEADER) % PAGE_SIZE;
  }

  /**
    The remainder is judged before the front hole is cut. The pieces fill the hole and
    both remnants are well formed if there is no front hole; otherwise exactly if it has
    room for its tags and nothing, or at least 20 bytes, are left behind the block.
   */
  lemma SliverBehindFrontHole(size: u32, gap: u32, newSize: nat)
    requires TAGS <= newSize <= size
    ensures var block := if size - newSize < TAGS then size else newSize;
            var rest := (size - gap - block) % TWO_TO_THE_32;
            gap + block + rest == size && (gap == 0 || TAGS <= gap) && (rest == 0 || TAGS <= rest)
            <==> gap == 0 || (TAGS <= gap && (gap + newSize == size || gap + newSize + TAGS <= size))
  {
  }

  // ----- alloc's choice of hole, src/kheap.c:191-192 and 241-242

  /** `iterator` stays 0, so a plain request is carved out of the smallest hole: it fits exactly when every hole does. */
  lemma FirstEntryFits(m: seq<byte>, rs: seq<Region>, lo: nat, hi: nat, index: seq<nat>, newSize: nat, q: nat)
    requires Laid(m, rs, lo, hi) && Indexed(m, rs, index, {}) && index != []
    requires q < |rs| && rs[q].addr == index[0]
    ensures Fits(rs[q], newSize, false) <==> forall p :: 0 <= p < |rs| && rs[p].hole ==> Fits(rs[p], newSize, false)
  {
    var first := IndexedRegion(m, rs, lo, hi, index, 0);
    SameAddr(rs, lo, hi, first, q);
    forall p | 0 <= p < |rs| && rs[p].hole ensures rs[q].size <= rs[p].size {
      var k := EntryOf(m, rs, index, p);
      assert Tagged(m, rs[p]) && Tagged(m, rs[q]);
      if 0 < k { assert !Smaller(m)(index[k], index[0]); }
    }
  }

  /**
    Aligned or not, the block carved out of entry 0's hole keeps off every other region and
    inside the heap exactly when the size in that entry's header covers the gap and the request.
   */
  lemma FirstEntryServes(m: seq<byte>, rs: seq<Region>, lo: nat, hi: nat, index: seq<nat>, newSize: nat, pageAlign: bool)
    requires Laid(m, rs, lo, hi) && Indexed(m, rs, index, {}) && index != [] && TAGS <= newSize
    ensures var b := Region(index[0] + Gap(index[0], pageAlign), newSize, false);
            (forall p :: 0 <= p < |rs| && rs[p].addr != index[0] ==> rs[p].End() <= b.addr || b.End() <= rs[p].addr) && b.End() <= hi
            <==> Gap(index[0], pageAlign) + newSize <= SizeAt(m, index[0])
  {
    hide Get32, SizeAt, Indexed, AlignGap;
    var q := IndexedRegion(m, rs, lo, hi, index, 0);
    KeepsOff(rs, lo, hi, q, Region(index[0] + Gap(index[0], pageAlign), newSize, false));
  }

  /** What starts behind the start of region `q` keeps off the others exactly when it ends inside it. */
  lemma KeepsOff(rs: seq<Region>, lo: nat, hi: nat, q: nat, b: Region)
    requires Tiles(rs, lo, hi) && q < |rs| && rs[q].addr <= b.addr && b.size > 0
    ensures (forall p :: 0 <= p < |rs| && rs[p].addr != rs[q].addr ==> rs[p].End() <= b.addr || b.End() <= rs[p].addr) && b.End() <= hi
            <==> b.End() <= rs[q].End()
  {
    Inside(rs, lo, hi, q);
    if rs[q].End() < b.End() <= hi {
      var p := RegionOver(rs, lo, hi, b.End() - 1);
    }
    forall p | 0 <= p < |rs| && rs[p].addr != rs[q].addr ensures rs[p].End() <= rs[q].addr || rs[q].End() <= rs[p].addr {
      if p < q { assert rs[p].End() <= rs[q].addr; } else { assert rs[q].End() <= rs[p].addr; }
    }
  }

  /** Every byte of the heap lies in a region. */
  lemma {:induction false} RegionOver(rs: seq<Region>, lo: nat, hi: nat, x: nat) returns (p: nat)
    requires Tiles(rs, lo, hi) && lo <= x < hi
    ensures p < |rs| && rs[p].addr <= x < rs[p].End()
    decreases |rs|
  {
    p := |rs| - 1;
    if x < rs[p].addr {
      TilesSplit(rs, lo, hi, p);
      p := RegionOver(rs[..p], lo, rs[p].addr, x);
    }
  }

  // ----- alloc's growth, src/kheap.c:226-236

  /** The highest-addressed hole is enlarged by the whole growth: the map stays a tiling exactly when it is the last region. */
  lemma GrowthReachesEnd(rs: seq<Region>, lo: nat, hi: nat, k: nat, growth: nat)
    requires Tiles(rs, lo, hi) && k < |rs| && growth > 0
    ensures Tiles(rs[k := rs[k].(size := rs[k].size + growth)], lo, hi + growth) <==> k == |rs| - 1
  {
    var rs' := rs[k := rs[k].(size := rs[k].size + growth)];
    if k == |rs| - 1 {
      forall i, j | 0 <= i < j < |rs'| ensures rs'[i].End() <= rs'[j].addr && (j == i + 1 ==> rs'[i].End() == rs'[j].addr) {
        assert rs[i].End() <= rs[j].addr;
      }
    } else {
      assert rs'[|rs| - 1].End() == rs[|rs| - 1].End() == hi;
    }
  }

  /** A hole resized where it stands in the index leaves the index sorted exactly when both its neighbours there agree. */
  lemma ResizedInPlace(m: seq<byte>, m': seq<byte>, index: seq<nat>, k: nat)
    requires k < |index| && Sorted(index, Smaller(m)) && forall i, j :: 0 <= i < j < |index| ==> index[i] != index[j]
    requires forall i :: 0 <= i < |index| && i != k ==> SizeAt(m', index[i]) == SizeAt(m, index[i])
    ensures Sorted(index, Smaller(m')) <==>
      && (k == 0 || SizeAt(m, index[k - 1]) <= SizeAt(m', index[k]))
      && (k + 1 == |index| || SizeAt(m', index[k]) <= SizeAt(m, index[k + 1]))
  {
    if k + 1 < |index| && SizeAt(m', index[k]) > SizeAt(m, index[k + 1]) {
      assert Smaller(m')(index[k + 1], index[k]);
    } else if k > 0 && SizeAt(m, index[k - 1]) > SizeAt(m', index[k]) {
      assert Smaller(m')(index[k], index[k - 1]);
    } else {
      forall i, j | 0 <= i < j < |index| ensures !Smaller(m')(index[j], index[i]) {
        assert !Smaller(m)(index[j], index[i]);
        if i == k && k + 1 < j { assert !Smaller(m)(index[j], index[k + 1]); }
        if j == k && i + 1 < k { assert !Smaller(m)(index[k - 1], index[i]); }
      }
    }
  }

  // ----- Missing tags, src/kheap.c:177-182 and 345-348

  /** create_heap writes no footer: the first hole is whole only if memory holds the right footer already. */
  lemma FirstHoleWithoutFooter(m: seq<byte>, r: Region)
    requires r.hole && TAGS <= r.size && r.End() <= |m| < TWO_TO_THE_32
    ensures Tagged(PutHeader(m, r.addr, true, r.size), r)
            <==> Get32(m, r.End() - 8) == HEAP_MAGIC && Get32(m, r.End() - 4) == r.addr
  {
    hide Get32, Put32;
    var m1 := Put32(m, r.addr, HEAP_MAGIC);
    GetPut(m, r.addr, HEAP_MAGIC);
    var m2 := m1[r.addr + 4 := 1];
    var m3 := Put32(m2, r.addr + 8, r.size);
    GetPut(m2, r.addr + 8, r.size);
    GetSame(m, m3, r.End() - 8);
    GetSame(m, m3, r.End() - 4);
    GetSame(m1, m3, r.addr);
  }

  /** The size of the hole that a right merge and a contraction to `newLength` leave, in 32-bit arithmetic. */
  function SizeAfterRightMerge(start: nat, end: nat, newLength: nat, left: Region, right: Region): u32
    requires newLength <= end - start
  {
    if right.End() == end && start + newLength != left.addr
    then (left.size + right.size - (end - start - newLength)) % TWO_TO_THE_32
    else (left.size + right.size) % TWO_TO_THE_32
  }

  /**
    The stores of a right merge, and of what follows it, as the code makes them: the left
    header grows; the far footer is written only when the merged hole ends the heap and
    something is left of it, at the new end that contract answered.
   */
  function RightMergeAsWritten(m: seq<byte>, start: nat, end: nat, newLength: nat, left: Region, right: Region): (m': seq<byte>)
    requires left.addr + HEADER <= |m| < TWO_TO_THE_32 && left.addr < TWO_TO_THE_32
    requires newLength <= end - start && FOOTER <= start + newLength <= end <= |m|
    ensures |m'| == |m|
  {
    var grown := Put32(m, left.addr + 8, (left.size + right.size) % TWO_TO_THE_32);
    if right.End() == end && start + newLength != left.addr
    then
      var size := SizeAfterRightMerge(start, end, newLength, left, right);
      PutFooter(Put32(grown, left.addr + 8, size), start + newLength - FOOTER, left.addr)
    else grown
  }

  /**
    free's right merge does not rewrite the far footer. The merged hole is whole in the end
    exactly when it ends the heap and the contraction leaves it room for its tags.
   */
  lemma RightMergeWithoutFooter(m: seq<byte>, start: nat, end: nat, newLength: nat, left: Region, right: Region)
    requires Tagged(m, left) && Tagged(m, right) && left.hole && left.End() == right.addr
    requires 0 < start <= left.addr && right.End() <= end <= |m| < TWO_TO_THE_32
    requires FOOTER <= newLength <= end - start
    ensures Tagged(RightMergeAsWritten(m, start, end, newLength, left, right),
                   Region(left.addr, SizeAfterRightMerge(start, end, newLength, left, right), true))
            <==> right.End() == end && left.addr + TAGS <= start + newLength
  {
    hide Put32, PutFooter, Tagged;
    Bounds(m, left, right);
    var m', size := RightMergeAsWritten(m, start, end, newLength, left, right), SizeAfterRightMerge(start, end, newLength, left, right);
    if right.End() != end || start + newLength == left.addr {
      FooterLeftBehind(m, left, right);
    } else if left.addr + TAGS <= start + newLength {
      FooterAtNewEnd(m, left, right, start + newLength - left.addr);
    } else {
      NoRoomForTags(m', Region(left.addr, size, true));
    }
  }

  lemma Bounds(m: seq<byte>, left: Region, right: Region)
    requires Tagged(m, left) && Tagged(m, right) && left.End() == right.addr && |m| < TWO_TO_THE_32
    ensures 2 * TAGS <= left.size + right.size && left.addr + (left.size + right.size) == right.End() < TWO_TO_THE_32
  {
  }

  lemma NoRoomForTags(m: seq<byte>, r: Region)
    requires r.size < TAGS || |m| < r.End()
    ensures !Tagged(m, r)
  {
  }

  /** Without the footer store, the far footer still points to the right header. */
  lemma FooterLeftBehind(m: seq<byte>, left: Region, right: Region)
    requires Tagged(m, left) && Tagged(m, right) && left.End() == right.addr && right.End() <= |m| < TWO_TO_THE_32
    ensures !Tagged(Put32(m, left.addr + 8, left.size + right.size), Region(left.addr, left.size + right.size, true))
  {
    hide Put32;
    var m' := Put32(m, left.addr + 8, left.size + right.size);
    GetSame(m, m', right.End() - 4);
  }

  lemma FooterAtNewEnd(m: seq<byte>, left: Region, right: Region, kept: nat)
    requires Tagged(m, left) && left.hole && left.End() == right.addr && TAGS <= kept <= left.size + right.size
    requires right.End() <= |m| < TWO_TO_THE_32
    ensures Tagged(PutFooter(Put32(Put32(m, left.addr + 8, left.size + right.size), left.addr + 8, kept),
                             left.addr + kept - FOOTER, left.addr),
                   Region(left.addr, kept, true))
  {
    var twice := Put32(Put32(m, left.addr + 8, left.size + right.size), left.addr + 8, kept);
    assert twice == Put32(m, left.addr + 8, kept);
    ResizedTags(m, left, kept);
  }

  // ----- The clear of a cloned page table, src/paging.c:228

  const TABLE_BYTES: nat := 0x1000
  /** The size of a page directory: 1024 pointers, as many physical addresses, and its own. */
  const CLEARED: nat := 8196

  /** Memory after `n` bytes at `at` are set to zero. */
  ghost predicate Zeroed(m: seq<byte>, m': seq<byte>, at: nat, n: nat) {
    && at + n <= |m| && SameOutside(m, m', at, at + n)
    && forall k :: at <= k < at + n ==> m'[k] == 0
  }

  /** Nothing but the table changes exactly when the bytes cleared behind it were zero before. */
  lemma ClearBehindTable(m: seq<byte>, m': seq<byte>, at: nat)
    requires Zeroed(m, m', at, CLEARED)
    ensures SameOutside(m, m', at, at + TABLE_BYTES) <==> forall k :: at + TABLE_BYTES <= k < at + CLEARED ==> m[k] == 0
  {
    if SameOutside(m, m', at, at + TABLE_BYTES) {
      forall k | at + TABLE_BYTES <= k < at + CLEARED ensures m[k] == 0 {
        assert m'[k] == m[k];
      }
    }
  }

  /**
    A table in a block of the heap: the clear takes the tags of that block, and of those
    regions behind it that start in the bytes cleared, and of no others. So it is never harmless.
   */
  lemma OversizedClear(m: seq<byte>, m': seq<byte>, rs: seq<Region>, lo: nat, hi: nat, i: nat)
    requires Laid(m, rs, lo, hi) && i < |rs| && TABLE_BYTES + TAGS <= rs[i].size < TABLE_BYTES + TAGS + TAGS
    requires Zeroed(m, m', rs[i].Payload(), CLEARED)
    ensures forall j :: 0 <= j < |rs| ==>
              (Tagged(m', rs[j]) <==> j < i || rs[i].Payload() + CLEARED <= rs[j].addr)
    ensures !Laid(m', rs, lo, hi)
    ensures !SameOutside(m, m', rs[i].Payload(), rs[i].Payload() + TABLE_BYTES)
  {
    hide Tagged;
    forall j | 0 <= j < |rs| ensures Tagged(m', rs[j]) <==> j < i || rs[i].Payload() + CLEARED <= rs[j].addr {
      if j < i {
        assert rs[j].End() <= rs[i].addr;
      } else if i < j {
        assert rs[i].End() <= rs[j].addr;
      }
      TagsCleared(m, m', rs[i].Payload(), rs[j]);
    }
    assert !Tagged(m', rs[i]);
    TagNotZero(m, rs[i]);
  }

  /** A tagged region keeps its tags exactly when they lie apart from the bytes cleared. */
  lemma TagsCleared(m: seq<byte>, m': seq<byte>, at: nat, r: Region)
    requires Tagged(m, r) && Zeroed(m, m', at, CLEARED)
    requires r.End() <= at || at <= r.addr || (r.Payload() == at && r.End() <= at + CLEARED)
    ensures Tagged(m', r) <==> r.End() <= at || at + CLEARED <= r.addr
  {
    hide Get32;
    if r.End() <= at || at + CLEARED <= r.addr {
      TagsApart(m, m', at, r);
    } else if at <= r.addr {
      MagicLost(m', r.addr);
    } else {
      MagicLost(m', r.End() - 8);
    }
  }

  lemma TagsApart(m: seq<byte>, m': seq<byte>, at: nat, r: Region)
    requires Tagged(m, r) && Zeroed(m, m', at, CLEARED) && (r.End() <= at || at + CLEARED <= r.addr)
    ensures Tagged(m', r)
  {
  }

  /** The magic number's lowest byte is not zero. */
  lemma MagicLost(m: seq<byte>, a: nat)
    requires a + 4 <= |m| && m[a] == 0
    ensures Get32(m, a) != HEAP_MAGIC
  {
    FourBytes(m[a], m[a + 1], m[a + 2], m[a + 3]);
  }

  lemma TagNotZero(m: seq<byte>, r: Region)
    requires Tagged(m, r)
    ensures m[r.End() - 8] != 0
  {
    hide Get32;
    if m[r.End() - 8] == 0 { MagicLost(m, r.End() - 8); }
  }

  // ----- 32-bit sizes, src/kheap.c:120-126 and 189

  function AsSigned(w: u32): int { if w < 0x8000_0000 then w else w - TWO_TO_THE_32 }

  /**
    The aligned search compares as signed numbers. With holes below 2 GiB it answers
    rightly for requests below 2 GiB, and for larger ones only where it still says no.
   */
  lemma SignedSearch(size: u32, offset: nat, newSize: u32)
    requires size < 0x8000_0000 && offset < PAGE_SIZE
    ensures (AsSigned(newSize) <= AsSigned(size) - offset <==> newSize <= size - offset)
            <==> newSize < 0x8000_0000 || size - offset < newSize - TWO_TO_THE_32
  {
  }

  /** The tags are added in 32 bits: the sum is the block's real size exactly when it stays below 4 GiB. */
  lemma SizeWithTags(size: u32)
    ensures size + TAGS <= (size + TAGS) % TWO_TO_THE_32 <==> size < TWO_TO_THE_32 - TAGS
  {
  }
}
