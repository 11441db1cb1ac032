/**
  The kernel heap (src/kheap.c): boundary-tagged regions in byte memory, a sorted
  index of holes, and an end that moves as frames are mapped and unmapped.
 */
module KernelHeap {
  import opened Words
  import opened Regions
  import opened OrderedArrays
  import opened HeapState
  import opened HeapMoves
  import opened HeapRuns
  import opened Bitmap
  import P = Paging

  const HEAP_MIN_SIZE: nat := 0x70000

  const HEAP_INDEX_SIZE: nat := 0x20000

  /** Where the first header goes: behind the index, strictly up to a page boundary. */
  function FirstHeader(first: nat): (h: nat)
    ensures h % PAGE_SIZE == 0 && h - PAGE_SIZE <= first + 4 * HEAP_INDEX_SIZE < h
  {
    NextPage(first + 4 * HEAP_INDEX_SIZE)
  }

  datatype AllocResult = Allocated(p: nat) | HeapFull | NoFrames

  datatype Grown = Done | OverMaximum | OutOfFrames

  class Heap {
    const mem: array<byte>            // memory by absolute address, up to `max`
    const index: OrderedArray<nat>    // header addresses of the holes
    const vm: P.PhysicalMemory
    const kernel: P.PageDirectory
    const start: nat
    const max: nat
    const supervisor: bool
    const readonly: bool
    var end: nat
    ghost var regions: seq<Region>

    // ----- What holds between calls

    ghost predicate Base()
      reads this, index, vm
    {
      && 0 < start && start % PAGE_SIZE == 0 && max == mem.Length < TWO_TO_THE_32
      && index.Valid() && Separate()
    }

    /** The heap's own objects are apart from those of the memory manager. */
    ghost predicate Separate()
      reads this, index, vm
    {
      var own: set<object> := {this, mem, index, index.data};
      var space: set<object> := {vm, vm.frames, vm.memory, kernel};
      && mem as object != index.data && own !! space
      && forall t :: t in vm.pageTables ==> t as object !in own
    }

    /**
      Every page of the heap has a frame; both ends are page-aligned and within bounds.
      All pages up to the maximum have their tables, so that growing never makes one.
     */
    ghost predicate Mapped()
      reads this, vm, vm.frames, vm.pageTables, kernel
    {
      && vm.Valid() && vm.Knows(kernel) && vm.Apart(kernel)
      && vm.Tabled(kernel, start / PAGE_SIZE, max / PAGE_SIZE)
      && end % PAGE_SIZE == 0 && start + HEAP_MIN_SIZE <= end <= max < TWO_TO_THE_32
      && forall p :: start / PAGE_SIZE <= p < end / PAGE_SIZE ==> vm.EntryAt(kernel, p).frame != 0
    }

    /** The regions tile [start, e), tagged, without adjacent holes; the index holds the holes not pending. */
    ghost predicate Layout(e: nat, pending: set<nat>)
      requires index.Valid()
      reads this, mem, index, index.data
    {
      && Laid(mem[..], regions, start, e) && NoAdjacentHoles(regions)
      && Indexed(mem[..], regions, index.Contents(), pending)
    }

    /** The page entries of the kernel's directory, in order. */
    ghost function Pages(): seq<P.Page>
      requires vm.Valid() && vm.Knows(kernel)
      reads vm, vm.frames, vm.pageTables, kernel
    {
      vm.Entries(kernel)
    }

    /** As the end moved on from `from` to `to`, the pages between got frames; no other page changed. */
    ghost predicate Added(was: seq<P.Page>, now: seq<P.Page>, from: nat, to: nat) {
      P.Framed(was, now, from / PAGE_SIZE, to / PAGE_SIZE, supervisor, !readonly)
    }

    /** As the end moved back from `from` to `to`, the pages between lost their frames; no other page changed. */
    ghost predicate Returned(was: seq<P.Page>, now: seq<P.Page>, from: nat, to: nat) {
      P.Unframed(was, now, to / PAGE_SIZE, from / PAGE_SIZE)
    }

    lemma AddedTwice(was: seq<P.Page>, mid: seq<P.Page>, now: seq<P.Page>, a: nat, b: nat, c: nat)
      requires Added(was, mid, a, b) && Added(mid, now, b, c) && a <= b <= c
      ensures Added(was, now, a, c)
    {
      P.FramedTwice(was, mid, now, a / PAGE_SIZE, b / PAGE_SIZE, c / PAGE_SIZE, supervisor, !readonly);
    }

    /** Frames ran out while the end stood at `to`: pages up to somewhere between it and `bound` got frames as well. */
    ghost predicate AddedPast(was: seq<P.Page>, now: seq<P.Page>, from: nat, to: nat, bound: nat) {
      exists upTo :: to <= upTo < bound && upTo % PAGE_SIZE == 0 && Added(was, now, from, upTo)
    }

    lemma AddedPastTwice(was: seq<P.Page>, mid: seq<P.Page>, now: seq<P.Page>, a: nat, b: nat, c: nat, bound: nat)
      requires Added(was, mid, a, b) && AddedPast(mid, now, b, c, bound) && a <= b <= c
      ensures AddedPast(was, now, a, c, bound)
    {
      var upTo :| c <= upTo < bound && upTo % PAGE_SIZE == 0 && Added(mid, now, b, upTo);
      AddedTwice(was, mid, now, a, b, upTo);
    }

    lemma NoneAdded(was: seq<P.Page>, e: nat)
      ensures Added(was, was, e, e) && Returned(was, was, e, e)
    {
    }

    ghost predicate Valid()
      reads this, mem, index, index.data, vm, vm.frames, vm.pageTables, kernel
    {
      Base() && Mapped() && Layout(end, {})
    }

    /**
      create_heap: the index takes the first 4 * HEAP_INDEX_SIZE bytes, and the rest,
      from the next page on, is one large hole. Its footer is written too.
     */
    constructor (first: nat, endAddress: nat, maximum: nat, supervisor: bool, readonly: bool,
                 memory: array<byte>, vm: P.PhysicalMemory, kernel: P.PageDirectory)
      requires first % PAGE_SIZE == 0 && endAddress % PAGE_SIZE == 0 && memory.Length == maximum < TWO_TO_THE_32
      requires FirstHeader(first) + HEAP_MIN_SIZE <= endAddress <= maximum
      requires vm.Valid() && vm.Knows(kernel) && vm.Apart(kernel)
      requires vm.Tabled(kernel, FirstHeader(first) / PAGE_SIZE, maximum / PAGE_SIZE)
      requires {memory as object} !! {vm, vm.frames, vm.memory, kernel}
      requires forall t :: t in vm.pageTables ==> t as object != memory
      requires forall p :: FirstHeader(first) / PAGE_SIZE <= p < endAddress / PAGE_SIZE ==> vm.EntryAt(kernel, p).frame != 0
      modifies memory
      ensures Valid() && start == FirstHeader(first) && end == endAddress && max == maximum
      ensures mem == memory && this.vm == vm && this.kernel == kernel
      ensures this.supervisor == supervisor && this.readonly == readonly
      ensures fresh(index) && fresh(index.data) && index.size == 1 && index.data.Length == HEAP_INDEX_SIZE
      ensures regions == [Region(start, end - start, true)]
    {
      mem, this.vm, this.kernel, max := memory, vm, kernel, maximum;
      this.supervisor, this.readonly := supervisor, readonly;
      index := new OrderedArray(HEAP_INDEX_SIZE);
      start, end := FirstHeader(first), endAddress;
      new;
      hide P.PhysicalMemory.Held, P.PhysicalMemory.Marked, P.PhysicalMemory.Apart, P.PhysicalMemory.EntryAt;
      FirstRegion();
    }

    /** The last lines of create_heap: one hole fills the heap. */
    method FirstRegion()
      requires Base() && Mapped() && index.Contents() == [] && index.data.Length == HEAP_INDEX_SIZE
      modifies this`regions, mem, index, index.data
      ensures Valid() && regions == [Region(start, end - start, true)] && index.data == old(index.data) && index.size == 1
    {
      hide Laid, Tagged, Indexed, NoAdjacentHoles, PutRegion, Inserted;
      hide P.PhysicalMemory.Valid, P.PhysicalMemory.Apart, P.PhysicalMemory.EntryAt, P.PhysicalMemory.Entries;
      hide Added, AddedPast, Returned;
      ghost var m := mem[..];
      var hole := Region(start, end - start, true);
      FirstHole(m, hole);
      WriteRegion(hole);
      regions := [hole];
      index.Insert(start, Smaller(mem[..]));
    }

    // ----- Stores and loads

    method WriteHeader(h: nat, hole: bool, size: u32)
      requires h + HEADER <= mem.Length
      modifies mem
      ensures mem[..] == PutHeader(old(mem[..]), h, hole, size)
    {
      StoreWord(mem, h, HEAP_MAGIC);
      mem[h + 4] := if hole then 1 else 0;
      StoreWord(mem, h + 8, size);
    }

    method WriteFooter(f: nat, h: u32)
      requires f + FOOTER <= mem.Length
      modifies mem
      ensures mem[..] == PutFooter(old(mem[..]), f, h)
    {
      StoreWord(mem, f, HEAP_MAGIC);
      StoreWord(mem, f + 4, h);
    }

    method WriteRegion(r: Region)
      requires TAGS <= r.size && r.End() <= mem.Length < TWO_TO_THE_32
      modifies mem
      ensures mem[..] == PutRegion(old(mem[..]), r)
    {
      WriteHeader(r.addr, r.hole, r.size);
      WriteFooter(r.End() - FOOTER, r.addr);
    }

    // ----- expand and contract

    /** What expand and contract leave alone. */
    twostate predicate SameLayout()
      reads this, mem, index, index.data
    {
      && regions == old(regions) && mem[..] == old(mem[..])
      && index.data == old(index.data) && index.size == old(index.size) && index.data[..] == old(index.data[..])
    }

    /**
      expand: the new end is the first page boundary behind the length asked for; the maximum
      is passed exactly when no such boundary is within it.
     */
    method Expand(asked: nat) returns (r: Grown)
      requires Base() && Mapped() && end - start < asked
      modifies this`end, vm, vm.frames, vm.pageTables, kernel
      ensures Base() && Mapped() && SameLayout()
      ensures r == Done ==> end == start + NextPage(asked)
      ensures r == Done ==> end % PAGE_SIZE == 0 && end - PAGE_SIZE <= start + asked < end
      ensures r == Done ==> Added(old(Pages()), Pages(), old(end), end)
      ensures P.LowestFirst(old(Pages()), Pages(), old(vm.frames[..]), vm.frames[..])
      ensures r == OverMaximum ==> Pages() == old(Pages())
      ensures r == OutOfFrames ==> AddedPast(old(Pages()), Pages(), end, end, start + NextPage(asked))
      ensures r != Done ==> end == old(end)
      ensures r == OverMaximum <==> max < start + NextPage(asked)
      ensures r == OverMaximum <==> forall a: nat :: PageBoundary(a) && start + asked < a ==> max < a
      ensures r == OutOfFrames ==> AllTaken(vm.frames[..])
      ensures vm.pageTables == old(vm.pageTables)
    {
      hide P.PhysicalMemory.Valid, P.PhysicalMemory.EntryAt, P.PhysicalMemory.Apart, P.PhysicalMemory.Entries;
      hide P.Framed, P.LowestFirst, AllTaken;
      FirstBoundaryBehind(start, asked, max);
      P.LowestNone(Pages(), vm.frames[..]);
      var newSize := NextPage(asked);
      if start + newSize > max { return OverMaximum; }
      var ok := MapUpTo(newSize);
      if !ok { return OutOfFrames; }
      end := start + newSize;
      r := Done;
    }

    /** The loop of expand: every page from the old end up to `newSize` gets a frame. */
    method MapUpTo(newSize: nat) returns (ok: bool)
      requires Base() && Mapped() && end - start <= newSize && newSize % PAGE_SIZE == 0 && start + newSize <= max
      modifies vm, vm.frames, vm.pageTables, kernel
      ensures Base() && Mapped() && SameLayout() && vm.pageTables == old(vm.pageTables)
      ensures ok ==> forall p :: start / PAGE_SIZE <= p < (start + newSize) / PAGE_SIZE ==> vm.EntryAt(kernel, p).frame != 0
      ensures ok ==> Added(old(Pages()), Pages(), end, start + newSize)
      ensures P.LowestFirst(old(Pages()), Pages(), old(vm.frames[..]), vm.frames[..])
      ensures !ok ==> AllTaken(vm.frames[..]) && AddedPast(old(Pages()), Pages(), end, end, start + newSize)
    {
      hide P.PhysicalMemory.Valid, P.PhysicalMemory.EntryAt, P.PhysicalMemory.Apart, P.PhysicalMemory.Entries;
      hide P.Framed, P.LowestFirst, AllTaken;
      ghost var pages, from, to := Pages(), end / PAGE_SIZE, (start + newSize) / PAGE_SIZE;
      ok := vm.MapArea(kernel, end / PAGE_SIZE, (start + newSize) / PAGE_SIZE, supervisor, !readonly);
      if ok {
        StillMapped(pages, from, to);
      } else {
        ghost var n: nat :| from <= n < to && P.Framed(pages, Pages(), from, n, supervisor, !readonly);
        StillMapped(pages, from, n);
        assert n * PAGE_SIZE / PAGE_SIZE == n && Added(pages, Pages(), end, n * PAGE_SIZE);
      }
    }

    /** The heap's pages keep their frames, and the pages that were given one have one. */
    lemma StillMapped(was: seq<P.Page>, from: nat, to: nat)
      requires vm.Valid() && vm.Knows(kernel) && P.Framed(was, Pages(), from, to, supervisor, !readonly)
      requires forall p :: start / PAGE_SIZE <= p < from && p < |was| ==> was[p].frame != 0
      ensures forall p :: start / PAGE_SIZE <= p < to && p < P.ENTRIES * P.ENTRIES ==> vm.EntryAt(kernel, p).frame != 0
    {
      hide P.PhysicalMemory.EntryAt, P.PhysicalMemory.Entries;
      forall p | start / PAGE_SIZE <= p < to && p < P.ENTRIES * P.ENTRIES ensures vm.EntryAt(kernel, p).frame != 0 {
        assert Pages()[p] == vm.EntryAt(kernel, p);
      }
    }

    method Contract(asked: nat) returns (newSize: nat)
      requires Base() && Mapped() && asked + TAGS <= end - start
      modifies this`end, vm, vm.frames, vm.pageTables, kernel
      ensures Base() && Mapped() && SameLayout()
      ensures newSize == ContractedLength(asked, HEAP_MIN_SIZE) && end == start + newSize <= old(end)
      ensures Returned(old(Pages()), Pages(), old(end), end)
      ensures asked + TAGS <= newSize && vm.pageTables == old(vm.pageTables)
    {
      hide P.PhysicalMemory.Valid, P.PhysicalMemory.EntryAt, P.PhysicalMemory.Apart, P.PhysicalMemory.Entries, P.Unframed;
      var oldSize := end - start;
      ContractKeepsAHole(asked, HEAP_MIN_SIZE, oldSize);
      newSize := ContractedLength(asked, HEAP_MIN_SIZE);
      UnmapDownTo(newSize);
      end := start + newSize;
    }

    /** The loop of contract: every page from the old end down to `newSize` is given back. */
    method UnmapDownTo(newSize: nat)
      requires Base() && Mapped() && HEAP_MIN_SIZE <= newSize <= end - start && newSize % PAGE_SIZE == 0
      modifies vm, vm.frames, vm.pageTables, kernel
      ensures Base() && vm.Valid() && vm.Knows(kernel) && vm.Apart(kernel) && kernel.tables == old(kernel.tables) && SameLayout()
      ensures P.Unframed(old(Pages()), Pages(), (start + newSize) / PAGE_SIZE, end / PAGE_SIZE)
      ensures vm.pageTables == old(vm.pageTables)
      ensures forall p :: start / PAGE_SIZE <= p < (start + newSize) / PAGE_SIZE ==> vm.EntryAt(kernel, p).frame != 0
    {
      hide P.PhysicalMemory.Held, P.PhysicalMemory.Marked, P.PhysicalMemory.EntryAt, P.PhysicalMemory.Apart;
      hide P.PhysicalMemory.Entries, P.Unframed;
      ghost var pages := Pages();
      vm.UnmapArea(kernel, (start + newSize) / PAGE_SIZE, end / PAGE_SIZE);
      StillHeld(pages, (start + newSize) / PAGE_SIZE, end / PAGE_SIZE);
    }

    /** Pages in front of those given back keep their frames. */
    lemma StillHeld(was: seq<P.Page>, from: nat, to: nat)
      requires vm.Valid() && vm.Knows(kernel) && P.Unframed(was, Pages(), from, to) && from <= to
      requires forall p :: start / PAGE_SIZE <= p < to && p < |was| ==> was[p].frame != 0
      ensures forall p :: start / PAGE_SIZE <= p < from && p < P.ENTRIES * P.ENTRIES ==> vm.EntryAt(kernel, p).frame != 0
    {
      hide P.PhysicalMemory.EntryAt, P.PhysicalMemory.Entries;
      forall p | start / PAGE_SIZE <= p < from && p < P.ENTRIES * P.ENTRIES ensures vm.EntryAt(kernel, p).frame != 0 {
        assert Pages()[p] == vm.EntryAt(kernel, p);
      }
    }

    // ----- find_smallest_hole

    /**
      The first entry of the index that fits. As the index is sorted by size, no
      smaller hole fits; `i` is its region.
     */
    method FindSmallestHole(newSize: nat, pageAlign: bool) returns (r: Option<nat>, ghost i: nat)
      requires Base() && Layout(end, {}) && 0 < newSize && end <= mem.Length
      ensures r.Some? ==> r.value < index.size && BestFit(regions, i, newSize, pageAlign)
                          && regions[i].addr == index.Contents()[r.value]
      ensures r.Some? ==> FirstEntry(regions, index.Contents(), i, newSize, pageAlign)
      ensures r.None? ==> NoFit(regions, newSize, pageAlign)
    {
      hide Laid, Tiles, Indexed, NoneBefore, NoFit, BestFit, AlignGap;
      i := 0;
      var k := 0;
      ghost var m, found := mem[..], index.Contents();
      NoneBeforeFirst(regions, found, newSize, pageAlign);
      LaidTiles(m, regions, start, end);
      while k < index.size
        invariant k <= index.size && NoneBefore(regions, found, k, newSize, pageAlign)
      {
        var header := index.Lookup(k);
        i := IndexedRegion(m, regions, start, end, found, k);
        var size := LoadWord(mem, header + 8);
        var offset := if pageAlign then AlignGap(header) else 0;
        if size >= offset + newSize {
          FirstFitIsBest(m, regions, start, end, found, k, i, newSize, pageAlign);
          return Some(k), i;
        }
        NotThisOne(regions, start, end, found, k, i, newSize, pageAlign);
        k := k + 1;
      }
      NoFitAtAll(m, regions, found, newSize, pageAlign);
      return None, i;
    }

    // ----- Changes to the index and to holes

    /** The search for a header in the index, and its removal. */
    method RemoveEntry(header: nat) returns (ghost k: nat)
      requires index.Valid() && index.size < index.data.Length && header in index.Contents()
      modifies index, index.data
      ensures index.Valid() && index.data == old(index.data) && index.size == old(index.size) - 1
      ensures k < |old(index.Contents())| && old(index.Contents())[k] == header
      ensures index.Contents() == Removed(old(index.Contents()), k)
    {
      var at := 0;
      while at < index.size && index.data[at] != header
        invariant at <= index.size && header !in index.Contents()[..at]
      {
        at := at + 1;
      }
      assert index.Contents()[..index.size] == index.Contents();
      k := at;
      index.Remove(at);
    }

    method ResizeHole(h: nat, size: nat)
      requires TAGS <= size && h + size <= mem.Length < TWO_TO_THE_32
      modifies mem
      ensures mem[..] == PutFooter(Put32(old(mem[..]), h + 8, size), h + size - FOOTER, h)
    {
      StoreWord(mem, h + 8, size);
      WriteFooter(h + size - FOOTER, h);
    }

    // ----- The end of the heap

    /**
      The endmost header of the index (endmost in location, not in size), if its hole
      ends at `oldEnd`; -1 otherwise.
     */
    method EndmostHeader(oldEnd: nat) returns (idx: int, value: nat)
      requires Base() && Layout(oldEnd, {}) && start < oldEnd <= mem.Length
      ensures -1 <= idx < index.size && (idx >= 0 <==> regions[|regions| - 1].hole)
      ensures idx >= 0 ==> value == index.Contents()[idx] == regions[|regions| - 1].addr
    {
      hide Laid, Indexed, Get32, NoAdjacentHoles;
      ghost var found := index.Contents();
      var at := 0;
      idx, value := -1, 0;
      while at < index.size
        invariant at <= index.size && -1 <= idx < at
        invariant (idx == -1 ==> value == 0) && (idx >= 0 ==> value == found[idx])
        invariant forall k :: 0 <= k < at ==> found[k] <= value
      {
        var tmp := index.Lookup(at);
        if tmp > value { value, idx := tmp, at; }
        at := at + 1;
      }
      LaidTiles(mem[..], regions, start, oldEnd);
      EndmostHole(mem[..], regions, start, oldEnd, found, idx, value);
      if idx >= 0 {
        ghost var q := IndexedRegion(mem[..], regions, start, oldEnd, found, idx);
        var size := LoadWord(mem, value + 8);
        if value + size != oldEnd { idx := -1; }
      }
    }

    /** The region map once the end has moved on from `oldEnd`. */
    twostate predicate EndMoved(oldEnd: nat)
      reads this, mem, index
    {
      && CutAt(old(regions), oldEnd, TailNumber(old(regions))) <= end
      && regions == Retailed(old(regions), oldEnd, end)
      && Blocks(regions) == Blocks(old(regions)) && BytesKept(old(mem[..]), mem[..], Blocks(old(regions)))
      && index.data == old(index.data)
    }

    /** The last hole leaves the index, gets its new size and footer, and returns to it. */
    method StretchHole(idx: nat, value: nat, oldEnd: nat)
      requires Base() && Layout(oldEnd, {}) && start < oldEnd <= end <= mem.Length
      requires idx < index.size < index.data.Length && value == index.Contents()[idx]
      requires regions != [] && regions[|regions| - 1].hole && regions[|regions| - 1].addr == value
      requires value + TAGS <= end
      modifies this`regions, mem, index, index.data
      ensures Base() && Layout(end, {}) && EndMoved(oldEnd) && index.size == old(index.size)
    {
      hide Laid, Tiles, Indexed, Tagged, PutFooter, Put32, Removed, NoAdjacentHoles, Inserted, Blocks, BytesKept;
      ghost var m, rs := mem[..], regions;
      IndexRemove(m, rs, index.Contents(), {}, idx);
      assert {} + {value} == {value};
      index.Remove(idx);
      assert mem[..] == m;
      ghost var found := index.Contents();
      ResizeHole(value, end - value);
      assert index.Contents() == found;
      var m' := mem[..];
      ghost var x := Region(value, end - value, true);
      GrowTags(m, m', rs, start, oldEnd, rs[|rs| - 1], x);
      Regrown(m, m', rs, start, oldEnd, found, {value}, x);
      regions := Retailed(rs, oldEnd, end);
      index.Insert(value, Smaller(m'));
      assert mem[..] == m';
    }

    /** Behind a last block, a new hole fills [oldEnd, end) and enters the index. */
    method AppendHole(oldEnd: nat)
      requires Base() && Layout(oldEnd, {}) && start < oldEnd && oldEnd + TAGS <= end <= mem.Length
      requires regions != [] && !regions[|regions| - 1].hole && index.size < index.data.Length
      modifies this`regions, mem, index, index.data
      ensures Base() && Layout(end, {}) && EndMoved(oldEnd) && index.size == old(index.size) + 1
    {
      hide Laid, Tiles, Indexed, Tagged, PutRegion, NoAdjacentHoles, Inserted, Blocks, BytesKept;
      ghost var m, rs, found := mem[..], regions, index.Contents();
      var x := Region(oldEnd, end - oldEnd, true);
      PutRegionTags(m, x);
      WriteRegion(x);
      assert index.Contents() == found;
      var m' := mem[..];
      Regrown(m, m', rs, start, oldEnd, found, {}, x);
      regions := Retailed(rs, oldEnd, end);
      index.Insert(oldEnd, Smaller(m'));
      assert mem[..] == m';
    }

    /**
      After an expansion: the endmost hole grows up to the new end if it ends at the
      old one, otherwise the new bytes become a hole of their own.
     */
    method GrowEnd(oldEnd: nat)
      requires Base() && Layout(oldEnd, {}) && start < oldEnd && oldEnd + TAGS <= end <= mem.Length
      requires index.size < index.data.Length
      modifies this`regions, mem, index, index.data
      ensures Base() && Layout(end, {}) && EndMoved(oldEnd)
      ensures index.size == old(index.size) + (if TailNumber(old(regions)) == |old(regions)| then 1 else 0)
    {
      var idx, value := EndmostHeader(oldEnd);
      LaidTiles(mem[..], regions, start, oldEnd);
      LastRegion(regions, start, oldEnd);
      hide Laid, Tiles, Indexed, NoAdjacentHoles, Blocks, BytesKept, Retailed;
      if idx >= 0 {
        StretchHole(idx, value, oldEnd);
      } else {
        AppendHole(oldEnd);
      }
    }

    // ----- The parts of alloc

    /** The tags of the regions a hole is carved into. */
    method WritePieces(h: Region, gap: nat, size: nat)
      requires Carvable(h, gap, size) && h.End() <= mem.Length < TWO_TO_THE_32
      modifies mem
      ensures Writable(old(mem[..]), Pieces(h, gap, size))
      ensures mem[..] == PutRegions(old(mem[..]), Pieces(h, gap, size))
    {
      hide PutRegion, PutRegions, Writable, Pieces;
      ghost var m := mem[..];
      NothingPut(m);
      ghost var written: seq<Region> := [];
      if gap > 0 {
        WriteNext(FrontHole(h, gap), m, written);
        written := written + [FrontHole(h, gap)];
      }
      WriteNext(Region(h.addr + gap, size, false), m, written);
      written := written + [Region(h.addr + gap, size, false)];
      if gap + size < h.size {
        WriteNext(BackHole(h, gap, size), m, written);
        written := written + [BackHole(h, gap, size)];
      }
      PiecesAre(h, gap, size);
      assert written == Pieces(h, gap, size);
    }

    /** One more region's tags, after those of `written`. */
    method WriteNext(r: Region, ghost m: seq<byte>, ghost written: seq<Region>)
      requires Writable(m, written) && mem[..] == PutRegions(m, written)
      requires TAGS <= r.size && r.End() <= |m| == mem.Length < TWO_TO_THE_32
      modifies mem
      ensures Writable(m, written + [r]) && mem[..] == PutRegions(m, written + [r])
    {
      hide PutRegion, PutRegions, Writable;
      PutOneMore(m, written, r);
      WriteRegion(r);
    }

    /** The holes left by carving enter the index. */
    method EnterPieces(h: Region, gap: nat, size: nat)
      requires Base() && Carvable(h, gap, size) && Layout(end, HolesOf(Pieces(h, gap, size)))
      requires gap > 0 ==> FrontHole(h, gap) in regions
      requires gap + size < h.size ==> BackHole(h, gap, size) in regions
      requires index.size + 1 < index.data.Length
      modifies index, index.data
      ensures Base() && Layout(end, {}) && index.data == old(index.data) && index.size <= old(index.size) + 2
      ensures mem[..] == old(mem[..])
    {
      hide Laid, Indexed, NoAdjacentHoles, Inserted, HolesOf, Pieces;
      var m := mem[..];
      ghost var found := index.Contents();
      PiecesHoles(h, gap, size);
      ghost var pending := HolesOf(Pieces(h, gap, size));
      if gap > 0 {
        var front := FrontHole(h, gap);
        Enter(m, regions, start, end, found, pending, front);
        index.Insert(front.addr, Smaller(m));
        pending := pending - {front.addr};
      }
      found := index.Contents();
      assert mem[..] == m;
      if gap + size < h.size {
        var back := BackHole(h, gap, size);
        Enter(m, regions, start, end, found, pending, back);
        index.Insert(back.addr, Smaller(m));
        pending := pending - {back.addr};
      }
      assert mem[..] == m && pending == {};
    }

    /** The rest of alloc once a hole is found: entry `k` of the index, region `i`. */
    method CarveBlock(k: nat, ghost i: nat, size: nat, pageAlign: bool) returns (p: nat, ghost b: Region)
      requires Base() && Layout(end, {}) && end <= mem.Length && index.size < index.data.Length && k < index.size
      requires i < |regions| && Fits(regions[i], size + TAGS, pageAlign) && regions[i].addr == index.Contents()[k]
      modifies this`regions, mem, index, index.data
      ensures Base() && Layout(end, {}) && index.data == old(index.data) && index.size <= old(index.size) + 1
      ensures b == BlockIn(old(regions)[i], size + TAGS, pageAlign) && p == b.Payload()
      ensures regions == Carved(old(regions), i, b)
      ensures BlockAdded(old(regions), regions, b) && BytesKept(old(mem[..]), mem[..], Blocks(old(regions)))
    {
      hide Laid, Indexed, NoAdjacentHoles, Tiles, Get32, Removed, HolesOf, Pieces, PutRegions, Replace, Carved;
      hide Blocks, BytesKept, BlockAdded, AlignGap, Carvable;
      ghost var m, rs, h := mem[..], regions, regions[i];
      ghost var q := IndexedRegion(m, rs, start, end, index.Contents(), k);
      LaidTiles(m, rs, start, end);
      SameAddr(rs, start, end, i, q);
      var origPos := index.Lookup(k);
      var origSize := LoadWord(mem, origPos + 8);
      var hole := Region(origPos, origSize, true);
      assert hole == h;
      IndexRemove(m, rs, index.Contents(), {}, k);
      assert {} + {origPos} == {origPos};
      index.Remove(k);
      ghost var found := index.Contents();
      var newSize := size + TAGS;
      var gap := if pageAlign then AlignGap(origPos) else 0;
      if origSize - gap - newSize < TAGS {
        newSize := origSize - gap;
      }
      b := Region(origPos + gap, newSize, false);
      assert b == BlockIn(h, size + TAGS, pageAlign);
      RequestServed(h, size + TAGS, pageAlign);
      CutAfter(rs, start, end, i);
      WritePieces(hole, gap, newSize);
      assert index.Contents() == found;
      ghost var ps := Pieces(h, gap, newSize);
      Carve(m, mem[..], rs, start, end, found, i, gap, ps, b);
      PiecesHoles(h, gap, newSize);
      regions := Replace(rs, i, i + 1, ps);
      CarvedIs(rs, i, gap, b);
      PiecesEntered(rs, i, ps);
      EnterPieces(hole, gap, newSize);
      p := origPos + gap + HEADER;
    }

    /** The part of alloc that makes room: expand, then the endmost hole or a new one. */
    method Extend(newSize: nat) returns (r: Grown)
      requires Valid() && TAGS <= newSize && index.size < index.data.Length
      modifies this`end, this`regions, mem, index, index.data, vm, vm.frames, vm.pageTables, kernel
      ensures Valid()
      ensures r == Done ==>
        && end == old(end) + Growth(newSize) && EndMoved(old(end))
        && index.size == old(index.size) + (if TailNumber(old(regions)) == |old(regions)| then 1 else 0)
      ensures r != Done ==> SameLayout() && end == old(end)
      ensures r == OverMaximum ==> max < end + Growth(newSize)
      ensures r == OutOfFrames ==> end + Growth(newSize) <= max
      ensures r != OutOfFrames ==> Added(old(Pages()), Pages(), old(end), end)
      ensures r == OutOfFrames ==> AllTaken(vm.frames[..]) && AddedPast(old(Pages()), Pages(), end, end, end + Growth(newSize))
      ensures vm.pageTables == old(vm.pageTables)
      ensures index.data == old(index.data)
    {
      hide Laid, Indexed, NoAdjacentHoles, Blocks, BytesKept, Retailed, AllTaken;
      hide P.PhysicalMemory.Valid, P.PhysicalMemory.Apart, P.PhysicalMemory.EntryAt, P.PhysicalMemory.Entries;
      hide Added, AddedPast, Returned;
      var oldEnd := end;
      GrowthIsExpansion(end - start, newSize);
      NoneAdded(Pages(), end);
      r := Expand(end - start + newSize);
      if r == Done {
        GrowEnd(oldEnd);
      }
    }

    /** The whole outcome of alloc. */
    twostate predicate Answered(newSize: nat, pageAlign: bool, r: AllocResult, b: Region, at: nat, grown: nat)
      reads this, mem, index, vm, vm.frames
    {
      && index.data == old(index.data) && vm.pageTables == old(vm.pageTables)
      && BytesKept(old(mem[..]), mem[..], Blocks(old(regions)))
      && match r
         case Allocated(p) =>
           && p == b.Payload() && BlockAdded(old(regions), regions, b)
           && Served(old(regions), old(end), regions, end, newSize, pageAlign, grown, at, b)
         case HeapFull =>
           && Blocks(regions) == Blocks(old(regions)) && Refused(old(regions), old(end), regions, end, newSize, pageAlign, grown)
           && max < end + Growth(newSize)
         case NoFrames =>
           && Blocks(regions) == Blocks(old(regions)) && Refused(old(regions), old(end), regions, end, newSize, pageAlign, grown)
           && AllTaken(vm.frames[..]) && end + Growth(newSize) <= max
    }

    /** alloc, knowing that at most `k` growths are needed before the request fits. */
    method AllocWithin(size: nat, pageAlign: bool, ghost k: nat)
      returns (r: AllocResult, ghost b: Region, ghost at: nat, ghost grown: nat)
      requires Valid() && TailStart(regions, end) <= end && Certain(regions, end, size + TAGS, pageAlign, k)
      requires index.size + (if TailNumber(regions) == |regions| then 1 else 0) < index.data.Length
      modifies this`end, this`regions, mem, index, index.data, vm, vm.frames, vm.pageTables, kernel
      ensures Valid() && grown <= k && Answered(size + TAGS, pageAlign, r, b, at, grown)
      ensures r.Allocated? && grown == 0 ==> FirstEntry(old(regions), old(index.Contents()), at, size + TAGS, pageAlign)
      ensures old(end) <= end
      ensures r != NoFrames ==> Added(old(Pages()), Pages(), old(end), end)
      ensures r == NoFrames ==> AddedPast(old(Pages()), Pages(), old(end), end, end + Growth(size + TAGS))
      decreases max - end, 1
    {
      hide Laid, Tiles, Indexed, NoAdjacentHoles, Blocks, AllTaken, NoFit, Carved, BytesKept, FirstEntry;
      hide P.PhysicalMemory.Valid, P.PhysicalMemory.Apart, P.PhysicalMemory.EntryAt, P.PhysicalMemory.Entries;
      hide Added, AddedPast, Returned;
      var found;
      found, at := FindSmallestHole(size + TAGS, pageAlign);
      if found.None? {
        r, b, at, grown := AllocByGrowing(size, pageAlign, k);
      } else {
        var p;
        grown := 0;
        NoneAdded(Pages(), end);
        p, b := CarveBlock(found.value, at, size, pageAlign);
        r := Allocated(p);
      }
    }

    lemma RegionsTile()
      requires Valid()
      ensures Tiles(regions, start, end)
    {
      LaidTiles(mem[..], regions, start, end);
    }

    /** One expansion for a request that nothing fits: either the request is one growth nearer to fitting, or it is refused. */
    method GrowOnce(newSize: nat, pageAlign: bool, ghost k: nat) returns (more: Grown)
      requires Valid() && TAGS <= newSize && TailStart(regions, end) <= end && Certain(regions, end, newSize, pageAlign, k)
      requires index.size + (if TailNumber(regions) == |regions| then 1 else 0) < index.data.Length
      requires NoFit(regions, newSize, pageAlign)
      modifies this`end, this`regions, mem, index, index.data, vm, vm.frames, vm.pageTables, kernel
      ensures Valid() && index.data == old(index.data) && vm.pageTables == old(vm.pageTables)
      ensures Tiles(old(regions), start, old(end)) && BytesKept(old(mem[..]), mem[..], Blocks(old(regions)))
      ensures Blocks(regions) == Blocks(old(regions))
      ensures more == Done ==>
        && 0 < k && old(end) < end == old(end) + Growth(newSize) && regions == Retailed(old(regions), old(end), end)
        && TailStart(regions, end) <= end && Certain(regions, end, newSize, pageAlign, k - 1)
        && TailNumber(regions) < |regions| && index.size < index.data.Length
      ensures more != Done ==> end == old(end) && Refused(old(regions), end, regions, end, newSize, pageAlign, 0)
      ensures more == OverMaximum ==> max < end + Growth(newSize)
      ensures more == OutOfFrames ==> end + Growth(newSize) <= max
      ensures more != OutOfFrames ==> Added(old(Pages()), Pages(), old(end), end)
      ensures more == OutOfFrames ==> AllTaken(vm.frames[..]) && AddedPast(old(Pages()), Pages(), end, end, end + Growth(newSize))
    {
      hide Layout, Separate, Tiles, Blocks, Retailed, AllTaken, NoFit, BytesKept, Refused;
      hide P.PhysicalMemory.Valid, P.PhysicalMemory.Apart, P.PhysicalMemory.EntryAt, P.PhysicalMemory.Entries;
      hide Added, AddedPast, Returned, Certain, TailStart;
      ghost var m, rs, hi := mem[..], regions, end;
      RegionsTile();
      if k == 0 { CertainFits(rs, start, hi, newSize, pageAlign); }
      more := Extend(newSize);
      if more == Done {
        CertainNearer(rs, start, hi, newSize, pageAlign, k);
      } else {
        KeptSelf(m, Blocks(rs));
        RefusedAtOnce(rs, hi, newSize, pageAlign);
        assert mem[..] == m;
      }
    }

    /** The branch of alloc that makes room and starts over. */
    method AllocByGrowing(size: nat, pageAlign: bool, ghost k: nat)
      returns (r: AllocResult, ghost b: Region, ghost at: nat, ghost grown: nat)
      requires Valid() && TailStart(regions, end) <= end && Certain(regions, end, size + TAGS, pageAlign, k)
      requires index.size + (if TailNumber(regions) == |regions| then 1 else 0) < index.data.Length
      requires NoFit(regions, size + TAGS, pageAlign)
      modifies this`end, this`regions, mem, index, index.data, vm, vm.frames, vm.pageTables, kernel
      ensures Valid() && (r.Allocated? ==> 0 < grown) && grown <= k && Answered(size + TAGS, pageAlign, r, b, at, grown)
      ensures old(end) <= end
      ensures r != NoFrames ==> Added(old(Pages()), Pages(), old(end), end)
      ensures r == NoFrames ==> AddedPast(old(Pages()), Pages(), old(end), end, end + Growth(size + TAGS))
      decreases max - end, 0
    {
      hide Layout, Separate, Certain, Tiles, Blocks, Retailed, AllTaken, NoFit, BytesKept, Served, Refused, Growth;
      hide P.PhysicalMemory.Valid, P.PhysicalMemory.Apart, P.PhysicalMemory.EntryAt, P.PhysicalMemory.Entries;
      hide Added, AddedPast, Returned;
      ghost var m, rs, hi, pages := mem[..], regions, end, Pages();
      var newSize := size + TAGS;
      var more := GrowOnce(newSize, pageAlign, k);
      if more != Done {
        r := if more == OverMaximum then HeapFull else NoFrames;
        b, at, grown := Region(0, 0, false), 0, 0;
        return;
      }
      ghost var m', rs', hi', mid := mem[..], regions, end, Pages();
      r, b, at, grown := AllocWithin(size, pageAlign, k - 1);
      if r.Allocated? {
        ServedLater(rs, start, hi, rs', hi', regions, end, newSize, pageAlign, grown, at, b);
      } else {
        RefusedLater(rs, start, hi, rs', hi', regions, end, newSize, pageAlign, grown);
      }
      KeptThrough(m, m', mem[..], Blocks(rs));
      if r != NoFrames {
        AddedTwice(pages, mid, Pages(), hi, hi', end);
      } else {
        AddedPastTwice(pages, mid, Pages(), hi, hi', end, end + Growth(newSize));
      }
      grown := grown + 1;
    }

    /**
      alloc. A plain request grows the heap at most once, a page-aligned one at most
      twice, and it is refused only when the next growth would pass the maximum or
      no frame is left.
     */
    method Alloc(size: nat, pageAlign: bool) returns (r: AllocResult, ghost b: Region, ghost at: nat, ghost grown: nat)
      requires Valid() && index.size + 1 < index.data.Length
      modifies this`end, this`regions, mem, index, index.data, vm, vm.frames, vm.pageTables, kernel
      ensures Valid() && grown <= (if pageAlign then 2 else 1)
      ensures Answered(size + TAGS, pageAlign, r, b, at, grown)
      ensures r.Allocated? && grown == 0 ==> FirstEntry(old(regions), old(index.Contents()), at, size + TAGS, pageAlign)
      ensures Step(old(View()), View(), if r.Allocated? then Allocate(b, size + TAGS, pageAlign) else Refuse(size + TAGS, pageAlign))
      ensures r != NoFrames ==> Added(old(Pages()), Pages(), old(end), end)
      ensures r == NoFrames ==> AddedPast(old(Pages()), Pages(), old(end), end, end + Growth(size + TAGS))
    {
      hide Laid, Indexed, NoAdjacentHoles, Blocks, BytesKept, BlockAdded, Served, Refused, Certain;
      hide P.PhysicalMemory.Valid, P.PhysicalMemory.Apart, P.PhysicalMemory.EntryAt, P.PhysicalMemory.Entries;
      hide Added, AddedPast, Returned;
      hide Sound, Step, NoFit, AllTaken, FirstEntry;
      ghost var k, v := if pageAlign then 2 else 1, View();
      FewGrowths(size + TAGS, pageAlign);
      r, b, at, grown := AllocWithin(size, pageAlign, k);
      SoundView();
      if r.Allocated? {
        AllocationIsAStep(v, View(), b, size + TAGS, pageAlign, grown, at);
      } else {
        RefusalIsAStep(v, View(), size + TAGS, pageAlign, grown);
      }
    }

    lemma SoundView()
      requires Valid()
      ensures Sound(View())
    {
      hide Laid, Indexed, NoAdjacentHoles;
    }

    lemma FewGrowths(newSize: nat, pageAlign: bool)
      requires Valid()
      ensures TailStart(regions, end) <= end && Certain(regions, end, newSize, pageAlign, if pageAlign then 2 else 1)
    {
      LaidTiles(mem[..], regions, start, end);
      GrowthsEnough(regions, start, end, newSize, pageAlign);
    }

    // ----- free

    /** Two neighbouring holes become one. */
    method Unify(l: Region, r: Region)
      requires Tagged(mem[..], l) && Tagged(mem[..], r) && l.hole && r.hole && l.End() == r.addr
      requires TAGS <= l.size && TAGS <= r.size && r.End() <= mem.Length < TWO_TO_THE_32
      modifies mem
      ensures Tagged(mem[..], Region(l.addr, l.size + r.size, true))
      ensures SameOutside(old(mem[..]), mem[..], l.addr, r.End())
    {
      hide Put32, Get32, Tagged;
      UnifiedTags(mem[..], l, r);
      StoreWord(mem, r.End() - 4, l.addr);
      StoreWord(mem, l.addr + 8, l.size + r.size);
    }

    /** The neighbour's header, hole `q` of the map, leaves the index. */
    method DropEntry(header: nat, ghost q: nat, ghost m0: seq<byte>, ghost pending: set<nat>)
      requires Base() && index.size < index.data.Length && Indexed(m0, regions, index.Contents(), pending)
      requires q < |regions| && regions[q].hole && regions[q].addr == header && header !in pending
      modifies index, index.data
      ensures Base() && index.data == old(index.data) && index.size == old(index.size) - 1
      ensures Indexed(m0, regions, index.Contents(), pending + {header}) && mem[..] == old(mem[..])
    {
      hide Indexed, Removed;
      ghost var m, found := mem[..], index.Contents();
      HoleHasEntry(m0, regions, found, pending, q);
      ghost var k := RemoveEntry(header);
      IndexRemove(m0, regions, found, pending, k);
      assert mem[..] == m;
    }

    /** Unify left: the footer before the freed region leads to the neighbour's header. */
    method UnifyLeft(x: Region, ghost i: nat, ghost m0: seq<byte>) returns (y: Region)
      requires Base() && index.size < index.data.Length && end <= mem.Length
      requires Laid(m0, regions, start, end) && Indexed(m0, regions, index.Contents(), {})
      requires Partly(m0, mem[..], x) && i < |regions| && x.addr == regions[i].addr
      modifies mem, index, index.data
      ensures Base() && index.data == old(index.data) && index.size <= old(index.size)
      ensures var left := i > 0 && regions[i - 1].hole;
        && Partly(m0, mem[..], y) && y.End() == x.End()
        && Indexed(m0, regions, index.Contents(), if left then {regions[i - 1].addr} else {})
        && y == if left then Region(regions[i - 1].addr, regions[i - 1].size + x.size, true) else x
    {
      hide Laid, Indexed, Put32, Get32;
      ghost var m, found := mem[..], index.Contents();
      LeftNeighbour(m0, m, regions, start, end, i, x);
      y := x;
      if x.addr > start {
        var magic := LoadWord(mem, x.addr - 8);
        var header := LoadWord(mem, x.addr - 4);
        if magic == HEAP_MAGIC && mem[header + 4] == 1 {
          var size := LoadWord(mem, header + 8);
          var l := Region(header, size, true);
          assert l == regions[i - 1];
          DropEntry(header, i - 1, m0, {});
          assert {} + {header} == {header};
          found := index.Contents();
          Unify(l, x);
          y := Region(header, size + x.size, true);
          PartlyGrown(m0, m, mem[..], x, y);
          assert index.Contents() == found;
        }
      }
    }

    /** Unify right: the header behind the freed region is the neighbour's. */
    method UnifyRight(x: Region, ghost i: nat, ghost m0: seq<byte>, ghost pending: set<nat>) returns (y: Region)
      requires Base() && index.size < index.data.Length && end <= mem.Length
      requires Laid(m0, regions, start, end) && Indexed(m0, regions, index.Contents(), pending)
      requires Partly(m0, mem[..], x) && i < |regions| && x.End() == regions[i].End()
      requires forall a :: a in pending ==> a < x.End()
      modifies mem, index, index.data
      ensures Base() && index.data == old(index.data) && index.size <= old(index.size)
      ensures var right := i + 1 < |regions| && regions[i + 1].hole;
        && Partly(m0, mem[..], y)
        && Indexed(m0, regions, index.Contents(), pending + (if right then {regions[i + 1].addr} else {}))
        && y == if right then Region(x.addr, x.size + regions[i + 1].size, true) else x
    {
      hide Laid, Indexed, Put32;
      ghost var m, found := mem[..], index.Contents();
      RightNeighbour(m0, m, regions, start, end, i, x);
      assert pending + {} == pending;
      y := x;
      var next := x.End();
      if next < end {
        var magic := LoadWord(mem, next);
        if magic == HEAP_MAGIC && mem[next + 4] == 1 {
          var size := LoadWord(mem, next + 8);
          var r := Region(next, size, true);
          assert r == regions[i + 1];
          DropEntry(next, i + 1, m0, pending);
          found := index.Contents();
          Unify(x, r);
          y := Region(x.addr, x.size + size, true);
          PartlyGrown(m0, m, mem[..], x, y);
          assert index.Contents() == found;
        }
      }
    }

    /** The block becomes a hole and takes in the holes on its two sides. */
    method MergeBlock(header: nat, ghost i: nat) returns (x: Region)
      requires Base() && Layout(end, {}) && end <= mem.Length && index.size < index.data.Length
      requires i < |regions| && !regions[i].hole && regions[i].addr == header
      modifies this`regions, mem, index, index.data
      ensures Base() && Layout(end, {x.addr}) && index.data == old(index.data) && index.size <= old(index.size)
      ensures regions == Merged(old(regions), i) && x == MergedRegion(old(regions), i)
      ensures BlockDropped(old(regions), regions, old(regions)[i]) && BytesKept(old(mem[..]), mem[..], Blocks(regions))
    {
      hide Laid, Indexed, NoAdjacentHoles, Tagged, Blocks, BytesKept, BlockDropped, Put32, Get32;
      ghost var m0, rs, found := mem[..], regions, index.Contents();
      PartlyMarked(m0, rs, start, end, i);
      var size := HeaderSize(header, i);
      mem[header + 4] := 1;
      assert mem[..] == m0[header + 4 := 1] && index.Contents() == found;
      x := Region(header, size, true);
      x := UnifyLeft(x, i, m0);
      ghost var pending := if i > 0 && rs[i - 1].hole then {rs[i - 1].addr} else {};
      NeighbourBefore(m0, rs, start, end, i);
      x := UnifyRight(x, i, m0, pending);
      assert x == MergedRegion(rs, i);
      Merge(m0, mem[..], rs, start, end, index.Contents(), i, x);
      regions := Merged(rs, i);
    }

    method HeaderSize(header: nat, ghost i: nat) returns (size: nat)
      requires Laid(mem[..], regions, start, end) && i < |regions| && regions[i].addr == header
      ensures size == regions[i].size
    {
      assert Tagged(mem[..], regions[i]);
      size := LoadWord(mem, header + 8);
    }

    /** The heap contracts to the hole at its end, which keeps what is left of it. */
    method ContractTail(x: Region) returns (y: Region)
      requires Base() && Mapped() && Layout(end, {x.addr})
      requires regions != [] && regions[|regions| - 1] == x && x.hole && TAGS <= x.size && start <= x.addr && x.End() == end
      modifies this`end, this`regions, mem, vm, vm.frames, vm.pageTables, kernel
      ensures Base() && Mapped() && Layout(end, {x.addr})
      ensures end == start + ContractedLength(x.addr - start, HEAP_MIN_SIZE) <= old(end)
      ensures x.addr <= end && y == Region(x.addr, end - x.addr, true) && y in regions
      ensures regions == Retailed(old(regions), old(end), end)
      ensures Blocks(regions) == Blocks(old(regions)) && BytesKept(old(mem[..]), mem[..], Blocks(old(regions)))
      ensures Returned(old(Pages()), Pages(), old(end), end) && vm.pageTables == old(vm.pageTables)
    {
      hide Laid, Tiles, Indexed, NoAdjacentHoles, Tagged, Blocks, BytesKept, PutFooter, Put32;
      hide P.PhysicalMemory.Valid, P.PhysicalMemory.Apart, P.PhysicalMemory.EntryAt, P.PhysicalMemory.Entries;
      hide Added, AddedPast, Returned;
      ghost var m, rs, hi, found := mem[..], regions, end, index.Contents();
      var oldLength := end - start;
      var newLength := Contract(x.addr - start);
      assert mem[..] == m && index.Contents() == found;
      y := Region(x.addr, x.size - (oldLength - newLength), true);
      ResizeHole(x.addr, y.size);
      assert index.Contents() == found;
      GrowTags(m, mem[..], rs, start, hi, x, y);
      Trimmed(m, mem[..], rs, start, hi, found, y);
      regions := Retailed(rs, hi, end);
    }

    /** The part of free before the merged hole enters the index. */
    method Reclaim(header: nat, ghost i: nat) returns (x: Region)
      requires Valid() && index.size < index.data.Length
      requires i < |regions| && !regions[i].hole && regions[i].addr == header
      modifies this`end, this`regions, mem, index, index.data, vm, vm.frames, vm.pageTables, kernel
      ensures Base() && Mapped() && Layout(end, {x.addr}) && x in regions && x.hole
      ensures index.data == old(index.data) && index.size <= old(index.size)
      ensures BlockDropped(old(regions), regions, old(regions)[i]) && BytesKept(old(mem[..]), mem[..], Blocks(regions))
      ensures Freed(old(regions), start, old(end), HEAP_MIN_SIZE, i, regions, end)
      ensures Returned(old(Pages()), Pages(), old(end), end) && vm.pageTables == old(vm.pageTables)
    {
      hide Laid, Tiles, Indexed, NoAdjacentHoles, Tagged, Blocks, BytesKept, Retailed, Merged, MergedRegion;
      hide P.PhysicalMemory.Valid, P.PhysicalMemory.Apart, P.PhysicalMemory.EntryAt, P.PhysicalMemory.Entries;
      hide Added, AddedPast, Returned;
      ghost var m, rs, hi := mem[..], regions, end;
      LaidTiles(m, rs, start, hi);
      MergedLast(rs, start, hi, i);
      MergedSize(rs, start, hi, i);
      NoneAdded(Pages(), end);
      x := MergeBlock(header, i);
      if x.End() == end {
        ghost var m1 := mem[..];
        x := ContractTail(x);
        KeptThrough(m, m1, mem[..], Blocks(regions));
      }
    }

    /** free: a null pointer is ignored; otherwise `p` must be the payload of a block. */
    method Free(p: nat) returns (ghost i: nat)
      requires Valid() && index.size < index.data.Length
      requires p != 0 ==> exists b :: b in Blocks(regions) && b.Payload() == p
      modifies this`end, this`regions, mem, index, index.data, vm, vm.frames, vm.pageTables, kernel
      ensures Valid() && index.data == old(index.data)
      ensures p == 0 ==> SameLayout() && end == old(end)
      ensures p != 0 ==>
        && i < |old(regions)| && old(regions)[i] in Blocks(old(regions)) && old(regions)[i].Payload() == p
        && BlockDropped(old(regions), regions, old(regions)[i]) && BytesKept(old(mem[..]), mem[..], Blocks(regions))
        && Freed(old(regions), start, old(end), HEAP_MIN_SIZE, i, regions, end)
        && Step(old(View()), View(), Release(old(regions)[i]))
      ensures Returned(old(Pages()), Pages(), old(end), end) && vm.pageTables == old(vm.pageTables)
    {
      hide Base, Mapped, Layout, Valid, Blocks, BytesKept, BlockDropped, Freed, Step, View;
      i := 0;
      if p == 0 {
        NothingReturned();
        return;
      }
      i := BlockAt(p);
      var x := Reclaim(p - HEADER, i);
      EnterHole(x);
      FreeIsAStep(i);
    }

    lemma NothingReturned()
      requires Valid()
      ensures vm.Valid() && vm.Knows(kernel) && Returned(Pages(), Pages(), end, end)
    {
    }

    twostate lemma FreeIsAStep(i: nat)
      requires old(Valid()) && Valid() && i < |old(regions)| && old(regions)[i] in Blocks(old(regions))
      requires BlockDropped(old(regions), regions, old(regions)[i]) && BytesKept(old(mem[..]), mem[..], Blocks(regions))
      ensures Step(old(View()), View(), Release(old(regions)[i]))
    {
      hide Laid, Indexed, NoAdjacentHoles, Blocks, BytesKept, BlockDropped;
    }

    /** A hole that was pending enters the index. */
    method EnterHole(x: Region)
      requires Base() && Mapped() && Layout(end, {x.addr}) && x in regions && x.hole && index.size < index.data.Length
      modifies index, index.data
      ensures Valid() && index.data == old(index.data) && mem[..] == old(mem[..]) && Pages() == old(Pages())
    {
      hide Laid, Indexed, NoAdjacentHoles, Inserted;
      hide P.PhysicalMemory.Valid, P.PhysicalMemory.Apart, P.PhysicalMemory.EntryAt, P.PhysicalMemory.Entries;
      hide Added, AddedPast, Returned;
      var m := mem[..];
      Enter(m, regions, start, end, index.Contents(), {x.addr}, x);
      assert {x.addr} - {x.addr} == {};
      index.Insert(x.addr, Smaller(m));
      assert mem[..] == m;
    }

    lemma BlockAt(p: nat) returns (i: nat)
      requires exists b :: b in Blocks(regions) && b.Payload() == p
      ensures i < |regions| && !regions[i].hole && regions[i].Payload() == p && regions[i] in Blocks(regions)
    {
      var b :| b in Blocks(regions) && b.Payload() == p;
      i :| 0 <= i < |regions| && !regions[i].hole && regions[i] == b;
    }

    // ----- Stores by the block's owner, and runs

    /** The owner of a block stores into its payload. */
    method Poke(at: nat, v: byte, ghost b: Region)
      requires Valid() && b in Blocks(regions) && b.Payload() <= at < b.End() - FOOTER
      modifies mem
      ensures Valid() && mem[..] == old(mem[..])[at := v]
      ensures Step(old(View()), View(), HeapRuns.Event.Poke(b, at))
    {
      hide Indexed, NoAdjacentHoles;
      hide P.PhysicalMemory.Valid, P.PhysicalMemory.Apart, P.PhysicalMemory.EntryAt, P.PhysicalMemory.Entries;
      hide Added, AddedPast, Returned;
      ghost var m, found := mem[..], index.Contents();
      PokeKeepsTags(m, regions, start, end, found, b, at, v);
      mem[at] := v;
      assert mem[..] == m[at := v] && index.Contents() == found;
    }

    ghost function View(): View
      requires index.Valid()
      reads this, mem, index, index.data, vm, vm.frames
    {
      HeapRuns.View.View(start, end, max, mem[..], regions, index.Contents(), vm.frames[..])
    }
  }
}
