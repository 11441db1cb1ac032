/**
  Frames, two-level page tables and address-space cloning (src/paging.c).
  A page table is an array of 1024 entries and a directory holds 1024 pointers to
  page tables, so sharing a table between directories is sharing a pointer.
 */
module Paging {
  import opened Bitmap
  import opened Words

  const PAGE_WORDS: nat := 1024
  const ENTRIES: nat := 1024

  /** The entry of a page table. Frame 0 means that no frame is held. */
  datatype Page = Page(present: bool, rw: bool, user: bool, accessed: bool, dirty: bool, frame: nat)

  const BLANK := Page(false, false, false, false, false, 0)

  /** A pointer to a page-table entry. */
  datatype Slot = Slot(table: array<Page>, index: nat)

  class PageDirectory {
    var tables: seq<array?<Page>>

    constructor ()
      ensures tables == seq(ENTRIES, _ => null)
    {
      tables := seq(ENTRIES, _ => null);
    }
  }

  /** Tables that were there are the same ones. */
  ghost predicate TablesKept(was: seq<array?<Page>>, now: seq<array?<Page>>) {
    |was| == |now| && forall k :: 0 <= k < |was| && was[k] != null ==> now[k] == was[k]
  }

  function TableIndex(address: nat): nat { address / PAGE_SIZE / 1024 }
  function EntryIndex(address: nat): nat { address / PAGE_SIZE % 1024 }

  lemma IndexRange(address: nat)
    requires address < TWO_TO_THE_32
    ensures TableIndex(address) < ENTRIES && EntryIndex(address) < ENTRIES
  {
  }

  // ----- Facts about memory contents and holdings, as values

  /** The 1024 words of frame `f`. */
  function FrameWords(m: seq<u32>, f: nat): seq<u32> {
    if (f + 1) * PAGE_WORDS <= |m| then m[f * PAGE_WORDS..(f + 1) * PAGE_WORDS] else []
  }

  /** When 1024 words were copied from one frame to another, only that other frame changed. */
  lemma FrameCopied(m: seq<u32>, m': seq<u32>, src: nat, dst: nat)
    requires |m| == |m'| && (src + 1) * PAGE_WORDS <= |m| && (dst + 1) * PAGE_WORDS <= |m| && src != dst
    requires forall k :: dst * PAGE_WORDS <= k < (dst + 1) * PAGE_WORDS ==> m'[k] == m[k - dst * PAGE_WORDS + src * PAGE_WORDS]
    requires forall k :: 0 <= k < |m| && !(dst * PAGE_WORDS <= k < (dst + 1) * PAGE_WORDS) ==> m'[k] == m[k]
    ensures FrameWords(m', dst) == FrameWords(m', src)
    ensures forall f: nat :: f != dst ==> FrameWords(m', f) == FrameWords(m, f)
  {
    forall f: nat | f != dst ensures FrameWords(m', f) == FrameWords(m, f) {
      if (f + 1) * PAGE_WORDS <= |m| {
        assert m'[f * PAGE_WORDS..(f + 1) * PAGE_WORDS] == m[f * PAGE_WORDS..(f + 1) * PAGE_WORDS];
      }
    }
    var d, s := dst * PAGE_WORDS, src * PAGE_WORDS;
    var copy, words := m'[d..d + PAGE_WORDS], m[s..s + PAGE_WORDS];
    forall k | 0 <= k < PAGE_WORDS ensures copy[k] == words[k] {
      var at := d + k;
      assert copy[k] == m'[at] == m[at - d + s];
    }
    assert copy == words == FrameWords(m, src);
  }

  /** The words of the reserved frame and of the frames in `held` are the same. */
  ghost predicate WordsKept(m: seq<u32>, m': seq<u32>, held: set<nat>) {
    |m| == |m'| && forall f :: f == 0 || f in held ==> FrameWords(m', f) == FrameWords(m, f)
  }

  /** The old holdings stand and every new one is in `table`. */
  ghost predicate OwnersAdded(o: map<nat, Slot>, o': map<nat, Slot>, table: array<Page>) {
    && (forall f :: f in o ==> f in o' && o'[f] == o[f])
    && (forall f :: f in o' && f !in o ==> o'[f].table == table)
  }

  /**
    What a cloned entry is: blank when the source holds no frame, and otherwise a
    frame of its own with the same words. `present` and `user` are always set, as
    alloc_frame is asked for a user page and the flags are only ever added to.
   */
  ghost predicate Cloned(m: seq<u32>, s: Page, t: Page) {
    if s.frame == 0 then t == BLANK else
      && t.frame != 0
      && t == Page(true, s.rw, true, s.accessed, s.dirty, t.frame)
      && FrameWords(m, t.frame) == FrameWords(m, s.frame)
  }

  /** The first `n` entries of `t` are clones of those of `s`. */
  ghost predicate ClonedTable(m: seq<u32>, s: seq<Page>, t: seq<Page>, n: nat) {
    n <= |s| && n <= |t| && forall k :: 0 <= k < n ==> Cloned(m, s[k], t[k])
  }

  /**
    Of the entries of a directory, those from `from` up to `to` that were without a frame
    hold one now, with the flags asked for. No other entry changed.
   */
  ghost predicate Framed(was: seq<Page>, now: seq<Page>, from: nat, to: nat, isKernel: bool, isWriteable: bool) {
    && |was| == |now|
    && (forall p :: 0 <= p < |was| ==> now[p] == was[p] || (from <= p < to && FramedEntry(was[p], now[p], isKernel, isWriteable)))
    && forall p :: from <= p < to && p < |was| ==> now[p].frame != 0
  }

  /** A user page that is present and read-only, with a frame: what alloc_frame makes at boot. */
  ghost predicate UserPage(page: Page) {
    page.frame != 0 && page == Page(true, false, true, false, false, page.frame)
  }

  ghost predicate FramedEntry(was: Page, now: Page, isKernel: bool, isWriteable: bool) {
    was.frame == 0 && now == was.(present := true, rw := isWriteable, user := !isKernel, frame := now.frame)
  }

  /** Page `i` got the lowest free frame, if it had none, and no other page changed. */
  ghost predicate PageFramed(was: seq<Page>, now: seq<Page>, bits: seq<u32>, bits': seq<u32>, i: nat) {
    || (now == was && bits' == bits)
    || (i < |was| == |now| && now == was[i := now[i]] && was[i].frame == 0
        && LeastClear(bits, now[i].frame) && bits' == SetBit(bits, now[i].frame))
  }

  /** The frame was free, and it is taken now with all the frames below it. */
  ghost predicate FromLowest(bits: seq<u32>, bits': seq<u32>, f: nat) {
    f < 32 * |bits| == 32 * |bits'| && !Taken(bits, f) && forall g :: 0 <= g <= f ==> Taken(bits', g)
  }

  /** The pages that changed got the lowest free frames, in order. */
  ghost predicate LowestFirst(was: seq<Page>, now: seq<Page>, bits: seq<u32>, bits': seq<u32>) {
    && |was| == |now| && |bits| == |bits'|
    && (forall f :: 0 <= f < 32 * |bits| && Taken(bits, f) ==> Taken(bits', f))
    && (forall p :: 0 <= p < |was| && now[p] != was[p] ==> FromLowest(bits, bits', now[p].frame))
    && (forall p, q :: 0 <= p < q < |was| && now[p] != was[p] && now[q] != was[q] ==> now[p].frame < now[q].frame)
  }

  lemma LowestNone(was: seq<Page>, bits: seq<u32>)
    ensures LowestFirst(was, was, bits, bits)
  {
  }

  lemma LowestNext(was: seq<Page>, mid: seq<Page>, now: seq<Page>, bits: seq<u32>, bits1: seq<u32>, bits': seq<u32>, from: nat, i: nat,
                   isKernel: bool, isWriteable: bool)
    requires LowestFirst(was, mid, bits, bits1) && PageFramed(mid, now, bits1, bits', i)
    requires Framed(was, mid, from, i, isKernel, isWriteable)
    ensures LowestFirst(was, now, bits, bits')
  {
    hide Taken, SetBit;
    if !(now == mid && bits' == bits1) {
      TakenAlso(bits1, now[i].frame);
      forall p | 0 <= p < |was| && now[p] != was[p] && p != i ensures p < i && now[p].frame < now[i].frame {
        assert mid[p] == now[p] && FromLowest(bits, bits1, mid[p].frame);
      }
    }
  }

  lemma TakenAlso(bits: seq<u32>, f: nat)
    requires f < 32 * |bits|
    ensures forall g :: 0 <= g < 32 * |bits| ==> (Taken(SetBit(bits, f), g) <==> g == f || Taken(bits, g))
  {
    forall g | 0 <= g < 32 * |bits| ensures Taken(SetBit(bits, f), g) <==> g == f || Taken(bits, g) {
      SetBitTakes(bits, f, g);
    }
  }

  /** Frames ran out on the way from `from` to `to`: the entries up to some page in between hold one now. */
  ghost predicate PartlyFramed(was: seq<Page>, now: seq<Page>, from: nat, to: nat, isKernel: bool, isWriteable: bool) {
    exists n: nat :: from <= n < to && Framed(was, now, from, n, isKernel, isWriteable)
  }

  /** The entries from `from` up to `to` have lost their frames; nothing else changed. */
  ghost predicate Unframed(was: seq<Page>, now: seq<Page>, from: nat, to: nat) {
    && |was| == |now|
    && forall p :: 0 <= p < |was| ==> now[p] == if from <= p < to then was[p].(frame := 0) else was[p]
  }

  lemma FramedTwice(was: seq<Page>, mid: seq<Page>, now: seq<Page>, a: nat, b: nat, c: nat, isKernel: bool, isWriteable: bool)
    requires Framed(was, mid, a, b, isKernel, isWriteable) && Framed(mid, now, b, c, isKernel, isWriteable) && a <= b <= c
    ensures Framed(was, now, a, c, isKernel, isWriteable)
  {
  }

  lemma FramedNone(was: seq<Page>, from: nat, isKernel: bool, isWriteable: bool)
    ensures Framed(was, was, from, from, isKernel, isWriteable)
  {
  }

  lemma UnframedMore(was: seq<Page>, mid: seq<Page>, now: seq<Page>, i: nat, to: nat)
    requires Unframed(was, mid, i + 1, to) && Unframed(mid, now, i, i + 1) && i < to
    ensures Unframed(was, now, i, to)
  {
  }

  lemma UnframedKeeps(was: seq<Page>, now: seq<Page>, from: nat, to: nat, p: nat)
    requires Unframed(was, now, from, to) && p < from && p < |was|
    ensures |now| == |was| && now[p] == was[p]
  {
  }

  lemma UnframedNone(was: seq<Page>, to: nat)
    ensures Unframed(was, was, to, to)
  {
  }

  ghost predicate FramesIn(t: seq<Page>, held: set<nat>) {
    forall k :: 0 <= k < |t| && t[k].frame != 0 ==> t[k].frame in held
  }

  lemma WordsKeptSelf(m: seq<u32>, held: set<nat>)
    ensures WordsKept(m, m, held)
  {
  }

  lemma KeptByCopy(m: seq<u32>, m': seq<u32>, dst: nat, held: set<nat>)
    requires |m| == |m'| && dst != 0 && dst !in held
    requires forall f: nat :: f != dst ==> FrameWords(m', f) == FrameWords(m, f)
    ensures WordsKept(m, m', held)
  {
  }

  lemma WordsStillKept(m: seq<u32>, m': seq<u32>, m'': seq<u32>, held: set<nat>, held': set<nat>)
    requires WordsKept(m, m', held) && WordsKept(m', m'', held') && held <= held'
    ensures WordsKept(m, m'', held)
  {
  }

  /** Clones stay clones while the frames of both sides keep their words. */
  lemma StillCloned(m: seq<u32>, m': seq<u32>, s: seq<Page>, t: seq<Page>, t': seq<Page>, n: nat, held: set<nat>)
    requires WordsKept(m, m', held) && FramesIn(s, held) && FramesIn(t, held)
    requires ClonedTable(m, s, t, n) && n < |s| && n < |t'| == |t|
    requires forall k :: 0 <= k < |t| && k != n ==> t'[k] == t[k]
    requires Cloned(m', s[n], t'[n])
    ensures ClonedTable(m', s, t', n + 1)
  {
  }

  lemma TableStillCloned(m: seq<u32>, m': seq<u32>, s: seq<Page>, t: seq<Page>, n: nat, held: set<nat>)
    requires WordsKept(m, m', held) && FramesIn(s, held) && FramesIn(t, held) && ClonedTable(m, s, t, n)
    ensures ClonedTable(m', s, t, n)
  {
  }

  lemma ByteInFrame(f: nat, address: nat)
    ensures 4 * (f * PAGE_WORDS + address % PAGE_SIZE / 4) + address % 4 == f * PAGE_SIZE + address % PAGE_SIZE
  {
    assert address % PAGE_SIZE % 4 == address % 4;
  }

  lemma WordInFrame(m: seq<u32>, f: nat, w: nat, c: nat)
    requires w < PAGE_WORDS && c == f * PAGE_WORDS + w && (f + 1) * PAGE_WORDS <= |m|
    ensures |FrameWords(m, f)| == PAGE_WORDS && m[c] == FrameWords(m, f)[w]
  {
  }

  lemma NotAllTaken(bits: seq<u32>, f: nat)
    requires LeastClear(bits, f)
    ensures f < 32 * |bits| && !Taken(bits, f) && !AllTaken(bits)
  {
  }

  class PhysicalMemory {
    const frames: array<u32>      // the bitmap
    const memory: array<u32>       // physical memory, 1024 words a frame
    ghost var pageTables: set<array<Page>>  // every page table there is
    ghost var owner: map<nat, Slot>         // the entry that holds each frame

    function FrameCount(): nat { 32 * frames.Length }

    /** Frame 0 is reserved; it doubles as "no frame" in page entries. */
    ghost predicate Shape()
      reads this
    {
      && 0 < frames.Length
      && memory.Length == FrameCount() * PAGE_WORDS
      && forall t :: t in pageTables ==> t.Length == ENTRIES
    }

    /** A non-zero frame is held by exactly one entry: the one `owner` names. */
    ghost predicate Held()
      requires Shape()
      reads this, pageTables
    {
      && (forall t: array<Page>, i: nat :: t in pageTables && i < ENTRIES && t[i].frame != 0 ==>
            t[i].frame in owner && owner[t[i].frame] == Slot(t, i))
      && (forall f :: f in owner ==>
            && 0 < f < FrameCount()
            && owner[f].table in pageTables && owner[f].index < ENTRIES
            && owner[f].table[owner[f].index].frame == f)
    }

    /** The set bits are the reserved frame and the frames held. */
    ghost predicate Marked()
      requires Shape()
      reads this, frames
    {
      forall f :: 0 <= f < FrameCount() ==> (Taken(frames[..], f) <==> f == 0 || f in owner)
    }

    ghost predicate Valid()
      reads this, frames, pageTables
    {
      Shape() && Held() && Marked()
    }

    ghost predicate Knows(dir: PageDirectory)
      reads this, dir
    {
      && |dir.tables| == ENTRIES
      && forall i :: 0 <= i < ENTRIES && dir.tables[i] != null ==> dir.tables[i] in pageTables
    }

    /** No frame but the reserved one is in use, and there are no page tables yet. */
    constructor (words: nat)
      requires 0 < words
      ensures Valid() && fresh(frames) && fresh(memory)
      ensures frames.Length == words && pageTables == {} && owner == map[]
    {
      frames := new u32[words](i => if i == 0 then 1 else 0);
      memory := new u32[32 * words * PAGE_WORDS](_ => 0);
      pageTables := {};
      owner := map[];
      new;
      forall f | 0 <= f < FrameCount() ensures Taken(frames[..], f) <==> f == 0 {
        LowBitOnly(f % 32);
        ZeroHasNoBits(f % 32);
      }
    }

    /** A fresh page table, all zeroes. */
    method NewTable() returns (table: array<Page>)
      requires Valid()
      modifies this`pageTables
      ensures Valid() && fresh(table) && pageTables == old(pageTables) + {table}
      ensures table.Length == ENTRIES && forall k :: 0 <= k < ENTRIES ==> table[k] == BLANK
    {
      table := new Page[ENTRIES](_ => BLANK);
      pageTables := pageTables + {table};
    }

    /** get_page: the entry for an address; with `make`, its table is created when missing. */
    method GetPage(address: u32, make: bool, dir: PageDirectory) returns (page: Option<Slot>)
      requires Valid() && Knows(dir)
      modifies this`pageTables, dir
      ensures Valid() && Knows(dir)
      ensures var i := TableIndex(address);
        if old(dir.tables)[i] != null then
          page == Some(Slot(old(dir.tables)[i], EntryIndex(address))) && dir.tables == old(dir.tables) && pageTables == old(pageTables)
        else if make then
          && page.Some? && fresh(page.value.table) && page.value.index == EntryIndex(address)
          && dir.tables == old(dir.tables)[i := page.value.table]
          && pageTables == old(pageTables) + {page.value.table}
          && page.value.table.Length == ENTRIES
          && forall k :: 0 <= k < ENTRIES ==> page.value.table[k] == BLANK
        else page == None && dir.tables == old(dir.tables) && pageTables == old(pageTables)
      ensures page.Some? ==> EntryOf(dir, address / PAGE_SIZE, page.value)
      ensures page.None? <==> !make && !Tabled(dir, address / PAGE_SIZE, address / PAGE_SIZE + 1)
    {
      IndexRange(address);
      var number := address / PAGE_SIZE;
      var table := dir.tables[number / 1024];
      if table != null {
        return Some(Slot(table, number % 1024));
      } else if make {
        var blank := NewTable();
        dir.tables := dir.tables[number / 1024 := blank];
        return Some(Slot(blank, number % 1024));
      } else {
        return None;
      }
    }

    /**
      alloc_frame. An entry that holds a frame is left alone. Otherwise it gets the
      lowest free frame; when there is none, `ok` is false and nothing changes.
     */
    method AllocFrame(page: Slot, isKernel: bool, isWriteable: bool) returns (ok: bool)
      requires Valid() && page.table in pageTables && page.index < ENTRIES
      modifies this`owner, frames, page.table
      ensures Valid()
      ensures !ok <==> old(page.table[page.index]).frame == 0 && AllTaken(old(frames[..]))
      ensures if !ok || old(page.table[page.index]).frame != 0 then
          frames[..] == old(frames[..]) && owner == old(owner) && page.table[..] == old(page.table[..])
        else
          && var f := page.table[page.index].frame;
          && LeastClear(old(frames[..]), f) && 0 < f
          && frames[..] == SetBit(old(frames[..]), f)
          && owner == old(owner)[f := page]
          && page.table[..] == old(page.table[..])[page.index :=
               old(page.table[page.index]).(present := true, rw := isWriteable, user := !isKernel, frame := f)]
    {
      hide SetBit, Taken, AllTaken, Held;
      if page.table[page.index].frame != 0 { return true; }
      var idx := FirstFrame(frames);
      if idx == None { return false; }
      NotAllTaken(frames[..], idx.value);
      GiveFrame(page, idx.value, isKernel, isWriteable);
      ok := true;
    }

    /** The free frame `f` goes to an entry without one. */
    method GiveFrame(page: Slot, f: nat, isKernel: bool, isWriteable: bool)
      requires Valid() && page.table in pageTables && page.index < ENTRIES && page.table[page.index].frame == 0
      requires f < FrameCount() && !Taken(frames[..], f)
      modifies this`owner, frames, page.table
      ensures Valid() && 0 < f && frames[..] == SetBit(old(frames[..]), f) && owner == old(owner)[f := page]
      ensures page.table[..] == old(page.table[..])[page.index :=
                old(page.table[page.index]).(present := true, rw := isWriteable, user := !isKernel, frame := f)]
    {
      hide SetBit, Taken;
      var was := page.table[page.index];
      ghost var bits := frames[..];
      forall g | 0 <= g < FrameCount() ensures Taken(SetBit(bits, f), g) <==> g == f || Taken(bits, g) {
        SetBitTakes(bits, f, g);
      }
      SetFrame(f * PAGE_SIZE);
      page.table[page.index] := was.(present := true, rw := isWriteable, user := !isKernel, frame := f);
      ghost var held := owner;
      owner := owner[f := page];
      assert frames[..] == SetBit(bits, f);
      assert Marked();
      forall t: array<Page>, i: nat | t in pageTables && i < ENTRIES && t[i].frame != 0
        ensures t[i].frame in owner && owner[t[i].frame] == Slot(t, i)
      {
        if t == page.table && i == page.index {
        } else {
          assert t[i] == old(t[i]);
        }
      }
      forall g | g in owner
        ensures 0 < g < FrameCount() && owner[g].table in pageTables && owner[g].index < ENTRIES
        ensures owner[g].table[owner[g].index].frame == g
      {
        if g != f { assert g in held && held[g] != page; }
      }
    }

    method SetFrame(frameAddress: nat)
      requires frameAddress / PAGE_SIZE < FrameCount()
      modifies frames
      ensures frames[..] == SetBit(old(frames[..]), frameAddress / PAGE_SIZE)
    {
      var frame := frameAddress / PAGE_SIZE;
      var idx, off := frame / 32, frame % 32;
      PowerOf32();
      WordFits(frames[idx], off, 32);
      frames[idx] := WithBit(frames[idx], off);
    }

    method ClearFrame(frameAddress: nat)
      requires frameAddress / PAGE_SIZE < FrameCount()
      modifies frames
      ensures frames[..] == ClearBit(old(frames[..]), frameAddress / PAGE_SIZE)
    {
      var frame := frameAddress / PAGE_SIZE;
      var idx, off := frame / 32, frame % 32;
      PowerOf32();
      WordFits(frames[idx], off, 32);
      frames[idx] := WithoutBit(frames[idx], off);
    }

    /** free_frame: the entry drops its frame, whose bit is cleared. The other fields stay. */
    method FreeFrame(page: Slot)
      requires Valid() && page.table in pageTables && page.index < ENTRIES
      modifies this`owner, frames, page.table
      ensures Valid()
      ensures var f := old(page.table[page.index]).frame;
        if f == 0 then
          frames[..] == old(frames[..]) && owner == old(owner) && page.table[..] == old(page.table[..])
        else
          && f < FrameCount() && frames[..] == ClearBit(old(frames[..]), f)
          && owner == old(owner) - {f}
          && page.table[..] == old(page.table[..])[page.index := old(page.table[page.index]).(frame := 0)]
    {
      hide ClearBit, Taken;
      var f := page.table[page.index].frame;
      if f == 0 { return; }
      ghost var bits, held := frames[..], owner;
      forall g | 0 <= g < FrameCount() ensures Taken(ClearBit(bits, f), g) <==> g != f && Taken(bits, g) {
        ClearBitFrees(bits, f, g);
      }
      ClearFrame(f * PAGE_SIZE);
      page.table[page.index] := page.table[page.index].(frame := 0);
      owner := owner - {f};
      assert frames[..] == ClearBit(bits, f);
      assert Marked();
      forall t: array<Page>, i: nat | t in pageTables && i < ENTRIES && t[i].frame != 0
        ensures t[i].frame in owner && owner[t[i].frame] == Slot(t, i)
      {
        assert t[i] == old(t[i]);
      }
      forall g | g in owner
        ensures 0 < g < FrameCount() && owner[g].table in pageTables && owner[g].index < ENTRIES
        ensures owner[g].table[owner[g].index].frame == g
      {
        assert g in held && held[g] != page;
      }
    }

    /** copy_page_physical: 1024 words, one after the other. */
    method CopyPagePhysical(src: nat, dst: nat)
      requires Shape() && src < FrameCount() && dst < FrameCount() && src != dst
      modifies memory
      ensures old(Valid()) ==> Valid()
      ensures FrameWords(memory[..], dst) == FrameWords(memory[..], src)
      ensures forall f: nat :: f != dst ==> FrameWords(memory[..], f) == old(FrameWords(memory[..], f))
    {
      hide Held, Marked, FrameWords;
      var ebx, ecx, edx := src * PAGE_WORDS, dst * PAGE_WORDS, PAGE_WORDS;
      while edx != 0
        invariant 0 <= edx <= PAGE_WORDS
        invariant ebx == src * PAGE_WORDS + (PAGE_WORDS - edx) && ecx == dst * PAGE_WORDS + (PAGE_WORDS - edx)
        invariant forall k :: dst * PAGE_WORDS <= k < ecx ==> memory[k] == old(memory[k - dst * PAGE_WORDS + src * PAGE_WORDS])
        invariant forall k :: 0 <= k < memory.Length && !(dst * PAGE_WORDS <= k < ecx) ==> memory[k] == old(memory[k])
      {
        memory[ecx] := memory[ebx];
        ebx, ecx, edx := ebx + 1, ecx + 1, edx - 1;
      }
      FrameCopied(old(memory[..]), memory[..], src, dst);
    }

    /** The frame accounting does not look at the flags. */
    twostate lemma FramesOnlyMatter()
      requires old(Valid()) && unchanged(this) && unchanged(frames)
      requires forall t: array<Page>, i: nat :: t in pageTables && i < ENTRIES ==> t[i].frame == old(t[i].frame)
      ensures Valid()
    {
    }

    /** Flags set in `from` are set in the entry; flags already set there stay set. */
    method AddFlags(from: Page, table: array<Page>, i: nat)
      requires Valid() && table in pageTables && i < ENTRIES
      modifies table
      ensures Valid()
      ensures forall k :: 0 <= k < ENTRIES && k != i ==> table[k] == old(table[k])
      ensures var t := old(table[i]);
        table[i] == Page(t.present || from.present, t.rw || from.rw, t.user || from.user,
                         t.accessed || from.accessed, t.dirty || from.dirty, t.frame)
    {
      var page := table[i];
      if from.present { page := page.(present := true); }
      if from.rw { page := page.(rw := true); }
      if from.user { page := page.(user := true); }
      if from.accessed { page := page.(accessed := true); }
      if from.dirty { page := page.(dirty := true); }
      table[i] := page;
      FramesOnlyMatter();
    }

    /** A blank entry gets a frame of its own and the source's flags. */
    method GrabEntry(s: Page, table: array<Page>, i: nat) returns (ok: bool)
      requires Valid() && table in pageTables && i < ENTRIES && table[i] == BLANK
      modifies this`owner, frames, table
      ensures Valid()
      ensures forall k :: 0 <= k < ENTRIES && k != i ==> table[k] == old(table[k])
      ensures var f := table[i].frame;
        if ok then
          && 0 < f < FrameCount() && f !in old(owner) && OwnersAdded(old(owner), owner, table)
          && table[i] == Page(true, s.rw, true, s.accessed, s.dirty, f)
        else AllTaken(frames[..]) && OwnersAdded(old(owner), owner, table)
    {
      ok := AllocFrame(Slot(table, i), false, false);
      if !ok { return; }
      assert table[i].frame !in old(owner) by { assert !Taken(old(frames[..]), table[i].frame); }
      AddFlags(s, table, i);
    }

    /** The body of the loop of clone_table, for an entry that holds a frame. */
    method CloneEntry(s: Page, table: array<Page>, i: nat) returns (ok: bool)
      requires Valid() && s.frame in owner && table in pageTables && i < ENTRIES && table[i] == BLANK
      modifies this`owner, frames, memory, table
      ensures Valid()
      ensures forall k :: 0 <= k < ENTRIES && k != i ==> table[k] == old(table[k])
      ensures WordsKept(old(memory[..]), memory[..], old(owner).Keys) && OwnersAdded(old(owner), owner, table)
      ensures ok ==> Cloned(memory[..], s, table[i])
      ensures !ok ==> AllTaken(frames[..])
    {
      assert 0 < s.frame < FrameCount();
      hide Held, Marked, FrameWords, WordsKept, OwnersAdded, AllTaken;
      ghost var m, held := memory[..], owner.Keys;
      ok := GrabEntry(s, table, i);
      assert memory[..] == m;
      WordsKeptSelf(m, held);
      if ok {
        CopyPagePhysical(s.frame, table[i].frame);
        KeptByCopy(m, memory[..], table[i].frame, held);
      }
      assert WordsKept(m, memory[..], held);
    }

    /** clone_table: a new table with a frame of its own for every frame the source holds. */
    method CloneTable(src: array<Page>) returns (ok: bool, table: array<Page>)
      requires Valid() && src in pageTables
      modifies this`owner, this`pageTables, frames, memory
      ensures Valid() && fresh(table) && pageTables == old(pageTables) + {table}
      ensures WordsKept(old(memory[..]), memory[..], old(owner).Keys) && OwnersAdded(old(owner), owner, table)
      ensures ok ==> ClonedTable(memory[..], src[..], table[..], ENTRIES)
      ensures !ok ==> AllTaken(frames[..])
    {
      hide Held, Marked;
      table := NewTable();
      ok := true;
      var i := 0;
      while i < ENTRIES
        invariant i <= ENTRIES && Valid() && pageTables == old(pageTables) + {table}
        invariant WordsKept(old(memory[..]), memory[..], old(owner).Keys) && OwnersAdded(old(owner), owner, table)
        invariant ClonedTable(memory[..], src[..], table[..], i)
        invariant forall k :: i <= k < ENTRIES ==> table[k] == BLANK
      {
        ghost var m, t, held := memory[..], table[..], owner;
        HeldFramesOwned(src, table);
        if src[i].frame == 0 {
          i := i + 1;
          continue;
        }
        ok := CloneEntry(src[i], table, i);
        WordsStillKept(old(memory[..]), m, memory[..], old(owner).Keys, held.Keys);
        if !ok { return; }
        StillCloned(m, memory[..], src[..], t, table[..], i, held.Keys);
        i := i + 1;
      }
    }

    lemma HeldFramesOwned(src: array<Page>, table: array<Page>)
      requires Valid() && src in pageTables && table in pageTables
      ensures FramesIn(src[..], owner.Keys) && FramesIn(table[..], owner.Keys)
    {
    }

    /** The tables of a directory are distinct. */
    ghost predicate Apart(dir: PageDirectory)
      requires |dir.tables| == ENTRIES
      reads dir
    {
      forall j, k :: 0 <= j < k < ENTRIES && dir.tables[j] != null ==> dir.tables[j] != dir.tables[k]
    }

    /** Table `k` of the source is private: present, and not the kernel's own. */
    ghost predicate Private(src: PageDirectory, kernel: PageDirectory, k: nat)
      requires |src.tables| == |kernel.tables| == ENTRIES && k < ENTRIES
      reads src, kernel
    {
      src.tables[k] != null && src.tables[k] != kernel.tables[k]
    }

    /** The first `n` pointers of `dir`: shared where not private, clones where private. */
    ghost predicate ClonedTables(src: PageDirectory, kernel: PageDirectory, dir: PageDirectory, n: nat)
      requires Shape() && Knows(src) && Knows(kernel) && Knows(dir) && n <= ENTRIES
      reads this, memory, pageTables, src, kernel, dir
    {
      forall k :: 0 <= k < n ==>
        if Private(src, kernel, k)
        then dir.tables[k] != null && ClonedTable(memory[..], src.tables[k][..], dir.tables[k][..], ENTRIES)
        else dir.tables[k] == src.tables[k]
    }

    /** clone_table again, with what it leaves of earlier clones. */
    method CloneTableAfterOthers(src: array<Page>) returns (ok: bool, table: array<Page>)
      requires Valid() && src in pageTables
      modifies this`owner, this`pageTables, frames, memory
      ensures Valid() && fresh(table) && pageTables == old(pageTables) + {table}
      ensures WordsKept(old(memory[..]), memory[..], old(owner).Keys) && old(owner).Keys <= owner.Keys
      ensures ok ==> ClonedTable(memory[..], src[..], table[..], ENTRIES)
      ensures !ok ==> AllTaken(frames[..])
      ensures forall s: array<Page>, t: array<Page> ::
        s in old(pageTables) && t in old(pageTables) && ClonedTable(old(memory[..]), s[..], t[..], ENTRIES)
        ==> ClonedTable(memory[..], s[..], t[..], ENTRIES)
    {
      ghost var m, held, known := memory[..], owner.Keys, pageTables;
      forall s | s in known ensures FramesIn(s[..], held) {
        HeldFramesOwned(s, s);
      }
      hide Valid, ClonedTable;
      ok, table := CloneTable(src);
      forall s: array<Page>, t: array<Page> | s in known && t in known && ClonedTable(m, s[..], t[..], ENTRIES)
        ensures ClonedTable(memory[..], s[..], t[..], ENTRIES)
      {
        TableStillCloned(m, memory[..], s[..], t[..], ENTRIES, held);
      }
    }

    /** `dir` is a clone of `src` up to table `n`: its private tables are none of `known`, the rest is still empty. */
    ghost predicate ClonedUpTo(src: PageDirectory, kernel: PageDirectory, dir: PageDirectory, n: nat, known: set<array<Page>>)
      requires Shape() && Knows(src) && Knows(kernel) && Knows(dir) && n <= ENTRIES
      reads this, memory, pageTables, src, kernel, dir
    {
      && ClonedTables(src, kernel, dir, n)
      && (forall k :: 0 <= k < n && Private(src, kernel, k) ==> dir.tables[k] !in known)
      && (forall k :: n <= k < ENTRIES ==> dir.tables[k] == null)
      && (Apart(src) ==> Apart(dir))
    }

    /** The body of the loop of clone_directory, for a table of the kernel. */
    method ShareTable(src: PageDirectory, kernel: PageDirectory, dir: PageDirectory, i: nat, ghost known: set<array<Page>>)
      requires Valid() && Knows(src) && Knows(kernel) && Knows(dir) && dir != src && dir != kernel && i < ENTRIES
      requires known <= pageTables && (forall k :: 0 <= k < ENTRIES && src.tables[k] != null ==> src.tables[k] in known)
      requires src.tables[i] == kernel.tables[i] && ClonedUpTo(src, kernel, dir, i, known)
      modifies dir
      ensures Knows(dir) && ClonedUpTo(src, kernel, dir, i + 1, known)
    {
      hide Held, Marked, ClonedTable;
      dir.tables := dir.tables[i := src.tables[i]];
    }

    /** The body of the loop of clone_directory, for any other table. */
    method CopyTable(src: PageDirectory, kernel: PageDirectory, dir: PageDirectory, i: nat, ghost known: set<array<Page>>)
      returns (ok: bool)
      requires Valid() && Knows(src) && Knows(kernel) && Knows(dir) && dir != src && dir != kernel && i < ENTRIES
      requires known <= pageTables && (forall k :: 0 <= k < ENTRIES && src.tables[k] != null ==> src.tables[k] in known)
      requires Private(src, kernel, i) && ClonedUpTo(src, kernel, dir, i, known)
      modifies this`owner, this`pageTables, frames, memory, dir
      ensures Valid() && Knows(src) && Knows(kernel) && Knows(dir)
      ensures WordsKept(old(memory[..]), memory[..], old(owner).Keys) && old(owner).Keys <= owner.Keys
      ensures old(pageTables) <= pageTables && fresh(pageTables - old(pageTables))
      ensures if ok then ClonedUpTo(src, kernel, dir, i + 1, known)
              else (AllTaken(frames[..]) && ClonedUpTo(src, kernel, dir, i, known))
    {
      hide Held, Marked, ClonedTable, WordsKept, AllTaken;
      var copy;
      ok, copy := CloneTableAfterOthers(src.tables[i]);
      if ok { dir.tables := dir.tables[i := copy]; }
    }

    /** clone_directory. It fails only when every frame is taken. */
    method CloneDirectory(src: PageDirectory, kernel: PageDirectory) returns (ok: bool, dir: PageDirectory)
      requires Valid() && Knows(src) && Knows(kernel)
      modifies this`owner, this`pageTables, frames, memory
      ensures Valid() && Knows(src) && Knows(kernel) && Knows(dir) && fresh(dir)
      ensures WordsKept(old(memory[..]), memory[..], old(owner).Keys) && old(owner).Keys <= owner.Keys
      ensures ok ==> ClonedTables(src, kernel, dir, ENTRIES)
      ensures forall k :: 0 <= k < ENTRIES && Private(src, kernel, k) ==> dir.tables[k] !in old(pageTables)
      ensures old(pageTables) <= pageTables && fresh(pageTables - old(pageTables))
      ensures Apart(src) ==> Apart(dir)
      ensures ok ==> forall k :: 0 <= k < ENTRIES ==> (dir.tables[k] == null <==> src.tables[k] == null)
      ensures ok ==> forall k :: 0 <= k < ENTRIES && src.tables[k] != null ==>
                (dir.tables[k] == src.tables[k] <==> src.tables[k] == kernel.tables[k])
      ensures !ok ==> AllTaken(frames[..])
    {
      hide Held, Marked, ClonedTable, WordsKept, FramesIn, AllTaken;
      dir := new PageDirectory();
      ok := true;
      WordsKeptSelf(memory[..], owner.Keys);
      var i := 0;
      while i < ENTRIES
        invariant i <= ENTRIES && Valid() && Shape() && Knows(src) && Knows(kernel) && Knows(dir)
        invariant old(pageTables) <= pageTables && fresh(pageTables - old(pageTables)) && old(owner).Keys <= owner.Keys
        invariant WordsKept(old(memory[..]), memory[..], old(owner).Keys)
        invariant ClonedUpTo(src, kernel, dir, i, old(pageTables))
      {
        if src.tables[i] != null {
          if kernel.tables[i] == src.tables[i] {
            ShareTable(src, kernel, dir, i, old(pageTables));
          } else {
            ghost var m, held := memory[..], owner.Keys;
            ok := CopyTable(src, kernel, dir, i, old(pageTables));
            WordsStillKept(old(memory[..]), m, memory[..], old(owner).Keys, held);
            if !ok { return; }
          }
        }
        i := i + 1;
      }
    }

    // ----- Reading and writing through a directory

    ghost predicate Mapped(dir: PageDirectory, address: u32)
      requires Shape() && Knows(dir)
      reads this, dir, pageTables
    {
      IndexRange(address);
      var table := dir.tables[TableIndex(address)];
      table != null && table[EntryIndex(address)].frame != 0
    }

    /** The index in physical memory of the word that `address` reads through `dir`. */
    ghost function Cell(dir: PageDirectory, address: u32): (c: nat)
      requires Valid() && Knows(dir) && Mapped(dir, address)
      reads this, dir, frames, pageTables
      ensures c < memory.Length
    {
      IndexRange(address);
      var f := dir.tables[TableIndex(address)][EntryIndex(address)].frame;
      assert f in owner;
      f * PAGE_WORDS + address % PAGE_SIZE / 4
    }

    /**
      An address is mapped exactly when the page it lies in has a frame; what it reads is in
      that frame, at the address's offset in its page.
     */
    lemma CellInFrame(dir: PageDirectory, address: u32)
      requires Valid() && Knows(dir) && address / PAGE_SIZE < ENTRIES * ENTRIES
      ensures Mapped(dir, address) <==> EntryAt(dir, address / PAGE_SIZE).frame != 0
      ensures Mapped(dir, address) ==>
        && var f := EntryAt(dir, address / PAGE_SIZE).frame;
        && 4 * Cell(dir, address) + address % 4 == f * PAGE_SIZE + address % PAGE_SIZE
        && |FrameWords(memory[..], f)| == PAGE_WORDS && memory[Cell(dir, address)] == FrameWords(memory[..], f)[address % PAGE_SIZE / 4]
    {
      hide Held, Marked, FrameWords;
      IndexRange(address);
      if Mapped(dir, address) {
        var f := EntryAt(dir, address / PAGE_SIZE).frame;
        HolderKnown(dir.tables[TableIndex(address)], EntryIndex(address));
        ByteInFrame(f, address);
        FrameWithin(f);
        WordInFrame(memory[..], f, address % PAGE_SIZE / 4, Cell(dir, address));
      }
    }

    lemma HolderKnown(table: array<Page>, i: nat)
      requires Valid() && table in pageTables && i < ENTRIES && table[i].frame != 0
      ensures table[i].frame in owner
    {
    }

    lemma FrameWithin(f: nat)
      requires Valid() && f in owner
      ensures (f + 1) * PAGE_WORDS <= memory.Length
    {
    }

    /**
      No two entries hold one frame: two addresses reach the same word exactly when
      they go through the same entry of the same table, at the same offset.
     */
    lemma SameCell(d: PageDirectory, a: u32, e: PageDirectory, b: u32)
      requires Valid() && Knows(d) && Knows(e) && Mapped(d, a) && Mapped(e, b)
      requires TableIndex(a) < ENTRIES && TableIndex(b) < ENTRIES
      ensures Cell(d, a) == Cell(e, b) <==>
        && d.tables[TableIndex(a)] == e.tables[TableIndex(b)] && EntryIndex(a) == EntryIndex(b)
        && a % PAGE_SIZE / 4 == b % PAGE_SIZE / 4
    {
      var s, t := d.tables[TableIndex(a)], e.tables[TableIndex(b)];
      var f, g := s[EntryIndex(a)].frame, t[EntryIndex(b)].frame;
      assert owner[f] == Slot(s, EntryIndex(a)) && owner[g] == Slot(t, EntryIndex(b));
      assert f == g <==> s == t && EntryIndex(a) == EntryIndex(b);
    }

    /** A store through a directory changes one word, and so no address that reaches another. */
    method Store(dir: PageDirectory, address: u32, x: u32)
      requires Valid() && Knows(dir) && Mapped(dir, address)
      modifies memory
      ensures Valid() && Knows(dir) && Mapped(dir, address)
      ensures memory[..] == old(memory[..])[Cell(dir, address) := x]
    {
      IndexRange(address);
      var table := dir.tables[TableIndex(address)];
      var f := table[EntryIndex(address)].frame;
      assert f in owner;
      memory[f * PAGE_WORDS + address % PAGE_SIZE / 4] := x;
    }

    /** Every address mapped in the source reads the same word through the clone. */
    lemma CloneReadsTheSame(src: PageDirectory, kernel: PageDirectory, dir: PageDirectory, address: u32)
      requires Valid() && Knows(src) && Knows(kernel) && Knows(dir)
      requires ClonedTables(src, kernel, dir, ENTRIES) && Mapped(src, address)
      ensures Mapped(dir, address)
      ensures memory[Cell(dir, address)] == memory[Cell(src, address)]
    {
      IndexRange(address);
      var k, e, w := TableIndex(address), EntryIndex(address), address % PAGE_SIZE / 4;
      if Private(src, kernel, k) {
        var s, t := src.tables[k][e], dir.tables[k][e];
        assert Cloned(memory[..], src.tables[k][..][e], dir.tables[k][..][e]);
        assert s.frame in owner && t.frame in owner;
        assert FrameWords(memory[..], t.frame)[w] == FrameWords(memory[..], s.frame)[w];
      } else {
        assert dir.tables[k] == src.tables[k];
      }
    }

    /** Page by page: a frame where the source has one, with the same rights and marks; a page of a private table is a user page then. */
    lemma CloneKeepsFlags(src: PageDirectory, kernel: PageDirectory, dir: PageDirectory, p: nat)
      requires Shape() && Knows(src) && Knows(kernel) && Knows(dir) && ClonedTables(src, kernel, dir, ENTRIES) && p < ENTRIES * ENTRIES
      ensures var s, t := EntryAt(src, p), EntryAt(dir, p);
              && (t.frame == 0 <==> s.frame == 0)
              && (s.frame != 0 ==> t.rw == s.rw && t.accessed == s.accessed && t.dirty == s.dirty)
              && (s.frame != 0 && dir.tables[p / ENTRIES] != src.tables[p / ENTRIES] ==> t.present && t.user)
              && (dir.tables[p / ENTRIES] == src.tables[p / ENTRIES] ==> t == s)
    {
      var k, e := p / ENTRIES, p % ENTRIES;
      if Private(src, kernel, k) {
        assert Cloned(memory[..], src.tables[k][..][e], dir.tables[k][..][e]);
      }
    }

    /**
      A write through a private table of the clone reaches no word that a directory
      made of earlier tables can read, and the other way round.
     */
    lemma CloneIsIsolated(dir: PageDirectory, address: u32, other: PageDirectory, at: u32, earlier: set<array<Page>>, x: u32)
      requires Valid() && Knows(dir) && Knows(other) && Mapped(dir, address) && Mapped(other, at)
      requires TableIndex(address) < ENTRIES && dir.tables[TableIndex(address)] !in earlier
      requires forall k :: 0 <= k < ENTRIES && other.tables[k] != null ==> other.tables[k] in earlier
      ensures memory[..][Cell(dir, address) := x][Cell(other, at)] == memory[Cell(other, at)]
      ensures memory[..][Cell(other, at) := x][Cell(dir, address)] == memory[Cell(dir, address)]
    {
      IndexRange(at);
      SameCell(dir, address, other, at);
    }

    // ----- Frame accounting

    ghost function FreeFrames(): set<nat>
      requires Shape()
      reads this, frames
    {
      set f | 0 <= f < FrameCount() && !Taken(frames[..], f)
    }

    /** Held frames, free frames and the reserved one make up the memory, in every valid state. */
    lemma FrameConservation()
      requires Valid()
      ensures |owner.Keys| + |FreeFrames()| + 1 == FrameCount()
    {
      var held, free, all := owner.Keys, FreeFrames(), Range(0, FrameCount());
      forall f | f in all ensures f in held + free + {0} {
        assert Taken(frames[..], f) <==> f == 0 || f in owner;
      }
      forall f | f in held + free + {0} ensures f in all && !(f in held && f in free) {
        assert f in held ==> Taken(frames[..], f);
      }
      assert Taken(frames[..], 0);
      assert all == held + free + {0} && held !! free && 0 !in held + free;
    }

    /** With every frame taken, all but the reserved one are held. */
    lemma HeldWhenFull()
      requires Valid() && AllTaken(frames[..])
      ensures |owner.Keys| + 1 == FrameCount() && |owner| == |owner.Keys|
    {
      FrameConservation();
      assert FreeFrames() == {};
    }

    /** When the frames held are 1..n-1, the next one handed out is n. */
    lemma NextFrame(n: nat)
      requires Valid() && owner.Keys == Range(1, n) && 0 < n < FrameCount()
      ensures !AllTaken(frames[..])
      ensures forall f :: LeastClear(frames[..], f) ==> f == n
    {
      assert !Taken(frames[..], n);
      assert forall g :: 0 <= g < n ==> Taken(frames[..], g);
    }

    /** The entry of page number `p`, blank when its table is missing. */
    ghost function EntryAt(dir: PageDirectory, p: nat): Page
      requires Shape() && Knows(dir) && p < ENTRIES * ENTRIES
      reads this, dir, pageTables
    {
      if dir.tables[p / ENTRIES] == null then BLANK else dir.tables[p / ENTRIES][p % ENTRIES]
    }

    /** The entries of all pages, in order. */
    ghost function Entries(dir: PageDirectory): (es: seq<Page>)
      requires Shape() && Knows(dir)
      reads this, dir, pageTables
      ensures |es| == ENTRIES * ENTRIES && forall p :: 0 <= p < |es| ==> es[p] == EntryAt(dir, p)
    {
      seq(ENTRIES * ENTRIES, p requires 0 <= p < ENTRIES * ENTRIES && Shape() && Knows(dir) reads this, dir, pageTables =>
        EntryAt(dir, p))
    }

    /** The entries of table `k`. */
    ghost function Row(dir: PageDirectory, k: nat): (row: seq<Page>)
      requires Shape() && Knows(dir) && k < ENTRIES
      reads this, dir, pageTables
      ensures |row| == ENTRIES
    {
      if dir.tables[k] == null then seq(ENTRIES, _ => BLANK) else dir.tables[k][..]
    }

    ghost function Rows(dir: PageDirectory): (rows: seq<seq<Page>>)
      requires Shape() && Knows(dir)
      reads this, dir, pageTables
      ensures |rows| == ENTRIES && forall k :: 0 <= k < ENTRIES ==> rows[k] == Row(dir, k)
    {
      seq(ENTRIES, k requires 0 <= k < ENTRIES && Shape() && Knows(dir) reads this, dir, pageTables => Row(dir, k))
    }

    /** The pages, row after row. */
    lemma EntryInRow(dir: PageDirectory)
      requires Shape() && Knows(dir)
      ensures forall p :: 0 <= p < ENTRIES * ENTRIES ==> Entries(dir)[p] == Row(dir, p / ENTRIES)[p % ENTRIES]
    {
    }

    /** A change to one entry of one row is a change to one page. */
    lemma OnePageChanged(dir: PageDirectory, was: seq<Page>, rows: seq<seq<Page>>, i: nat, x: Page)
      requires Shape() && Knows(dir) && i < ENTRIES * ENTRIES == |was| && |rows| == ENTRIES
      requires forall k :: 0 <= k < ENTRIES ==> |rows[k]| == ENTRIES
      requires forall p :: 0 <= p < |was| ==> was[p] == rows[p / ENTRIES][p % ENTRIES]
      requires Rows(dir) == rows[i / ENTRIES := rows[i / ENTRIES][i % ENTRIES := x]]
      ensures Entries(dir) == was[i := x]
    {
      EntryInRow(dir);
      forall p | 0 <= p < |was| ensures Entries(dir)[p] == was[i := x][p] {
        assert Rows(dir)[p / ENTRIES] == Row(dir, p / ENTRIES);
      }
    }

    /** Every page of an area has its table. */
    ghost predicate Tabled(dir: PageDirectory, from: nat, to: nat)
      requires |dir.tables| == ENTRIES
      reads dir
    {
      to <= ENTRIES * ENTRIES && forall p :: from <= p < to ==> dir.tables[p / ENTRIES] != null
    }

    /** `page` is the entry of page `i`. */
    ghost predicate EntryOf(dir: PageDirectory, i: nat, page: Slot)
      requires |dir.tables| == ENTRIES && i < ENTRIES * ENTRIES
      reads dir
    {
      page.index == i % ENTRIES && page.table == dir.tables[i / ENTRIES]
    }

    /** get_page with `make` changes no entry, and makes a table only if there is none. */
    method Reach(dir: PageDirectory, i: nat) returns (page: Slot)
      requires Valid() && Knows(dir) && Apart(dir) && i < ENTRIES * ENTRIES
      modifies this`pageTables, dir
      ensures Valid() && Knows(dir) && Apart(dir) && EntryOf(dir, i, page)
      ensures old(pageTables) <= pageTables && fresh(pageTables - old(pageTables))
      ensures Entries(dir) == old(Entries(dir))
      ensures TablesKept(old(dir.tables), dir.tables)
      ensures old(dir.tables)[i / ENTRIES] != null ==> dir.tables == old(dir.tables) && pageTables == old(pageTables)
    {
      hide Held, Marked;
      var found := GetPage(i * PAGE_SIZE, true, dir);
      page := found.value;
    }

    /** alloc_frame on the entry of page `i`. */
    method FrameEntry(dir: PageDirectory, i: nat, page: Slot, isKernel: bool, isWriteable: bool) returns (ok: bool)
      requires Valid() && Knows(dir) && Apart(dir) && i < ENTRIES * ENTRIES && EntryOf(dir, i, page)
      modifies this`owner, frames, page.table
      ensures Valid()
      ensures if ok then Framed(old(Entries(dir)), Entries(dir), i, i + 1, isKernel, isWriteable)
              else (Entries(dir) == old(Entries(dir)) && AllTaken(frames[..]))
      ensures PageFramed(old(Entries(dir)), Entries(dir), old(frames[..]), frames[..], i)
      ensures |owner| <= |old(owner)| + (if ok then 1 else 0)
    {
      hide Held, Marked;
      ghost var table, e := page.table, page.index;
      assert EntryAt(dir, i) == table[e];
      ghost var was, rows := Entries(dir), Rows(dir);
      EntryInRow(dir);
      ok := AllocFrame(page, isKernel, isWriteable);
      assert table[..] == rows[i / ENTRIES][e := table[e]];
      assert Rows(dir) == rows[i / ENTRIES := rows[i / ENTRIES][e := table[e]]];
      OnePageChanged(dir, was, rows, i, table[e]);
    }

    /** alloc_frame(get_page(address, 1, dir)), as the heap asks for a page of its own. */
    method MapPage(dir: PageDirectory, i: nat, isKernel: bool, isWriteable: bool) returns (ok: bool)
      requires Valid() && Knows(dir) && Apart(dir) && i < ENTRIES * ENTRIES
      modifies this, frames, dir, pageTables
      ensures Valid() && Knows(dir) && Apart(dir)
      ensures old(pageTables) <= pageTables && fresh(pageTables - old(pageTables))
      ensures if ok then Framed(old(Entries(dir)), Entries(dir), i, i + 1, isKernel, isWriteable)
              else (Entries(dir) == old(Entries(dir)) && AllTaken(frames[..]))
      ensures PageFramed(old(Entries(dir)), Entries(dir), old(frames[..]), frames[..], i)
      ensures |owner| <= |old(owner)| + (if ok then 1 else 0)
      ensures TablesKept(old(dir.tables), dir.tables)
      ensures old(dir.tables)[i / ENTRIES] != null ==> dir.tables == old(dir.tables) && pageTables == old(pageTables)
    {
      hide Held, Marked, TablesKept, Entries, EntryAt, Framed, AllTaken, PageFramed;
      var page := Reach(dir, i);
      ok := FrameEntry(dir, i, page, isKernel, isWriteable);
    }

    /** free_frame(get_page(address, 0, dir)) on a page that is mapped. */
    method UnmapPage(dir: PageDirectory, i: nat)
      requires Valid() && Knows(dir) && Apart(dir) && i < ENTRIES * ENTRIES && EntryAt(dir, i).frame != 0
      modifies this, frames, dir, pageTables
      ensures Valid() && Knows(dir) && Apart(dir) && pageTables == old(pageTables) && dir.tables == old(dir.tables)
      ensures Unframed(old(Entries(dir)), Entries(dir), i, i + 1)
    {
      hide Held, Marked, Unframed;
      var found := GetPage(i * PAGE_SIZE, false, dir);
      assert Entries(dir) == old(Entries(dir));
      UnframeEntry(dir, i, found.value);
    }

    /** free_frame on the entry of page `i`. */
    method UnframeEntry(dir: PageDirectory, i: nat, page: Slot)
      requires Valid() && Knows(dir) && Apart(dir) && i < ENTRIES * ENTRIES && EntryOf(dir, i, page)
      modifies this`owner, frames, page.table
      ensures Valid() && Unframed(old(Entries(dir)), Entries(dir), i, i + 1)
    {
      hide Held, Marked;
      ghost var table, e := page.table, page.index;
      assert EntryAt(dir, i) == table[e];
      ghost var was, rows := Entries(dir), Rows(dir);
      EntryInRow(dir);
      FreeFrame(page);
      assert table[..] == rows[i / ENTRIES][e := table[e]];
      assert Rows(dir) == rows[i / ENTRIES := rows[i / ENTRIES][e := table[e]]];
      assert table[e] == was[i].(frame := 0);
      OnePageChanged(dir, was, rows, i, table[e]);
    }

    /** alloc_frame on a blank entry when frames 1..i-1 are held: the entry gets frame i. */
    method FillEntry(page: Slot, i: nat)
      requires Valid() && page.table in pageTables && page.index < ENTRIES && i < FrameCount()
      requires owner.Keys == Range(1, i) && page.table[page.index] == BLANK
      modifies this`owner, frames, page.table
      ensures Valid() && owner.Keys == Range(1, i + 1)
      ensures page.table[..] == old(page.table[..])[page.index := Page(true, false, true, false, false, i)]
    {
      hide Held, Marked, AllTaken, LeastClear;
      if i > 0 { NextFrame(i); }
      if i == 0 {
        AddFlags(Page(true, false, true, false, false, 0), page.table, page.index);
      } else {
        var ok := AllocFrame(page, false, false);
      }
    }

    /** The boot loop's alloc_frame on the entry of page `i`. */
    method FillPage(dir: PageDirectory, i: nat, page: Slot)
      requires Valid() && Knows(dir) && Apart(dir) && i < ENTRIES * ENTRIES && i < FrameCount() && EntryOf(dir, i, page)
      requires owner.Keys == Range(1, i) && Entries(dir)[i] == BLANK
      modifies this`owner, frames, page.table
      ensures Valid() && owner.Keys == Range(1, i + 1)
      ensures Entries(dir) == old(Entries(dir))[i := Page(true, false, true, false, false, i)]
    {
      hide Held, Marked;
      ghost var table, e := page.table, page.index;
      assert EntryAt(dir, i) == table[e];
      ghost var was, rows := Entries(dir), Rows(dir);
      EntryInRow(dir);
      FillEntry(page, i);
      assert Rows(dir) == rows[i / ENTRIES := rows[i / ENTRIES][e := table[e]]];
      OnePageChanged(dir, was, rows, i, table[e]);
    }

    /** One round of the identity-mapping loop: entry i gets frame i, no other entry changes. */
    method MapOne(dir: PageDirectory, i: nat)
      requires Valid() && Knows(dir) && Apart(dir) && i < FrameCount() && i < ENTRIES * ENTRIES
      requires owner.Keys == Range(1, i) && EntryAt(dir, i) == BLANK
      modifies this`owner, this`pageTables, frames, dir, pageTables
      ensures Valid() && Knows(dir) && Apart(dir) && owner.Keys == Range(1, i + 1)
      ensures old(pageTables) <= pageTables && fresh(pageTables - old(pageTables))
      ensures Entries(dir) == old(Entries(dir))[i := Page(true, false, true, false, false, i)]
      ensures TablesKept(old(dir.tables), dir.tables)
    {
      hide Held, Marked, TablesKept, Entries, EntryAt;
      assert Entries(dir)[i] == BLANK;
      var page := Reach(dir, i);
      FillPage(dir, i, page);
    }

    /** The entries after the identity-mapping loop has got to page `n`: page p has frame p. */
    ghost predicate Identity(es: seq<Page>, n: nat) {
      && |es| == ENTRIES * ENTRIES
      && forall p :: 0 <= p < |es| ==> es[p] == if p < n then Page(true, false, true, false, false, p) else BLANK
    }

    /**
      The identity-mapping loop of initialise_paging, with nothing held and tables
      that are all blank: page p gets frame p. Page 0 gets the reserved frame.
     */
    method IdentityMap(dir: PageDirectory, pages: nat)
      requires Valid() && Knows(dir) && Apart(dir) && owner == map[] && Identity(Entries(dir), 0)
      requires pages <= FrameCount() && pages <= ENTRIES * ENTRIES
      modifies this`owner, this`pageTables, frames, dir, pageTables
      ensures Valid() && Knows(dir) && Apart(dir) && owner.Keys == Range(1, pages)
      ensures old(pageTables) <= pageTables && fresh(pageTables - old(pageTables))
      ensures Identity(Entries(dir), pages) && TablesKept(old(dir.tables), dir.tables)
    {
      hide Held, Marked, Apart, EntryAt, Entries;
      var i := 0;
      while i < pages
        invariant i <= pages && Valid() && Knows(dir) && Apart(dir) && owner.Keys == Range(1, i)
        invariant old(pageTables) <= pageTables && fresh(pageTables - old(pageTables))
        invariant Identity(Entries(dir), i) && TablesKept(old(dir.tables), dir.tables)
      {
        assert Entries(dir)[i] == EntryAt(dir, i);
        MapOne(dir, i);
        i := i + 1;
      }
    }

    /** The first loop of initialise_paging: page tables for an area, but no frames yet. */
    method MakeTables(dir: PageDirectory, from: nat, to: nat)
      requires Valid() && Knows(dir) && Apart(dir) && from <= to <= ENTRIES * ENTRIES
      modifies this`pageTables, dir
      ensures Valid() && Knows(dir) && Apart(dir) && Entries(dir) == old(Entries(dir))
      ensures old(pageTables) <= pageTables && fresh(pageTables - old(pageTables))
      ensures Tabled(dir, from, to)
    {
      hide Held, Marked, Apart, EntryAt;
      var i := from;
      while i < to
        invariant from <= i <= to && Valid() && Knows(dir) && Apart(dir) && Entries(dir) == old(Entries(dir))
        invariant old(pageTables) <= pageTables && fresh(pageTables - old(pageTables))
        invariant forall p :: from <= p < i ==> dir.tables[p / ENTRIES] != null
      {
        var page := Reach(dir, i);
        i := i + 1;
      }
    }

    /** alloc_frame(get_page(..)) for one page after the other: the last loop of initialise_paging, and that of expand. */
    method MapArea(dir: PageDirectory, from: nat, to: nat, isKernel: bool, isWriteable: bool) returns (ok: bool)
      requires Valid() && Knows(dir) && Apart(dir) && from <= to <= ENTRIES * ENTRIES
      modifies this, frames, dir, pageTables
      ensures Valid() && Knows(dir) && Apart(dir)
      ensures old(pageTables) <= pageTables && fresh(pageTables - old(pageTables))
      ensures ok ==> Framed(old(Entries(dir)), Entries(dir), from, to, isKernel, isWriteable)
      ensures !ok ==> AllTaken(frames[..]) && PartlyFramed(old(Entries(dir)), Entries(dir), from, to, isKernel, isWriteable)
      ensures LowestFirst(old(Entries(dir)), Entries(dir), old(frames[..]), frames[..])
      ensures if ok then |owner| <= |old(owner)| + (to - from) else |owner| < |old(owner)| + (to - from)
      ensures TablesKept(old(dir.tables), dir.tables)
      ensures old(Tabled(dir, from, to)) ==> dir.tables == old(dir.tables) && pageTables == old(pageTables)
    {
      hide Held, Marked, Apart, EntryAt, Entries, Framed, AllTaken, LowestFirst, PageFramed;
      ok := true;
      var i := from;
      FramedNone(Entries(dir), from, isKernel, isWriteable);
      LowestNone(Entries(dir), frames[..]);
      while i < to
        invariant from <= i <= to && Valid() && Knows(dir) && Apart(dir)
        invariant old(pageTables) <= pageTables && fresh(pageTables - old(pageTables))
        invariant Framed(old(Entries(dir)), Entries(dir), from, i, isKernel, isWriteable) && |owner| <= |old(owner)| + (i - from)
        invariant LowestFirst(old(Entries(dir)), Entries(dir), old(frames[..]), frames[..])
        invariant TablesKept(old(dir.tables), dir.tables)
        invariant old(Tabled(dir, from, to)) ==> dir.tables == old(dir.tables) && pageTables == old(pageTables)
      {
        ghost var mid, bits := Entries(dir), frames[..];
        ok := MapPage(dir, i, isKernel, isWriteable);
        LowestNext(old(Entries(dir)), mid, Entries(dir), old(frames[..]), bits, frames[..], from, i, isKernel, isWriteable);
        if !ok { return; }
        FramedTwice(old(Entries(dir)), mid, Entries(dir), from, i, i + 1, isKernel, isWriteable);
        i := i + 1;
      }
    }

    /** free_frame(get_page(..)) for one page after the other, from the last one down: the loop of contract. */
    method UnmapArea(dir: PageDirectory, from: nat, to: nat)
      requires Valid() && Knows(dir) && Apart(dir) && from <= to <= ENTRIES * ENTRIES
      requires forall p :: from <= p < to ==> Entries(dir)[p].frame != 0
      modifies this, frames, dir, pageTables
      ensures Valid() && Knows(dir) && Apart(dir) && pageTables == old(pageTables) && dir.tables == old(dir.tables)
      ensures Unframed(old(Entries(dir)), Entries(dir), from, to)
    {
      hide Held, Marked, Apart, EntryAt, Entries, Unframed;
      var i := to;
      UnframedNone(Entries(dir), to);
      while from < i
        invariant from <= i <= to && Valid() && Knows(dir) && Apart(dir)
        invariant pageTables == old(pageTables) && dir.tables == old(dir.tables)
        invariant Unframed(old(Entries(dir)), Entries(dir), i, to)
      {
        i := i - 1;
        ghost var mid := Entries(dir);
        UnframedKeeps(old(Entries(dir)), mid, i + 1, to, i);
        assert mid[i] == EntryAt(dir, i);
        UnmapPage(dir, i);
        UnframedMore(old(Entries(dir)), mid, Entries(dir), i, to);
      }
    }

    /**
      initialise_paging up to the heap: tables for all the area the heap may grow to, `pages`
      identity-mapped pages, then frames for the area the heap starts with.
     */
    method InitialisePaging(dir: PageDirectory, pages: nat, from: nat, to: nat, last: nat) returns (ok: bool)
      requires Valid() && owner == map[] && dir.tables == seq(ENTRIES, _ => null)
      requires pages <= FrameCount() && pages <= from <= to <= last <= ENTRIES * ENTRIES
      modifies this, frames, dir, pageTables
      ensures Valid() && Knows(dir) && Apart(dir)
      ensures old(pageTables) <= pageTables && fresh(pageTables - old(pageTables))
      ensures ok ==> forall p :: 0 <= p < pages ==> EntryAt(dir, p) == Page(true, false, true, false, false, p)
      ensures ok ==> forall p :: from <= p < to ==> UserPage(EntryAt(dir, p))
      ensures ok ==> forall p :: pages <= p < ENTRIES * ENTRIES && !(from <= p < to) ==> EntryAt(dir, p) == BLANK
      ensures !ok ==> AllTaken(frames[..])
      ensures pages + (to - from) < FrameCount() ==> ok
      ensures Tabled(dir, from, last)
    {
      hide Held, Marked, AllTaken, EntryAt, Apart, Framed, PartlyFramed;
      NothingMapped(dir);
      hide Entries, Identity;
      MakeTables(dir, from, last);
      IdentityMap(dir, pages);
      ghost var mapped := Entries(dir);
      assert |owner| == |owner.Keys| == |Range(1, pages)| <= pages;
      ok := MapArea(dir, from, to, false, false);
      if ok { AreaMapped(mapped, Entries(dir), pages, from, to); } else { HeldWhenFull(); }
      forall p | 0 <= p < ENTRIES * ENTRIES ensures Entries(dir)[p] == EntryAt(dir, p) {
      }
    }

    lemma NothingMapped(dir: PageDirectory)
      requires Shape() && dir.tables == seq(ENTRIES, _ => null)
      ensures Knows(dir) && Apart(dir) && Identity(Entries(dir), 0)
    {
    }

    lemma AreaMapped(was: seq<Page>, now: seq<Page>, pages: nat, from: nat, to: nat)
      requires Identity(was, pages) && Framed(was, now, from, to, false, false) && pages <= from <= to <= ENTRIES * ENTRIES
      ensures |now| == ENTRIES * ENTRIES
      ensures forall p :: 0 <= p < pages ==> now[p] == Page(true, false, true, false, false, p)
      ensures forall p :: from <= p < to ==> UserPage(now[p])
      ensures forall p :: pages <= p < ENTRIES * ENTRIES && !(from <= p < to) ==> now[p] == BLANK
    {
    }
  }

  /** The numbers from lo up to, but not including, hi. */
  ghost function Range(lo: nat, hi: nat): (s: set<nat>)
    ensures forall g :: g in s <==> lo <= g < hi
    ensures lo <= hi ==> |s| == hi - lo
  {
    if lo >= hi then {} else Range(lo, hi - 1) + {hi - 1}
  }

  /** Clearing with the frame number where the address belongs frees the frame only if it is frame 0. */
  lemma FreeNeedsAddress(bits: seq<u32>, f: nat)
    requires f < 32 * |bits| && Taken(bits, f)
    ensures !Taken(ClearBit(bits, f / PAGE_SIZE), f) <==> f == 0
    ensures !Taken(ClearBit(bits, f * PAGE_SIZE / PAGE_SIZE), f)
  {
    ClearBitFrees(bits, f / PAGE_SIZE, f);
    ClearBitFrees(bits, f, f);
  }

  /** initialise_paging reserves a byte, not a word, for every 32 frames: the word of frame `f` lies within for a quarter of them. */
  lemma BitmapReservedInBytes(nframes: nat, f: nat)
    ensures 4 * (f / 32) + 4 <= nframes / 32 <==> f < nframes / 128 * 32
  {
  }

  /** first_frame as written: when nothing is free, it answers 0. */
  ghost predicate FirstFrameAsWritten(bits: seq<u32>, f: nat) {
    LeastClear(bits, f) || (AllTaken(bits) && f == 0)
  }

  /**
    alloc_frame does not notice the answer 0. With the reserved frame marked, the frame it
    hands out is free, and the entry looks filled afterwards, exactly when some frame is free.
   */
  lemma ExhaustionHandsOutFrameZero(bits: seq<u32>, f: nat)
    requires bits != [] && Taken(bits, 0) && FirstFrameAsWritten(bits, f)
    ensures f < 32 * |bits| && (!Taken(bits, f) <==> !AllTaken(bits)) && (f != 0 <==> !AllTaken(bits))
  {
    if LeastClear(bits, f) {
      assert !Taken(bits, f);
    } else {
      assert Taken(bits, f);
    }
  }

  lemma {:induction false} ZeroHasNoBits(j: nat)
    ensures !Bit(0, j)
  {
    if j != 0 { ZeroHasNoBits(j - 1); }
  }

  lemma LowBitOnly(j: nat)
    ensures Bit(1, j) <==> j == 0
  {
    if j != 0 { ZeroHasNoBits(j - 1); }
  }
}
