/**
  The heap's growth as written, src/kheap.c:56-79: expand asks get_page for each page, and
  get_page allocates a missing page table from the same heap (src/paging.c:177-178,
  src/kheap.c:20-21), while the end of the heap has not moved yet. alloc, expand and the loop
  in it call one another, and alloc itself once more when the heap has grown; the functions
  below follow these calls to any depth. The rest of alloc is taken as KernelHeap proves it.
 */
module HeapCallback {
  import opened Words
  import opened Regions
  import opened HeapState
  import opened HeapMoves
  import opened HeapRuns
  import P = Paging

  /** What get_page asks the heap for: a page table, page-aligned. */
  const TABLE_REQUEST: nat := 0x1000 + TAGS

  /** The heap and the kernel's directory while expand runs: `tables` are table numbers, `framed` page numbers. */
  datatype Growing = Growing(regions: seq<Region>, start: nat, end: nat, max: nat, tables: set<nat>, framed: set<nat>)

  /** The map tiles whole pages, the last of which is mapped, so that its table is there. */
  ghost predicate Sane(s: Growing) {
    && Tiles(s.regions, s.start, s.end) && s.end % PAGE_SIZE == 0
    && 0 < s.end && (s.end / PAGE_SIZE - 1) / P.ENTRIES in s.tables
  }

  /** The first page from `i` on that has no table, or `to`. */
  function FirstUntabled(tables: set<nat>, i: nat, to: nat): (m: nat)
    requires i <= to
    ensures i <= m <= to && (forall p: nat :: i <= p < m ==> p / P.ENTRIES in tables)
    ensures m < to ==> m / P.ENTRIES !in tables
    decreases if i < to then to - i else 0
  {
    if i == to || i / P.ENTRIES !in tables then i else FirstUntabled(tables, i + 1, to)
  }

  /** Some page between the end and `newEnd` has no table. */
  ghost predicate LacksTable(s: Growing, newEnd: nat) {
    exists p: nat :: s.end / PAGE_SIZE <= p < newEnd / PAGE_SIZE && p / P.ENTRIES !in s.tables
  }

  // ----- The call back

  /** The end that alloc asks expand for, when no hole fits a request. */
  ghost function Expansion(s: Growing, newSize: nat): (newEnd: nat)
    ensures s.end < newEnd && (s.end % PAGE_SIZE == 0 ==> newEnd % PAGE_SIZE == 0)
  {
    s.end + Growth(newSize)
  }

  /** No hole fits a page table. */
  ghost predicate NeedsExpansion(s: Growing) { NoFit(s.regions, TABLE_REQUEST, true) }

  /** The call back finds its smallest hole, and returns without a further expansion, exactly when some hole fits a page table. */
  lemma {:induction false} CallBackFinds(rs: seq<Region>, newSize: nat, pageAlign: bool)
    ensures (exists i: nat :: BestFit(rs, i, newSize, pageAlign)) <==> !NoFit(rs, newSize, pageAlign)
    decreases |rs|
  {
    if !NoFit(rs, newSize, pageAlign) {
      var n := |rs| - 1;
      var front := rs[..n];
      assert rs == front + [rs[n]];
      CallBackFinds(front, newSize, pageAlign);
      if NoFit(front, newSize, pageAlign) {
        assert BestFit(rs, n, newSize, pageAlign);
      } else {
        var i: nat :| BestFit(front, i, newSize, pageAlign);
        var k := if Fits(rs[n], newSize, pageAlign) && rs[n].size < rs[i].size then n else i;
        assert BestFit(rs, k, newSize, pageAlign);
      }
    }
  }

  /** Carving the smallest hole that fits keeps the tiling and adds one block. */
  lemma CarveAdds(rs: seq<Region>, lo: nat, hi: nat, i: nat, newSize: nat, pageAlign: bool)
    requires Tiles(rs, lo, hi) && BestFit(rs, i, newSize, pageAlign) && TAGS <= newSize
    ensures var b := BlockIn(rs[i], newSize, pageAlign);
            && (pageAlign ==> b.Payload() % PAGE_SIZE == 0) && rs[i].addr <= b.addr && b.End() <= rs[i].End()
            && BlockAdded(rs, Carved(rs, i, b), b) && Tiles(Carved(rs, i, b), lo, hi)
  {
    hide Tiles, Blocks, Replace, Carved, Pieces;
    var h, b := rs[i], BlockIn(rs[i], newSize, pageAlign);
    var gap := Gap(h.addr, pageAlign);
    RequestServed(h, newSize, pageAlign);
    CarvedIs(rs, i, gap, b);
    PiecesTile(h, gap, Pieces(h, gap, b.size), b);
    TilesReplaced(rs, lo, hi, i, Pieces(h, gap, b.size));
    BlocksReplaced(rs, lo, hi, i, Pieces(h, gap, b.size), b);
  }

  lemma TilesReplaced(rs: seq<Region>, lo: nat, hi: nat, i: nat, ps: seq<Region>)
    requires Tiles(rs, lo, hi) && i < |rs| && Tiles(ps, rs[i].addr, rs[i].End())
    ensures Tiles(Replace(rs, i, i + 1, ps), lo, hi)
  {
    hide Tiles;
    CutAfter(rs, lo, hi, i);
    TilesSplit(rs, lo, hi, i);
    TilesSplit(rs, lo, hi, i + 1);
    TilesConcat(rs[..i], ps, lo, rs[i].addr, rs[i].End());
    TilesConcat(rs[..i] + ps, rs[i + 1..], lo, rs[i].End(), hi);
  }

  lemma BlocksReplaced(rs: seq<Region>, lo: nat, hi: nat, i: nat, ps: seq<Region>, b: Region)
    requires Tiles(rs, lo, hi) && i < |rs| && rs[i].hole && Blocks(ps) == {b} && rs[i].addr <= b.addr < rs[i].End()
    ensures BlockAdded(rs, Replace(rs, i, i + 1, ps), b)
  {
    hide Replace;
    CutAfter(rs, lo, hi, i);
    BlocksReplace(rs, i, i + 1, ps);
    assert rs[i..i + 1] == [rs[i]] && Blocks([rs[i]]) == {};
    forall j | 0 <= j < |rs| && !rs[j].hole ensures rs[j] != b {
      if j < i { assert rs[j].End() <= rs[i].addr; } else { assert rs[i].End() <= rs[j].addr; }
    }
  }

  /** If a hole fits, the call back returns a page-aligned block of its own out of the smallest such hole. */
  lemma CallBackTakesABlock(rs: seq<Region>, lo: nat, hi: nat, i: nat)
    requires Tiles(rs, lo, hi) && BestFit(rs, i, TABLE_REQUEST, true)
    ensures var b := BlockIn(rs[i], TABLE_REQUEST, true);
            && b.Payload() % PAGE_SIZE == 0 && rs[i].addr <= b.addr && b.End() <= rs[i].End()
            && BlockAdded(rs, Carved(rs, i, b), b)
  {
    hide Tiles, BestFit, BlockAdded, Carved, BlockIn;
    CarveAdds(rs, lo, hi, i, TABLE_REQUEST, true);
  }

  /** So an allocation that grows the heap past its tables leaves two blocks more, and never just the one asked for. */
  lemma TwoBlocksAdded(rs: seq<Region>, rs1: seq<Region>, rs2: seq<Region>, b: Region, c: Region)
    requires BlockAdded(rs, rs1, b) && BlockAdded(rs1, rs2, c)
    ensures forall d :: !BlockAdded(rs, rs2, d)
  {
    hide Blocks;
    assert b in Blocks(rs2) && c in Blocks(rs2) && b != c && b !in Blocks(rs) && c !in Blocks(rs);
  }

  /**
    If no hole fits and the expansion inside comes through, the table's block reaches behind
    the old end, into the bytes that the growth around it then takes for a hole of its own.
   */
  lemma TableBehindOldEnd(rs: seq<Region>, lo: nat, end: nat, end': nat, at: nat)
    requires Tiles(rs, lo, end) && end % PAGE_SIZE == 0 && end < end' && TailStart(rs, end) <= end
    requires NoFit(rs, TABLE_REQUEST, true) && BestFit(Retailed(rs, end, end'), at, TABLE_REQUEST, true)
    ensures var b := BlockIn(Retailed(rs, end, end')[at], TABLE_REQUEST, true);
            end < b.End() <= end' && b.addr < end + PAGE_SIZE
  {
    hide AlignGap;
    var n, a := TailNumber(rs), TailStart(rs, end);
    var now := Retailed(rs, end, end');
    assert now == rs[..n] + [Region(a, end' - a, true)];
    RequestServed(now[n], TABLE_REQUEST, true);
    GapBound(a, end);
    if n < |rs| { assert !Fits(rs[n], TABLE_REQUEST, true); }
  }

  // ----- The recursion as written

  /**
    How a call comes out: it returns; the assertion on the maximum fails; expand sets an end
    that moved meanwhile, and its new bytes overlap a table; or calls of alloc nest deeper
    than they are followed.
   */
  datatype Result = Back(s: Growing) | Fails | Overlaps(s: Growing) | Deeper

  /** What a call that returns has kept. */
  ghost predicate Kept(s: Growing, r: Result) {
    r.Back? ==> Sane(r.s) && s.end <= r.s.end && r.s.start == s.start && r.s.max == s.max && s.tables <= r.s.tables
  }

  /** The smallest hole that fits. */
  ghost function Best(rs: seq<Region>, newSize: nat, pageAlign: bool): (i: nat)
    requires !NoFit(rs, newSize, pageAlign)
    ensures BestFit(rs, i, newSize, pageAlign) && i < |rs| && Fits(rs[i], newSize, pageAlign)
  {
    CallBackFinds(rs, newSize, pageAlign);
    var i: nat :| BestFit(rs, i, newSize, pageAlign);
    i
  }

  /** The heap once a block has been carved out of the smallest hole that fits. */
  ghost function Taken(s: Growing, newSize: nat, pageAlign: bool): (s': Growing)
    requires Sane(s) && TAGS <= newSize && !NoFit(s.regions, newSize, pageAlign)
    ensures Sane(s')
  {
    hide Tiles, BestFit, BlockAdded, BlockIn, Carved;
    var i := Best(s.regions, newSize, pageAlign);
    CarveAdds(s.regions, s.start, s.end, i, newSize, pageAlign);
    s.(regions := Carved(s.regions, i, BlockIn(s.regions[i], newSize, pageAlign)))
  }

  /** alloc, followed `n` calls deep; starting over at its last line is a call. */
  ghost function AllocAsWritten(s: Growing, newSize: nat, pageAlign: bool, n: nat): (r: Result)
    requires Sane(s) && TAGS <= newSize
    ensures Kept(s, r) && (n == 0 ==> r == Deeper)
    decreases n, 0, 0
  {
    if n == 0 then Deeper
    else if !NoFit(s.regions, newSize, pageAlign) then Back(Taken(s, newSize, pageAlign))
    else
      match GrowAsWritten(s, Expansion(s, newSize), n - 1)
      case Back(s') => AllocAsWritten(s', newSize, pageAlign, n - 1)
      case r => r
  }

  /** expand, and the new bytes made a hole, or part of the last one, where the end had not moved meanwhile. */
  ghost function GrowAsWritten(s: Growing, newEnd: nat, n: nat): (r: Result)
    requires Sane(s) && s.end < newEnd && newEnd % PAGE_SIZE == 0
    ensures Kept(s, r) && (r.Back? ==> r.s.end == newEnd)
    decreases n, 2, 0
  {
    hide Tiles;
    if s.max < newEnd then Fails
    else
      match MapAsWritten(s, s.end / PAGE_SIZE, newEnd / PAGE_SIZE, n)
      case Back(s') =>
        if s'.end == s.end then
          RetailedTiles(s'.regions, s.start, s.end, newEnd);
          Back(s'.(regions := Retailed(s'.regions, s.end, newEnd), end := newEnd))
        else Overlaps(s'.(end := newEnd))
      case r => r
  }

  /** The loop of expand from page `i` on: after a call back the table is stored, and the loop goes on. */
  ghost function MapAsWritten(s: Growing, i: nat, to: nat, n: nat): (r: Result)
    requires Sane(s)
    ensures Kept(s, r) && (r.Back? && i < to ==> (to - 1) / P.ENTRIES in r.s.tables)
    decreases n, 1, if i < to then to - i else 0
  {
    hide Tiles;
    if i >= to then Back(s)
    else if i / P.ENTRIES in s.tables then MapAsWritten(s.(framed := s.framed + {i}), i + 1, to, n)
    else
      match AllocAsWritten(s, TABLE_REQUEST, true, n)
      case Back(s') => MapAsWritten(WithTable(s', i), i + 1, to, n)
      case r => r
  }

  /** Page `i` is mapped through a new table. */
  ghost function WithTable(s: Growing, i: nat): Growing {
    s.(tables := s.tables + {i / P.ENTRIES}, framed := s.framed + {i})
  }

  lemma RetailedTiles(rs: seq<Region>, lo: nat, hi: nat, hi': nat)
    requires Tiles(rs, lo, hi) && hi + TAGS <= hi'
    ensures TailStart(rs, hi) <= hi' && Tiles(Retailed(rs, hi, hi'), lo, hi') && Blocks(Retailed(rs, hi, hi')) == Blocks(rs)
  {
    hide Tiles, Blocks;
    TailStartInside(rs, lo, hi);
    var n, a := TailNumber(rs), TailStart(rs, hi);
    var x := Region(a, hi' - a, true);
    TilesSplit(rs, lo, hi, n);
    OneTiles(x);
    TilesConcat(rs[..n], [x], lo, a, hi');
    assert Retailed(rs, hi, hi') == rs[..n] + [x];
    TailBlocks(rs, x);
  }

  lemma OneTiles(x: Region)
    requires TAGS <= x.size
    ensures Tiles([x], x.addr, x.End())
  {
  }

  lemma TailBlocks(rs: seq<Region>, x: Region)
    requires x.hole
    ensures Blocks(rs[..TailNumber(rs)] + [x]) == Blocks(rs)
  {
    var n := TailNumber(rs);
    BlocksConcat(rs[..n], [x]);
    SettledBlocks(rs);
  }

  // ----- Up to the first call back

  /** The loop reaches the first page without a table. */
  lemma {:induction false} MapToFirst(s: Growing, i: nat, to: nat, n: nat)
    requires Sane(s) && i <= to
    ensures var m := FirstUntabled(s.tables, i, to);
            var s' := s.(framed := s.framed + P.Range(i, m));
            Sane(s') && MapAsWritten(s, i, to, n) == if m < to then MapAsWritten(s', m, to, n) else Back(s')
    decreases if i < to then to - i else 0
  {
    hide Sane, P.Range, FirstUntabled, AllocAsWritten, WithTable;
    var m := FirstUntabled(s.tables, i, to);
    FirstStep(s.tables, s.framed, i, to);
    if i < m {
      SaneFramed(s, s.framed + {i});
      MapToFirst(s.(framed := s.framed + {i}), i + 1, to, n);
      SaneFramed(s, s.framed + P.Range(i, m));
    }
  }

  lemma FirstStep(tables: set<nat>, framed: set<nat>, i: nat, to: nat)
    requires i <= to
    ensures var m := FirstUntabled(tables, i, to);
            if i < m then m == FirstUntabled(tables, i + 1, to) && framed + {i} + P.Range(i + 1, m) == framed + P.Range(i, m)
            else framed + P.Range(i, m) == framed
  {
    hide P.Range;
  }

  /** The state in which expand calls back for the first time. */
  ghost function AtCall(s: Growing, newEnd: nat): (s': Growing)
    requires Sane(s) && s.end <= newEnd && LacksTable(s, newEnd)
    ensures Sane(s') && s' == s.(framed := s'.framed)
  {
    var i := s.end / PAGE_SIZE;
    s.(framed := s.framed + P.Range(i, FirstUntabled(s.tables, i, newEnd / PAGE_SIZE)))
  }

  /** The page that is called for. */
  ghost function CalledFor(s: Growing, newEnd: nat): (m: nat)
    requires s.end <= newEnd && LacksTable(s, newEnd)
    ensures s.end / PAGE_SIZE <= m < newEnd / PAGE_SIZE && m / P.ENTRIES !in s.tables
    ensures forall p: nat :: s.end / PAGE_SIZE <= p < m ==> p / P.ENTRIES in s.tables
  {
    FirstUntabled(s.tables, s.end / PAGE_SIZE, newEnd / PAGE_SIZE)
  }

  /** The loop of expand comes to its first call back, and goes on behind it if that returns. */
  lemma MapCalls(s: Growing, newEnd: nat, n: nat)
    requires Sane(s) && s.end <= newEnd && LacksTable(s, newEnd)
    ensures var r := AllocAsWritten(AtCall(s, newEnd), TABLE_REQUEST, true, n);
            var m, to := CalledFor(s, newEnd), newEnd / PAGE_SIZE;
            MapAsWritten(s, s.end / PAGE_SIZE, to, n) == if r.Back? then MapAsWritten(WithTable(r.s, m), m + 1, to, n) else r
  {
    hide Tiles, P.Range, AllocAsWritten;
    MapToFirst(s, s.end / PAGE_SIZE, newEnd / PAGE_SIZE, n);
  }

  /** The heap after an expansion that needs no table. */
  ghost function Grown(s: Growing, newEnd: nat): (s': Growing)
    requires Sane(s) && s.end < newEnd && newEnd % PAGE_SIZE == 0
    ensures Tiles(s'.regions, s.start, newEnd) && s'.end == newEnd && s' == s.(regions := s'.regions, end := newEnd, framed := s'.framed)
  {
    hide Tiles;
    RetailedTiles(s.regions, s.start, s.end, newEnd);
    s.(regions := Retailed(s.regions, s.end, newEnd), end := newEnd,
       framed := s.framed + P.Range(s.end / PAGE_SIZE, newEnd / PAGE_SIZE))
  }

  lemma GrowPlain(s: Growing, newEnd: nat, n: nat)
    requires Sane(s) && s.end < newEnd <= s.max && newEnd % PAGE_SIZE == 0 && !LacksTable(s, newEnd)
    ensures GrowAsWritten(s, newEnd, n) == Back(Grown(s, newEnd)) && Sane(Grown(s, newEnd))
  {
    hide Tiles, P.Range, MapAsWritten, Retailed;
    MapToFirst(s, s.end / PAGE_SIZE, newEnd / PAGE_SIZE, n);
  }

  lemma {:induction false} SameFirst(tables: set<nat>, i: nat, to: nat, to': nat)
    requires i <= to && i <= to' && FirstUntabled(tables, i, to) < to && FirstUntabled(tables, i, to') < to'
    ensures FirstUntabled(tables, i, to) == FirstUntabled(tables, i, to')
  {
  }

  /** expand calls back into alloc exactly when some page it is to map has no table; the map and the end are then as before. */
  lemma CallsBackIff(s: Growing, newEnd: nat)
    requires Sane(s) && s.end < newEnd <= s.max && newEnd % PAGE_SIZE == 0
    ensures GrowAsWritten(s, newEnd, 0).Deeper? <==> LacksTable(s, newEnd)
    ensures LacksTable(s, newEnd) ==>
              forall n: nat :: AllocAsWritten(AtCall(s, newEnd), TABLE_REQUEST, true, n).Deeper?
                               ==> GrowAsWritten(s, newEnd, n).Deeper?
  {
    hide Sane, LacksTable, AtCall, CalledFor, Grown, AllocAsWritten, WithTable;
    if LacksTable(s, newEnd) {
      forall n: nat | AllocAsWritten(AtCall(s, newEnd), TABLE_REQUEST, true, n).Deeper? ensures GrowAsWritten(s, newEnd, n).Deeper? {
        MapCalls(s, newEnd, n);
      }
    } else {
      GrowPlain(s, newEnd, 0);
    }
  }

  /**
    If no hole fits, the call back expands from the same end. It calls back exactly when the
    maximum is not passed and one of the two pages it is about to map has no table; and then
    it does so for the same page, in the same state.
   */
  lemma SameCallAgain(s: Growing, newEnd: nat)
    requires Sane(s) && s.end < newEnd && LacksTable(s, newEnd)
    ensures var s', e := AtCall(s, newEnd), Expansion(s, TABLE_REQUEST);
            && (GrowAsWritten(s', e, 0).Deeper? <==> e <= s.max && LacksTable(s, e))
            && (LacksTable(s, e) ==> AtCall(s', e) == s' && CalledFor(s', e) == CalledFor(s, newEnd))
  {
    hide Tiles, FirstUntabled, Growth, P.Range, GrowAsWritten;
    var i, s', e := s.end / PAGE_SIZE, AtCall(s, newEnd), Expansion(s, TABLE_REQUEST);
    if s.max < e { GrowOver(s', e, 0); } else { CallsBackIff(s', e); }
    if LacksTable(s, e) {
      SameFirst(s.tables, i, newEnd / PAGE_SIZE, e / PAGE_SIZE);
      assert s'.framed + P.Range(i, CalledFor(s, newEnd)) == s'.framed;
    }
  }

  lemma GrowOver(s: Growing, newEnd: nat, n: nat)
    requires Sane(s) && s.end < newEnd && newEnd % PAGE_SIZE == 0 && s.max < newEnd
    ensures GrowAsWritten(s, newEnd, n) == Fails
  {
  }

  // ----- The call back in full

  /**
    A page table never comes: nothing fits one, and the expansion for it calls back in turn,
    either the first one or, where that leaves too little behind the alignment, the second one.
   */
  ghost predicate Stuck(s: Growing)
    requires Sane(s)
  {
    var e := Expansion(s, TABLE_REQUEST);
    NeedsExpansion(s) && e <= s.max
    && (LacksTable(s, e)
        || (NoFit(Grown(s, e).regions, TABLE_REQUEST, true)
            && e + Growth(TABLE_REQUEST) <= s.max && LacksTable(s, e + Growth(TABLE_REQUEST))))
  }

  /** The first expansion calls back: the same call is made over and over. */
  lemma {:induction false} StuckAtOnce(s: Growing, n: nat)
    requires Sane(s) && NeedsExpansion(s)
    requires Expansion(s, TABLE_REQUEST) <= s.max && LacksTable(s, Expansion(s, TABLE_REQUEST))
    ensures AllocAsWritten(s, TABLE_REQUEST, true, n) == Deeper
    decreases n
  {
    hide Tiles, NoFit, MapAsWritten, Growth;
    if n > 0 {
      var e := Expansion(s, TABLE_REQUEST);
      MapCalls(s, e, n - 1);
      StuckAtOnce(AtCall(s, e), n - 1);
    }
  }

  lemma StuckDeep(s: Growing, n: nat)
    requires Sane(s) && Stuck(s)
    ensures AllocAsWritten(s, TABLE_REQUEST, true, n) == Deeper
  {
    hide Tiles, NoFit, Grown, GrowAsWritten, Growth;
    var e := Expansion(s, TABLE_REQUEST);
    if LacksTable(s, e) {
      StuckAtOnce(s, n);
    } else if n > 0 {
      GrowPlain(s, e, n - 1);
      LacksLater(s, Grown(s, e), e + Growth(TABLE_REQUEST));
      StuckAtOnce(Grown(s, e), n - 1);
    }
  }

  /** With tables up to `s'.end`, the missing one is behind it. */
  lemma LacksLater(s: Growing, s': Growing, newEnd: nat)
    requires s.end <= s'.end <= newEnd && s'.tables == s.tables && !LacksTable(s, s'.end)
    ensures LacksTable(s', newEnd) <==> LacksTable(s, newEnd)
  {
  }

  /** A call back that returns was served as an allocation is, and made no table itself. */
  lemma {:induction false} TableServed(s: Growing, n: nat, k: nat) returns (grown: nat, at: nat, b: Region)
    requires Sane(s) && AllocAsWritten(s, TABLE_REQUEST, true, n).Back?
    requires TailStart(s.regions, s.end) <= s.end && Certain(s.regions, s.end, TABLE_REQUEST, true, k)
    ensures grown <= k
    ensures var s' := AllocAsWritten(s, TABLE_REQUEST, true, n).s;
            s'.tables == s.tables && Served(s.regions, s.end, s'.regions, s'.end, TABLE_REQUEST, true, grown, at, b)
    decreases n
  {
    hide Tiles, NoFit, Growth, Certain, BestFit, Served, TailStart, Grown, Expansion, AllocAsWritten;
    if !NoFit(s.regions, TABLE_REQUEST, true) {
      at := Best(s.regions, TABLE_REQUEST, true);
      grown, b := 0, BlockIn(s.regions[at], TABLE_REQUEST, true);
      ServedAtOnce(s, at, n);
    } else {
      TableGrows(s, n, k);
      var s1, s' := Grown(s, Expansion(s, TABLE_REQUEST)), AllocAsWritten(s, TABLE_REQUEST, true, n).s;
      grown, at, b := TableServed(s1, n - 1, k - 1);
      ServedAfterOne(s, s1, s', grown, at, b);
      grown := grown + 1;
    }
  }

  /** A call back that grows the heap and returns needed no table for that. */
  lemma TableGrows(s: Growing, n: nat, k: nat)
    requires Sane(s) && AllocAsWritten(s, TABLE_REQUEST, true, n).Back? && NeedsExpansion(s)
    requires TailStart(s.regions, s.end) <= s.end && Certain(s.regions, s.end, TABLE_REQUEST, true, k)
    ensures 0 < k && 0 < n
    ensures var s1 := Grown(s, Expansion(s, TABLE_REQUEST));
            && Sane(s1) && AllocAsWritten(s, TABLE_REQUEST, true, n) == AllocAsWritten(s1, TABLE_REQUEST, true, n - 1)
            && TailStart(s1.regions, s1.end) <= s1.end && Certain(s1.regions, s1.end, TABLE_REQUEST, true, k - 1)
  {
    hide Tiles, NoFit, Growth, Certain, TailStart, GrowAsWritten, Retailed;
    var e := Expansion(s, TABLE_REQUEST);
    if k == 0 { CertainFits(s.regions, s.start, s.end, TABLE_REQUEST, true); }
    if s.max < e {
      GrowOver(s, e, n - 1);
    } else if LacksTable(s, e) {
      StuckAtOnce(s, n);
    }
    GrowPlain(s, e, n - 1);
    CertainNearer(s.regions, s.start, s.end, TABLE_REQUEST, true, k);
  }

  lemma ServedAfterOne(s: Growing, s1: Growing, s': Growing, grown: nat, at: nat, b: Region)
    requires Sane(s) && NeedsExpansion(s) && s1 == Grown(s, Expansion(s, TABLE_REQUEST))
    requires Served(s1.regions, s1.end, s'.regions, s'.end, TABLE_REQUEST, true, grown, at, b)
    ensures Served(s.regions, s.end, s'.regions, s'.end, TABLE_REQUEST, true, grown + 1, at, b)
  {
    hide Tiles, NoFit, Growth, TailStart, Served, Retailed;
    TailStartInside(s.regions, s.start, s.end);
    ServedLater(s.regions, s.start, s.end, s1.regions, s1.end, s'.regions, s'.end, TABLE_REQUEST, true, grown, at, b);
  }

  lemma ServedAtOnce(s: Growing, at: nat, n: nat)
    requires Sane(s) && !NoFit(s.regions, TABLE_REQUEST, true) && at == Best(s.regions, TABLE_REQUEST, true) && 0 < n
    ensures var b, s' := BlockIn(s.regions[at], TABLE_REQUEST, true), Taken(s, TABLE_REQUEST, true);
            && AllocAsWritten(s, TABLE_REQUEST, true, n) == Back(s')
            && s'.tables == s.tables && Served(s.regions, s.end, s'.regions, s'.end, TABLE_REQUEST, true, 0, at, b)
  {
    hide Tiles, NoFit, BestFit, Carved, BlockIn;
    TailStartInside(s.regions, s.start, s.end);
  }

  /** If it is not stuck, the call back comes out no more than three calls deep. */
  lemma TableEnds(s: Growing)
    requires Sane(s) && !Stuck(s)
    ensures var r := AllocAsWritten(s, TABLE_REQUEST, true, 3); !r.Deeper? && !r.Overlaps?
  {
    hide Tiles, NoFit, Growth, Grown, Certain, TailStart, Taken, GrowAsWritten;
    GrowthsEnough(s.regions, s.start, s.end, TABLE_REQUEST, true);
    var e := Expansion(s, TABLE_REQUEST);
    if NeedsExpansion(s) {
      if s.max < e {
        GrowOver(s, e, 2);
      } else {
        GrowPlain(s, e, 2);
        OneCloser(s, e);
        TableEndsAfterOne(s, Grown(s, e));
      }
    }
  }

  lemma OneCloser(s: Growing, e: nat)
    requires Sane(s) && e == Expansion(s, TABLE_REQUEST)
    ensures TailStart(Grown(s, e).regions, e) <= e && Certain(Grown(s, e).regions, e, TABLE_REQUEST, true, 1)
  {
    hide Tiles, Certain, TailStart, Growth;
    GrowthsEnough(s.regions, s.start, s.end, TABLE_REQUEST, true);
    CertainNearer(s.regions, s.start, s.end, TABLE_REQUEST, true, 2);
  }

  lemma TableEndsAfterOne(s: Growing, s1: Growing)
    requires Sane(s) && !Stuck(s) && NeedsExpansion(s) && Expansion(s, TABLE_REQUEST) <= s.max
    requires s1 == Grown(s, Expansion(s, TABLE_REQUEST)) && Sane(s1)
    requires TailStart(s1.regions, s1.end) <= s1.end && Certain(s1.regions, s1.end, TABLE_REQUEST, true, 1)
    ensures var r := AllocAsWritten(s1, TABLE_REQUEST, true, 2); !r.Deeper? && !r.Overlaps?
  {
    hide Tiles, NoFit, Growth, Grown, Certain, TailStart, Taken, GrowAsWritten;
    var e := Expansion(s1, TABLE_REQUEST);
    if NeedsExpansion(s1) {
      LacksLater(s, s1, e);
      if s1.max < e {
        GrowOver(s1, e, 1);
      } else {
        GrowPlain(s1, e, 1);
        CertainNearer(s1.regions, s1.start, s1.end, TABLE_REQUEST, true, 1);
        LastFits(s1, e);
      }
    }
  }

  lemma LastFits(s: Growing, e: nat)
    requires Sane(s) && s.end < e && e % PAGE_SIZE == 0
    requires var rs := Retailed(s.regions, s.end, e); TailStart(rs, e) <= e && Certain(rs, e, TABLE_REQUEST, true, 0)
    ensures !NoFit(Grown(s, e).regions, TABLE_REQUEST, true)
  {
    hide Tiles, Certain, TailStart, NoFit;
    CertainFits(Grown(s, e).regions, s.start, e, TABLE_REQUEST, true);
  }

  /** A call back never comes out, however deep it is followed, exactly when it is stuck. */
  lemma TableNeverEndsIff(s: Growing)
    requires Sane(s)
    ensures (forall n: nat :: AllocAsWritten(s, TABLE_REQUEST, true, n).Deeper?) <==> Stuck(s)
  {
    hide Sane, Stuck, AllocAsWritten;
    if Stuck(s) {
      forall n: nat ensures AllocAsWritten(s, TABLE_REQUEST, true, n).Deeper? {
        StuckDeep(s, n);
      }
    } else {
      TableEnds(s);
    }
  }

  // ----- The loop behind the first call back

  /** The first page from `i` on that starts a table. */
  function NextTable(i: nat): nat { (i + P.ENTRIES - 1) / P.ENTRIES * P.ENTRIES }

  /** The end is well in front of the next table that may be missing, and every page up to `i` has its table. */
  ghost predicate Ahead(s: Growing, i: nat) {
    && 0 < i && (i - 1) / P.ENTRIES in s.tables
    && s.end / PAGE_SIZE + 4 <= NextTable(i)
    && forall p: nat :: s.end / PAGE_SIZE <= p < i ==> p / P.ENTRIES in s.tables
  }

  lemma AheadStep(s: Growing, i: nat)
    requires Ahead(s, i) && i / P.ENTRIES in s.tables
    ensures Ahead(s.(framed := s.framed + {i}), i + 1)
  {
  }

  /** At a missing table, the expansions for it need no other. */
  lemma AheadNotStuck(s: Growing, i: nat)
    requires Sane(s) && Ahead(s, i) && i / P.ENTRIES !in s.tables
    ensures !Stuck(s)
  {
    hide Tiles, NoFit, Grown;
    AtTable(s, i);
    assert Expansion(s, TABLE_REQUEST) / PAGE_SIZE == s.end / PAGE_SIZE + 2;
    assert (Expansion(s, TABLE_REQUEST) + Growth(TABLE_REQUEST)) / PAGE_SIZE == s.end / PAGE_SIZE + 4;
  }

  /** From there on the loop comes out: no later call back is stuck. */
  lemma {:induction false} MapEnds(s: Growing, i: nat, to: nat)
    requires Sane(s) && Ahead(s, i)
    ensures !MapAsWritten(s, i, to, 3).Deeper?
    decreases if i < to then to - i else 0
  {
    hide Sane, Ahead, Stuck, AllocAsWritten, WithTable;
    if i < to {
      if i / P.ENTRIES in s.tables {
        AheadStep(s, i);
        SaneFramed(s, s.framed + {i});
        MapEnds(s.(framed := s.framed + {i}), i + 1, to);
      } else {
        AheadNotStuck(s, i);
        TableEnds(s);
        if AllocAsWritten(s, TABLE_REQUEST, true, 3).Back? {
          AheadBehind(s, i);
          MapEnds(WithTable(AllocAsWritten(s, TABLE_REQUEST, true, 3).s, i), i + 1, to);
        }
      }
    }
  }

  lemma SaneFramed(s: Growing, framed: set<nat>)
    requires Sane(s)
    ensures Sane(s.(framed := framed))
  {
  }

  /** A call back moves the end by no more than four pages. */
  lemma TableEndMoves(s: Growing, n: nat)
    requires Sane(s) && AllocAsWritten(s, TABLE_REQUEST, true, n).Back?
    ensures var s' := AllocAsWritten(s, TABLE_REQUEST, true, n).s;
            s'.tables == s.tables && s.end <= s'.end <= s.end + 4 * PAGE_SIZE
  {
    hide Tiles, Certain, TailStart, AllocAsWritten, BestFit, NoFit, Extended;
    GrowthsEnough(s.regions, s.start, s.end, TABLE_REQUEST, true);
    var grown, at, b := TableServed(s, n, 2);
  }

  lemma AheadBehind(s: Growing, i: nat)
    requires Sane(s) && Ahead(s, i) && i / P.ENTRIES !in s.tables && AllocAsWritten(s, TABLE_REQUEST, true, 3).Back?
    ensures var s' := WithTable(AllocAsWritten(s, TABLE_REQUEST, true, 3).s, i); Sane(s') && Ahead(s', i + 1)
  {
    hide Tiles, AllocAsWritten, NextTable;
    TableEndMoves(s, 3);
    AtTable(s, i);
    AheadBehindTable(s, AllocAsWritten(s, TABLE_REQUEST, true, 3).s, i);
  }

  lemma AtTable(s: Growing, i: nat)
    requires Ahead(s, i) && i / P.ENTRIES !in s.tables
    ensures i % P.ENTRIES == 0 && s.end / PAGE_SIZE + 4 <= i
  {
  }

  /** The expansion runs into a page table that never comes. */
  ghost predicate Caught(s: Growing, newEnd: nat)
    requires Sane(s)
  {
    newEnd <= s.max && LacksTable(s, newEnd) && Stuck(s)
  }

  /** If it does not, expand comes out. */
  lemma GrowEnds(s: Growing, newEnd: nat)
    requires Sane(s) && s.end < newEnd && newEnd % PAGE_SIZE == 0 && !Caught(s, newEnd)
    ensures !GrowAsWritten(s, newEnd, 3).Deeper?
  {
    hide Sane, LacksTable, Stuck, Grown, GrowAsWritten, MapAsWritten;
    if s.max < newEnd {
      GrowOver(s, newEnd, 3);
    } else if !LacksTable(s, newEnd) {
      GrowPlain(s, newEnd, 3);
    } else {
      FirstCallEnds(s, newEnd);
      GrowDeep(s, newEnd, 3);
    }
  }

  lemma GrowDeep(s: Growing, newEnd: nat, n: nat)
    requires Sane(s) && s.end < newEnd <= s.max && newEnd % PAGE_SIZE == 0
    ensures GrowAsWritten(s, newEnd, n).Deeper? <==> MapAsWritten(s, s.end / PAGE_SIZE, newEnd / PAGE_SIZE, n).Deeper?
  {
    hide Sane, MapAsWritten, Retailed;
  }

  lemma FirstCallEnds(s: Growing, newEnd: nat)
    requires Sane(s) && s.end < newEnd && LacksTable(s, newEnd) && !Stuck(s)
    ensures !MapAsWritten(s, s.end / PAGE_SIZE, newEnd / PAGE_SIZE, 3).Deeper?
  {
    hide Sane, LacksTable, Stuck, AllocAsWritten, MapAsWritten, WithTable, CalledFor, AtCall;
    MapCalls(s, newEnd, 3);
    StuckFramed(s, AtCall(s, newEnd));
    TableEnds(AtCall(s, newEnd));
    if AllocAsWritten(AtCall(s, newEnd), TABLE_REQUEST, true, 3).Back? {
      FirstAhead(s, newEnd);
      MapEnds(WithTable(AllocAsWritten(AtCall(s, newEnd), TABLE_REQUEST, true, 3).s, CalledFor(s, newEnd)),
        CalledFor(s, newEnd) + 1, newEnd / PAGE_SIZE);
    }
  }

  lemma StuckFramed(s: Growing, s': Growing)
    requires Sane(s) && Sane(s') && s' == s.(framed := s'.framed)
    ensures Stuck(s') <==> Stuck(s)
  {
    hide Tiles, NoFit, Retailed, Growth;
  }

  /** The last page in front of the end has a table, so the first missing table is missing from its first page on. */
  lemma FirstAhead(s: Growing, newEnd: nat)
    requires Sane(s) && s.end < newEnd && LacksTable(s, newEnd)
    requires AllocAsWritten(AtCall(s, newEnd), TABLE_REQUEST, true, 3).Back?
    ensures var m, s' := CalledFor(s, newEnd), AllocAsWritten(AtCall(s, newEnd), TABLE_REQUEST, true, 3).s;
            Sane(WithTable(s', m)) && Ahead(WithTable(s', m), m + 1)
  {
    hide Tiles, AllocAsWritten, AtCall, CalledFor, LacksTable;
    var m, s' := CalledFor(s, newEnd), AllocAsWritten(AtCall(s, newEnd), TABLE_REQUEST, true, 3).s;
    TableEndMoves(AtCall(s, newEnd), 3);
    FirstMissing(s, m);
    AheadBehindTable(s, s', m);
  }

  lemma FirstMissing(s: Growing, m: nat)
    requires Sane(s) && s.end / PAGE_SIZE <= m && m / P.ENTRIES !in s.tables
    requires forall p: nat :: s.end / PAGE_SIZE <= p < m ==> p / P.ENTRIES in s.tables
    ensures m % P.ENTRIES == 0
  {
    hide Tiles;
    if s.end / PAGE_SIZE < m { assert (m - 1) / P.ENTRIES in s.tables; }
  }

  lemma AheadBehindTable(s: Growing, s': Growing, m: nat)
    requires s.end / PAGE_SIZE <= m && m % P.ENTRIES == 0
    requires forall p: nat :: s.end / PAGE_SIZE <= p < m ==> p / P.ENTRIES in s.tables
    requires s'.tables == s.tables && s.end <= s'.end <= s.end + 4 * PAGE_SIZE
    ensures Ahead(WithTable(s', m), m + 1)
  {
    assert NextTable(m + 1) == m + P.ENTRIES;
  }

  /** The expansion to `newEnd` never comes out, however deep the calls in it are followed. */
  ghost predicate NeverEnds(s: Growing, newEnd: nat)
    requires Sane(s) && s.end < newEnd && newEnd % PAGE_SIZE == 0
  {
    forall n: nat :: GrowAsWritten(s, newEnd, n).Deeper?
  }

  /**
    The expansion never comes out exactly when it needs a page table, nothing fits one, and
    the first or the second expansion for that needs one as well. Only the first table it
    calls for can be the one that never comes.
   */
  lemma NeverEndsIff(s: Growing, newEnd: nat)
    requires Sane(s) && s.end < newEnd && newEnd % PAGE_SIZE == 0
    ensures NeverEnds(s, newEnd) <==>
      && newEnd <= s.max && LacksTable(s, newEnd) && NeedsExpansion(s)
      && var e1 := Expansion(s, TABLE_REQUEST);
         var e2 := e1 + Growth(TABLE_REQUEST);
         && e1 <= s.max
         && (LacksTable(s, e1)
             || (NoFit(Grown(s, e1).regions, TABLE_REQUEST, true) && e2 <= s.max && LacksTable(s, e2)))
  {
    hide Sane, NeedsExpansion, LacksTable, Grown, NoFit, Growth, GrowAsWritten;
    if Caught(s, newEnd) {
      forall n: nat ensures GrowAsWritten(s, newEnd, n).Deeper? {
        CaughtDeep(s, newEnd, n);
      }
    } else {
      GrowEnds(s, newEnd);
    }
  }

  lemma CaughtDeep(s: Growing, newEnd: nat, n: nat)
    requires Sane(s) && s.end < newEnd && newEnd % PAGE_SIZE == 0 && Caught(s, newEnd)
    ensures GrowAsWritten(s, newEnd, n).Deeper?
  {
    hide Sane, Stuck, LacksTable, AllocAsWritten, MapAsWritten, GrowAsWritten, AtCall, WithTable;
    GrowDeep(s, newEnd, n);
    MapCalls(s, newEnd, n);
    StuckFramed(s, AtCall(s, newEnd));
    StuckDeep(AtCall(s, newEnd), n);
  }
}
