/**
  A program that brings the heap, as initialise_paging leaves it, to the end of its first
  page table, and what becomes of the allocations there as the code is written.
 */
module TableEnd {
  import opened Words
  import opened Regions
  import opened HeapMoves
  import opened HeapRuns
  import opened HeapCallback
  import opened HeapRecursion
  import P = Paging
  import HeapPrograms

  const FIRST_HEADER: nat := 0xC008_1000
  const FIRST_END: nat := HeapPrograms.KHEAP_START + HeapPrograms.KHEAP_INITIAL_SIZE
  const BLOCK: nat := 0x1000

  /** `n` blocks of a page each, from the first header on. */
  function Filled(n: nat): (rs: seq<Region>)
    ensures |rs| == n
  {
    seq(n, i requires 0 <= i < n => Region(FIRST_HEADER + BLOCK * i, BLOCK, false))
  }

  /** Where the heap ends after `n` allocations: 127 blocks fill it as it is at boot, and each growth brings two. */
  function FilledEnd(n: nat): nat {
    if n <= 127 then FIRST_END else FIRST_END + (n - 126) / 2 * (2 * PAGE_SIZE)
  }

  function Room(n: nat): int { FilledEnd(n) - (FIRST_HEADER + BLOCK * n) }

  function FilledMap(n: nat): seq<Region> {
    Filled(n) + (if Room(n) > 0 then [Region(FIRST_HEADER + BLOCK * n, Room(n), true)] else [])
  }

  lemma RoomLeft(n: nat)
    ensures Room(n) == if n <= 127 then BLOCK * (127 - n) else if n % 2 == 0 then BLOCK else 0
    ensures FilledEnd(n + 1) == if Room(n) > 0 then FilledEnd(n) else FilledEnd(n) + 2 * PAGE_SIZE
    ensures Growth(BLOCK) == 2 * PAGE_SIZE
  {
  }

  /** The map with a last hole of `room` bytes behind `n` blocks. */
  lemma FillCarve(n: nat, room: nat, at: nat)
    requires BLOCK <= room && room % BLOCK == 0
    requires BestFit(Filled(n) + [Region(FIRST_HEADER + BLOCK * n, room, true)], at, BLOCK, false)
    ensures var now := Filled(n) + [Region(FIRST_HEADER + BLOCK * n, room, true)];
            Carved(now, at, BlockIn(now[at], BLOCK, false))
            == Filled(n + 1) + (if room > BLOCK then [Region(FIRST_HEADER + BLOCK * (n + 1), room - BLOCK, true)] else [])
  {
    var h := Region(FIRST_HEADER + BLOCK * n, room, true);
    var now := Filled(n) + [h];
    assert now[at].hole;
    assert at == n && now[at] == h;
    var b := BlockIn(h, BLOCK, false);
    assert b == Region(h.addr, BLOCK, false);
    CarvedIs(now, n, 0, b);
    assert Filled(n + 1) == Filled(n) + [b];
    assert now[..n] == Filled(n) && now[n + 1..] == [];
  }

  lemma FillGrown(n: nat, end: nat)
    requires end == FIRST_HEADER + BLOCK * n
    ensures TailNumber(Filled(n)) == n && TailStart(Filled(n), end) == end
    ensures Retailed(Filled(n), end, end + 2 * PAGE_SIZE) == Filled(n) + [Region(end, 2 * PAGE_SIZE, true)]
  {
  }

  /** One more allocation of 4076 bytes leads from each of these maps to the next. */
  lemma FillStep(n: nat, v: View, v': View, b: Region)
    requires v.regions == FilledMap(n) && v.end == FilledEnd(n) && ServedBy(v, v', b, BLOCK, false)
    ensures v'.regions == FilledMap(n + 1) && v'.end == FilledEnd(n + 1)
  {
    hide Filled, FilledMap, Served, Room, FilledEnd;
    var grown, at :| grown <= 1 && Served(v.regions, v.end, v'.regions, v'.end, BLOCK, false, grown, at, b);
    if Room(n) > 0 {
      FillRoom(n, v'.regions, v'.end, grown, at, b);
    } else {
      FillGrowth(n, v'.regions, v'.end, grown, at, b);
    }
  }

  /** Room in the last hole is used. */
  lemma FillRoom(n: nat, rs': seq<Region>, hi': nat, grown: nat, at: nat, b: Region)
    requires Room(n) > 0 && Served(FilledMap(n), FilledEnd(n), rs', hi', BLOCK, false, grown, at, b)
    ensures rs' == FilledMap(n + 1) && hi' == FilledEnd(n + 1)
  {
    hide Filled, Carved, BestFit, Retailed, BlockIn, FilledEnd;
    RoomLeft(n);
    RoomLeft(n + 1);
    assert FilledMap(n)[n] == Region(FIRST_HEADER + BLOCK * n, Room(n), true) && Fits(FilledMap(n)[n], BLOCK, false);
    FillCarve(n, Room(n), at);
  }

  /** Without room, the heap grows by two pages. */
  lemma FillGrowth(n: nat, rs': seq<Region>, hi': nat, grown: nat, at: nat, b: Region)
    requires Room(n) <= 0 && grown <= 1 && Served(FilledMap(n), FilledEnd(n), rs', hi', BLOCK, false, grown, at, b)
    ensures rs' == FilledMap(n + 1) && hi' == FilledEnd(n + 1)
  {
    hide Filled, Carved, BestFit, Retailed, BlockIn, FilledEnd;
    RoomLeft(n);
    RoomLeft(n + 1);
    assert FilledMap(n) == Filled(n) && FilledEnd(n) == FIRST_HEADER + BLOCK * n;
    FillGrown(n, FilledEnd(n));
    NoHole(n, at);
    FillCarve(n, 2 * PAGE_SIZE, at);
  }

  /** Nothing fits where every region is a block. */
  lemma NoHole(n: nat, at: nat)
    ensures !BestFit(Filled(n), at, BLOCK, false) && NoFit(Filled(n), BLOCK, false) && NoFit(Filled(n), TABLE_REQUEST, true)
  {
  }

  /** Whatever run starts from the heap at boot and serves `n` allocations of 4076 bytes ends in the `n`-th map. */
  lemma {:induction false} FillRun(vs: seq<View>, es: seq<Event>, n: nat)
    requires Run(vs, es) && n <= |es| && vs[0].end == FIRST_END
    requires vs[0].regions == [Region(FIRST_HEADER, FIRST_END - FIRST_HEADER, true)]
    requires forall i :: 0 <= i < n ==> es[i].Allocate? && es[i].newSize == BLOCK && !es[i].pageAlign
    ensures |vs| == |es| + 1 && vs[n].regions == FilledMap(n) && vs[n].end == FilledEnd(n)
  {
    hide Sound, ServedBy, FilledEnd, Filled;
    RunLength(vs, es);
    if n == 0 {
      FillStart();
    } else {
      FillRun(vs, es, n - 1);
      assert Step(vs[n - 1], vs[n], es[n - 1]);
      FillStep(n - 1, vs[n - 1], vs[n], es[n - 1].b);
    }
  }

  lemma FillStart()
    ensures FilledMap(0) == [Region(FIRST_HEADER, FIRST_END - FIRST_HEADER, true)] && FilledEnd(0) == FIRST_END
  {
  }

  /** The heap after `n` such allocations, with the page tables that initialise_paging made. */
  function AtTableEnd(n: nat, framed: set<nat>): Growing {
    Growing(FilledMap(n), FIRST_HEADER, FilledEnd(n), HeapPrograms.KHEAP_MAX, {0, FIRST_HEADER / PAGE_SIZE / P.ENTRIES}, framed)
  }

  /** On the way there no growth needs a table, so that the code makes the same steps. */
  lemma NoCallBackBefore(n: nat, framed: set<nat>)
    requires n < 895
    ensures FilledEnd(n) <= FilledEnd(n + 1) <= AtTableEnd(n, framed).max && !LacksTable(AtTableEnd(n, framed), FilledEnd(n + 1))
  {
    hide Filled, FilledMap;
    RoomLeft(n);
    assert FIRST_END <= FilledEnd(n) <= FilledEnd(n + 1) <= 0xC040_0000;
  }

  /** Where the blocks fill the heap, the map is as the code keeps it. */
  lemma FilledSane(n: nat, framed: set<nat>)
    requires 127 <= n <= 895 && Room(n) == 0
    ensures Sane(AtTableEnd(n, framed)) && FilledMap(n) == Filled(n) && FilledEnd(n) == FIRST_HEADER + BLOCK * n
    ensures NoFit(FilledMap(n), BLOCK, false) && NoFit(FilledMap(n), TABLE_REQUEST, true)
  {
    hide FilledMap, FilledEnd;
    FilledUp(n);
    FilledTiles(n);
    NoHole(n, 0);
    assert 0xC010_0000 <= FIRST_HEADER + BLOCK * n <= 0xC040_0000;
  }

  lemma FilledUp(n: nat)
    requires Room(n) == 0
    ensures FilledMap(n) == Filled(n) && FilledEnd(n) == FIRST_HEADER + BLOCK * n
  {
    hide Filled, FilledEnd;
  }

  lemma FilledTiles(n: nat)
    ensures Tiles(Filled(n), FIRST_HEADER, FIRST_HEADER + BLOCK * n)
  {
  }

  /** The 896th allocation of 4076 bytes never returns: calls of alloc nest without end. */
  lemma NeverReturns(framed: set<nat>)
    ensures var s := AtTableEnd(895, framed);
            Sane(s) && s.end == 0xC040_0000 && NeverAnswered(s, BLOCK, false)
  {
    RoomLeft(895);
    FilledSane(895, framed);
    hide Filled, FilledMap, Sane, NeverAnswered, NeverEnds, NoFit, Grown, GrowAsWritten, FilledEnd;
    var s := AtTableEnd(895, framed);
    var p := 0xC_0400;
    assert s.end / PAGE_SIZE <= p < Expansion(s, BLOCK) / PAGE_SIZE && p / P.ENTRIES !in s.tables;
    assert s.end / PAGE_SIZE <= p < Expansion(s, TABLE_REQUEST) / PAGE_SIZE;
    NeverEndsIff(s, Expansion(s, BLOCK));
    PlainCaught(s, BLOCK);
  }

  /**
    Two allocations earlier, a request of 0x2000 bytes never returns either, though the first
    expansion for its page table comes through: the alignment leaves too little of it, and
    the second expansion meets the missing table.
   */
  lemma NeverReturnsOnRetry(framed: set<nat>)
    ensures var s := AtTableEnd(893, framed);
            && Sane(s) && s.end == 0xC03F_E000 && NeverAnswered(s, 0x2000 + TAGS, false)
            && GrowAsWritten(s, Expansion(s, TABLE_REQUEST), 0) == Back(Grown(s, 0xC040_0000))
  {
    RoomLeft(893);
    FilledSane(893, framed);
    NoHoleEither(893);
    hide *;
    var s := AtTableEnd(893, framed);
    RetryCaught(s);
    PlainCaught(s, 0x2000 + TAGS);
    GrowPlain(s, 0xC040_0000, 0);
  }

  /** The second expansion for the page table meets the missing table that the request itself met. */
  lemma RetryCaught(s: Growing)
    requires Sane(s) && s.regions == Filled(893) && s.end == 0xC03F_E000 && s.max == HeapPrograms.KHEAP_MAX
    requires s.tables == {0, FIRST_HEADER / PAGE_SIZE / P.ENTRIES} && NoFit(s.regions, TABLE_REQUEST, true)
    ensures Expansion(s, TABLE_REQUEST) == 0xC040_0000 <= s.max && !LacksTable(s, 0xC040_0000)
    ensures NeverEnds(s, Expansion(s, 0x2000 + TAGS))
  {
    hide Filled, Sane, Tiles, NeverEnds, NoFit, Retailed, TailStart, GrowAsWritten, Growth, P.Range;
    RetryTooSmall(s.regions);
    RetrySizes();
    var p := 0xC_0400;
    assert s.end / PAGE_SIZE <= p < Expansion(s, 0x2000 + TAGS) / PAGE_SIZE && p / P.ENTRIES !in s.tables;
    assert s.end / PAGE_SIZE <= p < (Expansion(s, TABLE_REQUEST) + Growth(TABLE_REQUEST)) / PAGE_SIZE;
    NeverEndsIff(s, Expansion(s, 0x2000 + TAGS));
  }

  lemma RetrySizes()
    ensures Growth(TABLE_REQUEST) == 0x2000 && Growth(0x2000 + TAGS) == 0x3000
  {
  }

  lemma NoHoleEither(n: nat)
    ensures NoFit(Filled(n), 0x2000 + TAGS, false)
  {
  }

  lemma RetryTooSmall(rs: seq<Region>)
    requires rs == Filled(893)
    ensures TailStart(rs, 0xC03F_E000) == 0xC03F_E000
    ensures NoFit(Retailed(rs, 0xC03F_E000, 0xC040_0000), TABLE_REQUEST, true)
  {
    FillGrown(893, 0xC03F_E000);
  }
}
