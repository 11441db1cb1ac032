/**
  alloc as written, with every call in it: when a request is never answered, and what the
  calls that do return leave behind.
 */
module HeapRecursion {
  import opened Words
  import opened Regions
  import opened HeapState
  import opened HeapMoves
  import opened HeapCallback
  import P = Paging

  // ----- Requests that are never answered

  /** What comes out at some depth comes out the same at any greater one. */
  lemma {:induction false} AllocDeeper(s: Growing, newSize: nat, pageAlign: bool, n: nat)
    requires Sane(s) && TAGS <= newSize && !AllocAsWritten(s, newSize, pageAlign, n).Deeper?
    ensures AllocAsWritten(s, newSize, pageAlign, n + 1) == AllocAsWritten(s, newSize, pageAlign, n)
    decreases n, 0, 0
  {
    hide Sane, NoFit, Expansion, GrowAsWritten;
    if NoFit(s.regions, newSize, pageAlign) {
      var e := Expansion(s, newSize);
      SaneWhole(s);
      GrowDeeper(s, e, n - 1);
      var r := GrowAsWritten(s, e, n - 1);
      if r.Back? { AllocDeeper(r.s, newSize, pageAlign, n - 1); }
    }
  }

  lemma SaneWhole(s: Growing)
    requires Sane(s)
    ensures s.end % PAGE_SIZE == 0 && Tiles(s.regions, s.start, s.end)
  {
  }

  lemma {:induction false} GrowDeeper(s: Growing, newEnd: nat, n: nat)
    requires Sane(s) && s.end < newEnd && newEnd % PAGE_SIZE == 0 && !GrowAsWritten(s, newEnd, n).Deeper?
    ensures GrowAsWritten(s, newEnd, n + 1) == GrowAsWritten(s, newEnd, n)
    decreases n, 2, 0
  {
    hide Sane, MapAsWritten, Retailed;
    if newEnd <= s.max { MapDeeper(s, s.end / PAGE_SIZE, newEnd / PAGE_SIZE, n); }
  }

  lemma {:induction false} MapDeeper(s: Growing, i: nat, to: nat, n: nat)
    requires Sane(s) && !MapAsWritten(s, i, to, n).Deeper?
    ensures MapAsWritten(s, i, to, n + 1) == MapAsWritten(s, i, to, n)
    decreases n, 1, if i < to then to - i else 0
  {
    hide Sane, AllocAsWritten, WithTable;
    if i < to {
      if i / P.ENTRIES in s.tables {
        SaneFramed(s, s.framed + {i});
        MapDeeper(s.(framed := s.framed + {i}), i + 1, to, n);
      } else {
        AllocDeeper(s, TABLE_REQUEST, true, n);
        var r := AllocAsWritten(s, TABLE_REQUEST, true, n);
        if r.Back? {
          SaneWithTable(r.s, i);
          MapDeeper(WithTable(r.s, i), i + 1, to, n);
        }
      }
    }
  }

  lemma SaneWithTable(s: Growing, i: nat)
    requires Sane(s)
    ensures Sane(WithTable(s, i))
  {
  }

  lemma {:induction false} GrowSettles(s: Growing, newEnd: nat, n: nat, k: nat)
    requires Sane(s) && s.end < newEnd && newEnd % PAGE_SIZE == 0 && n <= k && !GrowAsWritten(s, newEnd, n).Deeper?
    ensures GrowAsWritten(s, newEnd, k) == GrowAsWritten(s, newEnd, n)
  {
    hide Sane, GrowAsWritten;
    if n < k {
      GrowSettles(s, newEnd, n, k - 1);
      GrowDeeper(s, newEnd, k - 1);
    }
  }

  /** The request is never answered, however deep the calls are followed. */
  ghost predicate NeverAnswered(s: Growing, newSize: nat, pageAlign: bool)
    requires Sane(s) && TAGS <= newSize
  {
    forall n: nat :: AllocAsWritten(s, newSize, pageAlign, n).Deeper?
  }

  /** On some of its expansions, one after another, the request is caught. */
  ghost predicate CaughtLater(s: Growing, newSize: nat, pageAlign: bool)
    requires Sane(s) && TAGS <= newSize
    decreases if s.end < s.max then s.max - s.end else 0
  {
    SaneWhole(s);
    var e := Expansion(s, newSize);
    && NoFit(s.regions, newSize, pageAlign)
    && (Caught(s, e) || (var r := GrowAsWritten(s, e, 3); e <= s.max && r.Back? && CaughtLater(r.s, newSize, pageAlign)))
  }

  /** The recursion of alloc, through its last line and through expand, never ends exactly then. */
  lemma {:induction false} NeverAnsweredIff(s: Growing, newSize: nat, pageAlign: bool)
    requires Sane(s) && TAGS <= newSize
    ensures NeverAnswered(s, newSize, pageAlign) <==> CaughtLater(s, newSize, pageAlign)
  {
    hide Sane, AllocAsWritten, CaughtLater;
    if CaughtLater(s, newSize, pageAlign) {
      forall n: nat ensures AllocAsWritten(s, newSize, pageAlign, n).Deeper? {
        CaughtStays(s, newSize, pageAlign, n);
      }
    } else {
      var n := Answered(s, newSize, pageAlign);
    }
  }

  lemma {:induction false} CaughtStays(s: Growing, newSize: nat, pageAlign: bool, n: nat)
    requires Sane(s) && TAGS <= newSize && CaughtLater(s, newSize, pageAlign)
    ensures AllocAsWritten(s, newSize, pageAlign, n).Deeper?
    decreases n
  {
    hide Sane, NoFit, Expansion, GrowAsWritten, Caught;
    SaneWhole(s);
    var e := Expansion(s, newSize);
    if n > 0 {
      if Caught(s, e) {
        CaughtDeep(s, e, n - 1);
      } else {
        GrowSame(s, e, n - 1);
        CaughtStays(GrowAsWritten(s, e, 3).s, newSize, pageAlign, n - 1);
      }
    }
  }

  /** An expansion that comes out does so at depth 3. */
  lemma GrowSame(s: Growing, newEnd: nat, n: nat)
    requires Sane(s) && s.end < newEnd && newEnd % PAGE_SIZE == 0 && !GrowAsWritten(s, newEnd, 3).Deeper?
    ensures GrowAsWritten(s, newEnd, n).Deeper? || GrowAsWritten(s, newEnd, n) == GrowAsWritten(s, newEnd, 3)
    ensures 3 <= n ==> GrowAsWritten(s, newEnd, n) == GrowAsWritten(s, newEnd, 3)
  {
    hide Sane, GrowAsWritten;
    if 3 <= n {
      GrowSettles(s, newEnd, 3, n);
    } else if !GrowAsWritten(s, newEnd, n).Deeper? {
      GrowSettles(s, newEnd, n, 3);
    }
  }

  lemma {:induction false} Answered(s: Growing, newSize: nat, pageAlign: bool) returns (n: nat)
    requires Sane(s) && TAGS <= newSize && !CaughtLater(s, newSize, pageAlign)
    ensures n > 3 && !AllocAsWritten(s, newSize, pageAlign, n).Deeper?
    decreases if s.end < s.max then s.max - s.end else 0
  {
    hide Sane, NoFit, Expansion, GrowAsWritten, Caught, Taken;
    SaneWhole(s);
    n := 4;
    if NoFit(s.regions, newSize, pageAlign) {
      var e := Expansion(s, newSize);
      GrowEnds(s, e);
      var r := GrowAsWritten(s, e, 3);
      if s.max < e { GrowOver(s, e, 3); }
      if r.Back? {
        n := Answered(r.s, newSize, pageAlign);
        GrowSame(s, e, n);
        n := n + 1;
      }
    }
  }

  /** A request without alignment is caught on its first expansion or not at all. */
  lemma PlainCaught(s: Growing, newSize: nat)
    requires Sane(s) && TAGS <= newSize
    ensures NeverAnswered(s, newSize, false)
            <==> NoFit(s.regions, newSize, false) && NeverEnds(s, Expansion(s, newSize))
  {
    hide Sane, NoFit, Expansion, GrowAsWritten, NeverAnswered, Caught, CaughtLater;
    SaneWhole(s);
    NeverAnsweredIff(s, newSize, false);
    NeverEndsCaught(s, Expansion(s, newSize));
    PlainCaughtOnce(s, newSize);
  }

  lemma NeverEndsCaught(s: Growing, newEnd: nat)
    requires Sane(s) && s.end < newEnd && newEnd % PAGE_SIZE == 0
    ensures NeverEnds(s, newEnd) <==> Caught(s, newEnd)
  {
    hide Sane, NeedsExpansion, LacksTable, Grown, NoFit, Growth, NeverEnds;
    NeverEndsIff(s, newEnd);
  }

  lemma PlainCaughtOnce(s: Growing, newSize: nat)
    requires Sane(s) && TAGS <= newSize && s.end % PAGE_SIZE == 0
    ensures CaughtLater(s, newSize, false) <==> NoFit(s.regions, newSize, false) && Caught(s, Expansion(s, newSize))
  {
    hide Sane, NoFit, Expansion, GrowAsWritten, Caught;
    var e := Expansion(s, newSize);
    var r := GrowAsWritten(s, e, 3);
    if r.Back? { PlainFits(s, newSize, 3); }
  }

  /** Whatever tables were taken meanwhile, a request without alignment fits once the heap has grown. */
  lemma PlainFits(s: Growing, newSize: nat, n: nat)
    requires Sane(s) && TAGS <= newSize && s.end % PAGE_SIZE == 0 && GrowAsWritten(s, Expansion(s, newSize), n).Back?
    ensures !NoFit(GrowAsWritten(s, Expansion(s, newSize), n).s.regions, newSize, false)
  {
    hide Tiles, NoFit, Growth, MapAsWritten, Certain, Retailed;
    var e := Expansion(s, newSize);
    var s' := MapAsWritten(s, s.end / PAGE_SIZE, e / PAGE_SIZE, n).s;
    GrowthsEnough(s'.regions, s'.start, s'.end, newSize, false);
    CertainNearer(s'.regions, s'.start, s'.end, newSize, false, 1);
    CertainFits(Retailed(s'.regions, s'.end, e), s'.start, e, newSize, false);
  }

  // ----- What the calls that return have done

  /** The calls leave one block for each new table, and `more` besides; no block is gone. */
  ghost predicate Paid(s: Growing, s': Growing, more: nat) {
    && Blocks(s.regions) <= Blocks(s'.regions) && s.tables <= s'.tables
    && |Blocks(s'.regions)| - |Blocks(s.regions)| == |s'.tables| - |s.tables| + more
  }

  lemma PaidThrough(s: Growing, s': Growing, s'': Growing, more: nat, more': nat)
    requires Paid(s, s', more) && Paid(s', s'', more')
    ensures Paid(s, s'', more + more')
  {
  }

  /** An allocation that returns leaves its own block and one for every table made on the way. */
  lemma {:induction false} AllocPays(s: Growing, newSize: nat, pageAlign: bool, n: nat)
    requires Sane(s) && TAGS <= newSize && AllocAsWritten(s, newSize, pageAlign, n).Back?
    ensures Paid(s, AllocAsWritten(s, newSize, pageAlign, n).s, 1)
    decreases n, 0, 0
  {
    hide Sane, Paid, NoFit, Taken, Expansion, GrowAsWritten;
    SaneWhole(s);
    if !NoFit(s.regions, newSize, pageAlign) {
      TakenPays(s, newSize, pageAlign);
    } else {
      var e := Expansion(s, newSize);
      GrowPays(s, e, n - 1);
      var s' := GrowAsWritten(s, e, n - 1).s;
      AllocPays(s', newSize, pageAlign, n - 1);
      PaidThrough(s, s', AllocAsWritten(s', newSize, pageAlign, n - 1).s, 0, 1);
    }
  }

  lemma TakenPays(s: Growing, newSize: nat, pageAlign: bool)
    requires Sane(s) && TAGS <= newSize && !NoFit(s.regions, newSize, pageAlign)
    ensures Paid(s, Taken(s, newSize, pageAlign), 1)
  {
    hide Tiles, NoFit, BestFit, BlockIn, Carved, Blocks;
    CarveAdds(s.regions, s.start, s.end, Best(s.regions, newSize, pageAlign), newSize, pageAlign);
  }

  lemma {:induction false} GrowPays(s: Growing, newEnd: nat, n: nat)
    requires Sane(s) && s.end < newEnd && newEnd % PAGE_SIZE == 0 && GrowAsWritten(s, newEnd, n).Back?
    ensures Paid(s, GrowAsWritten(s, newEnd, n).s, 0)
    decreases n, 2, 0
  {
    hide Tiles, Blocks, MapAsWritten, Retailed;
    MapPays(s, s.end / PAGE_SIZE, newEnd / PAGE_SIZE, n);
    var s' := MapAsWritten(s, s.end / PAGE_SIZE, newEnd / PAGE_SIZE, n).s;
    RetailedTiles(s'.regions, s'.start, s'.end, newEnd);
  }

  /** The loop takes a block for each table it makes, as many as it finds missing. */
  lemma {:induction false} MapPays(s: Growing, i: nat, to: nat, n: nat)
    requires Sane(s) && MapAsWritten(s, i, to, n).Back?
    ensures var s' := MapAsWritten(s, i, to, n).s;
            Paid(s, s', 0) && forall t: nat :: t in s'.tables <==> t in s.tables || exists p: nat :: i <= p < to && p / P.ENTRIES == t
    decreases n, 1, if i < to then to - i else 0
  {
    hide Sane, AllocAsWritten, Blocks;
    if i < to {
      if i / P.ENTRIES in s.tables {
        SaneFramed(s, s.framed + {i});
        MapPays(s.(framed := s.framed + {i}), i + 1, to, n);
        TablesOnwards(s.tables, s.tables, i, to);
      } else {
        AllocPays(s, TABLE_REQUEST, true, n);
        TableEndMoves(s, n);
        var s1 := AllocAsWritten(s, TABLE_REQUEST, true, n).s;
        SaneWithTable(s1, i);
        MapPays(WithTable(s1, i), i + 1, to, n);
        TablesOnwards(s.tables, s.tables + {i / P.ENTRIES}, i, to);
      }
    }
  }

  lemma TablesOnwards(tables: set<nat>, tables1: set<nat>, i: nat, to: nat)
    requires i < to && tables1 == tables + {i / P.ENTRIES}
    ensures forall t: nat :: (t in tables1 || exists p: nat :: i + 1 <= p < to && p / P.ENTRIES == t)
                             <==> (t in tables || exists p: nat :: i <= p < to && p / P.ENTRIES == t)
  {
  }

  /** Where the end moved meanwhile, a table's block lies partly in the bytes that expand had still to add. */
  lemma {:induction false} MovedOverlaps(s: Growing, i: nat, to: nat, n: nat) returns (b: Region)
    requires Sane(s) && MapAsWritten(s, i, to, n).Back? && MapAsWritten(s, i, to, n).s.end != s.end
    ensures b in Blocks(MapAsWritten(s, i, to, n).s.regions) && s.end < b.End() && b.addr < s.end + PAGE_SIZE
    decreases if i < to then to - i else 0
  {
    hide Sane, AllocAsWritten, Blocks;
    if i / P.ENTRIES in s.tables {
      SaneFramed(s, s.framed + {i});
      b := MovedOverlaps(s.(framed := s.framed + {i}), i + 1, to, n);
    } else {
      var s1 := AllocAsWritten(s, TABLE_REQUEST, true, n).s;
      SaneWithTable(s1, i);
      if s1.end == s.end {
        b := MovedOverlaps(WithTable(s1, i), i + 1, to, n);
      } else {
        b := TableOverlaps(s, n);
        MapPays(WithTable(s1, i), i + 1, to, n);
      }
    }
  }

  lemma TableOverlaps(s: Growing, n: nat) returns (b: Region)
    requires Sane(s) && AllocAsWritten(s, TABLE_REQUEST, true, n).Back? && AllocAsWritten(s, TABLE_REQUEST, true, n).s.end != s.end
    ensures b in Blocks(AllocAsWritten(s, TABLE_REQUEST, true, n).s.regions) && s.end < b.End() && b.addr < s.end + PAGE_SIZE
  {
    hide Tiles, Certain, AllocAsWritten, BestFit, NoFit, Retailed, BlockIn, Carved;
    GrowthsEnough(s.regions, s.start, s.end, TABLE_REQUEST, true);
    var grown, at, c := TableServed(s, n, 2);
    var s' := AllocAsWritten(s, TABLE_REQUEST, true, n).s;
    TableBehindOldEnd(s.regions, s.start, s.end, s'.end, at);
    RetailedTiles(s.regions, s.start, s.end, s'.end);
    CarveAdds(Retailed(s.regions, s.end, s'.end), s.start, s'.end, at, TABLE_REQUEST, true);
    b := c;
  }

  /** An expansion ends in overlapping blocks only like that. */
  lemma OverlapsATable(s: Growing, newEnd: nat, n: nat) returns (b: Region)
    requires Sane(s) && s.end < newEnd && newEnd % PAGE_SIZE == 0 && GrowAsWritten(s, newEnd, n).Overlaps?
    ensures b in Blocks(GrowAsWritten(s, newEnd, n).s.regions) && s.end < b.End() && b.addr < newEnd
  {
    hide Tiles, Blocks, MapAsWritten, Retailed;
    MapNoOverlap(s, s.end / PAGE_SIZE, newEnd / PAGE_SIZE, n);
    b := MovedOverlaps(s, s.end / PAGE_SIZE, newEnd / PAGE_SIZE, n);
  }

  lemma {:induction false} MapNoOverlap(s: Growing, i: nat, to: nat, n: nat)
    requires Sane(s)
    ensures !MapAsWritten(s, i, to, n).Overlaps?
    decreases if i < to then to - i else 0
  {
    hide Sane, AllocAsWritten;
    if i < to {
      if i / P.ENTRIES in s.tables {
        SaneFramed(s, s.framed + {i});
        MapNoOverlap(s.(framed := s.framed + {i}), i + 1, to, n);
      } else {
        TableNoOverlap(s, n);
        var r := AllocAsWritten(s, TABLE_REQUEST, true, n);
        if r.Back? {
          SaneWithTable(r.s, i);
          MapNoOverlap(WithTable(r.s, i), i + 1, to, n);
        }
      }
    }
  }

  /** The expansions for a table make no call back that returns, so the end does not move under them. */
  lemma {:induction false} TableNoOverlap(s: Growing, n: nat)
    requires Sane(s)
    ensures !AllocAsWritten(s, TABLE_REQUEST, true, n).Overlaps?
    decreases n
  {
    hide Tiles, NoFit, Growth, Taken, Grown, GrowAsWritten;
    var e := Expansion(s, TABLE_REQUEST);
    if n > 0 && NeedsExpansion(s) {
      if s.max < e {
        GrowOver(s, e, n - 1);
      } else if LacksTable(s, e) {
        StuckAtOnce(s, n);
      } else {
        GrowPlain(s, e, n - 1);
        TableNoOverlap(Grown(s, e), n - 1);
      }
    }
  }
}
