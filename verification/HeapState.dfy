/**
  The state of the kernel heap as values: the hole index against the region map,
  and how both move when regions are carved, merged, grown and trimmed.
 */
module HeapState {
  import opened Words
  import opened Regions
  import opened OrderedArrays

  // ----- The index of holes

  /** `header->size` as the index's comparison reads it. */
  function SizeAt(m: seq<byte>, a: nat): nat {
    if a + HEADER <= |m| then Get32(m, a + 8) else 0
  }

  /** header_t_less_than, reading the headers as they are in `m`. */
  function Smaller(m: seq<byte>): (nat, nat) -> bool {
    (a: nat, b: nat) => SizeAt(m, a) < SizeAt(m, b)
  }

  /** The holes whose addresses are not in `pending`. */
  ghost function Holes(rs: seq<Region>, pending: set<nat>): set<Region> {
    set r | r in rs && r.hole && r.addr !in pending
  }

  ghost function HoleAddrs(rs: seq<Region>, pending: set<nat>): set<nat> {
    set r | r in Holes(rs, pending) :: r.addr
  }

  /** The index holds the addresses of the holes not in `pending`, each once, by growing size. */
  ghost predicate Indexed(m: seq<byte>, rs: seq<Region>, index: seq<nat>, pending: set<nat>) {
    multiset(index) == multiset(HoleAddrs(rs, pending)) && Sorted(index, Smaller(m))
  }

  lemma SmallerOrders(m: seq<byte>)
    ensures StrictWeakOrder(Smaller(m))
  {
  }

  lemma IndexInsert(m: seq<byte>, rs: seq<Region>, index: seq<nat>, pending: set<nat>, hole: Region)
    requires Indexed(m, rs, index, pending) && hole.addr in pending && hole.hole && hole in rs
    requires forall r :: r in rs && r.addr == hole.addr ==> r == hole
    ensures Indexed(m, rs, Inserted(index, hole.addr, Smaller(m)), pending - {hole.addr})
  {
    SmallerOrders(m);
    InsertedSorted(index, hole.addr, Smaller(m));
    assert Holes(rs, pending - {hole.addr}) == Holes(rs, pending) + {hole};
    assert HoleAddrs(rs, pending - {hole.addr}) == HoleAddrs(rs, pending) + {hole.addr};
  }

  lemma IndexRemove(m: seq<byte>, rs: seq<Region>, index: seq<nat>, pending: set<nat>, k: nat)
    requires Indexed(m, rs, index, pending) && k < |index|
    ensures index[k] in HoleAddrs(rs, pending)
    ensures Indexed(m, rs, Removed(index, k), pending + {index[k]})
  {
    var a := index[k];
    assert a in multiset(index);
    RemovedSorted(index, k, Smaller(m));
    assert HoleAddrs(rs, pending + {a}) == HoleAddrs(rs, pending) - {a};
  }

  /** An index stays good for another map with the same settled holes. */
  lemma IndexMoves(m: seq<byte>, rs: seq<Region>, lo: nat, hi: nat, pending: set<nat>,
                   m': seq<byte>, rs': seq<Region>, hi': nat, pending': set<nat>, index: seq<nat>)
    requires Indexed(m, rs, index, pending)
    requires Laid(m, rs, lo, hi) && Laid(m', rs', lo, hi')
    requires Holes(rs, pending) == Holes(rs', pending')
    ensures Indexed(m', rs', index, pending')
  {
    forall k | 0 <= k < |index| ensures SizeAt(m, index[k]) == SizeAt(m', index[k]) {
      assert index[k] in multiset(index);
      var r :| r in Holes(rs, pending) && r.addr == index[k];
      assert r in Holes(rs', pending');
      assert Tagged(m, r) && Tagged(m', r);
    }
    forall i, j | 0 <= i < j < |index| ensures !Smaller(m')(index[j], index[i]) {
      assert !Smaller(m)(index[j], index[i]);
    }
  }

  /** Replacing pieces i..j changes the settled holes only there. */
  lemma HolesReplace(rs: seq<Region>, lo: nat, hi: nat, i: nat, j: nat, mid: seq<Region>, pending: set<nat>, pending': set<nat>)
    requires Tiles(rs, lo, hi) && i <= j <= |rs|
    requires forall r :: r in rs[i..j] && r.hole ==> r.addr in pending
    requires forall r :: r in mid && r.hole ==> r.addr in pending'
    requires forall a :: a in pending || a in pending' ==> CutAt(rs, hi, i) <= a
    requires j < |rs| ==> forall a :: a in pending || a in pending' ==> a < rs[j].addr
    ensures Holes(Replace(rs, i, j, mid), pending') == Holes(rs, pending)
  {
    hide Tiles, Replace;
    ReplaceMembers(rs, i, j, mid);
    InFront(rs, lo, hi, i);
    Behind(rs, lo, hi, j);
  }

  lemma ReplaceMembers(rs: seq<Region>, i: nat, j: nat, mid: seq<Region>)
    requires i <= j <= |rs|
    ensures forall r :: r in rs <==> r in rs[..i] || r in rs[i..j] || r in rs[j..]
    ensures forall r :: r in Replace(rs, i, j, mid) <==> r in rs[..i] || r in mid || r in rs[j..]
  {
    assert rs == rs[..i] + rs[i..j] + rs[j..];
  }

  lemma InFront(rs: seq<Region>, lo: nat, hi: nat, i: nat)
    requires Tiles(rs, lo, hi) && i <= |rs|
    ensures forall r :: r in rs[..i] ==> lo <= r.addr < r.End() <= CutAt(rs, hi, i)
  {
    forall r | r in rs[..i] ensures lo <= r.addr < r.End() <= CutAt(rs, hi, i) {
      var k :| 0 <= k < i && rs[..i][k] == r;
      assert rs[k] == r;
      Inside(rs, lo, hi, k);
      if i < |rs| { assert rs[k].End() <= rs[i].addr; }
    }
  }

  lemma Behind(rs: seq<Region>, lo: nat, hi: nat, j: nat)
    requires Tiles(rs, lo, hi) && j <= |rs|
    ensures forall r :: r in rs[j..] ==> CutAt(rs, hi, j) <= r.addr && r.End() <= hi
  {
    forall r | r in rs[j..] ensures CutAt(rs, hi, j) <= r.addr && r.End() <= hi {
      var k :| 0 <= k < |rs| - j && rs[j..][k] == r;
      assert rs[j + k] == r;
      Inside(rs, lo, hi, j + k);
      if k > 0 { assert rs[j].End() <= rs[j + k].addr; }
    }
  }

  /** Blocks after pieces i..j are replaced. */
  lemma BlocksReplace(rs: seq<Region>, i: nat, j: nat, mid: seq<Region>)
    requires i <= j <= |rs|
    ensures Blocks(Replace(rs, i, j, mid)) == Blocks(rs[..i]) + Blocks(mid) + Blocks(rs[j..])
    ensures Blocks(rs) == Blocks(rs[..i]) + Blocks(rs[i..j]) + Blocks(rs[j..])
  {
    BlocksConcat(rs[..i], mid);
    BlocksConcat(rs[..i] + mid, rs[j..]);
    BlocksConcat(rs[..i], rs[i..j]);
    BlocksConcat(rs[..i] + rs[i..j], rs[j..]);
    assert rs == rs[..i] + rs[i..j] + rs[j..];
  }

  lemma BlocksConcat(a: seq<Region>, b: seq<Region>)
    ensures Blocks(a + b) == Blocks(a) + Blocks(b)
  {
    var c := a + b;
    forall r | r in Blocks(a) + Blocks(b) ensures r in Blocks(c) {
      if r in Blocks(a) {
        var i :| 0 <= i < |a| && !a[i].hole && a[i] == r;
        assert c[i] == r;
      } else {
        var i :| 0 <= i < |b| && !b[i].hole && b[i] == r;
        assert c[|a| + i] == r;
      }
    }
  }

  // ----- Bytes that live blocks keep

  /** The bytes of the regions in `bs`, tags and payload, are the same. */
  ghost predicate BytesKept(m: seq<byte>, m': seq<byte>, bs: set<Region>) {
    |m| == |m'| && forall b :: b in bs ==> SameIn(m, m', b.addr, b.End())
  }

  lemma KeptSelf(m: seq<byte>, bs: set<Region>)
    ensures BytesKept(m, m, bs)
  {
  }

  lemma KeptThrough(m: seq<byte>, m': seq<byte>, m'': seq<byte>, bs: set<Region>)
    requires BytesKept(m, m', bs) && BytesKept(m', m'', bs)
    ensures BytesKept(m, m'', bs)
  {
    forall b | b in bs ensures SameIn(m, m'', b.addr, b.End()) {
      assert SameIn(m, m', b.addr, b.End()) && SameIn(m', m'', b.addr, b.End());
    }
  }

  /** A change inside pieces i..j leaves the bytes of all other blocks alone. */
  lemma OthersKept(m: seq<byte>, m': seq<byte>, rs: seq<Region>, lo: nat, hi: nat, i: nat, j: nat)
    requires Tiles(rs, lo, hi) && i <= j <= |rs|
    requires |m| == |m'| && forall x :: 0 <= x < |m| && lo <= x < hi && !(CutAt(rs, hi, i) <= x < CutAt(rs, hi, j)) ==> m'[x] == m[x]
    ensures BytesKept(m, m', Blocks(rs[..i]) + Blocks(rs[j..]))
  {
    InFront(rs, lo, hi, i);
    Behind(rs, lo, hi, j);
    if i < |rs| { Inside(rs, lo, hi, i); }
    if j < |rs| { Inside(rs, lo, hi, j); }
    if i < j < |rs| { assert rs[i].End() <= rs[j].addr; }
    forall b | b in Blocks(rs[..i]) + Blocks(rs[j..]) ensures SameIn(m, m', b.addr, b.End()) {
      assert b in rs[..i] || b in rs[j..];
    }
  }

  // ----- Writing several regions

  /** Each region of `rs` has room for its tags and ends inside memory. */
  ghost predicate Writable(m: seq<byte>, rs: seq<Region>) {
    |m| < TWO_TO_THE_32 && forall i :: 0 <= i < |rs| ==> TAGS <= rs[i].size && rs[i].End() <= |m|
  }

  ghost function PutRegions(m: seq<byte>, rs: seq<Region>): (m': seq<byte>)
    requires Writable(m, rs)
    ensures |m'| == |m|
  {
    if rs == [] then m else PutRegion(PutRegions(m, rs[..|rs| - 1]), rs[|rs| - 1])
  }

  /** Writing the tags of a tiling lays it out, and touches nothing outside it. */
  lemma {:induction false} PutRegionsLays(m: seq<byte>, rs: seq<Region>, lo: nat, hi: nat)
    requires Tiles(rs, lo, hi) && Writable(m, rs) && hi <= |m|
    ensures Laid(PutRegions(m, rs), rs, lo, hi)
    ensures SameOutside(m, PutRegions(m, rs), lo, hi)
    decreases |rs|
  {
    hide Laid, Tagged, Writable, PutRegion, PutRegions;
    PutSplit(m, rs);
    if rs == [] {
      LaidNone(m, lo);
    } else {
      var n := |rs| - 1;
      TilesSplit(rs, lo, hi, n);
      Inside(rs, lo, hi, n);
      PutRegionsLays(m, rs[..n], lo, rs[n].addr);
      PutLast(m, PutRegions(m, rs[..n]), rs[..n], rs[n], lo);
      assert rs == rs[..n] + [rs[n]];
    }
  }

  lemma PutSplit(m: seq<byte>, rs: seq<Region>)
    requires Writable(m, rs)
    ensures |m| < TWO_TO_THE_32 && (rs == [] ==> PutRegions(m, rs) == m)
    ensures rs != [] ==> var n := |rs| - 1;
      Writable(m, rs[..n]) && rs[n].End() <= |m| && PutRegions(m, rs) == PutRegion(PutRegions(m, rs[..n]), rs[n])
  {
  }

  lemma PutLast(m: seq<byte>, m1: seq<byte>, front: seq<Region>, last: Region, lo: nat)
    requires Laid(m1, front, lo, last.addr) && SameOutside(m, m1, lo, last.addr) && lo <= last.addr
    requires TAGS <= last.size && last.End() <= |m1| < TWO_TO_THE_32
    ensures Laid(PutRegion(m1, last), front + [last], lo, last.End())
    ensures SameOutside(m, PutRegion(m1, last), lo, last.End())
  {
    hide Laid, Tiles, Tagged, PutRegion;
    var m2 := PutRegion(m1, last);
    PutRegionTags(m1, last);
    LaidFrame(m1, m2, front, lo, last.addr);
    LaidOne(m2, last);
    LaidConcat(m2, front, [last], lo, last.addr, last.End());
  }

  // ----- Tags under single-field stores

  /** Header field stores of `free`: the region becomes a hole. */
  lemma MarkedTags(m: seq<byte>, r: Region)
    requires Tagged(m, r)
    ensures Tagged(m[r.addr + 4 := 1], r.(hole := true))
  {
  }

  /**
    Two neighbouring holes become one when the right footer points to the left
    header and the left size grows; the tags in between are left as they are.
   */
  lemma UnifiedTags(m: seq<byte>, l: Region, r: Region)
    requires Tagged(m, l) && Tagged(m, r) && l.hole && r.hole && l.End() == r.addr && |m| < TWO_TO_THE_32
    ensures Tagged(Put32(Put32(m, r.End() - 4, l.addr), l.addr + 8, l.size + r.size), Region(l.addr, l.size + r.size, true))
  {
    hide ByteOf, Get32;
    var m1 := Put32(m, r.End() - 4, l.addr);
    var m2 := Put32(m1, l.addr + 8, l.size + r.size);
    GetPut(m, r.End() - 4, l.addr);
    GetPut(m1, l.addr + 8, l.size + r.size);
    assert m2[l.addr + 4] == m[l.addr + 4];
    GetSame(m, m2, l.addr);
    GetSame(m, m2, r.End() - 8);
    GetSame(m1, m2, r.End() - 4);
  }

  lemma GetSame(m: seq<byte>, m': seq<byte>, a: nat)
    requires a + 4 <= |m| && SameIn(m, m', a, a + 4)
    ensures Get32(m', a) == Get32(m, a)
  {
  }

  /** A hole resized: new size in its header, a footer at its new end. */
  lemma ResizedTags(m: seq<byte>, h: Region, size: nat)
    requires Tagged(m, h) && h.hole && TAGS <= size && h.addr + size <= |m| < TWO_TO_THE_32
    ensures Tagged(PutFooter(Put32(m, h.addr + 8, size), h.addr + size - FOOTER, h.addr), Region(h.addr, size, true))
  {
    hide ByteOf, Get32, Put32;
    var m1, f := Put32(m, h.addr + 8, size), h.addr + size - FOOTER;
    var m2 := Put32(m1, f, HEAP_MAGIC);
    var m3 := Put32(m2, f + 4, h.addr);
    GetPut(m, h.addr + 8, size);
    GetPut(m1, f, HEAP_MAGIC);
    GetPut(m2, f + 4, h.addr);
    GetSame(m, m3, h.addr);
    GetSame(m1, m3, h.addr + 8);
    GetSame(m2, m3, f);
  }

  // ----- No two holes side by side

  /** A hole's neighbours are blocks, so any pieces without adjacent holes can take its place. */
  lemma NoAdjacentCarved(rs: seq<Region>, i: nat, mid: seq<Region>)
    requires NoAdjacentHoles(rs) && i < |rs| && rs[i].hole && NoAdjacentHoles(mid) && mid != []
    ensures NoAdjacentHoles(Replace(rs, i, i + 1, mid))
  {
    var t := Replace(rs, i, i + 1, mid);
    forall j, k | 0 <= j < k < |t| && k == j + 1 ensures !(t[j].hole && t[k].hole) {
      if k < i {
        assert t[j] == rs[j] && t[k] == rs[k];
      } else if k == i {
        assert t[j] == rs[j] && !(rs[i].hole && rs[j].hole);
      } else if k < i + |mid| {
        assert t[j] == mid[j - i] && t[k] == mid[k - i];
      } else if j < i + |mid| {
        assert t[k] == rs[i + 1] && !(rs[i].hole && rs[i + 1].hole);
      } else {
        assert t[j] == rs[j - |mid| + 1] && t[k] == rs[k - |mid| + 1];
      }
    }
  }

  /** A freed block merged with the holes beside it has no hole beside it. */
  lemma NoAdjacentMerged(rs: seq<Region>, a: nat, c: nat, i: nat, x: Region)
    requires NoAdjacentHoles(rs) && i < |rs|
    requires a == if i > 0 && rs[i - 1].hole then i - 1 else i
    requires c == if i + 1 < |rs| && rs[i + 1].hole then i + 2 else i + 1
    ensures NoAdjacentHoles(Replace(rs, a, c, [x]))
  {
    var t := Replace(rs, a, c, [x]);
    if 0 < a < i { assert !(rs[a].hole && rs[a - 1].hole); }
    if i + 1 < c < |rs| { assert !(rs[c - 1].hole && rs[c].hole); }
    forall j, k | 0 <= j < k < |t| && k == j + 1 ensures !(t[j].hole && t[k].hole) {
      if k <= a {
        assert t[j] == rs[j] && (k < a ==> t[k] == rs[k]);
      } else {
        assert t[k] == rs[k - a - 1 + c] && (j > a ==> t[j] == rs[j - a - 1 + c]);
      }
    }
  }
}
