/**
  Runs of the kernel heap: any interleaving of allocations, refusals, releases and
  stores into live payloads. The steps are what the methods of the heap promise.
 */
module HeapRuns {
  import opened Words
  import opened Regions
  import opened HeapState
  import opened HeapMoves
  import opened Bitmap

  /** A heap as a value, with the bitmap of the frames it draws on. */
  datatype View = View(start: nat, end: nat, max: nat, mem: seq<byte>, regions: seq<Region>, index: seq<nat>, frames: seq<u32>)

  datatype Event =
    | Allocate(b: Region, newSize: nat, pageAlign: bool)
    | Refuse(newSize: nat, pageAlign: bool)
    | Release(b: Region)
    | Poke(b: Region, at: nat)

  /** The state is laid out, without adjacent holes, and indexed. */
  ghost predicate Sound(v: View) {
    && Laid(v.mem, v.regions, v.start, v.end) && NoAdjacentHoles(v.regions)
    && Indexed(v.mem, v.regions, v.index, {})
  }

  /** An allocation as the heap makes it: it grows only if nothing fits, and carves the smallest hole that fits in the end. */
  ghost predicate ServedBy(v: View, v': View, b: Region, newSize: nat, pageAlign: bool) {
    exists grown, at :: grown <= (if pageAlign then 2 else 1)
      && Served(v.regions, v.end, v'.regions, v'.end, newSize, pageAlign, grown, at, b)
  }

  /** A refusal as the heap makes it: nothing fits, and growing once more would pass the maximum, or no frame is left. */
  ghost predicate RefusedFor(v: View, newSize: nat, pageAlign: bool) {
    NoFit(v.regions, newSize, pageAlign) && (v.max < v.end + Growth(newSize) || AllTaken(v.frames))
  }

  ghost predicate Step(v: View, v': View, e: Event) {
    && v'.start == v.start && v'.max == v.max && Sound(v')
    && match e
       case Allocate(b, newSize, pageAlign) =>
         && BlockAdded(v.regions, v'.regions, b) && BytesKept(v.mem, v'.mem, Blocks(v.regions))
         && ServedBy(v, v', b, newSize, pageAlign)
       case Refuse(newSize, pageAlign) =>
         && Blocks(v'.regions) == Blocks(v.regions) && BytesKept(v.mem, v'.mem, Blocks(v.regions))
         && RefusedFor(v', newSize, pageAlign)
       case Release(b) =>
         b in Blocks(v.regions) && BlockDropped(v.regions, v'.regions, b) && BytesKept(v.mem, v'.mem, Blocks(v'.regions))
       case Poke(b, at) =>
         && b in Blocks(v.regions) && b.Payload() <= at < b.End() - FOOTER
         && v'.regions == v.regions && SameOutside(v.mem, v'.mem, at, at + 1)
  }

  lemma AllocationIsAStep(v: View, v': View, b: Region, newSize: nat, pageAlign: bool, grown: nat, at: nat)
    requires v'.start == v.start && v'.max == v.max && Sound(v')
    requires BlockAdded(v.regions, v'.regions, b) && BytesKept(v.mem, v'.mem, Blocks(v.regions))
    requires Served(v.regions, v.end, v'.regions, v'.end, newSize, pageAlign, grown, at, b) && grown <= (if pageAlign then 2 else 1)
    ensures Step(v, v', Allocate(b, newSize, pageAlign))
  {
    hide Sound, BlockAdded, BytesKept, Blocks, Served;
  }

  lemma RefusalIsAStep(v: View, v': View, newSize: nat, pageAlign: bool, grown: nat)
    requires v'.start == v.start && v'.max == v.max && Sound(v')
    requires Blocks(v'.regions) == Blocks(v.regions) && BytesKept(v.mem, v'.mem, Blocks(v.regions))
    requires Refused(v.regions, v.end, v'.regions, v'.end, newSize, pageAlign, grown)
    requires v'.max < v'.end + Growth(newSize) || AllTaken(v'.frames)
    ensures Step(v, v', Refuse(newSize, pageAlign))
  {
    hide Sound, BytesKept, Blocks, NoFit, Extended, Growth, AllTaken;
  }

  lemma StepRefused(v: View, v': View, newSize: nat, pageAlign: bool)
    requires Step(v, v', Refuse(newSize, pageAlign))
    ensures RefusedFor(v', newSize, pageAlign)
  {
  }

  ghost predicate Run(vs: seq<View>, es: seq<Event>) {
    && |vs| == |es| + 1 && Sound(vs[0])
    && forall i :: 0 <= i < |es| ==> Step(vs[i], vs[i + 1], es[i])
  }

  /** `b` stays allocated from state 0 to the last one, and nobody stores into it. */
  ghost predicate LeftAlone(vs: seq<View>, es: seq<Event>, b: Region) {
    && (forall i :: 0 <= i < |vs| ==> b in Blocks(vs[i].regions))
    && (forall i :: 0 <= i < |es| && es[i].Poke? ==> es[i].b != b)
  }

  /** A block that is left alone keeps every byte through any run. */
  lemma {:induction false} PayloadSurvives(vs: seq<View>, es: seq<Event>, b: Region)
    requires Run(vs, es) && LeftAlone(vs, es, b)
    ensures vs != []
    ensures SameIn(vs[0].mem, vs[|vs| - 1].mem, b.addr, b.End())
    decreases |es|
  {
    hide Run, Step, Sound, LeftAlone, Blocks;
    RunLength(vs, es);
    if es != [] {
      var n := |es| - 1;
      RunPrefix(vs, es, n);
      LeftAlonePrefix(vs, es, b, n);
      PayloadSurvives(vs[..n + 1], es[..n], b);
      StepKeeps(vs[n], vs[n + 1], es[n], b);
      SameInThrough(vs[0].mem, vs[n].mem, vs[n + 1].mem, b.addr, b.End());
    }
  }

  lemma RunLength(vs: seq<View>, es: seq<Event>)
    requires Run(vs, es)
    ensures |vs| == |es| + 1
  {
  }

  lemma SameInThrough(m: seq<byte>, m': seq<byte>, m'': seq<byte>, lo: int, hi: int)
    requires SameIn(m, m', lo, hi) && SameIn(m', m'', lo, hi)
    ensures SameIn(m, m'', lo, hi)
  {
  }

  lemma LeftAlonePrefix(vs: seq<View>, es: seq<Event>, b: Region, n: nat)
    requires LeftAlone(vs, es, b) && n == |es| - 1 && |vs| == |es| + 1
    ensures LeftAlone(vs[..n + 1], es[..n], b)
    ensures b in Blocks(vs[n].regions) && b in Blocks(vs[n + 1].regions) && (es[n].Poke? ==> es[n].b != b)
  {
  }

  lemma RunPrefix(vs: seq<View>, es: seq<Event>, n: nat)
    requires Run(vs, es) && n == |es| - 1
    ensures |vs| == |es| + 1 && Run(vs[..n + 1], es[..n]) && Sound(vs[n]) && Step(vs[n], vs[n + 1], es[n])
  {
    hide Sound, Step;
    StepsSound(vs, es, n);
  }

  lemma StepsSound(vs: seq<View>, es: seq<Event>, i: nat)
    requires Run(vs, es) && i < |vs|
    ensures Sound(vs[i])
  {
    if i > 0 { assert Step(vs[i - 1], vs[i], es[i - 1]); }
  }

  lemma StepKeeps(v: View, v': View, e: Event, b: Region)
    requires Sound(v) && Step(v, v', e) && b in Blocks(v.regions) && b in Blocks(v'.regions)
    requires e.Poke? ==> e.b != b
    ensures SameIn(v.mem, v'.mem, b.addr, b.End())
  {
    if e.Poke? {
      BlocksDisjoint(v.regions, v.start, v.end, b, e.b);
    }
  }

  /** The walks over the tags, forwards and backwards, find the regions, and all bytes are accounted for. */
  ghost predicate Accounted(v: View) {
    && v.end <= |v.mem|
    && Walk(v.mem, v.start, v.end) == v.regions == WalkBack(v.mem, v.start, v.end)
    && Bytes(v.regions, true) + Bytes(v.regions, false) == v.end - v.start
  }

  /** In every state of a run the memory walks find the regions, and all bytes are accounted for. */
  lemma EveryState(vs: seq<View>, es: seq<Event>, i: nat)
    requires Run(vs, es) && i < |vs|
    ensures Sound(vs[i])
    ensures Accounted(vs[i])
  {
    StepsSound(vs, es, i);
    var v := vs[i];
    LaidTiles(v.mem, v.regions, v.start, v.end);
    WalkFindsRegions(v.mem, v.regions, v.start, v.end);
    WalkBackFindsRegions(v.mem, v.regions, v.start, v.end);
    BytesAddUp(v.regions, v.start, v.end);
  }

  /** The map without the hole at its end. */
  function Settled(rs: seq<Region>): seq<Region> { rs[..TailNumber(rs)] }

  /**
    The live blocks determine the whole map, but for where a last hole ends: two
    sound states with the same blocks have the same regions up to the last block.
   */
  lemma BlocksDetermineMap(v: View, w: View)
    requires Sound(v) && Sound(w) && v.start == w.start && Blocks(v.regions) == Blocks(w.regions)
    ensures Settled(v.regions) == Settled(w.regions)
    ensures v.end == w.end ==> v.regions == w.regions
  {
    hide Laid, Tiles, NoAdjacentHoles, Blocks, Indexed, Settled, TailStart;
    LaidTiles(v.mem, v.regions, v.start, v.end);
    LaidTiles(w.mem, w.regions, w.start, w.end);
    var p, q, lo := v.regions, w.regions, v.start;
    SettledMap(p, lo, v.end);
    SettledMap(q, lo, w.end);
    SameTail(p, lo, v.end, q, w.end);
    SameTail(q, lo, w.end, p, v.end);
    CanonicalForm(Settled(p), Settled(q), lo, TailStart(p, v.end));
    if v.end == w.end { CanonicalForm(p, q, lo, v.end); }
  }

  lemma SettledMap(p: seq<Region>, lo: nat, hi: nat)
    requires Tiles(p, lo, hi) && NoAdjacentHoles(p)
    ensures Tiles(Settled(p), lo, TailStart(p, hi)) && NoAdjacentHoles(Settled(p)) && Blocks(Settled(p)) == Blocks(p)
    ensures Settled(p) != [] ==> !Settled(p)[|Settled(p)| - 1].hole
  {
    hide Tiles, Blocks;
    var n := TailNumber(p);
    TilesSplit(p, lo, hi, n);
    SettledBlocks(p);
    if 0 < n < |p| { assert !(p[n].hole && p[n - 1].hole); }
  }

  lemma SettledBlocks(p: seq<Region>)
    ensures Blocks(Settled(p)) == Blocks(p)
  {
    var n := TailNumber(p);
    BlocksConcat(p[..n], p[n..]);
    assert p == p[..n] + p[n..];
  }

  lemma SameTail(p: seq<Region>, lo: nat, hi: nat, q: seq<Region>, hi': nat)
    requires Tiles(p, lo, hi) && NoAdjacentHoles(p) && Tiles(q, lo, hi') && NoAdjacentHoles(q) && Blocks(p) == Blocks(q)
    ensures TailStart(p, hi) <= TailStart(q, hi')
  {
    SettledMap(p, lo, hi);
    SettledMap(q, lo, hi');
    var s, t := Settled(p), Settled(q);
    if s != [] {
      var b := s[|s| - 1];
      assert b in Blocks(s) && b in Blocks(t);
      var k :| 0 <= k < |t| && !t[k].hole && t[k] == b;
      Inside(t, lo, TailStart(q, hi'), k);
    }
  }

  /** Freeing a block just obtained restores the previous map, up to where a last hole ends. */
  lemma AllocThenFreeRestores(v: View, v1: View, v2: View, b: Region, newSize: nat, pageAlign: bool)
    requires Sound(v) && Step(v, v1, Allocate(b, newSize, pageAlign)) && Step(v1, v2, Release(b))
    ensures Settled(v2.regions) == Settled(v.regions)
    ensures v2.end == v.end ==> v2.regions == v.regions
    ensures BytesKept(v.mem, v2.mem, Blocks(v.regions))
  {
    assert Blocks(v2.regions) == Blocks(v.regions);
    BlocksDetermineMap(v2, v);
    KeptThrough(v.mem, v1.mem, v2.mem, Blocks(v.regions));
  }
}
