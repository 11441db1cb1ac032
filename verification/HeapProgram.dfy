/**
  Programs against the kernel heap: any sequence of alloc, free and store requests,
  carried out by the heap's own methods. What they do is a run.
 */
module HeapPrograms {
  import opened Words
  import opened Regions
  import opened HeapState
  import opened HeapMoves
  import opened HeapRuns
  import opened KernelHeap
  import P = Paging

  /** Free and store requests name an earlier allocation by its place in the table of live ones. */
  datatype Request =
    | AllocRequest(size: nat, pageAlign: bool)
    | FreeRequest(k: nat)
    | StoreRequest(k: nat, offset: nat, value: byte)

  /** A pointer that alloc has handed out, and the size it was asked for. */
  datatype Handle = Handle(p: nat, size: nat)

  // ----- The table of live allocations

  ghost predicate Backed(rs: seq<Region>, h: Handle) {
    exists b :: b in Blocks(rs) && b.Payload() == h.p && h.size + TAGS <= b.size
  }

  /** Every handle is backed by a block, and no two by the same one. */
  ghost predicate Live(rs: seq<Region>, hs: seq<Handle>) {
    && (forall k :: 0 <= k < |hs| ==> Backed(rs, hs[k]))
    && (forall j, k :: 0 <= j < k < |hs| ==> hs[j].p != hs[k].p)
  }

  lemma LiveAllocated(v: View, v': View, b: Region, hs: seq<Handle>, size: nat)
    requires Sound(v') && BlockAdded(v.regions, v'.regions, b) && Live(v.regions, hs) && size + TAGS <= b.size
    ensures Live(v'.regions, hs + [Handle(b.Payload(), size)])
  {
    hide Laid, Tiles, Indexed, NoAdjacentHoles;
    LaidTiles(v'.mem, v'.regions, v'.start, v'.end);
    var h, hs' := Handle(b.Payload(), size), hs + [Handle(b.Payload(), size)];
    forall k | 0 <= k < |hs| ensures Backed(v'.regions, hs[k]) && hs[k].p != h.p {
      var c :| c in Blocks(v.regions) && c.Payload() == hs[k].p && hs[k].size + TAGS <= c.size;
      assert c in Blocks(v'.regions) && c != b;
      OneBlockAt(v'.regions, v'.start, v'.end, b, c);
    }
    assert b in Blocks(v'.regions) && Backed(v'.regions, h);
  }

  /** Blocks with one payload are one block. */
  lemma OneBlockAt(rs: seq<Region>, lo: nat, hi: nat, b: Region, c: Region)
    requires Tiles(rs, lo, hi) && b in Blocks(rs) && c in Blocks(rs)
    ensures b.Payload() == c.Payload() ==> b == c
  {
    var i :| 0 <= i < |rs| && !rs[i].hole && rs[i] == b;
    var j :| 0 <= j < |rs| && !rs[j].hole && rs[j] == c;
    if b.addr == c.addr { SameAddr(rs, lo, hi, i, j); }
  }

  lemma LiveKept(rs: seq<Region>, rs': seq<Region>, hs: seq<Handle>)
    requires Blocks(rs') == Blocks(rs) && Live(rs, hs)
    ensures Live(rs', hs)
  {
    hide Blocks;
    forall k | 0 <= k < |hs| ensures Backed(rs', hs[k]) {
      assert Backed(rs, hs[k]);
    }
  }

  lemma LiveFreed(rs: seq<Region>, rs': seq<Region>, b: Region, hs: seq<Handle>, k: nat)
    requires BlockDropped(rs, rs', b) && k < |hs| && Live(rs, hs) && b.Payload() == hs[k].p
    ensures Live(rs', hs[..k] + hs[k + 1..])
  {
    hide Blocks;
    var left := hs[..k] + hs[k + 1..];
    forall j | 0 <= j < |left| ensures Backed(rs', left[j]) {
      var i := if j < k then j else j + 1;
      assert left[j] == hs[i] && Backed(rs, hs[i]) && hs[i].p != hs[k].p;
      var c :| c in Blocks(rs) && c.Payload() == hs[i].p && hs[i].size + TAGS <= c.size;
      assert c in Blocks(rs');
    }
  }

  lemma BlockInMemory(m: seq<byte>, rs: seq<Region>, lo: nat, hi: nat, b: Region)
    requires Laid(m, rs, lo, hi) && b in Blocks(rs)
    ensures b.End() <= |m|
  {
    var i :| 0 <= i < |rs| && !rs[i].hole && rs[i] == b;
    assert Tagged(m, rs[i]);
  }

  // ----- The run so far

  lemma RunStarts(v: View)
    requires Sound(v)
    ensures Run([v], [])
  {
  }

  /** A run goes on with a step from its last state. */
  lemma RunGoesOn(vs: seq<View>, es: seq<Event>, v': View, e: Event)
    requires Run(vs, es) && Step(vs[|vs| - 1], v', e)
    ensures Run(vs + [v'], es + [e])
  {
    hide Step, Sound;
    var vs', es' := vs + [v'], es + [e];
    forall i | 0 <= i < |es'| ensures Step(vs'[i], vs'[i + 1], es'[i]) {
      if i == |es| { assert vs'[i] == vs[|vs| - 1]; }
    }
  }

  // ----- What a program did

  /** A moment between two requests: the table of live allocations, and how many events there were. */
  datatype Moment = Moment(hs: seq<Handle>, n: nat)

  /**
    Between two moments a request was carried out, or passed over for a reason: it names no
    live allocation, stores outside the bytes asked for, or finds too little room in the index.
   */
  ghost predicate Carried(r: Request, capacity: nat, vs: seq<View>, es: seq<Event>, t: Moment, t': Moment) {
    && |vs| == |es| + 1 && t.n <= t'.n <= |es|
    && match r
       case AllocRequest(size, pageAlign) =>
         if |vs[t.n].index| + 1 >= capacity then t' == t
         else t'.n == t.n + 1
              && if es[t.n].Allocate? then
                var b := es[t.n].b;
                && es[t.n] == Allocate(b, size + TAGS, pageAlign)
                && size + TAGS <= b.size && (pageAlign ==> b.Payload() % PAGE_SIZE == 0)
                && t'.hs == t.hs + [Handle(b.Payload(), size)]
              else es[t.n] == Refuse(size + TAGS, pageAlign) && RefusedFor(vs[t'.n], size + TAGS, pageAlign) && t'.hs == t.hs
       case FreeRequest(k) =>
         if k >= |t.hs| || |vs[t.n].index| >= capacity then t' == t
         else t'.n == t.n + 1 && es[t.n].Release? && es[t.n].b.Payload() == t.hs[k].p
              && t'.hs == t.hs[..k] + t.hs[k + 1..]
       case StoreRequest(k, offset, value) =>
         if k >= |t.hs| || offset >= t.hs[k].size then t' == t
         else t'.n == t.n + 1 && es[t.n].Poke? && es[t.n].at == t.hs[k].p + offset && t'.hs == t.hs
              && es[t.n].at < |vs[t'.n].mem| && vs[t'.n].mem[es[t.n].at] == value
  }

  /** The moments of a whole program, request by request. */
  ghost predicate Performed(program: seq<Request>, capacity: nat, vs: seq<View>, es: seq<Event>, ts: seq<Moment>) {
    && |ts| == |program| + 1 && ts[0] == Moment([], 0)
    && forall i :: 0 <= i < |program| ==> Carried(program[i], capacity, vs, es, ts[i], ts[i + 1])
  }

  lemma PerformedMore(program: seq<Request>, i: nat, capacity: nat, vs: seq<View>, es: seq<Event>, ts: seq<Moment>,
                      vs': seq<View>, es': seq<Event>, t': Moment)
    requires i < |program| && Performed(program[..i], capacity, vs, es, ts) && vs <= vs' && es <= es' && |vs'| == |es'| + 1
    requires Carried(program[i], capacity, vs', es', ts[i], t')
    ensures Performed(program[..i + 1], capacity, vs', es', ts + [t'])
  {
    hide Carried;
    var done, ts' := program[..i + 1], ts + [t'];
    forall j | 0 <= j < |done| ensures Carried(done[j], capacity, vs', es', ts'[j], ts'[j + 1]) {
      if j < i {
        assert program[..i][j] == done[j];
        CarriedLater(done[j], capacity, vs, es, ts[j], ts[j + 1], vs', es');
      }
    }
  }

  lemma CarriedLater(r: Request, capacity: nat, vs: seq<View>, es: seq<Event>, t: Moment, t': Moment, vs': seq<View>, es': seq<Event>)
    requires Carried(r, capacity, vs, es, t, t') && vs <= vs' && es <= es' && |vs'| == |es'| + 1
    ensures Carried(r, capacity, vs', es', t, t')
  {
  }

  // ----- Execution

  /** The heap is valid, the handles are live, and what happened so far is a run up to the heap's present state. */
  ghost predicate Running(heap: Heap, hs: seq<Handle>, vs: seq<View>, es: seq<Event>)
    reads heap, heap.mem, heap.index, heap.index.data, heap.vm, heap.vm.frames, heap.vm.pageTables, heap.kernel
  {
    && heap.Valid() && Live(heap.regions, hs)
    && Run(vs, es) && vs[|vs| - 1] == heap.View()
  }

  lemma StepSound(v: View, v': View, e: Event)
    requires Step(v, v', e)
    ensures Sound(v')
  {
  }

  lemma ServedSize(rs: seq<Region>, hi: nat, rs': seq<Region>, hi': nat, newSize: nat, pageAlign: bool, grown: nat, at: nat, b: Region)
    requires Served(rs, hi, rs', hi', newSize, pageAlign, grown, at, b) && TAGS <= newSize
    ensures newSize <= b.size && (pageAlign ==> b.Payload() % PAGE_SIZE == 0)
  {
    RequestServed(Extended(rs, hi, hi')[at], newSize, pageAlign);
  }

  /** An allocation; without two free places in the index it is not attempted. */
  method DoAlloc(heap: Heap, hs: seq<Handle>, size: nat, pageAlign: bool, ghost vs: seq<View>, ghost es: seq<Event>)
    returns (hs': seq<Handle>, ghost vs': seq<View>, ghost es': seq<Event>)
    requires Running(heap, hs, vs, es)
    modifies heap`end, heap`regions, heap.mem, heap.index, heap.index.data, heap.vm, heap.vm.frames, heap.vm.pageTables, heap.kernel
    ensures Running(heap, hs', vs', es') && vs <= vs' && es <= es'
    ensures Carried(AllocRequest(size, pageAlign), old(heap.index.data.Length), vs', es', Moment(hs, |es|), Moment(hs', |es'|))
    ensures heap.index.data == old(heap.index.data) && heap.vm.pageTables == old(heap.vm.pageTables)
  {
    hide Run, Step, Sound, Laid, Indexed, NoAdjacentHoles, Blocks, Live, BytesKept, BlockAdded, Served, Refused, RefusedFor;
    hide P.PhysicalMemory.Valid, P.PhysicalMemory.Apart, P.PhysicalMemory.EntryAt, P.PhysicalMemory.Entries;
    RunLength(vs, es);
    if heap.index.size + 1 >= heap.index.data.Length {
      return hs, vs, es;
    }
    ghost var v, hi := heap.View(), heap.end;
    ghost var b, at, grown;
    var r;
    r, b, at, grown := heap.Alloc(size, pageAlign);
    ghost var e := if r.Allocated? then Allocate(b, size + TAGS, pageAlign) else Refuse(size + TAGS, pageAlign);
    RunGoesOn(vs, es, heap.View(), e);
    StepSound(v, heap.View(), e);
    vs', es' := vs + [heap.View()], es + [e];
    if r.Allocated? {
      ServedSize(v.regions, hi, heap.regions, heap.end, size + TAGS, pageAlign, grown, at, b);
      LiveAllocated(v, heap.View(), b, hs, size);
      hs' := hs + [Handle(r.p, size)];
    } else {
      StepRefused(v, heap.View(), size + TAGS, pageAlign);
      LiveKept(v.regions, heap.regions, hs);
      hs' := hs;
    }
  }

  /** Handle `k` is freed; without a free place in the index it is not attempted. */
  method DoFree(heap: Heap, hs: seq<Handle>, k: nat, ghost vs: seq<View>, ghost es: seq<Event>)
    returns (hs': seq<Handle>, ghost vs': seq<View>, ghost es': seq<Event>)
    requires Running(heap, hs, vs, es) && k < |hs|
    modifies heap`end, heap`regions, heap.mem, heap.index, heap.index.data, heap.vm, heap.vm.frames, heap.vm.pageTables, heap.kernel
    ensures Running(heap, hs', vs', es') && vs <= vs' && es <= es'
    ensures Carried(FreeRequest(k), old(heap.index.data.Length), vs', es', Moment(hs, |es|), Moment(hs', |es'|))
    ensures heap.index.data == old(heap.index.data) && heap.vm.pageTables == old(heap.vm.pageTables)
  {
    hide Run, Step, Laid, Indexed, NoAdjacentHoles, Blocks, BytesKept, BlockDropped, Freed;
    hide P.PhysicalMemory.Valid, P.PhysicalMemory.Apart, P.PhysicalMemory.EntryAt, P.PhysicalMemory.Entries;
    RunLength(vs, es);
    if heap.index.size >= heap.index.data.Length {
      return hs, vs, es;
    }
    ghost var v := heap.View();
    assert Backed(heap.regions, hs[k]);
    ghost var i := heap.Free(hs[k].p);
    ghost var b := v.regions[i];
    RunGoesOn(vs, es, heap.View(), Release(b));
    LiveFreed(v.regions, heap.regions, b, hs, k);
    hs', vs', es' := hs[..k] + hs[k + 1..], vs + [heap.View()], es + [Release(b)];
  }

  /** A store into the bytes handle `k` was asked for. */
  method DoStore(heap: Heap, hs: seq<Handle>, k: nat, offset: nat, value: byte, ghost vs: seq<View>, ghost es: seq<Event>)
    returns (ghost vs': seq<View>, ghost es': seq<Event>)
    requires Running(heap, hs, vs, es) && k < |hs| && offset < hs[k].size
    modifies heap.mem
    ensures Running(heap, hs, vs', es') && vs <= vs' && es <= es'
    ensures Carried(StoreRequest(k, offset, value), heap.index.data.Length, vs', es', Moment(hs, |es|), Moment(hs, |es'|))
  {
    hide Run, Step, Laid, Indexed, NoAdjacentHoles, Blocks;
    hide P.PhysicalMemory.Valid, P.PhysicalMemory.Apart, P.PhysicalMemory.EntryAt, P.PhysicalMemory.Entries;
    RunLength(vs, es);
    ghost var v := heap.View();
    assert Backed(heap.regions, hs[k]);
    ghost var b :| b in Blocks(heap.regions) && b.Payload() == hs[k].p && hs[k].size + TAGS <= b.size;
    ghost var e := Event.Poke(b, hs[k].p + offset);
    BlockInMemory(heap.mem[..], heap.regions, heap.start, heap.end, b);
    heap.Poke(hs[k].p + offset, value, b);
    RunGoesOn(vs, es, heap.View(), e);
    vs', es' := vs + [heap.View()], es + [e];
  }

  /**
    Any program on any valid heap: what the methods do is a run that starts in the heap's
    first state, ends in its last one, and carries out the requests in order.
   */
  method Execute(heap: Heap, program: seq<Request>)
    returns (hs: seq<Handle>, ghost vs: seq<View>, ghost es: seq<Event>, ghost ts: seq<Moment>)
    requires heap.Valid()
    modifies heap`end, heap`regions, heap.mem, heap.index, heap.index.data, heap.vm, heap.vm.frames, heap.vm.pageTables, heap.kernel
    ensures Running(heap, hs, vs, es) && vs[0] == old(heap.View())
    ensures Performed(program, old(heap.index.data.Length), vs, es, ts) && ts[|program|] == Moment(hs, |es|)
    ensures forall v :: v in vs ==> Accounted(v)
    ensures heap.vm.pageTables == old(heap.vm.pageTables)
  {
    hide Run, Step, Sound, Laid, Indexed, NoAdjacentHoles, Blocks, Live, Accounted, Carried;
    hide P.PhysicalMemory.Valid, P.PhysicalMemory.Apart, P.PhysicalMemory.EntryAt, P.PhysicalMemory.Entries;
    hs, vs, es := Start(heap);
    ts := [Moment([], 0)];
    ghost var v, capacity := heap.View(), heap.index.data.Length;
    var i := 0;
    while i < |program|
      invariant i <= |program| && Running(heap, hs, vs, es) && [v] <= vs
      invariant Performed(program[..i], capacity, vs, es, ts) && ts[i] == Moment(hs, |es|)
      invariant heap.index.data == old(heap.index.data) && heap.vm.pageTables == old(heap.vm.pageTables)
    {
      ghost var wasVs, wasEs := vs, es;
      hs, vs, es := Do(heap, program[i], hs, vs, es);
      RunLength(vs, es);
      PerformedMore(program, i, capacity, wasVs, wasEs, ts, vs, es, Moment(hs, |es|));
      ts := ts + [Moment(hs, |es|)];
      i := i + 1;
    }
    assert program[..i] == program;
    AllAccounted(vs, es);
  }

  /** One request. */
  method Do(heap: Heap, r: Request, hs: seq<Handle>, ghost vs: seq<View>, ghost es: seq<Event>)
    returns (hs': seq<Handle>, ghost vs': seq<View>, ghost es': seq<Event>)
    requires Running(heap, hs, vs, es)
    modifies heap`end, heap`regions, heap.mem, heap.index, heap.index.data, heap.vm, heap.vm.frames, heap.vm.pageTables, heap.kernel
    ensures Running(heap, hs', vs', es') && vs <= vs' && es <= es'
    ensures Carried(r, old(heap.index.data.Length), vs', es', Moment(hs, |es|), Moment(hs', |es'|))
    ensures heap.index.data == old(heap.index.data) && heap.vm.pageTables == old(heap.vm.pageTables)
  {
    hide Run, Step, Sound, Laid, Indexed, NoAdjacentHoles, Blocks, Live;
    hide P.PhysicalMemory.Valid, P.PhysicalMemory.Apart, P.PhysicalMemory.EntryAt, P.PhysicalMemory.Entries;
    RunLength(vs, es);
    hs', vs', es' := hs, vs, es;
    match r {
      case AllocRequest(size, pageAlign) =>
        hs', vs', es' := DoAlloc(heap, hs, size, pageAlign, vs, es);
      case FreeRequest(k) =>
        if k < |hs| { hs', vs', es' := DoFree(heap, hs, k, vs, es); }
      case StoreRequest(k, offset, value) =>
        if k < |hs| && offset < hs[k].size { vs', es' := DoStore(heap, hs, k, offset, value, vs, es); }
    }
  }

  /** Nothing has happened yet. */
  method Start(heap: Heap) returns (hs: seq<Handle>, ghost vs: seq<View>, ghost es: seq<Event>)
    requires heap.Valid()
    ensures Running(heap, hs, vs, es) && hs == [] && vs == [heap.View()] && es == []
  {
    hide Laid, Indexed, NoAdjacentHoles, P.PhysicalMemory.Valid, P.PhysicalMemory.Apart, P.PhysicalMemory.EntryAt;
    hs, vs, es := [], [heap.View()], [];
    RunStarts(heap.View());
  }

  lemma AllAccounted(vs: seq<View>, es: seq<Event>)
    requires Run(vs, es)
    ensures forall v :: v in vs ==> Accounted(v)
  {
    hide Run, Accounted;
    forall v | v in vs ensures Accounted(v) {
      var i :| 0 <= i < |vs| && vs[i] == v;
      EveryState(vs, es, i);
    }
  }

  // ----- From boot on

  const KERNEL_PAGES: nat := 0x400
  const KHEAP_START: nat := 0xC000_0000
  const KHEAP_INITIAL_SIZE: nat := 0x10_0000
  const KHEAP_MAX: nat := 0xCFFF_F000

  /** initialise_paging from the empty memory manager up to and with create_heap, with memory enough for both areas. */
  method BootHeap(words: nat) returns (heap: Heap)
    requires KERNEL_PAGES + KHEAP_INITIAL_SIZE / PAGE_SIZE < 32 * words
    ensures heap.Valid() && fresh(heap) && fresh(heap.mem) && fresh(heap.index) && fresh(heap.index.data)
    ensures fresh(heap.vm) && fresh(heap.vm.frames) && fresh(heap.vm.pageTables) && fresh(heap.kernel)
    ensures heap.regions == [Region(0xC008_1000, 0x7_F000, true)] && heap.end == KHEAP_START + KHEAP_INITIAL_SIZE
    ensures heap.index.data.Length == HEAP_INDEX_SIZE && heap.max == KHEAP_MAX && !heap.supervisor && !heap.readonly
    ensures forall p :: 0 <= p < KERNEL_PAGES ==> heap.vm.EntryAt(heap.kernel, p) == P.Page(true, false, true, false, false, p)
    ensures forall p :: KHEAP_START / PAGE_SIZE <= p < heap.end / PAGE_SIZE ==> P.UserPage(heap.vm.EntryAt(heap.kernel, p))
  {
    hide P.PhysicalMemory.Valid, P.PhysicalMemory.Apart, P.PhysicalMemory.EntryAt, P.PhysicalMemory.Entries, Laid, Indexed;
    var vm := new P.PhysicalMemory(words);
    var directory := new P.PageDirectory();
    var ok := vm.InitialisePaging(directory, KERNEL_PAGES, KHEAP_START / PAGE_SIZE, (KHEAP_START + KHEAP_INITIAL_SIZE) / PAGE_SIZE,
      KHEAP_MAX / PAGE_SIZE);
    var memory := new byte[KHEAP_MAX];
    heap := new Heap(KHEAP_START, KHEAP_START + KHEAP_INITIAL_SIZE, KHEAP_MAX, false, false, memory, vm, directory);
  }

  /** Boot, and then any program; `words` words of the bitmap stand for the machine's memory. */
  method Boot(words: nat, program: seq<Request>)
    returns (heap: Heap, hs: seq<Handle>, ghost vs: seq<View>, ghost es: seq<Event>, ghost ts: seq<Moment>)
    requires KERNEL_PAGES + KHEAP_INITIAL_SIZE / PAGE_SIZE < 32 * words
    ensures Running(heap, hs, vs, es) && vs[0].regions == [Region(0xC008_1000, 0x7_F000, true)]
    ensures Performed(program, HEAP_INDEX_SIZE, vs, es, ts) && ts[|program|] == Moment(hs, |es|)
    ensures forall v :: v in vs ==> Accounted(v)
  {
    hide Run, Live, Laid, Indexed, NoAdjacentHoles, Accounted;
    hide P.PhysicalMemory.Valid, P.PhysicalMemory.Apart, P.PhysicalMemory.EntryAt;
    heap := BootHeap(words);
    hs, vs, es, ts := Execute(heap, program);
  }
}
