/** Placement allocation, which serves kmalloc before there is a heap (src/kheap.c, lines 19-44). */
module Placement {
  import opened Words

  datatype Request = Request(size: u32, align: bool)

  /** Where a request is placed when `free` is the first free address. An aligned address is moved on as well. */
  function Place(free: u32, align: bool): nat {
    if align && free / PAGE_SIZE != 0 then free / PAGE_SIZE * PAGE_SIZE + PAGE_SIZE else free
  }

  /** Requests served one after the other, without running past the last address. */
  ghost predicate Fits(free: nat, rs: seq<Request>)
    decreases |rs|
  {
    free < TWO_TO_THE_32
    && (rs != [] ==>
          Place(free, rs[0].align) < TWO_TO_THE_32 && Fits(Place(free, rs[0].align) + rs[0].size, rs[1..]))
  }

  /** The addresses the requests get. */
  function Addresses(free: nat, rs: seq<Request>): seq<nat>
    requires Fits(free, rs)
    decreases |rs|
  {
    if rs == [] then []
    else [Place(free, rs[0].align)] + Addresses(Place(free, rs[0].align) + rs[0].size, rs[1..])
  }

  /** No two blocks overlap, and none reaches below the first free address; between two there is only what alignment skips. */
  lemma {:induction false} BlocksFollow(free: nat, rs: seq<Request>)
    requires Fits(free, rs)
    ensures |Addresses(free, rs)| == |rs|
    ensures forall i :: 0 <= i < |rs| ==> free <= Addresses(free, rs)[i]
    ensures forall i, j :: 0 <= i < j < |rs| ==> Addresses(free, rs)[i] + rs[i].size <= Addresses(free, rs)[j]
    ensures forall i, j :: 0 <= i < j < |rs| && j == i + 1 ==>
              Addresses(free, rs)[j] <= Addresses(free, rs)[i] + rs[i].size + (if rs[j].align then PAGE_SIZE else 0)
    decreases |rs|
  {
    if rs != [] {
      var a, next := Addresses(free, rs), Place(free, rs[0].align) + rs[0].size;
      BlocksFollow(next, rs[1..]);
      forall i | 0 < i < |rs| ensures next <= a[i] && rs[i] == rs[1..][i - 1] && a[i] == Addresses(next, rs[1..])[i - 1] {
      }
    }
  }

  /** An aligned request gets a page boundary exactly when free memory starts on one or behind the first page. */
  lemma AlignedUnlessInFirstPage(free: u32)
    ensures Place(free, true) % PAGE_SIZE == 0 <==> free == 0 || PAGE_SIZE <= free
  {
  }

  /** A request without alignment, or in the first page, is placed right there; any other one on the next page boundary. */
  lemma PlacedNear(free: u32, align: bool)
    ensures !align || free < PAGE_SIZE ==> Place(free, align) == free
    ensures align && PAGE_SIZE <= free ==>
              Place(free, align) % PAGE_SIZE == 0 && Place(free, align) - PAGE_SIZE <= free < Place(free, align)
  {
  }

  class Allocator {
    var placementAddress: u32

    constructor (end: u32)
      ensures placementAddress == end
    {
      placementAddress := end;
    }

    /**
      kmalloc_int while there is no heap; the physical address is the address itself.
      Addresses are counted in 32 bits.
     */
    method Kmalloc(r: Request) returns (address: u32, phys: u32)
      modifies this
      ensures address == Place(old(placementAddress), r.align) % TWO_TO_THE_32 && phys == address
      ensures placementAddress == (address + r.size) % TWO_TO_THE_32
      ensures Fits(old(placementAddress), [r]) ==> [address as nat] == Addresses(old(placementAddress), [r])
    {
      assert [r][0] == r && [r][1..] == [];
      if r.align && placementAddress / PAGE_SIZE != 0 {
        placementAddress := (placementAddress / PAGE_SIZE * PAGE_SIZE + PAGE_SIZE) % TWO_TO_THE_32;
      }
      phys := placementAddress;
      address := placementAddress;
      placementAddress := (placementAddress + r.size) % TWO_TO_THE_32;
    }
  }

  /** The block lies behind all earlier ones, and the next ones behind it, exactly when the addresses do not wrap around. */
  lemma AheadUnlessWrapped(free: u32, r: Request)
    ensures var a := Place(free, r.align) % TWO_TO_THE_32;
            free <= a && a + r.size == (a + r.size) % TWO_TO_THE_32 <==> Fits(free, [r])
  {
    assert [r][0] == r && [r][1..] == [];
  }
}
