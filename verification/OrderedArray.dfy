/**
  The insertion-sorted array of src/ordered_array.c, kept in a fixed buffer.
  The comparison is handed to each call as it reads at that moment: the heap's
  comparison looks into memory that changes between calls (src/kheap.c:144-146).
 */
module OrderedArrays {

  /** The first position whose element is not less than `item`. */
  function Position<T>(s: seq<T>, item: T, less: (T, T) -> bool): (k: nat)
    ensures k <= |s|
  {
    if s == [] || !less(s[0], item) then 0 else 1 + Position(s[1..], item, less)
  }

  /** `s` with `item` put in front of the first element that is not less. */
  function Inserted<T>(s: seq<T>, item: T, less: (T, T) -> bool): (t: seq<T>)
    ensures |t| == |s| + 1
  {
    var k := Position(s, item, less);
    s[..k] + [item] + s[k..]
  }

  /** `s` without its element `k`. */
  function Removed<T>(s: seq<T>, k: nat): (t: seq<T>)
    requires k < |s|
    ensures |t| == |s| - 1
  {
    s[..k] + s[k + 1..]
  }

  ghost predicate StrictWeakOrder<T(!new)>(less: (T, T) -> bool) {
    && (forall a, b :: less(a, b) ==> !less(b, a))
    && (forall a, b, c :: !less(a, b) && !less(b, c) ==> !less(a, c))
  }

  ghost predicate Sorted<T>(s: seq<T>, less: (T, T) -> bool) {
    forall i, j :: 0 <= i < j < |s| ==> !less(s[j], s[i])
  }

  /** What `Position` means: everything before it is less, the element at it is not. */
  lemma {:induction false} PositionSplits<T>(s: seq<T>, item: T, less: (T, T) -> bool)
    ensures var k := Position(s, item, less);
            (forall i :: 0 <= i < k ==> less(s[i], item)) && (k < |s| ==> !less(s[k], item))
  {
    if s == [] || !less(s[0], item) {
    } else {
      PositionSplits(s[1..], item, less);
      var k := Position(s, item, less);
      forall i | 0 <= i < k ensures less(s[i], item) {
        if i > 0 { assert s[i] == s[1..][i - 1]; }
      }
    }
  }

  lemma {:induction false} PositionIs<T>(s: seq<T>, item: T, less: (T, T) -> bool, k: nat)
    requires k <= |s|
    requires forall i :: 0 <= i < k ==> less(s[i], item)
    requires k < |s| ==> !less(s[k], item)
    ensures Position(s, item, less) == k
  {
    if k > 0 {
      assert less(s[0], item);
      PositionIs(s[1..], item, less, k - 1);
    }
  }

  /** Insertion keeps the array sorted and adds exactly the new element. */
  lemma InsertedSorted<T(!new)>(s: seq<T>, item: T, less: (T, T) -> bool)
    requires StrictWeakOrder(less) && Sorted(s, less)
    ensures Sorted(Inserted(s, item, less), less)
    ensures multiset(Inserted(s, item, less)) == multiset(s) + multiset{item}
  {
    var k, t := Position(s, item, less), Inserted(s, item, less);
    assert s == s[..k] + s[k..];
    forall i, j | 0 <= i < j < |t| ensures !less(t[j], t[i]) {
      InsertedPair(s, item, less, i, j);
    }
  }

  /** The new element comes in front of its equals; all others keep their order. */
  lemma InsertedFirst<T(!new)>(s: seq<T>, item: T, less: (T, T) -> bool)
    ensures exists k: nat :: k <= |s| && Inserted(s, item, less) == s[..k] + [item] + s[k..]
              && (forall i :: 0 <= i < k ==> less(s[i], item)) && (k < |s| ==> !less(s[k], item))
  {
    PositionSplits(s, item, less);
    var k := Position(s, item, less);
    assert Inserted(s, item, less) == s[..k] + [item] + s[k..];
  }

  lemma InsertedPair<T(!new)>(s: seq<T>, item: T, less: (T, T) -> bool, i: nat, j: nat)
    requires StrictWeakOrder(less) && Sorted(s, less) && i < j <= |s|
    ensures !less(Inserted(s, item, less)[j], Inserted(s, item, less)[i])
  {
    var k, t := Position(s, item, less), Inserted(s, item, less);
    PositionSplits(s, item, less);
    if i == k {
      NotLessFrom(s, item, less, j - 1);
    } else if j == k {
      assert less(s[i], item);
    } else {
      var i', j' := if i < k then i else i - 1, if j < k then j else j - 1;
      assert t[i] == s[i'] && t[j] == s[j'];
    }
  }

  lemma NotLessFrom<T(!new)>(s: seq<T>, item: T, less: (T, T) -> bool, j: nat)
    requires StrictWeakOrder(less) && Sorted(s, less) && Position(s, item, less) <= j < |s|
    ensures !less(s[j], item)
  {
    PositionSplits(s, item, less);
    var k := Position(s, item, less);
    if k < j { assert !less(s[j], s[k]) && !less(s[k], item); }
  }

  /** Removal keeps the array sorted and drops exactly one occurrence. */
  lemma RemovedSorted<T(!new)>(s: seq<T>, k: nat, less: (T, T) -> bool)
    requires k < |s| && Sorted(s, less)
    ensures Sorted(Removed(s, k), less)
    ensures multiset(Removed(s, k)) == multiset(s) - multiset{s[k]}
  {
    assert s == s[..k] + [s[k]] + s[k + 1..];
  }

  /** The elements in front of the removed one stay where they are, those behind move up by one. */
  lemma RemovedAt<T>(s: seq<T>, k: nat, i: nat)
    requires k < |s| && i + 1 < |s|
    ensures Removed(s, k)[i] == if i < k then s[i] else s[i + 1]
  {
  }

  class OrderedArray<T(0)> {
    var data: array<T>
    var size: nat

    ghost predicate Valid()
      reads this
    {
      size <= data.Length
    }

    ghost function Contents(): seq<T>
      reads this, data
      requires Valid()
    {
      data[..size]
    }

    constructor (maxSize: nat)
      ensures Valid() && fresh(data) && data.Length == maxSize && Contents() == []
    {
      data := new T[maxSize];
      size := 0;
    }

    method Lookup(i: nat) returns (item: T)
      requires Valid() && i < size
      ensures item == Contents()[i]
    {
      item := data[i];
    }

    /** Nothing in the source stops an insertion into a full buffer: the room is the caller's to have. */
    method Insert(item: T, less: (T, T) -> bool)
      requires Valid() && size < data.Length
      modifies this, data
      ensures Valid() && data == old(data)
      ensures Contents() == Inserted(old(Contents()), item, less)
    {
      ghost var was := Contents();
      var at := 0;
      while at < size && less(data[at], item)
        invariant at <= size && forall i :: 0 <= i < at ==> less(was[i], item)
      {
        at := at + 1;
      }
      PositionIs(was, item, less, at);
      if at == size {
        data[size] := item;
      } else {
        ShiftIn(at, item);
      }
      size := size + 1;
    }

    /** The element goes to place `k`, and each of those from there on one place further. */
    method ShiftIn(k: nat, item: T)
      requires Valid() && k < size < data.Length
      modifies data
      ensures data[..size + 1] == old(Contents())[..k] + [item] + old(Contents())[k..]
    {
      ghost var was := Contents();
      var at := k;
      var tmp := data[at];
      data[at] := item;
      while at < size
        modifies data
        invariant k <= at <= size == |was|
        invariant forall j :: 0 <= j < k ==> data[j] == was[j]
        invariant data[k] == item
        invariant forall j :: k < j <= at ==> data[j] == was[j - 1]
        invariant forall j :: at < j < size ==> data[j] == was[j]
        invariant at < size ==> tmp == was[at]
      {
        at := at + 1;
        var tmp2 := data[at];
        data[at] := tmp;
        tmp := tmp2;
      }
    }

    /** The shift reads one element past the last, so the source needs the buffer not to be full. */
    method Remove(i: nat)
      requires Valid() && i < size < data.Length
      modifies this, data
      ensures Valid() && data == old(data)
      ensures Contents() == Removed(old(Contents()), i)
    {
      ghost var was := Contents();
      var k := i;
      while k < size
        modifies data
        invariant i <= k <= size == |was|
        invariant forall j :: 0 <= j < i ==> data[j] == was[j]
        invariant forall j :: i <= j < k && j + 1 < size ==> data[j] == was[j + 1]
        invariant forall j :: k <= j < size ==> data[j] == was[j]
      {
        data[k] := data[k + 1];
        k := k + 1;
      }
      size := size - 1;
    }
  }
}
