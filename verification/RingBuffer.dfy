/** The byte queue of the keyboard and serial drivers (src/ring_buffer.c), and the bounded FIFO it refines. */
module RingBuffers {
  import opened Words

  // ----- The FIFO

  datatype Event = Write(item: byte) | Read

  /** A write that finds the queue full is dropped. */
  function Next(q: seq<byte>, size: nat, e: Event): seq<byte>
    requires e.Read? ==> q != []
  {
    match e
    case Write(item) => if |q| < size then q + [item] else q
    case Read => q[1..]
  }

  /** The trace reads from no empty queue. */
  ghost predicate Served(q: seq<byte>, size: nat, trace: seq<Event>)
    decreases |trace|
  {
    trace == [] || ((trace[0].Read? ==> q != []) && Served(Next(q, size, trace[0]), size, trace[1..]))
  }

  function After(q: seq<byte>, size: nat, trace: seq<Event>): seq<byte>
    requires Served(q, size, trace)
    decreases |trace|
  {
    if trace == [] then q else After(Next(q, size, trace[0]), size, trace[1..])
  }

  /** The bytes a trace writes and the queue takes. */
  function Accepted(q: seq<byte>, size: nat, trace: seq<Event>): seq<byte>
    requires Served(q, size, trace)
    decreases |trace|
  {
    if trace == [] then []
    else
      var rest := Accepted(Next(q, size, trace[0]), size, trace[1..]);
      if trace[0].Write? && |q| < size then [trace[0].item] + rest else rest
  }

  /** The bytes a trace reads. */
  function Delivered(q: seq<byte>, size: nat, trace: seq<Event>): seq<byte>
    requires Served(q, size, trace)
    decreases |trace|
  {
    if trace == [] then []
    else
      var rest := Delivered(Next(q, size, trace[0]), size, trace[1..]);
      if trace[0].Read? then [q[0]] + rest else rest
  }

  /** Nothing is lost, duplicated or reordered: what was there and what was accepted is what was read and what is left. */
  lemma {:induction false} FirstInFirstOut(q: seq<byte>, size: nat, trace: seq<Event>)
    requires Served(q, size, trace)
    ensures q + Accepted(q, size, trace) == Delivered(q, size, trace) + After(q, size, trace)
    decreases |trace|
  {
    if trace == [] {
      assert q + [] == [] + q;
    } else {
      var e, q', rest := trace[0], Next(q, size, trace[0]), trace[1..];
      FirstInFirstOut(q', size, rest);
      var a, d := Accepted(q', size, rest), Delivered(q', size, rest);
      match e {
        case Write(item) =>
          if |q| < size { assert q + ([item] + a) == q' + a; }
        case Read =>
          assert q + a == [q[0]] + (q' + a);
          assert [q[0]] + (d + After(q', size, rest)) == ([q[0]] + d) + After(q', size, rest);
      }
    }
  }

  /** From an empty buffer, the bytes read are a prefix of the accepted writes, and never more than `size` are pending. */
  lemma {:induction false} ReadsArePrefix(size: nat, trace: seq<Event>)
    requires Served([], size, trace)
    ensures Delivered([], size, trace) <= Accepted([], size, trace)
    ensures |Accepted([], size, trace)| - |Delivered([], size, trace)| == |After([], size, trace)| <= size
  {
    FirstInFirstOut([], size, trace);
    Bounded([], size, trace);
    assert [] + Accepted([], size, trace) == Accepted([], size, trace);
  }

  lemma {:induction false} Bounded(q: seq<byte>, size: nat, trace: seq<Event>)
    requires Served(q, size, trace) && |q| <= size
    ensures |After(q, size, trace)| <= size
    decreases |trace|
  {
    if trace != [] { Bounded(Next(q, size, trace[0]), size, trace[1..]); }
  }

  function Written(trace: seq<Event>): seq<byte>
    decreases |trace|
  {
    if trace == [] then []
    else if trace[0].Write? then [trace[0].item] + Written(trace[1..]) else Written(trace[1..])
  }

  /** A consumer that keeps up: no write finds the queue full. */
  ghost predicate KeepsUp(q: seq<byte>, size: nat, trace: seq<Event>)
    requires Served(q, size, trace)
    decreases |trace|
  {
    trace == [] || ((trace[0].Write? ==> |q| < size) && KeepsUp(Next(q, size, trace[0]), size, trace[1..]))
  }

  /** Every byte written is accepted exactly when the consumer keeps up. */
  lemma {:induction false} NothingDropped(q: seq<byte>, size: nat, trace: seq<Event>)
    requires Served(q, size, trace)
    ensures |Accepted(q, size, trace)| <= |Written(trace)|
    ensures KeepsUp(q, size, trace) <==> Accepted(q, size, trace) == Written(trace)
    decreases |trace|
  {
    if trace != [] {
      var q', rest := Next(q, size, trace[0]), trace[1..];
      NothingDropped(q', size, rest);
      if trace[0].Write? && |q| < size {
        assert ([trace[0].item] + Accepted(q', size, rest))[1..] == Accepted(q', size, rest);
        assert ([trace[0].item] + Written(rest))[1..] == Written(rest);
      }
    }
  }

  // ----- The buffer

  /** Position `k` places behind `head`, going round. */
  lemma Around(head: nat, k: nat, size: nat)
    requires head < size && k <= size
    ensures (head + k) % size == if head + k < size then head + k else head + k - size
  {
    if head + k >= size {
      assert (head + k - size) % size == head + k - size;
    }
  }

  /** The cell `k` places behind `head`, going round. */
  function Cell(head: nat, k: nat, size: nat): (c: nat)
    requires size > 0
    ensures c < size
  {
    (head + k) % size
  }

  lemma CellNext(head: nat, k: nat, size: nat)
    requires head < size && k < size
    ensures Cell(Cell(head, 1, size), k, size) == Cell(head, k + 1, size)
  {
    Around(head, 1, size);
    Around(head, k + 1, size);
    Around(Cell(head, 1, size), k, size);
  }

  lemma CellHere(head: nat, size: nat)
    requires head < size
    ensures Cell(head, 0, size) == head
  {
  }

  lemma CellAfter(head: nat, k: nat, size: nat)
    requires head < size && k < size
    ensures Cell(Cell(head, k, size), 1, size) == Cell(head, k + 1, size)
  {
    Around(head, k, size);
    Around(head, k + 1, size);
    Around(Cell(head, k, size), 1, size);
  }

  lemma CellsDiffer(head: nat, j: nat, k: nat, size: nat)
    requires head < size && j < k < size
    ensures Cell(head, j, size) != Cell(head, k, size)
  {
    Around(head, j, size);
    Around(head, k, size);
  }

  /** `count` bytes from `head` on, going round. */
  ghost function Queue(data: seq<byte>, head: nat, count: nat): (q: seq<byte>)
    requires head < |data|
    ensures |q| == count && forall k :: 0 <= k < count ==> q[k] == data[Cell(head, k, |data|)]
  {
    seq(count, k requires 0 <= k < count => data[Cell(head, k, |data|)])
  }

  lemma QueueRead(data: seq<byte>, head: nat, count: nat)
    requires head < |data| && 0 < count <= |data|
    ensures Cell(head, count, |data|) == Cell(Cell(head, 1, |data|), count - 1, |data|)
    ensures [data[head]] + Queue(data, Cell(head, 1, |data|), count - 1) == Queue(data, head, count)
  {
    hide Cell, Queue;
    CellNext(head, count - 1, |data|);
    CellHere(head, |data|);
    QueueBehind(data, head, count);
  }

  lemma QueueBehind(data: seq<byte>, head: nat, count: nat)
    requires head < |data| && 0 < count <= |data| && Cell(head, 0, |data|) == head
    ensures [data[head]] + Queue(data, Cell(head, 1, |data|), count - 1) == Queue(data, head, count)
  {
    hide Cell, Queue;
    var q, next := Queue(data, head, count), Cell(head, 1, |data|);
    var q' := [data[head]] + Queue(data, next, count - 1);
    forall k: nat | k < count ensures q'[k] == q[k] {
      if k > 0 { CellNext(head, k - 1, |data|); }
    }
  }

  lemma QueueWrite(data: seq<byte>, head: nat, count: nat, item: byte)
    requires head < |data| && count < |data|
    ensures Queue(data[Cell(head, count, |data|) := item], head, count + 1) == Queue(data, head, count) + [item]
  {
    hide Cell, Queue;
    forall k: nat | k < count ensures Cell(head, k, |data|) != Cell(head, count, |data|) {
      CellsDiffer(head, k, count, |data|);
    }
  }

  /** The fields fit together: the bytes in use run from `head` to `tail`. */
  ghost predicate Shape(length: nat, head: nat, tail: nat, count: nat, size: nat) {
    && length == size && count <= size
    && if size == 0 then head == 0 == tail else head < size && tail == Cell(head, count, size)
  }

  /** What the fields stand for. */
  ghost function Queued(data: seq<byte>, head: nat, count: nat): (q: seq<byte>)
    requires data != [] ==> head < |data|
    ensures data != [] || count == 0 ==> |q| == count
  {
    if data == [] then [] else Queue(data, head, count)
  }

  /** A read from an empty buffer leaves a count of 2^32 - 1, which no buffer can hold. */
  lemma EmptyReadBreaks(head: u32, size: u32)
    requires head < size
    ensures !(TWO_TO_THE_32 - 1 <= size && head == Cell(Cell(head, 1, size), TWO_TO_THE_32 - 1, size))
  {
    Around(head, 1, size);
    Around(Cell(head, 1, size), size, size);
  }

  /** The fields after a read: still in shape, and one byte shorter, exactly when there was a byte to read. */
  lemma AfterRead(data: seq<byte>, head: u32, tail: nat, count: u32, size: u32)
    requires Shape(|data|, head, tail, count, size) && size > 0
    ensures var head', count' := (head + 1) % TWO_TO_THE_32 % size, (count - 1) % TWO_TO_THE_32;
            && head < |data| && head' < |data|
            && (Shape(|data|, head', tail, count', size) <==> count > 0)
            && (count > 0 ==> [data[head]] + Queued(data, head', count') == Queued(data, head, count))
  {
    hide Queue, Cell;
    StepOn(head, size);
    CountDown(count);
    CellHere(head, size);
    if count > 0 { QueueRead(data, head, count); } else { EmptyReadBreaks(head, size); }
  }

  lemma CountDown(count: u32)
    ensures (count - 1) % TWO_TO_THE_32 == if count > 0 then count - 1 else TWO_TO_THE_32 - 1
  {
  }

  lemma StepOn(at: u32, size: u32)
    requires at < size
    ensures (at + 1) % TWO_TO_THE_32 % size == Cell(at, 1, size)
  {
  }

  /** The fields after a write to a buffer with room. */
  lemma AfterWrite(data: seq<byte>, head: u32, tail: u32, count: u32, size: u32, item: byte)
    requires Shape(|data|, head, tail, count, size) && count < size
    ensures var tail' := (tail + 1) % TWO_TO_THE_32 % size;
            && tail < |data| && head < |data| && Shape(|data|, head, tail', count + 1, size)
            && Queued(data[tail := item], head, count + 1) == Queued(data, head, count) + [item]
  {
    hide Queue, Cell;
    StepOn(tail, size);
    CellAfter(head, count, size);
    QueueWrite(data, head, count, item);
  }

  lemma OutOfShape(length: nat, head: nat, tail: nat, count: nat, size: nat)
    requires Shape(length, head, tail, count, size)
    ensures length == size && count <= size && (length > 0 ==> head < length)
  {
  }

  class RingBuffer {
    var head: u32
    var tail: u32
    var count: u32
    const size: u32
    const data: array<byte>

    ghost predicate Valid()
      reads this
    {
      Shape(data.Length, head, tail, count, size)
    }

    /** The queue: `count` bytes from `head` on, going round. */
    ghost function Contents(): (q: seq<byte>)
      requires Valid()
      reads this, data
      ensures |q| == count
    {
      OutOfShape(data.Length, head, tail, count, size);
      Queued(data[..], head, count)
    }

    /** ring_buffer_create */
    constructor (size: u32)
      ensures Valid() && this.size == size && Contents() == [] && fresh(data)
    {
      this.size := size;
      count, head, tail := 0, 0, 0;
      data := new byte[size];
    }

    /**
      ring_buffer_read, which does not look at `count`. It takes the oldest byte out of a
      queue that is not empty; an empty one it leaves broken, with a count that wrapped around.
     */
    method Read() returns (item: byte)
      requires Valid() && size > 0
      modifies this
      ensures Valid() <==> old(count) > 0
      ensures old(count) > 0 ==> [item] + Contents() == old(Contents()) && Contents() == Next(old(Contents()), size, Event.Read)
      ensures data[..] == old(data[..])
    {
      hide Shape, Queued;
      AfterRead(data[..], head, tail, count, size);
      var oldHead := head;
      item := data[oldHead];
      var newHead := (oldHead + 1) % TWO_TO_THE_32 % size;
      head := newHead;
      count := (count - 1) % TWO_TO_THE_32;
    }

    /** ring_buffer_write: a full queue drops the byte. */
    method Write(item: byte)
      requires Valid()
      modifies this, data
      ensures Valid() && Contents() == Next(old(Contents()), size, Event.Write(item))
      ensures old(count) < size ==> Contents() == old(Contents()) + [item]
      ensures old(count) == size ==> data[..] == old(data[..]) && head == old(head) && tail == old(tail) && count == old(count)
    {
      hide Shape, Queued;
      ghost var was := data[..];
      OutOfShape(data.Length, head, tail, count, size);
      if count < size {
        AfterWrite(was, head, tail, count, size, item);
        var newTail := (tail + 1) % TWO_TO_THE_32 % size;
        data[tail] := item;
        assert data[..] == was[tail := item];
        tail := newTail;
        count := count + 1;
      }
    }
  }
}
