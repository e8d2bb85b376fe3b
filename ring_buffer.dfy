/**
  The hand-off queue between the log reader and the workers.

  `RingBuffer` is a FIFO queue of log entries with an advisory capacity: it
  never rejects an entry, so its size may exceed its capacity, and the capacity
  only feeds the `IsFull` test the workers use to decide when to flush. The
  read and write offsets are kept as in a circular buffer, but the entries
  themselves live in a growing sequence that is shifted on every dequeue.
 */
module RingBuffers {

  datatype Option<T> = None | Some(value: T)

  /** One line of the log, numbered by the reader. */
  datatype LogEntry = LogEntry(entryIndex: int, data: string)

  /** The offset after one step: one further, or back to 0 on reaching the capacity. */
  function Advance(offset: nat, capacity: nat): (r: nat)
    ensures offset < capacity ==> r < capacity && r == (offset + 1) % capacity
    ensures capacity == 0 ==> r == offset + 1
  {
    if capacity == offset + 1 then
      ModUnique(offset + 1, 1, 0, capacity); 0
    else if offset < capacity then
      ModUnique(offset + 1, 0, offset + 1, capacity); offset + 1
    else
      offset + 1
  }

  /**
    Where an offset stands after `n` steps from 0. With a positive capacity it
    wraps; with capacity 0 the reset test `capacity == offset` never holds
    after an increment, so the offset just counts.
   */
  function Wrapped(n: nat, capacity: nat): nat {
    if capacity == 0 then n else n % capacity
  }

  /** One more step moves the offset exactly as one more operation would. */
  lemma AdvanceWrapped(n: nat, capacity: nat)
    ensures Advance(Wrapped(n, capacity), capacity) == Wrapped(n + 1, capacity)
  {
    if capacity > 0 {
      var q, r := n / capacity, n % capacity;
      if r + 1 == capacity {
        ModUnique(n + 1, q + 1, 0, capacity);
      } else {
        ModUnique(n + 1, q, r + 1, capacity);
      }
    }
  }

  lemma MulAtLeast(k: int, c: int)
    requires k >= 1 && c > 0
    ensures k * c >= c
  {
    assert k * c == (k - 1) * c + c;
  }

  /** The remainder is determined by any decomposition `a == q * c + r` with `0 <= r < c`. */
  lemma ModUnique(a: int, q: int, r: int, c: int)
    requires 0 < c && 0 <= r < c && a == q * c + r
    ensures a % c == r
  {
    var q', r' := a / c, a % c;
    assert a == q' * c + r';
    assert (q - q') * c == r' - r;
    if q - q' >= 1 {
      MulAtLeast(q - q', c);
    } else if q' - q >= 1 {
      MulAtLeast(q' - q, c);
    }
  }

  class RingBuffer {
    /** The entries waiting, head first. */
    var buffer: seq<LogEntry>
    const capacity: nat
    var size: int
    var readOffset: nat
    var writeOffset: nat

    /** Every entry ever enqueued, and every entry ever dequeued, in order. */
    ghost var enqueued: seq<LogEntry>
    ghost var delivered: seq<LogEntry>

    ghost predicate Valid()
      reads this
    {
      && size == |buffer|
      && enqueued == delivered + buffer
      && writeOffset == Wrapped(|enqueued|, capacity)
      && readOffset == Wrapped(|delivered|, capacity)
    }

    /** A fresh, empty queue (`NewRingBuffer`). */
    constructor (capacity: nat)
      ensures Valid()
      ensures this.capacity == capacity
      ensures buffer == [] && size == 0 && readOffset == 0 && writeOffset == 0
      ensures enqueued == [] && delivered == []
    {
      this.capacity := capacity;
      buffer, size := [], 0;
      readOffset, writeOffset := 0, 0;
      enqueued, delivered := [], [];
    }

    /** The flush trigger: the number of waiting entries equals the capacity. */
    predicate IsFull()
      reads this
      requires Valid()
      ensures IsFull() <==> |buffer| == capacity
    {
      size == capacity
    }

    /** Appends `item` at the tail; never rejects, whatever the capacity. */
    method Enqueue(item: LogEntry)
      requires Valid()
      modifies this
      ensures Valid()
      ensures buffer == old(buffer) + [item]
      ensures size == old(size) + 1
      ensures enqueued == old(enqueued) + [item] && delivered == old(delivered)
      ensures writeOffset == Advance(old(writeOffset), capacity)
      ensures readOffset == old(readOffset)
    {
      buffer := buffer + [item];
      size := size + 1;
      AdvanceWrapped(|enqueued|, capacity);
      writeOffset := writeOffset + 1;
      if capacity == writeOffset {
        writeOffset := 0;
      }
      enqueued := enqueued + [item];
    }

    /** Removes and returns the head; `None` on an empty queue, which it leaves as it was. */
    method Dequeue() returns (item: Option<LogEntry>)
      requires Valid()
      modifies this
      ensures Valid()
      ensures old(size) == 0 ==> item == None && unchanged(this)
      ensures old(size) != 0 ==>
        && item == Some(old(buffer)[0])
        && buffer == old(buffer)[1..]
        && size == old(size) - 1
        && delivered == old(delivered) + [old(buffer)[0]]
        && enqueued == old(enqueued)
        && readOffset == Advance(old(readOffset), capacity)
        && writeOffset == old(writeOffset)
    {
      if size == 0 {
        return None;
      }
      item := Some(buffer[0]);
      delivered := delivered + [buffer[0]];
      buffer := buffer[1..];
      size := size - 1;
      AdvanceWrapped(|delivered| - 1, capacity);
      readOffset := readOffset + 1;
      if capacity == readOffset {
        readOffset := 0;
      }
    }
  }

  /**
    Entries enqueued one after the other and then dequeued as many times come
    back in the order they went in, whatever the capacity.
   */
  method FifoRoundTrip(capacity: nat, items: seq<LogEntry>) returns (out: seq<LogEntry>)
    ensures out == items
  {
    var b := new RingBuffer(capacity);
    for i := 0 to |items|
      invariant b.Valid()
      invariant b.buffer == items[..i] && b.delivered == []
    {
      b.Enqueue(items[i]);
    }
    out := [];
    for i := 0 to |items|
      invariant b.Valid()
      invariant out == items[..i] && b.buffer == items[i..]
    {
      var item := b.Dequeue();
      out := out + [item.value];
    }
  }

  /** After `|items|` enqueues the size is `|items|`, even past the capacity. */
  method SizeAfterEnqueues(capacity: nat, items: seq<LogEntry>) returns (size: int)
    ensures size == |items|
  {
    var b := new RingBuffer(capacity);
    for i := 0 to |items|
      invariant b.Valid() && b.size == i
    {
      b.Enqueue(items[i]);
    }
    size := b.size;
  }

  /**
    After `|items|` enqueues and `pops` dequeues the size is what is left;
    dequeues past the end find an empty queue and change nothing.
   */
  method SizeAfterDequeues(capacity: nat, items: seq<LogEntry>, pops: nat) returns (size: int)
    ensures size == if pops <= |items| then |items| - pops else 0
  {
    var b := new RingBuffer(capacity);
    for i := 0 to |items|
      invariant b.Valid() && b.size == i
    {
      b.Enqueue(items[i]);
    }
    for i := 0 to pops
      invariant b.Valid()
      invariant b.size == if i <= |items| then |items| - i else 0
    {
      var _ := b.Dequeue();
    }
    size := b.size;
  }

  /**
    With a positive capacity each offset is the number of operations of its
    kind modulo the capacity, so it stays below the capacity.
   */
  lemma OffsetsInRange(b: RingBuffer)
    requires b.Valid() && b.capacity > 0
    ensures b.writeOffset == |b.enqueued| % b.capacity < b.capacity
    ensures b.readOffset == |b.delivered| % b.capacity < b.capacity
  {
  }
}
