/**
 * The blocking bounded queue: a fixed ring buffer with a read index `head`,
 * a write index `tail` and an element `count`. Each blocking wait on a
 * condition variable becomes the precondition that the awaited condition
 * already holds.
 */
module BoundedBuffer {

  /** A remainder below twice the modulus is at most one wrap-around. */
  lemma Wrap(x: nat, cap: nat)
    requires 0 < cap && x < 2 * cap
    ensures x % cap == if x < cap then x else x - cap
  {
  }

  /** Reducing the first summand first does not change the sum's remainder. */
  lemma ModAdd(a: nat, b: nat, cap: nat)
    requires 0 < cap && a + b < 2 * cap
    ensures (a % cap + b) % cap == (a + b) % cap
  {
    Wrap(a, cap);
    Wrap(a + b, cap);
    Wrap(a % cap + b, cap);
  }

  /** Two offsets from the same start, both below the modulus, land on different slots. */
  lemma RingDistinct(head: nat, i: nat, j: nat, cap: nat)
    requires head < cap && i < j < cap
    ensures (head + i) % cap != (head + j) % cap
  {
    Wrap(head + i, cap);
    Wrap(head + j, cap);
  }

  /**
   * The queue's contents, oldest first: the `count` slots of `buf` starting
   * at `head` and wrapping around at the end of the buffer.
   */
  ghost function Ring<T>(buf: seq<T>, head: nat, count: nat): (r: seq<T>)
    requires count <= |buf| && (|buf| > 0 ==> head < |buf|)
    ensures |r| == count
  {
    seq(count, i requires 0 <= i < count => buf[(head + i) % |buf|])
  }

  /**
   * Writing an item into the first free slot appends it to the contents and
   * leaves every queued item where it was.
   */
  lemma RingPush<T>(buf: seq<T>, head: nat, count: nat, item: T)
    requires head < |buf| && count < |buf|
    ensures Ring(buf[(head + count) % |buf| := item], head, count + 1) == Ring(buf, head, count) + [item]
  {
    var cap := |buf|;
    var slot := (head + count) % cap;
    var after := buf[slot := item];
    forall i | 0 <= i < count
      ensures Ring(after, head, count + 1)[i] == Ring(buf, head, count)[i]
    {
      RingDistinct(head, i, count, cap);
    }
  }

  /** Reading the slot at `head` and advancing `head` removes the oldest item. */
  lemma RingPop<T>(buf: seq<T>, head: nat, count: nat)
    requires head < |buf| && 0 < count <= |buf|
    ensures Ring(buf, head, count)[0] == buf[head]
    ensures Ring(buf, (head + 1) % |buf|, count - 1) == Ring(buf, head, count)[1..]
  {
    var cap := |buf|;
    assert head % cap == head;
    var before, after := Ring(buf, head, count), Ring(buf, (head + 1) % cap, count - 1);
    forall i | 0 <= i < |after|
      ensures after[i] == before[1..][i]
    {
      ShiftedSlot(head, i, cap);
      assert before[1..][i] == before[i + 1];
    }
    assert after == before[1..];
  }

  /** Offset `i` from the slot after `head` is offset `i + 1` from `head`. */
  lemma ShiftedSlot(head: nat, i: nat, cap: nat)
    requires head < cap && i + 1 < cap
    ensures ((head + 1) % cap + i) % cap == (head + (i + 1)) % cap
  {
    ModAdd(head + 1, i, cap);
  }

  /** Advancing `head` past one item keeps `tail` one past the newest item. */
  lemma PopIndices(head: nat, count: nat, tail: nat, cap: nat)
    requires head < cap && 0 < count <= cap && (head + count) % cap == tail
    ensures ((head + 1) % cap + (count - 1)) % cap == tail
  {
    ModAdd(head + 1, count - 1, cap);
  }

  /** Moving the oldest queued item to the output history keeps the history equation. */
  lemma PopKeepsHistory<T>(enqueued: seq<T>, dequeued: seq<T>, buf: seq<T>, head: nat, count: nat)
    requires head < |buf| && 0 < count <= |buf|
    requires enqueued == dequeued + Ring(buf, head, count)
    ensures Ring(buf, head, count)[0] == buf[head]
    ensures Ring(buf, (head + 1) % |buf|, count - 1) == Ring(buf, head, count)[1..]
    ensures enqueued == (dequeued + [buf[head]]) + Ring(buf, (head + 1) % |buf|, count - 1)
  {
    var before := Ring(buf, head, count);
    RingPop(buf, head, count);
    assert before == [buf[head]] + before[1..];
  }

  /**
   * `BlockingBoundedQueue<T>`. The buffer is a vector of `capacity`
   * default-constructed items; `enqueued` and `dequeued` record, for the
   * proof only, every item that went in and came out.
   */
  class Queue<T(0)> {
    const buffer: array<T>
    const capacity: nat
    var head: nat
    var tail: nat
    var count: nat
    ghost var enqueued: seq<T>
    ghost var dequeued: seq<T>

    ghost predicate Shaped()
      reads this
    {
      buffer.Length == capacity && count <= capacity && (capacity > 0 ==> head < capacity)
    }

    /** The items waiting in the buffer, oldest first. */
    ghost function Contents(): seq<T>
      reads this, buffer
      requires Shaped()
    {
      Ring(buffer[..], head, count)
    }

    /**
     * The ring invariant: indices in range, `tail` one past the newest item,
     * and what is queued is exactly what went in and has not come out (so
     * what came out is a prefix of what went in).
     */
    ghost predicate Valid()
      reads this, buffer
    {
      Shaped() &&
      (capacity > 0 ==> tail < capacity && (head + count) % capacity == tail) &&
      (capacity == 0 ==> head == 0 && tail == 0) &&
      enqueued == dequeued + Contents()
    }

    constructor (cap: nat)
      ensures Valid() && fresh(buffer)
      ensures capacity == cap && head == 0 && tail == 0 && count == 0
      ensures Contents() == [] && enqueued == [] && dequeued == []
    {
      buffer := new T[cap];
      capacity := cap;
      head, tail, count := 0, 0, 0;
      enqueued, dequeued := [], [];
    }

    /** `enqueue(item)`, once `count < capacity`. */
    method Enqueue(item: T)
      requires Valid() && count < capacity
      modifies buffer, this`tail, this`count, this`enqueued
      ensures Valid()
      ensures Contents() == old(Contents()) + [item]
      ensures buffer[old(tail)] == item
      ensures forall i :: 0 <= i < capacity && i != old(tail) ==> buffer[i] == old(buffer[i])
      ensures tail == (old(tail) + 1) % capacity && count == old(count) + 1 && head == old(head)
      ensures enqueued == old(enqueued) + [item] && dequeued == old(dequeued)
    {
      RingPush(buffer[..], head, count, item);
      buffer[tail] := item;
      ModAdd(head + count, 1, capacity);
      tail := (tail + 1) % capacity;
      count := count + 1;
      enqueued := enqueued + [item];
    }

    /** `dequeue()`, once `count > 0`: returns the oldest item. */
    method Dequeue() returns (item: T)
      requires Valid() && count > 0
      modifies this`head, this`count, this`dequeued
      ensures Valid()
      ensures item == old(Contents())[0] && item == old(buffer[head])
      ensures Contents() == old(Contents())[1..]
      ensures head == (old(head) + 1) % capacity && count == old(count) - 1 && tail == old(tail)
      ensures dequeued == old(dequeued) + [item] && enqueued == old(enqueued)
      ensures dequeued <= enqueued
    {
      ghost var slots := buffer[..];
      PopKeepsHistory(enqueued, dequeued, slots, head, count);
      PopIndices(head, count, tail, capacity);
      item := buffer[head];
      head := (head + 1) % capacity;
      count := count - 1;
      dequeued := dequeued + [item];
      assert buffer[..] == slots;
    }

    /** `size()`: the number of queued items. */
    method Size() returns (n: nat)
      requires Valid()
      ensures n == |Contents()|
    {
      n := count;
    }
  }
}
