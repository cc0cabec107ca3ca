/** The message queue of the platform layer: fixed-size items in a byte ring buffer. */
module Queue {
  import opened Bytes

  /** A ring position past the end starts again at 0. */
  function Wrap(i: nat, capacity: nat): (r: nat)
    requires i < 2 * capacity
    ensures r < capacity
  {
    if i < capacity then i else i - capacity
  }

  lemma NextPosition(i: nat, capacity: nat)
    requires i < capacity
    ensures (i + 1) % capacity == Wrap(i + 1, capacity)
  {
  }

  /** Where a slot begins in the buffer. */
  function Offset(slot: nat, size: nat): nat {
    slot * size
  }

  lemma {:induction false} SlotEnds(i: nat, j: nat, size: nat)
    requires i < j
    ensures Offset(i, size) + size <= Offset(j, size)
    decreases j
  {
    assert j * size == (j - 1) * size + size;
    if i < j - 1 {
      SlotEnds(i, j - 1, size);
    }
  }

  /** The bytes of one slot. */
  ghost predicate Holds(bytes: Bytes, slot: nat, item: Bytes) {
    Offset(slot, |item|) + |item| <= |bytes| && bytes[Offset(slot, |item|)..Offset(slot, |item|) + |item|] == item
  }

  lemma SliceOfPrefix(a: Bytes, b: Bytes, p: nat, from: nat, to: nat)
    requires from <= to <= p <= |a| && p <= |b| && a[..p] == b[..p]
    ensures a[from..to] == b[from..to]
  {
    forall k | from <= k < to ensures a[k] == b[k] {
      assert a[..p][k] == b[..p][k];
    }
  }

  lemma SliceOfSuffix(a: Bytes, b: Bytes, p: nat, from: nat, to: nat)
    requires p <= from <= to <= |a| && |a| == |b| && a[p..] == b[p..]
    ensures a[from..to] == b[from..to]
  {
    forall k | from <= k < to ensures a[k] == b[k] {
      assert a[p..][k - p] == b[p..][k - p];
    }
  }

  /** Writing one slot leaves every other slot alone. */
  lemma OtherSlots(a: Bytes, b: Bytes, slot: nat, other: nat, item: Bytes)
    requires |a| == |b| && slot != other && Holds(a, other, item) && Offset(slot, |item|) + |item| <= |a|
    requires a[..Offset(slot, |item|)] == b[..Offset(slot, |item|)]
    requires a[Offset(slot, |item|) + |item|..] == b[Offset(slot, |item|) + |item|..]
    ensures Holds(b, other, item)
  {
    hide Offset;
    var n := |item|;
    var at, from := Offset(slot, n), Offset(other, n);
    if other < slot {
      SlotEnds(other, slot, n);
      SliceOfPrefix(a, b, at, from, from + n);
    } else {
      SlotEnds(slot, other, n);
      SliceOfSuffix(a, b, at + n, from, from + n);
    }
  }

  /** The items stand in consecutive slots from head on. */
  ghost predicate Ring(bytes: Bytes, head: nat, capacity: nat, size: nat, items: seq<Bytes>) {
    && |items| <= capacity && (items != [] ==> head < capacity)
    && forall k :: 0 <= k < |items| ==> |items[k]| == size && Holds(bytes, Wrap(head + k, capacity), items[k])
  }

  lemma RingSent(before: Bytes, after: Bytes, head: nat, capacity: nat, items: seq<Bytes>, item: Bytes)
    requires Ring(before, head, capacity, |item|, items) && |items| < capacity && head < capacity
    requires |before| == |after| == Offset(capacity, |item|)
    requires var at := Offset(Wrap(head + |items|, capacity), |item|);
      && at + |item| <= |after| && before[..at] == after[..at] && before[at + |item|..] == after[at + |item|..]
      && after[at..at + |item|] == item
    ensures Ring(after, head, capacity, |item|, items + [item])
  {
    var slot := Wrap(head + |items|, capacity);
    forall k | 0 <= k < |items| ensures Holds(after, Wrap(head + k, capacity), items[k]) {
      OtherSlots(before, after, slot, Wrap(head + k, capacity), items[k]);
    }
  }

  lemma RingReceived(bytes: Bytes, head: nat, capacity: nat, size: nat, items: seq<Bytes>)
    requires Ring(bytes, head, capacity, size, items) && items != []
    ensures Ring(bytes, Wrap(head + 1, capacity), capacity, size, items[1..])
    ensures Offset(head, size) + size <= |bytes| && bytes[Offset(head, size)..Offset(head, size) + size] == items[0]
  {
    assert Wrap(head + 0, capacity) == head && Holds(bytes, head, items[0]);
    forall k | 0 <= k < |items| - 1
      ensures |items[1..][k]| == size && Holds(bytes, Wrap(Wrap(head + 1, capacity) + k, capacity), items[1..][k])
    {
      assert Wrap(Wrap(head + 1, capacity) + k, capacity) == Wrap(head + (k + 1), capacity);
      assert items[1..][k] == items[k + 1];
    }
  }

  lemma HeadMoves(head: nat, count: nat, capacity: nat)
    requires head < capacity && 0 < count <= capacity
    ensures Wrap(Wrap(head + 1, capacity) + (count - 1), capacity) == Wrap(head + count, capacity)
  {
  }

  lemma FirstMoves(sent: seq<Bytes>, received: seq<Bytes>, items: seq<Bytes>)
    requires sent == received + items && items != []
    ensures sent == (received + [items[0]]) + items[1..] && items == [items[0]] + items[1..]
  {
  }

  class Queue {
    const itemSize: nat
    const capacity: nat
    var head: nat
    var tail: nat
    var count: nat
    const buffer: array<byte>

    /** The items in the queue, oldest first, and everything ever sent and received. */
    ghost var Contents: seq<Bytes>
    ghost var Sent: seq<Bytes>
    ghost var Received: seq<Bytes>

    ghost predicate Valid()
      reads this, buffer
    {
      && buffer.Length == Offset(capacity, itemSize)
      && |Contents| == count <= capacity
      && (if capacity == 0 then head == tail == 0
          else head < capacity && tail < capacity && tail == Wrap(head + count, capacity))
      && Ring(buffer[..], head, capacity, itemSize, Contents)
      && Sent == Received + Contents
    }

    /** queue_create. */
    constructor (queueLength: nat, size: nat)
      ensures Valid() && fresh(buffer) && capacity == queueLength && itemSize == size
      ensures Contents == [] && Sent == [] && Received == []
    {
      itemSize, capacity := size, queueLength;
      head, tail, count := 0, 0, 0;
      buffer := new byte[Offset(queueLength, size)](_ => 0);
      Contents, Sent, Received := [], [], [];
    }

    /** memcpy into the buffer. */
    method CopyIn(at: nat, item: Bytes)
      requires at + |item| <= buffer.Length
      modifies buffer
      ensures buffer[..at] == old(buffer[..at]) && buffer[at + |item|..] == old(buffer[at + |item|..])
      ensures buffer[at..at + |item|] == item
    {
      for i := 0 to |item|
        invariant buffer[..at] == old(buffer[..at]) && buffer[at + |item|..] == old(buffer[at + |item|..])
        invariant forall k :: 0 <= k < i ==> buffer[at + k] == item[k]
      {
        buffer[at + i] := item[i];
      }
    }

    /** queue_send, in one critical section: a full queue makes the caller give up or wait for the next one. */
    method Send(item: Bytes) returns (ok: bool)
      requires Valid() && |item| == itemSize
      modifies this, buffer
      ensures Valid() && ok == (old(count) < capacity)
      ensures Contents == (if ok then old(Contents) + [item] else old(Contents))
      ensures Sent == (if ok then old(Sent) + [item] else old(Sent)) && Received == old(Received)
    {
      if count == capacity {
        return false;
      }
      hide Ring, Offset;
      ghost var before, items, at := buffer[..], Contents, Offset(tail, itemSize);
      SlotEnds(tail, capacity, itemSize);
      CopyIn(Offset(tail, itemSize), item);
      assert buffer[..][..at] == before[..at] && buffer[..][at + itemSize..] == before[at + itemSize..];
      assert buffer[..][at..at + itemSize] == item;
      RingSent(before, buffer[..], head, capacity, items, item);
      NextPosition(tail, capacity);
      tail := (tail + 1) % capacity;
      count := count + 1;
      Contents, Sent := Contents + [item], Sent + [item];
      ok := true;
    }

    /** queue_receive, in one critical section. */
    method Receive() returns (item: Option<Bytes>)
      requires Valid()
      modifies this
      ensures Valid() && item.None? == (old(count) == 0)
      ensures item.None? ==> Contents == old(Contents) && Sent == old(Sent) && Received == old(Received)
      ensures item.Some? ==> (
        && old(Contents) == [item.value] + Contents
        && Received == old(Received) + [item.value] && Sent == old(Sent))
    {
      if count == 0 {
        return None;
      }
      hide Ring, Offset;
      RingReceived(buffer[..], head, capacity, itemSize, Contents);
      NextPosition(head, capacity);
      HeadMoves(head, count, capacity);
      FirstMoves(Sent, Received, Contents);
      hide Wrap;
      var bytes := CopyOut(Offset(head, itemSize), itemSize);
      head := (head + 1) % capacity;
      count := count - 1;
      Received, Contents := Received + [Contents[0]], Contents[1..];
      item := Some(bytes);
    }

    /** memcpy out of the buffer. */
    method CopyOut(at: nat, n: nat) returns (bytes: Bytes)
      requires at + n <= buffer.Length
      ensures bytes == buffer[..][at..at + n]
    {
      bytes := buffer[at..at + n];
    }
  }
}
