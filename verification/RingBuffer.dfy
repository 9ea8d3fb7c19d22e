/** A bounded first-in first-out buffer in a fixed array, with wrap-around. */
module RingBuffer {
  import opened Wrappers

  /** The place of the i-th oldest element. */
  function Slot(head: nat, i: nat, max: nat): nat
    requires max > 0
  {
    (head + i) % max
  }

  lemma SlotWraps(head: nat, i: nat, max: nat)
    requires head < max && i <= max
    ensures Slot(head, i, max) == if head + i < max then head + i else head + i - max
  {}

  lemma NextSlot(head: nat, i: nat, max: nat)
    requires head < max && i < max
    ensures Slot(head, i, max) < max && (Slot(head, i, max) + 1) % max == Slot(head, i + 1, max)
  {
    hide Slot;
    var s := Slot(head, i, max);
    SlotWraps(head, i, max);
    SlotWraps(head, i + 1, max);
    SlotWraps(s, 1, max);
    SlotDef(s, 1, max);
  }

  lemma SlotDef(head: nat, i: nat, max: nat)
    requires max > 0
    ensures Slot(head, i, max) == (head + i) % max
  {}

  /** Distinct elements have distinct places. */
  lemma SlotsDistinct(head: nat, i: nat, j: nat, max: nat)
    requires head < max && i < j < max
    ensures Slot(head, i, max) != Slot(head, j, max)
  {
    SlotWraps(head, i, max);
    SlotWraps(head, j, max);
  }

  /** One more element popped into the output. */
  lemma Replace<T>(before: seq<T>, was: seq<T>, p: nat)
    requires p < |before| && p < |was|
    ensures (before[..p] + was[p..])[p := before[p]] == before[..p + 1] + was[p + 1..]
    ensures before[p..][0] == before[p] && before[p..][1..] == before[p + 1..]
  {}

  class CircularBuffer<T(0)> {
    const maxSize: nat
    var size: nat
    var head: nat
    var tail: nat
    const data: array<T>

    ghost predicate Valid()
      reads this
    {
      && data.Length == maxSize
      && size <= maxSize
      && (maxSize == 0 ==> head == 0 && tail == 0)
      && (maxSize > 0 ==> head < maxSize && tail == Slot(head, size, maxSize))
    }

    /** The elements in the buffer, oldest first. */
    ghost function Contents(): (s: seq<T>)
      reads this, data
      requires Valid()
      ensures |s| == size
    {
      seq(size, i requires 0 <= i < size reads this, data requires Valid() => data[Slot(head, i, maxSize)])
    }

    constructor (capacity: nat)
      ensures Valid() && fresh(data) && maxSize == capacity && Contents() == []
    {
      maxSize := capacity;
      size, head, tail := 0, 0, 0;
      data := new T[capacity];
    }

    /** Appends items until all are in or the buffer is full. */
    method Push(items: seq<T>, count: nat) returns (pushed: nat)
      requires Valid() && count <= |items|
      modifies this, data
      ensures Valid()
      ensures pushed == Min(count, maxSize - old(size))
      ensures Contents() == old(Contents()) + items[..pushed]
    {
      hide Slot;
      pushed := 0;
      var i := 0;
      while i < count && size != maxSize
        invariant 0 <= i == pushed <= count
        invariant Valid() && size == old(size) + pushed
        invariant Contents() == old(Contents()) + items[..pushed]
      {
        PushOne(items[i]);
        assert items[..pushed + 1] == items[..pushed] + [items[i]];
        pushed := pushed + 1;
        i := i + 1;
      }
    }

    /** One round of the push loop. */
    method PushOne(item: T)
      requires Valid() && size < maxSize
      modifies this, data
      ensures Valid() && size == old(size) + 1 && head == old(head)
      ensures Contents() == old(Contents()) + [item]
    {
      ghost var before := Contents();
      NextSlot(head, size, maxSize);
      forall i | 0 <= i < size
        ensures Slot(head, i, maxSize) != tail
      {
        SlotsDistinct(head, i, size, maxSize);
      }
      hide Slot;
      data[tail] := item;
      assert forall i :: 0 <= i < size ==> data[Slot(head, i, maxSize)] == before[i];
      tail := (tail + 1) % maxSize;
      size := size + 1;
      assert Contents() == before + [item];
    }

    /** Removes the oldest elements, up to count of them, into items. */
    method Pop(items: array<T>, count: nat) returns (popped: nat)
      requires Valid() && count <= items.Length && items != data
      modifies this, items
      ensures Valid()
      ensures popped == Min(count, old(size))
      ensures Contents() == old(Contents())[popped..]
      ensures items[..] == old(Contents())[..popped] + old(items[popped..])
    {
      hide Slot;
      popped := 0;
      ghost var before, was := Contents(), items[..];
      var i := 0;
      while i < count && size != 0
        invariant 0 <= i == popped <= count
        invariant Valid() && size == old(size) - popped
        invariant Contents() == before[popped..] && items.Length == |was|
        invariant items[..] == before[..popped] + was[popped..]
      {
        var item := PopOne();
        Replace(before, was, popped);
        items[i] := item;
        popped := popped + 1;
        i := i + 1;
      }
    }

    /** One round of the pop loop. */
    method PopOne() returns (item: T)
      requires Valid() && size > 0
      modifies this
      ensures Valid() && size == old(size) - 1
      ensures item == old(Contents())[0] && Contents() == old(Contents())[1..]
    {
      ghost var before := Contents();
      item := data[head];
      SlotWraps(head, 0, maxSize);
      SlotWraps(head, 1, maxSize);
      SlotWraps(head, size, maxSize);
      ghost var oldHead := head;
      head := (head + 1) % maxSize;
      size := size - 1;
      SlotWraps(head, size, maxSize);
      forall i | 0 <= i < size
        ensures Slot(head, i, maxSize) == Slot(oldHead, i + 1, maxSize)
      {
        SlotWraps(head, i, maxSize);
        SlotWraps(oldHead, i + 1, maxSize);
      }
      assert Contents() == before[1..];
    }
  }
}
