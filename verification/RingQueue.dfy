// RingQueue of src/base/ringqueue.h: a circular buffer whose full flag tells a
// full queue from an empty one. It refines a plain sequence.

module RingQueues {

  // The slot i places after tail.
  function Wrapped(tail: nat, i: nat, max: nat): (k: nat)
    requires tail < max && i < max
    ensures k < max
  {
    if tail + i < max then tail + i else tail + i - max
  }

  // (k + 1) % max for a slot k.
  lemma Advance(k: nat, max: nat)
    requires k < max
    ensures (k + 1) % max == if k + 1 < max then k + 1 else 0
  {
  }

  class RingQueue<T(0)> {
    const maxSize: nat
    const buf: array<T>
    var head: nat
    var tail: nat
    var isFull: bool
    ghost var contents: seq<T>

    ghost predicate Valid()
      reads this, buf
    {
      && 0 < maxSize == buf.Length && head < maxSize && tail < maxSize && |contents| <= maxSize
      && (isFull <==> |contents| == maxSize)
      && head == (if |contents| == maxSize then tail else Wrapped(tail, |contents|, maxSize))
      && forall i :: 0 <= i < |contents| ==> buf[Wrapped(tail, i, maxSize)] == contents[i]
    }

    constructor (size: nat)
      requires size > 0
      ensures Valid() && fresh(buf) && maxSize == size && contents == []
    {
      maxSize := size;
      buf := new T[size];
      head, tail, isFull, contents := 0, 0, false, [];
    }

    method Full() returns (b: bool)
      requires Valid()
      ensures b <==> |contents| == maxSize
    {
      b := isFull;
    }

    method Empty() returns (b: bool)
      requires Valid()
      ensures b <==> contents == []
    {
      b := !isFull && head == tail;
    }

    method Size() returns (size: nat)
      requires Valid()
      ensures size == |contents|
    {
      size := maxSize;
      if !isFull {
        size := if head >= tail then head - tail else maxSize + head - tail;
      }
    }

    // A put on a full queue drops everything that was queued; AddTask never
    // makes one.
    method Put(item: T)
      requires Valid()
      modifies this`head, this`isFull, this`contents, buf
      ensures Valid()
      ensures contents == if |old(contents)| < maxSize then old(contents) + [item] else [item]
    {
      Advance(head, maxSize);
      buf[head] := item;
      head := (head + 1) % maxSize;
      isFull := head == tail;
      contents := if |contents| < maxSize then contents + [item] else [item];
    }

    // ThreadProc pops only while the queue is not empty.
    method Pop() returns (val: T)
      requires Valid() && contents != []
      modifies this`tail, this`isFull, this`contents
      ensures Valid() && old(contents) == [val] + contents
    {
      Advance(tail, maxSize);
      val := buf[tail];
      isFull := false;
      tail := (tail + 1) % maxSize;
      contents := contents[1..];
    }
  }
}
