// The frame ring buffer as an object. Its methods are the ring's calls run
// without interruption; SpscRing says what survives interleaving.
module FrameRingBuffer {
  import opened Wrappers
  import opened SpscRing

  class FrameRingBuffer<T> {
    const capacity: nat
    const buffer: array<T>
    var writeIndex: nat
    var readIndex: nat
    ghost var pushed: seq<T>
    ghost var popped: seq<T>

    // The ring this object stores, both threads at rest.
    ghost function View(): Ring<T>
      reads this, buffer
    {
      Ring(capacity, seq(buffer.Length, i requires 0 <= i < buffer.Length reads this, buffer => Full(buffer[i])),
           writeIndex, readIndex, PIdle, CIdle, pushed, popped, None)
    }

    ghost predicate Valid()
      reads this, buffer
    {
      buffer.Length == capacity && Inv(View())
    }

    ghost function Contents(): seq<T>
      requires Valid()
      reads this, buffer
    {
      Queue(View())
    }

    lemma Ledger()
      requires Valid()
      ensures pushed == popped + Contents() && |Contents()| <= capacity - 1
    {
    }

    // One slot more than asked for tells a full ring from an empty one.
    constructor (size: nat, blank: T)
      ensures Valid() && fresh(buffer) && Contents() == [] && capacity == size + 1
      ensures pushed == [] && popped == []
    {
      capacity := size + 1;
      buffer := new T[size + 1](_ => blank);
      writeIndex, readIndex := 0, 0;
      pushed, popped := [], [];
    }

    method Push(frame: T) returns (ok: bool)
      requires Valid()
      modifies this, buffer
      ensures Valid() && View() == PushAlone(old(View()), frame)
      ensures if ok then |old(Contents())| < capacity - 1 else |old(Contents())| == capacity - 1
      ensures Contents() == if ok then old(Contents()) + [frame] else old(Contents())
      ensures pushed == if ok then old(pushed) + [frame] else old(pushed)
      ensures popped == old(popped)
    {
      ghost var before := View();
      PushAloneIsPush(before, frame);
      Successor(capacity, writeIndex);
      var next := (writeIndex + 1) % capacity;
      if next == readIndex {
        return false;
      }
      buffer[writeIndex] := frame;
      writeIndex := next;
      pushed := pushed + [frame];
      assert View().slots == PushAlone(before, frame).slots;
      return true;
    }

    method Peek() returns (frame: Option<T>)
      requires Valid()
      ensures frame == if Contents() == [] then None else Some(Contents()[0])
    {
      ghost var s := View();
      if readIndex == writeIndex {
        return None;
      }
      assert s.slots[Idx(s.capacity, s.read, 0)] == Full(s.pushed[|s.popped| + 0]);
      return Some(buffer[readIndex]);
    }

    method Pop() returns (frame: Option<T>)
      requires Valid()
      modifies this
      ensures Valid() && View() == PopAlone(old(View()))
      ensures frame == if old(Contents()) == [] then None else Some(old(Contents())[0])
      ensures Contents() == if frame.None? then [] else old(Contents())[1..]
      ensures pushed == old(pushed)
      ensures popped == old(popped) + if frame.None? then [] else [frame.value]
    {
      hide SpscRing.Apply, Inv;
      ghost var s := View();
      InRange(s);
      PopAloneIsPop(s);
      PopAloneMemory(s);
      if readIndex == writeIndex {
        return None;
      }
      HeadIsFull(s);
      frame := Some(buffer[readIndex]);
      readIndex := (readIndex + 1) % capacity;
      popped := popped + [frame.value];
      assert View().slots == s.slots;
    }

    method Size() returns (n: int)
      requires Valid()
      ensures n == |Contents()|
    {
      SizeAtRest(View());
      if writeIndex >= readIndex {
        return writeIndex - readIndex;
      }
      return capacity - (readIndex - writeIndex);
    }

    method IsEmpty() returns (empty: bool)
      requires Valid()
      ensures empty <==> Contents() == []
    {
      return readIndex == writeIndex;
    }

    method IsFull() returns (full: bool)
      requires Valid()
      ensures full <==> |Contents()| == capacity - 1
    {
      Successor(capacity, writeIndex);
      return (writeIndex + 1) % capacity == readIndex;
    }

    method Clear()
      requires Valid()
      modifies this
      ensures Valid() && Contents() == []
    {
      writeIndex, readIndex := 0, 0;
      pushed, popped := [], [];
    }
  }
}
