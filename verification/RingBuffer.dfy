// drivers/bluetooth/ringbuffer.hpp: a queue over a fixed array with head and tail positions.
module RingBuffers {
  import opened Rings

  class RingBuffer<T(0)> {
    const buf: array<T>
    var head: nat
    var tail: nat

    ghost predicate Valid()
      reads this
    {
      1 < buf.Length < 256 && head < buf.Length && tail < buf.Length
    }

    // The entries, oldest first.
    ghost function Items(): (s: seq<T>)
      requires Valid()
      reads this, buf
      ensures |s| < buf.Length
    {
      Contents(buf[..], tail, head)
    }

    constructor (size: nat)
      requires 1 < size < 256
      ensures Valid() && fresh(buf) && buf.Length == size && Items() == []
    {
      buf := new T[size];
      head, tail := 0, 0;
    }

    function NextPosition(position: nat): (p: nat)
      requires 1 < buf.Length && position < buf.Length
      ensures p == Slot(position, 1, buf.Length)
    {
      SlotIsMod(position, 1, buf.Length);
      (position + 1) % buf.Length
    }

    method Enqueue(item: T) returns (ok: bool)
      requires Valid()
      modifies this`head, buf
      ensures Valid()
      ensures ok <==> |old(Items())| < buf.Length - 1
      ensures Items() == if ok then old(Items()) + [item] else old(Items())
    {
      hide Contents;
      FullIff();
      var next := NextPosition(head);
      if next == tail {
        return false;
      }
      ContentsEnqueue(buf[..], tail, head, item);
      buf[head] := item;
      head := next;
      return true;
    }

    lemma FullIff()
      requires Valid()
      ensures Slot(head, 1, buf.Length) == tail <==> |Items()| == buf.Length - 1
    {
    }

    method Get(commit: bool) returns (ok: bool, dest: T)
      requires Valid()
      modifies this`tail
      ensures Valid()
      ensures ok <==> old(Items()) != []
      ensures ok ==> dest == old(Items())[0]
      ensures Items() == if ok && commit then old(Items())[1..] else old(Items())
    {
      hide Contents;
      dest := buf[tail];
      var t := tail;
      if t == head {
        return false, dest;
      }
      ContentsAt(buf[..], tail, head, 0);
      ContentsDequeue(buf[..], tail, head);
      dest := buf[t];
      t := NextPosition(t);
      if commit {
        tail := t;
      }
      return true, dest;
    }

    method Peek() returns (ok: bool, dest: T)
      requires Valid()
      ensures ok <==> Items() != []
      ensures ok ==> dest == Items()[0]
    {
      dest := buf[tail];
      ok := tail != head;
      if ok {
        ContentsAt(buf[..], tail, head, 0);
      }
    }

    method Empty() returns (e: bool)
      requires Valid()
      ensures e <==> Items() == []
    {
      e := head == tail;
    }

    method Size() returns (n: nat)
      requires Valid()
      ensures n == |Items()|
    {
      var diff := head - tail;
      if diff >= 0 {
        return diff;
      }
      return buf.Length + diff;
    }
  }
}
