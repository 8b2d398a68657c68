// The circular buffers of the firmware: an array of fixed size read from a tail position, with the
// position of the last entry wrapping around. `Window` is the sequence such a buffer stands for.
module Rings {

  // Position i places after t; what `(t + i) % size` computes (see SlotIsMod).
  function Slot(t: nat, i: nat, size: nat): (p: nat)
    requires t < size && i <= size
    ensures p < size
  {
    if t + i < size then t + i else t + i - size
  }

  lemma SlotIsMod(t: nat, i: nat, size: nat)
    requires t < size && i <= size
    ensures Slot(t, i, size) == (t + i) % size
  {
    ModOf(t + i, Slot(t, i, size), (t + i) / size, size);
  }

  lemma ModOf(a: nat, r: nat, q: nat, size: nat)
    requires r < size && q == a / size
    requires a == r || a == r + size
    ensures a % size == r
  {
    assert a == q * size + a % size;
    AtLeastTwice(q, size);
  }

  lemma AtLeastTwice(q: nat, size: nat)
    ensures q >= 2 ==> q * size >= 2 * size
  {
  }

  // The n entries of b that start at position t and wrap around its end.
  function Window<T>(b: seq<T>, t: nat, n: nat): (w: seq<T>)
    requires t < |b| && n <= |b|
    ensures |w| == n
    ensures forall i :: 0 <= i < n ==> w[i] == b[Slot(t, i, |b|)]
  {
    if t + n <= |b| then b[t..t + n] else b[t..] + b[..t + n - |b|]
  }

  // Number of entries between tail and head.
  function Distance(tail: nat, head: nat, size: nat): (n: nat)
    requires tail < size && head < size
    ensures n < size && Slot(tail, n, size) == head
    ensures n == 0 <==> tail == head
  {
    if tail <= head then head - tail else head + size - tail
  }

  lemma WindowEnqueue<T>(b: seq<T>, t: nat, n: nat, x: T)
    requires t < |b| && n < |b|
    ensures Window(b[Slot(t, n, |b|) := x], t, n + 1) == Window(b, t, n) + [x]
  {
  }

  lemma WindowDequeue<T>(b: seq<T>, t: nat, n: nat)
    requires t < |b| && 0 < n <= |b|
    ensures Window(b, Slot(t, 1, |b|), n - 1) == Window(b, t, n)[1..]
  {
  }

  lemma WindowUpdate<T>(b: seq<T>, t: nat, n: nat, i: nat, x: T)
    requires t < |b| && i < n <= |b|
    ensures Window(b[Slot(t, i, |b|) := x], t, n) == Window(b, t, n)[i := x]
  {
  }

  // What the buffer holds, oldest entry first.
  function Contents<T>(b: seq<T>, tail: nat, head: nat): (w: seq<T>)
    requires tail < |b| && head < |b|
    ensures |w| == Distance(tail, head, |b|)
  {
    Window(b, tail, Distance(tail, head, |b|))
  }

  lemma ContentsEnqueue<T>(b: seq<T>, tail: nat, head: nat, x: T)
    requires tail < |b| && head < |b| && Slot(head, 1, |b|) != tail
    ensures Contents(b[head := x], tail, Slot(head, 1, |b|)) == Contents(b, tail, head) + [x]
  {
    hide Window;
    WindowEnqueue(b, tail, Distance(tail, head, |b|), x);
  }

  lemma ContentsDequeue<T>(b: seq<T>, tail: nat, head: nat)
    requires tail < |b| && head < |b| && tail != head
    ensures Contents(b, Slot(tail, 1, |b|), head) == Contents(b, tail, head)[1..]
  {
    hide Window;
    WindowDequeue(b, tail, Distance(tail, head, |b|));
  }

  lemma ContentsUpdate<T>(b: seq<T>, tail: nat, head: nat, i: nat, x: T)
    requires tail < |b| && head < |b| && i < Distance(tail, head, |b|)
    ensures Contents(b[Slot(tail, i, |b|) := x], tail, head) == Contents(b, tail, head)[i := x]
  {
    hide Window;
    WindowUpdate(b, tail, Distance(tail, head, |b|), i, x);
  }

  lemma ContentsAt<T>(b: seq<T>, tail: nat, head: nat, i: nat)
    requires tail < |b| && head < |b| && i < Distance(tail, head, |b|)
    ensures Contents(b, tail, head)[i] == b[Slot(tail, i, |b|)]
  {
  }
}
