/** What the ring buffers have in common: one slot stays free, and the held elements run from the read position
    round to the write position. */
module Rings {

  /** The position after `i` in a ring of `size` slots. */
  function Next(i: nat, size: nat): (n: nat)
    requires size >= 2
    ensures n < size
  {
    (i + 1) % size
  }

  lemma NextIs(i: nat, size: nat)
    requires size >= 2 && i < size
    ensures Next(i, size) == if i + 1 == size then 0 else i + 1
  {
  }

  /** The elements held, oldest first. */
  function Held<T>(data: seq<T>, tail: nat, head: nat): seq<T>
    requires tail < |data| && head < |data|
  {
    if tail <= head then data[tail..head] else data[tail..] + data[..head]
  }

  /** Room for one more, and exactly `size - 1` in all. */
  lemma FullMeans<T>(data: seq<T>, tail: nat, head: nat)
    requires |data| >= 2 && tail < |data| && head < |data|
    ensures Next(head, |data|) == tail <==> |Held(data, tail, head)| == |data| - 1
    ensures head == tail <==> Held(data, tail, head) == []
    ensures |Held(data, tail, head)| < |data|
  {
    NextIs(head, |data|);
  }

  lemma Push<T>(data: seq<T>, tail: nat, head: nat, x: T)
    requires |data| >= 2 && tail < |data| && head < |data| && Next(head, |data|) != tail
    ensures Held(data[head := x], tail, Next(head, |data|)) == Held(data, tail, head) + [x]
  {
    NextIs(head, |data|);
  }

  /** Adding to a full ring drops the oldest element and no other. */
  lemma PushOver<T>(data: seq<T>, tail: nat, head: nat, x: T)
    requires |data| >= 2 && tail < |data| && head < |data| && Next(head, |data|) == tail
    ensures Held(data[head := x], Next(tail, |data|), Next(head, |data|)) == Held(data, tail, head)[1..] + [x]
  {
    NextIs(head, |data|);
    NextIs(tail, |data|);
  }

  lemma Pop<T>(data: seq<T>, tail: nat, head: nat)
    requires |data| >= 2 && tail < |data| && head < |data| && head != tail
    ensures Held(data, tail, head) == [data[tail]] + Held(data, Next(tail, |data|), head)
  {
    NextIs(tail, |data|);
  }

  /** The newest `n` of a history, or all of it. */
  function Newest<T>(history: seq<T>, n: nat): seq<T>
  {
    if |history| <= n then history else history[|history| - n..]
  }

  lemma NewestMore<T>(history: seq<T>, n: nat, x: T)
    requires n >= 1
    ensures Newest(history + [x], n)
         == if |Newest(history, n)| < n then Newest(history, n) + [x] else Newest(history, n)[1..] + [x]
  {
  }
}
