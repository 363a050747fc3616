/**
 The ring buffer: a fixed array with head and tail indices and one slot kept free, as a bounded queue.
 */
module RingBuffer {
  datatype Outcome = Ok | NullPtr | Overflow | Underflow

  ghost predicate InRange(n: nat, head: nat, tail: nat) {
    if n == 0 then head == tail == 0 else head < n && tail < n
  }

  /** The elements from head round to tail. */
  ghost function Window<T>(d: seq<T>, head: nat, tail: nat): seq<T>
    requires InRange(|d|, head, tail)
  {
    if head <= tail then d[head..tail] else d[head..] + d[..tail]
  }

  function Next(i: nat, n: nat): nat
    requires n > 0
  {
    (i + 1) % n
  }

  lemma NextIs(i: nat, n: nat)
    requires i < n
    ensures Next(i, n) == if i + 1 == n then 0 else i + 1
  {}

  lemma WindowFull<T>(d: seq<T>, head: nat, tail: nat)
    requires |d| > 0 && InRange(|d|, head, tail)
    ensures Next(tail, |d|) == head <==> |Window(d, head, tail)| == |d| - 1
    ensures head == tail <==> Window(d, head, tail) == []
  {
    NextIs(tail, |d|);
  }

  lemma WindowPush<T>(d: seq<T>, head: nat, tail: nat, x: T)
    requires |d| > 0 && InRange(|d|, head, tail) && Next(tail, |d|) != head
    ensures InRange(|d|, head, Next(tail, |d|))
    ensures Window(d[tail := x], head, Next(tail, |d|)) == Window(d, head, tail) + [x]
  {
    NextIs(tail, |d|);
    hide Next;
    var d', t := d[tail := x], Next(tail, |d|);
    if head <= tail {
      if t == 0 {
        assert d'[head..] + d'[..0] == d[head..tail] + [x];
      } else {
        assert d'[head..t] == d[head..tail] + [x];
      }
    } else {
      assert d'[head..] == d[head..];
      assert d'[..t] == d[..tail] + [x];
    }
  }

  lemma WindowPop<T>(d: seq<T>, head: nat, tail: nat)
    requires |d| > 0 && InRange(|d|, head, tail) && head != tail
    ensures InRange(|d|, Next(head, |d|), tail)
    ensures Window(d, head, tail) == [d[head]] + Window(d, Next(head, |d|), tail)
  {
    NextIs(head, |d|);
    hide Next;
    if head < tail {
      assert d[head..tail] == [d[head]] + d[head + 1..tail];
    } else if head + 1 == |d| {
      assert d[head..] == [d[head]] && d[..tail] == d[0..tail];
    } else {
      assert d[head..] == [d[head]] + d[head + 1..];
      assert ([d[head]] + d[head + 1..]) + d[..tail] == [d[head]] + (d[head + 1..] + d[..tail]);
    }
  }

  class RingBuffer<T(0)> {
    const data: array<T>
    var head: nat
    var tail: nat

    ghost predicate Valid()
      reads this
    {
      InRange(data.Length, head, tail)
    }

    /** The queued elements, oldest first. */
    ghost function Contents(): seq<T>
      requires Valid()
      reads this, data
    {
      Window(data[..], head, tail)
    }

    /** A capacity below two is rounded up; without memory for it the ring has no storage at all. */
    constructor (capacity: nat, granted: bool)
      ensures Valid() && Contents() == [] && fresh(data)
      ensures data.Length == if !granted then 0 else if capacity < 2 then 2 else capacity
    {
      data := new T[if !granted then 0 else if capacity < 2 then 2 else capacity];
      head, tail := 0, 0;
    }

    method Size() returns (n: nat)
      requires Valid()
      ensures n == |Contents()|
    {
      if data.Length == 0 { return 0; }
      n := if tail >= head then tail - head else data.Length - (head - tail);
    }

    predicate Empty()
      reads this
    {
      head == tail
    }

    predicate Full()
      reads this
    {
      data.Length != 0 && Next(tail, data.Length) == head
    }

    lemma Measures()
      requires Valid()
      ensures Empty() <==> Contents() == []
      ensures Full() <==> data.Length != 0 && |Contents()| == data.Length - 1
    {
      if data.Length != 0 { WindowFull(data[..], head, tail); }
    }

    /** One slot stays free, so a ring of capacity n holds n - 1 elements. */
    method Push(value: T) returns (r: Outcome)
      requires Valid()
      modifies this, data
      ensures Valid()
      ensures r == if data.Length == 0 then NullPtr else if |old(Contents())| == data.Length - 1 then Overflow else Ok
      ensures Contents() == if r == Ok then old(Contents()) + [value] else old(Contents())
    {
      Measures();
      hide Window, Next, InRange;
      if data.Length == 0 { return NullPtr; }
      if Full() { return Overflow; }
      WindowPush(data[..], head, tail, value);
      assert tail < data.Length by { Bounds(data.Length, head, tail); }
      data[tail] := value;
      assert data[..] == old(data[..])[tail := value];
      tail := Next(tail, data.Length);
      r := Ok;
    }

    method Pop() returns (r: Outcome)
      requires Valid()
      modifies this
      ensures Valid()
      ensures r == if old(Contents()) == [] then Underflow else Ok
      ensures old(Contents()) != [] ==> Contents() == old(Contents())[1..]
      ensures old(Contents()) == [] ==> Contents() == []
    {
      Measures();
      if Empty() { return Underflow; }
      assert head < data.Length;
      WindowPop(data[..], head, tail);
      hide Window, Next, InRange;
      head := Next(head, data.Length);
      Measures();
      if Empty() {
        head, tail := 0, 0;
        assert Valid() by { Bounds(data.Length, 0, 0); }
        Measures();
      }
      r := Ok;
    }

    method Front() returns (value: T)
      requires Valid() && Contents() != []
      ensures value == Contents()[0]
    {
      value := data[head];
    }
  }

  lemma Bounds(n: nat, head: nat, tail: nat)
    ensures InRange(n, head, tail) && n > 0 ==> head < n && tail < n
    ensures InRange(n, 0, 0)
  {}
}
