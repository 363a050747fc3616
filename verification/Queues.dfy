/**
 Queues of identifiers: no member twice, removal of a member, and the size of a subset.
 */
module Queues {
  ghost predicate Repeats(q: seq<nat>, i: nat, j: nat) {
    i < j < |q| && q[i] == q[j]
  }

  ghost predicate NoRepeat(q: seq<nat>) {
    forall i: nat, j: nat :: !Repeats(q, i, j)
  }

  lemma AppendNoRepeat(q: seq<nat>, x: nat)
    requires NoRepeat(q) && x !in q
    ensures NoRepeat(q + [x])
  {
    forall i: nat, j: nat ensures !Repeats(q + [x], i, j) { assert !Repeats(q, i, j); }
  }

  /** The queue without x. */
  function Without(q: seq<nat>, x: nat): seq<nat> {
    if q == [] then []
    else if q[|q| - 1] == x then Without(q[..|q| - 1], x)
    else Without(q[..|q| - 1], x) + [q[|q| - 1]]
  }

  lemma {:induction false} WithoutMembers(q: seq<nat>, x: nat)
    ensures forall y: nat :: y in Without(q, x) <==> y in q && y != x
  {
    if q != [] {
      WithoutMembers(q[..|q| - 1], x);
      assert q == q[..|q| - 1] + [q[|q| - 1]];
    }
  }

  lemma {:induction false} WithoutNoRepeat(q: seq<nat>, x: nat)
    requires NoRepeat(q)
    ensures NoRepeat(Without(q, x))
  {
    if q != [] {
      var init, last := q[..|q| - 1], q[|q| - 1];
      forall i: nat, j: nat ensures !Repeats(init, i, j) { assert !Repeats(q, i, j); }
      WithoutNoRepeat(init, x);
      WithoutMembers(init, x);
      forall k: nat | k < |init| ensures init[k] != last { assert !Repeats(q, k, |q| - 1); }
      if last != x { AppendNoRepeat(Without(init, x), last); }
    }
  }

  lemma {:induction false} WithoutAbsent(q: seq<nat>, x: nat)
    requires x !in q
    ensures Without(q, x) == q
  {
    if q != [] {
      WithoutAbsent(q[..|q| - 1], x);
      assert q == q[..|q| - 1] + [q[|q| - 1]];
    }
  }

  lemma {:induction false} WithoutSplit(a: seq<nat>, b: seq<nat>, x: nat)
    ensures Without(a + b, x) == Without(a, x) + Without(b, x)
  {
    if b == [] {
      assert a + b == a;
    } else {
      var init, last := b[..|b| - 1], b[|b| - 1];
      assert a + b == (a + init) + [last];
      assert (a + b)[..|a + b| - 1] == a + init;
      WithoutSplit(a, init, x);
    }
  }

  lemma Member<T>(s: set<T>) returns (x: T)
    requires s != {}
    ensures x in s
  {
    x :| x in s;
  }

  lemma {:induction false} SubsetSize<T>(a: set<T>, b: set<T>)
    requires a <= b
    ensures |a| <= |b| && (|a| == |b| ==> a == b)
  {
    assert b == a + (b - a);
    assert |b| == |a| + |b - a|;
  }

  lemma Outside<T>(a: set<T>, b: set<T>) returns (x: T)
    requires |a| < |b|
    ensures x in b && x !in a
  {
    if b - a == {} {
      forall y | y in b ensures y in a { assert y !in b - a; }
      SubsetSize(b, a);
    }
    x := Member(b - a);
  }
}
