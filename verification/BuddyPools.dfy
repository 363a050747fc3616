/**
 The descriptor pools of the buddy allocator: 512 slots each, the first four of which hold the
 pool header.  The bitmaps of all pools are laid end to end, so pool p owns bits 512p .. 512p+511.
 */
module BuddyPools {
  import Queues

  const POOL_SIZE: nat := 512
  const HEADER_BLOCKS: nat := 4
  const SLOTS: nat := POOL_SIZE - HEADER_BLOCKS

  /** The number of set bits among bits[lo .. lo+n]. */
  ghost function Ones(bits: seq<bool>, lo: nat, n: nat): nat
    requires lo + n <= |bits|
  {
    if n == 0 then 0 else Ones(bits, lo, n - 1) + (if bits[lo + n - 1] then 1 else 0)
  }

  lemma {:induction false} OnesSame(a: seq<bool>, b: seq<bool>, lo: nat, n: nat)
    requires lo + n <= |a| && lo + n <= |b| && forall i :: lo <= i < lo + n ==> a[i] == b[i]
    ensures Ones(a, lo, n) == Ones(b, lo, n)
  {
    if n > 0 { OnesSame(a, b, lo, n - 1); }
  }

  lemma {:induction false} OnesFlip(bits: seq<bool>, lo: nat, n: nat, i: nat)
    requires lo <= i < lo + n <= |bits|
    ensures Ones(bits[i := true], lo, n) == Ones(bits[i := false], lo, n) + 1
  {
    if i == lo + n - 1 {
      OnesSame(bits[i := true], bits[i := false], lo, n - 1);
    } else {
      OnesFlip(bits, lo, n - 1, i);
    }
  }

  lemma {:induction false} OnesBound(bits: seq<bool>, lo: nat, n: nat)
    requires lo + n <= |bits|
    ensures Ones(bits, lo, n) <= n
    ensures Ones(bits, lo, n) == n ==> forall i :: lo <= i < lo + n ==> bits[i]
  {
    if n > 0 { OnesBound(bits, lo, n - 1); }
  }

  lemma {:induction false} OnesFresh(bits: seq<bool>, lo: nat, n: nat)
    requires lo + n <= |bits| && forall i :: lo <= i < lo + n ==> (bits[i] <==> i < lo + HEADER_BLOCKS)
    ensures Ones(bits, lo, n) == if n < HEADER_BLOCKS then n else HEADER_BLOCKS
  {
    if n > 0 { OnesFresh(bits, lo, n - 1); }
  }

  /** used counts the set bits of each pool. */
  ghost predicate Tally(bits: seq<bool>, used: seq<nat>) {
    && |bits| == POOL_SIZE * |used|
    && forall p {:trigger used[p]} :: 0 <= p < |used| ==> used[p] == Ones(bits, POOL_SIZE * p, POOL_SIZE)
  }

  /** The set bits are the header slots and the slots handed out. */
  ghost predicate Marks(bits: seq<bool>, taken: set<int>) {
    && (forall i :: i in taken ==> 0 <= i < |bits| && HEADER_BLOCKS <= i % POOL_SIZE)
    && (forall i :: 0 <= i < |bits| ==> (bits[i] <==> i % POOL_SIZE < HEADER_BLOCKS || i in taken))
  }

  lemma TallySet(bits: seq<bool>, used: seq<nat>, i: nat, v: bool)
    requires Tally(bits, used) && i < |bits| && bits[i] != v
    ensures used[i / POOL_SIZE] > 0 || v
    ensures Tally(bits[i := v], used[i / POOL_SIZE := if v then used[i / POOL_SIZE] + 1 else used[i / POOL_SIZE] - 1])
  {
    var q := i / POOL_SIZE;
    OnesFlip(bits, POOL_SIZE * q, POOL_SIZE, i);
    assert bits == bits[i := !v];
    forall p | 0 <= p < |used| && p != q
      ensures Ones(bits[i := v], POOL_SIZE * p, POOL_SIZE) == Ones(bits, POOL_SIZE * p, POOL_SIZE)
    {
      OnesSame(bits[i := v], bits, POOL_SIZE * p, POOL_SIZE);
    }
  }

  lemma TallyExpand(bits: seq<bool>, used: seq<nat>, more: seq<bool>)
    requires Tally(bits, used) && |more| == POOL_SIZE
    requires forall i :: 0 <= i < POOL_SIZE ==> (more[i] <==> i < HEADER_BLOCKS)
    ensures Tally(bits + more, used + [HEADER_BLOCKS])
  {
    var bits' := bits + more;
    OnesFresh(bits', |bits|, POOL_SIZE);
    forall p | 0 <= p < |used| ensures Ones(bits', POOL_SIZE * p, POOL_SIZE) == Ones(bits, POOL_SIZE * p, POOL_SIZE) {
      OnesSame(bits', bits, POOL_SIZE * p, POOL_SIZE);
    }
  }

  lemma TallyShape(bits: seq<bool>, used: seq<nat>)
    requires Tally(bits, used)
    ensures |bits| == POOL_SIZE * |used|
  {}

  lemma FullPool(bits: seq<bool>, used: seq<nat>, p: nat)
    requires Tally(bits, used) && p < |used| && used[p] >= POOL_SIZE
    ensures forall i :: POOL_SIZE * p <= i < POOL_SIZE * p + POOL_SIZE ==> bits[i]
  {
    OnesBound(bits, POOL_SIZE * p, POOL_SIZE);
  }

  lemma MarksSet(bits: seq<bool>, taken: set<int>, i: nat)
    requires Marks(bits, taken) && i < |bits| && !bits[i]
    ensures i !in taken && Marks(bits[i := true], taken + {i})
  {}

  lemma MarksClear(bits: seq<bool>, taken: set<int>, i: int)
    requires Marks(bits, taken) && i in taken
    ensures 0 <= i < |bits| && bits[i] && Marks(bits[i := false], taken - {i})
  {}

  predicate InHeader(i: nat) {
    i % POOL_SIZE < HEADER_BLOCKS
  }

  /** The slots below n that are not part of a pool header. */
  ghost function Usable(n: nat): set<int> {
    set i: nat | i < n && !InHeader(i)
  }

  ghost function UsableBelow(n: nat): nat {
    n / POOL_SIZE * SLOTS + if InHeader(n) then 0 else n % POOL_SIZE - HEADER_BLOCKS
  }

  lemma UsableNext(n: nat)
    ensures UsableBelow(n + 1) == UsableBelow(n) + if InHeader(n) then 0 else 1
  {
    assert n == n / POOL_SIZE * POOL_SIZE + n % POOL_SIZE;
    if n % POOL_SIZE == POOL_SIZE - 1 {
      assert n + 1 == (n / POOL_SIZE + 1) * POOL_SIZE;
    }
  }

  lemma UsablePools(pools: nat)
    ensures UsableBelow(POOL_SIZE * pools) == SLOTS * pools && UsableBelow(0) == 0
  {}

  lemma {:induction false} UsableCount(n: nat)
    ensures |Usable(n)| == UsableBelow(n)
  {
    hide UsableBelow, InHeader;
    if n == 0 {
      UsablePools(0);
      assert Usable(0) == {};
    } else {
      UsableCount(n - 1);
      assert Usable(n) == Usable(n - 1) + (if InHeader(n - 1) then {} else {n - 1});
      UsableNext(n - 1);
    }
  }

  lemma MarksUsable(bits: seq<bool>, taken: set<int>)
    requires Marks(bits, taken)
    ensures taken <= Usable(|bits|)
    ensures forall i :: 0 <= i < |bits| ==> (!bits[i] <==> i in Usable(|bits|) - taken)
  {}

  /** A slot is left exactly if fewer slots are handed out than the pools have. */
  lemma SlotsLeft(bits: seq<bool>, taken: set<int>, pools: nat)
    requires Marks(bits, taken) && |bits| == POOL_SIZE * pools
    ensures |taken| <= SLOTS * pools
    ensures (exists i :: 0 <= i < |bits| && !bits[i]) <==> |taken| < SLOTS * pools
  {
    UsableCount(|bits|);
    UsablePools(pools);
    MarksUsable(bits, taken);
    assert forall i :: i in Usable(|bits|) ==> 0 <= i < |bits|;
    hide Usable, UsableBelow, Marks;
    Queues.SubsetSize(taken, Usable(|bits|));
    if |taken| < SLOTS * pools {
      var i := Queues.Outside(taken, Usable(|bits|));
      assert !bits[i];
    }
  }

  lemma MarksExpand(bits: seq<bool>, taken: set<int>, more: seq<bool>)
    requires Marks(bits, taken) && |bits| % POOL_SIZE == 0 && |more| == POOL_SIZE
    requires forall i :: 0 <= i < POOL_SIZE ==> (more[i] <==> i < HEADER_BLOCKS)
    ensures Marks(bits + more, taken)
  {
    forall i | |bits| <= i < |bits| + POOL_SIZE ensures i % POOL_SIZE == i - |bits| && i !in taken {}
  }
}
