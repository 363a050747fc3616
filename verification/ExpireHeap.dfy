/**
 The timer heap as values: a binary min-heap of slot numbers whose slots point back at their
 heap positions, a chain of free slots, and the map from live handles to actions it stands for.
 */
module ExpireHeap {
  import opened Queues

  const MAX_ACTIONS: nat := 32
  const INVALID_SLOT: nat := 0xFFFF
  const GENERATIONS: nat := 0x10000

  datatype Action = Action(expireTime: nat, kind: nat, arg0: nat, arg1: nat)

  datatype Slot = Slot(action: Action, heapIndex: nat, nextFree: nat, generation: nat, active: bool)

  datatype Handle = Handle(slot: nat, generation: nat)

  // ---------- heap order on the keys ----------

  function Parent(i: nat): nat
    requires i > 0
  {
    (i - 1) / 2
  }

  ghost predicate Below(ts: seq<nat>, i: nat) {
    0 < i < |ts| ==> ts[Parent(i)] <= ts[i]
  }

  ghost predicate HeapOrdered(ts: seq<nat>) {
    forall i: nat :: Below(ts, i)
  }

  /** The children of k are no earlier than the parent of k. */
  ghost predicate Bridged(ts: seq<nat>, k: nat) {
    forall i: nat :: 0 < i < |ts| && Parent(i) == k && k > 0 ==> ts[Parent(k)] <= ts[i]
  }

  /** Heap order except that k may be earlier than its parent. */
  ghost predicate OrderedButUp(ts: seq<nat>, k: nat) {
    k < |ts| && Bridged(ts, k) && forall i: nat :: i != k ==> Below(ts, i)
  }

  /** Heap order except that k may be later than its children. */
  ghost predicate OrderedButDown(ts: seq<nat>, k: nat) {
    k < |ts| && Bridged(ts, k) && forall i: nat :: i > 0 && Parent(i) != k ==> Below(ts, i)
  }

  function Exchange<T>(ts: seq<T>, i: nat, j: nat): seq<T>
    requires i < |ts| && j < |ts|
  {
    ts[i := ts[j]][j := ts[i]]
  }

  /** One round of shift_up. */
  lemma UpStep(ts: seq<nat>, k: nat)
    requires OrderedButUp(ts, k) && k > 0 && ts[Parent(k)] > ts[k]
    ensures OrderedButUp(Exchange(ts, Parent(k), k), Parent(k))
  {
    var p, ts' := Parent(k), Exchange(ts, Parent(k), k);
    forall i: nat | i != p ensures Below(ts', i) {
      if i != k { assert Below(ts, i); }
    }
    assert Below(ts, p);
    forall i: nat | 0 < i < |ts'| && Parent(i) == p && p > 0 ensures ts'[Parent(p)] <= ts'[i] {
      if i != k { assert Below(ts, i); }
    }
  }

  lemma UpDone(ts: seq<nat>, k: nat)
    requires OrderedButUp(ts, k) && (k > 0 ==> ts[Parent(k)] <= ts[k])
    ensures HeapOrdered(ts)
  {
    assert Below(ts, k);
  }

  /** c is a child of k, earlier than k and no later than the other child. */
  ghost predicate Smallest(ts: seq<nat>, k: nat, c: nat) {
    0 < c < |ts| && Parent(c) == k && ts[k] > ts[c] && forall i: nat :: 0 < i < |ts| && Parent(i) == k ==>
        ts[c] <= ts[i]
  }

  /** One round of shift_down. */
  lemma DownStep(ts: seq<nat>, k: nat, c: nat)
    requires OrderedButDown(ts, k) && Smallest(ts, k, c)
    ensures OrderedButDown(Exchange(ts, k, c), c)
  {
    var ts' := Exchange(ts, k, c);
    forall i: nat | i > 0 && Parent(i) != c ensures Below(ts', i) {
      if Parent(i) != k { assert Below(ts, i); }
    }
    forall i: nat | 0 < i < |ts'| && Parent(i) == c ensures ts'[Parent(c)] <= ts'[i] {
      assert Below(ts, i);
    }
  }

  lemma DownDone(ts: seq<nat>, k: nat)
    requires OrderedButDown(ts, k) && forall i: nat :: 0 < i < |ts| && Parent(i) == k ==> ts[k] <= ts[i]
    ensures HeapOrdered(ts)
  {
    forall i: nat ensures Below(ts, i) {
      if i > 0 && Parent(i) != k { assert Below(ts, i); }
    }
  }

  /** The root is the earliest. */
  lemma {:induction false} RootIsEarliest(ts: seq<nat>, i: nat)
    requires HeapOrdered(ts) && i < |ts|
    ensures ts[0] <= ts[i]
  {
    if i > 0 {
      assert Below(ts, i);
      RootIsEarliest(ts, Parent(i));
    }
  }

  /** Replacing key k in a heap leaves one direction to repair. */
  lemma ReplaceKey(ts: seq<nat>, k: nat, x: nat)
    requires HeapOrdered(ts) && k < |ts|
    ensures k > 0 && ts[Parent(k)] > x ==> OrderedButUp(ts[k := x], k)
    ensures !(k > 0 && ts[Parent(k)] > x) ==> OrderedButDown(ts[k := x], k)
  {
    var ts' := ts[k := x];
    forall i: nat | 0 < i < |ts| && Parent(i) == k && k > 0 ensures ts[Parent(k)] <= ts[i] {
      assert Below(ts, i) && Below(ts, k);
    }
    assert Bridged(ts', k);
    forall i: nat | i != k && ((k > 0 && ts[Parent(k)] > x) || (i > 0 && Parent(i) != k)) ensures Below(ts', i) {
      assert Below(ts, i);
    }
  }

  lemma PrefixOrdered(ts: seq<nat>, n: nat)
    requires HeapOrdered(ts) && n <= |ts|
    ensures HeapOrdered(ts[..n])
  {
    forall i: nat ensures Below(ts[..n], i) { assert Below(ts, i); }
  }

  /** A key appended to a heap can only be too early. */
  lemma AppendKey(ts: seq<nat>, x: nat)
    requires HeapOrdered(ts)
    ensures OrderedButUp(ts + [x], |ts|)
  {
    forall i: nat | i != |ts| ensures Below(ts + [x], i) { assert Below(ts, i); }
  }

  // ---------- heap positions and slots ----------

  ghost predicate InRange(heap: seq<nat>, slots: seq<Slot>, n: nat) {
    |heap| == |slots| == MAX_ACTIONS && n <= MAX_ACTIONS && forall i :: 0 <= i < n ==> heap[i] < MAX_ACTIONS
  }

  /** The expiry times in heap order. */
  ghost function Keys(heap: seq<nat>, slots: seq<Slot>, n: nat): (ts: seq<nat>)
    requires InRange(heap, slots, n)
    ensures |ts| == n
  {
    seq(n, i requires 0 <= i < n => slots[heap[i]].action.expireTime)
  }

  /** Heap positions and active slots point at each other; a slot on its way out is exempt. */
  ghost predicate Indexed(heap: seq<nat>, slots: seq<Slot>, n: nat, gone: nat) {
    && InRange(heap, slots, n)
    && (forall i :: 0 <= i < n ==> heap[i] != gone && slots[heap[i]].active && slots[heap[i]].heapIndex == i)
    && (forall s: nat :: s < MAX_ACTIONS && s != gone && slots[s].active ==>
        slots[s].heapIndex < n && heap[slots[s].heapIndex] == s)
  }

  ghost predicate Proper(heap: seq<nat>, slots: seq<Slot>, n: nat) {
    Indexed(heap, slots, n, INVALID_SLOT) && HeapOrdered(Keys(heap, slots, n))
  }

  /** Nothing but heap positions differs. */
  ghost predicate OnlyIndices(a: seq<Slot>, b: seq<Slot>) {
    |a| == |b| && forall s :: 0 <= s < |a| ==> b[s] == a[s].(heapIndex := b[s].heapIndex)
  }

  ghost function SwappedSlots(heap: seq<nat>, slots: seq<Slot>, i: nat, j: nat): seq<Slot>
    requires i < |heap| && j < |heap| && heap[i] < |slots| && heap[j] < |slots|
  {
    slots[heap[j] := slots[heap[j]].(heapIndex := i)][heap[i] := slots[heap[i]].(heapIndex := j)]
  }

  lemma SwapKeeps(heap: seq<nat>, slots: seq<Slot>, n: nat, gone: nat, i: nat, j: nat)
    requires Indexed(heap, slots, n, gone) && i < n && j < n && i != j
    ensures var heap', slots' := Exchange(heap, i, j), SwappedSlots(heap, slots, i, j);
            && Indexed(heap', slots', n, gone) && OnlyIndices(slots, slots')
            && Keys(heap', slots', n) == Exchange(Keys(heap, slots, n), i, j)
  {
    assert heap[i] != heap[j] by { assert slots[heap[i]].heapIndex == i && slots[heap[j]].heapIndex == j; }
  }

  /** Taking the last heap entry out to fill position k; slot heap[k] is on its way out. */
  lemma MoveLast(heap: seq<nat>, slots: seq<Slot>, n: nat, k: nat)
    requires Indexed(heap, slots, n + 1, INVALID_SLOT) && k < n
    ensures var heap', slots' := heap[k := heap[n]], slots[heap[n] := slots[heap[n]].(heapIndex := k)];
            && Indexed(heap', slots', n, heap[k]) && OnlyIndices(slots, slots')
            && Keys(heap', slots', n) == Keys(heap, slots, n + 1)[..n][k := Keys(heap, slots, n + 1)[n]]
  {
    assert heap[n] != heap[k] by { assert slots[heap[n]].heapIndex == n && slots[heap[k]].heapIndex == k; }
  }

  lemma DropLast(heap: seq<nat>, slots: seq<Slot>, n: nat)
    requires Indexed(heap, slots, n + 1, INVALID_SLOT)
    ensures Indexed(heap, slots, n, heap[n]) && Keys(heap, slots, n) == Keys(heap, slots, n + 1)[..n]
  {
    forall i | 0 <= i < n ensures heap[i] != heap[n] {
      assert slots[heap[i]].heapIndex == i && slots[heap[n]].heapIndex == n;
    }
  }

  /** Freeing the slot on its way out. */
  lemma Retire(heap: seq<nat>, slots: seq<Slot>, n: nat, gone: nat, dead: Slot)
    requires Indexed(heap, slots, n, gone) && gone < MAX_ACTIONS && !dead.active
    ensures Indexed(heap, slots[gone := dead], n, INVALID_SLOT)
    ensures Keys(heap, slots[gone := dead], n) == Keys(heap, slots, n)
  {}

  /** Giving a free slot the next heap position. */
  lemma Append(heap: seq<nat>, slots: seq<Slot>, n: nat, s: nat, live: Slot)
    requires Indexed(heap, slots, n, INVALID_SLOT) && n < MAX_ACTIONS && s < MAX_ACTIONS && !slots[s].active
    requires live.active && live.heapIndex == n
    ensures var heap', slots' := heap[n := s], slots[s := live];
            && Indexed(heap', slots', n + 1, INVALID_SLOT)
            && Keys(heap', slots', n + 1) == Keys(heap, slots, n) + [live.action.expireTime]
  {}

  // ---------- the chain of free slots ----------

  /** The slot at position k of the chain, or the end marker. */
  function Link(chain: seq<nat>, k: nat): nat {
    if k < |chain| then chain[k] else INVALID_SLOT
  }

  ghost predicate LinkOk(slots: seq<Slot>, chain: seq<nat>, k: nat) {
    k < |chain| ==> chain[k] < |slots| && !slots[chain[k]].active && slots[chain[k]].nextFree == Link(chain, k + 1)
  }

  /** The free chain runs through exactly the inactive slots, each once. */
  ghost predicate Chained(slots: seq<Slot>, chain: seq<nat>) {
    && (forall k: nat :: LinkOk(slots, chain, k))
    && NoRepeat(chain)
    && (forall s: nat :: s < |slots| && !slots[s].active ==> s in chain)
  }

  lemma ChainedSame(a: seq<Slot>, b: seq<Slot>, chain: seq<nat>)
    requires OnlyIndices(a, b) && Chained(a, chain)
    ensures Chained(b, chain)
  {
    forall k: nat ensures LinkOk(b, chain, k) { assert LinkOk(a, chain, k); }
  }

  lemma ChainPop(slots: seq<Slot>, chain: seq<nat>, live: Slot)
    requires Chained(slots, chain) && chain != [] && live.active
    ensures chain[0] < |slots| && Chained(slots[chain[0] := live], chain[1..])
  {
    assert LinkOk(slots, chain, 0);
    var rest, b := chain[1..], slots[chain[0] := live];
    forall k: nat ensures LinkOk(b, rest, k) {
      assert LinkOk(slots, chain, k + 1) && !Repeats(chain, 0, k + 1);
    }
    forall j: nat, k: nat ensures !Repeats(rest, j, k) { assert !Repeats(chain, j + 1, k + 1); }
    forall s: nat | s < |b| && !b[s].active ensures s in rest {
      var k :| 0 <= k < |chain| && chain[k] == s;
      assert rest[k - 1] == s;
    }
  }

  lemma ChainPush(slots: seq<Slot>, chain: seq<nat>, s: nat, dead: Slot)
    requires Chained(slots, chain) && s < |slots| && slots[s].active && !dead.active && dead.nextFree == Link(chain, 0)
    ensures Chained(slots[s := dead], [s] + chain)
  {
    var longer, b := [s] + chain, slots[s := dead];
    forall k: nat ensures LinkOk(b, longer, k) {
      if k > 0 { assert LinkOk(slots, chain, k - 1); }
    }
    forall j: nat, k: nat ensures !Repeats(longer, j, k) {
      if 0 < j < k { assert !Repeats(chain, j - 1, k - 1); }
      if 0 < k { assert LinkOk(slots, chain, k - 1); }
    }
    forall t: nat | t < |b| && !b[t].active ensures t in longer {}
  }

  // ---------- the map the queue stands for ----------

  ghost function Handles(slots: seq<Slot>): set<Handle> {
    set s: nat | s < |slots| && slots[s].active :: Handle(s, slots[s].generation)
  }

  ghost predicate IsLive(slots: seq<Slot>, h: Handle) {
    h.slot < |slots| && slots[h.slot].active && slots[h.slot].generation == h.generation
  }

  lemma HandlesAre(slots: seq<Slot>, h: Handle)
    ensures h in Handles(slots) <==> IsLive(slots, h)
  {}

  /** The live handles and their actions. */
  ghost function Live(slots: seq<Slot>): (m: map<Handle, Action>)
    ensures m.Keys == Handles(slots)
  {
    map h | h in Handles(slots) :: slots[h.slot].action
  }

  lemma LiveSame(a: seq<Slot>, b: seq<Slot>)
    requires OnlyIndices(a, b)
    ensures Live(a) == Live(b)
  {
    forall h ensures h in Handles(a) <==> h in Handles(b) { HandlesAre(a, h); HandlesAre(b, h); }
  }

  lemma LiveAdd(slots: seq<Slot>, s: nat, live: Slot)
    requires s < |slots| && !slots[s].active && live.active
    ensures Handle(s, live.generation) !in Live(slots)
    ensures Live(slots[s := live]) == Live(slots)[Handle(s, live.generation) := live.action]
  {
    var b := slots[s := live];
    forall h ensures h in Handles(b) <==> h in Handles(slots) || h == Handle(s, live.generation) {
      HandlesAre(slots, h);
      HandlesAre(b, h);
    }
  }

  lemma LiveRemove(slots: seq<Slot>, s: nat, dead: Slot)
    requires s < |slots| && slots[s].active && !dead.active
    ensures Handle(s, slots[s].generation) in Live(slots)
    ensures Live(slots[s := dead]) == Live(slots) - {Handle(s, slots[s].generation)}
  {
    var b := slots[s := dead];
    forall h ensures h in Handles(b) <==> h in Handles(slots) && h != Handle(s, slots[s].generation) {
      HandlesAre(slots, h);
      HandlesAre(b, h);
    }
  }

  ghost function FirstHandles(heap: seq<nat>, slots: seq<Slot>, n: nat): set<Handle>
    requires InRange(heap, slots, n)
  {
    set i: nat | i < n :: Handle(heap[i], slots[heap[i]].generation)
  }

  lemma NoOther(heap: seq<nat>, slots: seq<Slot>, n: nat, i: nat, j: nat)
    requires Indexed(heap, slots, n, INVALID_SLOT) && i < j < n
    ensures heap[i] != heap[j]
  {
    assert slots[heap[i]].heapIndex == i && slots[heap[j]].heapIndex == j;
  }

  lemma {:induction false} CountFirst(heap: seq<nat>, slots: seq<Slot>, n: nat, k: nat)
    requires InRange(heap, slots, n) && Indexed(heap, slots, n, INVALID_SLOT) && k <= n
    ensures |FirstHandles(heap, slots, k)| == k
  {
    hide Indexed;
    if k > 0 {
      CountFirst(heap, slots, n, k - 1);
      var h := Handle(heap[k - 1], slots[heap[k - 1]].generation);
      assert FirstHandles(heap, slots, k) == FirstHandles(heap, slots, k - 1) + {h};
      assert h !in FirstHandles(heap, slots, k - 1) by {
        forall i: nat | i < k - 1 ensures heap[i] != heap[k - 1] { NoOther(heap, slots, n, i, k - 1); }
      }
    }
  }

  /** There are as many live handles as heap entries. */
  lemma LiveCount(heap: seq<nat>, slots: seq<Slot>, n: nat)
    requires Indexed(heap, slots, n, INVALID_SLOT)
    ensures |Live(slots)| == n
  {
    CountFirst(heap, slots, n, n);
    forall h ensures h in FirstHandles(heap, slots, n) <==> h in Handles(slots) {
      HandlesAre(slots, h);
      if IsLive(slots, h) { assert heap[slots[h.slot].heapIndex] == h.slot; }
    }
    assert FirstHandles(heap, slots, n) == Live(slots).Keys;
  }

  /** The root carries the earliest live action. */
  lemma EarliestLive(heap: seq<nat>, slots: seq<Slot>, n: nat, h: Handle)
    requires Proper(heap, slots, n) && h in Live(slots)
    ensures n > 0 && slots[heap[0]].action.expireTime <= Live(slots)[h].expireTime
  {
    HandlesAre(slots, h);
    RootIsEarliest(Keys(heap, slots, n), slots[h.slot].heapIndex);
  }

  // ---------- stale handles ----------

  /** Each slot's generation is its number of retirements plus one, here its age, modulo 2^16. */
  ghost predicate Aged(slots: seq<Slot>, age: seq<nat>) {
    |age| == |slots| && forall s :: 0 <= s < |slots| ==> slots[s].generation == age[s] % GENERATIONS
  }

  /** The handle a slot gives out at age a. */
  function Ticket(s: nat, a: nat): Handle {
    Handle(s, a % GENERATIONS)
  }

  /** A handle is honoured exactly while its slot is in use and its retirement count agrees modulo 2^16. */
  lemma TicketHonoured(slots: seq<Slot>, age: seq<nat>, s: nat, a: nat)
    requires Aged(slots, age) && s < |slots| && a <= age[s]
    ensures Ticket(s, a) in Live(slots) <==> slots[s].active && (age[s] - a) % GENERATIONS == 0
  {
    HandlesAre(slots, Ticket(s, a));
  }

  /** So a stale handle is refused until its slot has been retired 65536 times. */
  lemma StaleRefused(slots: seq<Slot>, age: seq<nat>, s: nat, a: nat)
    requires Aged(slots, age) && s < |slots| && a < age[s] < a + GENERATIONS
    ensures Ticket(s, a) !in Live(slots)
  {
    TicketHonoured(slots, age, s, a);
  }
}
