/**
 The timer queue: ExpireActionQueue over its heap and slot arrays, and the TimeKeeper that keeps
 the hardware alarm set for the earliest deadline.
 */
module ExpireQueue {
  import opened ExpireHeap

  const MAX_DUE_ACTIONS: nat := 8

  datatype Pushed = Ok(handle: Handle) | OutOfMemory

  datatype Option<T> = None | Some(value: T)

  class ExpireActionQueue {
    const heap: array<nat>
    const slots: array<Slot>
    var heapSize: nat
    var freeHead: nat
    /** The free slots in chain order. */
    ghost var chain: seq<nat>
    /** One more than how often each slot has been retired. */
    ghost var age: seq<nat>

    ghost predicate Shaped(n: nat, gone: nat)
      reads heap, slots
    {
      heap.Length == slots.Length == MAX_ACTIONS && Indexed(heap[..], slots[..], n, gone)
    }

    ghost predicate Valid()
      reads this, heap, slots
    {
      && heap.Length == slots.Length == MAX_ACTIONS
      && Proper(heap[..], slots[..], heapSize)
      && Chained(slots[..], chain) && freeHead == Link(chain, 0) && heapSize + |chain| == MAX_ACTIONS
      && Aged(slots[..], age)
    }

    /** The map from live handles to actions that the queue stands for. */
    ghost function Actions(): map<Handle, Action>
      reads slots
    {
      Live(slots[..])
    }

    constructor ()
      ensures Valid() && Actions() == map[] && age == seq(MAX_ACTIONS, i => 1) && fresh(heap) && fresh(slots)
    {
      heap := new nat[MAX_ACTIONS](i => 0);
      slots := new Slot[MAX_ACTIONS](i => Slot(Action(0, 0, 0, 0), 0, INVALID_SLOT, 1, false));
      heapSize, freeHead := 0, 0;
      chain, age := seq(MAX_ACTIONS, i => i), seq(MAX_ACTIONS, i => 1);
      new;
      for i := 0 to MAX_ACTIONS
        invariant heap.Length == slots.Length == MAX_ACTIONS && heapSize == 0 && freeHead == 0
        invariant chain == seq(MAX_ACTIONS, i => i) && age == seq(MAX_ACTIONS, i => 1)
        invariant forall s :: 0 <= s < MAX_ACTIONS ==> !slots[s].active && slots[s].generation == 1
        invariant forall s :: 0 <= s < i ==> slots[s].nextFree == if s + 1 < MAX_ACTIONS then s + 1 else INVALID_SLOT
      {
        slots[i] := slots[i].(nextFree := if i + 1 < MAX_ACTIONS then i + 1 else INVALID_SLOT);
      }
      forall h ensures h !in Actions() { HandlesAre(slots[..], h); }
      forall k: nat ensures LinkOk(slots[..], chain, k) {}
      forall s: nat | s < MAX_ACTIONS ensures s in chain { assert chain[s] == s; }
    }

    method Empty() returns (r: bool)
      requires Valid()
      ensures r <==> Actions() == map[]
    {
      LiveCount(heap[..], slots[..], heapSize);
      r := heapSize == 0;
    }

    method Size() returns (n: nat)
      requires Valid()
      ensures n == |Actions()|
    {
      LiveCount(heap[..], slots[..], heapSize);
      n := heapSize;
    }

    predicate Later(l: nat, r: nat)
      requires l < slots.Length && r < slots.Length
      reads slots
    {
      slots[l].action.expireTime > slots[r].action.expireTime
    }

    method SwapHeapNodes(l: nat, r: nat, ghost gone: nat)
      requires Shaped(heapSize, gone) && l < heapSize && r < heapSize && l != r
      modifies heap, slots
      ensures Shaped(heapSize, gone) && OnlyIndices(old(slots[..]), slots[..])
      ensures Keys(heap[..], slots[..], heapSize) == Exchange(old(Keys(heap[..], slots[..], heapSize)), l, r)
    {
      SwapKeeps(heap[..], slots[..], heapSize, gone, l, r);
      var lslot, rslot := heap[l], heap[r];
      heap[l] := rslot;
      heap[r] := lslot;
      slots[rslot] := slots[rslot].(heapIndex := l);
      slots[lslot] := slots[lslot].(heapIndex := r);
      assert heap[..] == Exchange(old(heap[..]), l, r);
      assert slots[..] == SwappedSlots(old(heap[..]), old(slots[..]), l, r);
    }

    method ShiftUp(start: nat, ghost gone: nat)
      requires Shaped(heapSize, gone) && OrderedButUp(Keys(heap[..], slots[..], heapSize), start)
      modifies heap, slots
      ensures Shaped(heapSize, gone) && HeapOrdered(Keys(heap[..], slots[..], heapSize)) &&
              OnlyIndices(old(slots[..]), slots[..])
    {
      var index: nat := start;
      while index > 0
        invariant Shaped(heapSize, gone) && OrderedButUp(Keys(heap[..], slots[..], heapSize), index)
        invariant OnlyIndices(old(slots[..]), slots[..])
      {
        var parent: nat := (index - 1) / 2;
        if !Later(heap[parent], heap[index]) { break; }
        UpStep(Keys(heap[..], slots[..], heapSize), index);
        SwapHeapNodes(parent, index, gone);
        index := parent;
      }
      UpDone(Keys(heap[..], slots[..], heapSize), index);
    }

    method ShiftDown(start: nat, ghost gone: nat)
      requires Shaped(heapSize, gone) && OrderedButDown(Keys(heap[..], slots[..], heapSize), start)
      modifies heap, slots
      ensures Shaped(heapSize, gone) && HeapOrdered(Keys(heap[..], slots[..], heapSize)) &&
              OnlyIndices(old(slots[..]), slots[..])
    {
      var index := start;
      while true
        invariant Shaped(heapSize, gone) && OrderedButDown(Keys(heap[..], slots[..], heapSize), index)
        invariant OnlyIndices(old(slots[..]), slots[..])
        decreases heapSize - index
      {
        hide Indexed, OrderedButDown, HeapOrdered, OnlyIndices, Keys;
        ghost var ts, before := Keys(heap[..], slots[..], heapSize), slots[..];
        var smallest := SmallestOf(index, gone);
        if smallest == index {
          DownDone(ts, index);
          break;
        }
        DownStep(ts, index, smallest);
        SwapHeapNodes(index, smallest, gone);
        OnlyIndicesTrans(old(slots[..]), before, slots[..]);
        index := smallest;
      }
    }

    /** The earliest of a node and its children, the node itself on a tie. */
    method SmallestOf(index: nat, ghost gone: nat) returns (smallest: nat)
      requires Shaped(heapSize, gone) && index < heapSize
      ensures var ts := Keys(heap[..], slots[..], heapSize);
              if smallest == index then forall i: nat :: 0 < i < |ts| && Parent(i) == index ==> ts[index] <= ts[i]
              else Smallest(ts, index, smallest)
    {
      var left := index * 2 + 1;
      var right := left + 1;
      smallest := index;
      if left < heapSize && Later(heap[smallest], heap[left]) { smallest := left; }
      if right < heapSize && Later(heap[smallest], heap[right]) { smallest := right; }
      Children(index);
    }

    method RemoveAt(k: nat) returns (removed: Action, ghost h: Handle)
      requires Valid() && k < heapSize
      modifies this, heap, slots
      ensures Valid() && h == Handle(old(heap[k]), old(slots[heap[k]].generation)) && h in old(Actions())
      ensures removed == old(Actions())[h] && Actions() == old(Actions()) - {h}
      ensures age == old(age)[h.slot := old(age)[h.slot] + 1] && heapSize == old(heapSize) - 1
    {
      var s := heap[k];
      removed := slots[s].action;
      h := Handle(s, slots[s].generation);
      assert s < MAX_ACTIONS && slots[s].active && |age| == MAX_ACTIONS;
      hide Indexed, Chained, HeapOrdered, Aged, Live, Keys, OnlyIndices;
      Extract(k);
      hide Proper, Link;
      Release(s, old(slots[..]));
    }

    /** Put slot s, no longer in the heap, on the free chain; was are the slots before it left the heap. */
    method Release(s: nat, ghost was: seq<Slot>)
      requires Shaped(heapSize, s) && HeapOrdered(Keys(heap[..], slots[..], heapSize)) &&
               heapSize + |chain| + 1 == MAX_ACTIONS
      requires OnlyIndices(was, slots[..]) && s < MAX_ACTIONS == |was| && was[s].active
      requires Chained(was, chain) && freeHead == Link(chain, 0) && Aged(was, age)
      modifies `freeHead, `chain, `age, slots
      ensures Valid() && age == old(age)[s := old(age)[s] + 1]
      ensures var h := Handle(s, was[s].generation);
              h in Live(was) && Live(was)[h] == was[s].action && Actions() == Live(was) - {h}
    {
      assert slots[..][s].generation == was[s].generation;
      hide Indexed, Chained, HeapOrdered, Aged, Live, Keys, OnlyIndices, Proper;
      ghost var before := slots[..];
      slots[s] := Slot(slots[s].action, 0, freeHead, (slots[s].generation + 1) % GENERATIONS, false);
      freeHead := s;
      assert slots[..] == before[s := slots[s]];
      Retired(was, heap[..], before, heapSize, s, slots[s], chain, age);
      chain, age := [s] + chain, age[s := age[s] + 1];
    }

    /** Take position k out of the heap; its slot is then on its way out. */
    method Extract(k: nat)
      requires k < heapSize && heap.Length == slots.Length == MAX_ACTIONS && Proper(heap[..], slots[..], heapSize)
      modifies `heapSize, heap, slots
      ensures heapSize == old(heapSize) - 1 && Shaped(heapSize, old(heap[k])) &&
              HeapOrdered(Keys(heap[..], slots[..], heapSize))
      ensures OnlyIndices(old(slots[..]), slots[..])
    {
      heapSize := heapSize - 1;
      PrefixOrdered(Keys(heap[..], slots[..], heapSize + 1), heapSize);
      if k != heapSize {
        Refill(k);
      } else {
        DropLast(heap[..], slots[..], heapSize);
      }
    }

    /** Position k, whose slot is on its way out, takes the last entry; one sift repairs the order. */
    method Refill(k: nat)
      requires k < heapSize && heapSize < MAX_ACTIONS
      requires heap.Length == slots.Length == MAX_ACTIONS && Proper(heap[..], slots[..], heapSize + 1)
      modifies heap, slots
      ensures Shaped(heapSize, old(heap[k])) && HeapOrdered(Keys(heap[..], slots[..], heapSize)) &&
              OnlyIndices(old(slots[..]), slots[..])
    {
      ghost var ts := Keys(heap[..], slots[..], heapSize + 1);
      ghost var s := heap[k];
      PrefixOrdered(ts, heapSize);
      ReplaceKey(ts[..heapSize], k, ts[heapSize]);
      MoveLast(heap[..], slots[..], heapSize, k);
      heap[k] := heap[heapSize];
      slots[heap[k]] := slots[heap[k]].(heapIndex := k);
      assert heap[..] == old(heap[..])[k := old(heap[heapSize])];
      assert slots[..] == old(slots[..])[heap[k] := old(slots[heap[heapSize]]).(heapIndex := k)];
      ghost var middle := slots[..];
      if k > 0 && Later(heap[(k - 1) / 2], heap[k]) {
        ShiftUp(k, s);
      } else {
        ShiftDown(k, s);
      }
      OnlyIndicesTrans(old(slots[..]), middle, slots[..]);
    }

    method Push(action: Action) returns (r: Pushed)
      requires Valid()
      modifies this, heap, slots
      ensures Valid()
      ensures r.OutOfMemory? <==> |old(Actions())| == MAX_ACTIONS
      ensures r.OutOfMemory? ==> Actions() == old(Actions()) && age == old(age)
      ensures r.Ok? ==> r.handle !in old(Actions()) && Actions() == old(Actions())[r.handle := action]
      ensures r.Ok? ==>
              r.handle.slot < |age| && r.handle == Ticket(r.handle.slot, age[r.handle.slot]) && age == old(age)
    {
      hide Chained, HeapOrdered, OrderedButUp, Live, Keys, Aged, OnlyIndices;
      LiveCount(heap[..], slots[..], heapSize);
      if chain != [] { FreeSlot(slots[..], chain); }
      if freeHead == INVALID_SLOT || heapSize >= MAX_ACTIONS { return OutOfMemory; }
      var s := Occupy(action);
      ghost var middle := slots[..];
      ShiftUp(slots[s].heapIndex, INVALID_SLOT);
      Resettled(middle, slots[..], chain, age, s);
      r := Ok(Handle(s, slots[s].generation));
    }

    /** Take the first free slot and give it the next heap position. */
    method Occupy(action: Action) returns (s: nat)
      requires Valid() && chain != [] && heapSize < MAX_ACTIONS
      modifies this, heap, slots
      ensures heapSize == old(heapSize) + 1 && Shaped(heapSize, INVALID_SLOT) &&
              OrderedButUp(Keys(heap[..], slots[..], heapSize), heapSize - 1)
      ensures Chained(slots[..], chain) && freeHead == Link(chain, 0) && heapSize + |chain| == MAX_ACTIONS
      ensures Aged(slots[..], age) && age == old(age) && s < MAX_ACTIONS && slots[s].heapIndex == heapSize - 1
      ensures var h := Handle(s, slots[s].generation); h !in old(Actions()) && Actions() == old(Actions())[h := action]
    {
      FreeSlot(slots[..], chain);
      hide Indexed, Chained, HeapOrdered, OrderedButUp, Live, Keys, Aged;
      s := freeHead;
      freeHead := slots[s].nextFree;
      ghost var live := Slot(action, heapSize, slots[s].nextFree, slots[s].generation, true);
      Occupied(heap[..], slots[..], heapSize, s, live, chain, age);
      slots[s] := slots[s].(action := action, heapIndex := heapSize, active := true);
      heap[heapSize] := s;
      heapSize := heapSize + 1;
      chain := chain[1..];
      assert slots[..] == old(slots[..])[s := live];
      assert heap[..] == old(heap[..])[heapSize - 1 := s];
    }

    /** Cancels exactly the action of a live handle. */
    method Cancel(handle: Handle) returns (r: bool)
      requires Valid()
      modifies this, heap, slots
      ensures Valid() && (r <==> handle in old(Actions()))
      ensures Actions() == if r then old(Actions()) - {handle} else old(Actions())
      ensures age == if r then old(age)[handle.slot := old(age)[handle.slot] + 1] else old(age)
    {
      HandlesAre(slots[..], handle);
      if handle.slot == INVALID_SLOT || handle.slot >= MAX_ACTIONS { return false; }
      if !slots[handle.slot].active || slots[handle.slot].generation != handle.generation { return false; }
      var _, h := RemoveAt(slots[handle.slot].heapIndex);
      r := true;
    }

    /** The root of a nonempty queue is a live action, and no live action is earlier. */
    lemma Root()
      requires Valid()
      ensures heapSize == |Actions()|
      ensures heapSize > 0 ==> heap[0] < MAX_ACTIONS && Earliest(Actions(), slots[heap[0]].action)
      ensures heapSize > 0 ==> var h := Handle(heap[0], slots[heap[0]].generation);
              h in Actions() && Actions()[h] == slots[heap[0]].action
    {
      LiveCount(heap[..], slots[..], heapSize);
      if heapSize > 0 {
        HandlesAre(slots[..], Handle(heap[0], slots[heap[0]].generation));
        forall g | g in Actions() ensures slots[heap[0]].action.expireTime <= Actions()[g].expireTime {
          EarliestLive(heap[..], slots[..], heapSize, g);
        }
      }
    }

    method Peek() returns (r: Option<Action>)
      requires Valid()
      ensures r.None? <==> Actions() == map[]
      ensures r.Some? ==> exists h :: h in Actions() && Actions()[h] == r.value && Earliest(Actions(), r.value)
    {
      hide Proper, Chained, Aged, Live;
      Root();
      if heapSize == 0 { return None; }
      r := Some(slots[heap[0]].action);
    }

    /** Takes out due actions, earliest first, at most eight. */
    method PopDue(now: nat) returns (due: seq<Action>, ghost popped: seq<Handle>)
      requires Valid()
      modifies this, heap, slots
      ensures Valid() && Drained(old(Actions()), Actions(), due, popped, now)
      ensures |due| <= MAX_DUE_ACTIONS
      ensures |due| < MAX_DUE_ACTIONS ==> forall h :: h in Actions() ==> Actions()[h].expireTime > now
    {
      hide Proper, Chained, Aged, Live, Drained;
      due, popped := [], [];
      DrainNone(Actions(), now);
      while heapSize > 0 && |due| < MAX_DUE_ACTIONS
        invariant Valid() && Drained(old(Actions()), Actions(), due, popped, now) && |due| <= MAX_DUE_ACTIONS
        decreases heapSize
      {
        Root();
        if slots[heap[0]].action.expireTime > now { return; }
        ghost var before := Actions();
        var a, h := RemoveAt(0);
        DrainOne(old(Actions()), before, Actions(), due, popped, now, a, h);
        due, popped := due + [a], popped + [h];
      }
      Root();
    }
  }

  datatype Alarm = Alarm(setAt: nat, delta: nat)

  datatype Enqueued = Queued(handle: Handle) | RanAtOnce | Full | InvalidParam

  /** The alarm rings at the first deadline, or one nanosecond after it was set if that had passed. */
  ghost predicate RingsFor(alarm: Option<Alarm>, m: map<Handle, Action>) {
    forall h :: h in m && Earliest(m, m[h]) ==>
      alarm.Some? && alarm.value.setAt + alarm.value.delta == Max(m[h].expireTime, alarm.value.setAt + 1)
  }

  function Max(a: nat, b: nat): nat {
    if a < b then b else a
  }

  /** Two earliest actions expire together. */
  lemma EarliestAgree(m: map<Handle, Action>, g: Handle, a: Action)
    requires g in m && Earliest(m, m[g]) && Earliest(m, a) && exists h :: h in m && m[h] == a
    ensures m[g].expireTime == a.expireTime
  {
    var h :| h in m && m[h] == a;
  }

  class TimeKeeper {
    const queue: ExpireActionQueue
    /** Both a clock source and an alarm are present. */
    const ready: bool
    var alarm: Option<Alarm>

    ghost predicate Valid()
      reads this, queue, queue.heap, queue.slots
    {
      queue.Valid() && (ready ==> RingsFor(alarm, queue.Actions()))
    }

    constructor (ready: bool)
      ensures Valid() && queue.Actions() == map[] && this.ready == ready
      ensures fresh(queue) && fresh(queue.heap) && fresh(queue.slots)
    {
      queue := new ExpireActionQueue();
      this.ready, alarm := ready, None;
    }

    /** rearm_timer_locked */
    method Rearm(now: nat)
      requires queue.Valid()
      modifies `alarm
      ensures RingsFor(alarm, queue.Actions())
      ensures if queue.Actions() == map[] then alarm == old(alarm) else alarm.Some? && alarm.value.setAt == now
    {
      hide ExpireActionQueue.Valid;
      var next := queue.Peek();
      if next.None? { return; }
      alarm := Some(Alarm(now, if next.value.expireTime <= now then 1 else next.value.expireTime - now));
      forall h | h in queue.Actions() && Earliest(queue.Actions(), queue.Actions()[h])
        ensures queue.Actions()[h].expireTime == next.value.expireTime
      {
        EarliestAgree(queue.Actions(), h, next.value);
      }
    }

    /**
     An action already due runs at once; any other is queued, and the alarm is moved if the first deadline changed.
     */
    method Enqueue(action: Action, now: nat, later: nat) returns (r: Enqueued)
      requires Valid() && now <= later
      modifies this, queue, queue.heap, queue.slots
      ensures Valid()
      ensures r == InvalidParam <==> !ready
      ensures r == RanAtOnce <==> ready && action.expireTime <= now
      ensures r == Full <==> ready && action.expireTime > now && |old(queue.Actions())| == MAX_ACTIONS
      ensures r.Queued? ==>
              r.handle !in old(queue.Actions()) && queue.Actions() == old(queue.Actions())[r.handle := action]
      ensures !r.Queued? ==> queue.Actions() == old(queue.Actions()) && alarm == old(alarm)
      ensures alarm == old(alarm) || (alarm.Some? && alarm.value.setAt == later)
    {
      hide ExpireActionQueue.Valid, ExpireActionQueue.Actions;
      if !ready { return InvalidParam; }
      if action.expireTime <= now { return RanAtOnce; }
      var was := queue.Peek();
      ghost var m := queue.Actions();
      var pushed := queue.Push(action);
      if pushed.OutOfMemory? { return Full; }
      var root := queue.Peek();
      if was.None? || (root.Some? && root.value.expireTime != was.value.expireTime) {
        Rearm(later);
      } else {
        SameRoot(alarm, m, queue.Actions(), was.value, root);
      }
      r := Queued(pushed.handle);
    }

    method Cancel(handle: Handle, now: nat) returns (r: bool)
      requires Valid()
      modifies this, queue, queue.heap, queue.slots
      ensures Valid() && (r <==> ready && handle in old(queue.Actions()))
      ensures queue.Actions() == if r then old(queue.Actions()) - {handle} else old(queue.Actions())
      ensures alarm == old(alarm) || (alarm.Some? && alarm.value.setAt == now)
    {
      hide ExpireActionQueue.Valid, ExpireActionQueue.Actions;
      if !ready { return false; }
      r := queue.Cancel(handle);
      if r { Rearm(now); }
    }

    /** Takes out the due actions for the caller to run; an alarm that rang in time always yields one. */
    method OnTimerIrq(now: nat, later: nat) returns (due: seq<Action>, ghost popped: seq<Handle>)
      requires Valid() && now <= later
      modifies this, queue, queue.heap, queue.slots
      ensures Valid() && |due| <= MAX_DUE_ACTIONS
      ensures Drained(old(queue.Actions()), queue.Actions(), due, popped, now)
      ensures ready && |due| < MAX_DUE_ACTIONS ==> forall h :: h in queue.Actions() ==>
              queue.Actions()[h].expireTime > now
      ensures ready && old(queue.Actions()) != map[] && old(alarm).Some? ==>
                old(alarm.value.setAt + alarm.value.delta) <= now ==> |due| > 0
      ensures alarm == old(alarm) || (alarm.Some? && alarm.value.setAt == later)
    {
      hide ExpireActionQueue.Valid, ExpireActionQueue.Actions, Drained;
      if !ready {
        DrainNone(queue.Actions(), now);
        return [], [];
      }
      ghost var m := queue.Actions();
      var root := queue.Peek();
      due, popped := queue.PopDue(now);
      if due == [] { DrainedNothing(m, queue.Actions(), popped, now); }
      Rearm(later);
    }
  }

  lemma DrainedNothing(m: map<Handle, Action>, m': map<Handle, Action>, popped: seq<Handle>, now: nat)
    requires Drained(m, m', [], popped, now)
    ensures m' == m
  {}

  /** If the first deadline stays the same, so does what the alarm must do. */
  lemma SameRoot(alarm: Option<Alarm>, m: map<Handle, Action>, m': map<Handle, Action>, a: Action, b: Option<Action>)
    requires RingsFor(alarm, m) && Earliest(m, a) && (exists h :: h in m && m[h] == a)
    requires b.Some? ==>
             b.value.expireTime == a.expireTime && Earliest(m', b.value) && exists h :: h in m' && m'[h] == b.value
    requires b.None? ==> m' == map[]
    ensures RingsFor(alarm, m')
  {
    var g :| g in m && m[g] == a;
    forall h | h in m' && Earliest(m', m'[h]) ensures m'[h].expireTime == a.expireTime {
      EarliestAgree(m', h, b.value);
    }
  }

  // ---------- what the methods use ----------

  /** No action of m is earlier than a. */
  ghost predicate Earliest(m: map<Handle, Action>, a: Action) {
    forall h :: h in m ==> a.expireTime <= m[h].expireTime
  }

  /** m' is m without the popped handles; they were due, came out in time order, and none left is earlier. */
  ghost predicate Drained(m: map<Handle, Action>, m': map<Handle, Action>, due: seq<Action>, popped: seq<Handle>,
      now: nat) {
    && |popped| == |due|
    && (forall i :: 0 <= i < |due| ==>
        popped[i] in m && due[i] == m[popped[i]] && due[i].expireTime <= now && Earliest(m', due[i]))
    && (forall i, j :: 0 <= i < j < |due| ==> popped[i] != popped[j] && due[i].expireTime <= due[j].expireTime)
    && m' == m - (set i | 0 <= i < |popped| :: popped[i])
  }

  lemma DrainNone(m: map<Handle, Action>, now: nat)
    ensures Drained(m, m, [], [], now)
  {}

  lemma DrainOne(m: map<Handle, Action>, m1: map<Handle, Action>, m2: map<Handle, Action>, due: seq<Action>,
      popped: seq<Handle>, now: nat, a: Action, h: Handle)
    requires Drained(m, m1, due, popped, now) && h in m1 && a == m1[h] && a.expireTime <= now && Earliest(m1, a) &&
             m2 == m1 - {h}
    ensures Drained(m, m2, due + [a], popped + [h], now)
  {
    var popped' := popped + [h];
    assert forall i :: 0 <= i < |due| ==> Earliest(m1, due[i]) && popped[i] !in m1;
    assert (set i | 0 <= i < |popped'| :: popped'[i]) == (set i | 0 <= i < |popped| :: popped[i]) + {h} by {
      assert popped'[|popped|] == h;
      forall i | 0 <= i < |popped| ensures popped'[i] == popped[i] {}
    }
  }

  /** Every child of k is 2k+1 or 2k+2. */
  lemma Children(k: nat)
    ensures forall i: nat :: i > 0 ==> (Parent(i) == k <==> i == 2 * k + 1 || i == 2 * k + 2)
  {}

  lemma OnlyIndicesTrans(a: seq<Slot>, b: seq<Slot>, c: seq<Slot>)
    requires OnlyIndices(a, b) && OnlyIndices(b, c)
    ensures OnlyIndices(a, c)
  {}

  lemma FreeSlot(slots: seq<Slot>, chain: seq<nat>)
    requires Chained(slots, chain) && chain != []
    ensures chain[0] < |slots| && !slots[chain[0]].active
  {
    assert LinkOk(slots, chain, 0);
  }

  /** Moving heap positions changes nothing else. */
  lemma Resettled(a: seq<Slot>, b: seq<Slot>, chain: seq<nat>, age: seq<nat>, s: nat)
    requires OnlyIndices(a, b) && Chained(a, chain) && Aged(a, age) && s < |a|
    ensures Chained(b, chain) && Aged(b, age) && Live(a) == Live(b) &&
            b[s].generation == a[s].generation == age[s] % GENERATIONS
  {
    LiveSame(a, b);
    ChainedSame(a, b, chain);
  }

  lemma AgedRetire(slots: seq<Slot>, before: seq<Slot>, s: nat, dead: Slot, age: seq<nat>)
    requires Aged(slots, age) && OnlyIndices(slots, before) && s < |slots| == MAX_ACTIONS
    requires dead.generation == (slots[s].generation + 1) % GENERATIONS
    ensures |age| == MAX_ACTIONS && Aged(before[s := dead], age[s := age[s] + 1])
  {}

  /** Everything that holds once the slot on its way out is freed. */
  lemma Retired(slots: seq<Slot>, heap': seq<nat>, before: seq<Slot>, n: nat, s: nat, dead: Slot, chain: seq<nat>,
      age: seq<nat>)
    requires Indexed(heap', before, n, s) && HeapOrdered(Keys(heap', before, n)) && OnlyIndices(slots, before)
    requires s < MAX_ACTIONS && |slots| == MAX_ACTIONS && slots[s].active && Chained(slots, chain) && Aged(slots, age)
    requires !dead.active && dead.nextFree == Link(chain, 0) &&
             dead.generation == (slots[s].generation + 1) % GENERATIONS
    ensures var after := before[s := dead];
            && Proper(heap', after, n) && Chained(after, [s] + chain) && Aged(after, age[s := age[s] + 1])
            && Handle(s, slots[s].generation) in Live(slots) &&
                Live(slots)[Handle(s, slots[s].generation)] == slots[s].action
            && Live(after) == Live(slots) - {Handle(s, slots[s].generation)}
  {
    AgedRetire(slots, before, s, dead, age);
    assert before[s].active && before[s].action == slots[s].action && before[s].generation == slots[s].generation;
    hide Indexed, Chained, HeapOrdered, Keys, Aged;
    Retire(heap', before, n, s, dead);
    LiveSame(slots, before);
    LiveRemove(before, s, dead);
    ChainedSame(slots, before, chain);
    ChainPush(before, chain, s, dead);
  }

  /** Everything that holds once a free slot is taken and put at the end of the heap. */
  lemma Occupied(heap: seq<nat>, slots: seq<Slot>, n: nat, s: nat, live: Slot, chain: seq<nat>, age: seq<nat>)
    requires Proper(heap, slots, n) && n < MAX_ACTIONS && Chained(slots, chain) && Aged(slots, age)
    requires chain != [] && chain[0] == s < MAX_ACTIONS && !slots[s].active
    requires live.active && live.heapIndex == n && live.generation == slots[s].generation
    ensures var heap', after := heap[n := s], slots[s := live];
            && Indexed(heap', after, n + 1, INVALID_SLOT) && OrderedButUp(Keys(heap', after, n + 1), n)
            && Chained(after, chain[1..]) && Aged(after, age) && slots[s].nextFree == Link(chain[1..], 0)
            && Handle(s, live.generation) !in Live(slots) &&
                Live(after) == Live(slots)[Handle(s, live.generation) := live.action]
  {
    hide HeapOrdered, OrderedButUp;
    assert LinkOk(slots, chain, 0);
    Append(heap, slots, n, s, live);
    AppendKey(Keys(heap, slots, n), live.action.expireTime);
    ChainPop(slots, chain, live);
    LiveAdd(slots, s, live);
  }
}
