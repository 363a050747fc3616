/**
 The buddy page allocator: blocks are split on allocation and merged on release, the unused tail
 of a rounded-up request is handed back, and the descriptors of free blocks come from pools that
 the allocator extends with frames of its own.
 */
module BuddyAllocator {
  import opened BuddyBlocks
  import opened BuddyLists
  import opened BuddyPools
  import Queues

  const EXPAND_PAGES: nat := 4
  const FEW: nat := 5

  /** OutOfMemory and InvalidParam are error returns; Halt is a failed kernel assertion. */
  datatype Outcome = Ok(frame: nat) | InvalidParam | OutOfMemory | Halt

  /** The frames of the expansion pools; pool 0 is static storage. */
  ghost function HeldBy(poolBase: seq<nat>): set<nat> {
    set p, x | 1 <= p < |poolBase| && x in Span(poolBase[p], EXPAND_PAGES) :: x
  }

  lemma HeldAppend(poolBase: seq<nat>, base: nat)
    requires |poolBase| >= 1
    ensures HeldBy(poolBase + [base]) == HeldBy(poolBase) + Span(base, EXPAND_PAGES)
  {
    hide Span;
    var pb := poolBase + [base];
    forall x ensures x in HeldBy(pb) <==> x in HeldBy(poolBase) + Span(base, EXPAND_PAGES) {
      if x in HeldBy(poolBase) {
        var p :| 1 <= p < |poolBase| && x in Span(poolBase[p], EXPAND_PAGES);
        assert x in Span(pb[p], EXPAND_PAGES);
      }
      if x in Span(base, EXPAND_PAGES) {
        assert x in Span(pb[|poolBase|], EXPAND_PAGES);
      }
    }
  }

  /** held are the frames of the expansion pools, and none of them is free. */
  ghost predicate HeldIs(held: set<nat>, poolBase: seq<nat>, free: set<nat>) {
    held == HeldBy(poolBase) && |held| == EXPAND_PAGES * (|poolBase| - 1) && held !! free
  }

  lemma HeldExpand(held: set<nat>, poolBase: seq<nat>, free: set<nat>, base: nat)
    requires HeldIs(held, poolBase, free) && |poolBase| >= 1 && Span(base, EXPAND_PAGES) !! free + held
    ensures HeldIs(held + Span(base, EXPAND_PAGES), poolBase + [base], free)
  {
    hide Span, HeldBy;
    HeldAppend(poolBase, base);
    SpanSize(base, EXPAND_PAGES);
  }

  /** Lists and pools agree; the slots in pending are handed out but not linked. */
  ghost predicate CoreOf(mem: seq<FreeBlock>, bitmap: seq<bool>, used: seq<nat>, pools: nat, heads: seq<int>,
                         linked: set<int>, pending: set<int>)
  {
    && |mem| == |bitmap| && |used| == pools >= 1
    && Links(mem, heads, linked)
    && pending !! linked
    && Marks(bitmap, linked + pending)
    && Tally(bitmap, used)
  }

  lemma CoreShape(mem: seq<FreeBlock>, bitmap: seq<bool>, used: seq<nat>, pools: nat, heads: seq<int>, linked: set<int>,
      pending: set<int>)
    requires CoreOf(mem, bitmap, used, pools, heads, linked, pending)
    ensures |mem| == |bitmap| && |used| == pools >= 1
  {}

  /** The last pool has a descriptor that is not in use. */
  ghost predicate TailFree(bitmap: seq<bool>) {
    && |bitmap| >= POOL_SIZE
    && exists j :: |bitmap| - POOL_SIZE + HEADER_BLOCKS <= j < |bitmap| && !bitmap[j]
  }

  lemma CoreExpand(mem: seq<FreeBlock>, bitmap: seq<bool>, used: seq<nat>, pools: nat, heads: seq<int>,
                   linked: set<int>, slots: seq<FreeBlock>, bits: seq<bool>)
    requires CoreOf(mem, bitmap, used, pools, heads, linked, {}) && |slots| == |bits| == POOL_SIZE
    requires forall i :: 0 <= i < POOL_SIZE ==> (bits[i] <==> i < HEADER_BLOCKS)
    ensures CoreOf(mem + slots, bitmap + bits, used + [HEADER_BLOCKS], pools + 1, heads, linked, {})
    ensures BlocksOf(mem + slots, linked) == BlocksOf(mem, linked)
    ensures TailFree(bitmap + bits)
  {
    assert !(bitmap + bits)[|bitmap| + HEADER_BLOCKS];
    hide Links, Marks, Tally, BlocksOf;
    TallyShape(bitmap, used);
    TallyExpand(bitmap, used, bits);
    MarksExpand(bitmap, linked + {}, bits);
    InPlace(mem, heads, linked);
    LinksAgree(mem, mem + slots, heads, linked);
    BlocksAgree(mem, mem + slots, linked);
  }

  ghost predicate Big(bs: set<Block>) {
    exists b :: b in bs && b.order >= 2
  }

  /** Descriptors for more blocks than one call can need, or a block to make them from. */
  ghost predicate Amply(bs: set<Block>, pools: nat) {
    Big(bs) || |bs| + FEW <= SLOTS * pools
  }

  /** Slot node was given back to its pool. */
  ghost predicate OneLess(before: seq<nat>, after: seq<nat>, node: int) {
    && 0 <= node && node / POOL_SIZE < |before| && before[node / POOL_SIZE] > 0
    && after == before[node / POOL_SIZE := before[node / POOL_SIZE] - 1]
  }

  lemma InvAligned(bs: set<Block>, b: Block)
    requires Inv(bs) && b in bs
    ensures Aligned(b.base, b.order)
  {
    hide Aligned;
  }

  // ---------- when a range cannot be put back ----------

  /** The blocks of these frames need all of n descriptors, and none of them could become a pool. */
  ghost predicate Fills(frames: set<nat>, n: nat) {
    exists bs :: Inv(bs) && Frames(bs) == frames && |bs| == n && !Big(bs)
  }

  lemma FillsIs(bs: set<Block>, n: nat)
    requires Inv(bs)
    ensures Fills(Frames(bs), n) <==> |bs| == n && !Big(bs)
  {
    hide Inv, Frames;
    forall cs | Inv(cs) && Frames(cs) == Frames(bs) ensures cs == bs { Canonical(cs, bs); }
  }

  /** add_memory_range cuts a block of order k off the run of remain frames at addr. */
  ghost predicate IsPiece(addr: nat, remain: nat, k: nat) {
    && k <= MAX_ORDER && Size(k) <= remain && Aligned(addr, k)
    && (k < MAX_ORDER ==> remain < Size(k + 1) || !Aligned(addr, k + 1))
  }

  function Rest(remain: nat, k: nat): nat {
    if Size(k) <= remain then remain - Size(k) else 0
  }

  lemma PieceFits(addr: nat, remain: nat, k: nat)
    requires IsPiece(addr, remain, k)
    ensures 0 < Size(k) <= remain && Rest(remain, k) == remain - Size(k) && k <= MAX_ORDER && Aligned(addr, k)
  {}

  /** The run is one block. */
  ghost predicate OnePiece(f: nat, pages: nat) {
    exists k :: IsPiece(f, pages, k) && Size(k) == pages
  }

  lemma WholePiece(f: nat, pages: nat, k: nat)
    requires OnePiece(f, pages) && IsPiece(f, pages, k)
    ensures Rest(pages, k) == 0
  {
    hide IsPiece, Size;
    var j :| IsPiece(f, pages, j) && Size(j) == pages;
    PieceUnique(f, pages, j, k);
  }

  ghost function LargestFrom(addr: nat, remain: nat, k: nat): (r: nat)
    requires k <= MAX_ORDER && Size(k) <= remain && Aligned(addr, k)
    ensures IsPiece(addr, remain, r)
    decreases MAX_ORDER - k
  {
    if k < MAX_ORDER && Size(k + 1) <= remain && Aligned(addr, k + 1) then LargestFrom(addr, remain, k + 1) else k
  }

  /** The order of the piece cut off next. */
  ghost function PieceOf(addr: nat, remain: nat): (k: nat)
    requires remain > 0
    ensures IsPiece(addr, remain, k) && Rest(remain, k) < remain
  {
    assert Size(0) == 1;
    LargestFrom(addr, remain, 0)
  }

  lemma PieceUnique(addr: nat, remain: nat, j: nat, k: nat)
    requires IsPiece(addr, remain, j) && IsPiece(addr, remain, k)
    ensures j == k
  {
    hide Size, Aligned;
    if j < k {
      SizeMonotone(j + 1, k);
      AlignedDown(addr, j + 1, k);
    }
    if k < j {
      SizeMonotone(k + 1, j);
      AlignedDown(addr, k + 1, j);
    }
  }

  /**
   Putting back the run of pages frames at f, cut into pieces, comes to a point where all n
   descriptors are in use and no free block could become a pool.
   */
  ghost predicate Overflows(frames: set<nat>, n: nat, f: nat, pages: nat)
    decreases pages
  {
    pages > 0 &&
      var k := PieceOf(f, pages);
      Fills(frames, n) || Overflows(frames + Span(f, Size(k)), n, f + Size(k), Rest(pages, k))
  }

  lemma {:induction false} OverflowUnfolds(frames: set<nat>, n: nat, f: nat, pages: nat, k: nat)
    requires pages > 0 && PieceOf(f, pages) == k
    ensures Overflows(frames, n, f, pages) <==>
            Fills(frames, n) || Overflows(frames + Span(f, Size(k)), n, f + Size(k), Rest(pages, k))
  {
    hide IsPiece, Fills, Span, Rest, Size, PieceOf;
  }

  lemma {:induction false} OverflowStep(frames: set<nat>, n: nat, f: nat, pages: nat, k: nat)
    requires IsPiece(f, pages, k)
    ensures Overflows(frames, n, f, pages) <==>
            Fills(frames, n) || Overflows(frames + Span(f, Size(k)), n, f + Size(k), Rest(pages, k))
  {
    hide IsPiece, Fills, Span, Rest, Size, PieceOf, Overflows;
    PieceFits(f, pages, k);
    PieceUnique(f, pages, PieceOf(f, pages), k);
    OverflowUnfolds(frames, n, f, pages, k);
  }

  lemma BigNeverFills(r: Block, frames: set<nat>, n: nat)
    requires 2 <= r.order <= MAX_ORDER && Aligned(r.base, r.order) && Cover(r) <= frames
    ensures !Fills(frames, n)
  {
    hide Aligned, Cover, Inv, Frames;
    forall bs | Inv(bs) && Frames(bs) == frames ensures Big(bs) { var b := Complete(bs, r); }
  }

  /** With a free block that could become a pool a range always fits. */
  lemma {:induction false} BigNeverOverflows(r: Block, frames: set<nat>, n: nat, f: nat, pages: nat)
    requires 2 <= r.order <= MAX_ORDER && Aligned(r.base, r.order) && Cover(r) <= frames
    ensures !Overflows(frames, n, f, pages)
    decreases pages
  {
    hide Aligned, Cover, Fills, IsPiece, Span, Rest, Size, PieceOf;
    BigNeverFills(r, frames, n);
    if pages > 0 {
      var k := PieceOf(f, pages);
      BigNeverOverflows(r, frames + Span(f, Size(k)), n, f + Size(k), Rest(pages, k));
    }
  }

  /** More than the number of pieces below order 2 before one of order 2 or more. */
  function Left(addr: nat, remain: nat): (n: nat)
    ensures n <= FEW && (remain > 0 ==> n > 0)
  {
    if remain < 4 then remain else if addr % 4 == 0 then 1 else if addr % 4 == 1 then 5 else 4
  }

  /** Room for the pieces still to come, or a block that can become a pool. */
  ghost predicate ReadyFor(bs: set<Block>, pools: nat, addr: nat, remain: nat) {
    remain == 0 || Big(bs) || |bs| + Left(addr, remain) <= SLOTS * pools
  }

  lemma LeftStep(addr: nat, remain: nat, k: nat)
    requires IsPiece(addr, remain, k) && k < 2
    ensures Left(addr + Size(k), Rest(remain, k)) < Left(addr, remain)
  {
    assert Size(0) == 1 && Size(1) == 2 && Size(2) == 4;
    hide Size, Aligned;
    SmallAligned(addr);
    FourSteps(addr);
  }

  lemma SmallAligned(addr: nat)
    ensures Aligned(addr, 1) <==> addr % 2 == 0
    ensures Aligned(addr, 2) <==> addr % 4 == 0
  {
    assert Aligned(addr / 2, 1) <==> addr / 2 % 2 == 0;
  }

  lemma FourSteps(addr: nat)
    ensures addr % 2 == addr % 4 % 2
    ensures (addr + 1) % 4 == (addr % 4 + 1) % 4 && (addr + 2) % 4 == (addr % 4 + 2) % 4
  {
    var q, r := addr / 4, addr % 4;
    Mod4(if r < 3 then q else q + 1, if r < 3 then r + 1 else 0);
    Mod4(if r < 2 then q else q + 1, if r < 2 then r + 2 else r - 2);
    assert addr == 2 * (2 * q) + r;
  }

  lemma Mod4(q: nat, r: nat)
    requires r < 4
    ensures (4 * q + r) % 4 == r
  {}

  class BuddyAllocator {
    var mem: seq<FreeBlock>
    var bitmap: seq<bool>
    var used: seq<nat>
    var poolBase: seq<nat>
    var freeArea: seq<int>
    var freePages: int
    ghost var linked: set<int>
    ghost var held: set<nat>

    ghost predicate Core(pending: set<int>)
      reads `mem, `bitmap, `used, `poolBase, `freeArea, `linked
    {
      CoreOf(mem, bitmap, used, |poolBase|, freeArea, linked, pending)
    }

    ghost function Blocks(): set<Block>
      reads `mem, `linked
    {
      BlocksOf(mem, linked)
    }

    ghost function Free(): set<nat>
      reads `mem, `linked
    {
      Frames(Blocks())
    }

    /** The frames the allocator owns: the free ones and those of its expansion pools. */
    ghost function Total(): set<nat>
      reads `mem, `linked, `held
    {
      Free() + held
    }

    ghost predicate HeldOk()
      reads `mem, `linked, `held, `poolBase
    {
      HeldIs(held, poolBase, Free())
    }

    ghost predicate Valid()
      reads `mem, `bitmap, `used, `poolBase, `freeArea, `linked, `held
    {
      Core({}) && Inv(Blocks()) && HeldOk()
    }

    /** Some free block is large enough for a new pool. */
    ghost predicate HasBig()
      reads `mem, `linked
    {
      Big(Blocks())
    }

    /** A descriptor can be had: one is free, or a pool can be added. */
    ghost predicate CanPlace()
      reads `bitmap, `mem, `linked
    {
      HasSlot() || HasBig()
    }

    /** Descriptors for more blocks than one call can need, or a pool can be added. */
    ghost predicate Ample()
      reads `mem, `linked, `poolBase
    {
      Amply(Blocks(), |poolBase|)
    }

    /** Of n blocks over so many pools there are at most extra more now, or a new pool has room for all. */
    ghost predicate AtMost(n: nat, pools: nat, extra: nat)
      reads `mem, `linked, `poolBase
    {
      if |poolBase| == pools then |Blocks()| <= n + extra else |Blocks()| + SLOTS <= SLOTS * |poolBase| + extra
    }

    /** The number of descriptors that are not part of a pool header. */
    ghost function Capacity(): nat
      reads `poolBase
    {
      SLOTS * |poolBase|
    }

    /** A descriptor is free exactly if there are fewer blocks than slots. */
    lemma SlotCount()
      requires Core({})
      ensures |Blocks()| <= SLOTS * |poolBase| && (HasSlot() <==> |Blocks()| < SLOTS * |poolBase|)
    {
      hide Links, Marks, Tally, BlocksOf;
      TallyShape(bitmap, used);
      assert linked + {} == linked;
      BlockCount(mem, freeArea, linked);
      SlotsLeft(bitmap, linked, |poolBase|);
    }

    ghost predicate Counted()
      reads this
    {
      freePages == |Total()|
    }

    /** Some descriptor is free. */
    ghost predicate HasSlot()
      reads `bitmap
    {
      exists i :: 0 <= i < |bitmap| && !bitmap[i]
    }

    /** link_block */
    method LinkBlock(node: int)
      requires Links(mem, freeArea, linked)
      requires 0 <= node < |mem| && node !in linked && mem[node].order <= MAX_ORDER
      requires mem[node].prev == NULL && mem[node].next == NULL
      requires forall c :: Listed(mem, linked, mem[node].order, c) ==> mem[c].paddr != mem[node].paddr
      modifies `mem, `freeArea, `linked
      ensures Links(mem, freeArea, linked) && linked == old(linked) + {node}
      ensures SameBlocks(old(mem), mem)
    {
      hide Links, NextOk, PrevOk, HeadOk;
      var k := mem[node].order;
      HeadNode(mem, freeArea, linked, k);
      var head := freeArea[k];
      if head == NULL {
        SpliceKeeps(mem, freeArea, linked, node, NULL, NULL);
        freeArea := freeArea[k := node];
        assert mem == SpliceIn(mem, node, NULL, NULL);
        linked := linked + {node};
        return;
      }
      if mem[node].paddr < mem[head].paddr {
        SpliceKeeps(mem, freeArea, linked, node, NULL, head);
        mem := mem[node := mem[node].(next := head)];
        mem := mem[head := mem[head].(prev := node)];
        freeArea := freeArea[k := node];
        assert mem == SpliceIn(old(mem), node, NULL, head);
        linked := linked + {node};
        return;
      }
      var iter := head;
      NextNode(mem, freeArea, linked, iter);
      while mem[iter].next != NULL && mem[mem[iter].next].paddr < mem[node].paddr
        invariant mem == old(mem) && linked == old(linked) && freeArea == old(freeArea)
        invariant Listed(mem, linked, k, iter) && mem[iter].paddr < mem[node].paddr
        invariant mem[iter].next != NULL ==> Listed(mem, linked, k, mem[iter].next) && mem[mem[iter].next].prev == iter
        decreases mem[node].paddr - mem[iter].paddr
      {
        NextNode(mem, freeArea, linked, iter);
        iter := mem[iter].next;
        NextNode(mem, freeArea, linked, iter);
      }
      var succ := mem[iter].next;
      SpliceKeeps(mem, freeArea, linked, node, iter, succ);
      mem := mem[node := mem[node].(next := succ, prev := iter)];
      if succ != NULL {
        mem := mem[succ := mem[succ].(prev := node)];
      }
      mem := mem[iter := mem[iter].(next := node)];
      assert mem == SpliceIn(old(mem), node, iter, succ);
      linked := linked + {node};
    }

    /** unlink_block */
    method UnlinkBlock(node: int)
      requires Links(mem, freeArea, linked) && node in linked
      modifies `mem, `freeArea, `linked
      ensures Links(mem, freeArea, linked) && linked == old(linked) - {node}
      ensures SameBlocks(old(mem), mem)
    {
      hide Links, NextOk, PrevOk, HeadOk;
      CutKeeps(mem, freeArea, linked, node);
      Neighbours(mem, freeArea, linked, node);
      var p, n := mem[node].prev, mem[node].next;
      if p != NULL {
        mem := mem[p := mem[p].(next := n)];
      } else {
        freeArea := freeArea[mem[node].order := n];
      }
      if n != NULL {
        mem := mem[n := mem[n].(prev := p)];
      }
      mem := mem[node := mem[node].(prev := NULL, next := NULL)];
      assert mem == SpliceOut(old(mem), node, p, n);
      linked := linked - {node};
    }

    /** find_buddy_node: looking at the two neighbours finds the buddy exactly when it is free. */
    method FindBuddyNode(node: int) returns (r: int)
      requires Links(mem, freeArea, linked) && Separate(Blocks()) && node in linked
      ensures r == NULL <==> Buddy(Block(mem[node].paddr, mem[node].order)) !in Blocks()
      ensures r != NULL ==> r in linked && r != node
                            && Block(mem[r].paddr, mem[r].order) == Buddy(Block(mem[node].paddr, mem[node].order))
    {
      BuddyFound(node);
      var order := mem[node].order;
      if order > MAX_ORDER { return NULL; }
      var buddy := FlipBit(mem[node].paddr, order);
      var p, n := mem[node].prev, mem[node].next;
      if p != NULL && mem[p].paddr == buddy && mem[p].order == order { return p; }
      if n != NULL && mem[n].paddr == buddy && mem[n].order == order { return n; }
      return NULL;
    }

    ghost predicate FreeNode(a: int, k: nat)
      reads `mem, `linked
    {
      a in linked && 0 <= a < |mem| && mem[a].order == k && Block(mem[a].paddr, k) in Blocks()
    }

    lemma BuddyFound(node: int)
      requires Links(mem, freeArea, linked) && Separate(Blocks()) && node in linked
      ensures 0 <= node < |mem| && mem[node].order <= MAX_ORDER
      ensures var b := Block(mem[node].paddr, mem[node].order); var p, n := mem[node].prev, mem[node].next;
              && (p != NULL ==> FreeNode(p, b.order) && p != node)
              && (n != NULL ==> FreeNode(n, b.order) && n != node)
              && (Buddy(b) in Blocks() <==>
                  (p != NULL && mem[p].paddr == Buddy(b).base) || (n != NULL && mem[n].paddr == Buddy(b).base))
    {
      hide Links, NextOk, PrevOk, HeadOk, Separate, Size, Aligned, FlipBit;
      Neighbours(mem, freeArea, linked, node);
      AllPlaced(mem, freeArea, linked, node);
      var b := Block(mem[node].paddr, mem[node].order);
      BuddyBlocksOf(b);
      if Buddy(b) in Blocks() {
        var c :| c in linked && 0 <= c < |mem| && Block(mem[c].paddr, mem[c].order) == Buddy(b);
        if mem[node].paddr < mem[c].paddr {
          BuddyIsNeighbour(mem, freeArea, linked, node, c);
        } else {
          BuddyIsNeighbour(mem, freeArea, linked, c, node);
        }
      }
    }

    /** free_freeblock */
    method FreeFreeBlock(node: int, ghost pending: set<int>)
      requires Core(pending) && node in pending
      modifies `mem, `bitmap, `used
      ensures Core(pending - {node}) && SameBlocks(old(mem), mem) && Blocks() == old(Blocks()) && HasSlot()
      ensures OneLess(old(used), used, node)
    {
      hide Links, Marks, Tally, BlocksOf;
      MarksClear(bitmap, linked + pending, node);
      TallySet(bitmap, used, node, false);
      InPlace(mem, freeArea, linked);
      LinksAgree(mem, mem[node := mem[node].(prev := NULL, next := NULL)], freeArea, linked);
      TallyShape(bitmap, used);
      var p := node / POOL_SIZE;
      bitmap := bitmap[node := false];
      used := used[p := used[p] - 1];
      mem := mem[node := mem[node].(prev := NULL, next := NULL)];
      SameBlocksSet(old(mem), mem, linked);
      assert !bitmap[node];
      assert linked + (pending - {node}) == linked + pending - {node};
    }

    /** The slot-taking step of alloc_freeblock. */
    method TakeSlot(i: int)
      requires Core({}) && 0 <= i < |bitmap| && !bitmap[i]
      modifies `mem, `bitmap, `used
      ensures Core({i}) && SameBlocks(old(mem), mem) && Blocks() == old(Blocks())
      ensures 0 <= i < |mem| && mem[i].prev == NULL && mem[i].next == NULL
    {
      hide Links, Marks, Tally, BlocksOf;
      assert linked + {} == linked;
      MarksSet(bitmap, linked, i);
      TallySet(bitmap, used, i, true);
      InPlace(mem, freeArea, linked);
      LinksAgree(mem, mem[i := mem[i].(prev := NULL, next := NULL)], freeArea, linked);
      TallyShape(bitmap, used);
      var p := i / POOL_SIZE;
      bitmap := bitmap[i := true];
      used := used[p := used[p] + 1];
      mem := mem[i := mem[i].(prev := NULL, next := NULL)];
      SameBlocksSet(old(mem), mem, linked);
    }

    /** The first search of alloc_freeblock: a clear bit in any pool. */
    method FindSlot() returns (i: int)
      requires Core({})
      ensures i == NULL ==> forall j :: 0 <= j < |bitmap| ==> bitmap[j]
      ensures i != NULL ==> 0 <= i < |bitmap| && !bitmap[i]
    {
      hide Links, Ones;
      for p := 0 to |poolBase|
        invariant forall j :: 0 <= j < POOL_SIZE * p ==> bitmap[j]
      {
        if used[p] >= POOL_SIZE {
          FullPool(bitmap, used, p);
          continue;
        }
        for idx := HEADER_BLOCKS to POOL_SIZE
          invariant forall j :: POOL_SIZE * p <= j < POOL_SIZE * p + idx ==> bitmap[j]
        {
          if !bitmap[POOL_SIZE * p + idx] { return POOL_SIZE * p + idx; }
        }
      }
      return NULL;
    }

    /** alloc_freeblock; NULL stands for its error return, which its only caller asserts against. */
    method AllocFreeBlock() returns (node: int)
      requires Valid()
      modifies this
      ensures node == NULL <==> !old(CanPlace())
      ensures node == NULL ==> unchanged(this)
      ensures node != NULL ==> 0 <= node < |mem| && Core({node}) && Inv(Blocks()) && HeldOk()
      ensures node != NULL ==> mem[node].prev == NULL && mem[node].next == NULL && Total() == old(Total())
      ensures held >= old(held) && freePages == old(freePages) && |poolBase| >= old(|poolBase|)
      ensures |poolBase| == old(|poolBase|) ==> held == old(held) && Blocks() == old(Blocks())
      ensures |poolBase| != old(|poolBase|) ==>
              !old(HasSlot()) && old(HasBig()) && |Blocks()| + SLOTS <= SLOTS * |poolBase|
      decreases |Free()|, 2
    {
      hide Links, NextOk, PrevOk, HeadOk, Ones, Inv, Frames, Span, Marks, Tally, HeldBy, BlocksOf;
      hide TailHasSlot, SameBlocks, Core, HeldIs, HasBig, TailLow, Starved, Blocks;
      var i := FindSlot();
      if i == NULL {
        var r := AddNewPool();
        if !r.Ok? { return NULL; }
        i := FindTailSlot();
      }
      TakeSlot(i);
      node := i;
    }

    /** The second search of alloc_freeblock: the pool just attached has free slots. */
    method FindTailSlot() returns (i: int)
      requires TailHasSlot()
      ensures 0 <= i < |bitmap| && !bitmap[i]
    {
      i := |bitmap| - POOL_SIZE + HEADER_BLOCKS;
      while bitmap[i]
        invariant |bitmap| - POOL_SIZE + HEADER_BLOCKS <= i
        invariant exists j :: i <= j < |bitmap| && !bitmap[j]
        decreases |bitmap| - i
      {
        i := i + 1;
      }
    }

    ghost predicate TailHasSlot()
      reads `bitmap
    {
      TailFree(bitmap)
    }

    /** add_new_pool: take four frames for 512 more descriptors. */
    method AddNewPool() returns (r: Outcome)
      requires Valid()
      modifies this
      ensures Valid() && held >= old(held) && freePages == old(freePages)
      ensures r.Ok? || r.OutOfMemory?
      ensures r.Ok? ==> Total() == old(Total()) && TailHasSlot() && !TailLow()
      ensures r.Ok? ==> |poolBase| > old(|poolBase|) && |Blocks()| + SLOTS <= SLOTS * |poolBase|
      ensures r.OutOfMemory? <==> !old(HasBig())
      ensures r.OutOfMemory? ==> unchanged(this)
      decreases |Free()|, 1
    {
      hide Links, NextOk, PrevOk, HeadOk, Ones, Inv, Frames, Span, Marks, Tally, HeldBy, BlocksOf;
      hide Core, HeldOk, TailHasSlot, TailLow, Handed, Starved, StarvedAfter, Ample, BestFit, Valid, Total, Blocks,
          Cover;
      hide NoRun;
      BlocksInv();
      NoRunNoBlock(Blocks(), 2);
      PoolFrames();
      r := FetchFrameOrder(2);
      if !r.Ok? { return; }
      PoolsGrew(old(held), old(|poolBase|));
      Room();
      NewFrames(old(Total()), r.frame);
      AttachPool(r.frame);
    }

    lemma Room()
      requires Valid()
      ensures |Blocks()| <= SLOTS * |poolBase|
    {
      SlotCount();
    }

    lemma PoolFrames()
      requires Valid()
      ensures |held| == EXPAND_PAGES * (|poolBase| - 1)
    {}

    /** Four frames in hand are the frames of a pool. */
    lemma NewFrames(total: set<nat>, base: nat)
      requires Handed(total, Block(base, 2))
      ensures Span(base, EXPAND_PAGES) !! Total() && Total() + Span(base, EXPAND_PAGES) == total
    {
      hide Run, Frames;
      assert Size(2) == EXPAND_PAGES;
    }

    lemma PoolsGrew(before: set<nat>, pools: nat)
      requires Valid() && held >= before && |before| == EXPAND_PAGES * (pools - 1)
      ensures |poolBase| >= pools
    {
      hide HeldBy, Free, Valid;
      PoolFrames();
      Queues.SubsetSize(before, held);
    }

    /** init_pool and attach_pool for a pool in the four frames at base. */
    method AttachPool(base: nat)
      requires Valid() && Span(base, EXPAND_PAGES) !! Total()
      modifies `mem, `bitmap, `used, `poolBase, `held
      ensures Valid() && Blocks() == old(Blocks()) && held == old(held) + Span(base, EXPAND_PAGES)
      ensures Total() == old(Total()) + Span(base, EXPAND_PAGES)
      ensures poolBase == old(poolBase) + [base] && TailHasSlot() && !TailLow()
    {
      hide Links, NextOk, PrevOk, HeadOk, Ones, Inv, Frames, Span, Marks, Tally, HeldBy, BlocksOf, CoreOf, TailFree,
          HeldIs;
      var slots, bits := NewPool(base);
      CoreShape(mem, bitmap, used, |poolBase|, freeArea, linked, {});
      CoreExpand(mem, bitmap, used, |poolBase|, freeArea, linked, slots, bits);
      HeldExpand(held, poolBase, Free(), base);
      mem := mem + slots;
      bitmap := bitmap + bits;
      used := used + [HEADER_BLOCKS];
      poolBase := poolBase + [base];
      held := held + Span(base, EXPAND_PAGES);
    }

    /** The descriptors and the bitmap of a new pool: its header is in use. */
    static method NewPool(base: nat) returns (slots: seq<FreeBlock>, bits: seq<bool>)
      ensures |slots| == |bits| == POOL_SIZE && forall i :: 0 <= i < POOL_SIZE ==> (bits[i] <==> i < HEADER_BLOCKS)
      ensures forall i :: 0 <= i < POOL_SIZE ==> slots[i] == FreeBlock(base, 0, NULL, NULL)
    {
      slots := seq(POOL_SIZE, i => FreeBlock(base, 0, NULL, NULL));
      bits := seq(POOL_SIZE, i => i < HEADER_BLOCKS);
    }

    /** Unlink a free block and give back its descriptor. */
    method RemoveNode(node: int)
      requires Core({}) && node in linked
      modifies `mem, `freeArea, `linked, `bitmap, `used
      ensures Core({}) && linked == old(linked) - {node} && SameBlocks(old(mem), mem) && HasSlot()
      ensures Blocks() == old(Blocks()) - {Block(old(mem[node].paddr), old(mem[node].order))}
      ensures OneLess(old(used), used, node)
    {
      hide Links, NextOk, PrevOk, HeadOk, Ones, Inv, Frames, Span, Marks, Tally, HeldBy, BlocksOf;
      InPlace(mem, freeArea, linked);
      assert linked + {} == linked;
      UnlinkBlock(node);
      BlocksRemove(old(mem), old(freeArea), mem, old(linked), node);
      assert linked + {node} == old(linked);
      FreeFreeBlock(node, {node});
      assert {node} - {node} == {};
    }

    /** Fill a fresh descriptor and link it: the head of the put_page_in_order loop. */
    method InsertNode(node: int, f: nat, k: nat)
      requires 0 <= node < |mem| && Core({node}) && k <= MAX_ORDER && Block(f, k) !in Blocks()
      modifies `mem, `freeArea, `linked
      ensures Core({}) && node in linked && 0 <= node < |mem| && mem[node].paddr == f && mem[node].order == k
      ensures Blocks() == old(Blocks()) + {Block(f, k)}
    {
      hide Links, NextOk, PrevOk, HeadOk, Ones, Inv, Frames, Span, Marks, Tally, HeldBy, BlocksOf;
      InPlace(mem, freeArea, linked);
      var mem1 := mem[node := FreeBlock(f, k, NULL, NULL)];
      LinksAgree(mem, mem1, freeArea, linked);
      BlocksAgree(mem, mem1, linked);
      FreshAddress(mem1, linked, node);
      mem := mem1;
      LinkBlock(node);
      BlocksInsert(mem1, mem, old(linked), node);
      assert linked + {} == old(linked) + {node};
    }

    /** The pools hold their frames and the block set bs the rest of total. */
    ghost predicate Shares(bs: set<Block>, total: set<nat>)
      reads `held, `poolBase
    {
      && held == HeldBy(poolBase) && |held| == EXPAND_PAGES * (|poolBase| - 1)
      && held !! Frames(bs) && Frames(bs) + held == total
    }

    /** Take a descriptor for block b and link it. */
    method PlaceBlock(f: nat, k: nat) returns (node: int, ghost bs: set<Block>)
      requires Valid() && WellPlaced(Block(f, k)) && Cover(Block(f, k)) !! Total()
      modifies this
      ensures held >= old(held) && freePages == old(freePages) && |poolBase| >= old(|poolBase|)
      ensures node == NULL <==> !old(CanPlace())
      ensures node == NULL ==> unchanged(this)
      ensures |poolBase| == old(|poolBase|) ==> held == old(held) && bs == old(Blocks())
      ensures |poolBase| != old(|poolBase|) ==> !old(HasSlot()) && old(HasBig()) && |bs| + SLOTS <= SLOTS * |poolBase|
      ensures node != NULL ==>
              Core({}) && node in linked && 0 <= node < |mem| && mem[node].paddr == f && mem[node].order == k
      ensures node != NULL ==> Inv(bs) && Clear(bs, Block(f, k)) && Separate(bs + {Block(f, k)})
      ensures node != NULL ==> Blocks() == bs + {Block(f, k)} && Block(f, k) !in bs && Shares(bs, old(Total()))
      decreases |Free()|, 3
    {
      hide Links, NextOk, PrevOk, HeadOk, Ones, Inv, Frames, Span, Marks, Tally, HeldBy, BlocksOf;
      hide CanPlace, HasBig, HasSlot, Separate, Clear, Core, Cover, Aligned;
      ghost var b := Block(f, k);
      node := AllocFreeBlock();
      bs := Blocks();
      if node == NULL { return; }
      ClearIsDisjoint(bs, b);
      NotFree(bs, b);
      InsertNode(node, f, k);
      InvSeparate(bs);
      SeparateInsert(bs, b);
    }

    /**
     One round of the put_page_in_order loop: link the block; if its buddy is free, take both out
     again and return the base of the merged block, otherwise return NULL.
     */
    method PutStep(f: nat, k: nat) returns (merged: int, halt: bool)
      requires Valid() && WellPlaced(Block(f, k)) && Cover(Block(f, k)) !! Total()
      modifies this
      ensures Valid() && held >= old(held) && freePages == old(freePages) && merged >= NULL
      ensures halt <==> !old(CanPlace())
      ensures halt ==> unchanged(this)
      ensures |poolBase| == old(|poolBase|) ==> held == old(held)
      ensures |poolBase| != old(|poolBase|) ==> |poolBase| > old(|poolBase|) && !old(HasSlot()) && old(HasBig())
      ensures AtMost(old(|Blocks()|), old(|poolBase|), if merged == NULL then 1 else 0)
      ensures !halt && merged == NULL ==> Total() == old(Total()) + Cover(Block(f, k))
      ensures !halt && merged != NULL ==>
              k < MAX_ORDER && Handed(old(Total()) + Cover(Block(f, k)), Block(merged, k + 1))
      ensures !halt && merged != NULL ==> Cover(Block(f, k)) <= Cover(Block(merged, k + 1))
      ensures !halt && merged != NULL ==> Cover(Buddy(Block(f, k))) <= old(Total()) && HasSlot()
      decreases |Free()|, 4
    {
      hide Links, NextOk, PrevOk, HeadOk, Ones, Inv, Frames, Span, Marks, Tally, HeldBy, BlocksOf;
      hide Shares, Valid, Handed, Core, Clear, Separate, CanPlace, HasBig, Size, Aligned, FlipBit, Parent, HasSlot;
      ghost var b, total := Block(f, k), Total();
      var node; ghost var bs;
      node, bs := PlaceBlock(f, k);
      if node == NULL { return NULL, true; }
      CoreLinks();
      var buddy := NULL;
      if k < MAX_ORDER {
        buddy := FindBuddyNode(node);
      }
      if buddy == NULL {
        Settled(bs, b, total);
        return NULL, false;
      }
      ParentBase(b);
      merged := if mem[buddy].paddr < f then mem[buddy].paddr else f;
      RemovePair(node, buddy);
      assert Blocks() == bs - {Buddy(b)};
      MergedOut(bs, b, total);
      halt := false;
    }

    lemma CoreLinks()
      requires Core({})
      ensures Links(mem, freeArea, linked) && forall a :: a in linked ==> 0 <= a < |mem|
    {
      InPlace(mem, freeArea, linked);
    }

    lemma Settled(bs: set<Block>, b: Block, total: set<nat>)
      requires Core({}) && Blocks() == bs + {b} && Inv(bs) && Clear(bs, b) && WellPlaced(b)
      requires b.order < MAX_ORDER ==> Buddy(b) !in Blocks()
      requires Shares(bs, total) && Cover(b) !! total
      ensures Valid() && Total() == total + Cover(b)
    {
      hide Links, Marks, Tally, Inv, Frames, Span, HeldBy, BlocksOf;
      InsertStep(bs, b);
    }

    static lemma MergedFrames(free: set<nat>, held: set<nat>, total: set<nat>, own: set<nat>, buddy: set<nat>,
        parent: set<nat>)
      requires held !! free && free + held == total && own !! total && parent == own + buddy && buddy <= free
      ensures held !! free - buddy && parent !! (free - buddy) + held && (free - buddy) + held + parent == total + own
    {}

    lemma MergedOut(bs: set<Block>, b: Block, total: set<nat>)
      requires Core({}) && b.order < MAX_ORDER && Buddy(b) in bs && Blocks() == bs - {Buddy(b)}
      requires Inv(bs) && Clear(bs, b) && WellPlaced(b)
      requires Shares(bs, total) && Cover(b) !! total
      ensures Valid() && Handed(total + Cover(b), Parent(b)) && Cover(b) <= Cover(Parent(b)) && Cover(Buddy(b)) <= total
    {
      hide Links, Marks, Tally, Inv, Frames, Cover, HeldBy, Blocks, Clear, Parent, Core, WellPlaced, Buddy;
      MergeStep(bs, b);
      ClearIsDisjoint(bs - {Buddy(b)}, Parent(b));
      BuddyCovered(bs, Buddy(b));
      MergedFrames(Frames(bs), held, total, Cover(b), Cover(Buddy(b)), Cover(Parent(b)));
    }

    method RemovePair(node: int, buddy: int)
      requires Core({}) && node in linked && buddy in linked && node != buddy
      modifies `mem, `freeArea, `linked, `bitmap, `used
      ensures Core({}) && HasSlot()
      ensures Blocks() == old(Blocks()) - {Block(old(mem[node].paddr), old(mem[node].order))}
                                        - {Block(old(mem[buddy].paddr), old(mem[buddy].order))}
    {
      hide Links, NextOk, PrevOk, HeadOk, Ones, Inv, Frames, Span, Marks, Tally, HeldBy, BlocksOf;
      InPlace(mem, freeArea, linked);
      RemoveNode(node);
      RemoveNode(buddy);
    }

    /** Block b has been taken out of the frames total. */
    ghost predicate Handed(total: set<nat>, b: Block)
      reads `mem, `linked, `held
    {
      WellPlaced(b) && Cover(b) !! Total() && Total() + Cover(b) == total
    }

    /** put_page_in_order; merges counts how often a block found its buddy free. */
    method PutPageInOrder(f: nat, order: nat) returns (halt: bool, ghost merges: nat)
      requires Valid() && (f != 0 ==> order <= MAX_ORDER && Aligned(f, order) && Span(f, Size(order)) !! Total())
      modifies this
      ensures Valid() && held >= old(held) && freePages == old(freePages)
      ensures !halt ==> Total() == old(Total()) + (if f == 0 then {} else Span(f, Size(order)))
      ensures halt || f == 0 ==> unchanged(this)
      ensures halt <==> f != 0 && !old(CanPlace())
      ensures |poolBase| == old(|poolBase|) ==> held == old(held)
      ensures |poolBase| != old(|poolBase|) ==> |poolBase| > old(|poolBase|) && !old(HasSlot()) && old(HasBig())
      ensures AtMost(old(|Blocks()|), old(|poolBase|), 1)
      ensures !halt && f != 0 && |poolBase| == old(|poolBase|) ==> Free() == old(Free()) + Span(f, Size(order))
      ensures !halt && !(Cover(Buddy(Block(f, order))) <= old(Total())) ==> merges == 0
      decreases |Free()|, 5
    {
      hide Links, NextOk, PrevOk, HeadOk, Ones, Inv, Frames, Span, Marks, Tally, HeldBy, BlocksOf;
      hide Core, BlocksOf, Aligned, Size, HasSlot, HasBig, Buddy, Blocks, HeldIs, Free;
      HeldApart();
      merges := 0;
      if f == 0 { return false, 0; }
      var cur: int, k := f, order;
      while cur != NULL
        invariant Valid() && held >= old(held) && freePages == old(freePages) && cur >= NULL
        invariant cur != NULL ==> k <= MAX_ORDER && Handed(old(Total()) + Span(f, Size(order)), Block(cur, k))
        invariant cur != NULL ==> Span(f, Size(order)) <= Cover(Block(cur, k))
        invariant cur == NULL ==> Total() == old(Total()) + Span(f, Size(order))
        invariant merges > 0 ==> Cover(Buddy(Block(f, order))) <= old(Total())
        invariant if merges == 0 && cur != NULL then k == order && cur == f && unchanged(this) else cur != NULL ==>
                  HasSlot()
        invariant (merges == 0 && cur != NULL) || old(CanPlace())
        invariant |poolBase| == old(|poolBase|) ==> held == old(held)
        invariant |poolBase| != old(|poolBase|) ==> |poolBase| > old(|poolBase|) && !old(HasSlot()) && old(HasBig())
        invariant AtMost(old(|Blocks()|), old(|poolBase|), if cur == NULL then 1 else 0)
        decreases MAX_ORDER - k, cur
      {
        NotMore(Span(f, Size(order)), old(Free()), old(held), Block(cur, k));
        cur, halt := PutStep(cur, k);
        if halt { return; }
        if cur != NULL { merges := merges + 1; }
        k := k + 1;
      }
      halt := false;
      if |poolBase| == old(|poolBase|) { FreeGrows(old(Free()), Span(f, Size(order))); }
    }

    /** While the block is in hand there are no more free frames than before. */
    lemma NotMore(span: set<nat>, free: set<nat>, held0: set<nat>, b: Block)
      requires HeldOk() && Handed(free + held0 + span, b) && span <= Cover(b) && held >= held0
      ensures |Free()| <= |free|
    {
      hide Frames, HeldBy, Cover, WellPlaced;
      Queues.SubsetSize(Free(), free);
    }

    lemma HeldApart()
      requires HeldOk()
      ensures held !! Free()
    {}

    /** With the same pools all frames that joined are free. */
    lemma FreeGrows(free: set<nat>, span: set<nat>)
      requires HeldOk() && held !! free && span !! free + held && Total() == free + held + span
      ensures Free() == free + span
    {
      hide Frames, HeldBy;
    }

    lemma HeadBlock(k: nat)
      requires Core({}) && k <= MAX_ORDER
      ensures |freeArea| == MAX_ORDER + 1
      ensures freeArea[k] == NULL ==> forall b :: b in Blocks() ==> b.order != k
      ensures freeArea[k] != NULL ==> freeArea[k] in linked && 0 <= freeArea[k] < |mem| && mem[freeArea[k]].order == k
      ensures freeArea[k] != NULL ==>
                Block(mem[freeArea[k]].paddr, k) in Blocks() && forall b :: b in Blocks() && b.order == k ==>
                    mem[freeArea[k]].paddr <= b.base
    {
      assert HeadOk(mem, freeArea, linked, k);
      forall b | b in Blocks() && b.order == k
        ensures freeArea[k] != NULL && mem[freeArea[k]].paddr <= b.base
      {
        var a :| a in linked && 0 <= a < |mem| && Block(mem[a].paddr, mem[a].order) == b;
        assert Listed(mem, linked, k, a);
      }
    }

    /** The descriptor of the block first taken by fetch_frame_order. */
    method TakeBestFit(order: nat) returns (f: nat, c: nat)
      requires Valid() && order <= MAX_ORDER
      modifies `mem, `freeArea, `linked, `bitmap, `used
      ensures order <= c
      ensures c > MAX_ORDER <==> forall b :: b in old(Blocks()) ==> b.order < order
      ensures c > MAX_ORDER ==> unchanged(this)
      ensures c <= MAX_ORDER ==>
                && BestFit(old(Blocks()), order, Block(f, c)) && Core({}) && Blocks() == old(Blocks()) - {Block(f, c)}
                && HasSlot() && (Starved() <==> old(StarvedAfter(c)))
    {
      hide Links, NextOk, PrevOk, HeadOk, Ones, Inv, Frames, Span, Marks, Tally, HeldBy, BlocksOf;
      hide Aligned, Size;
      c := order;
      f := 0;
      while c <= MAX_ORDER
        invariant order <= c <= MAX_ORDER + 1 && unchanged(this)
        invariant forall b :: b in Blocks() ==> b.order < order || c <= b.order
      {
        HeadBlock(c);
        if freeArea[c] != NULL { break; }
        c := c + 1;
      }
      if c > MAX_ORDER {
        InvOrders(Blocks());
        return;
      }
      var node := freeArea[c];
      f := mem[node].paddr;
      RemoveNode(node);
    }

    /** The tail pool would be nearly full, with no large block left, after the first block of order c is taken. */
    ghost predicate StarvedAfter(c: nat)
      reads `used, `mem, `linked, `freeArea
    {
      && c < |freeArea| && 0 <= freeArea[c] < |mem| && |used| > 0
      && (used[|used| - 1] - if freeArea[c] / POOL_SIZE == |used| - 1 then 1 else 0) * 4 > POOL_SIZE * 3
      && !Big(Blocks() - {Block(mem[freeArea[c]].paddr, c)})
    }

    /** fetch_frame_order */
    method FetchFrameOrder(order: nat) returns (r: Outcome)
      requires Valid() && order <= MAX_ORDER
      modifies this
      ensures Valid() && held >= old(held) && freePages == old(freePages)
      ensures r.Ok? || r.OutOfMemory?
      ensures r.Ok? ==> Handed(old(Total()), Block(r.frame, order)) && Cover(Block(r.frame, order)) <= old(Free())
      ensures r.Ok? ==> exists c :: BestFit(old(Blocks()), order, Block(r.frame, c))
      ensures r.OutOfMemory? <==> NoRun(old(Blocks()), order)
      ensures r.OutOfMemory? ==> unchanged(this)
      ensures r.Ok? && (exists b :: b in old(Blocks()) && b.order == order) ==>
                && BestFit(old(Blocks()), order, Block(r.frame, order)) &&
                    Blocks() == old(Blocks()) - {Block(r.frame, order)}
                && poolBase == old(poolBase) && (Starved() <==> old(StarvedAfter(order)))
      ensures r.Ok? && order >= 2 && (forall b :: b in old(Blocks()) ==> b.order != order) ==> Ample()
      decreases |Free()|, 0
    {
      hide Links, NextOk, PrevOk, HeadOk, Ones, Inv, Frames, Span, Marks, Tally, HeldBy, BlocksOf;
      hide Aligned, Size, BestFit, Handed, NoRun, HasSlot, Ample, Starved, StarvedAfter;
      ghost var bs, total, free := Blocks(), Total(), Free();
      NoRunNoBlock(bs, order);
      var f, c := TakeBestFit(order);
      if c > MAX_ORDER { return OutOfMemory; }
      ghost var best := Block(f, c);
      Chosen(bs, order, best);
      TakenOut(bs, best, total);
      if c == 2 && order == 0 { EmptyOrBig(bs, best); }
      ghost var m := SplitDown(f, c, order, total, free, held);
      if c > order { LargerFit(bs, order, best); }
      return Ok(f);
    }

    lemma LargerFit(bs: set<Block>, k: nat, best: Block)
      requires BestFit(bs, k, best) && k < best.order
      ensures forall b :: b in bs ==> b.order != k
    {}

    /** Where the best single frame is in a block of four, every other block is as large. */
    lemma EmptyOrBig(bs: set<Block>, best: Block)
      requires Core({}) && BestFit(bs, 0, best) && best.order == 2 && Blocks() == bs - {best}
      ensures Ample()
    {
      hide Links, Marks, Tally, BlocksOf, Inv;
      if Blocks() != {} {
        var b := Queues.Member(Blocks());
        assert b.order >= 2;
      }
    }

    /** The splitting loop of fetch_frame_order: hand back the upper halves down to the order asked for. */
    method SplitDown(f: nat, from: nat, order: nat, ghost total: set<nat>, ghost free: set<nat>, ghost held0: set<nat>)
      returns (ghost merges: nat)
      requires Valid() && order <= from <= MAX_ORDER && Handed(total, Block(f, from)) && Cover(Block(f, from)) <= free
      requires held >= held0 && total == free + held0 && HasSlot() && (from == 2 && order == 0 ==> Ample())
      modifies this
      ensures Valid() && held >= held0 && freePages == old(freePages)
      ensures Handed(total, Block(f, order)) && Cover(Block(f, order)) <= free
      ensures merges == 0 && (from == order ==> unchanged(this)) && (from > order >= 2 ==> Ample())
      decreases |free| - 1, 7
    {
      hide Links, NextOk, PrevOk, HeadOk, Ones, Inv, Frames, Span, Marks, Tally, HeldBy, BlocksOf;
      hide Core, Aligned, Size, Valid, Handed, HasSlot, Ample, HasBig, Buddy;
      var c := from;
      merges := 0;
      while c > order
        invariant order <= c <= from && Valid() && held >= held0 && freePages == old(freePages) && merges == 0
        invariant c == from ==> unchanged(this)
        invariant Handed(total, Block(f, c)) && Cover(Block(f, c)) <= free
        invariant from > c >= 2 || (c == 2 && order == 0) ==> Ample()
        invariant c > order ==> CanPlace()
      {
        ghost var m := PutHalf(Block(f, c), total, free, held0);
        merges := merges + m;
        c := c - 1;
      }
    }

    /** Hand back the upper half of the block in hand. */
    method PutHalf(b: Block, ghost total: set<nat>, ghost free: set<nat>,
        ghost held0: set<nat>) returns (ghost merges: nat)
      requires Valid() && 0 < b.order <= MAX_ORDER && Handed(total, b) && Cover(b) <= free
      requires held >= held0 && total == free + held0 && CanPlace()
      modifies this
      ensures Valid() && held >= held0 && freePages == old(freePages) && merges == 0
      ensures Handed(total, Lower(b)) && Cover(Lower(b)) <= free
      ensures b.order > 2 ==> Ample() && CanPlace()
      ensures old(Ample()) ==> CanPlace()
      decreases |free| - 1, 6
    {
      hide Links, NextOk, PrevOk, HeadOk, Ones, Inv, Frames, Span, Marks, Tally, HeldBy, BlocksOf;
      hide Core, Aligned, Size, Valid, Handed, HasSlot, Amply, Big, Buddy, AtMost, Total, HasBig;
      ghost var t, blocks, pools := Total(), Blocks(), |poolBase|;
      BeforePut(b, total, free, held0);
      SplitNeverMerges(b, t);
      BlocksInv();
      var halt;
      halt, merges := PutPageInOrder(b.base + Size(b.order - 1), b.order - 1);
      assert !halt;
      PutAmple(Upper(b), blocks, pools);
      AfterPut(b, total, t);
    }

    /** After a put there is room for more if the block put back was large or there was room before. */
    lemma PutAmple(r: Block, blocks: set<Block>, pools: nat)
      requires Valid() && r.order <= MAX_ORDER && Aligned(r.base, r.order)
      requires Inv(blocks) && AtMost(|blocks|, pools, 1) &&
               (|poolBase| == pools ==> Free() == Frames(blocks) + Cover(r))
      ensures r.order >= 2 || Big(blocks) ==> Ample() && CanPlace()
      ensures Amply(blocks, pools) ==> CanPlace()
      ensures |poolBase| != pools ==> |Blocks()| + FEW <= SLOTS * |poolBase| && HasSlot()
    {
      hide Links, Marks, Tally, BlocksOf, Frames, HeldBy, Core, Inv, Run, Aligned;
      SlotCount();
      if |poolBase| == pools {
        if r.order >= 2 { var c := Complete(Blocks(), r); }
        if Big(blocks) {
          var b :| b in blocks && b.order >= 2;
          InvOrders(blocks);
          InvAligned(blocks, b);
          BuddyCovered(blocks, b);
          var c := Complete(Blocks(), b);
        }
      }
    }

    lemma BeforePut(b: Block, total: set<nat>, free: set<nat>, held0: set<nat>)
      requires Valid() && b.order > 0 && Handed(total, b) && Cover(b) <= free && held >= held0 && total == free + held0
      ensures Aligned(Upper(b).base, b.order - 1) && Cover(Upper(b)) !! Total() && |Free()| < |free|
      ensures WellPlaced(b) && Total() !! Cover(b) && Total() + Cover(b) == total && Cover(Lower(b)) <= free
    {
      hide Core, Frames, Span, HeldBy, BlocksOf, Inv, Size, Aligned;
      HalvesOf(b);
      HalvesCover(b);
      Queues.SubsetSize(Free(), free);
    }

    lemma AfterPut(b: Block, total: set<nat>, t: set<nat>)
      requires b.order > 0 && WellPlaced(b) && t !! Cover(b) && t + Cover(b) == total && Total() == t + Cover(Upper(b))
      ensures Handed(total, Lower(b))
    {
      hide Core, Frames, Span, HeldBy, BlocksOf, Inv, Size, Aligned;
      HalvesOf(b);
      HalvesCover(b);
    }

    lemma TakenOut(bs: set<Block>, b: Block, total: set<nat>)
      requires Core({}) && Inv(bs) && b in bs && Blocks() == bs - {b} && Shares(bs, total)
      ensures Valid() && Handed(total, b) && Cover(b) <= Frames(bs)
    {
      hide Links, Marks, Tally, Frames, Span, HeldBy, BlocksOf, Inv, Size, Aligned;
      InvRemove(bs, b);
      BuddyCovered(bs, b);
    }

    /** pre_init: empty lists, no free pages, the static pool with its header slots taken. */
    constructor ()
      ensures Valid() && Counted() && Blocks() == {} && Total() == {} && |poolBase| == 1
    {
      var bits := seq(POOL_SIZE, i => i < HEADER_BLOCKS);
      mem := seq(POOL_SIZE, i => FreeBlock(0, 0, NULL, NULL));
      bitmap := bits;
      used := [HEADER_BLOCKS];
      poolBase := [0];
      freeArea := seq(MAX_ORDER + 1, i => NULL);
      freePages := 0;
      linked := {};
      held := {};
      new;
      hide Links, NextOk, PrevOk, HeadOk, Ones, Inv, Frames, Span, Marks, Tally, HeldBy, BlocksOf;
      hide Core, Valid, Total, HeldOk;
      EmptyState();
    }

    lemma EmptyState()
      requires linked == {} == held && freePages == 0 && poolBase == [0] && used == [HEADER_BLOCKS]
      requires |mem| == |bitmap| == POOL_SIZE && |freeArea| == MAX_ORDER + 1
      requires forall k :: 0 <= k <= MAX_ORDER ==> freeArea[k] == NULL
      requires forall i :: 0 <= i < POOL_SIZE ==> (bitmap[i] <==> i < HEADER_BLOCKS)
      ensures Valid() && Counted() && Blocks() == {} && Total() == {}
    {
      hide Span, Ones;
      TallyExpand([], [], bitmap);
      assert [] + bitmap == bitmap && [] + used == used;
      assert Links(mem, freeArea, linked) by {
        forall k | 0 <= k <= MAX_ORDER ensures HeadOk(mem, freeArea, linked, k) {}
      }
      assert Marks(bitmap, linked + {});
      assert Blocks() == {} && HeldBy(poolBase) == {} && Total() == {};
    }

    /** pool_needs_expand and maybe_expand_pool, run after an allocation. */
    method MaybeExpandPool() returns (r: Outcome)
      requires Valid()
      modifies this
      ensures Valid() && held >= old(held) && freePages == old(freePages)
      ensures r.Ok? || r.OutOfMemory?
      ensures r.Ok? ==> Total() == old(Total())
      ensures r.OutOfMemory? <==> old(Starved())
      ensures r.OutOfMemory? ==> unchanged(this)
      ensures r.Ok? ==> !TailLow()
      ensures !old(TailLow()) ==> r.Ok? && unchanged(this)
    {
      hide Links, NextOk, PrevOk, HeadOk, Ones, Inv, Frames, Span, Marks, Tally, HeldBy, BlocksOf;
      hide HeldOk;
      if used[|used| - 1] * 4 <= POOL_SIZE * 3 { return Ok(0); }
      r := AddNewPool();
    }

    /** More than three quarters of the tail pool is in use. */
    ghost predicate TailLow()
      reads `used
    {
      |used| > 0 && used[|used| - 1] * 4 > POOL_SIZE * 3
    }

    ghost predicate Ready(addr: nat, remain: nat)
      reads `mem, `linked, `poolBase
    {
      ReadyFor(Blocks(), |poolBase|, addr, remain)
    }

    /** The free frames fill the descriptors exactly if no block can be placed. */
    lemma FillsNow()
      requires Valid()
      ensures Fills(Free(), Capacity()) <==> !CanPlace()
      ensures forall addr, remain :: remain > 0 && Ready(addr, remain) ==> CanPlace()
    {
      hide Links, Marks, Tally, BlocksOf, Inv, Frames, HeldBy, Core, Fills, Left;
      SlotCount();
      FillsIs(Blocks(), Capacity());
    }

    lemma BigFits(n: nat, f: nat, pages: nat)
      requires Valid() && HasBig()
      ensures !Overflows(Free(), n, f, pages)
    {
      hide Links, Marks, Tally, BlocksOf, Inv, Frames, HeldBy, Core, Overflows, Cover, Aligned;
      var b :| b in Blocks() && b.order >= 2;
      InvOrders(Blocks());
      InvAligned(Blocks(), b);
      BuddyCovered(Blocks(), b);
      BigNeverOverflows(b, Free(), n, f, pages);
    }

    /** One piece of a range. */
    method PutPiece(addr: nat, remain: nat, order: nat) returns (halt: bool)
      requires Valid() && addr > 0 && IsPiece(addr, remain, order) && Span(addr, Size(order)) !! Total()
      modifies this
      ensures Valid() && held >= old(held) && freePages == old(freePages)
      ensures !halt ==> Total() == old(Total()) + Span(addr, Size(order))
      ensures halt ==> unchanged(this) && !CanPlace() && Overflows(old(Free()), old(Capacity()), addr, remain)
      ensures old(Ready(addr, remain)) ==> !halt && Ready(addr + Size(order), Rest(remain, order))
      ensures |poolBase| >= old(|poolBase|)
      ensures |poolBase| != old(|poolBase|) ==> !old(HasSlot())
      ensures |poolBase| != old(|poolBase|) ==>
                !Overflows(old(Free()), old(Capacity()), addr, remain) && Ready(addr + Size(order), Rest(remain, order))
      ensures !halt && |poolBase| == old(|poolBase|) ==>
                (Overflows(old(Free()), old(Capacity()), addr, remain) <==>
                 Overflows(Free(), old(Capacity()), addr + Size(order), Rest(remain, order)))
    {
      hide Links, NextOk, PrevOk, HeadOk, Ones, Inv, Frames, Span, Marks, Tally, HeldBy, BlocksOf;
      PieceFits(addr, remain, order);
      BlocksInv();
      hide Core, HeldOk, Aligned, Overflows, Left, Size, Buddy, CanPlace, Rest, Valid, Total, HasBig, HasSlot, AtMost;
      ghost var blocks, pools := Blocks(), |poolBase|;
      PieceBefore(addr, remain, order);
      ghost var m;
      halt, m := PutPageInOrder(addr, order);
      if halt { return; }
      PieceAfter(addr, remain, order, blocks, pools);
    }

    lemma PieceBefore(addr: nat, remain: nat, order: nat)
      requires Valid() && IsPiece(addr, remain, order)
      ensures !CanPlace() ==> Overflows(Free(), Capacity(), addr, remain) && !Ready(addr, remain)
      ensures HasBig() ==> !Overflows(Free(), Capacity(), addr, remain)
      ensures CanPlace() ==>
                (Overflows(Free(), Capacity(), addr, remain) <==>
                 Overflows(Free() + Span(addr, Size(order)), Capacity(), addr + Size(order), Rest(remain, order)))
    {
      PieceFits(addr, remain, order);
      hide Valid, Fills, CanPlace, HasBig, Overflows, Free, Span, Ready, IsPiece;
      FillsNow();
      OverflowStep(Free(), Capacity(), addr, remain, order);
      if HasBig() { BigFits(Capacity(), addr, remain); }
    }

    lemma {:induction false} PieceAfter(addr: nat, remain: nat, order: nat, blocks: set<Block>, pools: nat)
      requires Valid() && IsPiece(addr, remain, order) && Inv(blocks) && AtMost(|blocks|, pools, 1)
      requires |poolBase| == pools ==> Free() == Frames(blocks) + Span(addr, Size(order))
      ensures ReadyFor(blocks, pools, addr, remain) || |poolBase| != pools ==>
              Ready(addr + Size(order), Rest(remain, order))
    {
      hide Valid, Free, Inv, Left, Size, Rest, Aligned, Core, IsPiece, Frames, Span, Big, CanPlace;
      PieceFits(addr, remain, order);
      if order < 2 { LeftStep(addr, remain, order); }
      PutAmple(Block(addr, order), blocks, pools);
    }

    /** add_memory_range: cut a run of frames into the largest aligned blocks and free each. */
    method AddMemoryRange(f: nat, pages: nat) returns (halt: bool)
      requires Valid() && f > 0 && Span(f, pages) !! Total()
      modifies this
      ensures Valid() && held >= old(held) && freePages == old(freePages)
      ensures !halt ==> Total() == old(Total()) + Span(f, pages)
      ensures halt <==> Overflows(old(Free()), old(Capacity()), f, pages)
      ensures halt ==> !CanPlace()
      ensures old(Ample()) ==> !halt
      ensures OnePiece(f, pages) ==> (halt ==> unchanged(this)) && (old(HasSlot()) ==> |poolBase| == old(|poolBase|))
    {
      hide Links, NextOk, PrevOk, HeadOk, Ones, Inv, Frames, Span, Marks, Tally, HeldBy, BlocksOf;
      hide Core, HeldOk, Aligned, Overflows, Left, IsPiece, OnePiece, HasSlot;
      hide Valid, Total, CanPlace, Buddy, Free, Blocks, HasBig;
      hide Size, Rest;
      var remain, addr := pages, f;
      SpanSplit(f, 0, pages);
      halt := false;
      ghost var n, over := Capacity(), Overflows(Free(), Capacity(), f, pages);
      while remain > 0
        invariant Valid() && held >= old(held) && freePages == old(freePages)
        invariant remain >= 0 && addr >= f > 0
        invariant Span(addr, remain) !! Total() && Total() + Span(addr, remain) == old(Total()) + Span(f, pages)
        invariant |poolBase| >= old(|poolBase|)
        invariant |poolBase| == old(|poolBase|) ==> (over <==> Overflows(Free(), n, addr, remain))
        invariant |poolBase| != old(|poolBase|) ==> !over
        invariant |poolBase| != old(|poolBase|) || old(Ample()) ==> Ready(addr, remain)
        invariant OnePiece(f, pages) ==> remain == 0 || (addr == f && remain == pages && unchanged(this))
        invariant OnePiece(f, pages) && old(HasSlot()) ==> |poolBase| == old(|poolBase|)
      {
        var order := LargestOrder(addr, remain);
        PieceFits(addr, remain, order);
        if OnePiece(addr, remain) { WholePiece(addr, remain, order); }
        SpanSplit(addr, Size(order), remain);
        halt := PutPiece(addr, remain, order);
        if halt { return; }
        addr, remain := addr + Size(order), Rest(remain, order);
      }
      SpanSplit(addr, 0, 0);
      NothingLeft(Free(), n, addr);
    }

    static lemma NothingLeft(frames: set<nat>, n: nat, addr: nat)
      ensures !Overflows(frames, n, addr, 0)
    {}

    /** The inner loop of add_memory_range. */
    method LargestOrder(addr: nat, remain: nat) returns (order: nat)
      requires remain > 0
      ensures IsPiece(addr, remain, order)
    {
      order := 0;
      while order < MAX_ORDER
        invariant order <= MAX_ORDER && Size(order) <= remain && Aligned(addr, order)
      {
        if Size(order + 1) <= remain && Aligned(addr, order + 1) {
          order := order + 1;
        } else {
          break;
        }
      }
    }

    static lemma SmallSizes()
      ensures Size(0) == 1 && Size(1) == 2 && Size(2) == 4
      ensures forall j: nat :: j < MAX_ORDER ==> Size(j) <= Size(MAX_ORDER)
    {
      forall j: nat | j < MAX_ORDER ensures Size(j) <= Size(MAX_ORDER) { SizeMonotone(j, MAX_ORDER); }
    }

    /** pages2order: the least order that holds count frames. */
    method PagesToOrder(count: nat) returns (order: nat)
      ensures 1 <= count <= Size(MAX_ORDER) ==> order <= MAX_ORDER && count <= Size(order)
      ensures 1 <= count <= Size(MAX_ORDER) && order > 0 ==> Size(order - 1) < count
      ensures count == 0 ==> order == 3
      ensures count > Size(MAX_ORDER) ==> order == MAX_ORDER + 1
    {
      SmallSizes();
      hide Size;
      if count == 1 { return 0; }
      if count == 2 { return 1; }
      if count == 3 || count == 4 { return 2; }
      order := 3;
      while order <= MAX_ORDER
        invariant 3 <= order <= MAX_ORDER + 1
        invariant order > 3 ==> Size(order - 1) < count
      {
        if Size(order) >= count { break; }
        order := order + 1;
      }
      if count > Size(MAX_ORDER) && order <= MAX_ORDER { SizeMonotone(order, MAX_ORDER); }
    }

    lemma OneOverflows(f: nat)
      requires Valid()
      ensures Overflows(Free(), Capacity(), f, 1) <==> !CanPlace()
    {
      hide Links, Marks, Tally, BlocksOf, Inv, Frames, HeldBy, Core, Fills, CanPlace, Span;
      FillsNow();
      assert Size(0) == 1 && Size(1) == 2;
      assert IsPiece(f, 1, 0);
      OverflowStep(Free(), Capacity(), f, 1, 0);
    }

    /** put_page */
    method PutPage(f: nat, count: nat) returns (halt: bool)
      requires Valid() && Counted() && (f != 0 ==> Span(f, count) !! Total())
      modifies this
      ensures Valid() && held >= old(held)
      ensures !halt ==> Counted() && Total() == old(Total()) + (if f == 0 then {} else Span(f, count))
      ensures f == 0 || count == 0 ==> !halt && unchanged(this)
      ensures halt <==> f != 0 && Overflows(old(Free()), old(Capacity()), f, count)
      ensures halt ==> !CanPlace()
      ensures f != 0 && count == 1 ==> (halt <==> !old(CanPlace()))
      ensures OnePiece(f, count) && halt ==> Total() == old(Total())
      ensures OnePiece(f, count) && old(HasSlot()) ==> |poolBase| == old(|poolBase|)
    {
      hide Links, NextOk, PrevOk, HeadOk, Ones, Inv, Frames, Span, Marks, Tally, HeldBy, BlocksOf;
      hide Core, HeldOk, Overflows, CanPlace, OnePiece;
      NothingLeft(Free(), Capacity(), f);
      if count == 1 { OneOverflows(f); }
      if f == 0 || count == 0 {
        SpanSplit(f, 0, 0);
        return false;
      }
      SpanSize(f, count);
      freePages := freePages + count;
      halt := AddMemoryRange(f, count);
    }

    /** Order c is the least that holds count frames. */
    ghost predicate LeastOrder(count: nat, c: nat) {
      c <= MAX_ORDER && count <= Size(c) && (c > 0 ==> Size(c - 1) < count)
    }

    /** No aligned run of the order that count needs is free. */
    ghost predicate NoFit(bs: set<Block>, count: nat) {
      exists c :: LeastOrder(count, c) && NoRun(bs, c)
    }

    /** A free block of exactly count frames. */
    ghost predicate ExactFit(bs: set<Block>, count: nat) {
      exists b :: b in bs && Size(b.order) == count
    }

    lemma LeastOrderUnique(count: nat, c: nat, d: nat)
      requires LeastOrder(count, c) && LeastOrder(count, d)
      ensures c == d
    {
      hide Size;
      if c < d { SizeMonotone(c, d - 1); }
      if d < c { SizeMonotone(d, c - 1); }
    }

    lemma ExactOrder(count: nat, c: nat, b: Block)
      requires LeastOrder(count, c) && Size(b.order) == count && b.order <= MAX_ORDER
      ensures b.order == c
    {
      hide Size;
      if c < b.order { SizeGrows(c, b.order); }
      if b.order < c { SizeMonotone(b.order, c - 1); }
    }

    lemma BlocksInv()
      requires Valid()
      ensures Inv(Blocks())
    {}

    /** What the least order says about fits. */
    lemma FitOrder(bs: set<Block>, count: nat, c: nat)
      requires Inv(bs) && LeastOrder(count, c)
      ensures NoFit(bs, count) <==> NoRun(bs, c)
      ensures ExactFit(bs, count) ==> Size(c) == count && exists b :: b in bs && b.order == c
    {
      hide Size, NoRun, Inv;
      forall d | LeastOrder(count, d) ensures d == c { LeastOrderUnique(count, c, d); }
      if ExactFit(bs, count) {
        var b :| b in bs && Size(b.order) == count;
        InvOrders(bs);
        ExactOrder(count, c, b);
      }
    }

    lemma SizeGrows(c: nat, d: nat)
      requires c < d
      ensures Size(c) < Size(d)
    {
      SizeMonotone(c + 1, d);
    }

    /**
     get_free_page.  taken is what left the allocator: nothing on an early error, the frames
     returned on success, and the same number of frames when the pool expansion that follows a
     successful allocation fails, in which case the caller gets an error and the frames are lost.
     */
    method GetFreePage(count: nat) returns (r: Outcome, ghost taken: set<nat>)
      requires Valid() && Counted()
      modifies this
      ensures Valid() && held >= old(held)
      ensures r.InvalidParam? <==> count == 0 || count > Size(MAX_ORDER)
      ensures !r.Halt? ==> Counted() && Total() + taken == old(Total()) && Total() !! taken && taken <= old(Free())
      ensures r.Ok? ==> r.frame > 0 && taken == Span(r.frame, count)
      ensures r.Ok? ==> exists c :: LeastOrder(count, c) && Aligned(r.frame, c)
      ensures r.InvalidParam? || (r.OutOfMemory? && taken == {}) ==> unchanged(this)
      ensures !r.InvalidParam? ==> (r.OutOfMemory? && taken == {} <==> NoFit(old(Blocks()), count))
      ensures !r.Halt? && taken != {} ==> |taken| == count && (r.Ok? <==> !Starved()) && (r.OutOfMemory? <==> Starved())
      ensures !r.InvalidParam? ==> (r.Halt? <==> TailOverflows(old(Blocks()), old(Capacity()), count))
      ensures r.Halt? ==> !CanPlace()
      ensures !r.InvalidParam? && ExactFit(old(Blocks()), count) ==> !r.Halt? && |taken| == count
      ensures forall c :: !r.InvalidParam? && LeastOrder(count, c) && ExactFit(old(Blocks()), count) ==>
                (r.OutOfMemory? <==> old(StarvedAfter(c)))
    {
      hide Links, NextOk, PrevOk, HeadOk, Ones, Inv, Frames, Span, Marks, Tally, HeldBy, BlocksOf;
      hide Core, HeldOk, CanPlace, TailOverflows, StarvedAfter, Aligned, Size, Valid, NoFit, ExactFit, Blocks, Total,
          Free, LeastOrder;
      taken := {};
      if count == 0 { return InvalidParam, {}; }
      if count > Size(MAX_ORDER) { return InvalidParam, {}; }
      r := Carve(count);
      if !r.Ok? { return; }
      var f := r.frame;
      taken := Span(f, count);
      SpanSize(f, count);
      assert |old(Total())| == |Total()| + |taken|;
      freePages := freePages - count;
      var e := MaybeExpandPool();
      if !e.Ok? { return e, taken; }
      return Ok(f), taken;
    }

    /** Fetch a block for count frames and hand back its unused tail. */
    method Carve(count: nat) returns (r: Outcome)
      requires Valid() && 1 <= count <= Size(MAX_ORDER)
      modifies this
      ensures Valid() && held >= old(held) && freePages == old(freePages)
      ensures r.Ok? || r.OutOfMemory? || r.Halt?
      ensures r.Ok? ==> Total() + Span(r.frame, count) == old(Total()) && Total() !! Span(r.frame, count)
      ensures r.Ok? ==> r.frame > 0 && Span(r.frame, count) <= old(Free())
      ensures r.Ok? ==> exists c :: LeastOrder(count, c) && Aligned(r.frame, c)
      ensures r.OutOfMemory? <==> NoFit(old(Blocks()), count)
      ensures r.OutOfMemory? ==> unchanged(this)
      ensures r.Halt? <==> TailOverflows(old(Blocks()), old(Capacity()), count)
      ensures r.Halt? ==> !CanPlace()
      ensures ExactFit(old(Blocks()), count) ==> r.Ok?
      ensures forall c :: r.Ok? && LeastOrder(count, c) && ExactFit(old(Blocks()), count) ==>
                (Starved() <==> old(StarvedAfter(c)))
    {
      hide Links, NextOk, PrevOk, HeadOk, Ones, Inv, Frames, Span, Marks, Tally, HeldBy, BlocksOf;
      hide Core, HeldOk, Aligned, BestFit, Size, Valid, Total, NoRun, Overflows, CanPlace, Ample;
      hide NoFit, ExactFit, TailOverflows, Starved, StarvedAfter;
      var order := PagesToOrder(count);
      BlocksInv();
      FitOrder(Blocks(), count, order);
      ghost var bs, n := Blocks(), Capacity();
      r := FetchFrameOrder(order);
      NoRunNoBlock(bs, order);
      TailIs(bs, n, count, order);
      if !r.Ok? { return; }
      forall c | LeastOrder(count, c) ensures c == order { LeastOrderUnique(count, c, order); }
      var f := r.frame;
      SpanSplit(f, count, Size(order));
      TakeApart(old(Total()), f, count, Size(order));
      NothingLeft(Frames(bs) - Cover(Block(f, order)), n, f + count);
      if Size(order) > count {
        FreeWithout(bs, Block(f, order));
        TailOrder(count, order);
        var halt := AddMemoryRange(f + count, Size(order) - count);
        if halt { return Halt; }
      }
    }

    lemma FreeWithout(bs: set<Block>, b: Block)
      requires Inv(bs)
      ensures BestFit(bs, b.order, b) && Blocks() == bs - {b} ==> Free() == Frames(bs) - Cover(b)
    {
      hide Frames, Cover, BlocksOf;
      InvSeparate(bs);
      if BestFit(bs, b.order, b) { FramesRemove(bs, b); }
    }

    /** Only from four frames on a block is trimmed. */
    lemma TailOrder(count: nat, c: nat)
      requires LeastOrder(count, c) && 0 < count < Size(c)
      ensures c >= 2
    {
      assert Size(0) == 1 && Size(1) == 2;
    }

    /** Only the first block of exactly the least order can be the one whose tail overflows. */
    lemma TailIs(bs: set<Block>, n: nat, count: nat, c: nat)
      requires LeastOrder(count, c)
      ensures (forall b :: b in bs ==> b.order != c) ==> !TailOverflows(bs, n, count)
      ensures forall b :: BestFit(bs, c, b) && b.order == c ==>
                (TailOverflows(bs, n, count) <==> Overflows(Frames(bs) - Cover(b), n, b.base + count, Size(c) - count))
    {
      hide Size, Overflows, Frames, Cover;
      forall e | LeastOrder(count, e) ensures e == c { LeastOrderUnique(count, e, c); }
    }

    /** The block for count frames fits exactly, and the rest of it cannot be put back. */
    ghost predicate TailOverflows(bs: set<Block>, n: nat, count: nat) {
      exists c, b :: LeastOrder(count, c) && BestFit(bs, c, b) && b.order == c
        && Overflows(Frames(bs) - Cover(b), n, b.base + count, Size(c) - count)
    }

    lemma TakeApart(total: set<nat>, f: nat, count: nat, size: nat)
      requires Total() !! Span(f, size) && Total() + Span(f, size) == total && count <= size
      ensures Span(f + count, size - count) !! Total() && Span(f, count) !! Total() + Span(f + count, size - count)
      ensures Total() + Span(f + count, size - count) + Span(f, count) == total
      ensures size == count ==> Span(f + count, size - count) == {}
    {
      hide Span;
      SpanSize(f, count);
      SpanSplit(f, count, size);
      SpanSplit(f + count, 0, size - count);
    }

    /** The tail pool is nearly full and no block is large enough for another pool. */
    ghost predicate Starved()
      reads `used, `mem, `linked
    {
      TailLow() && !HasBig()
    }
  }
}
