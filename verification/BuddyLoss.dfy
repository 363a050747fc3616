/**
 Runs of the buddy allocator that go wrong.  Isolated frames freed one by one each need a descriptor,
 and no four adjacent frames exist for another pool of them.  With 382 of them a single-frame
 allocation takes its frame and then reports an error; with 508 the next free halts the kernel;
 with 507 and one block of eight frames the allocation of five frames does.
 */
module BuddyLoss {
  import opened BuddyBlocks
  import opened BuddyLists
  import opened BuddyPools
  import opened BuddyAllocator
  import Queues

  const ISOLATED: nat := 382

  /** The first n odd frames. */
  ghost function Odds(n: nat): (s: set<nat>)
    ensures |s| == n && forall x: nat :: x in s <==> x % 2 == 1 && x < 2 * n
  {
    if n == 0 then {} else Odds(n - 1) + {2 * n - 1}
  }

  // ---------- counting descriptors ----------

  ghost function SetBits(bits: seq<bool>, n: nat): set<int>
    requires n <= |bits|
  {
    set i | 0 <= i < n && bits[i]
  }

  lemma {:induction false} OnesCount(bits: seq<bool>, n: nat)
    requires n <= |bits|
    ensures Ones(bits, 0, n) == |SetBits(bits, n)|
  {
    if n > 0 {
      OnesCount(bits, n - 1);
      assert SetBits(bits, n) == SetBits(bits, n - 1) + (if bits[n - 1] then {n - 1} else {});
    }
  }

  /** In a single pool the used count is the headers and the slots handed out. */
  lemma UsedCount(bits: seq<bool>, used: seq<nat>, taken: set<int>)
    requires Tally(bits, used) && Marks(bits, taken) && |used| == 1
    ensures used[0] == HEADER_BLOCKS + |taken|
  {
    hide Ones;
    var headers := {0, 1, 2, 3};
    OnesCount(bits, POOL_SIZE);
    forall i ensures i in SetBits(bits, POOL_SIZE) <==> i in headers || i in taken {}
    assert SetBits(bits, POOL_SIZE) == headers + taken;
    assert headers !! taken;
  }

  // ---------- isolated frames ----------

  ghost predicate AllOdd(frames: set<nat>) {
    forall x :: x in frames ==> x % 2 == 1
  }

  /** One block per frame. */
  ghost function Singles(frames: set<nat>): set<Block> {
    set x | x in frames :: Block(x, 0)
  }

  lemma {:induction false} SinglesCount(frames: set<nat>)
    ensures |Singles(frames)| == |frames|
  {
    if frames == {} {
      assert Singles(frames) == {};
    } else {
      var x := Queues.Member(frames);
      SinglesCount(frames - {x});
      assert Singles(frames) == Singles(frames - {x}) + {Block(x, 0)};
    }
  }

  lemma OddPair(x: nat, y: nat)
    requires x % 2 == 1 == y % 2
    ensures WellPlaced(Block(x, 0)) && Block(x, 0) != Buddy(Block(y, 0)) &&
            (x != y ==> Disjoint(Block(x, 0), Block(y, 0)))
  {}

  /** Odd frames are no buddies, so these blocks are what a valid allocator has for them. */
  lemma SinglesInv(frames: set<nat>)
    requires AllOdd(frames)
    ensures Inv(Singles(frames)) && Frames(Singles(frames)) == frames && !Big(Singles(frames))
  {
    hide Size, Run, WellPlaced, Disjoint, Buddy, Frames;
    var bs := Singles(frames);
    forall a, b | a in bs && b in bs ensures WellPlaced(a) && a != Buddy(b) && (a != b ==> Disjoint(a, b)) {
      OddPair(a.base, b.base);
    }
    hide Separate, Merged;
    SinglesFrames(frames);
  }

  lemma SinglesFrames(frames: set<nat>)
    ensures Frames(Singles(frames)) == frames
  {
    assert Size(0) == 1;
    hide Size, Run, Frames;
    var bs := Singles(frames);
    forall x ensures x in Frames(bs) <==> x in frames {
      if x in frames { FramesOf(bs, Block(x, 0), x); }
      if x in Frames(bs) { var b := Holder(bs, x); }
    }
  }

  lemma PoolFrames(poolBase: seq<nat>)
    requires |poolBase| > 1
    ensures poolBase[1] in HeldBy(poolBase) && poolBase[1] + 1 in HeldBy(poolBase)
  {
    assert poolBase[1] in Span(poolBase[1], EXPAND_PAGES) && poolBase[1] + 1 in Span(poolBase[1], EXPAND_PAGES);
  }

  lemma PoolCount(a: BuddyAllocator)
    requires a.Valid()
    ensures |a.used| == |a.poolBase| >= 1
    ensures a.held == HeldBy(a.poolBase) && |a.held| == EXPAND_PAGES * (|a.poolBase| - 1)
  {}

  lemma Adjacent(frames: set<nat>, x: nat)
    requires AllOdd(frames) && x in frames
    ensures x + 1 !in frames
  {}

  /** Four adjacent frames are never all odd, so there is no expansion pool. */
  lemma NoPools(a: BuddyAllocator)
    requires a.Valid() && AllOdd(a.Total())
    ensures |a.poolBase| == 1 == |a.used| && a.held == {}
  {
    hide BuddyAllocator.Valid, HeldBy, BuddyAllocator.Free, AllOdd;
    PoolCount(a);
    assert a.held <= a.Total();
    hide BuddyAllocator.Total;
    if |a.poolBase| > 1 {
      PoolFrames(a.poolBase);
      Adjacent(a.Total(), a.poolBase[1]);
    }
  }

  /** A valid allocator over isolated frames: one pool, one block and one descriptor per frame. */
  lemma Isolated(a: BuddyAllocator)
    requires a.Valid() && AllOdd(a.Total())
    ensures a.used == [HEADER_BLOCKS + |a.Total()|] && |a.poolBase| == 1 && a.Free() == a.Total()
    ensures a.Blocks() == Singles(a.Total()) && !a.HasBig()
    ensures a.HasSlot() <==> |a.Total()| < SLOTS
  {
    hide BuddyAllocator.Valid, Frames, Singles, Inv;
    NoPools(a);
    assert a.Total() == a.Free();
    a.BlocksInv();
    SinglesInv(a.Total());
    SinglesCount(a.Total());
    Canonical(a.Blocks(), Singles(a.Total()));
    CoreParts(a);
    hide Links, Tally, Marks, BlocksOf;
    BlockCount(a.mem, a.freeArea, a.linked);
    a.SlotCount();
    UsedCount(a.bitmap, a.used, a.linked);
  }

  lemma CoreParts(a: BuddyAllocator)
    requires a.Valid()
    ensures a.Core({}) && Links(a.mem, a.freeArea, a.linked) && Marks(a.bitmap, a.linked) && Tally(a.bitmap, a.used)
  {
    hide Links, Tally, Marks, Inv;
    assert a.linked + {} == a.linked;
  }

  /** The first n odd frames, put back one after the other. */
  method Scatter(n: nat) returns (a: BuddyAllocator)
    requires n <= SLOTS
    ensures fresh(a) && a.Valid() && a.Counted() && a.Total() == Odds(n)
  {
    hide BuddyAllocator.Valid, BuddyAllocator.Total, BuddyAllocator.HasSlot, BuddyAllocator.HasBig, BuddyAllocator.Free;
    a := new BuddyAllocator();
    assert Odds(0) == {};
    for i := 0 to n
      invariant fresh(a) && a.Valid() && a.Counted() && a.Total() == Odds(i)
    {
      hide Span, Odds, Overflows, OnePiece, Singles;
      Isolated(a);
      NextOdd(i);
      var halt := a.PutPage(2 * i + 1, 1);
    }
  }

  lemma NextOdd(i: nat)
    ensures Span(2 * i + 1, 1) !! Odds(i) && Odds(i + 1) == Odds(i) + Span(2 * i + 1, 1)
  {
    var next := Span(2 * i + 1, 1);
    assert forall x :: x in next <==> x == 2 * i + 1;
  }

  // ---------- a frame is lost ----------

  /** What the allocation of one frame finds. */
  lemma OneFits(a: BuddyAllocator)
    requires a.Valid() && AllOdd(a.Total()) && a.Total() != {}
    ensures a.LeastOrder(1, 0) && a.ExactFit(a.Blocks(), 1)
  {
    hide BuddyAllocator.Total, BuddyAllocator.Valid, BuddyAllocator.Blocks, BuddyAllocator.Free;
    Isolated(a);
    var x := Queues.Member(a.Total());
    var b := Block(x, 0);
    assert b in Singles(a.Total()) && Size(b.order) == 1;
  }

  /** The allocation takes a frame out of the allocator and reports that there is none. */
  method LoseFrame() returns (a: BuddyAllocator, r: Outcome, ghost taken: set<nat>)
    ensures fresh(a) && a.Valid() && r == OutOfMemory
    ensures |taken| == 1 && a.Total() !! taken && a.Total() + taken == Odds(ISOLATED)
  {
    hide BuddyAllocator.Valid, BuddyAllocator.Total, BuddyAllocator.HasSlot, BuddyAllocator.Blocks;
    hide BuddyAllocator.NoFit, BuddyAllocator.ExactFit, BuddyAllocator.TailOverflows, BuddyAllocator.StarvedAfter;
    hide BuddyAllocator.Free, BuddyAllocator.LeastOrder, BuddyAllocator.CanPlace, Span, Size, Aligned, Odds, Singles;
    a := Scatter(ISOLATED);
    OneFits(a);
    OneIsSmall();
    r, taken := a.GetFreePage(1);
    if r.Ok? { SpanSize(r.frame, 1); }
    assert |Odds(ISOLATED)| == |a.Total()| + |taken|;
    Isolated(a);
    assert a.Starved();
  }

  lemma OneIsSmall()
    ensures 1 <= Size(MAX_ORDER)
  {
    SizeMonotone(0, MAX_ORDER);
  }

  // ---------- the kernel halts ----------

  /** With a descriptor for each of 508 isolated frames, putting back one more trips the assertion. */
  method HaltOnPut() returns (a: BuddyAllocator, halt: bool)
    ensures fresh(a) && a.Valid() && halt && a.Total() == Odds(SLOTS)
  {
    hide BuddyAllocator.Valid, BuddyAllocator.Total, BuddyAllocator.HasSlot, BuddyAllocator.HasBig, BuddyAllocator.Free;
    hide Span, Odds, Overflows, OnePiece, Singles;
    a := Scatter(SLOTS);
    Isolated(a);
    NextOdd(SLOTS);
    OneFrame(2 * SLOTS + 1);
    halt := a.PutPage(2 * SLOTS + 1, 1);
  }

  lemma OneFrame(f: nat)
    ensures OnePiece(f, 1)
  {
    assert Size(0) == 1 && Size(1) == 2;
    assert IsPiece(f, 1, 0);
  }

  const BASE: nat := 2048
  const EIGHT := Block(BASE, 3)

  lemma EightPlace()
    ensures WellPlaced(EIGHT) && Cover(EIGHT) == Span(BASE, 8) && Size(3) == 8
    ensures IsPiece(BASE, 8, 3) && OnePiece(BASE, 8)
    ensures IsPiece(BASE + 5, 3, 0) && Rest(3, 0) == 2 && Size(0) == 1
  {
    assert Size(0) == 1 && Size(1) == 2 && Size(2) == 4 && Size(3) == 8 && Size(4) == 16;
    assert Aligned(BASE, 3);
    assert !Aligned(BASE + 5, 1);
  }

  /** 507 isolated frames and a block of eight: the block set of a valid allocator over them. */
  ghost function Crowd(): set<Block> {
    Singles(Odds(SLOTS - 1)) + {EIGHT}
  }

  /** The block lies behind the odd frames. */
  lemma EightApart(n: nat, odds: set<nat>)
    requires n == SLOTS - 1 && odds == Odds(n)
    ensures AllOdd(odds) && Span(BASE, 8) !! odds && |odds| == SLOTS - 1
    ensures AllOdd(odds + {BASE + 5}) && |odds + {BASE + 5}| == SLOTS && Span(BASE + 5, 1) == {BASE + 5}
  {
    hide Odds, Run;
    assert BASE + 5 !in odds;
  }

  lemma CrowdInv()
    ensures Inv(Crowd()) && Frames(Crowd()) == Odds(SLOTS - 1) + Cover(EIGHT) && |Crowd()| == SLOTS
    ensures Frames(Crowd()) - Cover(EIGHT) == Odds(SLOTS - 1) && Cover(EIGHT) !! Odds(SLOTS - 1)
    ensures BestFit(Crowd(), 3, EIGHT)
  {
    hide Odds, Inv, Frames, Cover, Span, Size, WellPlaced, AllOdd, Clear, FlipBit;
    var odds := Odds(SLOTS - 1);
    EightApart(SLOTS - 1, odds);
    EightPlace();
    SinglesInv(odds);
    SinglesCount(odds);
    var bs := Singles(odds);
    forall c | c in bs ensures c.order == 0 {}
    hide Singles;
    EightBuddy();
    ClearIsDisjoint(bs, EIGHT);
    InsertStep(bs, EIGHT);
  }

  lemma EightBuddy()
    ensures Buddy(EIGHT) != EIGHT && Buddy(EIGHT).order == 3
  {
    EightPlace();
    BuddyPair(BASE, 3);
  }

  /** Cutting five frames off the block leaves a piece too many. */
  lemma TailTooMuch()
    ensures Overflows(Odds(SLOTS - 1), SLOTS, BASE + 5, 3)
  {
    hide IsPiece, Rest, Size, Span, Odds, Overflows, Inv, Frames, Singles, Fills, AllOdd;
    var odds := Odds(SLOTS - 1);
    var more := odds + {BASE + 5};
    EightApart(SLOTS - 1, odds);
    EightPlace();
    SinglesInv(more);
    SinglesCount(more);
    FillsIs(Singles(more), SLOTS);
    OverflowStep(odds, SLOTS, BASE + 5, 3, 0);
    NowOverflows(more, SLOTS, BASE + 6, 2);
  }

  lemma NowOverflows(frames: set<nat>, n: nat, f: nat, pages: nat)
    requires Fills(frames, n) && pages > 0
    ensures Overflows(frames, n, f, pages)
  {
    hide Fills;
  }

  /** The block itself still finds a descriptor. */
  lemma EightFits()
    ensures !Overflows(Odds(SLOTS - 1), SLOTS, BASE, 8)
  {
    hide IsPiece, Size, Span, Odds, Overflows, Inv, Frames, Singles, Fills, AllOdd;
    var odds := Odds(SLOTS - 1);
    EightApart(SLOTS - 1, odds);
    SinglesInv(odds);
    SinglesCount(odds);
    EightPlace();
    FillsIs(Singles(odds), SLOTS);
    OverflowStep(odds, SLOTS, BASE, 8, 3);
    BuddyAllocator.NothingLeft(odds + Span(BASE, Size(3)), SLOTS, BASE + Size(3));
  }

  /** A valid allocator with one pool that owns these frames has these blocks. */
  lemma Crowded(a: BuddyAllocator)
    requires a.Valid() && |a.poolBase| == 1 && a.Total() == Odds(SLOTS - 1) + Span(BASE, 8)
    ensures a.Blocks() == Crowd() && a.Capacity() == SLOTS
  {
    hide BuddyAllocator.Valid, Frames, Inv, Crowd, Odds, Span, Cover;
    PoolCount(a);
    assert a.held == {};
    EightPlace();
    CrowdInv();
    a.BlocksInv();
    Canonical(a.Blocks(), Crowd());
  }

  lemma FiveOverflow(a: BuddyAllocator)
    ensures a.TailOverflows(Crowd(), SLOTS, 5)
  {
    EightPlace();
    FiveOrder(a);
    CrowdInv();
    TailTooMuch();
    hide Crowd, Inv, Frames, Cover, BestFit, Overflows, BuddyAllocator.LeastOrder, Odds;
    assert EIGHT.order == 3 && Overflows(Frames(Crowd()) - Cover(EIGHT), SLOTS, EIGHT.base + 5, Size(3) - 5);
  }

  lemma FiveOrder(a: BuddyAllocator)
    ensures a.LeastOrder(5, 3) && 5 <= Size(MAX_ORDER)
  {
    assert Size(0) == 1 && Size(1) == 2 && Size(2) == 4 && Size(3) == 8;
    SizeMonotone(3, MAX_ORDER);
  }

  /** With every descriptor in use, an allocation that has to trim its block trips the assertion. */
  method HaltOnGet() returns (a: BuddyAllocator, r: Outcome)
    ensures fresh(a) && r == Halt
  {
    hide BuddyAllocator.Valid, BuddyAllocator.Total, BuddyAllocator.HasSlot, BuddyAllocator.HasBig, BuddyAllocator.Free;
    hide Span, Odds, Overflows, OnePiece, Singles, BuddyAllocator.TailOverflows, BuddyAllocator.Blocks, Crowd, Cover,
        IsPiece;
    hide BuddyAllocator.CanPlace, BuddyAllocator.ExactFit, BuddyAllocator.NoFit, BuddyAllocator.StarvedAfter, Size;
    a := Scatter(SLOTS - 1);
    Isolated(a);
    EightPlace();
    CrowdInv();
    EightFits();
    var halt := a.PutPage(BASE, 8);
    Crowded(a);
    FiveOverflow(a);
    FiveOrder(a);
    ghost var taken;
    r, taken := a.GetFreePage(5);
  }
}
