/**
 The theory of power-of-two blocks and of the buddy free set: which sets of blocks the
 allocator keeps, why such a set is complete, and why it is determined by the frames it
 covers.  Addresses are counted in 4 KiB frames, so a block of order k has Size(k) frames.
 */
module BuddyBlocks {

  const MAX_ORDER: nat := 15

  /** A block of Size(order) frames starting at frame base. */
  datatype Block = Block(base: nat, order: nat)

  /** 1 << k */
  function Size(k: nat): (s: nat)
    ensures s >= 1
  {
    if k == 0 then 1 else 2 * Size(k - 1)
  }

  /** The low k bits of f are clear. */
  predicate Aligned(f: nat, k: nat) {
    k == 0 || (f % 2 == 0 && Aligned(f / 2, k - 1))
  }

  /** f with bit k flipped, that is f ^ (1 << k). */
  function FlipBit(f: nat, k: nat): nat {
    if k == 0 then (if f % 2 == 0 then f + 1 else f - 1)
    else 2 * FlipBit(f / 2, k - 1) + f % 2
  }

  /** The n frames from f on. */
  function Run(f: nat, n: nat): (s: set<nat>)
    ensures forall x: nat :: x in s <==> f <= x < f + n
    ensures |s| == n
  {
    if n == 0 then {} else Run(f, n - 1) + {f + n - 1}
  }

  function Span(f: nat, n: nat): set<nat> {
    Run(f, n)
  }

  function Cover(b: Block): set<nat> {
    Span(b.base, Size(b.order))
  }

  ghost function Frames(bs: set<Block>): set<nat> {
    set b, x | b in bs && x in Cover(b) :: x
  }

  // ---------- alignment ----------

  lemma {:induction false} AlignedIsMultiple(f: nat, k: nat)
    ensures Aligned(f, k) <==> f % Size(k) == 0
  {
    if k > 0 {
      AlignedIsMultiple(f / 2, k - 1);
      DoubleMod(f, Size(k - 1));
    }
  }

  lemma DoubleMod(f: nat, s: nat)
    requires s > 0
    ensures f % (2 * s) == 2 * ((f / 2) % s) + f % 2
  {
    DivMod(f / 2, s);
    var q, r := (f / 2) / s, (f / 2) % s;
    assert 2 * (q * s) == q * (2 * s);
    UniqueMod(f, 2 * s, q, 2 * r + f % 2);
  }

  lemma DivMod(f: nat, s: nat)
    requires s > 0
    ensures f == (f / s) * s + f % s
  {}

  lemma {:induction false} MulGrows(n: nat, s: nat)
    requires n >= 1
    ensures n * s >= s
  {
    if n > 1 { MulGrows(n - 1, s); }
  }

  lemma ProductGap(p: nat, q: nat, s: nat)
    requires p != q
    ensures p * s >= q * s + s || q * s >= p * s + s
  {
    if p > q {
      MulGrows(p - q, s);
      assert p * s == q * s + (p - q) * s;
    } else {
      MulGrows(q - p, s);
      assert q * s == p * s + (q - p) * s;
    }
  }

  lemma UniqueMod(f: nat, s: nat, q: nat, r: nat)
    requires 0 <= r < s && f == q * s + r
    ensures f % s == r
  {
    DivMod(f, s);
    if f / s != q { ProductGap(f / s, q, s); }
  }

  lemma {:induction false} SizeMonotone(j: nat, k: nat)
    requires j <= k
    ensures Size(j) <= Size(k)
    ensures j < k ==> 2 * Size(j) <= Size(k)
    decreases k
  {
    if j < k { SizeMonotone(j, k - 1); }
  }

  lemma {:induction false} AlignedDown(f: nat, j: nat, k: nat)
    requires j <= k && Aligned(f, k)
    ensures Aligned(f, j)
  {
    if j > 0 { AlignedDown(f / 2, j - 1, k - 1); }
  }

  /** Two aligned frames are equal or at least one block apart. */
  lemma {:induction false} Apart(a: nat, b: nat, k: nat)
    requires Aligned(a, k) && Aligned(b, k) && a < b
    ensures a + Size(k) <= b
  {
    if k > 0 { Apart(a / 2, b / 2, k - 1); }
  }

  /** The end of an aligned block is aligned for every smaller order. */
  lemma {:induction false} AlignedEnd(f: nat, j: nat, k: nat)
    requires j <= k && Aligned(f, k)
    ensures Aligned(f + Size(k), j)
  {
    if j > 0 {
      AlignedEnd(f / 2, j - 1, k - 1);
      assert (f + Size(k)) / 2 == f / 2 + Size(k - 1);
    }
  }

  /** The two halves of an aligned block are aligned and each other's buddy. */
  lemma {:induction false} Halves(f: nat, k: nat)
    requires Aligned(f, k + 1)
    ensures Aligned(f, k) && Aligned(f + Size(k), k)
    ensures FlipBit(f, k) == f + Size(k) && FlipBit(f + Size(k), k) == f
  {
    if k > 0 {
      Halves(f / 2, k - 1);
      assert (f + Size(k)) / 2 == f / 2 + Size(k - 1);
    }
  }

  /** g is the buddy half of f in a block of order k + 1. */
  predicate Paired(f: nat, g: nat, k: nat) {
    var p := if g < f then g else f;
    Aligned(p, k + 1) && ((f == p && g == p + Size(k)) || (g == p && f == p + Size(k)))
  }

  lemma FlipHalf(f: nat, k: nat)
    requires Aligned(f, k) && k > 0
    ensures f == 2 * (f / 2) && Aligned(f / 2, k - 1) && FlipBit(f, k) == 2 * FlipBit(f / 2, k - 1)
  {}

  lemma PairedDouble(f: nat, g: nat, k: nat)
    requires Paired(f, g, k)
    ensures Paired(2 * f, 2 * g, k + 1)
  {
    var p := if g < f then g else f;
    assert 2 * p / 2 == p;
    assert Size(k + 1) == 2 * Size(k);
  }

  /** A block and its buddy are the two halves of one aligned block of the next order. */
  lemma {:induction false} BuddyPair(f: nat, k: nat)
    requires Aligned(f, k)
    ensures Paired(f, FlipBit(f, k), k)
  {
    if k == 0 {
      var p := if FlipBit(f, 0) < f then FlipBit(f, 0) else f;
      assert Aligned(p / 2, 0);
    } else {
      FlipHalf(f, k);
      hide Paired, FlipBit;
      BuddyPair(f / 2, k - 1);
      PairedDouble(f / 2, FlipBit(f / 2, k - 1), k - 1);
    }
  }

  function End(b: Block): nat {
    b.base + Size(b.order)
  }

  predicate Within(a: Block, b: Block) {
    b.base <= a.base && End(a) <= End(b)
  }

  predicate Disjoint(a: Block, b: Block) {
    End(a) <= b.base || End(b) <= a.base
  }

  /** Aligned blocks never overlap partially. */
  lemma Nested(a: Block, b: Block)
    requires a.order <= b.order && Aligned(a.base, a.order) && Aligned(b.base, b.order)
    ensures Within(a, b) || Disjoint(a, b)
    ensures a.order == b.order && !Disjoint(a, b) ==> a == b
  {
    AlignedDown(b.base, a.order, b.order);
    AlignedEnd(b.base, a.order, b.order);
    if a.base < b.base { Apart(a.base, b.base, a.order); }
    if b.base < a.base && a.order == b.order { Apart(b.base, a.base, a.order); }
    if a.base < End(b) { Apart(a.base, End(b), a.order); }
  }

  // ---------- the free set ----------

  function Buddy(b: Block): Block {
    Block(FlipBit(b.base, b.order), b.order)
  }

  function Parent(b: Block): Block {
    Block(if FlipBit(b.base, b.order) < b.base then FlipBit(b.base, b.order) else b.base, b.order + 1)
  }

  ghost predicate WellPlaced(b: Block) {
    b.order <= MAX_ORDER && b.base > 0 && Aligned(b.base, b.order)
  }

  /** Blocks are well placed and pairwise disjoint. */
  ghost predicate Separate(bs: set<Block>) {
    && (forall b :: b in bs ==> WellPlaced(b))
    && (forall a, b :: a in bs && b in bs && a != b ==> Disjoint(a, b))
  }

  /** No two free buddies below the largest order: every possible merge has happened. */
  ghost predicate Merged(bs: set<Block>) {
    forall a, b :: a in bs && b in bs && b.order < MAX_ORDER ==> a != Buddy(b)
  }

  ghost predicate Inv(bs: set<Block>) {
    Separate(bs) && Merged(bs)
  }

  /** Block b meets none of the blocks bs. */
  ghost predicate Clear(bs: set<Block>, b: Block) {
    forall c :: c in bs ==> Disjoint(b, c)
  }

  ghost predicate AllFree(bs: set<Block>, r: Block) {
    Cover(r) <= Frames(bs)
  }

  lemma Holder(bs: set<Block>, x: nat) returns (b: Block)
    requires x in Frames(bs)
    ensures b in bs && b.base <= x < End(b)
  {
    b :| b in bs && x in Cover(b);
  }

  lemma FramesOf(bs: set<Block>, b: Block, x: nat)
    requires b in bs && b.base <= x < End(b)
    ensures x in Frames(bs)
  {
    assert x in Cover(b);
  }

  lemma AllFreePart(bs: set<Block>, r: Block, a: Block)
    requires AllFree(bs, r) && Within(a, r)
    ensures AllFree(bs, a)
  {
    hide Run, Size;
    assert Cover(a) <= Cover(r);
  }

  lemma BuddyBlocksOf(b: Block)
    requires Aligned(b.base, b.order)
    ensures Aligned(Parent(b).base, b.order + 1) && Aligned(Buddy(b).base, b.order)
    ensures Buddy(Buddy(b)) == b && Disjoint(b, Buddy(b))
    ensures End(Parent(b)) == Parent(b).base + 2 * Size(b.order)
    ensures (b.base == Parent(b).base && Buddy(b).base == End(b) && End(Buddy(b)) == End(Parent(b)))
         || (Buddy(b).base == Parent(b).base && b.base == End(Buddy(b)) && End(b) == End(Parent(b)))
  {
    BuddyPair(b.base, b.order);
    Halves(Parent(b).base, b.order);
  }

  function Lower(r: Block): Block
    requires r.order > 0
  {
    Block(r.base, r.order - 1)
  }

  function Upper(r: Block): Block
    requires r.order > 0
  {
    Block(r.base + Size(r.order - 1), r.order - 1)
  }

  lemma HalvesOf(r: Block)
    requires r.order > 0 && Aligned(r.base, r.order)
    ensures Lower(r).order == r.order - 1 == Upper(r).order
    ensures Aligned(Lower(r).base, r.order - 1) && Aligned(Upper(r).base, r.order - 1)
    ensures Within(Lower(r), r) && Within(Upper(r), r) && Buddy(Lower(r)) == Upper(r)
  {
    Halves(r.base, r.order - 1);
  }

  lemma CompleteFrame(bs: set<Block>, r: Block) returns (b: Block)
    requires r.order == 0 && AllFree(bs, r)
    ensures b in bs && r.order <= b.order && Within(r, b)
  {
    assert r.base in Cover(r);
    b := Holder(bs, r.base);
  }

  /** Free blocks over the two halves of an aligned run: one of them covers the whole run. */
  lemma JoinHalves(bs: set<Block>, r: Block, c: Block, d: Block)
    requires Inv(bs) && 0 < r.order <= MAX_ORDER && Aligned(r.base, r.order)
    requires c in bs && r.order - 1 <= c.order && Within(Lower(r), c)
    requires d in bs && r.order - 1 <= d.order && Within(Upper(r), d)
    ensures (r.order <= c.order && Within(r, c)) || (r.order <= d.order && Within(r, d))
  {
    hide Run, Aligned, FlipBit;
    HalvesOf(r);
    Nested(Lower(r), c);
    Nested(Upper(r), d);
    if c.order >= r.order { Nested(r, c); }
    if d.order >= r.order { Nested(r, d); }
  }

  /**
   Completeness: a size-aligned run of 2^k frames that are all free lies inside one free block,
   so an allocation of order k fails only when no such run exists.
   */
  lemma {:induction false} Complete(bs: set<Block>, r: Block) returns (b: Block)
    requires Inv(bs) && r.order <= MAX_ORDER && Aligned(r.base, r.order) && AllFree(bs, r)
    ensures b in bs && r.order <= b.order && Within(r, b)
    decreases r.order
  {
    hide *;
    if r.order == 0 {
      b := CompleteFrame(bs, r);
    } else {
      HalvesOf(r);
      var lo, hi := Lower(r), Upper(r);
      AllFreePart(bs, r, lo);
      AllFreePart(bs, r, hi);
      var c := Complete(bs, lo);
      var d := Complete(bs, hi);
      JoinHalves(bs, r, c, d);
      b := if r.order <= c.order && Within(r, c) then c else d;
    }
  }

  lemma FreeIsMaximal(bs: set<Block>, b: Block)
    requires Inv(bs) && b in bs
    ensures AllFree(bs, b) && (b.order < MAX_ORDER ==> !AllFree(bs, Parent(b)))
  {
    hide Aligned, FlipBit, Run, Size;
    BuddyBlocksOf(b);
    if b.order < MAX_ORDER && AllFree(bs, Parent(b)) {
      var c := Complete(bs, Parent(b));
    }
  }

  lemma MaximalIsFree(bs: set<Block>, b: Block)
    requires Inv(bs) && WellPlaced(b) && AllFree(bs, b) && (b.order < MAX_ORDER ==> !AllFree(bs, Parent(b)))
    ensures b in bs
  {
    hide Aligned, FlipBit, Run, Size;
    var c := Complete(bs, b);
    if c.order == b.order {
      Nested(b, c);
    } else {
      BuddyBlocksOf(b);
      Nested(Parent(b), c);
      AllFreePart(bs, c, Parent(b));
    }
  }

  /** A block is free exactly when it is a maximal aligned free run. */
  lemma Maximal(bs: set<Block>, b: Block)
    requires Inv(bs)
    ensures b in bs <==> WellPlaced(b) && AllFree(bs, b) && (b.order < MAX_ORDER ==> !AllFree(bs, Parent(b)))
  {
    if b in bs {
      FreeIsMaximal(bs, b);
    } else if WellPlaced(b) && AllFree(bs, b) && (b.order < MAX_ORDER ==> !AllFree(bs, Parent(b))) {
      MaximalIsFree(bs, b);
    }
  }

  /**
   The free lists carry no history: two block sets over the same free frames are the same set
   of blocks, whatever order the frames were freed and allocated in.
   */
  lemma Canonical(as': set<Block>, bs: set<Block>)
    requires Inv(as') && Inv(bs) && Frames(as') == Frames(bs)
    ensures as' == bs
  {
    forall b ensures b in as' <==> b in bs {
      Maximal(as', b);
      Maximal(bs, b);
    }
  }

  // ---------- inserting and removing ----------

  lemma FramesInsert(bs: set<Block>, b: Block)
    ensures Frames(bs + {b}) == Frames(bs) + Cover(b)
  {}

  lemma FramesRemove(bs: set<Block>, b: Block)
    requires Separate(bs) && b in bs
    ensures Frames(bs - {b}) == Frames(bs) - Cover(b)
  {
    hide Run, Size;
    forall x: nat ensures x in Frames(bs - {b}) <==> x in Frames(bs) && x !in Cover(b) {
      if x in Frames(bs - {b}) {
        var c := Holder(bs - {b}, x);
        assert Disjoint(c, b);
        FramesOf(bs, c, x);
      } else if x in Frames(bs) {
        var c := Holder(bs, x);
        if c != b { FramesOf(bs - {b}, c, x); }
      }
    }
  }

  lemma ClearIsDisjoint(bs: set<Block>, b: Block)
    ensures Clear(bs, b) <==> Cover(b) !! Frames(bs)
  {
    hide Run, Size;
    if Cover(b) !! Frames(bs) {
      forall c | c in bs ensures Disjoint(b, c) {
        var x := if b.base < c.base then c.base else b.base;
        if !Disjoint(b, c) {
          FramesOf(bs, c, x);
        }
      }
    } else {
      var x :| x in Cover(b) && x in Frames(bs);
      var c := Holder(bs, x);
      assert !Disjoint(b, c);
    }
  }

  lemma NotFree(bs: set<Block>, b: Block)
    requires Clear(bs, b)
    ensures b !in bs
  {}

  /** b is the smallest free block of order at least k, at the lowest address. */
  ghost predicate BestFit(bs: set<Block>, k: nat, b: Block) {
    && b in bs && k <= b.order
    && forall c :: c in bs && k <= c.order ==> b.order < c.order || (b.order == c.order && b.base <= c.base)
  }

  lemma Chosen(bs: set<Block>, k: nat, b: Block)
    requires BestFit(bs, k, b)
    ensures b in bs && k <= b.order
  {}

  lemma InvOrders(bs: set<Block>)
    requires Inv(bs)
    ensures forall b :: b in bs ==> b.order <= MAX_ORDER
  {
    hide Aligned;
  }

  lemma HalvesCover(b: Block)
    requires b.order > 0
    ensures Cover(b) == Cover(Lower(b)) + Cover(Upper(b)) && Cover(Lower(b)) !! Cover(Upper(b))
    ensures b.base in Cover(b)
  {
    hide Run;
  }

  lemma InvRemove(bs: set<Block>, b: Block)
    requires Inv(bs) && b in bs
    ensures Inv(bs - {b}) && Frames(bs - {b}) == Frames(bs) - Cover(b) && WellPlaced(b)
  {
    hide Frames, Cover, Size, Aligned, FlipBit;
    FramesRemove(bs, b);
  }

  lemma SpanSize(f: nat, n: nat)
    ensures |Span(f, n)| == n
  {}

  lemma SpanSplit(f: nat, m: nat, n: nat)
    requires m <= n
    ensures Span(f, n) == Span(f, m) + Span(f + m, n - m) && Span(f, m) !! Span(f + m, n - m)
    ensures Span(f, 0) == {}
  {
    hide Run;
    assert |Span(f, 0)| == 0;
  }

  lemma ParentBase(b: Block)
    requires Aligned(b.base, b.order)
    ensures Parent(b) == Block(if Buddy(b).base < b.base then Buddy(b).base else b.base, b.order + 1) && Buddy(b) != b
  {
    BuddyBlocksOf(b);
  }

  lemma BuddyCovered(bs: set<Block>, b: Block)
    requires b in bs
    ensures Cover(b) <= Frames(bs)
  {}

  lemma InvSeparate(bs: set<Block>)
    requires Inv(bs)
    ensures Separate(bs)
  {}

  lemma SeparateInsert(bs: set<Block>, b: Block)
    requires Separate(bs) && WellPlaced(b) && Clear(bs, b)
    ensures Separate(bs + {b})
  {}

  /** Replacing a free buddy and the block being freed by their parent loses and gains nothing. */
  lemma MergeStep(bs: set<Block>, b: Block)
    requires Inv(bs) && WellPlaced(b) && Clear(bs, b) && b.order < MAX_ORDER && Buddy(b) in bs
    ensures Inv(bs - {Buddy(b)}) && WellPlaced(Parent(b)) && Clear(bs - {Buddy(b)}, Parent(b))
    ensures Cover(Parent(b)) == Cover(b) + Cover(Buddy(b))
    ensures Frames(bs - {Buddy(b)}) == Frames(bs) - Cover(Buddy(b))
  {
    hide Aligned, FlipBit, Run, Size;
    BuddyBlocksOf(b);
    FramesRemove(bs, Buddy(b));
  }

  lemma MergedInsert(bs: set<Block>, b: Block)
    requires Inv(bs) && WellPlaced(b)
    requires b.order < MAX_ORDER ==> Buddy(b) !in bs
    ensures Merged(bs + {b})
  {
    hide Aligned, FlipBit, Run, Size;
    BuddyBlocksOf(b);
    forall c | c in bs && c.order < MAX_ORDER ensures Buddy(c) != b {
      BuddyBlocksOf(c);
    }
  }

  /** Linking a block whose buddy is not free keeps the invariant. */
  lemma InsertStep(bs: set<Block>, b: Block)
    requires Inv(bs) && WellPlaced(b) && Clear(bs, b)
    requires b.order < MAX_ORDER ==> Buddy(b) !in bs
    ensures Inv(bs + {b}) && Frames(bs + {b}) == Frames(bs) + Cover(b) && b !in bs
  {
    hide Aligned, FlipBit, Run, Frames, Merged, Buddy;
    FramesInsert(bs, b);
    MergedInsert(bs, b);
  }

  /** No size-aligned run of 2^k frames is entirely free. */
  ghost predicate NoRun(bs: set<Block>, k: nat) {
    forall f: nat :: Aligned(f, k) ==> !AllFree(bs, Block(f, k))
  }

  /** There is a free block of order at least k exactly when some aligned run of 2^k frames is free. */
  lemma NoRunNoBlock(bs: set<Block>, k: nat)
    requires Inv(bs) && k <= MAX_ORDER
    ensures NoRun(bs, k) <==> forall b :: b in bs ==> b.order < k
  {
    hide Aligned, Size, Frames, FlipBit;
    if forall b :: b in bs ==> b.order < k {
      forall f: nat | Aligned(f, k) ensures !AllFree(bs, Block(f, k)) {
        if AllFree(bs, Block(f, k)) { var b := Complete(bs, Block(f, k)); }
      }
    } else {
      var b :| b in bs && k <= b.order;
      AlignedDown(b.base, k, b.order);
      SizeMonotone(k, b.order);
      BuddyCovered(bs, b);
      AllFreePart(bs, b, Block(b.base, k));
    }
  }

  /** The buddy of the upper half of a block in hand is its lower half, which is in hand too. */
  lemma SplitNeverMerges(b: Block, total: set<nat>)
    requires WellPlaced(b) && b.order > 0 && Cover(b) !! total
    ensures Buddy(Upper(b)) == Lower(b) && !(Cover(Buddy(Upper(b))) <= total)
  {
    HalvesOf(b);
    BuddyBlocksOf(Lower(b));
    hide Size, Aligned, FlipBit, Run;
    HalvesCover(b);
    assert b.base in Cover(Lower(b)) by { CoverBase(Lower(b)); }
  }

  lemma CoverBase(b: Block)
    ensures b.base in Cover(b)
  {}
}
