/**
 The reference-counted page interface over the buddy allocator.  A frame is given back to the
 allocator when its count reaches zero; frames beyond the tracked 4 GiB have no count.
 */
module Gfp {
  import opened BuddyBlocks
  import opened BuddyAllocator

  const MAX_TRACKED_PAGES: nat := 0x100000

  predicate Tracked(f: nat, count: nat) {
    f < MAX_TRACKED_PAGES && count <= MAX_TRACKED_PAGES - f
  }

  /** Counts are kept exactly for runs that end within the first 4 GiB. */
  lemma TrackedLaw(f: nat, count: nat)
    requires count > 0
    ensures Tracked(f, count) <==> forall x :: x in Span(f, count) ==> x < MAX_TRACKED_PAGES
  {
    hide Run;
    assert f + count - 1 in Span(f, count);
  }

  /** One reference less, never below zero. */
  function Minus(n: nat): nat {
    if n > 0 then n - 1 else 0
  }

  /** refs after dropping one reference of each of count frames from f on. */
  ghost predicate Dropped(refs: seq<nat>, refs': seq<nat>, f: nat, count: nat) {
    && |refs'| == |refs|
    && forall x :: 0 <= x < |refs| ==> refs'[x] == if f <= x < f + count then Minus(refs[x]) else refs[x]
  }

  /** The frames whose last reference goes. */
  ghost function Released(refs: seq<nat>, f: nat, count: nat): set<nat> {
    set x | x in Span(f, count) && x < |refs| && refs[x] <= 1
  }

  lemma ReleasedNext(refs: seq<nat>, f: nat, i: nat)
    requires f + i < |refs|
    ensures Released(refs, f, i + 1) == Released(refs, f, i) + (if refs[f + i] <= 1 then {f + i} else {})
  {
    hide Run;
    assert forall x :: x in Span(f, i + 1) <==> x in Span(f, i) || x == f + i;
  }

  lemma SpanNext(f: nat, n: nat)
    ensures Span(f, n + 1) == Span(f, n) + {f + n} && f + n !in Span(f, n) && Span(f, 0) == {}
    ensures Span(f, 1) == {f}
  {
    hide Run;
    SpanSplit(f, 0, 0);
  }

  /**
   The state of the release loop after i frames: the last len of them are a run of frames that
   reached zero and is still to be given back, all earlier ones have been.
   */
  ghost predicate Pending(refs: seq<nat>, total: set<nat>, now: set<nat>, f: nat, start: nat, len: nat, i: nat) {
    && now >= total && Span(f + start, len) !! now && (len > 0 ==> start + len == i)
    && Released(refs, f, i) == (now - total) + Span(f + start, len)
  }

  lemma PendingStart(refs: seq<nat>, total: set<nat>, f: nat)
    ensures Pending(refs, total, total, f, 0, 0, 0) && Dropped(refs, refs, f, 0)
  {
    hide Run;
    SpanNext(f, 0);
  }

  /** The next frame reaches zero and joins the run. */
  lemma PendingZero(refs: seq<nat>, total: set<nat>, now: set<nat>, f: nat, start: nat, len: nat, i: nat, count: nat)
    requires Pending(refs, total, now, f, start, len, i) && i < count && f + count <= |refs| && refs[f + i] <= 1
    requires Released(refs, f, count) !! total
    ensures |refs| > f + i && Pending(refs, total, now, f, if len == 0 then i else start, len + 1, i + 1)
  {
    hide Span;
    var start' := if len == 0 then i else start;
    ReleasedNext(refs, f, i);
    SpanNext(f + start', len);
    SpanNext(f + start, 0);
    FrameIn(refs, f, i, count);
  }

  lemma FrameIn(refs: seq<nat>, f: nat, i: nat, count: nat)
    requires i < count && f + count <= |refs|
    ensures f + i !in Released(refs, f, i)
    ensures refs[f + i] <= 1 ==> f + i in Released(refs, f, count)
  {
    hide Run;
  }

  /** The next frame keeps a reference: the run is over. */
  lemma PendingKept(refs: seq<nat>, total: set<nat>, now: set<nat>, f: nat, start: nat, len: nat, i: nat)
    requires Pending(refs, total, now, f, start, len, i) && f + i < |refs| && refs[f + i] > 1
    ensures Pending(refs, total, now + Span(f + start, len), f, start, 0, i + 1)
  {
    hide Span;
    ReleasedNext(refs, f, i);
    SpanNext(f + start, 0);
  }

  lemma PendingRun(refs: seq<nat>, total: set<nat>, now: set<nat>, f: nat, start: nat, len: nat, i: nat)
    requires Pending(refs, total, now, f, start, len, i)
    ensures Span(f + start, len) !! now && now + Span(f + start, len) == total + Released(refs, f, i)
  {
    hide Span, Released;
  }

  class Gfp {
    const buddy: BuddyAllocator
    const refcounts: array<nat>

    constructor (b: BuddyAllocator)
      ensures buddy == b && fresh(refcounts) && refcounts.Length == MAX_TRACKED_PAGES
      ensures forall x :: 0 <= x < refcounts.Length ==> refcounts[x] == 0
    {
      buddy := b;
      refcounts := new nat[MAX_TRACKED_PAGES](i => 0);
    }

    ghost predicate Valid()
      reads this, buddy, refcounts
    {
      refcounts.Length == MAX_TRACKED_PAGES && buddy.Valid() && buddy.Counted()
    }

    /** get_free_page */
    method GetFreePage(count: nat) returns (r: Outcome, ghost taken: set<nat>)
      requires Valid()
      modifies buddy, refcounts
      ensures buddy.Valid() && refcounts.Length == MAX_TRACKED_PAGES
      ensures !r.Halt? ==> Valid() && buddy.Total() + taken == old(buddy.Total()) && buddy.Total() !! taken
      ensures r.Ok? ==> r.frame > 0 && taken == Span(r.frame, count)
      ensures r.InvalidParam? <==> count == 0 || count > Size(MAX_ORDER)
      ensures !r.InvalidParam? ==>
                && (r.OutOfMemory? && taken == {} <==> buddy.NoFit(old(buddy.Blocks()), count))
                && (r.Halt? <==> buddy.TailOverflows(old(buddy.Blocks()), old(buddy.Capacity()), count))
      ensures !r.Halt? && taken != {} ==>
                |taken| == count && (r.Ok? <==> !buddy.Starved()) && (r.OutOfMemory? <==> buddy.Starved())
      ensures r.Ok? && Tracked(r.frame, count) ==> forall x :: 0 <= x < refcounts.Length ==>
                refcounts[x] == if r.frame <= x < r.frame + count then 1 else old(refcounts[x])
      ensures !r.Ok? || !Tracked(r.frame, count) ==> refcounts[..] == old(refcounts[..])
    {
      hide BuddyAllocator.Core, BuddyAllocator.Blocks, BuddyAllocator.HeldOk, Inv, Frames;
      hide BuddyAllocator.Valid, BuddyAllocator.Counted, BuddyAllocator.LeastOrder, BuddyAllocator.CanPlace,
          BuddyAllocator.TailOverflows, BuddyAllocator.NoFit, BuddyAllocator.ExactFit, BuddyAllocator.StarvedAfter;
      hide BuddyAllocator.Starved, BuddyAllocator.Total, BuddyAllocator.Free, Span, Size, Aligned, NoRun;
      r, taken := buddy.GetFreePage(count);
      if r.Ok? && Tracked(r.frame, count) { SetRefs(r.frame, count); }
    }

    method SetRefs(f: nat, count: nat)
      requires refcounts.Length == MAX_TRACKED_PAGES && Tracked(f, count)
      modifies refcounts
      ensures forall x :: 0 <= x < refcounts.Length ==>
                refcounts[x] == if f <= x < f + count then 1 else old(refcounts[x])
    {
      for i := 0 to count
        invariant forall x :: 0 <= x < refcounts.Length ==>
                refcounts[x] == if f <= x < f + i then 1 else old(refcounts[x])
      {
        refcounts[f + i] := 1;
      }
    }

    /** keep_page */
    method KeepPage(f: nat, count: nat)
      requires Valid()
      modifies refcounts
      ensures Valid()
      ensures forall x :: 0 <= x < refcounts.Length ==>
                refcounts[x] == old(refcounts[x]) + if Tracked(f, count) && f <= x < f + count then 1 else 0
    {
      hide BuddyAllocator.Core, BuddyAllocator.Blocks, BuddyAllocator.HeldOk, Inv, Frames;
      hide BuddyAllocator.Valid, BuddyAllocator.Counted;
      if !Tracked(f, count) { return; }
      for i := 0 to count
        invariant forall x :: 0 <= x < refcounts.Length ==>
                refcounts[x] == old(refcounts[x]) + if f <= x < f + i then 1 else 0
      {
        refcounts[f + i] := refcounts[f + i] + 1;
      }
    }

    /** put_page: drop one reference of each frame and give back runs of frames that reach zero. */
    method PutPage(f: nat, count: nat) returns (halt: bool)
      requires Valid()
      requires f != 0 && Tracked(f, count) ==> Released(refcounts[..], f, count) !! buddy.Total()
      requires f != 0 && !Tracked(f, count) ==> Span(f, count) !! buddy.Total()
      modifies buddy, refcounts
      ensures buddy.Valid() && refcounts.Length == MAX_TRACKED_PAGES
      ensures f == 0 ==> !halt && unchanged(buddy) && unchanged(refcounts)
      ensures !halt && f != 0 && Tracked(f, count) ==>
                && Dropped(old(refcounts[..]), refcounts[..], f, count)
                && buddy.Total() == old(buddy.Total()) + Released(old(refcounts[..]), f, count)
      ensures !halt && f != 0 && !Tracked(f, count) ==>
                refcounts[..] == old(refcounts[..]) && buddy.Total() == old(buddy.Total()) + Span(f, count)
      ensures !halt ==> Valid()
      ensures halt ==> !buddy.CanPlace()
    {
      hide BuddyAllocator.Core, BuddyAllocator.Blocks, BuddyAllocator.HeldOk, Inv, Frames;
      hide Span, Released;
      if f == 0 { return false; }
      if !Tracked(f, count) {
        halt := buddy.PutPage(f, count);
        return;
      }
      halt := DropRun(f, count);
    }

    /** Drop one reference of the i-th frame and say whether none is left. */
    method DropOne(f: nat, i: nat, ghost refs: seq<nat>) returns (zero: bool)
      requires refcounts.Length == MAX_TRACKED_PAGES && f + i < MAX_TRACKED_PAGES && Dropped(refs, refcounts[..], f, i)
      modifies refcounts
      ensures Dropped(refs, refcounts[..], f, i + 1) && |refs| == MAX_TRACKED_PAGES && (zero <==> refs[f + i] <= 1)
    {
      if refcounts[f + i] > 0 { refcounts[f + i] := refcounts[f + i] - 1; }
      zero := refcounts[f + i] == 0;
    }

    /** Give a pending run of frames back, if there is one. */
    method Flush(f: nat, len: nat) returns (halt: bool)
      requires Valid() && f != 0 && Span(f, len) !! buddy.Total()
      modifies buddy
      ensures buddy.Valid()
      ensures !halt ==> buddy.Counted() && buddy.Total() == old(buddy.Total()) + Span(f, len)
      ensures halt ==> !buddy.CanPlace()
    {
      hide BuddyAllocator.Core, BuddyAllocator.Blocks, BuddyAllocator.HeldOk, Inv, Frames;
      hide Span;
      if len != 0 {
        halt := buddy.PutPage(f, len);
      } else {
        SpanNext(f, 0);
        halt := false;
      }
    }

    /** The loop of put_page over tracked frames. */
    method DropRun(f: nat, count: nat) returns (halt: bool)
      requires Valid() && f != 0 && Tracked(f, count) && Released(refcounts[..], f, count) !! buddy.Total()
      modifies buddy, refcounts
      ensures buddy.Valid() && refcounts.Length == MAX_TRACKED_PAGES
      ensures !halt ==> Dropped(old(refcounts[..]), refcounts[..], f, count) && buddy.Counted()
      ensures !halt ==> buddy.Total() == old(buddy.Total()) + Released(old(refcounts[..]), f, count)
      ensures halt ==> !buddy.CanPlace()
    {
      hide BuddyAllocator.Core, BuddyAllocator.Blocks, BuddyAllocator.HeldOk, Inv, Frames;
      hide Span, Released, Pending, Dropped, BuddyAllocator.Valid, BuddyAllocator.Total;
      ghost var refs, total := refcounts[..], buddy.Total();
      var start, len := 0, 0;
      PendingStart(refs, total, f);
      for i := 0 to count
        invariant Valid() && Dropped(refs, refcounts[..], f, i) && Pending(refs, total, buddy.Total(), f, start, len, i)
      {
        var zero := DropOne(f, i, refs);
        if zero {
          PendingZero(refs, total, buddy.Total(), f, start, len, i, count);
          if len == 0 { start := i; }
          len := len + 1;
        } else {
          PendingKept(refs, total, buddy.Total(), f, start, len, i);
          PendingRun(refs, total, buddy.Total(), f, start, len, i);
          halt := Flush(f + start, len);
          if halt { return; }
          len := 0;
        }
      }
      PendingRun(refs, total, buddy.Total(), f, start, len, count);
      halt := Flush(f + start, len);
    }
  }
}
