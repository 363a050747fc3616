/**
 Memory payloads over shared physical frames: lazy pages, page-chunked reads and writes,
 copy-on-write clones, resizing and destruction.  Payloads are named by numbers; every method
 keeps the sharing invariant and says what each payload shows afterwards.
 */
module CowMemory {
  import opened CowState

  datatype ErrCode = OutOfBoundary | PageNotPresent | OutOfMemory | IoError | NotSupported

  datatype Result<T> = Ok(value: T) | Err(error: ErrCode)

  class MemorySystem {
    var store: map<nat, seq<Byte>>
    var refs: map<nat, nat>
    var free: set<nat>
    var payloads: map<nat, Payload>
    /** What the frame allocator and the file answer to the request made at each turn. */
    const noFrame: nat -> bool
    const noRead: nat -> bool
    var turn: nat

    ghost function S(): State
      reads `store, `refs, `free, `payloads
    {
      State(store, refs, free, payloads)
    }

    /** Boot: tracked frames, all free, and no payload. */
    constructor (contents: map<nat, seq<Byte>>, noFrame: nat -> bool, noRead: nat -> bool)
      requires forall f :: f in contents ==> 0 < f < TRACKED && |contents[f]| == PAGE
      ensures Inv(S()) && payloads == map[] && free == contents.Keys && store == contents
      ensures this.noFrame == noFrame && this.noRead == noRead && turn == 0
    {
      this.noFrame, this.noRead, turn := noFrame, noRead, 0;
      store, free, payloads := contents, contents.Keys, map[];
      refs := map f | f in contents :: 0;
    }

    /** The next request for a frame fails. */
    predicate Dry()
      reads `free, `turn
    {
      free == {} || noFrame(turn)
    }

    /** GFP::get_free_page(1): any free frame, or a failure that may lose frames. */
    method GetFreePage() returns (r: Result<nat>)
      requires Inv(S())
      modifies `refs, `free, `turn
      ensures (r.Err? <==> old(Dry())) && turn == old(turn) + 1
      ensures r.Err? ==> r.error == OutOfMemory && Inv(S()) && AllViewsSame(old(S()), S())
      ensures r.Ok? ==> r.value in old(free) && S() == Reserve(old(S()), r.value)
    {
      var dry := Dry();
      turn := turn + 1;
      if dry {
        var kept: set<nat> := *;
        free := free * kept;
        FewerFree(old(S()), S());
        return Err(OutOfMemory);
      }
      var f :| f in free;
      free, refs := free - {f}, refs[f := 1];
      r := Ok(f);
    }

    /** GFP::put_page(f, 1) */
    method PutPage(f: nat)
      modifies `refs, `free
      ensures S() == Put(old(S()), f)
    {
      if f == 0 { return; }
      if f >= TRACKED {
        free := free + {f};
        return;
      }
      var n := if f in refs then refs[f] else 0;
      if n > 0 { n := n - 1; }
      refs := refs[f := n];
      if n == 0 { free := free + {f}; }
    }

    /** lookup_page */
    method LookupPage(p: nat, offset: nat) returns (r: Result<nat>)
      requires p in payloads
      ensures r.Err? && r.error == OutOfBoundary <==> offset / PAGE * PAGE >= payloads[p].memsz
      ensures r.Ok? <==> offset / PAGE * PAGE < payloads[p].memsz && offset / PAGE in payloads[p].pages
      ensures r.Ok? ==> r.value == payloads[p].pages[offset / PAGE].frame
      ensures r.Err? ==> r.error == OutOfBoundary || r.error == PageNotPresent
    {
      if offset / PAGE * PAGE >= payloads[p].memsz { return Err(OutOfBoundary); }
      if offset / PAGE !in payloads[p].pages { return Err(PageNotPresent); }
      return Ok(payloads[p].pages[offset / PAGE].frame);
    }

    /** The bytes ensure_page puts into a fresh page: zeros, then the part the file provides. */
    method LoadPage(b: Backing, v: nat) returns (page: seq<Byte>)
      ensures page == InitialPage(b, v)
    {
      page := seq(PAGE, i => 0);
      hide InitialPage, InitialByte;
      if !b.File? {
        ZeroPage(b, v, page);
        return;
      }
      var at := v * PAGE;
      var len := ReadLength(b, v);
      var from, n := b.offset + at, 0;
      if len != 0 {
        n := if from >= |b.bytes| then 0 else if |b.bytes| - from < len then |b.bytes| - from else len;
        page := (if n == 0 then [] else b.bytes[from .. from + n]) + page[n..];
      }
      FilePage(b, v, len, n, page);
    }

    /** How many bytes of page v are to be read from the file. */
    method ReadLength(b: Backing, v: nat) returns (len: nat)
      ensures !b.File? ==> len == 0
      ensures b.File? ==> len == if b.length == SIZE_MAX then PAGE else if v * PAGE >= b.length then 0
                                 else Least(PAGE, b.length - v * PAGE)
      ensures len > 0 <==> NeedsFile(b, v)
    {
      if !b.File? { return 0; }
      var at := v * PAGE;
      len := PAGE;
      if b.length != SIZE_MAX {
        if at >= b.length {
          len := 0;
        } else if b.length - at < len {
          len := b.length - at;
        }
      }
    }

    /** Of a page at offset at, the file provides the first n bytes. */
    static lemma FileByte(b: Backing, at: nat, len: nat, n: nat, i: nat)
      requires b.File? && len == (if b.length == SIZE_MAX then PAGE else if at >= b.length then 0
               else Least(PAGE, b.length - at))
      requires n == (if b.offset + at >= |b.bytes| then 0 else Least(len, |b.bytes| - (b.offset + at))) && i < PAGE
      ensures InitialByte(b, at + i) == if i < n then b.bytes[b.offset + at + i] else 0
    {}

    static lemma ZeroPage(b: Backing, v: nat, page: seq<Byte>)
      requires b.Anonymous? && |page| == PAGE && forall i :: 0 <= i < PAGE ==> page[i] == 0
      ensures page == InitialPage(b, v)
    {
      var loaded := InitialPage(b, v);
      forall i | 0 <= i < PAGE ensures page[i] == loaded[i] {
        assert loaded[i] == InitialByte(b, v * PAGE + i);
      }
    }

    static lemma FilePage(b: Backing, v: nat, len: nat, n: nat, page: seq<Byte>)
      requires b.File? && len == (if b.length == SIZE_MAX then PAGE else if v * PAGE >= b.length then 0
               else Least(PAGE, b.length - v * PAGE))
      requires n == (if b.offset + v * PAGE >= |b.bytes| then 0 else Least(len, |b.bytes| - (b.offset + v * PAGE)))
      requires |page| == PAGE && forall i :: 0 <= i < PAGE ==>
               page[i] == if i < n then b.bytes[b.offset + v * PAGE + i] else 0
      ensures page == InitialPage(b, v)
    {
      var loaded := InitialPage(b, v);
      forall i | 0 <= i < PAGE ensures page[i] == loaded[i] {
        assert loaded[i] == InitialByte(b, v * PAGE + i);
        hide InitialByte;
        FileByte(b, v * PAGE, len, n, i);
      }
    }

    /** Page v of p is in the payload, and present or obtainable now. */
    ghost predicate Ensurable(p: nat, v: nat)
      requires p in payloads
      reads `payloads, `free, `turn
    {
      v * PAGE < payloads[p].memsz &&
          (v in payloads[p].pages || (!Dry() && !Unbacked(payloads[p].backing, v) && !Unread(payloads[p].backing, v)))
    }

    /** The file offset of page v does not fit a 64-bit word. */
    static predicate Unbacked(b: Backing, v: nat) {
      b.File? && v * PAGE + b.offset > SIZE_MAX
    }

    /** Page v needs bytes of the file, and the file cannot be read now. */
    ghost predicate Unread(b: Backing, v: nat)
      reads `turn
    {
      NeedsFile(b, v) && noRead(turn)
    }

    /** Some byte of page v lies within the file-backed length. */
    static ghost predicate NeedsFile(b: Backing, v: nat) {
      b.File? && (b.length == SIZE_MAX || v * PAGE < b.length)
    }

    /** ensure_page */
    method EnsurePage(p: nat, offset: nat) returns (r: Result<nat>)
      requires Inv(S()) && p in payloads
      modifies `store, `refs, `free, `payloads, `turn
      ensures Inv(S()) && Unobservable(old(S()), S())
      ensures r.Ok? ==> Has(S(), p, offset / PAGE) && r.value == FrameOf(S(), p, offset / PAGE)
      ensures r.Ok? ==> offset / PAGE * PAGE < payloads[p].memsz
      ensures r.Ok? <==> old(Ensurable(p, offset / PAGE))
      ensures r.Err? ==> var v, b := offset / PAGE, old(payloads)[p].backing;
                r.error == if v * PAGE >= old(payloads)[p].memsz then OutOfBoundary else if old(Dry()) then OutOfMemory
                           else if Unbacked(b, v) then OutOfBoundary else IoError
      ensures Touched(old(S()), S(), p, offset / PAGE)
      ensures Has(old(S()), p, offset / PAGE) ==> S() == old(S()) && turn == old(turn)
      ensures r.Ok? && !Has(old(S()), p, offset / PAGE) ==> Hint(S(), p, offset / PAGE) == 1
      ensures r.Ok? && !Has(old(S()), p, offset / PAGE) ==> turn == old(turn) + 1 && |free| == |old(free)| - 1
      ensures r.Ok? ==> payloads[p].pages == old(payloads)[p].pages[offset / PAGE := payloads[p].pages[offset / PAGE]]
    {
      hide Inv, InitialPage, Touched;
      var v := offset / PAGE;
      TouchedSelf(S(), p, v);
      r := LookupPage(p, offset);
      if r.Ok? || r.error != PageNotPresent { return; }
      r := FirstTouch(p, v);
    }

    /** The part of ensure_page after the page was not found. */
    method FirstTouch(p: nat, v: nat) returns (r: Result<nat>)
      requires Inv(S()) && p in payloads && v * PAGE < payloads[p].memsz && v !in payloads[p].pages
      modifies `store, `refs, `free, `payloads, `turn
      ensures Inv(S()) && Unobservable(old(S()), S()) && Touched(old(S()), S(), p, v)
      ensures r.Ok? ==> Has(S(), p, v) && r.value == FrameOf(S(), p, v) && Hint(S(), p, v) == 1
      ensures r.Ok? ==> payloads[p].memsz == old(payloads)[p].memsz && turn == old(turn) + 1
      ensures r.Ok? ==> |free| == |old(free)| - 1
      ensures r.Ok? ==> payloads[p].pages == old(payloads)[p].pages[v := payloads[p].pages[v]]
      ensures r.Ok? <==> old(Ensurable(p, v))
      ensures r.Err? ==> r.error == if old(Dry()) then OutOfMemory
                                    else if Unbacked(old(payloads)[p].backing, v) then OutOfBoundary else IoError
    {
      hide Inv, InitialPage, Touched;
      var b := payloads[p].backing;
      var len := ReadLength(b, v);
      var unread := len != 0 && noRead(turn);
      var got := GetFreePage();
      if got.Err? {
        TouchedFrames(old(S()), S(), p, v);
        return got;
      }
      var f := got.value;
      if b.File? && v * PAGE > SIZE_MAX - b.offset {
        GiveBack(f, old(S()), p, v);
        return Err(OutOfBoundary);
      }
      if unread {
        GiveBack(f, old(S()), p, v);
        return Err(IoError);
      }
      var page := LoadPage(b, v);
      EnsureIsUnobservable(old(S()), p, v, f);
      EnsureTouches(old(S()), p, v, f);
      EnsurePages(old(S()), p, v, f);
      hide EnsureStep;
      InstallPage(p, v, f, page, old(S()));
      return Ok(f);
    }

    /** The frame f, reserved in state b, becomes page v of p. */
    method InstallPage(p: nat, v: nat, f: nat, page: seq<Byte>, ghost b: State)
      requires p in b.payloads && page == InitialPage(b.payloads[p].backing, v) && S() == Reserve(b, f)
      modifies `store, `payloads
      ensures S() == EnsureStep(b, p, v, f)
    {
      hide InitialPage;
      store := store[f := page];
      payloads := payloads[p := payloads[p].(pages := payloads[p].pages[v := PhyPage(f, 1)])];
    }

    /** The frame f, reserved in state b, goes back. */
    method GiveBack(f: nat, ghost b: State, ghost p: nat, ghost v: nat)
      requires Inv(b) && f in b.free && p in b.payloads && S() == Reserve(b, f)
      modifies `refs, `free
      ensures Inv(S()) && Unobservable(b, S()) && Touched(b, S(), p, v) && payloads == old(payloads)
    {
      hide Inv, Touched;
      PutPage(f);
      UndoKeeps(b, f);
      TouchedFrames(b, S(), p, v);
    }

    /** Page v of p is present, and exclusive or a frame for its copy is obtainable now. */
    predicate Forkable(p: nat, v: nat)
      requires p in payloads
      reads `payloads, `free, `turn
    {
      v * PAGE < payloads[p].memsz && v in payloads[p].pages && (payloads[p].pages[v].refcount <= 1 || !Dry())
    }

    /** fork: make page offset/PAGE of p exclusive. */
    method Fork(p: nat, offset: nat) returns (r: Result<()>)
      requires Inv(S()) && p in payloads
      modifies `store, `refs, `free, `payloads, `turn
      ensures Inv(S()) && Unobservable(old(S()), S())
      ensures r.Ok? ==> Has(S(), p, offset / PAGE) && Hint(S(), p, offset / PAGE) == 1
      ensures r.Ok? && Has(old(S()), p, offset / PAGE) && Hint(old(S()), p, offset / PAGE) > 1 ==>
                turn == old(turn) + 1 && |free| + 1 == |old(free)| +
                  if Holders(old(S()), FrameOf(old(S()), p, offset / PAGE)) == {(p, offset / PAGE)} then 1 else 0
      ensures r.Ok? && Has(old(S()), p, offset / PAGE) && Hint(old(S()), p, offset / PAGE) > 1 ==>
                FrameOf(S(), p, offset / PAGE) != FrameOf(old(S()), p, offset / PAGE)
      ensures r.Ok? ==> payloads[p].pages == old(payloads)[p].pages[offset / PAGE := payloads[p].pages[offset / PAGE]]
      ensures r.Err? ==> payloads == old(payloads)
      ensures r.Ok? <==> old(Forkable(p, offset / PAGE))
      ensures r.Err? ==> r.error == if offset / PAGE * PAGE >= payloads[p].memsz then OutOfBoundary
                                    else if offset / PAGE !in payloads[p].pages then PageNotPresent else OutOfMemory
      ensures Touched(old(S()), S(), p, offset / PAGE)
    {
      hide Inv, InitialPage, Touched;
      var v := offset / PAGE;
      TouchedSelf(S(), p, v);
      if v * PAGE >= payloads[p].memsz { return Err(OutOfBoundary); }
      if v !in payloads[p].pages { return Err(PageNotPresent); }
      var page := payloads[p].pages[v];
      HeldIsNotFree(S(), p, v);
      HintPositive(S(), p, v);
      if page.refcount <= 1 {
        payloads := payloads[p := payloads[p].(pages := payloads[p].pages[v := PhyPage(page.frame, 1)])];
        SetSame(old(S()), p, v);
        return Ok(());
      }
      var got := GetFreePage();
      if got.Err? {
        TouchedFrames(old(S()), S(), p, v);
        return Err(got.error);
      }
      var f := got.value;
      ForkIsUnobservable(old(S()), p, v, f);
      ForkTouches(old(S()), p, v, f);
      ForkFree(old(S()), p, v, f);
      ForkPages(old(S()), p, v, f);
      hide ForkStep;
      InstallCopy(p, v, f, old(S()));
      return Ok(());
    }

    /** The frame f, reserved in state b, becomes the copy of page v of p. */
    method InstallCopy(p: nat, v: nat, f: nat, ghost b: State)
      requires Has(b, p, v) && FrameOf(b, p, v) in b.store && S() == Reserve(b, f)
      modifies `store, `refs, `free, `payloads
      ensures S() == ForkStep(b, p, v, f)
    {
      var frame := payloads[p].pages[v].frame;
      store := store[f := store[frame]];
      payloads := payloads[p := payloads[p].(pages := payloads[p].pages[v := PhyPage(f, 1)])];
      PutPage(frame);
    }

    // ---------- what a read or a write needs ----------

    /** Page v of a has to be given a frame: it is not present or, to be written, shared. */
    static predicate Needs(a: Payload, v: nat, write: bool) {
      v !in a.pages || (write && a.pages[v].refcount > 1)
    }

    /** How many of the pages from first up to v have to be given a frame. */
    static ghost function Needed(a: Payload, first: nat, v: nat, write: bool): nat {
      if v <= first then 0 else Needed(a, first, v - 1, write) + if Needs(a, v - 1, write) then 1 else 0
    }

    /** Nobody but pages first .. v of p holds the frame of page v, so the fork of page v gives it back. */
    static ghost predicate GivesBack(s: State, p: nat, first: nat, v: nat) {
      Has(s, p, v) && Hint(s, p, v) > 1 && forall h :: h in Holders(s, FrameOf(s, p, v)) ==>
          h.0 == p && first <= h.1 <= v
    }

    /** How many frames have come back once the pages from first up to v are written. */
    static ghost function Returned(s: State, p: nat, first: nat, v: nat, write: bool): nat {
      if v <= first then 0
      else Returned(s, p, first, v - 1, write) + if write && GivesBack(s, p, first, v - 1) then 1 else 0
    }

    /** From state s at turn t on, the frame or the file bytes for page v cannot be had when its turn comes. */
    ghost predicate Lacks(s: State, t: nat, p: nat, first: nat, v: nat, write: bool)
      requires p in s.payloads
    {
      var a := s.payloads[p];
      var k := Needed(a, first, v, write);
      Needs(a, v, write) &&
      (|s.free| + Returned(s, p, first, v, write) <= k || noFrame(t + k)
       || (v !in a.pages && (Unbacked(a.backing, v) || (NeedsFile(a.backing, v) && noRead(t + k)))))
    }

    ghost function LackError(s: State, t: nat, p: nat, first: nat, v: nat, write: bool): ErrCode
      requires p in s.payloads
    {
      var k := Needed(s.payloads[p], first, v, write);
      if |s.free| + Returned(s, p, first, v, write) <= k || noFrame(t + k) then OutOfMemory
      else if Unbacked(s.payloads[p].backing, v) then OutOfBoundary else IoError
    }

    /** No page from first to the end lacks anything when its turn comes. */
    ghost predicate Served(s: State, t: nat, p: nat, first: nat, end: nat, write: bool)
      requires p in s.payloads
    {
      forall v: nat :: first <= v && v * PAGE < end ==> !Lacks(s, t, p, first, v, write)
    }

    /** Page v is the first that lacks something, and this is the error for it. */
    ghost predicate FailsAt(s: State, t: nat, p: nat, first: nat, end: nat, write: bool, v: nat, error: ErrCode)
      requires p in s.payloads
    {
      && first <= v && v * PAGE < end && Served(s, t, p, first, v * PAGE, write) && Lacks(s, t, p, first, v, write)
      && error == LackError(s, t, p, first, v, write)
    }

    /** Pages first up to v of p, begun in state s at turn t, have been served; the state is now cur. */
    static ghost predicate Reached(cur: State, now: nat, s: State, t: nat, p: nat, first: nat, v: nat, write: bool) {
      && p in s.payloads && p in cur.payloads && SameShape(s.payloads[p], cur.payloads[p])
      && var k := Needed(s.payloads[p], first, v, write);
      && now == t + k && |cur.free| + k == |s.free| + Returned(s, p, first, v, write)
      && (forall w: nat :: w >= v ==> Unvisited(cur, s, p, w))
      && (write ==> forall w: nat :: w >= v ==> HoldersLess(cur, s, p, first, v, w))
    }

    static ghost predicate Unvisited(cur: State, s: State, p: nat, w: nat) {
      (Has(cur, p, w) <==> Has(s, p, w)) && (Has(s, p, w) ==> cur.payloads[p].pages[w] == s.payloads[p].pages[w])
    }

    /** The frame of page w has lost the visited pages as holders and no others. */
    static ghost predicate HoldersLess(cur: State, s: State, p: nat, first: nat, v: nat, w: nat) {
      Has(s, p, w) ==>
        forall h :: h in Holders(cur, FrameOf(s, p, w)) <==>
          h in Holders(s, FrameOf(s, p, w)) && !(h.0 == p && first <= h.1 < v)
    }

    static lemma ReachedStart(s: State, t: nat, p: nat, first: nat, write: bool)
      requires p in s.payloads
      ensures Reached(s, t, s, t, p, first, first, write)
    {
      hide Holders;
    }

    /** A page with nothing to do is passed. */
    static lemma ReachedSame(cur: State, now: nat, s: State, t: nat, p: nat, first: nat, v: nat, write: bool)
      requires Inv(cur) && Reached(cur, now, s, t, p, first, v, write) && first <= v && !Needs(s.payloads[p], v, write)
      ensures Reached(cur, now, s, t, p, first, v + 1, write)
    {
      hide Inv, Holders;
      assert Unvisited(cur, s, p, v);
      forall w: nat | w >= v + 1 ensures Unvisited(cur, s, p, w) { assert w >= v; }
      if write {
        SoleHolder(cur, p, v);
        var next := v + 1;
        forall w: nat | w >= next ensures HoldersLess(cur, s, p, first, next, w) {
          assert HoldersLess(cur, s, p, first, v, w) && Unvisited(cur, s, p, w);
          NotHeldBy(cur, p, v, w);
        }
      }
    }

    static lemma NotHeldBy(s: State, p: nat, v: nat, w: nat)
      requires v != w && Has(s, p, v) && Has(s, p, w) ==> Holders(s, FrameOf(s, p, v)) == {(p, v)}
      ensures v != w && Has(s, p, w) && Has(s, p, v) ==> (p, v) !in Holders(s, FrameOf(s, p, w))
    {
      if v != w && Has(s, p, w) && Has(s, p, v) {
        NotHolding(s, p, v, FrameOf(s, p, w));
        NotHolding(s, p, w, FrameOf(s, p, w));
      }
    }

    /** A page that was given a frame is passed. */
    static lemma ReachedNext(b: State, tb: nat, cur: State, now: nat, s: State, t: nat, p: nat, first: nat, v: nat,
        write: bool)
      requires Inv(b) && Reached(b, tb, s, t, p, first, v, write) && first <= v && Needs(s.payloads[p], v, write)
      requires Touched(b, cur, p, v) && now == tb + 1 && p in cur.payloads && v in cur.payloads[p].pages
      requires cur.payloads[p].pages == b.payloads[p].pages[v := cur.payloads[p].pages[v]]
      requires Has(b, p, v) ==> FrameOf(cur, p, v) != FrameOf(b, p, v)
      requires |cur.free| + 1 == |b.free| + if Has(b, p, v) && Holders(b, FrameOf(b, p, v)) == {(p, v)} then 1 else 0
      requires Has(b, p, v) ==> write
      ensures Reached(cur, now, s, t, p, first, v + 1, write)
    {
      hide Inv, Holders, Touched;
      TouchedShape(b, cur, p, v);
      forall w: nat | w >= v + 1 ensures Unvisited(cur, s, p, w) { assert Unvisited(b, s, p, w); }
      assert Unvisited(b, s, p, v);
      if write {
        assert HoldersLess(b, s, p, first, v, v);
        ReturnedIs(b, s, p, first, v);
        var next := v + 1;
        forall w: nat | w >= next ensures HoldersLess(cur, s, p, first, next, w) {
          assert HoldersLess(b, s, p, first, v, w) && Unvisited(b, s, p, w);
          HoldersNext(b, cur, s, p, first, v, w);
        }
      }
    }

    static lemma HoldersNext(b: State, cur: State, s: State, p: nat, first: nat, v: nat, w: nat)
      requires first <= v < w && HoldersLess(b, s, p, first, v, w) && Unvisited(b, s, p, w)
      requires Touched(b, cur, p, v) && Has(cur, p, v) && (Has(b, p, v) ==> FrameOf(cur, p, v) != FrameOf(b, p, v))
      ensures HoldersLess(cur, s, p, first, v + 1, w)
    {
      hide Holders, Touched;
      if Has(s, p, w) {
        TouchedHolders(b, cur, p, v, w);
        var g := FrameOf(s, p, w);
        assert FrameOf(b, p, w) == g;
        forall h: (nat, nat)
          ensures h in Holders(cur, g) <==> h in Holders(s, g) && !(h.0 == p && first <= h.1 < v + 1)
        {
          assert h in Holders(b, g) <==> h in Holders(s, g) && !(h.0 == p && first <= h.1 < v);
          assert h in Holders(cur, g) <==> h in Holders(b, g) && h != (p, v);
          assert h == (p, v) <==> h.0 == p && h.1 == v;
        }
      }
    }

    static lemma TouchedShape(s: State, t: State, p: nat, v: nat)
      requires Touched(s, t, p, v) && p in s.payloads
      ensures p in t.payloads && SameShape(s.payloads[p], t.payloads[p])
    {
      hide Holders;
    }

    /** The frame comes back exactly if only visited pages held it at the start. */
    static lemma ReturnedIs(b: State, s: State, p: nat, first: nat, v: nat)
      requires first <= v && Unvisited(b, s, p, v) && HoldersLess(b, s, p, first, v, v)
      ensures Has(b, p, v) && Hint(b, p, v) > 1 ==>
                (GivesBack(s, p, first, v) <==> Holders(b, FrameOf(b, p, v)) == {(p, v)})
      ensures !Has(b, p, v) ==> !GivesBack(s, p, first, v)
    {
      hide Holders;
      if Has(b, p, v) && Hint(b, p, v) > 1 {
        NotHolding(s, p, v, FrameOf(s, p, v));
        var hs, now := Holders(s, FrameOf(s, p, v)), Holders(b, FrameOf(b, p, v));
        assert (p, v) in now;
        if GivesBack(s, p, first, v) {
          forall h ensures h in now <==> h == (p, v) {}
        }
        if now == {(p, v)} {
          forall h | h in hs ensures h.0 == p && first <= h.1 <= v {
            assert h in now || (h.0 == p && first <= h.1 < v);
          }
        }
      }
    }

    static lemma TouchedHolders(b: State, cur: State, p: nat, v: nat, w: nat)
      requires Touched(b, cur, p, v) && v != w && Has(b, p, w) && Has(cur, p, v)
      requires Has(b, p, v) ==> FrameOf(cur, p, v) != FrameOf(b, p, v)
      ensures forall h :: h in Holders(cur, FrameOf(b, p, w)) <==> h in Holders(b, FrameOf(b, p, w)) && h != (p, v)
    {
      hide Holders;
      var g := FrameOf(b, p, w);
      NotHolding(cur, p, w, g);
      NotHolding(cur, p, w, FrameOf(cur, p, v));
      forall h: (nat, nat) ensures h in Holders(cur, g) <==> h in Holders(b, g) && h != (p, v) {
        NotHolding(cur, h.0, h.1, g);
        NotHolding(b, h.0, h.1, g);
      }
    }

    static lemma NoFrames(free: set<nat>)
      ensures |free| == 0 <==> free == {}
    {}

    /** What a single page needs is decided by the state now. */
    lemma FirstPage(p: nat, offset: nat, end: nat)
      requires p in payloads && offset < end <= payloads[p].memsz && end <= offset / PAGE * PAGE + PAGE
      ensures Served(S(), turn, p, offset / PAGE, end, false) <==> Ensurable(p, offset / PAGE)
      ensures Served(S(), turn, p, offset / PAGE, end, true) <==>
              if offset / PAGE in payloads[p].pages then Forkable(p, offset / PAGE) else Ensurable(p, offset / PAGE)
    {
      hide Lacks, Reached, Ensurable, Forkable;
      var v := offset / PAGE;
      forall write: bool ensures Served(S(), turn, p, v, end, write) <==> !Lacks(S(), turn, p, v, v, write) {
        forall w: nat | v <= w && w * PAGE < end ensures w == v {}
        ServedNot(S(), turn, p, v, v, end, write);
      }
      ReachedStart(S(), turn, p, v, false);
      ReachedStart(S(), turn, p, v, true);
      ReachedPage(S(), turn, p, v, v, false);
      ReachedPage(S(), turn, p, v, v, true);
    }

    /** A page that is reached can be had exactly if it lacks nothing. */
    lemma ReachedPage(s: State, t: nat, p: nat, first: nat, v: nat, write: bool)
      requires Reached(S(), turn, s, t, p, first, v, write) && v * PAGE < s.payloads[p].memsz
      ensures !Lacks(s, t, p, first, v, write) <==>
              if write && v in payloads[p].pages then Forkable(p, v) else Ensurable(p, v)
      ensures Lacks(s, t, p, first, v, write) ==>
                LackError(s, t, p, first, v, write) ==
                if Dry() then OutOfMemory else if Unbacked(payloads[p].backing, v) then OutOfBoundary else IoError
    {
      hide Needed, Returned, Holders;
      assert Unvisited(S(), s, p, v);
      NoFrames(free);
    }

    lemma ServedNone(s: State, t: nat, p: nat, first: nat, write: bool)
      requires p in s.payloads
      ensures Served(s, t, p, first, first * PAGE, write)
    {}

    lemma ServedMore(s: State, t: nat, p: nat, first: nat, v: nat, write: bool)
      requires p in s.payloads && Served(s, t, p, first, v * PAGE, write) && first <= v
      ensures !Lacks(s, t, p, first, v, write) ==> Served(s, t, p, first, (v + 1) * PAGE, write)
    {
      hide Lacks;
      forall w: nat | first <= w && w * PAGE < (v + 1) * PAGE && w != v ensures w * PAGE < v * PAGE {}
    }

    lemma ServedNot(s: State, t: nat, p: nat, first: nat, v: nat, end: nat, write: bool)
      requires p in s.payloads && first <= v && v * PAGE < end
      ensures Lacks(s, t, p, first, v, write) ==> !Served(s, t, p, first, end, write)
    {
      hide Lacks;
    }

    lemma FailsHere(s: State, t: nat, p: nat, first: nat, v: nat, end: nat, write: bool)
      requires p in s.payloads && first <= v && v * PAGE < end
      requires Served(s, t, p, first, v * PAGE, write) && Lacks(s, t, p, first, v, write)
      ensures FailsAt(s, t, p, first, end, write, v, LackError(s, t, p, first, v, write))
      ensures !Served(s, t, p, first, end, write)
    {
      hide LackError;
      ServedNot(s, t, p, first, v, end, write);
    }

    lemma ServedLess(s: State, t: nat, p: nat, first: nat, end: nat, more: nat, write: bool)
      requires p in s.payloads && end <= more && Served(s, t, p, first, more, write)
      ensures Served(s, t, p, first, end, write)
    {
      hide Lacks;
    }

    /** Page v is the next one to be touched, or the last one has been. */
    static predicate NextPage(cur: nat, end: nat, v: nat) {
      if cur < end then cur / PAGE == v && v * PAGE < end else end <= v * PAGE
    }

    /** A chunk ends at the end of its page or of the transfer. */
    static lemma NextCut(cur: nat, chunk: nat, end: nat, v: nat)
      requires cur < end && NextPage(cur, end, v) && chunk == Least(PAGE - cur % PAGE, end - cur)
      ensures v * PAGE < end && cur / PAGE == v && chunk > 0 && cur % PAGE + chunk <= PAGE && cur + chunk <= end
      ensures NextPage(cur + chunk, end, v + 1)
    {
      if cur + chunk < end { assert cur + chunk == (v + 1) * PAGE; }
    }

    static lemma CutStart(offset: nat, end: nat)
      requires offset < end
      ensures NextPage(offset, end, offset / PAGE)
    {}

    static lemma CutEnd(end: nat, v: nat)
      requires NextPage(end, end, v)
      ensures end <= v * PAGE
    {}

    /** read: what comes out is the slice of the flat array, and reading changes nothing. */
    method Read(p: nat, offset: nat, buflen: nat) returns (r: Result<nat>, data: seq<Byte>)
      requires Inv(S()) && p in payloads
      modifies `store, `refs, `free, `payloads, `turn
      ensures Inv(S()) && Unobservable(old(S()), S())
      ensures buflen == 0 ==> r == Ok(0) && data == []
      ensures buflen > 0 && offset >= old(payloads)[p].memsz ==> r == Err(OutOfBoundary)
      ensures r.Ok? && buflen > 0 ==> offset < old(payloads)[p].memsz
      ensures r.Ok? && buflen > 0 ==> r.value == |data| == Least(buflen, old(payloads)[p].memsz - offset)
      ensures r.Ok? && buflen > 0 ==> data == Flat(old(S()), p)[offset .. offset + r.value]
      ensures buflen > 0 && offset < old(payloads)[p].memsz ==>
                var first, end := offset / PAGE, offset + Least(buflen, old(payloads)[p].memsz - offset);
                && (r.Ok? <==> Served(old(S()), old(turn), p, first, end, false))
                && (r.Err? ==> exists v :: FailsAt(old(S()), old(turn), p, first, end, false, v, r.error))
                && (end <= first * PAGE + PAGE ==> (r.Ok? <==> old(Ensurable(p, first))))
    {
      hide Inv, InitialPage, Unobservable, View, Flat, Served, Lacks, LackError, Reached, Ensurable, FailsAt, NextPage;
      UnobservableSelf(S());
      data := [];
      if buflen == 0 { return Ok(0), []; }
      if offset >= payloads[p].memsz { return Err(OutOfBoundary), []; }
      var total := Least(buflen, payloads[p].memsz - offset);
      ghost var s, t, first := S(), turn, offset / PAGE;
      if offset + total <= first * PAGE + PAGE { FirstPage(p, offset, offset + total); }
      ghost var v: nat := first;
      ReachedStart(s, t, p, first, false);
      ServedNone(s, t, p, first, false);
      CutStart(offset, offset + total);
      assert data == Flat(S(), p)[offset .. offset + |data|];
      while |data| < total
        invariant Inv(S()) && Unobservable(s, S()) && p in payloads && |data| <= total
        invariant data == Flat(s, p)[offset .. offset + |data|]
        invariant Reached(S(), turn, s, t, p, first, v, false) && first <= v && Served(s, t, p, first, v * PAGE, false)
        invariant NextPage(offset + |data|, offset + total, v)
        decreases total - |data|
      {
        var got, more := ReadNext(p, offset, total, data, s, t, first, v);
        if got.Err? { return Err(got.error), data; }
        data, v := more, v + 1;
      }
      CutEnd(offset + total, v);
      ServedLess(s, t, p, first, offset + total, v * PAGE, false);
      r := Ok(total);
    }

    /** One round of the read loop, at page v. */
    method ReadNext(p: nat, offset: nat, total: nat, data: seq<Byte>, ghost s: State, ghost t: nat, ghost first: nat,
        ghost v: nat)
      returns (r: Result<nat>, more: seq<Byte>)
      requires Inv(S()) && p in payloads && p in s.payloads && Unobservable(s, S()) &&
               offset + total <= s.payloads[p].memsz
      requires |data| < total && data == Flat(s, p)[offset .. offset + |data|]
      requires Reached(S(), turn, s, t, p, first, v, false) && first <= v && Served(s, t, p, first, v * PAGE, false)
      requires NextPage(offset + |data|, offset + total, v)
      modifies `store, `refs, `free, `payloads, `turn
      ensures Inv(S()) && Unobservable(s, S()) && p in payloads
      ensures r.Ok? ==> |data| < |more| <= total && more == Flat(s, p)[offset .. offset + |more|]
      ensures r.Ok? ==>
              Reached(S(), turn, s, t, p, first, v + 1, false) && Served(s, t, p, first, (v + 1) * PAGE, false)
      ensures r.Ok? ==> NextPage(offset + |more|, offset + total, v + 1)
      ensures r.Err? ==> !Served(s, t, p, first, offset + total, false)
                         && FailsAt(s, t, p, first, offset + total, false, v, r.error)
    {
      hide Inv, InitialPage, Unobservable, View, Flat, Served, Lacks, LackError, Reached, FailsAt, NextPage;
      more := data;
      var cur := offset + |data|;
      var chunk := Least(PAGE - cur % PAGE, total - |data|);
      NextCut(cur, chunk, offset + total, v);
      var bytes: seq<Byte>;
      r, bytes := ReadOne(p, cur, chunk, s, t, first);
      ServedMore(s, t, p, first, v, false);
      if r.Err? {
        FailsHere(s, t, p, first, v, offset + total, false);
        return;
      }
      Adjoining(Flat(s, p), offset, cur, cur + chunk);
      more := data + bytes;
    }

    static lemma Adjoining(bytes: seq<Byte>, a: nat, b: nat, c: nat)
      requires a <= b <= c <= |bytes|
      ensures bytes[a .. b] + bytes[b .. c] == bytes[a .. c]
    {}

    /** The part of a read inside one page; s is the state when the read began, at turn t. */
    method ReadOne(p: nat, cur: nat, chunk: nat, ghost s: State, ghost t: nat, ghost first: nat)
      returns (r: Result<nat>, bytes: seq<Byte>)
      requires Inv(S()) && p in payloads && p in s.payloads && Unobservable(s, S())
      requires cur % PAGE + chunk <= PAGE && 0 < chunk && cur + chunk <= s.payloads[p].memsz
      requires Reached(S(), turn, s, t, p, first, cur / PAGE, false) && first <= cur / PAGE
      modifies `store, `refs, `free, `payloads, `turn
      ensures Inv(S()) && Unobservable(s, S()) && p in payloads
      ensures r.Ok? ==> bytes == Flat(s, p)[cur .. cur + chunk]
      ensures r.Ok? <==> !Lacks(s, t, p, first, cur / PAGE, false)
      ensures r.Ok? ==> Reached(S(), turn, s, t, p, first, cur / PAGE + 1, false)
      ensures r.Err? ==> r.error == LackError(s, t, p, first, cur / PAGE, false)
    {
      hide Inv, InitialPage, Unobservable, View, Flat, ByteAt, Lacks, LackError, Ensurable, Reached, Touched, Holders;
      UnobservableKeys(s, S());
      ReachedPage(s, t, p, first, cur / PAGE, false);
      ReachedHas(S(), turn, s, t, p, first, cur / PAGE, false);
      bytes := [];
      r := EnsurePage(p, cur);
      UnobservableTrans(s, old(S()), S());
      UnobservableKeys(s, S());
      if r.Err? { return; }
      if Has(old(S()), p, cur / PAGE) {
        ReachedSame(S(), turn, s, t, p, first, cur / PAGE, false);
      } else {
        ReachedNext(old(S()), old(turn), S(), turn, s, t, p, first, cur / PAGE, false);
      }
      PageBytes(S(), p, cur / PAGE);
      ReadChunk(s, S(), p, cur, chunk);
      bytes := store[r.value][cur % PAGE .. cur % PAGE + chunk];
    }

    static lemma ReachedHas(cur: State, now: nat, s: State, t: nat, p: nat, first: nat, v: nat, write: bool)
      requires Reached(cur, now, s, t, p, first, v, write)
      ensures Unvisited(cur, s, p, v) && p in s.payloads && p in cur.payloads &&
              SameShape(s.payloads[p], cur.payloads[p])
    {
      hide Holders;
    }

    /** write: the slice of the flat array is replaced; no other payload shows a different byte. */
    method Write(p: nat, offset: nat, data: seq<Byte>) returns (r: Result<nat>, ghost done: nat)
      requires Inv(S()) && p in payloads
      modifies `store, `refs, `free, `payloads, `turn
      ensures Inv(S()) && done <= |data| && Wrote(old(S()), S(), p, offset, data[..done])
      ensures data == [] ==> r == Ok(0)
      ensures data != [] && offset >= old(payloads)[p].memsz ==> r == Err(OutOfBoundary) && done == 0
      ensures r.Ok? && data != [] ==> offset < old(payloads)[p].memsz
      ensures r.Ok? && data != [] ==> r.value == done == Least(|data|, old(payloads)[p].memsz - offset)
      ensures r.Ok? && data != [] ==>
              Flat(S(), p) == Flat(old(S()), p)[..offset] + data[..done] + Flat(old(S()), p)[offset + done..]
      ensures data != [] && offset < old(payloads)[p].memsz ==>
                var first, end := offset / PAGE, offset + Least(|data|, old(payloads)[p].memsz - offset);
                && (r.Ok? <==> Served(old(S()), old(turn), p, first, end, true))
                && (r.Err? ==> exists v :: FailsAt(old(S()), old(turn), p, first, end, true, v, r.error))
                && (end <= first * PAGE + PAGE ==>
                      (r.Ok? <==> old(if first in payloads[p].pages then Forkable(p, first) else Ensurable(p, first))))
    {
      hide Inv, InitialPage, Unobservable, View, Wrote, Flat, ByteAt, EntryOk;
      hide Served, Lacks, LackError, Reached, Ensurable, Forkable, FailsAt, NextPage;
      done := 0;
      WroteNothing(S(), p, offset);
      if data == [] { return Ok(0), 0; }
      if offset >= payloads[p].memsz { return Err(OutOfBoundary), 0; }
      var total := Least(|data|, payloads[p].memsz - offset);
      ghost var s, t, first := S(), turn, offset / PAGE;
      if offset + total <= first * PAGE + PAGE { FirstPage(p, offset, offset + total); }
      ghost var v: nat := first;
      ReachedStart(s, t, p, first, true);
      ServedNone(s, t, p, first, true);
      CutStart(offset, offset + total);
      var consumed := 0;
      while consumed < total
        invariant Inv(S()) && consumed == done <= total && Wrote(s, S(), p, offset, data[..done]) && p in payloads
        invariant Reached(S(), turn, s, t, p, first, v, true) && first <= v && Served(s, t, p, first, v * PAGE, true)
        invariant NextPage(offset + consumed, offset + total, v)
        decreases total - consumed
      {
        var cur := offset + consumed;
        var chunk := Least(PAGE - cur % PAGE, total - consumed);
        NextCut(cur, chunk, offset + total, v);
        ghost var before := S();
        var bytes := data[consumed .. consumed + chunk];
        var got := WriteOne(p, cur, bytes, s, t, first);
        WroteMore(s, before, S(), p, offset, data, consumed, if got.Ok? then chunk else 0);
        ServedMore(s, t, p, first, v, true);
        if got.Err? {
          FailsHere(s, t, p, first, v, offset + total, true);
          return Err(got.error), done;
        }
        consumed, done, v := consumed + chunk, done + chunk, v + 1;
      }
      CutEnd(offset + total, v);
      ServedLess(s, t, p, first, offset + total, v * PAGE, true);
      WroteFlat(s, S(), p, offset, data[..done]);
      r := Ok(total);
    }

    static lemma WroteMore(s: State, b: State, t: State, p: nat, offset: nat, data: seq<Byte>, done: nat, chunk: nat)
      requires done + chunk <= |data| && Wrote(s, b, p, offset, data[..done])
      requires Wrote(b, t, p, offset + done, if chunk == 0 then [] else data[done .. done + chunk])
      ensures Wrote(s, t, p, offset, data[..done + chunk])
    {
      hide Wrote;
      var more := if chunk == 0 then [] else data[done .. done + chunk];
      assert data[..done] + more == data[..done + chunk];
      WroteAppend(s, b, t, p, offset, data[..done], more);
    }

    /** The part of a write inside one page; s is the state when the write began, at turn t. */
    method WriteOne(p: nat, cur: nat, bytes: seq<Byte>, ghost s: State, ghost t: nat, ghost first: nat)
      returns (r: Result<()>)
      requires Inv(S()) && p in payloads && bytes != [] && cur % PAGE + |bytes| <= PAGE
      requires Reached(S(), turn, s, t, p, first, cur / PAGE, true) && first <= cur / PAGE && cur < s.payloads[p].memsz
      modifies `store, `refs, `free, `payloads, `turn
      ensures Inv(S()) && p in payloads && Wrote(old(S()), S(), p, cur, if r.Ok? then bytes else [])
      ensures r.Ok? <==> !Lacks(s, t, p, first, cur / PAGE, true)
      ensures r.Ok? ==> Reached(S(), turn, s, t, p, first, cur / PAGE + 1, true)
      ensures r.Err? ==> r.error == LackError(s, t, p, first, cur / PAGE, true)
    {
      hide Inv, InitialPage, Unobservable, View, Wrote, ByteAt, Lacks, LackError, Ensurable, Forkable, Reached;
      WroteNothing(S(), p, cur);
      ReachedPage(s, t, p, first, cur / PAGE, true);
      ReachedHas(S(), turn, s, t, p, first, cur / PAGE, true);
      r := MakeExclusive(p, cur);
      WroteUnobservable(old(S()), old(S()), S(), p, cur, []);
      if r.Err? { return; }
      PassPage(old(S()), old(turn), p, cur / PAGE, s, t, first);
      var f := payloads[p].pages[cur / PAGE].frame;
      PageBytes(S(), p, cur / PAGE);
      ghost var mid := S();
      PokeKeeps(mid, p, cur / PAGE, cur % PAGE, bytes);
      PokeWrote(mid, p, cur, bytes);
      store := store[f := store[f][..cur % PAGE] + bytes + store[f][cur % PAGE + |bytes|..]];
      ReachedPoke(mid, S(), turn, s, t, p, first, cur / PAGE + 1, true);
      WroteAppend(old(S()), mid, S(), p, cur, [], bytes);
      assert [] + bytes == bytes;
    }

    /** Writing a frame changes nothing a transfer depends on. */
    static lemma ReachedPoke(b: State, cur: State, now: nat, s: State, t: nat, p: nat, first: nat, v: nat, write: bool)
      requires Reached(b, now, s, t, p, first, v, write) && cur.payloads == b.payloads && cur.free == b.free
      ensures Reached(cur, now, s, t, p, first, v, write)
    {
      hide Needed, Returned;
      forall w: nat | w >= v ensures Unvisited(cur, s, p, w) { assert Unvisited(b, s, p, w); }
      if write {
        forall w: nat | w >= v ensures HoldersLess(cur, s, p, first, v, w) { assert HoldersLess(b, s, p, first, v, w); }
      }
    }

    /** The page is exclusive now: the transfer goes on behind it. */
    lemma PassPage(b: State, tb: nat, p: nat, v: nat, s: State, t: nat, first: nat)
      requires Inv(b) && Inv(S()) && Reached(b, tb, s, t, p, first, v, true) && first <= v && Exclusived(b, tb, p, v)
      ensures Reached(S(), turn, s, t, p, first, v + 1, true)
    {
      hide Inv, Reached, Holders, Touched;
      ReachedHas(b, tb, s, t, p, first, v, true);
      if Needs(b.payloads[p], v, true) {
        ReachedNext(b, tb, S(), turn, s, t, p, first, v, true);
      } else {
        ReachedSame(b, tb, s, t, p, first, v, true);
      }
    }

    /** What making page v of p exclusive did to state b of turn tb. */
    ghost predicate Exclusived(b: State, tb: nat, p: nat, v: nat)
      reads `store, `refs, `free, `payloads, `turn
    {
      && p in b.payloads && p in payloads && v in payloads[p].pages
      && if !Needs(b.payloads[p], v, true) then S() == b && turn == tb
         else
           && Touched(b, S(), p, v) && turn == tb + 1
           && payloads[p].pages == b.payloads[p].pages[v := payloads[p].pages[v]]
           && (Has(b, p, v) ==> FrameOf(S(), p, v) != FrameOf(b, p, v))
           && |free| + 1 == |b.free| + if Has(b, p, v) && Holders(b, FrameOf(b, p, v)) == {(p, v)} then 1 else 0
    }

    /** The steps of write before the copy: ensure the page and fork it if its hint says shared. */
    method MakeExclusive(p: nat, offset: nat) returns (r: Result<()>)
      requires Inv(S()) && p in payloads
      modifies `store, `refs, `free, `payloads, `turn
      ensures Inv(S()) && Unobservable(old(S()), S()) && p in payloads
      ensures r.Ok? ==> Has(S(), p, offset / PAGE) && Hint(S(), p, offset / PAGE) <= 1
      ensures r.Ok? <==>
              old(if offset / PAGE in payloads[p].pages then Forkable(p, offset / PAGE)
                  else Ensurable(p, offset / PAGE))
      ensures r.Ok? ==> Exclusived(old(S()), old(turn), p, offset / PAGE)
      ensures r.Err? ==> var v, a := offset / PAGE, old(payloads)[p];
                r.error == if v * PAGE >= a.memsz then OutOfBoundary else if old(Dry()) then OutOfMemory
                           else if Unbacked(a.backing, v) then OutOfBoundary else IoError
    {
      hide Inv, InitialPage, Unobservable, View, Touched, Holders;
      var got := EnsurePage(p, offset);
      UnobservableKeys(old(S()), S());
      if got.Err? { return Err(got.error); }
      ghost var mid := S();
      if payloads[p].pages[offset / PAGE].refcount > 1 {
        var forked := Fork(p, offset);
        UnobservableTrans(old(S()), mid, S());
        UnobservableKeys(mid, S());
        if forked.Err? { return Err(forked.error); }
      }
      r := Ok(());
    }

    /** A fresh payload q with no pages. */
    method Create(q: nat, payload: Payload)
      requires Inv(S()) && q !in payloads && payload.pages == map[]
      modifies `payloads
      ensures Inv(S()) && payloads == old(payloads)[q := payload]
      ensures forall p :: p in old(payloads) ==> SameView(old(S()), S(), p)
    {
      payloads := payloads[q := payload];
      AddKeeps(old(S()), q, payload);
    }

    /** clone_payload: the clone, at address q if p is not shared, shows exactly what p shows. */
    method ClonePayload(p: nat, q: nat) returns (r: nat)
      requires Inv(S()) && p in payloads && q !in payloads
      modifies `refs, `payloads
      ensures Inv(S()) && r == if old(payloads)[p].shared then p else q
      ensures old(payloads)[p].shared ==> unchanged(this)
      ensures !old(payloads)[p].shared ==> Cloned(old(S()), S(), p, q)
    {
      if payloads[p].shared { return p; }
      hide *;
      var todo := payloads[p].pages.Keys;
      AddClone(p, q);
      while todo != {}
        invariant Inv(S()) && Cloning(old(S()), S(), p, q, todo)
        decreases |todo|
      {
        var v :| v in todo;
        ShareNext(old(S()), p, q, todo, v);
        todo := todo - {v};
      }
      ClonedAll(old(S()), S(), p, q);
      r := q;
    }

    /** The clone before any page is shared. */
    method AddClone(p: nat, q: nat)
      requires Inv(S()) && p in payloads && q !in payloads
      modifies `payloads
      ensures Inv(S()) && Cloning(old(S()), S(), p, q, old(payloads)[p].pages.Keys)
    {
      hide Inv, InitialPage, View, Cloning, SameShape;
      payloads := payloads[q := payloads[p].(pages := map[])];
      AddKeeps(old(S()), q, payloads[p].(pages := map[]));
      AddCloning(old(S()), p, q);
    }

    /** One round of the clone loop, which began in state s. */
    method ShareNext(ghost s: State, p: nat, q: nat, ghost todo: set<nat>, v: nat)
      requires Inv(S()) && Cloning(s, S(), p, q, todo) && v in todo
      modifies `refs, `payloads
      ensures Inv(S()) && Cloning(s, S(), p, q, todo - {v})
    {
      hide Inv, InitialPage, View, Share, Keep, Cloning, SameShape;
      ghost var before := S();
      CloningFacts(s, S(), p, q, todo, v);
      ShareOne(p, q, v);
      ShareKeeps(before, p, q, v);
      CloningStep(s, before, p, q, todo, v);
    }

    /** Page v of p, also for q, with its hint raised. */
    method ShareOne(p: nat, q: nat, v: nat)
      requires Has(S(), p, v) && q in payloads && q != p
      modifies `refs, `payloads
      ensures S() == Share(old(S()), p, q, v)
    {
      hide Share, Keep;
      ShareIs(S(), p, q, v);
      var page := payloads[p].pages[v].(refcount := payloads[p].pages[v].refcount + 1);
      refs := KeepPage(page.frame);
      payloads := payloads[p := payloads[p].(pages := payloads[p].pages[v := page])];
      payloads := payloads[q := payloads[q].(pages := payloads[q].pages[v := page])];
    }

    /** The reference counts after GFP::keep_page(f, 1). */
    function KeepPage(f: nat): (r: map<nat, nat>)
      reads this
      ensures r == Keep(S(), f).refs
    {
      if f >= TRACKED then refs else refs[f := (if f in refs then refs[f] else 0) + 1]
    }

    /** release_pages_from: pages from the one after offset on go back to their initial contents. */
    method ReleasePagesFrom(p: nat, offset: nat)
      requires Inv(S()) && p in payloads
      modifies `refs, `free, `payloads
      ensures Inv(S()) && Released(old(S()), S(), p, (offset + PAGE - 1) / PAGE)
    {
      hide Inv, InitialPage, View, DropPage, Releasing, CowState.Released;
      var first := (offset + PAGE - 1) / PAGE;
      var todo := payloads[p].pages.Keys;
      ReleasingSelf(S(), p, first);
      while todo != {}
        invariant Inv(S()) && Releasing(old(S()), S(), p, first, todo) && store == old(store)
        invariant todo <= old(payloads)[p].pages.Keys
        decreases |todo|
      {
        var v :| v in todo;
        ghost var before := S();
        if v >= first {
          ReleasingFacts(old(S()), S(), p, first, todo, v);
          DropKeeps(before, p, v);
          EraseOne(p, v);
        }
        ReleasingStep(old(S()), before, S(), p, first, todo, v);
        todo := todo - {v};
      }
      ReleasedAll(old(S()), S(), p, first);
    }

    /** Erase one page entry and put its frame. */
    method EraseOne(p: nat, v: nat)
      requires Has(S(), p, v)
      modifies `refs, `free, `payloads
      ensures S() == DropPage(old(S()), p, v)
    {
      hide Put;
      var f := payloads[p].pages[v].frame;
      payloads := payloads[p := payloads[p].(pages := payloads[p].pages - {v})];
      PutPage(f);
    }

    /** resize for a payload that need not be physically contiguous. */
    method Resize(p: nat, newsz: nat) returns (r: Result<()>)
      requires Inv(S()) && p in payloads
      modifies `refs, `free, `payloads
      ensures Inv(S())
      ensures r.Ok? <==> newsz == old(payloads)[p].memsz || MayResize(old(payloads)[p], newsz)
      ensures r.Err? ==> r.error == NotSupported && unchanged(this)
      ensures r.Ok? ==> Resized(old(S()), S(), p, newsz)
    {
      hide Inv, InitialPage, View;
      var a := payloads[p];
      if newsz == a.memsz {
        ResizedSame(S(), p);
        return Ok(());
      }
      if a.shared { return Err(NotSupported); }
      var grow := newsz > a.memsz && (a.growUp || a.growDown);
      var shrink := newsz < a.memsz && (a.shrinkUp || a.shrinkDown);
      if !grow && !shrink { return Err(NotSupported); }
      ghost var mid := S();
      if newsz < a.memsz {
        ReleasePagesFrom(p, newsz);
        mid := S();
      }
      ResizedBy(old(S()), mid, p, newsz);
      payloads := payloads[p := payloads[p].(memsz := newsz)];
      return Ok(());
    }

    /** destruct: the payload goes, nobody else notices. */
    method Destruct(p: nat)
      requires Inv(S()) && p in payloads
      modifies `refs, `free, `payloads
      ensures Inv(S()) && payloads.Keys == old(payloads).Keys - {p}
      ensures forall q :: q in payloads ==> SameView(old(S()), S(), q) && SameShape(old(payloads)[q], payloads[q])
    {
      hide Inv, InitialPage, View;
      ReleasePagesFrom(p, 0);
      ghost var mid := S();
      ReleasedFacts(old(S()), mid, p);
      payloads := payloads - {p};
      RemoveKeeps(mid, p);
    }
  }
}
