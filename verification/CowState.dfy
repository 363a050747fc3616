/**
 Copy-on-write memory, as values: physical frames with reference counts, and memory payloads
 that map page numbers to frames.  Each function is one elementary step of the kernel code; each
 lemma says that the step keeps the sharing invariant and what it does to the bytes every
 payload shows.
 */
module CowState {
  const PAGE: nat := 4096
  const TRACKED: nat := 0x100000
  const SIZE_MAX: nat := 0xFFFF_FFFF_FFFF_FFFF

  newtype Byte = b: int | 0 <= b < 256

  /** refcount is this payload's own hint that the frame may be shared. */
  datatype PhyPage = PhyPage(frame: nat, refcount: nat)

  datatype Backing = Anonymous | File(bytes: seq<Byte>, offset: nat, length: nat)

  datatype Payload = Payload(memsz: nat, shared: bool, growUp: bool, growDown: bool, shrinkUp: bool, shrinkDown: bool,
                             backing: Backing, pages: map<nat, PhyPage>)

  /** Physical contents, reference counts, free frames and live payloads. */
  datatype State = State(store: map<nat, seq<Byte>>, refs: map<nat, nat>, free: set<nat>, payloads: map<nat, Payload>)

  // ---------- what a payload shows ----------

  ghost predicate Has(s: State, p: nat, v: nat) {
    p in s.payloads && v in s.payloads[p].pages
  }

  ghost function FrameOf(s: State, p: nat, v: nat): nat
    requires Has(s, p, v)
  {
    s.payloads[p].pages[v].frame
  }

  ghost function Hint(s: State, p: nat, v: nat): nat
    requires Has(s, p, v)
  {
    s.payloads[p].pages[v].refcount
  }

  /** Byte x of a payload before it is first touched: the file's byte if the file backs it, or zero. */
  function InitialByte(b: Backing, x: nat): Byte {
    if b.File? && (b.length == SIZE_MAX || x < b.length) && b.offset + x < |b.bytes| then b.bytes[b.offset + x] else 0
  }

  function InitialPage(b: Backing, v: nat): (page: seq<Byte>)
    ensures |page| == PAGE
  {
    seq(PAGE, i requires 0 <= i < PAGE => InitialByte(b, v * PAGE + i))
  }

  /** The contents of page v of payload p. */
  ghost function View(s: State, p: nat, v: nat): seq<Byte>
    requires p in s.payloads
  {
    if !Has(s, p, v) then InitialPage(s.payloads[p].backing, v)
    else if FrameOf(s, p, v) in s.store then s.store[FrameOf(s, p, v)]
    else []
  }

  ghost predicate SameView(s: State, t: State, p: nat) {
    p in s.payloads && p in t.payloads && forall v :: View(t, p, v) == View(s, p, v)
  }

  // ---------- the invariant ----------

  ghost function Holders(s: State, f: nat): set<(nat, nat)> {
    set p, v | p in s.payloads && v in s.payloads[p].pages && s.payloads[p].pages[v].frame == f :: (p, v)
  }

  ghost predicate FrameOk(s: State, f: nat) {
    0 < f < TRACKED && f in s.store && |s.store[f]| == PAGE && f in s.refs
  }

  ghost predicate EntryOk(s: State, p: nat, v: nat) {
    Has(s, p, v) ==> FrameOk(s, FrameOf(s, p, v)) && FrameOf(s, p, v) !in s.free && Hint(s, p, v) >= 1
  }

  /** A held frame has exactly as many references as page entries. */
  ghost predicate CountOk(s: State, f: nat) {
    f in s.refs && Holders(s, f) != {} ==> s.refs[f] == |Holders(s, f)|
  }

  /** Two entries on one frame: each side's hint says shared. */
  ghost predicate SharedOk(s: State, p: nat, v: nat, q: nat, w: nat) {
    Has(s, p, v) && Has(s, q, w) && (p, v) != (q, w) && FrameOf(s, p, v) == FrameOf(s, q, w) ==> Hint(s, p, v) > 1
  }

  ghost predicate Inv(s: State) {
    && (forall f :: f in s.free ==> FrameOk(s, f))
    && (forall p, v :: EntryOk(s, p, v))
    && (forall f :: CountOk(s, f))
    && (forall p, v, q, w :: SharedOk(s, p, v, q, w))
  }

  /** An allocated frame that no payload holds yet. */
  ghost predicate Reserved(s: State, f: nat) {
    FrameOk(s, f) && f !in s.free && s.refs[f] == 1 && Holders(s, f) == {}
  }

  // ---------- the elementary steps ----------

  function Minus(n: nat): nat {
    if n > 0 then n - 1 else 0
  }

  /** Drop one reference of a frame; the last one gives it back, and so does any put of an untracked frame. */
  function Put(s: State, f: nat): State {
    if f == 0 then s
    else if f >= TRACKED then s.(free := s.free + {f})
    else
      var n := if f in s.refs then Minus(s.refs[f]) else 0;
      s.(refs := s.refs[f := n], free := if n == 0 then s.free + {f} else s.free)
  }

  function Keep(s: State, f: nat): State {
    if f >= TRACKED then s else s.(refs := s.refs[f := (if f in s.refs then s.refs[f] else 0) + 1])
  }

  function Reserve(s: State, f: nat): State {
    s.(free := s.free - {f}, refs := s.refs[f := 1])
  }

  function Fill(s: State, f: nat, bytes: seq<Byte>): State {
    s.(store := s.store[f := bytes])
  }

  function SetPage(s: State, p: nat, v: nat, page: PhyPage): State
    requires p in s.payloads
  {
    s.(payloads := s.payloads[p := s.payloads[p].(pages := s.payloads[p].pages[v := page])])
  }

  function ErasePage(s: State, p: nat, v: nat): State
    requires p in s.payloads
  {
    s.(payloads := s.payloads[p := s.payloads[p].(pages := s.payloads[p].pages - {v})])
  }

  function DropPage(s: State, p: nat, v: nat): State
    requires p in s.payloads && v in s.payloads[p].pages
  {
    Put(ErasePage(s, p, v), s.payloads[p].pages[v].frame)
  }

  /** One round of the clone loop: page v of p becomes shared with q. */
  function Share(s: State, p: nat, q: nat, v: nat): State
    requires p in s.payloads && q in s.payloads && v in s.payloads[p].pages
  {
    var page := PhyPage(s.payloads[p].pages[v].frame, s.payloads[p].pages[v].refcount + 1);
    Keep(SetPage(SetPage(s, p, v, page), q, v, page), page.frame)
  }

  /** Overwrite the frame of page v of p from offset i on. */
  function Poke(s: State, p: nat, v: nat, i: nat, data: seq<Byte>): State
    requires p in s.payloads && v in s.payloads[p].pages && s.payloads[p].pages[v].frame in s.store
    requires i + |data| <= |s.store[s.payloads[p].pages[v].frame]|
  {
    var old' := s.store[s.payloads[p].pages[v].frame];
    Fill(s, s.payloads[p].pages[v].frame, old'[..i] + data + old'[i + |data|..])
  }

  // ---------- every step keeps the invariant ----------

  ghost predicate AllViewsSame(s: State, t: State) {
    t.payloads.Keys == s.payloads.Keys && forall p :: p in s.payloads ==> SameView(s, t, p)
  }

  /** Only page (p, v) looks different. */
  ghost predicate OnlyChanged(s: State, t: State, p: nat, v: nat) {
    && t.payloads.Keys == s.payloads.Keys
    && forall q: nat, w: nat :: q in s.payloads && (q, w) != (p, v) ==> View(t, q, w) == View(s, q, w)
  }

  lemma FreeIsUnheld(s: State, f: nat)
    requires Inv(s) && f in s.free
    ensures Holders(s, f) == {}
  {
    if Holders(s, f) != {} {
      var e :| e in Holders(s, f);
      HeldIsNotFree(s, e.0, e.1);
    }
  }

  lemma HeldIsNotFree(s: State, p: nat, v: nat)
    requires Inv(s) && Has(s, p, v)
    ensures FrameOk(s, FrameOf(s, p, v)) && FrameOf(s, p, v) !in s.free
  {
    assert EntryOk(s, p, v);
  }

  lemma ReserveKeeps(s: State, f: nat)
    requires Inv(s) && f in s.free
    ensures Inv(Reserve(s, f)) && Reserved(Reserve(s, f), f) && AllViewsSame(s, Reserve(s, f))
  {
    var t := Reserve(s, f);
    FreeIsUnheld(s, f);
    forall g ensures Holders(t, g) == Holders(s, g) {}
    forall g ensures CountOk(t, g) { assert CountOk(s, g); }
    forall p, v ensures EntryOk(t, p, v) { assert EntryOk(s, p, v); }
    forall p, v, q, w ensures SharedOk(t, p, v, q, w) { assert SharedOk(s, p, v, q, w); }
  }

  /** Giving a frame straight back is unobservable. */
  lemma UndoKeeps(s: State, f: nat)
    requires Inv(s) && f in s.free
    ensures Inv(Put(Reserve(s, f), f)) && Put(Reserve(s, f), f).payloads == s.payloads
    ensures AllViewsSame(s, Put(Reserve(s, f), f))
  {
    var t := Put(Reserve(s, f), f);
    FreeIsUnheld(s, f);
    forall g ensures Holders(t, g) == Holders(s, g) {}
    forall g ensures CountOk(t, g) { assert CountOk(s, g); }
    forall p, v ensures EntryOk(t, p, v) { assert EntryOk(s, p, v); }
    forall p, v, q, w ensures SharedOk(t, p, v, q, w) { assert SharedOk(s, p, v, q, w); }
  }

  /** Losing free frames is unobservable. */
  lemma FewerFree(s: State, t: State)
    requires Inv(s) && t.free <= s.free && t == s.(free := t.free)
    ensures Inv(t) && AllViewsSame(s, t)
  {
    forall g ensures Holders(t, g) == Holders(s, g) {}
    forall g ensures CountOk(t, g) { assert CountOk(s, g); }
    forall p, v ensures EntryOk(t, p, v) { assert EntryOk(s, p, v); }
    forall p, v, q, w ensures SharedOk(t, p, v, q, w) { assert SharedOk(s, p, v, q, w); }
  }

  lemma ReservedIsUnheld(s: State, f: nat, p: nat, v: nat)
    requires Reserved(s, f) && Has(s, p, v)
    ensures FrameOf(s, p, v) != f
  {
    assert FrameOf(s, p, v) == f ==> (p, v) in Holders(s, f);
  }

  lemma FillKeeps(s: State, f: nat, bytes: seq<Byte>)
    requires Inv(s) && Reserved(s, f) && |bytes| == PAGE
    ensures Inv(Fill(s, f, bytes)) && Reserved(Fill(s, f, bytes), f) && AllViewsSame(s, Fill(s, f, bytes))
  {
    var t := Fill(s, f, bytes);
    forall g ensures Holders(t, g) == Holders(s, g) {}
    forall g ensures CountOk(t, g) { assert CountOk(s, g); }
    forall p, v ensures EntryOk(t, p, v) { assert EntryOk(s, p, v); }
    forall p, v, q, w ensures SharedOk(t, p, v, q, w) { assert SharedOk(s, p, v, q, w); }
    forall p: nat, v: nat | Has(s, p, v) ensures FrameOf(s, p, v) != f { ReservedIsUnheld(s, f, p, v); }
  }

  /** What holds after page v of p is set. */
  lemma AfterSet(s: State, p: nat, v: nat, page: PhyPage, q: nat, w: nat)
    requires p in s.payloads
    ensures var t := SetPage(s, p, v, page);
            && t.payloads.Keys == s.payloads.Keys && t.store == s.store && t.refs == s.refs && t.free == s.free
            && (Has(t, q, w) <==> Has(s, q, w) || (q, w) == (p, v))
            && (Has(t, q, w) && (q, w) != (p, v) ==>
                FrameOf(t, q, w) == FrameOf(s, q, w) && Hint(t, q, w) == Hint(s, q, w))
            && FrameOf(t, p, v) == page.frame && Hint(t, p, v) == page.refcount
            && (q in s.payloads && (q, w) != (p, v) ==> View(t, q, w) == View(s, q, w))
  {}

  lemma HoldersSet(s: State, p: nat, v: nat, page: PhyPage, g: nat)
    requires p in s.payloads
    ensures Holders(SetPage(s, p, v, page), g) == Holders(s, g) - {(p, v)} + (if page.frame == g then {(p, v)} else {})
  {}

  lemma AfterErase(s: State, p: nat, v: nat, q: nat, w: nat)
    requires p in s.payloads
    ensures var t := ErasePage(s, p, v);
            && t.payloads.Keys == s.payloads.Keys && t.store == s.store && t.refs == s.refs && t.free == s.free
            && (Has(t, q, w) <==> Has(s, q, w) && (q, w) != (p, v))
            && (Has(t, q, w) ==> FrameOf(t, q, w) == FrameOf(s, q, w) && Hint(t, q, w) == Hint(s, q, w))
            && (q in s.payloads && (q, w) != (p, v) ==> View(t, q, w) == View(s, q, w))
            && View(t, p, v) == InitialPage(s.payloads[p].backing, v)
  {}

  lemma HoldersErase(s: State, p: nat, v: nat, g: nat)
    requires p in s.payloads
    ensures Holders(ErasePage(s, p, v), g) == Holders(s, g) - {(p, v)}
  {}

  lemma HoldersAgree(s: State, t: State, g: nat)
    requires s.payloads == t.payloads
    ensures Holders(s, g) == Holders(t, g)
  {}

  lemma NotHolding(s: State, p: nat, v: nat, g: nat)
    ensures (p, v) in Holders(s, g) <==> Has(s, p, v) && FrameOf(s, p, v) == g
  {}

  /** A reserved frame becomes page v of p: p shows its contents there, nothing else changes. */
  lemma InstallKeeps(s: State, p: nat, v: nat, f: nat)
    requires Inv(s) && Reserved(s, f) && p in s.payloads && !Has(s, p, v)
    ensures var t := SetPage(s, p, v, PhyPage(f, 1));
            Inv(t) && OnlyChanged(s, t, p, v) && View(t, p, v) == s.store[f]
  {
    hide SetPage, Holders;
    var page := PhyPage(f, 1);
    var t := SetPage(s, p, v, page);
    AfterSet(s, p, v, page, p, v);
    forall g ensures CountOk(t, g) {
      assert CountOk(s, g);
      HoldersSet(s, p, v, page, g);
      NotHolding(s, p, v, g);
    }
    forall q, w ensures EntryOk(t, q, w) {
      AfterSet(s, p, v, page, q, w);
      assert EntryOk(s, q, w);
    }
    forall a, b, q, w ensures SharedOk(t, a, b, q, w) {
      AfterSet(s, p, v, page, a, b);
      AfterSet(s, p, v, page, q, w);
      NotHolding(s, a, b, f);
      NotHolding(s, q, w, f);
      assert SharedOk(s, a, b, q, w);
    }
    forall q: nat, w: nat | q in s.payloads && (q, w) != (p, v) ensures View(t, q, w) == View(s, q, w) {
      AfterSet(s, p, v, page, q, w);
    }
  }

  /** Dropping page v of p frees its frame exactly when no other entry holds it. */
  lemma DropKeeps(s: State, p: nat, v: nat)
    requires Inv(s) && Has(s, p, v)
    ensures var t, f := DropPage(s, p, v), FrameOf(s, p, v);
            && Inv(t) && OnlyChanged(s, t, p, v) && View(t, p, v) == InitialPage(s.payloads[p].backing, v)
            && t.free == s.free + (if Holders(s, f) == {(p, v)} then {f} else {})
  {
    hide ErasePage, Holders, InitialPage;
    var f, e, t := FrameOf(s, p, v), ErasePage(s, p, v), DropPage(s, p, v);
    AfterErase(s, p, v, p, v);
    assert EntryOk(s, p, v) && CountOk(s, f);
    forall g ensures Holders(t, g) == Holders(s, g) - {(p, v)} {
      HoldersErase(s, p, v, g);
      HoldersAgree(e, t, g);
    }
    NotHolding(s, p, v, f);
    assert |Holders(t, f)| == |Holders(s, f)| - 1;
    forall g ensures CountOk(t, g) {
      assert CountOk(s, g);
      NotHolding(s, p, v, g);
    }
    forall q: nat, w: nat ensures EntryOk(t, q, w) {
      AfterErase(s, p, v, q, w);
      assert EntryOk(s, q, w);
      NotHolding(t, q, w, f);
    }
    forall a, b, q, w ensures SharedOk(t, a, b, q, w) {
      AfterErase(s, p, v, a, b);
      AfterErase(s, p, v, q, w);
      assert SharedOk(s, a, b, q, w);
    }
    forall q: nat, w: nat | q in s.payloads && (q, w) != (p, v) ensures View(t, q, w) == View(s, q, w) {
      AfterErase(s, p, v, q, w);
    }
    if Holders(t, f) == {} { assert Holders(s, f) == {(p, v)}; }
  }

  lemma HoldersShare(s: State, p: nat, q: nat, v: nat, g: nat)
    requires Has(s, p, v) && q in s.payloads && q != p && !Has(s, q, v)
    ensures Holders(Share(s, p, q, v), g) == Holders(s, g) + (if g == FrameOf(s, p, v) then {(q, v)} else {})
    ensures (q, v) !in Holders(s, g)
  {
    hide Holders, SetPage;
    var page := PhyPage(FrameOf(s, p, v), Hint(s, p, v) + 1);
    var m := SetPage(s, p, v, page);
    AfterSet(s, p, v, page, q, v);
    HoldersSet(s, p, v, page, g);
    HoldersSet(m, q, v, page, g);
    HoldersAgree(Share(s, p, q, v), SetPage(m, q, v, page), g);
    NotHolding(s, p, v, g);
    NotHolding(s, q, v, g);
  }

  lemma AfterShare(s: State, p: nat, q: nat, v: nat, a: nat, b: nat)
    requires Has(s, p, v) && q in s.payloads && q != p && !Has(s, q, v) && FrameOf(s, p, v) in s.refs &&
             FrameOf(s, p, v) < TRACKED
    ensures var t, f := Share(s, p, q, v), FrameOf(s, p, v);
            && t.payloads.Keys == s.payloads.Keys && t.store == s.store && t.refs == s.refs[f := s.refs[f] + 1] &&
                t.free == s.free
            && (Has(t, a, b) <==> Has(s, a, b) || (a, b) == (q, v))
            && (Has(s, a, b) ==> FrameOf(t, a, b) == FrameOf(s, a, b) && Hint(t, a, b) >= Hint(s, a, b))
            && FrameOf(t, q, v) == f && Hint(t, q, v) == Hint(t, p, v) == Hint(s, p, v) + 1
            && (a in s.payloads && (a, b) != (q, v) ==> View(t, a, b) == View(s, a, b)) &&
                View(t, q, v) == View(s, p, v)
  {
  }

  /** Sharing page v of p with q: q shows p's page, and both hints now say shared. */
  lemma ShareKeeps(s: State, p: nat, q: nat, v: nat)
    requires Inv(s) && Has(s, p, v) && q in s.payloads && q != p && !Has(s, q, v)
    ensures var t := Share(s, p, q, v);
            && Inv(t) && OnlyChanged(s, t, q, v) && View(t, q, v) == View(s, p, v)
            && FrameOf(t, p, v) == FrameOf(s, p, v) == FrameOf(t, q, v)
  {
    hide Share, Holders, View;
    var f, t := FrameOf(s, p, v), Share(s, p, q, v);
    assert EntryOk(s, p, v) && CountOk(s, f);
    AfterShare(s, p, q, v, p, v);
    NotHolding(s, p, v, f);
    forall g ensures CountOk(t, g) {
      assert CountOk(s, g);
      HoldersShare(s, p, q, v, g);
    }
    forall a, b ensures EntryOk(t, a, b) {
      AfterShare(s, p, q, v, a, b);
      assert EntryOk(s, a, b);
    }
    forall a, b, c, d ensures SharedOk(t, a, b, c, d) {
      AfterShare(s, p, q, v, a, b);
      AfterShare(s, p, q, v, c, d);
      assert SharedOk(s, a, b, c, d) && SharedOk(s, a, b, p, v);
    }
    forall a: nat, b: nat | a in s.payloads && (a, b) != (q, v) ensures View(t, a, b) == View(s, a, b) {
      AfterShare(s, p, q, v, a, b);
    }
  }

  /** The copy-on-write law: writing a page whose hint says exclusive changes no other page of any payload. */
  lemma PokeKeeps(s: State, p: nat, v: nat, i: nat, data: seq<Byte>)
    requires Inv(s) && Has(s, p, v) && Hint(s, p, v) <= 1 && i + |data| <= PAGE
    ensures EntryOk(s, p, v)
    ensures var t := Poke(s, p, v, i, data);
            && Inv(t) && OnlyChanged(s, t, p, v)
            && View(t, p, v) == View(s, p, v)[..i] + data + View(s, p, v)[i + |data|..]
  {
    assert EntryOk(s, p, v);
    var t := Poke(s, p, v, i, data);
    forall g ensures Holders(t, g) == Holders(s, g) {}
    forall g ensures CountOk(t, g) { assert CountOk(s, g); }
    forall q, w ensures EntryOk(t, q, w) { assert EntryOk(s, q, w); }
    forall a, b, q, w ensures SharedOk(t, a, b, q, w) { assert SharedOk(s, a, b, q, w); }
    forall q: nat, w: nat | q in s.payloads && (q, w) != (p, v) ensures View(t, q, w) == View(s, q, w) {
      assert SharedOk(s, p, v, q, w);
    }
  }

  // ---------- bytes ----------

  /** Byte x of payload p. */
  ghost function ByteAt(s: State, p: nat, x: nat): Byte
    requires p in s.payloads
  {
    if |View(s, p, x / PAGE)| == PAGE then View(s, p, x / PAGE)[x % PAGE] else 0
  }

  /** The payload as the flat byte array of its size. */
  ghost function Flat(s: State, p: nat): (bytes: seq<Byte>)
    requires p in s.payloads
    ensures |bytes| == s.payloads[p].memsz
  {
    seq(s.payloads[p].memsz, x requires 0 <= x => ByteAt(s, p, x))
  }

  lemma ViewSize(s: State, p: nat, v: nat)
    requires Inv(s) && p in s.payloads
    ensures |View(s, p, v)| == PAGE
  {
    assert EntryOk(s, p, v);
  }

  /** No payload shows a different byte and none appears or goes. */
  ghost predicate Unobservable(s: State, t: State) {
    && t.payloads.Keys == s.payloads.Keys
    && (forall p, v :: p in s.payloads ==> View(t, p, v) == View(s, p, v))
    && (forall p :: p in s.payloads ==> SameShape(s.payloads[p], t.payloads[p]))
  }

  /** The same payload up to its pages. */
  ghost predicate SameShape(a: Payload, b: Payload) {
    a.(pages := map[]) == b.(pages := map[])
  }

  /** ensure_page for a page that is not present, with the frame it was given. */
  function EnsureStep(s: State, p: nat, v: nat, f: nat): State
    requires p in s.payloads
  {
    SetPage(Fill(Reserve(s, f), f, InitialPage(s.payloads[p].backing, v)), p, v, PhyPage(f, 1))
  }

  /** First touch of a page is unobservable. */
  lemma EnsureIsUnobservable(s: State, p: nat, v: nat, f: nat)
    requires Inv(s) && f in s.free && p in s.payloads && !Has(s, p, v)
    ensures Inv(EnsureStep(s, p, v, f)) && Unobservable(s, EnsureStep(s, p, v, f))
    ensures Has(EnsureStep(s, p, v, f), p, v) && Hint(EnsureStep(s, p, v, f), p, v) == 1
  {
    hide Inv, Reserved, InitialPage;
    var bytes := InitialPage(s.payloads[p].backing, v);
    var r := Reserve(s, f);
    var l := Fill(r, f, bytes);
    ReserveKeeps(s, f);
    FillKeeps(r, f, bytes);
    InstallKeeps(l, p, v, f);
    assert View(l, p, v) == bytes;
  }

  /** fork for a page whose hint says shared: copy, replace, drop the old frame. */
  function ForkStep(s: State, p: nat, v: nat, f: nat): State
    requires p in s.payloads && v in s.payloads[p].pages && s.payloads[p].pages[v].frame in s.store
  {
    var old' := s.payloads[p].pages[v].frame;
    Put(SetPage(Fill(Reserve(s, f), f, s.store[old']), p, v, PhyPage(f, 1)), old')
  }

  lemma SetAfterErase(l: State, p: nat, v: nat, page: PhyPage)
    requires p in l.payloads
    ensures SetPage(ErasePage(l, p, v), p, v, page) == SetPage(l, p, v, page)
  {
    var a, b := l.payloads[p].pages[v := page], (l.payloads[p].pages - {v})[v := page];
    assert a == b;
    var q := l.payloads[p];
    assert l.payloads[p := q.(pages := q.pages - {v})][p := q.(pages := b)] == l.payloads[p := q.(pages := a)];
  }

  lemma PutThenSet(e: State, p: nat, v: nat, page: PhyPage, f: nat)
    requires p in e.payloads
    ensures Put(e, f).payloads == e.payloads && SetPage(Put(e, f), p, v, page) == Put(SetPage(e, p, v, page), f)
  {}

  lemma ReplaceIsDropInstall(l: State, p: nat, v: nat, page: PhyPage)
    requires Has(l, p, v)
    ensures Put(SetPage(l, p, v, page), FrameOf(l, p, v)) == SetPage(DropPage(l, p, v), p, v, page)
  {
    hide Put, SetPage;
    SetAfterErase(l, p, v, page);
    PutThenSet(ErasePage(l, p, v), p, v, page, FrameOf(l, p, v));
  }

  /** Splitting a page off is unobservable and leaves the page exclusive. */
  lemma ForkIsUnobservable(s: State, p: nat, v: nat, f: nat)
    requires Inv(s) && f in s.free && Has(s, p, v)
    ensures FrameOf(s, p, v) in s.store
    ensures Inv(ForkStep(s, p, v, f)) && Unobservable(s, ForkStep(s, p, v, f))
    ensures Has(ForkStep(s, p, v, f), p, v) && Hint(ForkStep(s, p, v, f), p, v) == 1 &&
            FrameOf(ForkStep(s, p, v, f), p, v) == f
    ensures Holders(ForkStep(s, p, v, f), f) == {(p, v)}
  {
    hide Inv, InitialPage;
    HeldIsNotFree(s, p, v);
    var g := FrameOf(s, p, v);
    var bytes := s.store[g];
    var r := Reserve(s, f);
    var l := Fill(r, f, bytes);
    var d := DropPage(l, p, v);
    ReserveKeeps(s, f);
    FillKeeps(r, f, bytes);
    ReplaceIsDropInstall(l, p, v, PhyPage(f, 1));
    DropKeeps(l, p, v);
    ReservedIsUnheld(l, f, p, v);
    HoldersErase(l, p, v, f);
    HoldersAgree(d, ErasePage(l, p, v), f);
    assert Reserved(d, f);
    InstallKeeps(d, p, v, f);
    HoldersSet(d, p, v, PhyPage(f, 1), f);
  }

  /** A fork takes a frame and gives the old one back if nobody else holds it. */
  lemma ForkFree(s: State, p: nat, v: nat, f: nat)
    requires Inv(s) && f in s.free && Has(s, p, v) && FrameOf(s, p, v) in s.store
    ensures |ForkStep(s, p, v, f).free| + 1 == |s.free| + if Holders(s, FrameOf(s, p, v)) == {(p, v)} then 1 else 0
    ensures f != FrameOf(s, p, v)
  {
    var g := FrameOf(s, p, v);
    assert EntryOk(s, p, v) && CountOk(s, g);
    hide Inv, Holders;
    NotHolding(s, p, v, g);
    OneOf(Holders(s, g), (p, v));
  }

  lemma EnsurePages(s: State, p: nat, v: nat, f: nat)
    requires p in s.payloads && f in s.free
    ensures var t := EnsureStep(s, p, v, f);
            && t.payloads == s.payloads[p := s.payloads[p].(pages := s.payloads[p].pages[v := PhyPage(f, 1)])]
            && |t.free| == |s.free| - 1
  {}

  lemma ForkPages(s: State, p: nat, v: nat, f: nat)
    requires Has(s, p, v) && FrameOf(s, p, v) in s.store
    ensures var t := ForkStep(s, p, v, f);
            t.payloads == s.payloads[p := s.payloads[p].(pages := s.payloads[p].pages[v := PhyPage(f, 1)])]
  {}

  lemma OneOf<T>(s: set<T>, x: T)
    requires x in s
    ensures |s| >= 1 && (|s| == 1 <==> s == {x})
  {
    assert s == (s - {x}) + {x};
  }

  lemma HintPositive(s: State, p: nat, v: nat)
    requires Inv(s) && Has(s, p, v)
    ensures Hint(s, p, v) >= 1
  {
    assert EntryOk(s, p, v);
  }

  /** Writing back an exclusive entry changes nothing. */
  lemma SetSame(s: State, p: nat, v: nat)
    requires Has(s, p, v) && Hint(s, p, v) == 1
    ensures SetPage(s, p, v, PhyPage(FrameOf(s, p, v), 1)) == s
  {
    assert s.payloads[p].pages[v := PhyPage(FrameOf(s, p, v), 1)] == s.payloads[p].pages;
    assert s.payloads[p := s.payloads[p]] == s.payloads;
  }

  lemma UnobservableSelf(s: State)
    ensures Unobservable(s, s)
  {}

  lemma UnobservableTrans(s: State, t: State, u: State)
    requires Unobservable(s, t) && Unobservable(t, u)
    ensures Unobservable(s, u)
  {
    hide View;
  }

  lemma UnobservableBytes(s: State, t: State, p: nat)
    requires Unobservable(s, t) && p in s.payloads
    ensures p in t.payloads && SameShape(s.payloads[p], t.payloads[p]) && SameView(s, t, p)
    ensures forall x: nat :: ByteAt(t, p, x) == ByteAt(s, p, x)
  {
    hide View;
  }

  /** The bytes of a present page are those of its frame. */
  lemma PageBytes(s: State, p: nat, v: nat)
    requires Inv(s) && Has(s, p, v)
    ensures FrameOf(s, p, v) in s.store && |s.store[FrameOf(s, p, v)]| == PAGE
    ensures forall i :: 0 <= i < PAGE ==> s.store[FrameOf(s, p, v)][i] == ByteAt(s, p, v * PAGE + i)
  {
    assert EntryOk(s, p, v);
  }

  function Least(a: nat, b: nat): nat {
    if a < b then a else b
  }

  lemma ReadChunk(s: State, t: State, p: nat, cur: nat, chunk: nat)
    requires Inv(t) && Unobservable(s, t) && p in s.payloads && Has(t, p, cur / PAGE)
    requires cur % PAGE + chunk <= PAGE && cur + chunk <= s.payloads[p].memsz
    ensures FrameOf(t, p, cur / PAGE) in t.store && |t.store[FrameOf(t, p, cur / PAGE)]| == PAGE
    ensures t.store[FrameOf(t, p, cur / PAGE)][cur % PAGE .. cur % PAGE + chunk] == Flat(s, p)[cur .. cur + chunk]
  {
    hide Inv, View, Unobservable;
    PageBytes(t, p, cur / PAGE);
    UnobservableBytes(s, t, p);
  }

  lemma UnobservableKeys(s: State, t: State)
    requires Unobservable(s, t)
    ensures t.payloads.Keys == s.payloads.Keys
    ensures forall p :: p in s.payloads ==> SameShape(s.payloads[p], t.payloads[p])
  {}

  /** p shows data from offset on; every other byte of every payload is as before. */
  ghost predicate Wrote(s: State, t: State, p: nat, offset: nat, data: seq<Byte>) {
    && p in s.payloads && t.payloads.Keys == s.payloads.Keys
    && (forall q :: q in s.payloads ==> SameShape(s.payloads[q], t.payloads[q]))
    && (forall q :: q in s.payloads && q != p ==> SameView(s, t, q))
    && (forall x: nat :: ByteAt(t, p, x) == if offset <= x < offset + |data| then data[x - offset] else ByteAt(s, p, x))
  }

  lemma WroteNothing(s: State, p: nat, offset: nat)
    requires p in s.payloads
    ensures Wrote(s, s, p, offset, [])
  {
    hide View;
  }

  lemma WroteUnobservable(s: State, t: State, u: State, p: nat, offset: nat, data: seq<Byte>)
    requires Wrote(s, t, p, offset, data) && Unobservable(t, u)
    ensures Wrote(s, u, p, offset, data)
  {
    hide View;
    UnobservableBytes(t, u, p);
  }

  lemma WroteAppend(s: State, t: State, u: State, p: nat, offset: nat, a: seq<Byte>, b: seq<Byte>)
    requires Wrote(s, t, p, offset, a) && Wrote(t, u, p, offset + |a|, b)
    ensures Wrote(s, u, p, offset, a + b)
  {
    hide View;
  }

  lemma WroteFlat(s: State, t: State, p: nat, offset: nat, data: seq<Byte>)
    requires Wrote(s, t, p, offset, data) && offset + |data| <= s.payloads[p].memsz
    ensures p in t.payloads && Flat(t, p) == Flat(s, p)[..offset] + data + Flat(s, p)[offset + |data|..]
  {
    hide View;
  }

  lemma PokeWrote(s: State, p: nat, cur: nat, data: seq<Byte>)
    requires Inv(s) && Has(s, p, cur / PAGE) && Hint(s, p, cur / PAGE) <= 1 && cur % PAGE + |data| <= PAGE
    ensures EntryOk(s, p, cur / PAGE)
    ensures Wrote(s, Poke(s, p, cur / PAGE, cur % PAGE, data), p, cur, data)
  {
    hide Inv, InitialPage, View;
    var v, i := cur / PAGE, cur % PAGE;
    PokeKeeps(s, p, v, i, data);
    var t := Poke(s, p, v, i, data);
    ViewSize(s, p, v);
    forall x: nat ensures ByteAt(t, p, x) == if cur <= x < cur + |data| then data[x - cur] else ByteAt(s, p, x) {
      ViewSize(s, p, x / PAGE);
    }
  }

  // ---------- whole-payload operations ----------

  lemma AddKeeps(s: State, q: nat, payload: Payload)
    requires Inv(s) && q !in s.payloads && payload.pages == map[]
    ensures var t := s.(payloads := s.payloads[q := payload]);
            Inv(t) && (forall p :: p in s.payloads ==> SameView(s, t, p))
  {
    var t := s.(payloads := s.payloads[q := payload]);
    forall p: nat, v: nat ensures Has(t, p, v) <==> Has(s, p, v) {}
    forall g ensures Holders(t, g) == Holders(s, g) {}
    forall g ensures CountOk(t, g) { assert CountOk(s, g); }
    forall p, v ensures EntryOk(t, p, v) { assert EntryOk(s, p, v); }
    forall p, v, q, w ensures SharedOk(t, p, v, q, w) { assert SharedOk(s, p, v, q, w); }
  }

  lemma RemoveKeeps(s: State, p: nat)
    requires Inv(s) && p in s.payloads && s.payloads[p].pages == map[]
    ensures var t := s.(payloads := s.payloads - {p});
            Inv(t) && (forall q :: q in t.payloads ==> SameView(s, t, q))
  {
    var t := s.(payloads := s.payloads - {p});
    forall p: nat, v: nat ensures Has(t, p, v) <==> Has(s, p, v) {}
    forall g ensures Holders(t, g) == Holders(s, g) {}
    forall g ensures CountOk(t, g) { assert CountOk(s, g); }
    forall p, v ensures EntryOk(t, p, v) { assert EntryOk(s, p, v); }
    forall p, v, q, w ensures SharedOk(t, p, v, q, w) { assert SharedOk(s, p, v, q, w); }
  }

  /** q is new and shows what p shows; every old payload shows what it showed. */
  ghost predicate Cloned(s: State, t: State, p: nat, q: nat) {
    && p in s.payloads && t.payloads.Keys == s.payloads.Keys + {q}
    && SameShape(s.payloads[p], t.payloads[q])
    && (forall r :: r in s.payloads ==> SameView(s, t, r) && SameShape(s.payloads[r], t.payloads[r]))
    && (forall v :: View(t, q, v) == View(s, p, v))
    && (forall v :: Has(t, q, v) <==> Has(s, p, v))
    && (forall v :: Has(s, p, v) ==> FrameOf(t, q, v) == FrameOf(s, p, v))
    && SameFrames(s, t)
  }

  /** Old payloads hold the same frames as before. */
  ghost predicate SameFrames(s: State, t: State) {
    forall r, v :: r in s.payloads ==>
        (Has(t, r, v) <==> Has(s, r, v)) && (Has(s, r, v) ==> FrameOf(t, r, v) == FrameOf(s, r, v))
  }

  /** The clone loop with the pages todo still to be shared. */
  ghost predicate Cloning(s: State, t: State, p: nat, q: nat, todo: set<nat>) {
    && p in s.payloads && q !in s.payloads && t.payloads.Keys == s.payloads.Keys + {q}
    && SameShape(s.payloads[p], t.payloads[q])
    && (forall r :: r in s.payloads ==> SameView(s, t, r) && SameShape(s.payloads[r], t.payloads[r]))
    && t.payloads[p].pages.Keys == s.payloads[p].pages.Keys >= todo
    && t.payloads[q].pages.Keys == s.payloads[p].pages.Keys - todo
    && SameFrames(s, t)
    && (forall v :: Has(t, q, v) ==> FrameOf(t, q, v) == FrameOf(s, p, v))
  }

  lemma AddCloning(s: State, p: nat, q: nat)
    requires Inv(s) && p in s.payloads && q !in s.payloads
    ensures var t := s.(payloads := s.payloads[q := s.payloads[p].(pages := map[])]);
            Cloning(s, t, p, q, s.payloads[p].pages.Keys)
  {
    AddKeeps(s, q, s.payloads[p].(pages := map[]));
  }

  lemma CloningFacts(s: State, t: State, p: nat, q: nat, todo: set<nat>, v: nat)
    requires Cloning(s, t, p, q, todo) && v in todo
    ensures Has(t, p, v) && q in t.payloads && q != p && !Has(t, q, v)
  {}

  lemma ShareIs(s: State, p: nat, q: nat, v: nat)
    requires Has(s, p, v) && q in s.payloads && q != p
    ensures var page := PhyPage(FrameOf(s, p, v), Hint(s, p, v) + 1);
            var m := s.payloads[p := s.payloads[p].(pages := s.payloads[p].pages[v := page])];
            Share(s, p, q, v) == s.(refs := Keep(s, page.frame).refs,
                                    payloads := m[q := m[q].(pages := m[q].pages[v := page])])
  {}

  lemma CloningStep(s: State, b: State, p: nat, q: nat, todo: set<nat>, v: nat)
    requires Inv(b) && Cloning(s, b, p, q, todo) && v in todo && Has(b, p, v) && !Has(b, q, v)
    ensures Cloning(s, Share(b, p, q, v), p, q, todo - {v})
  {
    hide Inv, View, Share;
    var t := Share(b, p, q, v);
    ShareKeeps(b, p, q, v);
    ShareFacts(b, p, q, v);
    forall r | r in s.payloads ensures SameView(s, t, r) {
      assert SameView(s, b, r);
    }
  }

  lemma ShareShape(s: State, p: nat, q: nat, v: nat)
    requires Has(s, p, v) && q in s.payloads && q != p && !Has(s, q, v)
    ensures var t, page := Share(s, p, q, v), PhyPage(FrameOf(s, p, v), Hint(s, p, v) + 1);
            && t.payloads == s.payloads[p := s.payloads[p].(pages := s.payloads[p].pages[v := page])]
                                       [q := s.payloads[q].(pages := s.payloads[q].pages[v := page])]
  {}

  lemma ShareFacts(s: State, p: nat, q: nat, v: nat)
    requires Has(s, p, v) && q in s.payloads && q != p && !Has(s, q, v)
    ensures var t := Share(s, p, q, v);
            && t.payloads.Keys == s.payloads.Keys
            && t.payloads[p].pages.Keys == s.payloads[p].pages.Keys
            && t.payloads[q].pages.Keys == s.payloads[q].pages.Keys + {v}
            && (forall r, w :: r in s.payloads && r != q ==> (Has(t, r, w) <==> Has(s, r, w)))
            && (forall r, w :: r in s.payloads && r != q && Has(s, r, w) ==> FrameOf(t, r, w) == FrameOf(s, r, w))
            && (forall w :: Has(t, q, w) ==> FrameOf(t, q, w) == if w == v then FrameOf(s, p, v) else FrameOf(s, q, w))
            && (forall r :: r in s.payloads ==> SameShape(s.payloads[r], t.payloads[r]))
  {
    hide Share;
    ShareShape(s, p, q, v);
  }

  lemma ClonedAll(s: State, t: State, p: nat, q: nat)
    requires Inv(s) && Cloning(s, t, p, q, {}) && t.store == s.store
    ensures Cloned(s, t, p, q)
  {
    forall v ensures View(t, q, v) == View(s, p, v) && (Has(t, q, v) <==> Has(s, p, v)) {
      assert v in t.payloads[q].pages <==> v in s.payloads[p].pages;
    }
  }

  /** Pages of p from first on are back to their initial contents, all else is as before. */
  ghost predicate Released(s: State, t: State, p: nat, first: nat) {
    && p in s.payloads && t.payloads.Keys == s.payloads.Keys
    && (forall r :: r in s.payloads ==> SameShape(s.payloads[r], t.payloads[r]))
    && (forall r :: r in s.payloads && r != p ==> SameView(s, t, r))
    && (forall v: nat :: View(t, p, v) == if v < first then View(s, p, v) else InitialPage(s.payloads[p].backing, v))
    && (forall v: nat :: Has(t, p, v) <==> Has(s, p, v) && v < first)
  }

  ghost predicate Releasing(s: State, t: State, p: nat, first: nat, todo: set<nat>) {
    && p in s.payloads && t.payloads.Keys == s.payloads.Keys
    && (forall r :: r in s.payloads ==> SameShape(s.payloads[r], t.payloads[r]))
    && (forall r :: r in s.payloads && r != p ==> SameView(s, t, r))
    && (forall v: nat :: Has(t, p, v) <==> Has(s, p, v) && (v < first || v in todo))
    && (forall v: nat :: View(t, p, v) == if Has(t, p, v) then View(s, p, v) else InitialPage(s.payloads[p].backing, v))
  }

  lemma ReleasingSelf(s: State, p: nat, first: nat)
    requires p in s.payloads
    ensures Releasing(s, s, p, first, s.payloads[p].pages.Keys)
  {
    hide InitialPage;
  }

  lemma ReleasingFacts(s: State, t: State, p: nat, first: nat, todo: set<nat>, v: nat)
    requires Releasing(s, t, p, first, todo) && todo <= s.payloads[p].pages.Keys && v in todo
    ensures Has(t, p, v)
  {}

  lemma ReleasingStep(s: State, b: State, t: State, p: nat, first: nat, todo: set<nat>, v: nat)
    requires Inv(b) && Releasing(s, b, p, first, todo) && v in todo
    requires if v < first then t == b else Has(b, p, v) && t == DropPage(b, p, v)
    ensures Releasing(s, t, p, first, todo - {v})
  {
    hide Inv, View, InitialPage, DropPage;
    if v >= first {
      DropKeeps(b, p, v);
      DropFacts(b, p, v);
      forall r | r in s.payloads && r != p ensures SameView(s, t, r) {
        assert SameView(s, b, r);
      }
    }
  }

  lemma DropShape(s: State, p: nat, v: nat)
    requires Has(s, p, v)
    ensures DropPage(s, p, v).payloads == s.payloads[p := s.payloads[p].(pages := s.payloads[p].pages - {v})]
  {}

  lemma DropFacts(s: State, p: nat, v: nat)
    requires Has(s, p, v)
    ensures var t := DropPage(s, p, v);
            && t.payloads.Keys == s.payloads.Keys
            && (forall r :: r in s.payloads ==> SameShape(s.payloads[r], t.payloads[r]))
            && (forall w: nat :: Has(t, p, w) <==> Has(s, p, w) && w != v)
  {
    hide DropPage;
    DropShape(s, p, v);
  }

  lemma ReleasedAll(s: State, t: State, p: nat, first: nat)
    requires Releasing(s, t, p, first, {})
    ensures Released(s, t, p, first)
  {
    hide InitialPage;
  }

  lemma ReleasedFacts(s: State, t: State, p: nat)
    requires Released(s, t, p, 0)
    ensures t.payloads[p].pages == map[]
  {
    assert forall v :: v in t.payloads[p].pages ==> Has(t, p, v);
  }

  predicate MayResize(a: Payload, newsz: nat) {
    && !a.shared
    && ((newsz > a.memsz && (a.growUp || a.growDown)) || (newsz < a.memsz && (a.shrinkUp || a.shrinkDown)))
  }

  /** Bytes on pages cut off by a shrink are back to initial; every other byte of every payload is as before. */
  ghost predicate Resized(s: State, t: State, p: nat, newsz: nat) {
    && p in s.payloads && t.payloads.Keys == s.payloads.Keys && t.payloads[p].memsz == newsz
    && SameShape(s.payloads[p].(memsz := newsz), t.payloads[p])
    && (forall r :: r in s.payloads && r != p ==> SameView(s, t, r) && SameShape(s.payloads[r], t.payloads[r]))
    && (forall v: nat :: View(t, p, v) == if newsz < s.payloads[p].memsz && v * PAGE >= newsz
                                     then InitialPage(s.payloads[p].backing, v) else View(s, p, v))
  }

  lemma ResizedSame(s: State, p: nat)
    requires p in s.payloads
    ensures Resized(s, s, p, s.payloads[p].memsz)
  {
    hide InitialPage;
  }

  /** Payloads with the same pages over the same frames keep the invariant and show the same. */
  lemma SamePages(s: State, t: State)
    requires Inv(s) && t == s.(payloads := t.payloads) && t.payloads.Keys == s.payloads.Keys
    requires forall p :: p in s.payloads ==>
             t.payloads[p].pages == s.payloads[p].pages && t.payloads[p].backing == s.payloads[p].backing
    ensures Inv(t) && forall p, v :: p in s.payloads ==> View(t, p, v) == View(s, p, v)
  {
    hide InitialPage;
    forall g ensures Holders(t, g) == Holders(s, g) {}
    forall g ensures CountOk(t, g) { assert CountOk(s, g); }
    forall p, v ensures EntryOk(t, p, v) { assert EntryOk(s, p, v); }
    forall p, v, q, w ensures SharedOk(t, p, v, q, w) { assert SharedOk(s, p, v, q, w); }
  }

  lemma ResizedBy(s: State, m: State, p: nat, newsz: nat)
    requires p in s.payloads && Inv(m) && newsz != s.payloads[p].memsz
    requires if newsz < s.payloads[p].memsz then Released(s, m, p, (newsz + PAGE - 1) / PAGE) else m == s
    ensures var t := m.(payloads := m.payloads[p := m.payloads[p].(memsz := newsz)]);
            Inv(t) && Resized(s, t, p, newsz)
  {
    hide InitialPage, View, Inv;
    var t := m.(payloads := m.payloads[p := m.payloads[p].(memsz := newsz)]);
    SamePages(m, t);
  }

  /** What byte x shows after a shrink to small and a later growth over it. */
  lemma Regrown(s: State, t: State, u: State, p: nat, small: nat, big: nat, x: nat)
    requires Inv(s) && Resized(s, t, p, small) && Resized(t, u, p, big) && small < s.payloads[p].memsz &&
             small <= x < big
    ensures ByteAt(u, p, x) == if x / PAGE * PAGE >= small then InitialByte(s.payloads[p].backing, x)
            else ByteAt(s, p, x)
  {
    hide Inv, SameShape;
    var v, b := x / PAGE, s.payloads[p].backing;
    assert View(u, p, v) == View(t, p, v);
    assert InitialPage(b, v)[x % PAGE] == InitialByte(b, v * PAGE + x % PAGE);
  }

  /**
   A shrink followed by a growth shows fresh bytes exactly on whole pages past the small size and
   where the old byte was the fresh one anyway.
   */
  lemma RegrownFresh(s: State, t: State, u: State, p: nat, small: nat, big: nat, x: nat)
    requires Inv(s) && Resized(s, t, p, small) && Resized(t, u, p, big) && small < s.payloads[p].memsz &&
             small <= x < big
    ensures var initial := InitialByte(s.payloads[p].backing, x);
            ByteAt(u, p, x) == initial <==> x / PAGE * PAGE >= small || ByteAt(s, p, x) == initial
  {
    hide Inv, Resized, ByteAt, InitialByte;
    Regrown(s, t, u, p, small, big, x);
  }

  /** One anonymous page of ones, cut down to 10 bytes and grown again, still shows a one at byte 20. */
  lemma OldBytesShow() returns (s: State, t: State, u: State)
    ensures Inv(s) && s.payloads.Keys == {0} && s.payloads[0].backing == Anonymous
    ensures MayResize(s.payloads[0], 10) && Resized(s, t, 0, 10) && MayResize(t.payloads[0], PAGE) &&
            Resized(t, u, 0, PAGE)
    ensures ByteAt(u, 0, 20) == 1 && InitialByte(Anonymous, 20) == 0
  {
    var ones: seq<Byte> := seq(PAGE, i => 1);
    var a := Payload(PAGE, false, true, false, true, false, Anonymous, map[0 := PhyPage(1, 1)]);
    s := State(map[1 := ones], map[1 := 1], {}, map[0 := a]);
    t := s.(payloads := map[0 := a.(memsz := 10)]);
    u := s;
    OneHolder(s);
    assert forall v: nat :: View(t, 0, v) == View(s, 0, v);
    forall v: nat | v > 0 ensures View(s, 0, v) == InitialPage(Anonymous, v) {}
    assert View(u, 0, 0) == ones;
  }

  lemma OneHolder(s: State)
    requires s.payloads.Keys == {0} && s.payloads[0].pages == map[0 := PhyPage(1, 1)]
    requires 1 in s.store && |s.store[1]| == PAGE && s.refs == map[1 := 1] && s.free == {}
    ensures Inv(s)
  {
    assert Holders(s, 1) == {(0, 0)};
  }

  // ---------- what a step does to the entries ----------

  /** Only entry (p, v) may have changed its frame, and then to a frame nobody else holds. */
  ghost predicate Touched(s: State, t: State, p: nat, v: nat) {
    && t.payloads.Keys == s.payloads.Keys
    && (forall q :: q in s.payloads ==> SameShape(s.payloads[q], t.payloads[q]))
    && (forall q: nat, w: nat :: Has(s, q, w) && (q, w) != (p, v) ==>
        Has(t, q, w) && FrameOf(t, q, w) == FrameOf(s, q, w))
    && (forall q: nat, w: nat :: Has(t, q, w) && (q, w) != (p, v) ==> Has(s, q, w))
    && (Has(s, p, v) ==> Has(t, p, v))
    && (Has(t, p, v) ==>
        (Has(s, p, v) && FrameOf(t, p, v) == FrameOf(s, p, v)) || Holders(t, FrameOf(t, p, v)) == {(p, v)})
  }

  lemma TouchEntry(s: State, t: State, p: nat, v: nat, q: nat, w: nat)
    requires Touched(s, t, p, v) && Has(s, q, w) && (q, w) != (p, v)
    ensures Has(t, q, w) && FrameOf(t, q, w) == FrameOf(s, q, w) && t.payloads[q].shared == s.payloads[q].shared
  {
    hide Holders;
  }

  lemma TouchHolders(s: State, t: State, p: nat, v: nat, q: nat, w: nat)
    requires Touched(s, t, p, v) && Has(s, q, w) && (q, w) != (p, v) && Holders(s, FrameOf(s, q, w)) == {(q, w)}
    ensures Holders(t, FrameOf(s, q, w)) == {(q, w)}
  {
    hide Holders;
    var g := FrameOf(s, q, w);
    forall e ensures e in Holders(t, g) <==> e == (q, w) {
      NotHolding(t, e.0, e.1, g);
      NotHolding(s, e.0, e.1, g);
      NotHolding(t, q, w, g);
    }
  }

  /** An entry whose hint says exclusive is the only holder of its frame. */
  lemma SoleHolder(s: State, p: nat, v: nat)
    requires Inv(s) && Has(s, p, v)
    ensures Hint(s, p, v) <= 1 ==> Holders(s, FrameOf(s, p, v)) == {(p, v)}
  {
    hide Holders;
    var g := FrameOf(s, p, v);
    if Hint(s, p, v) <= 1 {
      forall e ensures e in Holders(s, g) <==> e == (p, v) {
        NotHolding(s, e.0, e.1, g);
        NotHolding(s, p, v, g);
        assert SharedOk(s, p, v, e.0, e.1);
      }
    }
  }

  lemma TouchedSelf(s: State, p: nat, v: nat)
    ensures Touched(s, s, p, v)
  {
    hide Holders;
  }

  lemma TouchedFrames(s: State, t: State, p: nat, v: nat)
    requires t == s.(refs := t.refs, free := t.free, store := t.store)
    ensures Touched(s, t, p, v)
  {
    hide Holders;
  }

  lemma EnsureTouches(s: State, p: nat, v: nat, f: nat)
    requires Inv(s) && f in s.free && p in s.payloads && !Has(s, p, v)
    ensures Touched(s, EnsureStep(s, p, v, f), p, v)
  {
    hide Inv, InitialPage;
    var r := Reserve(s, f);
    var l := Fill(r, f, InitialPage(s.payloads[p].backing, v));
    FreeIsUnheld(s, f);
    HoldersAgree(s, l, f);
    HoldersSet(l, p, v, PhyPage(f, 1), f);
  }

  lemma ForkTouches(s: State, p: nat, v: nat, f: nat)
    requires Inv(s) && f in s.free && Has(s, p, v) && FrameOf(s, p, v) in s.store
    ensures Touched(s, ForkStep(s, p, v, f), p, v)
  {
    hide Inv, Holders;
    ForkIsUnobservable(s, p, v, f);
  }

  /** Cloning p adds no holder to a frame that only another payload holds. */
  lemma ClonedHolders(s: State, t: State, p: nat, q: nat, r: nat, v: nat)
    requires Cloned(s, t, p, q) && q !in s.payloads && r != p && Has(s, r, v) &&
             Holders(s, FrameOf(s, r, v)) == {(r, v)}
    ensures Holders(t, FrameOf(s, r, v)) == {(r, v)}
  {
    hide Holders, View;
    var g := FrameOf(s, r, v);
    forall e ensures e in Holders(t, g) <==> e == (r, v) {
      NotHolding(t, e.0, e.1, g);
      NotHolding(s, e.0, e.1, g);
      NotHolding(s, p, e.1, g);
      NotHolding(t, r, v, g);
    }
  }

  /**
   Why sharing needs tracked frames: dropping one of several pages on a frame, whose count is exact
   if it has one, frees the frame under the others exactly when it lies above the tracked range.
   */
  lemma DropFreesHeld(s: State, p: nat, v: nat, q: nat, w: nat)
    requires Has(s, p, v) && Has(s, q, w) && (p, v) != (q, w) && FrameOf(s, p, v) == FrameOf(s, q, w)
    requires var f := FrameOf(s, p, v);
             f > 0 && f !in s.free && (f < TRACKED ==> f in s.refs && s.refs[f] == |Holders(s, f)|)
    ensures var t := DropPage(s, p, v);
            && Has(t, q, w) && FrameOf(t, q, w) == FrameOf(s, q, w)
            && (FrameOf(t, q, w) in t.free <==> FrameOf(s, p, v) >= TRACKED)
  {
    hide Holders;
    var f := FrameOf(s, p, v);
    AfterErase(s, p, v, q, w);
    NotHolding(s, p, v, f);
    NotHolding(s, q, w, f);
    assert |Holders(s, f) - {(p, v)} - {(q, w)}| == |Holders(s, f)| - 2;
  }

  /** A page on the first untracked frame, shared with a clone and then dropped: the clone's frame is free. */
  lemma CloneLosesFrame() returns (s: State, shared: State, t: State)
    ensures s.payloads.Keys == {0, 1} && Has(s, 0, 0) && FrameOf(s, 0, 0) == TRACKED && !Has(s, 1, 0) &&
            TRACKED !in s.free
    ensures shared == Share(s, 0, 1, 0) && Has(shared, 0, 0) && t == DropPage(shared, 0, 0)
    ensures Has(t, 1, 0) && FrameOf(t, 1, 0) == TRACKED && TRACKED in t.free
  {
    var zeros: seq<Byte> := seq(PAGE, i => 0);
    var empty := Payload(PAGE, false, false, false, false, false, Anonymous, map[]);
    s := State(map[TRACKED := zeros], map[], {}, map[0 := empty.(pages := map[0 := PhyPage(TRACKED, 1)]), 1 := empty]);
    shared := Share(s, 0, 1, 0);
    t := DropPage(shared, 0, 0);
    assert Has(shared, 1, 0) && FrameOf(shared, 0, 0) == FrameOf(shared, 1, 0) == TRACKED;
    DropFreesHeld(shared, 0, 0, 1, 0);
  }
}
