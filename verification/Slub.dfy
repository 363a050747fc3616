/**
 The SLUB object allocator: pages cut into equal objects, a free chain threaded through the free
 objects of each page, and three lists of slabs by how full they are.
 */
module Slub {
  import opened Queues

  const SLAB_BYTES: nat := 4096

  // ---------- where the objects are ----------

  ghost predicate Aligned(x: nat, m: nat) {
    exists k: nat :: x == k * m
  }

  lemma AlignedSum(x: nat, y: nat, m: nat)
    requires Aligned(x, m) && Aligned(y, m)
    ensures Aligned(x + y, m)
  {
    var a: nat :| x == a * m;
    var b: nat :| y == b * m;
    assert x + y == (a + b) * m;
  }

  lemma AlignedTimes(x: nat, i: nat, m: nat)
    requires Aligned(x, m)
    ensures Aligned(i * x, m)
  {
    var a: nat :| x == a * m;
    assert i * x == (i * a) * m;
  }

  /** first is the offset of the first object after the header; total objects fit the slab. */
  datatype Geometry = Geometry(align: nat, first: nat, size: nat, total: nat)

  ghost predicate GeometryOk(g: Geometry) {
    && Aligned(SLAB_BYTES, g.align) && Aligned(g.first, g.align) && Aligned(g.size, g.align)
    && g.first > 0 && g.size > 0 && g.total > 0 && g.first + g.total * g.size <= SLAB_BYTES
  }

  function AlignUp(x: nat, align: nat): nat
    requires align > 0
  {
    (x + align - 1) / align * align
  }

  lemma AlignUpIs(x: nat, align: nat)
    requires align > 0
    ensures x <= AlignUp(x, align) < x + align && Aligned(AlignUp(x, align), align)
  {
    var q := (x + align - 1) / align;
    assert x + align - 1 == q * align + (x + align - 1) % align;
  }

  function Max(a: nat, b: nat): nat {
    if a > b then a else b
  }

  /** Objects of a size that fit behind the first. */
  function HowMany(first: nat, size: nat): nat {
    if first <= SLAB_BYTES && size > 0 then (SLAB_BYTES - first) / size else 0
  }

  /** What the source computes from the size and alignment of a type and the size of a slab header. */
  function GeometryOf(rawSize: nat, rawAlign: nat, header: nat): Geometry {
    var align := Max(rawAlign, 8);
    var size := AlignUp(Max(rawSize, 8), align);
    var first := AlignUp(header, align);
    Geometry(align, first, size, HowMany(first, size))
  }

  /**
   The computed geometry fits whenever at least one object does.  Objects hold the type and a free
   pointer, aligned for both and no larger than that takes; the first one comes right behind the
   header, and no further one would fit.
   */
  lemma GeometryFits(rawSize: nat, rawAlign: nat, header: nat)
    requires Aligned(SLAB_BYTES, Max(rawAlign, 8)) && header > 0 && GeometryOf(rawSize, rawAlign, header).total > 0
    ensures GeometryOk(GeometryOf(rawSize, rawAlign, header))
    ensures var g := GeometryOf(rawSize, rawAlign, header);
            && g.align >= rawAlign && g.align >= 8 && (g.align == rawAlign || g.align == 8)
            && g.size >= rawSize && g.size >= 8 && (g.size < rawSize + g.align || g.size < 8 + g.align)
            && header <= g.first < header + g.align && g.first + (g.total + 1) * g.size > SLAB_BYTES
  {
    var align := Max(rawAlign, 8);
    AlignUpIs(Max(rawSize, 8), align);
    AlignUpIs(header, align);
    hide AlignUp, Aligned;
    var g := GeometryOf(rawSize, rawAlign, header);
    DivBelow(SLAB_BYTES - g.first, g.size);
  }

  lemma DivBelow(x: nat, m: nat)
    requires m > 0
    ensures x / m * m <= x < (x / m + 1) * m
  {
    assert x == x / m * m + x % m;
  }

  function Obj(g: Geometry, base: nat, i: nat): nat {
    base + g.first + i * g.size
  }

  /** The slab that holds an address. */
  function SlabOf(p: nat): nat {
    p / SLAB_BYTES * SLAB_BYTES
  }

  ghost predicate IsObj(g: Geometry, base: nat, p: nat) {
    exists i: nat :: i < g.total && p == Obj(g, base, i)
  }

  lemma TimesMonotone(i: nat, j: nat, x: nat)
    requires i <= j
    ensures i * x <= j * x
  {
    assert j * x == i * x + (j - i) * x;
  }

  lemma ObjAligned(g: Geometry, base: nat, i: nat)
    requires GeometryOk(g) && base % SLAB_BYTES == 0
    ensures Aligned(Obj(g, base, i), g.align)
  {
    assert base / SLAB_BYTES * SLAB_BYTES == base;
    hide Aligned;
    AlignedTimes(g.size, i, g.align);
    AlignedTimes(SLAB_BYTES, base / SLAB_BYTES, g.align);
    AlignedSum(base, g.first, g.align);
    AlignedSum(base + g.first, i * g.size, g.align);
  }

  lemma ObjInside(g: Geometry, base: nat, i: nat)
    requires GeometryOk(g) && i < g.total
    ensures base + g.first <= Obj(g, base, i) && Obj(g, base, i) + g.size <= base + SLAB_BYTES
  {
    hide Aligned;
    TimesMonotone(i + 1, g.total, g.size);
    assert (i + 1) * g.size == i * g.size + g.size;
  }

  lemma SlabOfInside(base: nat, p: nat)
    requires base % SLAB_BYTES == 0 && base <= p < base + SLAB_BYTES
    ensures SlabOf(p) == base
  {}

  /** Objects lie behind the header and inside the slab, aligned, and slab_of finds the slab again. */
  lemma ObjPlace(g: Geometry, base: nat, p: nat)
    requires GeometryOk(g) && base % SLAB_BYTES == 0 && IsObj(g, base, p)
    ensures base + g.first <= p && p + g.size <= base + SLAB_BYTES && SlabOf(p) == base && Aligned(p, g.align)
    ensures g.first > 0 && g.size > 0
  {
    assert g.first > 0 && g.size > 0;
    hide Obj, SlabOf, GeometryOk, Aligned;
    var i: nat :| i < g.total && p == Obj(g, base, i);
    ObjAligned(g, base, i);
    ObjInside(g, base, i);
    SlabOfInside(base, p);
  }

  lemma SameSlabApart(g: Geometry, base: nat, i: nat, j: nat)
    requires Obj(g, base, i) < Obj(g, base, j)
    ensures Obj(g, base, i) + g.size <= Obj(g, base, j)
  {
    if j <= i {
      TimesMonotone(j, i, g.size);
    } else {
      TimesMonotone(i + 1, j, g.size);
      assert (i + 1) * g.size == i * g.size + g.size;
    }
  }

  /** Different objects do not overlap, in one slab or in two. */
  lemma ObjsDisjoint(g: Geometry, b: nat, c: nat, p: nat, q: nat)
    requires GeometryOk(g) && b % SLAB_BYTES == 0 && c % SLAB_BYTES == 0 && IsObj(g, b, p) && IsObj(g, c, q) && p < q
    ensures p + g.size <= q
  {
    ObjPlace(g, b, p);
    ObjPlace(g, c, q);
    if b == c {
      hide Obj, SlabOf, GeometryOk, Aligned;
      var i: nat :| i < g.total && p == Obj(g, b, i);
      var j: nat :| j < g.total && q == Obj(g, c, j);
      SameSlabApart(g, b, i, j);
    } else {
      hide SlabOf, GeometryOk, Aligned, IsObj;
      assert b + SLAB_BYTES <= c by { SlabsApart(b, c, p, q); }
    }
  }

  lemma SlabsApart(b: nat, c: nat, p: nat, q: nat)
    requires b % SLAB_BYTES == 0 && c % SLAB_BYTES == 0 && b != c && b <= p < q < c + SLAB_BYTES
    ensures b + SLAB_BYTES <= c
  {}

  // ---------- one slab ----------

  datatype SlabState = EMPTY | PARTIAL | FULL

  datatype SlabHeader = SlabHeader(freelist: nat, inuse: nat, total: nat, state: SlabState)

  function Link(chain: seq<nat>, k: nat): nat {
    if k < |chain| then chain[k] else 0
  }

  ghost predicate LinkOk(g: Geometry, next: map<nat, nat>, live: set<nat>, base: nat, chain: seq<nat>, k: nat) {
    k < |chain| ==>
      IsObj(g, base, chain[k]) && chain[k] !in live && chain[k] in next && next[chain[k]] == Link(chain, k + 1)
  }

  ghost function LiveIn(live: set<nat>, base: nat): set<nat> {
    set p | p in live && SlabOf(p) == base
  }

  /** The free chain runs through exactly the objects that are not live, each once. */
  ghost predicate SlabOk(g: Geometry, next: map<nat, nat>, live: set<nat>, base: nat, h: SlabHeader, chain: seq<nat>) {
    && (forall k: nat :: LinkOk(g, next, live, base, chain, k))
    && NoRepeat(chain)
    && (forall p: nat :: IsObj(g, base, p) && p !in live ==> p in chain)
    && h.freelist == Link(chain, 0) && h.total == g.total && h.inuse + |chain| == g.total
    && h.inuse == |LiveIn(live, base)|
  }

  /** Taking the head of the chain. */
  lemma TakeStep(g: Geometry, next: map<nat, nat>, live: set<nat>, base: nat, h: SlabHeader, chain: seq<nat>)
    requires GeometryOk(g) && base % SLAB_BYTES == 0 && SlabOk(g, next, live, base, h, chain) && chain != []
    ensures var p := chain[0];
            && p == h.freelist && p != 0 && p !in live && p in next && IsObj(g, base, p) && SlabOf(p) == base
            && SlabOk(g, next, live + {p}, base, h.(freelist := next[p], inuse := h.inuse + 1), chain[1..])
  {
    var p, rest := chain[0], chain[1..];
    var live' := live + {p};
    assert LinkOk(g, next, live, base, chain, 0);
    ObjPlace(g, base, p);
    forall k: nat ensures LinkOk(g, next, live', base, rest, k) {
      assert LinkOk(g, next, live, base, chain, k + 1) && !Repeats(chain, 0, k + 1);
    }
    forall j: nat, k: nat ensures !Repeats(rest, j, k) { assert !Repeats(chain, j + 1, k + 1); }
    forall q: nat | IsObj(g, base, q) && q !in live' ensures q in rest {
      assert q in chain;
      var k :| 0 <= k < |chain| && chain[k] == q;
      assert rest[k - 1] == q;
    }
    assert LiveIn(live', base) == LiveIn(live, base) + {p};
  }

  /** Putting a live object back at the head. */
  lemma GiveStep(g: Geometry, next: map<nat, nat>, live: set<nat>, base: nat, h: SlabHeader, chain: seq<nat>, p: nat)
    requires GeometryOk(g) && base % SLAB_BYTES == 0 && SlabOk(g, next, live, base, h, chain) && p in live &&
             IsObj(g, base, p)
    ensures h.inuse > 0 && p != 0 && SlabOf(p) == base
    ensures SlabOk(g, next[p := h.freelist], live - {p}, base, h.(freelist := p, inuse := h.inuse - 1), [p] + chain)
  {
    ObjPlace(g, base, p);
    var live', next', longer := live - {p}, next[p := h.freelist], [p] + chain;
    assert p in LiveIn(live, base);
    assert LiveIn(live', base) == LiveIn(live, base) - {p};
    forall k: nat ensures LinkOk(g, next', live', base, longer, k) {
      if k > 0 { assert LinkOk(g, next, live, base, chain, k - 1); }
    }
    forall j: nat, k: nat ensures !Repeats(longer, j, k) {
      if 0 < j < k { assert !Repeats(chain, j - 1, k - 1); }
      if 0 < k { assert LinkOk(g, next, live, base, chain, k - 1); }
    }
    forall q: nat | IsObj(g, base, q) && q !in live' ensures q in longer {}
  }

  /** A slab does not notice what happens to objects of other slabs. */
  lemma OtherSlab(g: Geometry, next: map<nat, nat>, live: set<nat>, next': map<nat, nat>, live': set<nat>, base: nat,
      h: SlabHeader, chain: seq<nat>)
    requires GeometryOk(g) && base % SLAB_BYTES == 0 && SlabOk(g, next, live, base, h, chain)
    requires forall p: nat :: SlabOf(p) == base ==>
             (p in live <==> p in live') && (p in next ==> p in next' && next'[p] == next[p])
    ensures SlabOk(g, next', live', base, h, chain)
  {
    assert LiveIn(live', base) == LiveIn(live, base);
    forall k: nat ensures LinkOk(g, next', live', base, chain, k) {
      assert LinkOk(g, next, live, base, chain, k);
      if k < |chain| { ObjPlace(g, base, chain[k]); }
    }
    forall p: nat | IsObj(g, base, p) && p !in live' ensures p in chain { ObjPlace(g, base, p); }
  }

  // ---------- all slabs ----------

  /** The link words, the live objects, the slab headers by address, and each slab's free chain. */
  datatype Heap = Heap(next: map<nat, nat>, live: set<nat>, slabs: map<nat, SlabHeader>, chains: map<nat, seq<nat>>)

  ghost predicate SlabAt(g: Geometry, m: Heap, b: nat) {
    b in m.slabs ==>
        b > 0 && b % SLAB_BYTES == 0 && b in m.chains && SlabOk(g, m.next, m.live, b, m.slabs[b], m.chains[b])
  }

  ghost predicate LiveAt(g: Geometry, m: Heap, p: nat) {
    p in m.live ==> SlabOf(p) in m.slabs && IsObj(g, SlabOf(p), p)
  }

  ghost predicate HeapOk(g: Geometry, m: Heap) {
    GeometryOk(g) && (forall b: nat :: SlabAt(g, m, b)) && (forall p: nat :: LiveAt(g, m, p))
  }

  /** Live objects are aligned, inside their slabs and do not overlap. */
  lemma LiveDisjoint(g: Geometry, m: Heap, p: nat, q: nat)
    requires HeapOk(g, m) && p in m.live && q in m.live && p != q
    ensures Aligned(p, g.align) && SlabOf(p) in m.slabs && SlabOf(p) + g.first <= p &&
            p + g.size <= SlabOf(p) + SLAB_BYTES
    ensures p + g.size <= q || q + g.size <= p
  {
    hide SlabOf, IsObj, GeometryOk, Aligned, SlabOk;
    assert LiveAt(g, m, p) && LiveAt(g, m, q) && SlabAt(g, m, SlabOf(p)) && SlabAt(g, m, SlabOf(q));
    ObjPlace(g, SlabOf(p), p);
    if p < q { ObjsDisjoint(g, SlabOf(p), SlabOf(q), p, q); } else { ObjsDisjoint(g, SlabOf(q), SlabOf(p), q, p); }
  }

  /** Only slab b of the heap differs, and only in objects of b. */
  ghost predicate OnlySlab(m: Heap, m': Heap, b: nat) {
    && (forall c: nat :: c != b ==> (c in m.slabs <==> c in m'.slabs))
    && (forall c: nat :: c != b && c in m.slabs ==>
        m'.slabs[c] == m.slabs[c] && (c in m.chains ==> c in m'.chains && m'.chains[c] == m.chains[c]))
    && (forall p: nat :: SlabOf(p) != b ==>
        (p in m.live <==> p in m'.live) && (p in m.next ==> p in m'.next && m'.next[p] == m.next[p]))
  }

  lemma OneSlab(g: Geometry, m: Heap, m': Heap, b: nat)
    requires HeapOk(g, m) && OnlySlab(m, m', b) && SlabAt(g, m', b) && b in m'.slabs
    requires forall p: nat :: p in m'.live && SlabOf(p) == b ==> IsObj(g, b, p)
    ensures HeapOk(g, m')
  {
    hide SlabOf, IsObj, GeometryOk, SlabOk;
    forall c: nat ensures SlabAt(g, m', c) {
      assert SlabAt(g, m, c);
      if c != b && c in m.slabs { OtherSlab(g, m.next, m.live, m'.next, m'.live, c, m.slabs[c], m.chains[c]); }
    }
    forall p: nat ensures LiveAt(g, m', p) { assert LiveAt(g, m, p); }
  }

  function Taken(m: Heap, b: nat): Heap
    requires b in m.slabs && b in m.chains && m.chains[b] != [] && m.slabs[b].freelist in m.next
  {
    var p := m.slabs[b].freelist;
    m.(live := m.live + {p}, slabs := m.slabs[b := m.slabs[b].(freelist := m.next[p], inuse := m.slabs[b].inuse + 1)],
       chains := m.chains[b := m.chains[b][1..]])
  }

  lemma HasRoom(g: Geometry, m: Heap, b: nat)
    requires HeapOk(g, m) && b in m.slabs && m.slabs[b].inuse < m.slabs[b].total
    ensures b in m.chains && m.chains[b] != [] && m.slabs[b].total == g.total && b % SLAB_BYTES == 0
    ensures m.slabs[b].freelist in m.next && m.slabs[b].freelist == m.chains[b][0]
  {
    assert SlabAt(g, m, b);
    assert LinkOk(g, m.next, m.live, b, m.chains[b], 0);
  }

  lemma TakeKeeps(g: Geometry, m: Heap, b: nat)
    requires HeapOk(g, m) && b in m.slabs && b in m.chains && m.chains[b] != [] && m.slabs[b].freelist in m.next
    ensures HeapOk(g, Taken(m, b))
    ensures var p := m.slabs[b].freelist;
            p != 0 && p !in m.live && SlabOf(p) == b && IsObj(g, b, p) && Aligned(p, g.align)
  {
    hide SlabOf, IsObj, GeometryOk, SlabOk, Aligned;
    assert SlabAt(g, m, b);
    TakeStep(g, m.next, m.live, b, m.slabs[b], m.chains[b]);
    ObjPlace(g, b, m.slabs[b].freelist);
    var m' := Taken(m, b);
    forall p: nat | p in m'.live && SlabOf(p) == b ensures IsObj(g, b, p) { assert LiveAt(g, m, p); }
    OneSlab(g, m, m', b);
  }

  function Given(m: Heap, p: nat): Heap
    requires SlabOf(p) in m.slabs && SlabOf(p) in m.chains && m.slabs[SlabOf(p)].inuse > 0
  {
    var b := SlabOf(p);
    m.(next := m.next[p := m.slabs[b].freelist], live := m.live - {p},
       slabs := m.slabs[b := m.slabs[b].(freelist := p, inuse := m.slabs[b].inuse - 1)],
           chains := m.chains[b := [p] + m.chains[b]])
  }

  lemma GiveKeeps(g: Geometry, m: Heap, p: nat)
    requires HeapOk(g, m) && p in m.live
    ensures SlabOf(p) in m.slabs && SlabOf(p) in m.chains && p != 0
    ensures 0 < m.slabs[SlabOf(p)].inuse <= m.slabs[SlabOf(p)].total && m.slabs[SlabOf(p)].total == g.total
    ensures HeapOk(g, Given(m, p))
  {
    assert LiveAt(g, m, p) && SlabAt(g, m, SlabOf(p));
    GiveStep(g, m.next, m.live, SlabOf(p), m.slabs[SlabOf(p)], m.chains[SlabOf(p)], p);
    hide SlabOf, IsObj, GeometryOk, SlabOk;
    var m', b := Given(m, p), SlabOf(p);
    forall q: nat | q in m'.live && SlabOf(q) == b ensures IsObj(g, b, q) { assert LiveAt(g, m, q); }
    OneSlab(g, m, m', b);
  }

  lemma StateKeeps(g: Geometry, m: Heap, b: nat, st: SlabState)
    requires HeapOk(g, m) && b in m.slabs
    ensures HeapOk(g, m.(slabs := m.slabs[b := m.slabs[b].(state := st)]))
  {
    var m' := m.(slabs := m.slabs[b := m.slabs[b].(state := st)]);
    forall c: nat ensures SlabAt(g, m', c) { assert SlabAt(g, m, c); }
    forall p: nat ensures LiveAt(g, m', p) { assert LiveAt(g, m, p); }
  }

  /** The objects of a slab in address order. */
  function Objs(g: Geometry, base: nat): (c: seq<nat>)
    ensures |c| == g.total && forall i :: 0 <= i < g.total ==> c[i] == Obj(g, base, i)
  {
    seq(g.total, i requires 0 <= i => Obj(g, base, i))
  }

  /** Object i of a fresh slab links to the next one. */
  ghost predicate ThreadedAt(g: Geometry, next: map<nat, nat>, base: nat, i: nat) {
    i < g.total ==> Obj(g, base, i) in next && next[Obj(g, base, i)] == Link(Objs(g, base), i + 1)
  }

  lemma FreshSlab(g: Geometry, next: map<nat, nat>, live: set<nat>, base: nat, st: SlabState)
    requires GeometryOk(g) && base % SLAB_BYTES == 0 && LiveIn(live, base) == {}
    requires forall i: nat :: ThreadedAt(g, next, base, i)
    ensures SlabOk(g, next, live, base, SlabHeader(Link(Objs(g, base), 0), 0, g.total, st), Objs(g, base))
  {
    var chain := Objs(g, base);
    hide Obj, SlabOf, GeometryOk;
    forall p: nat | IsObj(g, base, p) ensures p in chain && p !in live {
      var i: nat :| i < g.total && p == Obj(g, base, i);
      assert chain[i] == p;
      ObjPlace(g, base, p);
      assert p in live ==> p in LiveIn(live, base);
    }
    forall k: nat ensures LinkOk(g, next, live, base, chain, k) { assert ThreadedAt(g, next, base, k); }
    forall j: nat, k: nat ensures !Repeats(chain, j, k) {
      if j < k < g.total { ObjGrows(g, base, j, k); }
    }
  }

  lemma ObjGrows(g: Geometry, base: nat, i: nat, j: nat)
    requires GeometryOk(g) && i < j
    ensures Obj(g, base, i) < Obj(g, base, j)
  {
    TimesMonotone(i + 1, j, g.size);
    assert (i + 1) * g.size == i * g.size + g.size;
  }

  lemma NewSlabKeeps(g: Geometry, m: Heap, m': Heap, b: nat)
    requires HeapOk(g, m) && b !in m.slabs && b > 0 && b % SLAB_BYTES == 0 && OnlySlab(m, m', b) && m'.live == m.live
    requires b in m'.slabs && m'.slabs[b] == SlabHeader(Link(Objs(g, b), 0), 0, g.total, PARTIAL) && b in m'.chains &&
             m'.chains[b] == Objs(g, b)
    requires forall i: nat :: ThreadedAt(g, m'.next, b, i)
    ensures HeapOk(g, m')
  {
    hide Obj, SlabOf, GeometryOk, IsObj;
    forall p: nat ensures !(p in m.live && SlabOf(p) == b) { assert LiveAt(g, m, p); }
    assert LiveIn(m'.live, b) == {};
    FreshSlab(g, m'.next, m'.live, b, PARTIAL);
    OneSlab(g, m, m', b);
  }

  // ---------- the three lists ----------

  /** The list holds exactly the slabs in one state, each once. */
  ghost predicate Lists(slabs: map<nat, SlabHeader>, xs: seq<nat>, st: SlabState) {
    NoRepeat(xs) && forall b: nat :: b in xs <==> b in slabs && slabs[b].state == st
  }

  lemma ListErase(slabs: map<nat, SlabHeader>, xs: seq<nat>, st: SlabState, b: nat, h: SlabHeader)
    requires Lists(slabs, xs, st) && h.state != st
    ensures Lists(slabs[b := h], Without(xs, b), st)
  {
    WithoutMembers(xs, b);
    WithoutNoRepeat(xs, b);
  }

  lemma ListPush(slabs: map<nat, SlabHeader>, xs: seq<nat>, st: SlabState, b: nat, h: SlabHeader)
    requires Lists(slabs, xs, st) && h.state == st && (b in slabs ==> slabs[b].state != st)
    ensures Lists(slabs[b := h], xs + [b], st)
  {
    AppendNoRepeat(xs, b);
  }

  lemma ListSame(slabs: map<nat, SlabHeader>, xs: seq<nat>, st: SlabState, b: nat, h: SlabHeader)
    requires Lists(slabs, xs, st) && if b in slabs then h.state == slabs[b].state ||
             (h.state != st && slabs[b].state != st) else h.state != st
    ensures Lists(slabs[b := h], xs, st)
  {}

  /** The state says how full the slab is. */
  ghost predicate StateIs(h: SlabHeader) {
    h.state == if h.inuse == 0 then EMPTY else if h.inuse == h.total then FULL else PARTIAL
  }

  // ---------- the class ----------

  class Slub {
    const g: Geometry
    var next: map<nat, nat>
    var slabs: map<nat, SlabHeader>
    var partial: seq<nat>
    var full: seq<nat>
    var empty: seq<nat>
    var inuseObjects: nat
    ghost var live: set<nat>
    ghost var chains: map<nat, seq<nat>>

    ghost function M(): Heap
      reads `next, `slabs, `live, `chains
    {
      Heap(next, live, slabs, chains)
    }

    ghost predicate Listed()
      reads `slabs, `partial, `full, `empty
    {
      Lists(slabs, partial, PARTIAL) && Lists(slabs, full, FULL) && Lists(slabs, empty, EMPTY)
    }

    ghost predicate Valid()
      reads this
    {
      HeapOk(g, M()) && Listed() && (forall b :: b in slabs ==> StateIs(slabs[b])) && inuseObjects == |live|
    }

    constructor (g: Geometry)
      requires GeometryOk(g)
      ensures Valid() && live == {} && slabs == map[] && this.g == g
    {
      this.g, next, slabs, partial, full, empty := g, map[], map[], [], [], [];
      inuseObjects, live, chains := 0, {}, map[];
    }

    method ToEmpty(b: nat)
      requires Listed() && b in slabs && slabs[b].state != EMPTY
      modifies `slabs, `partial, `full, `empty
      ensures Listed() && slabs == old(slabs)[b := old(slabs)[b].(state := EMPTY)]
    {
      Moving(b, EMPTY);
      if slabs[b].state == PARTIAL {
        partial := Without(partial, b);
      } else if slabs[b].state == FULL {
        full := Without(full, b);
      }
      slabs := slabs[b := slabs[b].(state := EMPTY)];
      empty := empty + [b];
    }

    method ToPartial(b: nat)
      requires Listed() && b in slabs && slabs[b].state != PARTIAL
      modifies `slabs, `partial, `full, `empty
      ensures Listed() && slabs == old(slabs)[b := old(slabs)[b].(state := PARTIAL)]
    {
      Moving(b, PARTIAL);
      if slabs[b].state == EMPTY {
        empty := Without(empty, b);
      } else if slabs[b].state == FULL {
        full := Without(full, b);
      }
      slabs := slabs[b := slabs[b].(state := PARTIAL)];
      partial := partial + [b];
    }

    method ToFull(b: nat)
      requires Listed() && b in slabs && slabs[b].state != FULL
      modifies `slabs, `partial, `full, `empty
      ensures Listed() && slabs == old(slabs)[b := old(slabs)[b].(state := FULL)]
    {
      Moving(b, FULL);
      if slabs[b].state == PARTIAL {
        partial := Without(partial, b);
      } else if slabs[b].state == EMPTY {
        empty := Without(empty, b);
      }
      slabs := slabs[b := slabs[b].(state := FULL)];
      full := full + [b];
    }

    /** Moving slab b to another state: what each list becomes. */
    lemma Moving(b: nat, st: SlabState)
      requires Listed() && b in slabs && slabs[b].state != st
      ensures var h := slabs[b].(state := st);
              && Lists(slabs[b := h], if st == PARTIAL then partial + [b] else if slabs[b].state == PARTIAL
                  then Without(partial, b) else partial, PARTIAL)
              && Lists(slabs[b := h], if st == FULL then full + [b] else if slabs[b].state == FULL then Without(full, b)
                  else full, FULL)
              && Lists(slabs[b := h], if st == EMPTY then empty + [b] else if slabs[b].state == EMPTY
                  then Without(empty, b) else empty, EMPTY)
    {
      hide Lists;
      var h := slabs[b].(state := st);
      MovingOne(partial, PARTIAL, b, h);
      MovingOne(full, FULL, b, h);
      MovingOne(empty, EMPTY, b, h);
    }

    lemma MovingOne(xs: seq<nat>, own: SlabState, b: nat, h: SlabHeader)
      requires Lists(slabs, xs, own) && b in slabs && slabs[b].state != h.state
      ensures Lists(slabs[b := h], if h.state == own then xs + [b] else if slabs[b].state == own then Without(xs, b)
              else xs, own)
    {
      hide Lists;
      if h.state == own {
        ListPush(slabs, xs, own, b, h);
      } else if slabs[b].state == own {
        ListErase(slabs, xs, own, b, h);
      } else {
        ListSame(slabs, xs, own, b, h);
      }
    }

    /** init_slab_headers: thread the objects of a page, last to first. */
    method InitSlabHeaders(base: nat) returns (head: nat)
      requires GeometryOk(g) && base % SLAB_BYTES == 0
      modifies `next
      ensures head == Link(Objs(g, base), 0)
      ensures forall i: nat :: ThreadedAt(g, next, base, i)
      ensures forall p: nat :: SlabOf(p) != base && p in old(next) ==> p in next && next[p] == old(next)[p]
    {
      hide Obj, SlabOf, GeometryOk;
      head := 0;
      var i: nat := g.total;
      while i > 0
        invariant i <= g.total && head == Link(Objs(g, base), i)
        invariant forall k: nat :: k >= i ==> ThreadedAt(g, next, base, k)
        invariant forall p: nat :: SlabOf(p) != base && p in old(next) ==> p in next && next[p] == old(next)[p]
      {
        var obj := Obj(g, base, i - 1);
        ghost var before := next;
        assert IsObj(g, base, obj);
        ObjPlace(g, base, obj);
        next := next[obj := head];
        forall k: nat | k >= i - 1 ensures ThreadedAt(g, next, base, k) {
          if k >= i {
            assert ThreadedAt(g, before, base, k);
            ObjGrows(g, base, i - 1, k);
          }
        }
        head := obj;
        i := i - 1;
      }
    }

    /** A page from the frame allocator becomes a partial slab with no live object. */
    method NewSlab(page: nat)
      requires HeapOk(g, M()) && Listed() && page > 0 && page % SLAB_BYTES == 0 && page !in slabs
      modifies this
      ensures HeapOk(g, M()) && Listed() && live == old(live) && inuseObjects == old(inuseObjects)
      ensures page in slabs && slabs[page].inuse == 0 && slabs[page].total == g.total > 0 &&
              slabs[page].state == PARTIAL
      ensures slabs == old(slabs)[page := slabs[page]] && partial == old(partial) + [page]
    {
      assert GeometryOk(g) && g.total > 0;
      hide HeapOk, GeometryOk, Obj, SlabOf;
      var head := InitSlabHeaders(page);
      var h := SlabHeader(head, 0, g.total, PARTIAL);
      ListPush(slabs, partial, PARTIAL, page, h);
      ListSame(slabs, full, FULL, page, h);
      ListSame(slabs, empty, EMPTY, page, h);
      slabs := slabs[page := h];
      chains := chains[page := Objs(g, page)];
      partial := partial + [page];
      NewSlabKeeps(g, old(M()), M(), page);
    }

    /** Chooses the slab to allocate from: the last partial, the last empty, or a new one. */
    method PickSlab(page: nat) returns (b: nat)
      requires Valid() && page % SLAB_BYTES == 0 && page !in slabs
      modifies this
      ensures HeapOk(g, M()) && Listed() && live == old(live) && inuseObjects == old(inuseObjects)
      ensures b == 0 <==> page == 0 && forall c :: c in old(slabs) ==> old(slabs)[c].state == FULL
      ensures b == 0 ==> Valid() && slabs == old(slabs)
      ensures b != 0 ==> b in slabs && slabs[b].inuse < slabs[b].total && slabs[b].state == PARTIAL
      ensures b != 0 ==> forall c :: c in slabs && c != b ==> c in old(slabs) && slabs[c] == old(slabs)[c]
      ensures b in old(slabs) || (forall c :: c in old(slabs) ==> old(slabs)[c].state == FULL)
      ensures slabs.Keys == old(slabs).Keys + (if b == 0 then {} else {b})
    {
      SlabBound();
      hide HeapOk;
      if partial != [] {
        b := partial[|partial| - 1];
        assert b in partial && slabs[b].state == PARTIAL;
      } else if empty != [] {
        b := empty[|empty| - 1];
        assert b in empty && slabs[b].state == EMPTY;
        StateKeeps(g, M(), b, PARTIAL);
        ToPartial(b);
      } else {
        forall c | c in slabs ensures slabs[c].state == FULL {
          assert c !in partial && c !in empty;
        }
        if page == 0 { return 0; }
        NewSlab(page);
        b := page;
      }
    }

    lemma SlabBound()
      requires Valid()
      ensures forall b :: b in slabs ==> b > 0 && slabs[b].inuse <= slabs[b].total && slabs[b].total == g.total > 0
    {
      forall b | b in slabs ensures b > 0 && slabs[b].inuse <= slabs[b].total && slabs[b].total == g.total {
        assert SlabAt(g, M(), b);
      }
    }

    /** page is what the frame allocator would give, 0 for none. */
    method Alloc(page: nat) returns (p: nat)
      requires Valid() && page % SLAB_BYTES == 0 && page !in slabs
      modifies this
      ensures Valid()
      ensures p == 0 <==> page == 0 && forall c :: c in old(slabs) ==> old(slabs)[c].state == FULL
      ensures p == 0 ==> live == old(live) && slabs == old(slabs)
      ensures p != 0 ==> p !in old(live) && live == old(live) + {p}
      ensures p != 0 ==> SlabOf(p) in slabs && IsObj(g, SlabOf(p), p) && Aligned(p, g.align)
      ensures slabs.Keys != old(slabs).Keys ==> forall c :: c in old(slabs) ==> old(slabs)[c].state == FULL
    {
      hide SlabOf, IsObj, Aligned, HeapOk, Listed;
      var b := PickSlab(page);
      if b == 0 { return 0; }
      p := TakeObject(b);
      if slabs[b].inuse == slabs[b].total {
        StateKeeps(g, M(), b, FULL);
        ToFull(b);
      }
    }

    /** Take the first free object of a slab. */
    method TakeObject(b: nat) returns (p: nat)
      requires HeapOk(g, M()) && Listed() && b in slabs && slabs[b].inuse < slabs[b].total && inuseObjects == |live|
      modifies `slabs, `live, `chains, `inuseObjects
      ensures HeapOk(g, M()) && Listed() && inuseObjects == |live|
      ensures p != 0 && p !in old(live) && live == old(live) + {p} && SlabOf(p) == b && IsObj(g, b, p) &&
              Aligned(p, g.align)
      ensures b in slabs && slabs == old(slabs)[b := slabs[b]] &&
              slabs[b] == old(slabs)[b].(freelist := slabs[b].freelist, inuse := old(slabs)[b].inuse + 1)
    {
      HasRoom(g, M(), b);
      TakeKeeps(g, M(), b);
      hide HeapOk, SlabOf, IsObj, Aligned, Lists;
      p := slabs[b].freelist;
      var h := slabs[b].(freelist := next[p], inuse := slabs[b].inuse + 1);
      ListSame(slabs, partial, PARTIAL, b, h);
      ListSame(slabs, full, FULL, b, h);
      ListSame(slabs, empty, EMPTY, b, h);
      slabs := slabs[b := h];
      live := live + {p};
      chains := chains[b := chains[b][1..]];
      inuseObjects := inuseObjects + 1;
    }

    /** Put a live object back at the head of its slab's chain. */
    method GiveObject(p: nat)
      requires HeapOk(g, M()) && Listed() && p in live && inuseObjects == |live|
      modifies `next, `slabs, `live, `chains, `inuseObjects
      ensures HeapOk(g, M()) && Listed() && live == old(live) - {p} && inuseObjects == |live|
      ensures SlabOf(p) in old(slabs) && SlabOf(p) in slabs && slabs == old(slabs)[SlabOf(p) := slabs[SlabOf(p)]]
      ensures var h := old(slabs)[SlabOf(p)];
              0 < h.inuse <= h.total && slabs[SlabOf(p)] == h.(freelist := p, inuse := h.inuse - 1)
    {
      GiveKeeps(g, M(), p);
      hide HeapOk, SlabOf, Lists;
      var b := SlabOf(p);
      var h := slabs[b].(freelist := p, inuse := slabs[b].inuse - 1);
      ListSame(slabs, partial, PARTIAL, b, h);
      ListSame(slabs, full, FULL, b, h);
      ListSame(slabs, empty, EMPTY, b, h);
      next := next[p := slabs[b].freelist];
      slabs := slabs[b := h];
      live := live - {p};
      chains := chains[b := [p] + chains[b]];
      inuseObjects := inuseObjects - 1;
    }

    /** A null pointer is refused; any other must be a live object. */
    method Free(p: nat)
      requires Valid() && (p == 0 || p in live)
      modifies this
      ensures Valid() && live == old(live) - {p} && slabs.Keys == old(slabs).Keys
    {
      if p == 0 {
        assert LiveAt(g, M(), 0) && (0 in live ==> SlabAt(g, M(), SlabOf(0)));
        return;
      }
      hide HeapOk, SlabOf, Listed;
      GiveObject(p);
      var b := SlabOf(p);
      if slabs[b].inuse == 0 {
        StateKeeps(g, M(), b, EMPTY);
        ToEmpty(b);
      } else if slabs[b].inuse == slabs[b].total - 1 {
        StateKeeps(g, M(), b, PARTIAL);
        ToPartial(b);
      }
    }
  }
}
