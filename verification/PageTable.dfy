/**
 Page tables over copy-on-write payloads: the no-present fault, the write-protection fault and
 the cloning of an address space.  A page table is a map from virtual page numbers to entries.
 */
module PageTable {
  import opened CowState
  import opened CowMemory
  import V = VmaList

  type Vma = V.Vma

  datatype Pte = Pte(frame: nat, r: bool, w: bool, x: bool, cow: bool)

  datatype Space = Space(vmas: seq<Vma>, ptes: map<nat, Pte>)

  // ---------- where a page comes from ----------

  function CeilPage(x: nat): nat {
    (x + PAGE - 1) / PAGE
  }

  /** Virtual page u lies in the page-rounded area of a non-empty VMA. */
  predicate Covers(m: Vma, u: nat) {
    m.begin < m.end && m.begin / PAGE <= u < CeilPage(m.end)
  }

  /** memory_offset_for_page */
  function OffsetFor(m: Vma, u: nat): nat {
    if u * PAGE <= m.begin then m.memOffset else m.memOffset + (u * PAGE - m.begin)
  }

  /** The payload page behind virtual page u of m. */
  function Target(m: Vma, u: nat): nat {
    OffsetFor(m, u) / PAGE
  }

  /** The first VMA that covers page u, or -1. */
  function SiteOf(vmas: seq<Vma>, u: nat): (i: int)
    ensures -1 <= i < |vmas|
    ensures i >= 0 ==> Covers(vmas[i], u)
    ensures i == -1 ==> forall j :: 0 <= j < |vmas| ==> !Covers(vmas[j], u)
  {
    if vmas == [] then -1
    else if Covers(vmas[0], u) then 0
    else var i := SiteOf(vmas[1..], u);
         assert forall j :: 1 <= j < |vmas| ==> vmas[j] == vmas[1..][j - 1];
         if i < 0 then -1 else i + 1
  }

  /** No page is covered by two VMAs, and VMAs begin on page boundaries. */
  ghost predicate Separated(vmas: seq<Vma>) {
    && (forall i :: 0 <= i < |vmas| && vmas[i].begin < vmas[i].end ==> vmas[i].begin % PAGE == 0)
    && (forall i, j, u :: 0 <= i < j < |vmas| ==> !(Covers(vmas[i], u) && Covers(vmas[j], u)))
  }

  lemma SiteIs(vmas: seq<Vma>, i: nat, u: nat)
    requires Separated(vmas) && i < |vmas| && Covers(vmas[i], u)
    ensures SiteOf(vmas, u) == i
  {
    assert SiteOf(vmas, u) >= 0;
  }

  // ---------- the safety invariant ----------

  /** A present entry points at the frame its payload holds now. */
  ghost predicate Points(s: State, a: Space, u: nat) {
    u in a.ptes ==>
      var i := SiteOf(a.vmas, u);
      i >= 0 && Has(s, a.vmas[i].payload, Target(a.vmas[i], u))
      && FrameOf(s, a.vmas[i].payload, Target(a.vmas[i], u)) == a.ptes[u].frame
  }

  /** A writable entry of a payload that is not shared points at a frame nobody else holds. */
  ghost predicate Exclusive(s: State, a: Space, u: nat) {
    u in a.ptes && a.ptes[u].w && SiteOf(a.vmas, u) >= 0 ==>
      var m := a.vmas[SiteOf(a.vmas, u)];
      m.payload in s.payloads && !s.payloads[m.payload].shared ==>
          Holders(s, a.ptes[u].frame) == {(m.payload, Target(m, u))}
  }

  ghost predicate Safe(s: State, spaces: map<nat, Space>) {
    forall t, u :: t in spaces ==> Points(s, spaces[t], u) && Exclusive(s, spaces[t], u)
  }

  /** Each VMA lies in user space and maps a live payload, and an empty one has no byte of its payload to offer. */
  ghost predicate Placed(s: State, a: Space) {
    && Separated(a.vmas) && V.UserAreas(a.vmas)
    && (forall i :: 0 <= i < |a.vmas| ==> a.vmas[i].payload in s.payloads)
    && (forall i :: 0 <= i < |a.vmas| && a.vmas[i].begin >= a.vmas[i].end ==>
          s.payloads[a.vmas[i].payload].memsz <= a.vmas[i].memOffset / PAGE * PAGE)
  }

  /** Each page of a payload that is not shared is mapped at one place. */
  ghost predicate Once(s: State, spaces: map<nat, Space>, t: nat, u: nat, t': nat, u': nat) {
    t in spaces && t' in spaces && SiteOf(spaces[t].vmas, u) >= 0 && SiteOf(spaces[t'].vmas, u') >= 0 ==>
      var m, n := spaces[t].vmas[SiteOf(spaces[t].vmas, u)], spaces[t'].vmas[SiteOf(spaces[t'].vmas, u')];
      m.payload == n.payload && m.payload in s.payloads && !s.payloads[m.payload].shared ==>
        t == t' && (u != u' ==> Target(m, u) != Target(n, u'))
  }

  /** A payload that is not shared has all its VMAs in one space. */
  ghost predicate Apart(s: State, spaces: map<nat, Space>, t: nat, i: int, t': nat, j: int) {
    t in spaces && t' in spaces && 0 <= i < |spaces[t].vmas| && 0 <= j < |spaces[t'].vmas| ==>
      var p := spaces[t].vmas[i].payload;
      p == spaces[t'].vmas[j].payload && p in s.payloads && !s.payloads[p].shared ==> t == t'
  }

  ghost predicate Mapped(s: State, spaces: map<nat, Space>) {
    && (forall t :: t in spaces ==> Placed(s, spaces[t]))
    && (forall t, u, t', u' :: Once(s, spaces, t, u, t', u'))
    && (forall t, i, t', j :: Apart(s, spaces, t, i, t', j))
  }

  // ---------- memory steps under the page tables ----------

  /** One payload page changed its frame, if at all, to one that nobody else holds: other entries stay safe. */
  lemma TouchKeeps(s: State, s': State, spaces: map<nat, Space>, p: nat, v: nat, t: nat, u: nat)
    requires Touched(s, s', p, v) && t in spaces && Points(s, spaces[t], u) && Exclusive(s, spaces[t], u)
    requires Placed(s, spaces[t])
    requires u in spaces[t].ptes ==> var m := spaces[t].vmas[SiteOf(spaces[t].vmas, u)];
             (m.payload, Target(m, u)) != (p, v)
    ensures Points(s', spaces[t], u) && Exclusive(s', spaces[t], u)
  {
    hide SiteOf, Target, Separated;
    if u in spaces[t].ptes {
      var m := spaces[t].vmas[SiteOf(spaces[t].vmas, u)];
      TouchEntry(s, s', p, v, m.payload, Target(m, u));
      if spaces[t].ptes[u].w && !s.payloads[m.payload].shared {
        TouchHolders(s, s', p, v, m.payload, Target(m, u));
      }
    }
  }

  lemma SetPteKeeps(s: State, spaces: map<nat, Space>, t: nat, u: nat, e: Pte)
    requires t in spaces && SiteOf(spaces[t].vmas, u) >= 0
    requires forall t': nat, u': nat :: t' in spaces && (t', u') != (t, u) ==>
             Points(s, spaces[t'], u') && Exclusive(s, spaces[t'], u')
    requires var m := spaces[t].vmas[SiteOf(spaces[t].vmas, u)];
             && Has(s, m.payload, Target(m, u)) && FrameOf(s, m.payload, Target(m, u)) == e.frame
             && (e.w && !s.payloads[m.payload].shared ==> Holders(s, e.frame) == {(m.payload, Target(m, u))})
    ensures Safe(s, spaces[t := spaces[t].(ptes := spaces[t].ptes[u := e])])
  {
    hide SiteOf, Target, Holders;
    var spaces' := spaces[t := spaces[t].(ptes := spaces[t].ptes[u := e])];
    forall t': nat, u': nat | t' in spaces' ensures Points(s, spaces'[t'], u') && Exclusive(s, spaces'[t'], u') {
      if (t', u') != (t, u) { assert Points(s, spaces[t'], u') && Exclusive(s, spaces[t'], u'); }
    }
  }

  lemma MappedTouch(s: State, s': State, spaces: map<nat, Space>, spaces': map<nat, Space>)
    requires Mapped(s, spaces) && s'.payloads.Keys == s.payloads.Keys && spaces'.Keys == spaces.Keys
    requires forall p :: p in s.payloads ==> SameShape(s.payloads[p], s'.payloads[p])
    requires forall t :: t in spaces ==> spaces'[t].vmas == spaces[t].vmas
    ensures Mapped(s', spaces')
  {
    hide SiteOf, Target, Separated;
    forall t | t in spaces' ensures Placed(s', spaces'[t]) { assert Placed(s, spaces[t]); }
    forall t, u, t', u' ensures Once(s', spaces', t, u, t', u') { assert Once(s, spaces, t, u, t', u'); }
    forall t, i, t', j ensures Apart(s', spaces', t, i, t', j) { assert Apart(s, spaces, t, i, t', j); }
  }

  /** The VMA found at addr is the site of its page, or it is empty and its payload ends before it. */
  lemma PlacedAt(s: State, spaces: map<nat, Space>, t: nat, i: nat, addr: nat)
    requires Mapped(s, spaces) && t in spaces && i < |spaces[t].vmas|
    requires var m := spaces[t].vmas[i]; m.begin <= addr < m.end || (m.begin == m.end == addr)
    ensures spaces[t].vmas[i].payload in s.payloads
    ensures var m, u := spaces[t].vmas[i], addr / PAGE;
            if m.begin < m.end then SiteOf(spaces[t].vmas, u) == i
            else s.payloads[m.payload].memsz <= OffsetFor(m, u) / PAGE * PAGE
  {
    hide SiteOf;
    assert Placed(s, spaces[t]);
    var m, u := spaces[t].vmas[i], addr / PAGE;
    if m.begin < m.end {
      assert Covers(m, u);
      SiteIs(spaces[t].vmas, i, u);
    }
  }

  lemma EnsureSafe(s: State, s': State, spaces: map<nat, Space>, p: nat, v: nat)
    requires Mapped(s, spaces) && Safe(s, spaces) && Touched(s, s', p, v) && (Has(s, p, v) ==> s' == s)
    ensures Safe(s', spaces)
  {
    hide SiteOf, Target, Holders, Separated, Touched;
    if !Has(s, p, v) {
      forall t, u | t in spaces ensures Points(s', spaces[t], u) && Exclusive(s', spaces[t], u) {
        assert Placed(s, spaces[t]) && Points(s, spaces[t], u) && Exclusive(s, spaces[t], u);
        TouchKeeps(s, s', spaces, p, v, t, u);
      }
    }
  }

  /** After a fork of (p, v), every entry but the one of its only mapping is still safe. */
  lemma ForkSafe(s: State, s': State, spaces: map<nat, Space>, t: nat, u: nat, t': nat, u': nat)
    requires Mapped(s, spaces) && Safe(s, spaces) && t in spaces && t' in spaces && (t', u') != (t, u)
    requires SiteOf(spaces[t].vmas, u) >= 0
    requires var m := spaces[t].vmas[SiteOf(spaces[t].vmas, u)];
             && m.payload in s.payloads && !s.payloads[m.payload].shared && Touched(s, s', m.payload, Target(m, u))
    ensures Points(s', spaces[t'], u') && Exclusive(s', spaces[t'], u')
  {
    hide SiteOf, Target, Holders, Separated, Touched;
    var m := spaces[t].vmas[SiteOf(spaces[t].vmas, u)];
    assert Placed(s, spaces[t']) && Points(s, spaces[t'], u') && Exclusive(s, spaces[t'], u');
    assert Once(s, spaces, t, u, t', u');
    TouchKeeps(s, s', spaces, m.payload, Target(m, u), t', u');
  }

  lemma SafeSame(s: State, s': State, spaces: map<nat, Space>)
    requires Safe(s, spaces) && s'.payloads == s.payloads
    ensures Safe(s', spaces)
  {
    hide SiteOf, Target, Holders;
    forall t, u | t in spaces ensures Points(s', spaces[t], u) && Exclusive(s', spaces[t], u) {
      assert Points(s, spaces[t], u) && Exclusive(s, spaces[t], u);
      if u in spaces[t].ptes { HoldersAgree(s, s', spaces[t].ptes[u].frame); }
    }
  }

  /** The entry gives what the protection of m allows: writing at once, or after a copy. */
  ghost predicate Grants(m: Vma, e: Pte) {
    e.r == m.r && e.x == (m.r && m.x) && (e.w || e.cow <==> m.r && m.w) && !(e.w && e.cow)
  }

  /** locate accepts m for addr. */
  predicate Located(m: Vma, addr: nat) {
    m.begin <= addr < m.end || (m.begin == m.end == addr)
  }

  /** VMA i is the one locate finds for addr. */
  ghost predicate FirstLocated(vmas: seq<Vma>, addr: nat, i: int) {
    0 <= i < |vmas| && Located(vmas[i], addr) && forall j :: 0 <= j < i ==> !Located(vmas[j], addr)
  }

  lemma FoundThere(vmas: seq<Vma>, addr: nat, i: int)
    requires FirstLocated(vmas, addr, i)
    ensures 0 <= i < |vmas| && var m := vmas[i]; m.begin <= addr < m.end || (m.begin == m.end == addr)
  {}

  /** At most entry u of space t differs. */
  ghost predicate OneEntry(a: map<nat, Space>, b: map<nat, Space>, t: nat, u: nat) {
    t in a && t in b && b == a[t := Space(a[t].vmas, b[t].ptes)] && forall v :: v != u ==>
      (v in a[t].ptes <==> v in b[t].ptes) && (v in a[t].ptes ==> b[t].ptes[v] == a[t].ptes[v])
  }

  // ---------- entries and the translation of addresses ----------

  lemma AddPages(x: nat, k: nat)
    ensures (x + k * PAGE) / PAGE == x / PAGE + k
  {}

  /** The payload page behind addr is the one its VMA translates addr to, short of an offset within a page. */
  lemma TargetIs(m: Vma, addr: nat)
    requires m.begin % PAGE == 0 && V.Contains(m, addr)
    ensures V.Image(m, addr).offset == Target(m, addr / PAGE) * PAGE + addr % PAGE + m.memOffset % PAGE
    ensures m.memOffset % PAGE == 0 <==> Target(m, addr / PAGE) * PAGE + addr % PAGE == V.Image(m, addr).offset
  {
    var b, u := m.begin / PAGE, addr / PAGE;
    assert m.begin == b * PAGE && addr == u * PAGE + addr % PAGE && b <= u;
    AddPages(m.memOffset, u - b);
    assert OffsetFor(m, u) == m.memOffset + (u - b) * PAGE;
  }

  /** Where VMAs share no page, addr translates through the VMA that contains it. */
  lemma TranslatedBy(vmas: seq<Vma>, i: nat, addr: nat)
    requires Separated(vmas) && i < |vmas| && V.Contains(vmas[i], addr)
    ensures V.Translate(vmas, addr) == V.Image(vmas[i], addr)
    ensures SiteOf(vmas, addr / PAGE) == i && forall m :: m in vmas && V.Contains(m, addr) ==> m == vmas[i]
  {
    hide Separated, Covers, SiteOf, V.Translate;
    forall j | 0 <= j < |vmas| && V.Contains(vmas[j], addr) ensures j == i {
      PageIn(vmas[i], addr);
      PageIn(vmas[j], addr);
      SiteIs(vmas, i, addr / PAGE);
      SiteIs(vmas, j, addr / PAGE);
    }
    PageIn(vmas[i], addr);
    SiteIs(vmas, i, addr / PAGE);
    var j := V.TranslateFound(vmas, addr);
  }

  /**
   The frame mapped for addr holds, at the place of addr in its page, the byte that the payload shows
   at the translation of addr, short of the part of the VMA's offset that lies within a page.
   */
  ghost predicate ShowsAt(s: State, a: Space, addr: nat) {
    && addr / PAGE in a.ptes
    && var at, f := V.Translate(a.vmas, addr), a.ptes[addr / PAGE].frame;
    && at.To? && at.payload in s.payloads && f in s.store && |s.store[f]| == PAGE
    && forall m :: m in a.vmas && V.Contains(m, addr) ==>
         var skew := m.memOffset % PAGE;
         skew <= at.offset && s.store[f][addr % PAGE] == ByteAt(s, at.payload, at.offset - skew)
  }

  /** The frame mapped for addr is held by the payload page that addr translates to, and by no other. */
  ghost predicate SoleAt(s: State, a: Space, addr: nat) {
    && addr / PAGE in a.ptes
    && forall m :: m in a.vmas && V.Contains(m, addr) ==>
         var at := V.Translate(a.vmas, addr);
         at.To? && at.offset >= m.memOffset % PAGE &&
         Holders(s, a.ptes[addr / PAGE].frame) == {(at.payload, (at.offset - m.memOffset % PAGE) / PAGE)}
  }

  /** Every present entry shows what its addresses translate to. */
  lemma EntryShows(s: State, spaces: map<nat, Space>, t: nat, i: nat, addr: nat)
    requires Inv(s) && Mapped(s, spaces) && Safe(s, spaces) && t in spaces && addr / PAGE in spaces[t].ptes
    requires i < |spaces[t].vmas| && V.Contains(spaces[t].vmas[i], addr)
    ensures ShowsAt(s, spaces[t], addr)
  {
    hide Inv, Mapped, Separated, SiteOf, Covers, View, V.Translate, Exclusive, Holders;
    var m, u := spaces[t].vmas[i], addr / PAGE;
    MappedAt(s, spaces, t, i);
    TranslatedBy(spaces[t].vmas, i, addr);
    AlignedBegin(spaces[t].vmas, i);
    TargetIs(m, addr);
    assert Points(s, spaces[t], u);
    hide Target;
    PageBytes(s, m.payload, Target(m, u));
  }

  lemma AlignedBegin(vmas: seq<Vma>, i: nat)
    requires Separated(vmas) && i < |vmas| && vmas[i].begin < vmas[i].end
    ensures vmas[i].begin % PAGE == 0
  {
    hide Covers;
  }

  lemma SoleIs(s: State, spaces: map<nat, Space>, t: nat, i: nat, addr: nat)
    requires Mapped(s, spaces) && t in spaces && addr / PAGE in spaces[t].ptes
    requires i < |spaces[t].vmas| && V.Contains(spaces[t].vmas[i], addr)
    requires var m, u := spaces[t].vmas[i], addr / PAGE;
             Holders(s, spaces[t].ptes[u].frame) == {(m.payload, Target(m, u))}
    ensures SoleAt(s, spaces[t], addr)
  {
    hide Mapped, Separated, SiteOf, Covers, V.Translate, Holders;
    MappedAt(s, spaces, t, i);
    TranslatedBy(spaces[t].vmas, i, addr);
    AlignedBegin(spaces[t].vmas, i);
    TargetIs(spaces[t].vmas[i], addr);
  }

  // ---------- cloning an address space ----------

  /** A present entry of a payload that is not shared is write-protected. */
  ghost predicate Guarded(s: State, a: Space, u: nat) {
    u in a.ptes && SiteOf(a.vmas, u) >= 0 ==>
      var p := a.vmas[SiteOf(a.vmas, u)].payload;
      p in s.payloads && !s.payloads[p].shared ==> !a.ptes[u].w
  }

  /** Safety while the first i VMAs of src have been cloned: src is only safe there. */
  ghost predicate Weak(s: State, spaces: map<nat, Space>, src: nat, i: int) {
    && src in spaces
    && (forall t, u :: t in spaces ==> Points(s, spaces[t], u))
    && (forall t, u :: t in spaces && t != src ==> Exclusive(s, spaces[t], u))
    && (forall u :: SiteOf(spaces[src].vmas, u) < i ==> Guarded(s, spaces[src], u))
  }

  lemma WeakStart(s: State, spaces: map<nat, Space>, src: nat)
    requires Safe(s, spaces) && src in spaces
    ensures Weak(s, spaces, src, 0)
  {
    hide SiteOf, Holders, Target;
    forall t, u | t in spaces ensures Points(s, spaces[t], u) && Exclusive(s, spaces[t], u) {}
  }

  lemma WeakEnd(s: State, spaces: map<nat, Space>, src: nat)
    requires src in spaces && Weak(s, spaces, src, |spaces[src].vmas|)
    ensures Safe(s, spaces)
  {
    hide Holders, Target;
    forall t, u | t in spaces ensures Points(s, spaces[t], u) && Exclusive(s, spaces[t], u) {
      if t == src { assert Guarded(s, spaces[src], u); }
    }
  }

  lemma CloneExclusive(s: State, s': State, spaces: map<nat, Space>, src: nat, i: nat, p: nat, q: nat, t: nat, u: nat)
    requires Mapped(s, spaces) && src in spaces && i < |spaces[src].vmas| && spaces[src].vmas[i].payload == p
    requires p in s.payloads && !s.payloads[p].shared && q !in s.payloads && Cloned(s, s', p, q)
    requires t in spaces && t != src && Points(s, spaces[t], u) && Exclusive(s, spaces[t], u)
    ensures Exclusive(s', spaces[t], u)
  {
    hide SiteOf, Target, Holders, Separated, View;
    if u in spaces[t].ptes {
      assert Placed(s, spaces[t]);
      var j := SiteOf(spaces[t].vmas, u);
      var m := spaces[t].vmas[j];
      assert Apart(s, spaces, src, i, t, j);
      if !s.payloads[m.payload].shared && spaces[t].ptes[u].w {
        ClonedHolders(s, s', p, q, m.payload, Target(m, u));
      }
    }
  }

  /** Cloning a payload mapped only in src harms no other space. */
  lemma CloneWeak(s: State, s': State, spaces: map<nat, Space>, src: nat, i: nat, p: nat, q: nat)
    requires Mapped(s, spaces) && Weak(s, spaces, src, i) && i < |spaces[src].vmas| && spaces[src].vmas[i].payload == p
    requires p in s.payloads && !s.payloads[p].shared && q !in s.payloads && Cloned(s, s', p, q)
    ensures Weak(s', spaces, src, i) && Mapped(s', spaces)
  {
    hide SiteOf, Target, Holders, Separated, View;
    forall t, u | t in spaces ensures Points(s', spaces[t], u) {
      assert Points(s, spaces[t], u) && Placed(s, spaces[t]);
    }
    forall t, u | t in spaces && t != src ensures Exclusive(s', spaces[t], u) {
      assert Points(s, spaces[t], u) && Exclusive(s, spaces[t], u);
      CloneExclusive(s, s', spaces, src, i, p, q, t, u);
    }
    forall u | SiteOf(spaces[src].vmas, u) < i ensures Guarded(s', spaces[src], u) {
      assert Guarded(s, spaces[src], u) && Placed(s, spaces[src]);
    }
    CloneMapped(s, s', spaces, p, q);
  }

  lemma CloneMapped(s: State, s': State, spaces: map<nat, Space>, p: nat, q: nat)
    requires Mapped(s, spaces) && p in s.payloads && q !in s.payloads && Cloned(s, s', p, q)
    ensures Mapped(s', spaces)
  {
    hide SiteOf, Target, Separated, View;
    forall t | t in spaces ensures Placed(s', spaces[t]) { assert Placed(s, spaces[t]); }
    forall t, u, t', u' ensures Once(s', spaces, t, u, t', u') {
      assert Once(s, spaces, t, u, t', u');
      if t in spaces { assert Placed(s, spaces[t]); }
    }
    forall t, a, t', b ensures Apart(s', spaces, t, a, t', b) {
      assert Apart(s, spaces, t, a, t', b);
      if t in spaces { assert Placed(s, spaces[t]); }
    }
  }

  /** The site of each page after a VMA is inserted where it covers no page of another. */
  lemma SiteInsert(vmas: seq<Vma>, m: Vma, k: nat, u: nat)
    requires k <= |vmas| && Separated(vmas[..k] + [m] + vmas[k..])
    ensures Separated(vmas)
    ensures var vmas' := vmas[..k] + [m] + vmas[k..];
            var i, j := SiteOf(vmas, u), SiteOf(vmas', u);
            && (j >= 0 <==> Covers(m, u) || i >= 0)
            && (j >= 0 ==> vmas'[j] == if Covers(m, u) then m else vmas[i])
            && (Covers(m, u) ==> i < 0)
  {
    hide Covers;
    var vmas' := vmas[..k] + [m] + vmas[k..];
    SeparatedPart(vmas, m, k);
    if Covers(m, u) {
      SiteIs(vmas', k, u);
      var i := SiteOf(vmas, u);
      if i >= 0 { SiteIs(vmas', if i < k then i else i + 1, u); }
    } else {
      var i := SiteOf(vmas, u);
      if i >= 0 {
        SiteIs(vmas', if i < k then i else i + 1, u);
      } else {
        var j := SiteOf(vmas', u);
        if j >= 0 { SiteIs(vmas, if j < k then j else j - 1, u); }
      }
    }
  }

  lemma SeparatedPart(vmas: seq<Vma>, m: Vma, k: nat)
    requires k <= |vmas| && Separated(vmas[..k] + [m] + vmas[k..])
    ensures Separated(vmas)
  {
    hide Covers;
    var vmas' := vmas[..k] + [m] + vmas[k..];
    assert forall j :: 0 <= j < |vmas| ==> vmas[j] == vmas'[if j < k then j else j + 1];
  }

  lemma TargetInjective(m: Vma, u: nat, v: nat)
    requires m.begin % PAGE == 0 && Covers(m, u) && Covers(m, v) && u != v
    ensures Target(m, u) != Target(m, v)
  {}

  /** m can be inserted at k in space dst: its payload is mapped nowhere else, or is shared. */
  ghost predicate CanJoin(s: State, spaces: map<nat, Space>, dst: nat, m: Vma, k: nat) {
    && dst in spaces && k <= |spaces[dst].vmas| && m.payload in s.payloads && V.UserArea(m.begin, m.end)
    && Separated(spaces[dst].vmas[..k] + [m] + spaces[dst].vmas[k..])
    && (m.begin >= m.end ==> s.payloads[m.payload].memsz <= m.memOffset / PAGE * PAGE)
    && (s.payloads[m.payload].shared
        || forall t, j :: t in spaces && 0 <= j < |spaces[t].vmas| ==> spaces[t].vmas[j].payload != m.payload)
  }

  function Joined(spaces: map<nat, Space>, dst: nat, m: Vma, k: nat): map<nat, Space>
    requires dst in spaces && k <= |spaces[dst].vmas|
  {
    spaces[dst := spaces[dst].(vmas := spaces[dst].vmas[..k] + [m] + spaces[dst].vmas[k..])]
  }

  /** The entries of a space that a VMA joins stay as safe as they were. */
  lemma JoinEntry(s: State, spaces: map<nat, Space>, dst: nat, m: Vma, k: nat, t: nat, u: nat)
    requires CanJoin(s, spaces, dst, m, k) && t in spaces && Points(s, spaces[t], u)
    ensures Points(s, Joined(spaces, dst, m, k)[t], u)
    ensures Exclusive(s, spaces[t], u) ==> Exclusive(s, Joined(spaces, dst, m, k)[t], u)
  {
    hide SiteOf, Target, Holders, Separated, Covers;
    if t == dst { SiteInsert(spaces[dst].vmas, m, k, u); }
  }

  lemma JoinMapped(s: State, spaces: map<nat, Space>, dst: nat, m: Vma, k: nat)
    requires Mapped(s, spaces) && CanJoin(s, spaces, dst, m, k)
    ensures Mapped(s, Joined(spaces, dst, m, k))
  {
    hide SiteOf, Target, Separated, Covers;
    var spaces' := Joined(spaces, dst, m, k);
    forall t | t in spaces' ensures Placed(s, spaces'[t]) { assert Placed(s, spaces[t]); }
    forall t, u, t', u' ensures Once(s, spaces', t, u, t', u') { AddOnce(s, spaces, dst, m, k, t, u, t', u'); }
    forall t, b, t', c ensures Apart(s, spaces', t, b, t', c) { AddApart(s, spaces, dst, m, k, t, b, t', c); }
  }

  lemma JoinSafe(s: State, spaces: map<nat, Space>, dst: nat, m: Vma, k: nat)
    requires Safe(s, spaces) && CanJoin(s, spaces, dst, m, k)
    ensures Safe(s, Joined(spaces, dst, m, k))
  {
    hide SiteOf, Target, Holders, Separated, Covers, Points, Exclusive;
    var spaces' := Joined(spaces, dst, m, k);
    hide CanJoin;
    forall t, u | t in spaces' ensures Points(s, spaces'[t], u) && Exclusive(s, spaces'[t], u) {
      assert Points(s, spaces[t], u) && Exclusive(s, spaces[t], u);
      JoinEntry(s, spaces, dst, m, k, t, u);
    }
  }

  lemma JoinWeak(s: State, spaces: map<nat, Space>, src: nat, dst: nat, i: int, m: Vma, k: nat)
    requires Weak(s, spaces, src, i) && CanJoin(s, spaces, dst, m, k) && dst != src
    ensures Weak(s, Joined(spaces, dst, m, k), src, i)
  {
    hide SiteOf, Target, Holders, Separated, Covers, Points, Exclusive;
    var spaces' := Joined(spaces, dst, m, k);
    hide CanJoin;
    forall t, u | t in spaces' ensures Points(s, spaces'[t], u) && (t != src ==> Exclusive(s, spaces'[t], u)) {
      assert Points(s, spaces[t], u) && (t != src ==> Exclusive(s, spaces[t], u));
      JoinEntry(s, spaces, dst, m, k, t, u);
    }
    forall u | SiteOf(spaces'[src].vmas, u) < i ensures Guarded(s, spaces'[src], u) {
      assert Guarded(s, spaces[src], u);
    }
  }

  lemma AddApart(s: State, spaces: map<nat, Space>, dst: nat, m: Vma, k: nat, t: nat, b: int, t': nat, c: int)
    requires Mapped(s, spaces) && CanJoin(s, spaces, dst, m, k)
    ensures Apart(s, Joined(spaces, dst, m, k), t, b, t', c)
  {
    hide SiteOf, Target, Separated;
    var b' := if t == dst && b > k then b - 1 else b;
    var c' := if t' == dst && c > k then c - 1 else c;
    assert Apart(s, spaces, t, b', t', c');
  }

  lemma AddOnce(s: State, spaces: map<nat, Space>, dst: nat, m: Vma, k: nat, t: nat, u: nat, t': nat, u': nat)
    requires Mapped(s, spaces) && CanJoin(s, spaces, dst, m, k)
    ensures Once(s, Joined(spaces, dst, m, k), t, u, t', u')
  {
    hide SiteOf, Target, Covers;
    var vmas := spaces[dst].vmas;
    assert Once(s, spaces, t, u, t', u');
    if t == dst { SiteInsert(vmas, m, k, u); }
    if t' == dst { SiteInsert(vmas, m, k, u'); }
    if t == dst == t' && u != u' && Covers(m, u) && Covers(m, u') {
      NonEmpty(m, u);
      assert (vmas[..k] + [m] + vmas[k..])[k] == m;
      TargetInjective(m, u, u');
    }
  }

  lemma NonEmpty(m: Vma, u: nat)
    requires Covers(m, u)
    ensures m.begin < m.end
  {}

  /** Setting an entry of a space other than src that points right and is writable only if shared. */
  lemma DstPte(s: State, spaces: map<nat, Space>, src: nat, dst: nat, i: int, u: nat, e: Pte)
    requires Weak(s, spaces, src, i) && dst in spaces && dst != src && SiteOf(spaces[dst].vmas, u) >= 0
    requires var m := spaces[dst].vmas[SiteOf(spaces[dst].vmas, u)];
             Has(s, m.payload, Target(m, u)) && FrameOf(s, m.payload, Target(m, u)) == e.frame &&
                 (e.w ==> s.payloads[m.payload].shared)
    ensures Weak(s, spaces[dst := spaces[dst].(ptes := spaces[dst].ptes[u := e])], src, i)
  {
    hide SiteOf, Target, Holders;
    var spaces' := spaces[dst := spaces[dst].(ptes := spaces[dst].ptes[u := e])];
    forall t, v | t in spaces' ensures Points(s, spaces'[t], v) && (t != src ==> Exclusive(s, spaces'[t], v)) {
      assert Points(s, spaces[t], v) && (t != src ==> Exclusive(s, spaces[t], v));
    }
    forall v | SiteOf(spaces'[src].vmas, v) < i ensures Guarded(s, spaces'[src], v) {
      assert Guarded(s, spaces[src], v);
    }
  }

  /** Write-protecting an entry of src keeps weak safety and guards the page. */
  lemma SrcPte(s: State, spaces: map<nat, Space>, src: nat, i: int, u: nat, e: Pte)
    requires Weak(s, spaces, src, i) && u in spaces[src].ptes && e.frame == spaces[src].ptes[u].frame && !e.w
    ensures var spaces' := spaces[src := spaces[src].(ptes := spaces[src].ptes[u := e])];
            Weak(s, spaces', src, i) && forall v :: v == u || Guarded(s, spaces[src], v) ==> Guarded(s, spaces'[src], v)
  {
    hide SiteOf, Target, Holders;
    var spaces' := spaces[src := spaces[src].(ptes := spaces[src].ptes[u := e])];
    forall t, v | t in spaces' ensures Points(s, spaces'[t], v) && (t != src ==> Exclusive(s, spaces'[t], v)) {
      assert Points(s, spaces[t], v) && (t != src ==> Exclusive(s, spaces[t], v));
    }
    forall v | SiteOf(spaces'[src].vmas, v) < i ensures Guarded(s, spaces'[src], v) {
      assert Guarded(s, spaces[src], v);
    }
  }

  /** Once every page of VMA i is guarded, weak safety extends over it. */
  lemma WeakNext(s: State, spaces: map<nat, Space>, src: nat, i: nat)
    requires Weak(s, spaces, src, i) && i < |spaces[src].vmas|
    requires forall u :: Covers(spaces[src].vmas[i], u) ==> Guarded(s, spaces[src], u)
    ensures Weak(s, spaces, src, i + 1)
  {
    hide Target, Holders, Covers;
  }

  // ---------- a fresh payload ----------

  ghost predicate Aligned(vmas: seq<Vma>) {
    forall i :: 0 <= i < |vmas| ==> vmas[i].begin % PAGE == 0 && vmas[i].end % PAGE == 0
  }

  /** An aligned VMA that meets no aligned VMA shares no page with them. */
  lemma JoinSeparated(vmas: seq<Vma>, m: Vma, k: nat)
    requires Separated(vmas) && Aligned(vmas) && k <= |vmas| && m.begin % PAGE == 0 && m.end % PAGE == 0
    requires m.begin < m.end ==> forall j :: 0 <= j < |vmas| ==> !V.Meets(vmas[j], m.begin, m.end)
    ensures var vmas' := vmas[..k] + [m] + vmas[k..]; Separated(vmas') && Aligned(vmas')
  {
    hide Covers, V.Meets;
    var vmas' := vmas[..k] + [m] + vmas[k..];
    forall i, j, u: nat | 0 <= i < j < |vmas'| ensures !(Covers(vmas'[i], u) && Covers(vmas'[j], u)) {
      if i == k {
        assert vmas'[j] == vmas[j - 1];
        PagesApart(m, vmas[j - 1], u);
      } else if j == k {
        PagesApart(m, vmas[i], u);
      } else {
        assert vmas'[i] == vmas[if i < k then i else i - 1] && vmas'[j] == vmas[if j < k then j else j - 1];
      }
    }
  }

  lemma PagesApart(m: Vma, n: Vma, u: nat)
    requires m.begin % PAGE == 0 && m.end % PAGE == 0 && n.begin % PAGE == 0 && n.end % PAGE == 0
    requires m.begin < m.end ==> !V.Meets(n, m.begin, m.end)
    ensures !(Covers(m, u) && Covers(n, u))
  {}

  lemma MappedAll(s: State, spaces: map<nat, Space>)
    requires Mapped(s, spaces)
    ensures forall t :: t in spaces ==> Separated(spaces[t].vmas)
    ensures forall t, j :: t in spaces && 0 <= j < |spaces[t].vmas| ==> spaces[t].vmas[j].payload in s.payloads
  {
    hide Separated, SiteOf, Target;
    forall t | t in spaces ensures Placed(s, spaces[t]) {}
  }

  lemma CreateMapped(s: State, spaces: map<nat, Space>, q: nat, payload: Payload)
    requires Mapped(s, spaces) && q !in s.payloads
    ensures Mapped(s.(payloads := s.payloads[q := payload]), spaces)
  {
    hide SiteOf, Target, Separated;
    var s' := s.(payloads := s.payloads[q := payload]);
    forall t | t in spaces ensures Placed(s', spaces[t]) { assert Placed(s, spaces[t]); }
    forall t, u, t', u' ensures Once(s', spaces, t, u, t', u') {
      assert Once(s, spaces, t, u, t', u');
      if t in spaces { assert Placed(s, spaces[t]); }
    }
    forall t, i, t', j ensures Apart(s', spaces, t, i, t', j) {
      assert Apart(s, spaces, t, i, t', j);
      if t in spaces { assert Placed(s, spaces[t]); }
    }
  }

  lemma CreateSafe(s: State, spaces: map<nat, Space>, q: nat, payload: Payload)
    requires Mapped(s, spaces) && Safe(s, spaces) && q !in s.payloads && payload.pages == map[]
    ensures Safe(s.(payloads := s.payloads[q := payload]), spaces)
  {
    hide SiteOf, Target, Separated, Holders;
    var s' := s.(payloads := s.payloads[q := payload]);
    forall t, u | t in spaces ensures Points(s', spaces[t], u) && Exclusive(s', spaces[t], u) {
      assert Points(s, spaces[t], u) && Exclusive(s, spaces[t], u) && Placed(s, spaces[t]);
      if u in spaces[t].ptes { CreateHolders(s, q, payload, spaces[t].ptes[u].frame); }
    }
  }

  lemma CreateHolders(s: State, q: nat, payload: Payload, f: nat)
    requires q !in s.payloads && payload.pages == map[]
    ensures Holders(s.(payloads := s.payloads[q := payload]), f) == Holders(s, f)
  {}

  // ---------- what cloning does to the entries ----------

  /** The child's entry c for the parent's entry e: the same frame, copy-on-write where e could be written. */
  ghost predicate ChildOf(e: Pte, shared: bool, c: Pte) {
    c.frame == e.frame && c.r == e.r && c.x == e.x && (c.cow <==> !shared && (e.w || e.cow)) && (c.w <==> e.w && !c.cow)
  }

  /** The parent's entry c afterwards. */
  ghost predicate ParentOf(e: Pte, shared: bool, c: Pte) {
    if !shared && (e.w || e.cow) then c == e.(w := false, cow := true) else c == e
  }

  /** Page u went from parent entries p to p' and from child entries c to c'. */
  ghost predicate PageCloned(p: map<nat, Pte>, p': map<nat, Pte>, c: map<nat, Pte>, c': map<nat, Pte>, u: nat,
      shared: bool) {
    && (u in p <==> u in p')
    && (u in p && u !in c ==> ParentOf(p[u], shared, p'[u]) && u in c' && ChildOf(p[u], shared, c'[u]))
    && (u !in p ==> (u in c <==> u in c') && (u in c ==> c'[u] == c[u]))
  }

  ghost predicate PageKept(p: map<nat, Pte>, p': map<nat, Pte>, c: map<nat, Pte>, c': map<nat, Pte>, u: nat) {
    && (u in p <==> u in p') && (u in p ==> p'[u] == p[u])
    && (u in c <==> u in c') && (u in c ==> c'[u] == c[u])
  }

  /** The pages of m were cloned and no other page changed. */
  ghost predicate AreaCloned(p: map<nat, Pte>, p': map<nat, Pte>, c: map<nat, Pte>, c': map<nat, Pte>, m: Vma,
      shared: bool) {
    forall u: nat :: if Covers(m, u) then PageCloned(p, p', c, c', u, shared) else PageKept(p, p', c, c', u)
  }

  ghost predicate SharedAt(s: State, vmas: seq<Vma>, u: nat) {
    SiteOf(vmas, u) >= 0 && var q := vmas[SiteOf(vmas, u)].payload; q in s.payloads && s.payloads[q].shared
  }

  /** The child has inherited exactly the parent's entries for the pages of the first i VMAs. */
  ghost predicate Inherited(s: State, vmas: seq<Vma>, p: map<nat, Pte>, p': map<nat, Pte>, c: map<nat, Pte>, i: int) {
    forall u: nat ::
      var done := 0 <= SiteOf(vmas, u) < i;
      && (u in p <==> u in p') && (u in c <==> u in p && done)
      && (u in c ==> ChildOf(p[u], SharedAt(s, vmas, u), c[u]) && ParentOf(p[u], SharedAt(s, vmas, u), p'[u]))
      && (u in p && !done ==> p'[u] == p[u])
  }

  lemma NothingCloned(p: map<nat, Pte>, c: map<nat, Pte>)
    ensures forall u: nat :: PageKept(p, p, c, c, u)
  {}

  lemma PageThen(p0: map<nat, Pte>, p1: map<nat, Pte>, p2: map<nat, Pte>, c0: map<nat, Pte>, c1: map<nat, Pte>,
      c2: map<nat, Pte>, u: nat, shared: bool)
    ensures PageKept(p0, p1, c0, c1, u) && PageKept(p1, p2, c1, c2, u) ==> PageKept(p0, p2, c0, c2, u)
    ensures PageKept(p0, p1, c0, c1, u) && PageCloned(p1, p2, c1, c2, u, shared) ==>
            PageCloned(p0, p2, c0, c2, u, shared)
    ensures PageCloned(p0, p1, c0, c1, u, shared) && PageKept(p1, p2, c1, c2, u) ==>
            PageCloned(p0, p2, c0, c2, u, shared)
  {}

  /** One page of clone_vma_pages_to_cow on the two tables. */
  lemma EntriesCloned(p: map<nat, Pte>, c: map<nat, Pte>, u: nat, shared: bool)
    ensures u !in p ==> PageCloned(p, p, c, c, u, shared) && forall v: nat :: PageKept(p, p, c, c, v)
    ensures u in p ==>
              var e := p[u];
              var cow := !shared && (e.w || e.cow);
              var p' := if cow then p[u := e.(w := false, cow := true)] else p;
              var c' := if u in c then c else c[u := Pte(e.frame, e.r, e.w && !cow, e.x, cow)];
              PageCloned(p, p', c, c', u, shared) && forall v: nat :: v != u ==> PageKept(p, p', c, c', v)
  {}

  lemma InheritedStart(s: State, vmas: seq<Vma>, p: map<nat, Pte>)
    ensures Inherited(s, vmas, p, p, map[], 0)
  {}

  lemma InheritedAll(s: State, spaces: map<nat, Space>, src: nat, p: map<nat, Pte>, c: map<nat, Pte>)
    requires src in spaces && Safe(s, spaces) &&
             Inherited(s, spaces[src].vmas, spaces[src].ptes, p, c, |spaces[src].vmas|)
    ensures c.Keys == p.Keys == spaces[src].ptes.Keys
    ensures forall u :: u in spaces[src].ptes ==>
              var e, shared := spaces[src].ptes[u], SharedAt(s, spaces[src].vmas, u);
                  ChildOf(e, shared, c[u]) && ParentOf(e, shared, p[u])
  {
    hide ChildOf, ParentOf, SharedAt, Target, Holders;
    forall u ensures u in c <==> u in spaces[src].ptes { assert Points(s, spaces[src], u); }
  }

  lemma InheritedNext(s: State, vmas: seq<Vma>, p: map<nat, Pte>, p1: map<nat, Pte>, p2: map<nat, Pte>,
      c1: map<nat, Pte>, c2: map<nat, Pte>, i: nat, shared: bool)
    requires Separated(vmas) && i < |vmas| && Inherited(s, vmas, p, p1, c1, i) &&
             AreaCloned(p1, p2, c1, c2, vmas[i], shared)
    requires vmas[i].payload in s.payloads && shared == s.payloads[vmas[i].payload].shared
    ensures Inherited(s, vmas, p, p2, c2, i + 1)
  {
    hide Separated, Covers, ChildOf, ParentOf;
    forall u: nat ensures
      var done := 0 <= SiteOf(vmas, u) < i + 1;
      && (u in p <==> u in p2) && (u in c2 <==> u in p && done)
      && (u in c2 ==> ChildOf(p[u], SharedAt(s, vmas, u), c2[u]) && ParentOf(p[u], SharedAt(s, vmas, u), p2[u]))
      && (u in p && !done ==> p2[u] == p[u])
    {
      if Covers(vmas[i], u) { SiteIs(vmas, i, u); }
    }
  }

  /** dst has the first i VMAs of src, VMA j over payload pay[j]; from says which came from where. */
  ghost predicate Copies(vmas: seq<Vma>, copy: seq<Vma>, from: seq<nat>, pay: seq<nat>, i: nat) {
    && |pay| == i <= |vmas| && |from| == |copy| == i
    && (forall a :: 0 <= a < i ==> from[a] < i && copy[a] == vmas[from[a]].(payload := pay[from[a]]))
    && (forall a, b :: 0 <= a < b < i ==> from[a] != from[b])
    && (forall j :: 0 <= j < i ==> j in from)
  }

  lemma CopiesShape(vmas: seq<Vma>, copy: seq<Vma>, from: seq<nat>, pay: seq<nat>, i: nat)
    requires Copies(vmas, copy, from, pay, i)
    ensures |copy| == i
  {}

  lemma InsertedStays(from: seq<nat>, k: nat, i: nat, j: nat)
    requires k <= |from| && (j == i || j in from)
    ensures j in from[..k] + [i] + from[k..]
  {
    var from' := from[..k] + [i] + from[k..];
    if j == i {
      assert from'[k] == i;
    } else {
      var a :| 0 <= a < |from| && from[a] == j;
      assert from'[if a < k then a else a + 1] == j;
    }
  }

  lemma CopiesNext(vmas: seq<Vma>, copy: seq<Vma>, from: seq<nat>, pay: seq<nat>, i: nat, k: nat, q: nat)
    requires Separated(vmas) && Copies(vmas, copy, from, pay, i) && i < |vmas| && k <= i
    ensures Copies(vmas, copy[..k] + [vmas[i].(payload := q)] + copy[k..], from[..k] + [i] + from[k..], pay + [q],
            i + 1)
    ensures Separated(copy[..k] + [vmas[i].(payload := q)] + copy[k..])
  {
    hide Separated;
    var copy', from', pay' := copy[..k] + [vmas[i].(payload := q)] + copy[k..], from[..k] + [i] + from[k..], pay + [q];
    forall j | 0 <= j < i + 1 ensures j in from' { InsertedStays(from, k, i, j); }
    forall a | 0 <= a < i + 1 ensures from'[a] < i + 1 && copy'[a] == vmas[from'[a]].(payload := pay'[from'[a]]) {
      CopyAt(vmas, copy, from, pay, i, k, q, a);
    }
    forall a, b | 0 <= a < b < i + 1 ensures from'[a] != from'[b] { FromApart(from, i, k, a, b); }
    assert Copies(vmas, copy', from', pay', i + 1);
    hide Copies;
    CopiesSeparated(vmas, copy', from', pay', i + 1);
  }

  lemma CopyAt(vmas: seq<Vma>, copy: seq<Vma>, from: seq<nat>, pay: seq<nat>, i: nat, k: nat, q: nat, a: nat)
    requires Copies(vmas, copy, from, pay, i) && i < |vmas| && k <= i && a <= i
    ensures var copy', from', pay' := copy[..k] + [vmas[i].(payload := q)] + copy[k..], from[..k] + [i] + from[k..],
            pay + [q];
            from'[a] < i + 1 && copy'[a] == vmas[from'[a]].(payload := pay'[from'[a]])
  {
    if a != k { assert from[if a < k then a else a - 1] < i; }
  }

  lemma FromApart(from: seq<nat>, i: nat, k: nat, a: nat, b: nat)
    requires |from| == i && k <= i && a < b <= i && (forall c :: 0 <= c < i ==> from[c] < i)
    requires forall c, d :: 0 <= c < d < i ==> from[c] != from[d]
    ensures (from[..k] + [i] + from[k..])[a] != (from[..k] + [i] + from[k..])[b]
  {
    if a != k && b != k { assert from[if a < k then a else a - 1] != from[if b < k then b else b - 1]; }
  }

  /** A VMA meets no copy of the VMAs before it. */
  lemma NotBusy(vmas: seq<Vma>, copy: seq<Vma>, from: seq<nat>, pay: seq<nat>, i: nat)
    requires Separated(vmas) && Copies(vmas, copy, from, pay, i) && i < |vmas| && vmas[i].begin < vmas[i].end
    ensures forall a :: 0 <= a < |copy| ==> !V.Meets(copy[a], vmas[i].begin, vmas[i].end)
  {
    forall a | 0 <= a < |copy| ensures !V.Meets(copy[a], vmas[i].begin, vmas[i].end) {
      assert copy[a].begin == vmas[from[a]].begin && copy[a].end == vmas[from[a]].end && from[a] < i;
      ApartPages(vmas, from[a], i);
    }
  }

  lemma ApartPages(vmas: seq<Vma>, j: nat, i: nat)
    requires Separated(vmas) && j < i < |vmas|
    ensures !V.Meets(vmas[j], vmas[i].begin, vmas[i].end)
  {
    if V.Meets(vmas[j], vmas[i].begin, vmas[i].end) {
      var x := if vmas[j].begin > vmas[i].begin then vmas[j].begin else vmas[i].begin;
      PageIn(vmas[j], x);
      PageIn(vmas[i], x);
    }
  }

  lemma PageIn(m: Vma, x: nat)
    requires m.begin <= x < m.end
    ensures Covers(m, x / PAGE)
  {}

  lemma CopiesSeparated(vmas: seq<Vma>, copy: seq<Vma>, from: seq<nat>, pay: seq<nat>, i: nat)
    requires Separated(vmas) && Copies(vmas, copy, from, pay, i)
    ensures Separated(copy)
  {
    forall a, b, u: nat | 0 <= a < b < i ensures !(Covers(copy[a], u) && Covers(copy[b], u)) {
      assert Covers(copy[a], u) == Covers(vmas[from[a]], u) && Covers(copy[b], u) == Covers(vmas[from[b]], u);
    }
  }

  /** q shows in t what p showed in s. */
  ghost predicate Shows(s: State, t: State, p: nat, q: nat) {
    p in s.payloads && q in t.payloads && forall v :: View(t, q, v) == View(s, p, v)
  }

  /** The child has the parent's VMAs, over payloads that show what the parent's payloads showed. */
  ghost predicate ShowsSame(s: State, t: State, vmas: seq<Vma>, copy: seq<Vma>) {
    && |copy| == |vmas|
    && forall u :: var i, j := SiteOf(vmas, u), SiteOf(copy, u);
         && (i >= 0 <==> j >= 0)
         && (i >= 0 ==>
             copy[j] == vmas[i].(payload := copy[j].payload) && Shows(s, t, vmas[i].payload, copy[j].payload))
  }

  /** q holds the same frames as p, or is p. */
  ghost predicate SameBacking(s: State, p: nat, q: nat) {
    && p in s.payloads && q in s.payloads && s.payloads[p].shared == s.payloads[q].shared
    && forall v :: Has(s, p, v) ==> Has(s, q, v) && FrameOf(s, q, v) == FrameOf(s, p, v)
  }

  lemma CopiesStart(vmas: seq<Vma>)
    ensures Copies(vmas, [], [], [], 0)
  {}

  lemma MappedAt(s: State, spaces: map<nat, Space>, t: nat, i: nat)
    requires Mapped(s, spaces) && t in spaces && i < |spaces[t].vmas|
    ensures Separated(spaces[t].vmas) && spaces[t].vmas[i].payload in s.payloads &&
            V.UserArea(spaces[t].vmas[i].begin, spaces[t].vmas[i].end)
    ensures var m := spaces[t].vmas[i]; m.begin >= m.end ==> s.payloads[m.payload].memsz <= m.memOffset / PAGE * PAGE
    ensures forall t', j :: t' in spaces && 0 <= j < |spaces[t'].vmas| ==> spaces[t'].vmas[j].payload in s.payloads
  {
    hide Separated, SiteOf, Target;
    assert Placed(s, spaces[t]);
    forall t', j | t' in spaces && 0 <= j < |spaces[t'].vmas| ensures spaces[t'].vmas[j].payload in s.payloads {
      assert Placed(s, spaces[t']);
    }
  }

  lemma SiteSame(m: Vma, n: Vma, u: nat)
    requires n == m.(payload := n.payload) && Covers(m, u)
    ensures Covers(n, u) && Target(n, u) == Target(m, u)
  {}

  lemma GuardedAt(s: State, a: Space, u: nat)
    ensures u !in a.ptes || !a.ptes[u].w ==> Guarded(s, a, u)
    ensures SiteOf(a.vmas, u) >= 0 ==>
              var p := a.vmas[SiteOf(a.vmas, u)].payload; p in s.payloads && s.payloads[p].shared ==> Guarded(s, a, u)
  {}

  lemma WeakPoints(s: State, spaces: map<nat, Space>, src: nat, i: int, u: nat)
    requires Weak(s, spaces, src, i)
    ensures Points(s, spaces[src], u)
  {
    hide SiteOf, Target, Holders;
  }

  /** What clone_payload of VMA i's payload does, shared or not. */
  lemma CloneEither(s: State, s': State, spaces: map<nat, Space>, src: nat, i: nat, p: nat, id: nat)
    requires Mapped(s, spaces) && Weak(s, spaces, src, i) && i < |spaces[src].vmas| && spaces[src].vmas[i].payload == p
    requires p in s.payloads && id !in s.payloads && (if s.payloads[p].shared then s' == s else Cloned(s, s', p, id))
    ensures Weak(s', spaces, src, i) && Mapped(s', spaces)
    ensures var q := if s.payloads[p].shared then p else id; SameBacking(s', p, q) && Shows(s, s', p, q)
    ensures forall r :: r in s.payloads ==> SameView(s, s', r)
    ensures forall r :: r in s'.payloads ==> r in s.payloads || (!s.payloads[p].shared && r == id)
    ensures s'.payloads[p].memsz == s.payloads[p].memsz &&
            (!s.payloads[p].shared ==> s'.payloads[id].memsz == s.payloads[p].memsz)
    ensures forall r :: r in s.payloads ==> r in s'.payloads && s'.payloads[r].shared == s.payloads[r].shared
  {
    hide SiteOf, Target, Holders, Separated, View, Mapped, Weak;
    if !s.payloads[p].shared {
      CloneWeak(s, s', spaces, src, i, p, id);
    }
  }

  lemma ShowsNext(s0: State, s: State, s': State, vmas: seq<Vma>, pay: seq<nat>, i: nat, q: nat)
    requires i < |vmas| && |pay| == i && (forall j :: 0 <= j < i ==> Shows(s0, s, vmas[j].payload, pay[j]))
    requires (forall r :: r in s0.payloads ==> SameView(s0, s, r)) &&
             (forall r :: r in s.payloads ==> SameView(s, s', r))
    requires Shows(s, s', vmas[i].payload, q) && vmas[i].payload in s0.payloads
    ensures forall j :: 0 <= j < i + 1 ==> Shows(s0, s', vmas[j].payload, (pay + [q])[j])
    ensures forall r :: r in s0.payloads ==> SameView(s0, s', r)
  {
    hide View;
    forall j | 0 <= j < i + 1 ensures Shows(s0, s', vmas[j].payload, (pay + [q])[j]) {
      if j < i {
        assert Shows(s0, s, vmas[j].payload, pay[j]) && SameView(s, s', pay[j]);
      } else {
        assert SameView(s0, s, vmas[i].payload);
      }
    }
    forall r | r in s0.payloads ensures SameView(s0, s', r) {
      assert SameView(s0, s, r) && SameView(s, s', r);
    }
  }

  lemma SeparatedAt(s: State, spaces: map<nat, Space>, t: nat)
    requires Mapped(s, spaces) && t in spaces
    ensures Separated(spaces[t].vmas) && forall j :: 0 <= j < |spaces[t].vmas| ==>
            spaces[t].vmas[j].payload in s.payloads
  {
    hide Separated, SiteOf, Target;
    assert Placed(s, spaces[t]);
  }

  lemma CopySite(vmas: seq<Vma>, copy: seq<Vma>, from: seq<nat>, pay: seq<nat>, u: nat)
    requires Separated(vmas) && Copies(vmas, copy, from, pay, |vmas|)
    ensures var i, j := SiteOf(vmas, u), SiteOf(copy, u);
            (i >= 0 <==> j >= 0) && (i >= 0 ==> i == from[j])
  {
    hide Target, Separated, Covers;
    CopiesSeparated(vmas, copy, from, pay, |vmas|);
    var i, j := SiteOf(vmas, u), SiteOf(copy, u);
    if i >= 0 {
      assert i in from;
      var a :| 0 <= a < |from| && from[a] == i;
      CoverSame(vmas[i], pay[i], u);
      SiteIs(copy, a, u);
    }
    if j >= 0 {
      CoverSame(vmas[from[j]], pay[from[j]], u);
      SiteIs(vmas, from[j], u);
    }
  }

  lemma CoverSame(m: Vma, q: nat, u: nat)
    ensures Covers(m.(payload := q), u) == Covers(m, u)
  {}

  lemma CopiesShow(s0: State, s: State, vmas: seq<Vma>, copy: seq<Vma>, from: seq<nat>, pay: seq<nat>)
    requires Separated(vmas) && Copies(vmas, copy, from, pay, |vmas|)
    requires forall j :: 0 <= j < |vmas| ==> Shows(s0, s, vmas[j].payload, pay[j])
    ensures ShowsSame(s0, s, vmas, copy)
  {
    hide Covers, Target, Shows;
    forall u ensures var i, j := SiteOf(vmas, u), SiteOf(copy, u);
         && (i >= 0 <==> j >= 0)
         && (i >= 0 ==>
             copy[j] == vmas[i].(payload := copy[j].payload) && Shows(s0, s, vmas[i].payload, copy[j].payload))
    {
      CopySite(vmas, copy, from, pay, u);
    }
  }

  /** A space that maps nothing disturbs no other. */
  lemma SpaceAdded(s: State, spaces: map<nat, Space>, t: nat)
    requires Mapped(s, spaces) && Safe(s, spaces) && t !in spaces
    ensures Mapped(s, spaces[t := Space([], map[])]) && Safe(s, spaces[t := Space([], map[])])
  {
    hide SiteOf, Target, Holders, Separated;
    var spaces' := spaces[t := Space([], map[])];
    EmptySeparated();
    forall a | a in spaces' ensures Placed(s, spaces'[a]) {
      if a != t { assert Placed(s, spaces[a]); }
    }
    forall a, u, b, v ensures Once(s, spaces', a, u, b, v) { assert Once(s, spaces, a, u, b, v); }
    forall a, i, b, j ensures Apart(s, spaces', a, i, b, j) { assert Apart(s, spaces, a, i, b, j); }
    forall a, u | a in spaces' ensures Points(s, spaces'[a], u) && Exclusive(s, spaces'[a], u) {
      if a != t { assert Points(s, spaces[a], u) && Exclusive(s, spaces[a], u); }
    }
  }

  lemma EmptySeparated()
    ensures Separated([])
  {}

  class AddressSpaces {
    const sys: MemorySystem
    var spaces: map<nat, Space>

    constructor (m: MemorySystem)
      ensures sys == m && spaces == map[] && (Inv(m.S()) ==> Valid())
    {
      sys := m;
      spaces := map[];
    }

    /** A task memory manager with no VMA and an empty page table. */
    method NewSpace(t: nat)
      requires Valid() && t !in spaces
      modifies `spaces
      ensures Valid() && spaces == old(spaces)[t := Space([], map[])]
    {
      hide Inv, Target, Holders;
      SpaceAdded(sys.S(), spaces, t);
      spaces := spaces[t := Space([], map[])];
    }

    ghost predicate Valid()
      reads this, sys
    {
      Inv(sys.S()) && Mapped(sys.S(), spaces) && Safe(sys.S(), spaces)
    }

    /** locate: the first VMA that contains addr, or is empty and begins there. */
    method Locate(t: nat, addr: nat) returns (i: int)
      requires t in spaces
      ensures -1 <= i < |spaces[t].vmas|
      ensures i >= 0 ==> FirstLocated(spaces[t].vmas, addr, i)
      ensures i < 0 ==> forall j :: 0 <= j < |spaces[t].vmas| ==> !Located(spaces[t].vmas[j], addr)
    {
      for j := 0 to |spaces[t].vmas|
        invariant forall k :: 0 <= k < j ==> !Located(spaces[t].vmas[k], addr)
      {
        if Located(spaces[t].vmas[j], addr) { return j; }
      }
      return -1;
    }

    /** Some VMA is found for addr and the payload page behind it is present or obtainable. */
    ghost predicate CanMap(t: nat, addr: nat)
      requires t in spaces
      reads this, sys
    {
      exists i :: FirstLocated(spaces[t].vmas, addr, i) &&
        var m := spaces[t].vmas[i]; m.payload in sys.payloads && sys.Ensurable(m.payload, Target(m, addr / PAGE))
    }

    /** The page at addr is present and copy-on-write, over an unshared payload page that can be made exclusive. */
    ghost predicate CanCopy(t: nat, addr: nat)
      requires t in spaces
      reads this, sys
    {
      && addr / PAGE in spaces[t].ptes && spaces[t].ptes[addr / PAGE].cow
      && exists i :: FirstLocated(spaces[t].vmas, addr, i) &&
           var m := spaces[t].vmas[i];
           m.payload in sys.payloads && !sys.payloads[m.payload].shared &&
               sys.Forkable(m.payload, Target(m, addr / PAGE))
    }

    lemma Found(t: nat, addr: nat, i: int)
      requires t in spaces && FirstLocated(spaces[t].vmas, addr, i)
      ensures var m := spaces[t].vmas[i];
              && (CanMap(t, addr) <==> m.payload in sys.payloads && sys.Ensurable(m.payload, Target(m, addr / PAGE)))
              && (CanCopy(t, addr) <==>
                  addr / PAGE in spaces[t].ptes && spaces[t].ptes[addr / PAGE].cow && m.payload in sys.payloads
                  && !sys.payloads[m.payload].shared && sys.Forkable(m.payload, Target(m, addr / PAGE)))
    {
      hide Target, Located, MemorySystem.Ensurable, MemorySystem.Forkable;
      forall j | FirstLocated(spaces[t].vmas, addr, j) ensures j == i {}
    }

    lemma NotFound(t: nat, addr: nat)
      requires t in spaces && forall j :: 0 <= j < |spaces[t].vmas| ==> !Located(spaces[t].vmas[j], addr)
      ensures !CanMap(t, addr) && !CanCopy(t, addr)
    {}

    /** on_np: a page-not-present fault at addr. */
    method OnNp(t: nat, addr: nat) returns (ok: bool)
      requires Valid() && t in spaces
      modifies this, sys
      ensures Valid() && spaces.Keys == old(spaces).Keys && Unobservable(old(sys.S()), sys.S())
      ensures forall t' :: t' in spaces ==> spaces[t'].vmas == old(spaces)[t'].vmas
      ensures !ok ==> spaces == old(spaces)
      ensures ok ==> var u := addr / PAGE; u in spaces[t].ptes && OneEntry(old(spaces), spaces, t, u)
      ensures ok && addr / PAGE !in old(spaces)[t].ptes ==>
                var u := addr / PAGE; var i := SiteOf(spaces[t].vmas, u);
                i >= 0 && Grants(spaces[t].vmas[i], spaces[t].ptes[u])
      ensures ok <==> old(CanMap(t, addr))
      ensures ok ==> ShowsAt(sys.S(), spaces[t], addr)
    {
      hide Inv, SiteOf, Holders, Touched, Unobservable, View, OffsetFor, Mapped, Safe, CanMap, CanCopy, ShowsAt, SoleAt,
          MemorySystem.Ensurable, MemorySystem.Forkable;
      UnobservableSelf(sys.S());
      var i := Locate(t, addr);
      if i < 0 {
        NotFound(t, addr);
        return false;
      }
      Found(t, addr, i);
      FoundThere(spaces[t].vmas, addr, i);
      hide FirstLocated, Located;
      var m, u := spaces[t].vmas[i], addr / PAGE;
      var offset := OffsetFor(m, u);
      ghost var s := sys.S();
      PlacedAt(s, spaces, t, i, addr);
      var got := sys.EnsurePage(m.payload, offset);
      UnobservableKeys(s, sys.S());
      MappedTouch(s, sys.S(), spaces, spaces);
      EnsureSafe(s, sys.S(), spaces, m.payload, offset / PAGE);
      if got.Err? { return false; }
      MapFault(t, u, i);
      EntryShows(sys.S(), spaces, t, i, addr);
      ok := true;
    }

    /** on_wp: a write to a write-protected page at addr. */
    method OnWp(t: nat, addr: nat) returns (ok: bool)
      requires Valid() && t in spaces
      modifies this, sys
      ensures Valid() && spaces.Keys == old(spaces).Keys && Unobservable(old(sys.S()), sys.S())
      ensures forall t' :: t' in spaces ==>
              spaces[t'].vmas == old(spaces)[t'].vmas && spaces[t'].ptes.Keys == old(spaces)[t'].ptes.Keys
      ensures ok ==> var u := addr / PAGE; var i := SiteOf(spaces[t].vmas, u);
                i >= 0 && u in spaces[t].ptes && old(spaces)[t].ptes[u].cow && !spaces[t].ptes[u].cow
                && Grants(spaces[t].vmas[i], spaces[t].ptes[u]) && OneEntry(old(spaces), spaces, t, u)
                && var m := spaces[t].vmas[i]; Holders(sys.S(), spaces[t].ptes[u].frame) == {(m.payload, Target(m, u))}
      ensures !ok ==> spaces == old(spaces) && sys.payloads == old(sys.payloads)
      ensures ok <==> old(CanCopy(t, addr))
      ensures ok ==> ShowsAt(sys.S(), spaces[t], addr) && SoleAt(sys.S(), spaces[t], addr)
    {
      hide Inv, SiteOf, Holders, Touched, Unobservable, View, OffsetFor, Mapped, Safe, CanMap, CanCopy, ShowsAt, SoleAt,
          MemorySystem.Ensurable, MemorySystem.Dry;
      UnobservableSelf(sys.S());
      var i := Locate(t, addr);
      if i < 0 {
        NotFound(t, addr);
        return false;
      }
      Found(t, addr, i);
      FoundThere(spaces[t].vmas, addr, i);
      hide FirstLocated, Located;
      var m, u := spaces[t].vmas[i], addr / PAGE;
      ghost var s := sys.S();
      PlacedAt(s, spaces, t, i, addr);
      if sys.payloads[m.payload].shared { return false; }
      if u !in spaces[t].ptes { return false; }
      if !spaces[t].ptes[u].cow { return false; }
      var offset := OffsetFor(m, u);
      var got := sys.Fork(m.payload, offset);
      UnobservableKeys(s, sys.S());
      MappedTouch(s, sys.S(), spaces, spaces);
      if got.Err? {
        SafeSame(s, sys.S(), spaces);
        return false;
      }
      RestoreEntry(t, u, i, s);
      EntryShows(sys.S(), spaces, t, i, addr);
      SoleIs(sys.S(), spaces, t, i, addr);
      ok := true;
    }

    /** The mapping part of on_wp, after the fork in state s made the page exclusive. */
    method RestoreEntry(t: nat, u: nat, i: nat, ghost s: State)
      requires Inv(sys.S()) && Mapped(sys.S(), spaces) && Mapped(s, spaces) && Safe(s, spaces) && t in spaces &&
               i < |spaces[t].vmas|
      requires SiteOf(spaces[t].vmas, u) == i && u in spaces[t].ptes
      requires var m := spaces[t].vmas[i];
               && m.payload in s.payloads && !s.payloads[m.payload].shared
               && Touched(s, sys.S(), m.payload, Target(m, u)) && Has(sys.S(), m.payload, Target(m, u)) &&
                   Hint(sys.S(), m.payload, Target(m, u)) == 1
      modifies `spaces
      ensures Valid() && OneEntry(old(spaces), spaces, t, u) && u in spaces[t].ptes && !spaces[t].ptes[u].cow
      ensures Grants(spaces[t].vmas[i], spaces[t].ptes[u])
      ensures var m := spaces[t].vmas[i]; Holders(sys.S(), spaces[t].ptes[u].frame) == {(m.payload, Target(m, u))}
    {
      hide Inv, SiteOf, Holders, Touched, OffsetFor, Mapped, Safe;
      var m := spaces[t].vmas[i];
      forall t': nat, u': nat | t' in spaces && (t', u') != (t, u)
        ensures Points(sys.S(), spaces[t'], u') && Exclusive(sys.S(), spaces[t'], u')
      {
        ForkSafe(s, sys.S(), spaces, t, u, t', u');
      }
      SoleHolder(sys.S(), m.payload, OffsetFor(m, u) / PAGE);
      var e := Pte(sys.payloads[m.payload].pages[OffsetFor(m, u) / PAGE].frame, m.r, m.r && m.w, m.r && m.x, false);
      SetPteKeeps(sys.S(), spaces, t, u, e);
      MappedTouch(sys.S(), sys.S(), spaces, spaces[t := spaces[t].(ptes := spaces[t].ptes[u := e])]);
      spaces := spaces[t := spaces[t].(ptes := spaces[t].ptes[u := e])];
    }

    /** The mapping part of on_np, for a page its payload holds. */
    method MapFault(t: nat, u: nat, i: nat)
      requires Valid() && t in spaces && i < |spaces[t].vmas| && SiteOf(spaces[t].vmas, u) == i
      requires Has(sys.S(), spaces[t].vmas[i].payload, Target(spaces[t].vmas[i], u))
      modifies `spaces
      ensures Valid() && spaces.Keys == old(spaces).Keys && u in spaces[t].ptes && OneEntry(old(spaces), spaces, t, u)
      ensures u !in old(spaces)[t].ptes ==> Grants(old(spaces)[t].vmas[i], spaces[t].ptes[u])
      ensures forall t' :: t' in spaces ==> spaces[t'].vmas == old(spaces)[t'].vmas
    {
      hide Inv, SiteOf, Holders, Mapped, Safe, OffsetFor;
      var m := spaces[t].vmas[i];
      var page := sys.payloads[m.payload].pages[OffsetFor(m, u) / PAGE];
      SoleHolder(sys.S(), m.payload, OffsetFor(m, u) / PAGE);
      var w := m.r && m.w;
      var cow := !sys.payloads[m.payload].shared && w && page.refcount > 1;
      if u !in spaces[t].ptes {
        SetEntry(t, u, Pte(page.frame, m.r, w && !cow, m.r && m.x, false));
      }
      if cow { ProtectCow(t, u, m.r, m.r && m.x); }
    }

    /** Install an entry that points at its payload's frame, writable only if that frame is exclusive. */
    method SetEntry(t: nat, u: nat, e: Pte)
      requires Valid() && t in spaces && SiteOf(spaces[t].vmas, u) >= 0
      requires var m := spaces[t].vmas[SiteOf(spaces[t].vmas, u)];
               && Has(sys.S(), m.payload, Target(m, u)) && FrameOf(sys.S(), m.payload, Target(m, u)) == e.frame
               && (e.w && !sys.payloads[m.payload].shared ==> Holders(sys.S(), e.frame) == {(m.payload, Target(m, u))})
      modifies `spaces
      ensures Valid() && spaces == old(spaces)[t := old(spaces)[t].(ptes := old(spaces)[t].ptes[u := e])]
    {
      hide Inv, SiteOf, Target, Holders, Mapped;
      SetPteKeeps(sys.S(), spaces, t, u, e);
      MappedTouch(sys.S(), sys.S(), spaces, spaces[t := spaces[t].(ptes := spaces[t].ptes[u := e])]);
      spaces := spaces[t := spaces[t].(ptes := spaces[t].ptes[u := e])];
    }

    /** protect_cow on a present entry. */
    method ProtectCow(t: nat, u: nat, r: bool, x: bool)
      requires Valid() && t in spaces && u in spaces[t].ptes
      modifies `spaces
      ensures Valid()
      ensures var a := old(spaces)[t];
              spaces == old(spaces)[t := a.(ptes := a.ptes[u := a.ptes[u].(r := r, w := false, x := x, cow := true)])]
    {
      hide Inv, SiteOf, Target, Holders, Mapped;
      assert Points(sys.S(), spaces[t], u);
      SetEntry(t, u, spaces[t].ptes[u].(r := r, w := false, x := x, cow := true));
    }

    /**
     clone_to_cow into a fresh space: afterwards both spaces are safe, and the child's VMAs show what
     the parent's showed.  ids are the addresses the cloned payloads get.
     */
    method CloneToCow(src: nat, dst: nat, ids: seq<nat>)
      requires Valid() && src in spaces && dst in spaces && src != dst && spaces[dst] == Space([], map[])
      requires |ids| == |spaces[src].vmas| && (forall i :: 0 <= i < |ids| ==> ids[i] !in sys.payloads)
      requires forall i, j :: 0 <= i < j < |ids| ==> ids[i] != ids[j]
      modifies this, sys
      ensures Inv(sys.S()) && spaces.Keys == old(spaces).Keys
      ensures forall p :: p in old(sys.payloads) ==> SameView(old(sys.S()), sys.S(), p)
      ensures forall t :: t in spaces && t != src && t != dst ==> spaces[t] == old(spaces)[t]
      ensures spaces[src].vmas == old(spaces)[src].vmas
      ensures Valid() && ShowsSame(old(sys.S()), sys.S(), spaces[src].vmas, spaces[dst].vmas)
      ensures spaces[dst].ptes.Keys == spaces[src].ptes.Keys == old(spaces)[src].ptes.Keys
      ensures forall u :: u in old(spaces)[src].ptes ==>
                var e, shared := old(spaces)[src].ptes[u], SharedAt(old(sys.S()), old(spaces)[src].vmas, u);
                ChildOf(e, shared, spaces[dst].ptes[u]) && ParentOf(e, shared, spaces[src].ptes[u])
    {
      hide Inv, SiteOf, Holders, Mapped, Safe, Weak, View, Separated, Cloned, Copies, Inherited, AreaCloned, ChildOf,
          ParentOf, SharedAt;
      WeakStart(sys.S(), spaces, src);
      ghost var s0 := sys.S();
      ghost var pay: seq<nat>, from: seq<nat> := [], [];
      var vmas := spaces[src].vmas;
      SeparatedAt(s0, spaces, src);
      CopiesStart(vmas);
      ghost var ptes := spaces[src].ptes;
      InheritedStart(s0, vmas, ptes);
      for i := 0 to |vmas|
        invariant Inv(sys.S()) && Mapped(sys.S(), spaces) && Weak(sys.S(), spaces, src, i)
        invariant spaces.Keys == old(spaces).Keys && spaces[src].vmas == vmas
        invariant forall t :: t in spaces && t != src && t != dst ==> spaces[t] == old(spaces)[t]
        invariant forall p :: p in s0.payloads ==> SameView(s0, sys.S(), p)
        invariant forall j :: i <= j < |ids| ==> ids[j] !in sys.payloads
        invariant Copies(vmas, spaces[dst].vmas, from, pay, i)
        invariant |from| == |spaces[dst].vmas| == |pay| == i
        invariant forall j :: 0 <= j < i ==> Shows(s0, sys.S(), vmas[j].payload, pay[j])
        invariant forall p :: p in s0.payloads ==> p in sys.payloads && sys.payloads[p].shared == s0.payloads[p].shared
        invariant Inherited(s0, vmas, ptes, spaces[src].ptes, spaces[dst].ptes, i)
      {
        ghost var s, copy, parent, child := sys.S(), spaces[dst].vmas, spaces[src].ptes, spaces[dst].ptes;
        var q, k := CloneVma(src, dst, i, ids[i], from, pay);
        ShowsNext(s0, s, sys.S(), vmas, pay, i, q);
        InheritedNext(s0, vmas, ptes, parent, spaces[src].ptes, child, spaces[dst].ptes, i,
            s0.payloads[vmas[i].payload].shared);
        CopiesNext(vmas, copy, from, pay, i, k, q);
        from, pay := from[..k] + [i] + from[k..], pay + [q];
      }
      WeakEnd(sys.S(), spaces, src);
      SeparatedAt(sys.S(), spaces, src);
      CopiesShow(s0, sys.S(), vmas, spaces[dst].vmas, from, pay);
      InheritedAll(s0, old(spaces), src, spaces[src].ptes, spaces[dst].ptes);
    }

    /** One round of the clone loop: clone the payload, add the VMA to dst and share its pages. */
    method CloneVma(src: nat, dst: nat, i: nat, id: nat, ghost from: seq<nat>, ghost pay: seq<nat>) returns (q: nat,
        k: nat)
      requires Inv(sys.S()) && src in spaces && dst in spaces && src != dst && i < |spaces[src].vmas| &&
               id !in sys.payloads
      requires Mapped(sys.S(), spaces) && Weak(sys.S(), spaces, src, i) &&
               Copies(spaces[src].vmas, spaces[dst].vmas, from, pay, i)
      modifies this, sys
      ensures Inv(sys.S()) && spaces.Keys == old(spaces).Keys && k <= |old(spaces)[dst].vmas|
      ensures forall t :: t in spaces && t != src && t != dst ==> spaces[t] == old(spaces)[t]
      ensures spaces[src].vmas == old(spaces)[src].vmas
      ensures forall r :: r in old(sys.payloads) ==> SameView(old(sys.S()), sys.S(), r)
      ensures forall r :: r in sys.payloads ==> r in old(sys.payloads) || r == id
      ensures Shows(old(sys.S()), sys.S(), spaces[src].vmas[i].payload, q)
      ensures Mapped(sys.S(), spaces) && Weak(sys.S(), spaces, src, i + 1)
      ensures var v := old(spaces)[dst].vmas; spaces[dst].vmas == v[..k] + [spaces[src].vmas[i].(payload := q)] + v[k..]
      ensures forall r :: r in old(sys.payloads) ==>
              r in sys.payloads && sys.payloads[r].shared == old(sys.payloads)[r].shared
      ensures spaces[src].vmas[i].payload in old(sys.payloads)
      ensures AreaCloned(old(spaces)[src].ptes, spaces[src].ptes, old(spaces)[dst].ptes, spaces[dst].ptes,
                         spaces[src].vmas[i], old(sys.payloads)[spaces[src].vmas[i].payload].shared)
    {
      hide Inv, SiteOf, Holders, Mapped, Weak, View, Separated, Cloned, Copies, SameBacking, AreaCloned;
      var m := spaces[src].vmas[i];
      ghost var s := sys.S();
      MappedAt(s, spaces, src, i);
      q := sys.ClonePayload(m.payload, id);
      CloneEither(s, sys.S(), spaces, src, i, m.payload, id);
      k := AddCopy(src, dst, i, q, from, pay);
      ClonePages(src, dst, i, k);
    }

    /** add_vma for the copy of VMA i over payload q: nothing refuses it. */
    method AddCopy(src: nat, dst: nat, i: nat, q: nat, ghost from: seq<nat>, ghost pay: seq<nat>) returns (k: nat)
      requires src in spaces && dst in spaces && src != dst && i < |spaces[src].vmas| && q in sys.payloads
      requires Mapped(sys.S(), spaces) && Weak(sys.S(), spaces, src, i) &&
               Copies(spaces[src].vmas, spaces[dst].vmas, from, pay, i)
      requires var m := spaces[src].vmas[i]; m.begin >= m.end ==> sys.payloads[q].memsz <= m.memOffset / PAGE * PAGE
      requires sys.payloads[q].shared || forall t, j :: t in spaces && 0 <= j < |spaces[t].vmas| ==>
               spaces[t].vmas[j].payload != q
      modifies `spaces
      ensures Mapped(sys.S(), spaces) && Weak(sys.S(), spaces, src, i)
      ensures k <= |old(spaces)[dst].vmas| &&
              spaces == Joined(old(spaces), dst, old(spaces)[src].vmas[i].(payload := q), k)
    {
      hide SiteOf, Holders, Mapped, Weak, Separated, Copies, Covers;
      var m := spaces[src].vmas[i];
      MappedAt(sys.S(), spaces, src, i);
      if m.begin < m.end { NotBusy(spaces[src].vmas, spaces[dst].vmas, from, pay, i); }
      var added: V.Outcome;
      added, k := V.Place(spaces[dst].vmas, m);
      assert added == V.Ok;
      CopiesShape(spaces[src].vmas, spaces[dst].vmas, from, pay, i);
      CopiesNext(spaces[src].vmas, spaces[dst].vmas, from, pay, i, k, q);
      JoinWeak(sys.S(), spaces, src, dst, i, m.(payload := q), k);
      JoinMapped(sys.S(), spaces, dst, m.(payload := q), k);
      spaces := Joined(spaces, dst, m.(payload := q), k);
    }

    /** A new payload without pages, mapped by m at page boundaries, joins space t. */
    method AddPayload(t: nat, m: Vma, payload: Payload) returns (r: V.Outcome, k: nat)
      requires Valid() && t in spaces && Aligned(spaces[t].vmas) && m.begin % PAGE == 0 && m.end % PAGE == 0
      requires m.payload !in sys.payloads && payload.pages == map[]
      requires m.begin == m.end ==> payload.memsz <= m.memOffset / PAGE * PAGE
      modifies this, sys`payloads
      ensures Valid() && spaces.Keys == old(spaces).Keys
      ensures r == V.InvalidParam <==> !V.UserArea(m.begin, m.end)
      ensures r == V.Busy <==>
              (V.UserArea(m.begin, m.end) && m.begin < m.end
              && exists j :: 0 <= j < |old(spaces)[t].vmas| && V.Meets(old(spaces)[t].vmas[j], m.begin, m.end))
      ensures r != V.Ok ==> spaces == old(spaces) && sys.payloads == old(sys.payloads)
      ensures r == V.Ok ==>
                && V.InsertsAt(old(spaces)[t].vmas, m, k) && spaces == Joined(old(spaces), t, m, k)
                && Aligned(spaces[t].vmas) && sys.payloads == old(sys.payloads)[m.payload := payload]
      ensures r == V.Ok && V.Sorted(old(spaces)[t].vmas) ==> V.Sorted(spaces[t].vmas)
    {
      hide Inv, SiteOf, Holders, Mapped, Safe, View, Separated, Covers, V.Sorted;
      r, k := V.Place(spaces[t].vmas, m);
      if r != V.Ok { return; }
      if V.Sorted(spaces[t].vmas) { V.SortedInsert(spaces[t].vmas, m, k); }
      MappedAll(sys.S(), spaces);
      JoinSeparated(spaces[t].vmas, m, k);
      CreateMapped(sys.S(), spaces, m.payload, payload);
      CreateSafe(sys.S(), spaces, m.payload, payload);
      sys.Create(m.payload, payload);
      JoinMapped(sys.S(), spaces, t, m, k);
      JoinSafe(sys.S(), spaces, t, m, k);
      spaces := Joined(spaces, t, m, k);
    }

    /** clone_vma_pages_to_cow for VMA i of src, whose copy is VMA k of dst. */
    method ClonePages(src: nat, dst: nat, i: nat, k: nat)
      requires Mapped(sys.S(), spaces) && Weak(sys.S(), spaces, src, i) && src in spaces && dst in spaces && src != dst
      requires i < |spaces[src].vmas| && k < |spaces[dst].vmas|
      requires var m, n := spaces[src].vmas[i], spaces[dst].vmas[k];
               n == m.(payload := n.payload) && SameBacking(sys.S(), m.payload, n.payload)
      modifies `spaces
      ensures Mapped(sys.S(), spaces) && Weak(sys.S(), spaces, src, i + 1) && spaces.Keys == old(spaces).Keys
      ensures forall t :: t in spaces ==> spaces[t].vmas == old(spaces)[t].vmas
      ensures forall t :: t in spaces && t != src && t != dst ==> spaces[t] == old(spaces)[t]
      ensures AreaCloned(old(spaces)[src].ptes, spaces[src].ptes, old(spaces)[dst].ptes, spaces[dst].ptes,
                         spaces[src].vmas[i], sys.payloads[spaces[src].vmas[i].payload].shared)
    {
      hide SiteOf, Holders, Mapped, Weak, Points, Guarded, PageCloned, PageKept;
      var m := spaces[src].vmas[i];
      ghost var shared := sys.payloads[m.payload].shared;
      hide SameBacking;
      ghost var p0, c0 := spaces[src].ptes, spaces[dst].ptes;
      NothingCloned(p0, c0);
      var u, end := m.begin / PAGE, if m.begin < m.end then CeilPage(m.end) else m.begin / PAGE;
      while u < end
        invariant Mapped(sys.S(), spaces) && Weak(sys.S(), spaces, src, i) && spaces.Keys == old(spaces).Keys
        invariant forall t :: t in spaces ==> spaces[t].vmas == old(spaces)[t].vmas
        invariant forall t :: t in spaces && t != src && t != dst ==> spaces[t] == old(spaces)[t]
        invariant forall v: nat :: Covers(m, v) && v < u ==> Guarded(sys.S(), spaces[src], v)
        invariant forall v: nat ::
                  if Covers(m, v) && v < u then PageCloned(p0, spaces[src].ptes, c0, spaces[dst].ptes, v, shared)
                      else PageKept(p0, spaces[src].ptes, c0, spaces[dst].ptes, v)
      {
        ghost var p1, c1 := spaces[src].ptes, spaces[dst].ptes;
        ClonePage(src, dst, i, k, u);
        forall v: nat ensures if Covers(m, v) && v < u + 1
            then PageCloned(p0, spaces[src].ptes, c0, spaces[dst].ptes, v, shared)
                else PageKept(p0, spaces[src].ptes, c0, spaces[dst].ptes, v) {
          PageThen(p0, p1, spaces[src].ptes, c0, c1, spaces[dst].ptes, v, shared);
        }
        u := u + 1;
      }
      WeakNext(sys.S(), spaces, src, i);
    }

    /** One page of clone_vma_pages_to_cow. */
    method ClonePage(src: nat, dst: nat, i: nat, k: nat, u: nat)
      requires Mapped(sys.S(), spaces) && Weak(sys.S(), spaces, src, i) && src in spaces && dst in spaces && src != dst
      requires i < |spaces[src].vmas| && k < |spaces[dst].vmas| && Covers(spaces[src].vmas[i], u)
      requires var m, n := spaces[src].vmas[i], spaces[dst].vmas[k];
               n == m.(payload := n.payload) && SameBacking(sys.S(), m.payload, n.payload)
      modifies `spaces
      ensures Mapped(sys.S(), spaces) && Weak(sys.S(), spaces, src, i) && spaces.Keys == old(spaces).Keys
      ensures forall t :: t in spaces ==> spaces[t].vmas == old(spaces)[t].vmas
      ensures forall t :: t in spaces && t != src && t != dst ==> spaces[t] == old(spaces)[t]
      ensures forall v :: v == u || Guarded(sys.S(), old(spaces)[src], v) ==> Guarded(sys.S(), spaces[src], v)
      ensures PageCloned(old(spaces)[src].ptes, spaces[src].ptes, old(spaces)[dst].ptes, spaces[dst].ptes, u,
              sys.payloads[spaces[src].vmas[i].payload].shared)
      ensures forall v: nat :: v != u ==>
              PageKept(old(spaces)[src].ptes, spaces[src].ptes, old(spaces)[dst].ptes, spaces[dst].ptes, v)
    {
      hide SiteOf, Holders, Mapped, Weak, Target, Covers, Separated, Guarded, PageCloned, PageKept;
      ghost var p, c, shared := spaces[src].ptes, spaces[dst].ptes, sys.payloads[spaces[src].vmas[i].payload].shared;
      MappedAt(sys.S(), spaces, src, i);
      MappedAt(sys.S(), spaces, dst, k);
      SiteIs(spaces[src].vmas, i, u);
      SiteSame(spaces[src].vmas[i], spaces[dst].vmas[k], u);
      SiteIs(spaces[dst].vmas, k, u);
      GuardedAt(sys.S(), spaces[src], u);
      EntriesCloned(p, c, u, shared);
      if u !in spaces[src].ptes { return; }
      WeakPoints(sys.S(), spaces, src, i, u);
      var e := spaces[src].ptes[u];
      var cow := !sys.payloads[spaces[src].vmas[i].payload].shared && (e.w || e.cow);
      if u !in spaces[dst].ptes {
        SetChild(src, dst, i, u, Pte(e.frame, e.r, e.w && !cow, e.x, cow));
      }
      if cow {
        SetParent(src, i, u, e.(w := false, cow := true));
      }
    }

    method SetChild(src: nat, dst: nat, i: nat, u: nat, e: Pte)
      requires src in spaces && dst in spaces && dst != src && SiteOf(spaces[dst].vmas, u) >= 0
      requires Mapped(sys.S(), spaces) && Weak(sys.S(), spaces, src, i)
      requires var m := spaces[dst].vmas[SiteOf(spaces[dst].vmas, u)];
               && Has(sys.S(), m.payload, Target(m, u)) && FrameOf(sys.S(), m.payload, Target(m, u)) == e.frame
               && (e.w ==> sys.payloads[m.payload].shared)
      modifies `spaces
      ensures Mapped(sys.S(), spaces) && Weak(sys.S(), spaces, src, i)
      ensures spaces == old(spaces)[dst := old(spaces)[dst].(ptes := old(spaces)[dst].ptes[u := e])]
    {
      hide SiteOf, Holders, Mapped, Weak, Target;
      DstPte(sys.S(), spaces, src, dst, i, u, e);
      MappedTouch(sys.S(), sys.S(), spaces, spaces[dst := spaces[dst].(ptes := spaces[dst].ptes[u := e])]);
      spaces := spaces[dst := spaces[dst].(ptes := spaces[dst].ptes[u := e])];
    }

    method SetParent(src: nat, i: nat, u: nat, e: Pte)
      requires src in spaces && Mapped(sys.S(), spaces) && Weak(sys.S(), spaces, src, i)
      requires u in spaces[src].ptes && e.frame == spaces[src].ptes[u].frame && !e.w
      modifies `spaces
      ensures Mapped(sys.S(), spaces) && Weak(sys.S(), spaces, src, i)
      ensures forall v :: v == u || Guarded(sys.S(), old(spaces)[src], v) ==> Guarded(sys.S(), spaces[src], v)
      ensures spaces == old(spaces)[src := old(spaces)[src].(ptes := old(spaces)[src].ptes[u := e])]
    {
      hide SiteOf, Holders, Mapped, Weak, Guarded;
      SrcPte(sys.S(), spaces, src, i, u, e);
      MappedTouch(sys.S(), sys.S(), spaces, spaces[src := spaces[src].(ptes := spaces[src].ptes[u := e])]);
      spaces := spaces[src := spaces[src].(ptes := spaces[src].ptes[u := e])];
    }
  }
}
