/**
 Loading the PT_LOAD segments of an ELF image: each becomes a lazily filled payload and a VMA.
 The law is end to end: after a page fault at a virtual address of a segment, the byte stored in
 the frame that the page table points at is the byte the program header promises there.
 */
module Elf {
  import opened CowState
  import opened VmaList
  import M = CowMemory
  import P = PageTable

  const WORD: nat := 0x1_0000_0000_0000_0000
  const OFF_MAX: nat := 0x8000_0000_0000_0000

  datatype Phdr = Phdr(load: bool, offset: nat, vaddr: nat, filesz: nat, memsz: nat, r: bool, w: bool, x: bool)

  /** All fields are 64-bit words. */
  predicate Word(h: Phdr) {
    h.offset < WORD && h.vaddr < WORD && h.filesz < WORD && h.memsz < WORD
  }

  datatype LoadError = OutOfBoundary | InvalidParam

  datatype Loaded = Segment(vma: Vma, memsz: nat, backing: Backing) | Refused(error: LoadError)

  function AlignDown(x: nat): nat {
    x / PAGE * PAGE
  }

  /** page_align_up on 64-bit words. */
  function AlignUp(x: nat): nat {
    (x + (PAGE - 1)) % WORD / PAGE * PAGE
  }

  /** Where the segment starts in memory; 64-bit addition wraps. */
  function Start(h: Phdr, base: nat): nat {
    (base + h.vaddr) % WORD
  }

  /** What load_segments makes of one PT_LOAD header, over payload number p. */
  function LoadSegment(h: Phdr, base: nat, file: seq<Byte>, p: nat): Loaded {
    if h.offset > WORD - 1 - h.filesz || h.offset + h.filesz > |file| then Refused(OutOfBoundary)
    else if h.vaddr > WORD - 1 - h.memsz then Refused(OutOfBoundary)
    else
      var start := Start(h, base);
      var begin := AlignDown(start);
      var prefix := start - begin;
      var size := AlignUp((h.memsz + prefix) % WORD);
      var end := (begin + size) % WORD;
      if !UserAddress(begin) || !UserAddress(end) then Refused(LoadError.InvalidParam)
      else
        Segment(Vma(begin, end, p, 0, h.r, h.w, h.x), size,
                if h.filesz == 0 then Anonymous
                else File(file, if prefix < h.offset < OFF_MAX then h.offset - prefix
                    else 0, (h.filesz + prefix) % WORD))
  }

  /** The byte a fault brings in at address v of a VMA over an untouched payload with this backing. */
  function FaultByte(m: Vma, b: Backing, v: nat): Byte {
    InitialPage(b, P.Target(m, v / PAGE))[v % PAGE]
  }

  /** v is an address of the segment. */
  predicate Within(h: Phdr, base: nat, v: nat) {
    Start(h, base) <= v < Start(h, base) + h.memsz
  }

  /** The byte the header promises at v: from the file, then zeros. */
  function PromisedByte(h: Phdr, base: nat, file: seq<Byte>, v: nat): Byte
    requires h.offset + h.filesz <= |file| && Start(h, base) <= v
  {
    var d := v - Start(h, base);
    if d < h.filesz then file[h.offset + d] else 0
  }

  lemma FaultByteIs(m: Vma, b: Backing, v: nat)
    requires m.begin % PAGE == 0 && m.memOffset == 0 && m.begin <= v
    ensures FaultByte(m, b, v) == InitialByte(b, v - m.begin)
  {
    var u := v / PAGE;
    assert m.begin / PAGE * PAGE == m.begin;
    var offset := u * PAGE - m.begin;
    assert offset / PAGE * PAGE == offset;
  }

  // ---------- the area of a segment ----------

  lemma RoundedDown(x: nat)
    ensures AlignDown(x) + x % PAGE == x && AlignDown(x) % PAGE == 0
  {}

  /** Rounding up wraps to 0 in the last page of the word range. */
  lemma RoundedUp(x: nat)
    ensures AlignUp(x) % PAGE == 0 && AlignUp(x) < WORD
    ensures x + (PAGE - 1) < WORD ==> x <= AlignUp(x) < x + PAGE
    ensures x < WORD <= x + (PAGE - 1) ==> AlignUp(x) == 0
  {}

  lemma AlignedEnd(begin: nat, size: nat)
    requires begin < WORD && size < WORD && begin % PAGE == 0 && size % PAGE == 0
    ensures var end := (begin + size) % WORD;
            end % PAGE == 0 && (begin <= end ==> end == begin + size)
  {
    assert (begin + size) % WORD == if begin + size < WORD then begin + size else begin + size - WORD;
  }

  /** Area and size of a segment's payload; an area that wraps ends below its begin. */
  lemma SegmentShape(h: Phdr, base: nat, file: seq<Byte>, p: nat)
    requires LoadSegment(h, base, file, p).Segment?
    ensures var g := LoadSegment(h, base, file, p);
            && g.vma == Vma(AlignDown(Start(h, base)), g.vma.end, p, 0, h.r, h.w, h.x)
            && g.vma.begin % PAGE == 0 && g.vma.end % PAGE == 0
            && g.memsz == AlignUp((h.memsz + Start(h, base) % PAGE) % WORD) < WORD
            && (g.vma.begin <= g.vma.end ==> g.vma.end == g.vma.begin + g.memsz && UserArea(g.vma.begin, g.vma.end))
    ensures h.offset + h.filesz <= |file|
  {
    hide AlignUp, AlignDown;
    var start := Start(h, base);
    RoundedDown(start);
    RoundedUp((h.memsz + start % PAGE) % WORD);
    AlignedEnd(AlignDown(start), AlignUp((h.memsz + start % PAGE) % WORD));
  }

  /** The size computation does not wrap. */
  predicate Fits(h: Phdr, base: nat) {
    h.memsz + Start(h, base) % PAGE + (PAGE - 1) < WORD
  }

  lemma SizeLaw(memsz: nat, prefix: nat)
    requires 0 < memsz < WORD && prefix < PAGE
    ensures var size := AlignUp((memsz + prefix) % WORD);
            memsz + prefix <= size <==> memsz + prefix + (PAGE - 1) < WORD
  {
    hide AlignUp;
    var x := memsz + prefix;
    RoundedUp(x % WORD);
    assert x % WORD == if x < WORD then x else x - WORD;
  }

  /** Exactly when the VMA that load_segments adds contains the whole segment. */
  lemma CoverageLaw(h: Phdr, base: nat, file: seq<Byte>, p: nat)
    requires Word(h) && h.memsz > 0 && LoadSegment(h, base, file, p).Segment?
    requires var m := LoadSegment(h, base, file, p).vma; m.begin <= m.end
    ensures Fits(h, base) <==> forall v: nat :: Within(h, base, v) ==> Contains(LoadSegment(h, base, file, p).vma, v)
  {
    hide AlignUp, AlignDown, LoadSegment;
    var g, start := LoadSegment(h, base, file, p), Start(h, base);
    SegmentShape(h, base, file, p);
    RoundedDown(start);
    SizeLaw(h.memsz, start % PAGE);
    assert Within(h, base, start + h.memsz - 1);
  }

  // ---------- which headers are refused ----------

  /** The file part or the memory part leaves the 64-bit range, or the file part leaves the file. */
  predicate OutOfBounds(h: Phdr, file: seq<Byte>) {
    h.offset + h.filesz >= WORD || h.offset + h.filesz > |file| || h.vaddr + h.memsz >= WORD
  }

  /** e is the first page boundary at or above x. */
  predicate PageEnd(x: nat, e: nat) {
    e % PAGE == 0 && x <= e < x + PAGE
  }

  /** Where the pages of the segment end; a size that wraps leaves none of them, or one. */
  predicate EndsAt(h: Phdr, base: nat, e: nat) {
    var start := Start(h, base);
    if Fits(h, base) then PageEnd(start + h.memsz, e)
    else e == start - start % PAGE + if h.memsz + start % PAGE <= WORD then 0 else PAGE
  }

  /** The first page of the segment or the end of its pages is not in user space. */
  ghost predicate BadPlace(h: Phdr, base: nat) {
    exists e: nat :: EndsAt(h, base, e)
      && (!UserAddress(Start(h, base) - Start(h, base) % PAGE) || !UserAddress(e % WORD))
  }

  lemma EndIs(h: Phdr, base: nat)
    requires h.memsz < WORD
    ensures var start := Start(h, base);
            EndsAt(h, base, AlignDown(start) + AlignUp((h.memsz + start % PAGE) % WORD))
  {
    hide AlignUp, AlignDown;
    var start := Start(h, base);
    var x := h.memsz + start % PAGE;
    RoundedDown(start);
    RoundedUp(x % WORD);
    assert x % WORD == if x < WORD then x else x - WORD;
    if x >= WORD {
      RoundedUp(x - WORD);
      SmallUp(x - WORD);
    }
  }

  lemma SmallUp(x: nat)
    requires x < PAGE
    ensures AlignUp(x) == if x == 0 then 0 else PAGE
  {}

  lemma EndUnique(h: Phdr, base: nat, e: nat, f: nat)
    requires EndsAt(h, base, e) && EndsAt(h, base, f)
    ensures e == f
  {}

  /** Exactly which headers are refused, with which error, from the fields of the header. */
  lemma RefusalLaw(h: Phdr, base: nat, file: seq<Byte>, p: nat)
    ensures LoadSegment(h, base, file, p) == Refused(OutOfBoundary) <==> OutOfBounds(h, file)
    ensures LoadSegment(h, base, file, p) == Refused(LoadError.InvalidParam) <==>
            !OutOfBounds(h, file) && BadPlace(h, base)
    ensures LoadSegment(h, base, file, p).Segment? ==>
              forall e: nat :: EndsAt(h, base, e) ==> LoadSegment(h, base, file, p).vma.end == e % WORD
  {
    hide AlignUp, AlignDown, UserAddress, EndsAt;
    if !OutOfBounds(h, file) {
      var start := Start(h, base);
      RoundedDown(start);
      EndIs(h, base);
      var end := AlignDown(start) + AlignUp((h.memsz + start % PAGE) % WORD);
      forall e: nat | EndsAt(h, base, e) ensures e == end { EndUnique(h, base, e, end); }
    }
  }

  /** In an image at its own addresses nothing wraps: page 0 is refused, so a segment starts at page 1 or later. */
  lemma StaticFits(h: Phdr, file: seq<Byte>, p: nat)
    requires Word(h) && LoadSegment(h, 0, file, p).Segment?
    ensures Fits(h, 0)
  {
    assert AlignDown(h.vaddr % WORD) >= PAGE;
  }

  const WRAPPING := Phdr(true, 0, 0x800, 0, 0xFFFF_FFFF_FFFF_F7FF, true, true, false)
  const DYNAMIC_BASE: nat := 0x40_0000_0000

  /** A header of a dynamic image whose size wraps to 0: it is accepted with an empty VMA. */
  lemma WrappingIsEmpty(file: seq<Byte>, p: nat)
    ensures Word(WRAPPING) && !Fits(WRAPPING, DYNAMIC_BASE)
    ensures LoadSegment(WRAPPING, DYNAMIC_BASE, file,
            p) == Segment(Vma(DYNAMIC_BASE, DYNAMIC_BASE, p, 0, true, true, false), 0, Anonymous)
  {}

  // ---------- the bytes of a segment ----------

  /** A segment whose page prefix does not exceed its file offset, or that has no file part. */
  predicate Prefixed(h: Phdr, base: nat) {
    h.filesz == 0 || Start(h, base) % PAGE <= h.offset
  }

  /** Congruence of offset and address modulo the page size, as the System V gABI asks, is enough. */
  lemma Congruent(h: Phdr, base: nat)
    requires h.offset % PAGE == (base + h.vaddr) % PAGE
    ensures Prefixed(h, base)
  {
    assert (base + h.vaddr) % WORD % PAGE == (base + h.vaddr) % PAGE;
  }

  lemma BackingIs(h: Phdr, base: nat, file: seq<Byte>, p: nat)
    requires LoadSegment(h, base, file, p).Segment? && |file| < OFF_MAX
    ensures var b, prefix := LoadSegment(h, base, file, p).backing, Start(h, base) % PAGE;
            b == if h.filesz == 0 then Anonymous
                 else File(file, if h.offset > prefix then h.offset - prefix else 0, h.filesz + prefix)
  {
    hide AlignUp, AlignDown, UserAddress;
    RoundedDown(Start(h, base));
    assert h.filesz + Start(h, base) % PAGE < WORD;
  }

  /** The image law: every byte of the segment faults in as the header promises. */
  lemma ImageCorrect(h: Phdr, base: nat, file: seq<Byte>, p: nat, v: nat)
    requires LoadSegment(h, base, file, p).Segment? && |file| < OFF_MAX && Within(h, base, v) && Prefixed(h, base)
    ensures h.offset + h.filesz <= |file|
    ensures var g := LoadSegment(h, base, file, p); FaultByte(g.vma, g.backing, v) == PromisedByte(h, base, file, v)
  {
    hide AlignUp, AlignDown, LoadSegment, InitialPage, FaultByte;
    var g := LoadSegment(h, base, file, p);
    SegmentShape(h, base, file, p);
    RoundedDown(Start(h, base));
    BackingIs(h, base, file, p);
    FaultByteIs(g.vma, g.backing, v);
  }

  /** With a prefix larger than the file offset, the first byte is wrong for a file that differs there. */
  lemma ImageWrong(h: Phdr, base: nat, n: nat, p: nat) returns (file: seq<Byte>)
    requires n < OFF_MAX && !Prefixed(h, base) && LoadSegment(h, base, seq(n, i => 0), p).Segment?
    ensures |file| == n && LoadSegment(h, base, file, p).Segment? && h.offset + h.filesz <= n
    ensures var g, v := LoadSegment(h, base, file, p), Start(h, base);
            FaultByte(g.vma, g.backing, v) != PromisedByte(h, base, file, v)
  {
    hide AlignUp, AlignDown, InitialPage, FaultByte;
    file := seq(n, i => if i == h.offset then 1 else 0);
    SameAcceptance(h, base, seq(n, i => 0), file, p);
    hide LoadSegment;
    var g, v := LoadSegment(h, base, file, p), Start(h, base);
    SegmentShape(h, base, file, p);
    RoundedDown(v);
    BackingIs(h, base, file, p);
    FaultByteIs(g.vma, g.backing, v);
  }

  const EARLY := Phdr(true, 0x100, 0x10800, 0x100, 0x100, true, false, false)

  /**
   A header with page prefix 0x800 and file offset 0x100, and a file with a one there: the segment begins with a zero.
   */
  lemma WrongByte(p: nat)
    ensures Word(EARLY) && Fits(EARLY, 0) && !Prefixed(EARLY, 0)
    ensures var file: seq<Byte> := seq(0x1000, i => if i == 0x100 then 1 else 0);
            var g := LoadSegment(EARLY, 0, file, p);
            && g.Segment? && Contains(g.vma, 0x10800)
            && PromisedByte(EARLY, 0, file, 0x10800) == 1 && FaultByte(g.vma, g.backing, 0x10800) == 0
  {
    hide InitialPage, FaultByte;
    var file: seq<Byte> := seq(0x1000, i => if i == 0x100 then 1 else 0);
    var g := LoadSegment(EARLY, 0, file, p);
    assert g == Segment(Vma(0x10000, 0x11000, p, 0, true, false, false), 0x1000, File(file, 0, 0x900));
    FaultByteIs(g.vma, g.backing, 0x10800);
  }

  /** The byte at v is mapped and, once faulted in, the promised one. */
  predicate Faithful(h: Phdr, base: nat, file: seq<Byte>, p: nat, v: nat) {
    var g := LoadSegment(h, base, file, p);
    g.Segment? && Contains(g.vma, v) && Start(h, base) <= v && h.offset + h.filesz <= |file|
    && FaultByte(g.vma, g.backing, v) == PromisedByte(h, base, file, v)
  }

  lemma SameAcceptance(h: Phdr, base: nat, f: seq<Byte>, g: seq<Byte>, p: nat)
    requires |f| == |g| && LoadSegment(h, base, f, p).Segment?
    ensures LoadSegment(h, base, g, p).Segment? && LoadSegment(h, base, g, p).vma == LoadSegment(h, base, f, p).vma
  {
    hide AlignUp, AlignDown;
  }

  /** Exactly when an accepted segment is mapped whole and shows the promised bytes, whatever the file holds. */
  lemma ImageLaw(h: Phdr, base: nat, n: nat, p: nat)
    requires Word(h) && h.memsz > 0 && n < OFF_MAX && LoadSegment(h, base, seq(n, i => 0), p).Segment?
    requires var m := LoadSegment(h, base, seq(n, i => 0), p).vma; m.begin <= m.end
    ensures Fits(h, base) && Prefixed(h, base) <==>
            (forall file: seq<Byte>, v: nat :: |file| == n && Within(h, base, v) ==> Faithful(h, base, file, p, v))
  {
    hide FaultByte, InitialPage, LoadSegment, Start, Fits, PromisedByte;
    var zeros: seq<Byte> := seq(n, i => 0);
    CoverageLaw(h, base, zeros, p);
    if Fits(h, base) && Prefixed(h, base) {
      forall file: seq<Byte>, v: nat | |file| == n && Within(h, base, v) ensures Faithful(h, base, file, p, v) {
        SameAcceptance(h, base, zeros, file, p);
        ImageCorrect(h, base, file, p, v);
      }
    } else if !Fits(h, base) {
      var v: nat :| Within(h, base, v) && !Contains(LoadSegment(h, base, zeros, p).vma, v);
      assert !Faithful(h, base, zeros, p, v);
    } else {
      var file := ImageWrong(h, base, n, p);
      assert Within(h, base, Start(h, base)) && !Faithful(h, base, file, p, Start(h, base));
    }
  }

  // ---------- the whole image ----------

  /** Segment h is in place: its VMA is listed and its payload, of the mapped size, still shows its initial pages. */
  ghost predicate SegmentLoaded(s: State, vmas: seq<Vma>, h: Phdr, base: nat, file: seq<Byte>, p: nat) {
    h.load ==>
      var g := LoadSegment(h, base, file, p);
      && g.Segment? && g.vma.begin <= g.vma.end && g.vma in vmas
      && p in s.payloads && s.payloads[p].memsz == g.memsz && s.payloads[p].backing == g.backing &&
          !s.payloads[p].shared
      && forall w :: View(s, p, w) == InitialPage(g.backing, w)
  }

  /** Page faults leave a loaded segment loaded. */
  lemma SegmentStays(s: State, t: State, vmas: seq<Vma>, h: Phdr, base: nat, file: seq<Byte>, p: nat)
    requires SegmentLoaded(s, vmas, h, base, file, p) && Unobservable(s, t)
    ensures SegmentLoaded(t, vmas, h, base, file, p)
  {
    hide View, LoadSegment, InitialPage;
    if h.load { assert SameShape(s.payloads[p], t.payloads[p]); }
  }

  /** So does the loading of another one. */
  lemma SegmentBeside(s: State, t: State, vmas: seq<Vma>, vmas': seq<Vma>, h: Phdr, base: nat, file: seq<Byte>, p: nat)
    requires SegmentLoaded(s, vmas, h, base, file, p) && (forall m :: m in vmas ==> m in vmas') && t.store == s.store
    requires p in s.payloads ==> p in t.payloads && t.payloads[p] == s.payloads[p]
    ensures SegmentLoaded(t, vmas', h, base, file, p)
  {
    hide LoadSegment, InitialPage;
    if h.load {
      forall w ensures View(t, p, w) == View(s, p, w) {}
    }
  }

  lemma SegmentFresh(s: State, vmas: seq<Vma>, h: Phdr, base: nat, file: seq<Byte>, p: nat)
    requires LoadSegment(h, base, file, p).Segment?
    requires var g := LoadSegment(h, base, file, p);
             && g.vma.begin <= g.vma.end && g.vma in vmas
             && p in s.payloads && s.payloads[p] == NewPayload(g)
    ensures SegmentLoaded(s, vmas, h, base, file, p)
  {
    hide LoadSegment, InitialPage;
    var g := LoadSegment(h, base, file, p);
    forall w ensures View(s, p, w) == InitialPage(g.backing, w) {}
  }

  /** The payload of a segment: private, of fixed size, with no page yet. */
  function NewPayload(g: Loaded): Payload
    requires g.Segment?
  {
    Payload(g.memsz, false, false, false, false, false, g.backing, map[])
  }

  /** The image end is the largest end of a loaded VMA. */
  ghost predicate ImageEnd(hs: seq<Phdr>, n: nat, base: nat, file: seq<Byte>, end: nat)
    requires n <= |hs|
  {
    && (forall k :: 0 <= k < n && hs[k].load ==>
        LoadSegment(hs[k], base, file, 0).Segment? && LoadSegment(hs[k], base, file, 0).vma.end <= end)
    && (end == 0 || exists k :: 0 <= k < n && hs[k].load && LoadSegment(hs[k], base, file, 0).vma.end == end)
  }

  /** Header k is refused by its own fields. */
  ghost predicate Refuses(hs: seq<Phdr>, k: nat, base: nat, file: seq<Byte>) {
    k < |hs| && hs[k].load && (OutOfBounds(hs[k], file) || BadPlace(hs[k], base))
  }

  lemma RefusesIs(hs: seq<Phdr>, k: nat, base: nat, file: seq<Byte>, p: nat)
    ensures Refuses(hs, k, base, file) <==> k < |hs| && hs[k].load && LoadSegment(hs[k], base, file, p).Refused?
    ensures Refuses(hs, k, base, file) ==>
              LoadSegment(hs[k], base, file, p).error == if OutOfBounds(hs[k], file) then OutOfBoundary
                  else LoadError.InvalidParam
  {
    hide LoadSegment, OutOfBounds, BadPlace;
    if k < |hs| {
      RefusalLaw(hs[k], base, file, p);
      var g := LoadSegment(hs[k], base, file, p);
      if g.Refused? { assert g == Refused(g.error) && (g.error == OutOfBoundary || g.error == LoadError.InvalidParam); }
    }
  }

  /** The area of header k wraps around, or meets a VMA of the space or of a header before it. */
  ghost predicate Clashes(vmas: seq<Vma>, hs: seq<Phdr>, k: nat, base: nat, file: seq<Byte>) {
    k < |hs| && hs[k].load && LoadSegment(hs[k], base, file, 0).Segment? &&
      var m := LoadSegment(hs[k], base, file, 0).vma;
      m.begin > m.end || (m.begin < m.end &&
          (MeetsSome(vmas, m.begin, m.end) || exists j :: 0 <= j < k && MeetsHeader(hs, j, base, file, m.begin, m.end)))
  }

  ghost predicate MeetsSome(vmas: seq<Vma>, begin: nat, end: nat) {
    exists j :: 0 <= j < |vmas| && Meets(vmas[j], begin, end)
  }

  predicate MeetsHeader(hs: seq<Phdr>, j: nat, base: nat, file: seq<Byte>, begin: nat, end: nat) {
    j < |hs| && hs[j].load && LoadSegment(hs[j], base, file, 0).Segment? &&
        Meets(LoadSegment(hs[j], base, file, 0).vma, begin, end)
  }

  /** The VMAs are those there were before and those of the first n headers. */
  ghost predicate Gathered(vmas0: seq<Vma>, vmas: seq<Vma>, hs: seq<Phdr>, n: nat, base: nat, file: seq<Byte>,
      ids: seq<nat>) {
    && n <= |hs| == |ids|
    && (forall m :: m in vmas <==> m in vmas0 || exists k :: 0 <= k < n && OfHeader(hs, k, base, file, ids, m))
  }

  predicate OfHeader(hs: seq<Phdr>, k: nat, base: nat, file: seq<Byte>, ids: seq<nat>, m: Vma)
    requires |hs| == |ids|
  {
    k < |hs| && hs[k].load && LoadSegment(hs[k], base, file, ids[k]).Segment? &&
        m == LoadSegment(hs[k], base, file, ids[k]).vma
  }

  /** The payload number enters a segment only as the VMA's payload. */
  lemma PayloadOnly(h: Phdr, base: nat, file: seq<Byte>, p: nat, q: nat)
    ensures var g, f := LoadSegment(h, base, file, p), LoadSegment(h, base, file, q);
            (g.Refused? ==> f == g) && (g.Segment? ==> f == Segment(g.vma.(payload := q), g.memsz, g.backing))
  {
    hide AlignUp, AlignDown;
  }

  lemma BusyIs(vmas0: seq<Vma>, vmas: seq<Vma>, hs: seq<Phdr>, n: nat, base: nat, file: seq<Byte>, ids: seq<nat>,
      begin: nat, end: nat)
    requires Gathered(vmas0, vmas, hs, n, base, file, ids)
    ensures MeetsSome(vmas, begin, end) <==>
            MeetsSome(vmas0, begin, end) || exists j :: 0 <= j < n && MeetsHeader(hs, j, base, file, begin, end)
  {
    hide LoadSegment;
    if MeetsSome(vmas, begin, end) {
      var j :| 0 <= j < |vmas| && Meets(vmas[j], begin, end);
      assert vmas[j] in vmas;
      if vmas[j] !in vmas0 {
        var k :| 0 <= k < n && OfHeader(hs, k, base, file, ids, vmas[j]);
        PayloadOnly(hs[k], base, file, ids[k], 0);
        assert MeetsHeader(hs, k, base, file, begin, end);
      }
    }
    if MeetsSome(vmas0, begin, end) {
      var j :| 0 <= j < |vmas0| && Meets(vmas0[j], begin, end);
      assert vmas0[j] in vmas;
    }
    forall j | 0 <= j < n && MeetsHeader(hs, j, base, file, begin, end) ensures MeetsSome(vmas, begin, end) {
      PayloadOnly(hs[j], base, file, 0, ids[j]);
      var v := LoadSegment(hs[j], base, file, ids[j]).vma;
      assert OfHeader(hs, j, base, file, ids, v);
      assert v in vmas;
      var a :| 0 <= a < |vmas| && vmas[a] == v;
      assert Meets(vmas[a], begin, end);
    }
  }

  lemma InsertMembers(vmas: seq<Vma>, m: Vma, k: nat, n: Vma)
    requires k <= |vmas|
    ensures n in vmas[..k] + [m] + vmas[k..] <==> n in vmas || n == m
  {
    var vmas' := vmas[..k] + [m] + vmas[k..];
    assert vmas'[k] == m;
    forall j | 0 <= j < |vmas| ensures vmas[j] in vmas' { assert vmas'[if j < k then j else j + 1] == vmas[j]; }
  }

  lemma GatheredNext(vmas0: seq<Vma>, vmas: seq<Vma>, hs: seq<Phdr>, n: nat, base: nat, file: seq<Byte>, ids: seq<nat>,
      k: nat)
    requires Gathered(vmas0, vmas, hs, n, base, file, ids) && n < |hs| && k <= |vmas|
    requires hs[n].load ==> LoadSegment(hs[n], base, file, ids[n]).Segment?
    ensures var vmas' := if hs[n].load then vmas[..k] + [LoadSegment(hs[n], base, file, ids[n]).vma] + vmas[k..]
            else vmas;
            Gathered(vmas0, vmas', hs, n + 1, base, file, ids)
  {
    hide LoadSegment;
    var vmas' := if hs[n].load then vmas[..k] + [LoadSegment(hs[n], base, file, ids[n]).vma] + vmas[k..] else vmas;
    forall m ensures m in vmas' <==> m in vmas0 || exists k :: 0 <= k < n + 1 && OfHeader(hs, k, base, file, ids, m) {
      if hs[n].load { InsertMembers(vmas, LoadSegment(hs[n], base, file, ids[n]).vma, k, m); }
      assert OfHeader(hs, n, base, file, ids, m) <==> (hs[n].load && m == LoadSegment(hs[n], base, file, ids[n]).vma);
    }
  }

  datatype Outcome = Done(imageEnd: nat) | Failed(error: LoadError) | NoSegment | Hang

  ghost predicate InPlace(s: State, vmas: seq<Vma>, hs: seq<Phdr>, n: nat, base: nat, file: seq<Byte>, ids: seq<nat>)
    requires n <= |hs| == |ids|
  {
    forall k :: 0 <= k < n ==> SegmentLoaded(s, vmas, hs[k], base, file, ids[k])
  }

  lemma InPlaceNext(s: State, t: State, vmas: seq<Vma>, hs: seq<Phdr>, n: nat, base: nat, file: seq<Byte>,
      ids: seq<nat>, k: nat)
    requires n < |hs| == |ids| && InPlace(s, vmas, hs, n, base, file, ids) && t.store == s.store
    requires hs[n].load && LoadSegment(hs[n], base, file, ids[n]).Segment? && k <= |vmas| && ids[n] !in s.payloads
    requires var g := LoadSegment(hs[n], base, file, ids[n]);
             g.vma.begin <= g.vma.end && t.payloads == s.payloads[ids[n] := NewPayload(g)]
    ensures InPlace(t, vmas[..k] + [LoadSegment(hs[n], base, file, ids[n]).vma] + vmas[k..], hs, n + 1, base, file, ids)
  {
    hide LoadSegment, SegmentLoaded;
    var g := LoadSegment(hs[n], base, file, ids[n]);
    var vmas' := vmas[..k] + [g.vma] + vmas[k..];
    forall m: Vma | m in vmas || m == g.vma ensures m in vmas' { InsertMembers(vmas, g.vma, k, m); }
    forall j | 0 <= j < n + 1 ensures SegmentLoaded(t, vmas', hs[j], base, file, ids[j]) {
      if j < n {
        SegmentBeside(s, t, vmas, vmas', hs[j], base, file, ids[j]);
      } else {
        SegmentFresh(t, vmas', hs[n], base, file, ids[n]);
      }
    }
  }

  lemma InPlaceSkip(s: State, vmas: seq<Vma>, hs: seq<Phdr>, n: nat, base: nat, file: seq<Byte>, ids: seq<nat>)
    requires n < |hs| == |ids| && InPlace(s, vmas, hs, n, base, file, ids) && !hs[n].load
    ensures InPlace(s, vmas, hs, n + 1, base, file, ids)
  {
    hide LoadSegment;
  }

  lemma LoadStart(s: State, vmas: seq<Vma>, hs: seq<Phdr>, base: nat, file: seq<Byte>, ids: seq<nat>)
    requires |hs| == |ids|
    ensures Gathered(vmas, vmas, hs, 0, base, file, ids) && InPlace(s, vmas, hs, 0, base, file, ids) &&
            ImageEnd(hs, 0, base, file, 0)
  {}

  lemma EndNext(hs: seq<Phdr>, i: nat, base: nat, file: seq<Byte>, end: nat, p: nat)
    requires i < |hs| && ImageEnd(hs, i, base, file, end)
    ensures !hs[i].load ==> ImageEnd(hs, i + 1, base, file, end)
    ensures var g := LoadSegment(hs[i], base, file, p);
            hs[i].load && g.Segment? ==> ImageEnd(hs, i + 1, base, file, if g.vma.end > end then g.vma.end else end)
  {
    hide LoadSegment;
    PayloadOnly(hs[i], base, file, p, 0);
  }

  lemma Unloaded(vmas: seq<Vma>, hs: seq<Phdr>, k: nat, base: nat, file: seq<Byte>)
    ensures k >= |hs| || !hs[k].load ==> !Refuses(hs, k, base, file) && !Clashes(vmas, hs, k, base, file)
    ensures Refuses(hs, k, base, file) ==> !Clashes(vmas, hs, k, base, file)
  {
    hide LoadSegment, OutOfBounds, BadPlace;
    RefusesIs(hs, k, base, file, 0);
  }

  /** One PT_LOAD header; the headers before it are in place. */
  method LoadOne(sp: P.AddressSpaces, t: nat, hs: seq<Phdr>, i: nat, base: nat, file: seq<Byte>, ids: seq<nat>,
      ghost vmas0: seq<Vma>)
    returns (g: Loaded, added: VmaList.Outcome)
    requires sp.Valid() && t in sp.spaces && P.Aligned(sp.spaces[t].vmas)
    requires i < |hs| == |ids| && hs[i].load && ids[i] !in sp.sys.payloads
    requires Gathered(vmas0, sp.spaces[t].vmas, hs, i, base, file, ids) &&
             InPlace(sp.sys.S(), sp.spaces[t].vmas, hs, i, base, file, ids)
    modifies sp, sp.sys`payloads
    ensures sp.Valid() && t in sp.spaces && P.Aligned(sp.spaces[t].vmas)
    ensures sp.spaces == old(sp.spaces)[t := old(sp.spaces)[t].(vmas := sp.spaces[t].vmas)]
    ensures g == LoadSegment(hs[i], base, file, ids[i])
    ensures g.Refused? || added != VmaList.Ok ==> sp.spaces == old(sp.spaces) && sp.sys.payloads == old(sp.sys.payloads)
    ensures Refuses(hs, i, base, file) <==> g.Refused?
    ensures g.Refused? ==> g.error == if OutOfBounds(hs[i], file) then OutOfBoundary else LoadError.InvalidParam
    ensures Clashes(vmas0, hs, i, base, file) <==> g.Segment? && added != VmaList.Ok
    ensures g.Segment? && added == VmaList.Ok ==>
              && sp.sys.payloads == old(sp.sys.payloads)[ids[i] := NewPayload(g)]
              && Gathered(vmas0, sp.spaces[t].vmas, hs, i + 1, base, file, ids)
              && InPlace(sp.sys.S(), sp.spaces[t].vmas, hs, i + 1, base, file, ids)
              && (Sorted(old(sp.spaces)[t].vmas) ==> Sorted(sp.spaces[t].vmas))
  {
    hide LoadSegment, Meets, Sorted, P.Aligned, SegmentLoaded, Gathered, InPlace, P.AddressSpaces.Valid, MeetsHeader;
    RefusesIs(hs, i, base, file, ids[i]);
    hide Refuses, OutOfBounds;
    PayloadOnly(hs[i], base, file, ids[i], 0);
    ghost var s, vmas := sp.sys.S(), sp.spaces[t].vmas;
    g, added := LoadSegment(hs[i], base, file, ids[i]), VmaList.Ok;
    if g.Refused? { return; }
    SegmentShape(hs[i], base, file, ids[i]);
    BusyIs(vmas0, vmas, hs, i, base, file, ids, g.vma.begin, g.vma.end);
    var k: nat;
    added, k := sp.AddPayload(t, g.vma, NewPayload(g));
    if added != VmaList.Ok { return; }
    GatheredNext(vmas0, vmas, hs, i, base, file, ids, k);
    InPlaceNext(s, sp.sys.S(), vmas, hs, i, base, file, ids, k);
  }

  /**
   The loop of load_segments over the program headers, into space t; a VMA that cannot be added hangs
   the kernel.  ids are the addresses the new payloads get, n the number of headers that went well.
   */
  method LoadSegments(sp: P.AddressSpaces, t: nat, hs: seq<Phdr>, base: nat, file: seq<Byte>, ids: seq<nat>)
    returns (r: Outcome, ghost n: nat)
    requires sp.Valid() && t in sp.spaces && P.Aligned(sp.spaces[t].vmas)
    requires |ids| == |hs| && (forall i :: 0 <= i < |ids| ==> ids[i] !in sp.sys.payloads)
    requires forall i, j :: 0 <= i < j < |ids| ==> ids[i] != ids[j]
    modifies sp, sp.sys`payloads
    ensures sp.Valid() && t in sp.spaces && P.Aligned(sp.spaces[t].vmas)
    ensures sp.spaces == old(sp.spaces)[t := old(sp.spaces)[t].(vmas := sp.spaces[t].vmas)]
    ensures Sorted(old(sp.spaces)[t].vmas) ==> Sorted(sp.spaces[t].vmas)
    ensures forall p :: p in old(sp.sys.payloads) ==>
            p in sp.sys.payloads && sp.sys.payloads[p] == old(sp.sys.payloads)[p]
    ensures n <= |hs| && forall k :: 0 <= k < n ==>
            !Refuses(hs, k, base, file) && !Clashes(old(sp.spaces)[t].vmas, hs, k, base, file)
    ensures Gathered(old(sp.spaces)[t].vmas, sp.spaces[t].vmas, hs, n, base, file, ids)
    ensures InPlace(sp.sys.S(), sp.spaces[t].vmas, hs, n, base, file, ids)
    ensures r.Failed? <==> Refuses(hs, n, base, file)
    ensures r.Failed? ==> r.error == if OutOfBounds(hs[n], file) then OutOfBoundary else LoadError.InvalidParam
    ensures r.Hang? <==> Clashes(old(sp.spaces)[t].vmas, hs, n, base, file)
    ensures r.Done? || r.NoSegment? <==> n == |hs|
    ensures r.NoSegment? <==> forall k :: 0 <= k < |hs| ==> !hs[k].load
    ensures r.Done? ==> ImageEnd(hs, |hs|, base, file, r.imageEnd)
  {
    hide LoadSegment, Sorted, P.Aligned, Gathered, InPlace, P.AddressSpaces.Valid, Refuses, Clashes, ImageEnd,
        OutOfBounds;
    ghost var vmas0 := sp.spaces[t].vmas;
    LoadStart(sp.sys.S(), vmas0, hs, base, file, ids);
    var imageEnd, found := 0, false;
    for i := 0 to |hs|
      invariant sp.Valid() && t in sp.spaces && P.Aligned(sp.spaces[t].vmas)
      invariant sp.spaces == old(sp.spaces)[t := old(sp.spaces)[t].(vmas := sp.spaces[t].vmas)]
      invariant Sorted(vmas0) ==> Sorted(sp.spaces[t].vmas)
      invariant forall p :: p in old(sp.sys.payloads) ==>
                p in sp.sys.payloads && sp.sys.payloads[p] == old(sp.sys.payloads)[p]
      invariant forall j :: i <= j < |ids| ==> ids[j] !in sp.sys.payloads
      invariant forall k :: 0 <= k < i ==> !Refuses(hs, k, base, file) && !Clashes(vmas0, hs, k, base, file)
      invariant Gathered(vmas0, sp.spaces[t].vmas, hs, i, base, file, ids)
      invariant InPlace(sp.sys.S(), sp.spaces[t].vmas, hs, i, base, file, ids)
      invariant ImageEnd(hs, i, base, file, imageEnd)
      invariant found <==> exists k :: 0 <= k < i && hs[k].load
    {
      EndNext(hs, i, base, file, imageEnd, ids[i]);
      Unloaded(vmas0, hs, i, base, file);
      if !hs[i].load {
        GatheredNext(vmas0, sp.spaces[t].vmas, hs, i, base, file, ids, 0);
        InPlaceSkip(sp.sys.S(), sp.spaces[t].vmas, hs, i, base, file, ids);
        continue;
      }
      var g, added := LoadOne(sp, t, hs, i, base, file, ids, vmas0);
      if g.Refused? { return Failed(g.error), i; }
      if added != VmaList.Ok { return Hang, i; }
      if g.vma.end > imageEnd { imageEnd := g.vma.end; }
      found := true;
    }
    n := |hs|;
    Unloaded(vmas0, hs, n, base, file);
    if !found { return NoSegment, n; }
    r := Done(imageEnd);
  }

  // ---------- faults in a loaded image ----------

  /** In a loaded segment every present page holds the promised bytes. */
  lemma PresentByte(s: State, spaces: map<nat, P.Space>, t: nat, h: Phdr, base: nat, file: seq<Byte>, p: nat, v: nat)
    requires Inv(s) && P.Mapped(s, spaces) && P.Safe(s, spaces) && t in spaces && v / PAGE in spaces[t].ptes
    requires h.load && SegmentLoaded(s, spaces[t].vmas, h, base, file, p)
    requires Word(h) && Within(h, base, v) && Fits(h, base) && Prefixed(h, base) && |file| < OFF_MAX
    ensures h.offset + h.filesz <= |file|
    ensures var f := spaces[t].ptes[v / PAGE].frame;
            f in s.store && |s.store[f]| == PAGE && s.store[f][v % PAGE] == PromisedByte(h, base, file, v)
  {
    hide LoadSegment, P.Mapped, P.Separated, InitialPage, P.Covers, P.SiteOf, Inv, Start, PromisedByte, P.Target, Fits,
        Prefixed, Within, Contains, P.Exclusive;
    var g, u := LoadSegment(h, base, file, p), v / PAGE;
    ContainsSegment(h, base, file, p, v);
    SegmentPage(s, spaces, t, g.vma, v);
    assert P.Points(s, spaces[t], u);
    PayloadIs(h, base, file, p);
    ImageCorrect(h, base, file, p, v);
    HeldPage(s, p, P.Target(g.vma, u));
  }

  lemma PayloadIs(h: Phdr, base: nat, file: seq<Byte>, p: nat)
    requires LoadSegment(h, base, file, p).Segment?
    ensures LoadSegment(h, base, file, p).vma.payload == p
  {}

  lemma HeldPage(s: State, p: nat, w: nat)
    requires Inv(s) && Has(s, p, w)
    ensures FrameOf(s, p, w) in s.store && |s.store[FrameOf(s, p, w)]| == PAGE &&
            View(s, p, w) == s.store[FrameOf(s, p, w)]
  {
    assert EntryOk(s, p, w);
  }

  lemma ContainsSegment(h: Phdr, base: nat, file: seq<Byte>, p: nat, v: nat)
    requires Word(h) && LoadSegment(h, base, file, p).Segment? && Fits(h, base) && Within(h, base, v)
    requires var m := LoadSegment(h, base, file, p).vma; m.begin <= m.end
    ensures Contains(LoadSegment(h, base, file, p).vma, v)
  {
    hide LoadSegment, Fits, Contains;
    CoverageLaw(h, base, file, p);
  }

  /** The page of an address in a listed VMA belongs to that VMA. */
  lemma SegmentPage(s: State, spaces: map<nat, P.Space>, t: nat, m: Vma, v: nat)
    requires P.Mapped(s, spaces) && t in spaces && m in spaces[t].vmas && Contains(m, v)
    ensures var i := P.SiteOf(spaces[t].vmas, v / PAGE); i >= 0 && spaces[t].vmas[i] == m
  {
    hide P.Separated, P.Covers, P.SiteOf, P.Mapped;
    P.SeparatedAt(s, spaces, t);
    var i :| 0 <= i < |spaces[t].vmas| && spaces[t].vmas[i] == m;
    P.PageIn(m, v);
    P.SiteIs(spaces[t].vmas, i, v / PAGE);
  }

  /** An empty VMA that begins at v is listed before m. */
  ghost predicate Shadowed(vmas: seq<Vma>, m: Vma, v: nat) {
    exists j, k :: 0 <= j < k < |vmas| && vmas[k] == m && vmas[j].begin == vmas[j].end == v
  }

  /** In a list in address order that can only happen to the first address of m. */
  lemma ShadowedAtStart(vmas: seq<Vma>, m: Vma, v: nat)
    requires Sorted(vmas) && Contains(m, v) && Shadowed(vmas, m, v)
    ensures v == m.begin
  {}

  /** Locate finds the VMA of v, unless it is shadowed by an empty one. */
  lemma LocatedSegment(s: State, spaces: map<nat, P.Space>, t: nat, m: Vma, v: nat, i: int)
    requires P.Mapped(s, spaces) && t in spaces && m in spaces[t].vmas && Contains(m, v)
    requires P.FirstLocated(spaces[t].vmas, v, i)
    ensures if Shadowed(spaces[t].vmas, m, v) then spaces[t].vmas[i].begin == spaces[t].vmas[i].end == v
            else spaces[t].vmas[i] == m
  {
    hide P.Separated, P.Covers, P.SiteOf, P.Mapped;
    var vmas := spaces[t].vmas;
    var k :| 0 <= k < |vmas| && vmas[k] == m;
    assert i <= k;
    if Contains(vmas[i], v) {
      P.SeparatedAt(s, spaces, t);
      P.PageIn(m, v);
      P.PageIn(vmas[i], v);
      P.SiteIs(vmas, i, v / PAGE);
      P.SiteIs(vmas, k, v / PAGE);
      Unshadowed(vmas, m, v, k);
    }
  }

  /** Nothing empty at v is listed before the only place of m. */
  lemma Unshadowed(vmas: seq<Vma>, m: Vma, v: nat, k: int)
    requires P.Separated(vmas) && P.FirstLocated(vmas, v, k) && vmas[k] == m && Contains(m, v)
    ensures !Shadowed(vmas, m, v)
  {
    hide P.Covers;
    forall j, l | 0 <= j < l < |vmas| && vmas[l] == m ensures !(vmas[j].begin == vmas[j].end == v) {
      P.PageIn(m, v);
      assert l == k;
    }
  }

  lemma FindFirst(vmas: seq<Vma>, v: nat, k: nat) returns (i: nat)
    requires k < |vmas| && P.Located(vmas[k], v)
    ensures P.FirstLocated(vmas, v, i)
  {
    i := 0;
    while !P.Located(vmas[i], v)
      invariant i <= k && forall j :: 0 <= j < i ==> !P.Located(vmas[j], v)
      decreases k - i
    {
      i := i + 1;
    }
  }

  /** A faulting address of a segment asks for a page below the payload's size. */
  lemma BelowSize(m: Vma, size: nat, v: nat)
    requires m.begin % PAGE == 0 && m.memOffset == 0 && m.end == m.begin + size && Contains(m, v)
    ensures P.Target(m, v / PAGE) * PAGE < size
  {
    var u := v / PAGE;
    assert m.begin / PAGE * PAGE == m.begin;
    assert (u * PAGE - m.begin) / PAGE * PAGE == u * PAGE - m.begin;
  }

  /** Page w of payload p is present, or a frame and the file can be had for it. */
  ghost predicate Obtainable(sys: M.MemorySystem, p: nat, w: nat)
    requires p in sys.payloads
    reads sys
  {
    || w in sys.payloads[p].pages
    || (!sys.Dry() && !M.MemorySystem.Unbacked(sys.payloads[p].backing, w) && !sys.Unread(sys.payloads[p].backing, w))
  }

  /** Exactly when a not-present fault in a loaded segment succeeds. */
  lemma FaultLaw(sp: P.AddressSpaces, t: nat, h: Phdr, base: nat, file: seq<Byte>, p: nat, v: nat)
    requires sp.Valid() && t in sp.spaces && h.load && SegmentLoaded(sp.sys.S(), sp.spaces[t].vmas, h, base, file, p)
    requires Word(h) && Within(h, base, v) && Fits(h, base)
    ensures var m := LoadSegment(h, base, file, p).vma;
            sp.CanMap(t, v) <==> !Shadowed(sp.spaces[t].vmas, m, v) && Obtainable(sp.sys, p, P.Target(m, v / PAGE))
  {
    hide LoadSegment, P.Mapped, P.Safe, Inv, InitialPage, View, P.AddressSpaces.CanMap, Fits, Within, Contains,
        P.OffsetFor, Shadowed, P.SiteOf,
         M.MemorySystem.Dry, M.MemorySystem.Unread, M.MemorySystem.Unbacked;
    var vmas, g, u := sp.spaces[t].vmas, LoadSegment(h, base, file, p), v / PAGE;
    ContainsSegment(h, base, file, p, v);
    SegmentShape(h, base, file, p);
    BelowSize(g.vma, g.memsz, v);
    LocatedAt(g.vma, v);
    var k :| 0 <= k < |vmas| && vmas[k] == g.vma;
    var i := FindFirst(vmas, v, k);
    LocatedSegment(sp.sys.S(), sp.spaces, t, g.vma, v, i);
    sp.Found(t, v, i);
    P.FoundThere(vmas, v, i);
    P.PlacedAt(sp.sys.S(), sp.spaces, t, i, v);
  }

  lemma LocatedAt(m: Vma, v: nat)
    requires Contains(m, v)
    ensures P.Located(m, v)
  {}

  /**
   The first access to address v of a loaded segment, end to end: when the fault can be served, the frame
   that the page table then shows holds the promised byte.
   */
  method Access(sp: P.AddressSpaces, t: nat, h: Phdr, base: nat, file: seq<Byte>, p: nat, v: nat) returns (ok: bool)
    requires sp.Valid() && t in sp.spaces && h.load && SegmentLoaded(sp.sys.S(), sp.spaces[t].vmas, h, base, file, p)
    requires Word(h) && Within(h, base, v) && Fits(h, base) && Prefixed(h, base) && |file| < OFF_MAX
    modifies sp, sp.sys
    ensures sp.Valid() && t in sp.spaces && SegmentLoaded(sp.sys.S(), sp.spaces[t].vmas, h, base, file, p)
    ensures var m := LoadSegment(h, base, file, p).vma;
            ok <==> old(!Shadowed(sp.spaces[t].vmas, m, v) && Obtainable(sp.sys, p, P.Target(m, v / PAGE)))
    ensures h.offset + h.filesz <= |file|
    ensures ok ==>
              && v / PAGE in sp.spaces[t].ptes
              && var f := sp.spaces[t].ptes[v / PAGE].frame;
                 f in sp.sys.store && |sp.sys.store[f]| == PAGE &&
                     sp.sys.store[f][v % PAGE] == PromisedByte(h, base, file, v)
  {
    hide LoadSegment, P.Mapped, P.Safe, Inv, View, Unobservable, P.AddressSpaces.CanMap, Shadowed, Fits, Within,
        Prefixed, PromisedByte;
    assert LoadSegment(h, base, file, p).Segment?;
    hide SegmentLoaded;
    FaultLaw(sp, t, h, base, file, p, v);
    ImageCorrect(h, base, file, p, v);
    ghost var s := sp.sys.S();
    ok := sp.OnNp(t, v);
    SegmentStays(s, sp.sys.S(), sp.spaces[t].vmas, h, base, file, p);
    if ok { PresentByte(sp.sys.S(), sp.spaces, t, h, base, file, p, v); }
  }

  // ---------- two images that load and do not work ----------

  /** A dynamic image whose only segment wraps: loading succeeds and no address of the segment is mapped. */
  method LoadWrapping(sp: P.AddressSpaces, t: nat, file: seq<Byte>, p: nat) returns (r: Outcome)
    requires sp.Valid() && t in sp.spaces && sp.spaces[t] == P.Space([], map[]) && p !in sp.sys.payloads
    modifies sp, sp.sys`payloads
    ensures r.Done? && t in sp.spaces
    ensures forall v, m :: Within(WRAPPING, DYNAMIC_BASE, v) && m in sp.spaces[t].vmas ==> !Contains(m, v)
  {
    hide P.AddressSpaces.Valid, LoadSegment;
    WrappingIsEmpty(file, p);
    WrappingIsEmpty(file, 0);
    ghost var n: nat;
    var hs := [WRAPPING];
    r, n := LoadSegments(sp, t, hs, DYNAMIC_BASE, file, [p]);
    assert hs[0].load && hs[0] == WRAPPING;
    forall m | m in sp.spaces[t].vmas ensures Empty(m) {
      var k :| 0 <= k < n && OfHeader(hs, k, DYNAMIC_BASE, file, [p], m);
    }
  }

  const NO_BYTES := Phdr(true, 0, 0x10000, 0, 0, true, false, false)
  const ONE_PAGE := Phdr(true, 0, 0x10000, 0, 0x1000, true, true, false)

  lemma HidingSegments(p: nat, q: nat)
    ensures LoadSegment(NO_BYTES, 0, [], p) == Segment(Vma(0x10000, 0x10000, p, 0, true, false, false), 0, Anonymous)
    ensures LoadSegment(ONE_PAGE, 0, [], q) == Segment(Vma(0x10000, 0x11000, q, 0, true, true, false), 0x1000,
            Anonymous)
  {}

  /** A segment without bytes, loaded before one at the same address, hides the first address of that one. */
  method LoadHidden(sp: P.AddressSpaces, t: nat, p: nat, q: nat) returns (ok: bool)
    requires sp.Valid() && t in sp.spaces && sp.spaces[t] == P.Space([], map[]) && p !in sp.sys.payloads &&
             q !in sp.sys.payloads && p != q
    modifies sp, sp.sys
    ensures t in sp.spaces && !ok
    ensures |sp.spaces[t].vmas| == 2 && Contains(sp.spaces[t].vmas[1], 0x10000)
  {
    hide P.AddressSpaces.Valid, P.AddressSpaces.CanMap, LoadSegment, P.SiteOf, Unobservable, Holders;
    HidingSegments(p, q);
    var g, f := LoadSegment(NO_BYTES, 0, [], p), LoadSegment(ONE_PAGE, 0, [], q);
    var r, k := sp.AddPayload(t, g.vma, NewPayload(g));
    assert sp.spaces[t].vmas == [g.vma];
    r, k := sp.AddPayload(t, f.vma, NewPayload(f));
    assert sp.spaces[t].vmas == [g.vma, f.vma];
    assert P.FirstLocated(sp.spaces[t].vmas, 0x10000, 0);
    sp.Found(t, 0x10000, 0);
    ok := sp.OnNp(t, 0x10000);
  }
}
