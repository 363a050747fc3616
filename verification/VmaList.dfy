/**
 The virtual memory areas of one address space: a list in address order, extended by add_vma and
 cut by remove_vma_range.  What the list means is its translation of an address to a payload,
 an offset in it and a protection.
 */
module VmaList {
  datatype Vma = Vma(begin: nat, end: nat, payload: nat, memOffset: nat, r: bool, w: bool, x: bool)

  datatype Translation = Unmapped | To(payload: nat, offset: nat, r: bool, w: bool, x: bool)

  predicate Empty(m: Vma) {
    m.begin >= m.end
  }

  predicate Contains(m: Vma, addr: nat) {
    m.begin <= addr < m.end
  }

  /** is_intersecting */
  predicate Meets(m: Vma, begin: nat, end: nat) {
    (if m.begin > begin then m.begin else begin) < (if m.end < end then m.end else end)
  }

  /** A VMA meets a range exactly if they have an address in common. */
  lemma MeetsLaw(m: Vma, begin: nat, end: nat)
    ensures Meets(m, begin, end) <==> exists addr: nat :: Contains(m, addr) && begin <= addr < end
  {
    if Meets(m, begin, end) {
      var addr := if m.begin > begin then m.begin else begin;
      assert Contains(m, addr) && begin <= addr < end;
    }
  }

  function Image(m: Vma, addr: nat): Translation
    requires m.begin <= addr
  {
    To(m.payload, m.memOffset + (addr - m.begin), m.r, m.w, m.x)
  }

  /** The translation of addr through the first VMA that contains it. */
  function Translate(vmas: seq<Vma>, addr: nat): Translation {
    if vmas == [] then Unmapped
    else if Contains(vmas[0], addr) then Image(vmas[0], addr)
    else Translate(vmas[1..], addr)
  }

  /** Non-empty VMAs are in address order and disjoint, and no VMA begins above a non-empty one after it. */
  ghost predicate Ordered(vmas: seq<Vma>) {
    forall i, j :: 0 <= i < j < |vmas| && !Empty(vmas[j]) ==>
      vmas[i].begin <= vmas[j].begin && (!Empty(vmas[i]) ==> vmas[i].end <= vmas[j].begin)
  }

  /** In an ordered list the VMA that contains an address is unique. */
  lemma {:induction false} TranslateAt(vmas: seq<Vma>, i: nat, addr: nat)
    requires Ordered(vmas) && i < |vmas| && Contains(vmas[i], addr)
    ensures Translate(vmas, addr) == Image(vmas[i], addr)
  {
    if i > 0 {
      assert !Contains(vmas[0], addr);
      TranslateAt(vmas[1..], i - 1, addr);
    }
  }

  lemma {:induction false} TranslateNone(vmas: seq<Vma>, addr: nat)
    requires forall i :: 0 <= i < |vmas| ==> !Contains(vmas[i], addr)
    ensures Translate(vmas, addr) == Unmapped
  {
    if vmas != [] { TranslateNone(vmas[1..], addr); }
  }

  lemma {:induction false} TranslateFound(vmas: seq<Vma>, addr: nat) returns (i: int)
    ensures -1 <= i < |vmas|
    ensures i < 0 ==> (forall j :: 0 <= j < |vmas| ==> !Contains(vmas[j], addr)) && Translate(vmas, addr) == Unmapped
    ensures i >= 0 ==> Contains(vmas[i], addr) && Translate(vmas, addr) == Image(vmas[i], addr)
  {
    if vmas == [] {
      i := -1;
    } else if Contains(vmas[0], addr) {
      i := 0;
    } else {
      i := TranslateFound(vmas[1..], addr);
      if i >= 0 { i := i + 1; } else {
        forall j | 0 <= j < |vmas| ensures !Contains(vmas[j], addr) { if j > 0 { assert vmas[j] == vmas[1..][j - 1]; } }
      }
    }
  }

  /** The user half of the address space; address 0 is not in it. */
  predicate UserAddress(a: nat) {
    0 < a < 0xFFFF_FFC0_0000_0000
  }

  /** valid_user_area */
  predicate UserArea(begin: nat, end: nat) {
    begin <= end && UserAddress(begin) && UserAddress(end)
  }

  ghost predicate UserAreas(vmas: seq<Vma>) {
    forall i :: 0 <= i < |vmas| ==> UserArea(vmas[i].begin, vmas[i].end)
  }

  lemma Unique(vmas: seq<Vma>, i: nat, j: nat, addr: nat)
    requires Ordered(vmas) && i < |vmas| && j < |vmas| && Contains(vmas[i], addr) && Contains(vmas[j], addr)
    ensures i == j
  {}

  /** m is a part of VMA v that maps what v maps there. */
  predicate PartOf(m: Vma, v: Vma) {
    && v.begin <= m.begin < m.end <= v.end
    && m == v.(begin := m.begin, end := m.end, memOffset := v.memOffset + (m.begin - v.begin))
  }

  lemma ReplaceOrdered(vmas: seq<Vma>, i: nat, m: Vma)
    requires Ordered(vmas) && i < |vmas| && PartOf(m, vmas[i])
    ensures Ordered(vmas[i := m])
  {}

  /** Cutting a VMA down to a part of itself unmaps exactly the rest of it. */
  lemma Replace(vmas: seq<Vma>, i: nat, m: Vma, addr: nat)
    requires Ordered(vmas) && i < |vmas| && PartOf(m, vmas[i])
    ensures Translate(vmas[i := m], addr)
         == if Contains(vmas[i], addr) && !Contains(m, addr) then Unmapped else Translate(vmas, addr)
  {
    var vmas' := vmas[i := m];
    ReplaceOrdered(vmas, i, m);
    var k := TranslateFound(vmas, addr);
    if k < 0 {
      TranslateNone(vmas', addr);
    } else if Contains(vmas'[k], addr) {
      TranslateAt(vmas', k, addr);
      if Contains(vmas[i], addr) { Unique(vmas, i, k, addr); }
    } else {
      forall j | 0 <= j < |vmas'| ensures !Contains(vmas'[j], addr) {
        if Contains(vmas'[j], addr) { Unique(vmas, j, k, addr); }
      }
      TranslateNone(vmas', addr);
    }
  }

  lemma RemoveOrdered(vmas: seq<Vma>, i: nat)
    requires Ordered(vmas) && i < |vmas|
    ensures Ordered(vmas[..i] + vmas[i + 1..])
  {
    var vmas' := vmas[..i] + vmas[i + 1..];
    assert forall j :: 0 <= j < |vmas'| ==> vmas'[j] == if j < i then vmas[j] else vmas[j + 1];
  }

  /** Removing a VMA unmaps exactly its area. */
  lemma Remove(vmas: seq<Vma>, i: nat, addr: nat)
    requires Ordered(vmas) && i < |vmas|
    ensures Translate(vmas[..i] + vmas[i + 1..], addr) == if Contains(vmas[i], addr) then Unmapped
            else Translate(vmas, addr)
  {
    hide Ordered;
    var vmas' := vmas[..i] + vmas[i + 1..];
    RemoveOrdered(vmas, i);
    var k := TranslateFound(vmas, addr);
    if k >= 0 && k != i {
      TranslateAt(vmas', if k < i then k else k - 1, addr);
      if Contains(vmas[i], addr) { Unique(vmas, i, k, addr); }
    } else {
      forall j | 0 <= j < |vmas'| ensures !Contains(vmas'[j], addr) {
        if k == i && Contains(vmas'[j], addr) { Unique(vmas, if j < i then j else j + 1, i, addr); }
      }
      TranslateNone(vmas', addr);
    }
  }

  /** add_vma puts m before the first VMA that begins above it. */
  ghost predicate InsertsAt(vmas: seq<Vma>, m: Vma, k: nat) {
    && k <= |vmas|
    && (forall j :: 0 <= j < k ==> vmas[j].begin <= m.begin)
    && (k < |vmas| ==> m.begin < vmas[k].begin)
  }

  lemma InsertOrdered(vmas: seq<Vma>, m: Vma, k: nat)
    requires Ordered(vmas) && InsertsAt(vmas, m, k)
    requires !Empty(m) ==> forall j :: 0 <= j < |vmas| ==> !Meets(vmas[j], m.begin, m.end)
    ensures Ordered(vmas[..k] + [m] + vmas[k..])
  {
    var vmas' := vmas[..k] + [m] + vmas[k..];
    forall i, j | 0 <= i < j < |vmas'| && !Empty(vmas'[j])
      ensures vmas'[i].begin <= vmas'[j].begin && (!Empty(vmas'[i]) ==> vmas'[i].end <= vmas'[j].begin)
    {
      if j > k {
        assert vmas'[j] == vmas[j - 1];
        assert vmas[k].begin <= vmas[j - 1].begin;
      }
    }
  }

  /** Adding a VMA maps exactly its area. */
  lemma Insert(vmas: seq<Vma>, m: Vma, k: nat, addr: nat)
    requires Ordered(vmas) && k <= |vmas| && Ordered(vmas[..k] + [m] + vmas[k..])
    ensures Translate(vmas[..k] + [m] + vmas[k..], addr) == if Contains(m, addr) then Image(m, addr)
            else Translate(vmas, addr)
  {
    hide Ordered;
    var vmas' := vmas[..k] + [m] + vmas[k..];
    if Contains(m, addr) {
      TranslateAt(vmas', k, addr);
    } else {
      var j := TranslateFound(vmas, addr);
      if j >= 0 {
        TranslateAt(vmas', if j < k then j else j + 1, addr);
      } else {
        TranslateNone(vmas', addr);
      }
    }
  }

  /** The other VMAs do not meet the area of VMA i. */
  lemma OthersApart(vmas: seq<Vma>, i: nat, begin: nat, end: nat)
    requires Ordered(vmas) && i < |vmas| && vmas[i].begin <= begin && end <= vmas[i].end
    ensures forall j :: 0 <= j < |vmas| && j != i ==> !Meets(vmas[j], begin, end)
  {}

  lemma BeginsBelow(vmas: seq<Vma>, i: nat)
    requires Ordered(vmas) && i < |vmas| && !Empty(vmas[i])
    ensures forall j :: 0 <= j <= i ==> vmas[j].begin <= vmas[i].begin
  {}

  datatype Outcome = Ok | Busy | InvalidParam

  predicate Sorted(vmas: seq<Vma>) {
    forall i, j :: 0 <= i < j < |vmas| ==> vmas[i].begin <= vmas[j].begin
  }

  /** VMA i of the list begins in the range and reaches past its end. */
  predicate FrontCut(m: Vma, begin: nat, end: nat) {
    begin <= m.begin < end < m.end
  }

  /** Some VMA behind a front-cut one begins below the end of the range, where the cut one will begin. */
  ghost predicate Strands(vmas: seq<Vma>, begin: nat, end: nat) {
    exists i, j :: 0 <= i < j < |vmas| && FrontCut(vmas[i], begin, end) && vmas[j].begin < end
  }

  lemma SortedInsert(vmas: seq<Vma>, m: Vma, k: nat)
    requires Sorted(vmas) && InsertsAt(vmas, m, k)
    ensures Sorted(vmas[..k] + [m] + vmas[k..])
  {}

  /** A front cut of VMA i keeps the list sorted exactly when no later VMA begins below the cut. */
  lemma SortedAfterCut(vmas: seq<Vma>, i: nat, m: Vma)
    requires Sorted(vmas) && i < |vmas| && vmas[i].begin <= m.begin
    ensures Sorted(vmas[i := m]) <==> forall j :: i < j < |vmas| ==> m.begin <= vmas[j].begin
  {
    var v := vmas[i := m];
    if Sorted(v) {
      forall j | i < j < |vmas| ensures m.begin <= vmas[j].begin { assert v[i].begin <= v[j].begin; }
    }
  }

  /** The only VMA that a range can cut at the front contains its end. */
  lemma StrandsAt(vmas: seq<Vma>, i: nat, begin: nat, end: nat)
    requires Ordered(vmas) && i < |vmas| && FrontCut(vmas[i], begin, end)
    ensures Strands(vmas, begin, end) <==> exists j :: i < j < |vmas| && vmas[j].begin < end
  {
    if Strands(vmas, begin, end) {
      var k, j :| 0 <= k < j < |vmas| && FrontCut(vmas[k], begin, end) && vmas[j].begin < end;
      Unique(vmas, i, k, end);
    }
  }

  /** Without a VMA that meets the range nothing is cut at the front. */
  lemma StrandsNone(vmas: seq<Vma>, begin: nat, end: nat)
    requires forall j :: 0 <= j < |vmas| ==> !FrontCut(vmas[j], begin, end)
    ensures !Strands(vmas, begin, end)
  {}

  /** A VMA inside the range is not cut at the front, and lies before every VMA that is. */
  lemma InsideApart(vmas: seq<Vma>, i: nat, k: nat, begin: nat, end: nat)
    requires Ordered(vmas) && i < |vmas| && k < |vmas| && !Empty(vmas[i]) && vmas[i].end <= end &&
             FrontCut(vmas[k], begin, end)
    ensures k != i && (k < i ==> vmas[i].begin >= end)
  {}

  /** Only empty VMAs can be stranded. */
  lemma EmptyStrands(vmas: seq<Vma>, begin: nat, end: nat)
    requires Ordered(vmas) && forall j :: 0 <= j < |vmas| ==> !Empty(vmas[j])
    ensures !Strands(vmas, begin, end)
  {
    forall i, j | 0 <= i < j < |vmas| && FrontCut(vmas[i], begin, end) ensures vmas[j].begin >= end {
      assert !Empty(vmas[i]) && !Empty(vmas[j]);
    }
  }

  function Skip(i: nat, k: nat): nat {
    if k < i then k else k + 1
  }

  function Unskip(i: nat, k: nat): nat
    requires k != i
  {
    if k < i then k else k - 1
  }

  /** v is the list without VMA i. */
  ghost predicate Removed(vmas: seq<Vma>, v: seq<Vma>, i: nat) {
    i < |vmas| && |v| == |vmas| - 1 && forall k: nat :: k < |v| ==> v[k] == vmas[Skip(i, k)]
  }

  lemma SortedRemove(vmas: seq<Vma>, v: seq<Vma>, i: nat)
    requires Removed(vmas, v, i) && Sorted(vmas)
    ensures Sorted(v)
  {
    forall j, k | 0 <= j < k < |v| ensures v[j].begin <= v[k].begin { assert Skip(i, j) < Skip(i, k); }
  }

  /** Taking out a VMA inside the range strands nothing and saves nothing. */
  lemma StrandsRemove(vmas: seq<Vma>, v: seq<Vma>, i: nat, begin: nat, end: nat)
    requires Ordered(vmas) && Removed(vmas, v, i) && !Empty(vmas[i]) && vmas[i].end <= end
    ensures Strands(v, begin, end) <==> Strands(vmas, begin, end)
  {
    hide Ordered, FrontCut;
    if Strands(vmas, begin, end) {
      var k, j :| 0 <= k < j < |vmas| && FrontCut(vmas[k], begin, end) && vmas[j].begin < end;
      InsideApart(vmas, i, k, begin, end);
      assert v[Unskip(i, k)] == vmas[k] && v[Unskip(i, j)] == vmas[j];
    }
    if Strands(v, begin, end) {
      var k, j :| 0 <= k < j < |v| && FrontCut(v[k], begin, end) && v[j].begin < end;
      assert vmas[Skip(i, k)] == v[k] && vmas[Skip(i, j)] == v[j];
    }
  }

  /** Behind a VMA cut at the front no VMA meets the range. */
  lemma BehindApart(vmas: seq<Vma>, i: nat, begin: nat, end: nat)
    requires Ordered(vmas) && i < |vmas| && FrontCut(vmas[i], begin, end)
    ensures forall j :: i < j < |vmas| ==> !Meets(vmas[j], begin, end)
  {}

  /** Cutting off the tail of a VMA that ends inside the range moves no begin. */
  lemma StrandsTail(vmas: seq<Vma>, i: nat, m: Vma, begin: nat, end: nat)
    requires i < |vmas| && m.begin == vmas[i].begin && m.end <= end && vmas[i].end <= end
    ensures Strands(vmas[i := m], begin, end) <==> Strands(vmas, begin, end)
    ensures Sorted(vmas) ==> Sorted(vmas[i := m])
  {
    var v := vmas[i := m];
    if Strands(vmas, begin, end) {
      var k, j :| 0 <= k < j < |vmas| && FrontCut(vmas[k], begin, end) && vmas[j].begin < end;
      assert v[k] == vmas[k] && v[j].begin == vmas[j].begin;
    }
    if Strands(v, begin, end) {
      var k, j :| 0 <= k < j < |v| && FrontCut(v[k], begin, end) && v[j].begin < end;
      assert v[k] == vmas[k] && v[j].begin == vmas[j].begin;
    }
  }

  /** What one cut does to sortedness: it decides it, or leaves the question as it was. */
  ghost predicate Decides(old': seq<Vma>, vmas: seq<Vma>, begin: nat, end: nat, decided: bool) {
    Sorted(old') ==>
      if decided then Sorted(vmas) <==> !Strands(old', begin, end)
      else Sorted(vmas) && (Strands(vmas, begin, end) <==> Strands(old', begin, end))
  }

  /** The refusals of add_vma and, if there is none, the place of m by begin. */
  method Place(vmas: seq<Vma>, m: Vma) returns (r: Outcome, k: nat)
    ensures r == InvalidParam <==> !UserArea(m.begin, m.end)
    ensures r == Busy <==>
            (UserArea(m.begin, m.end) && !Empty(m) && exists j :: 0 <= j < |vmas| && Meets(vmas[j], m.begin, m.end))
    ensures r == Ok ==> InsertsAt(vmas, m, k)
  {
    k := 0;
    if !UserArea(m.begin, m.end) { return InvalidParam, 0; }
    if !Empty(m) {
      for j := 0 to |vmas|
        invariant forall l :: 0 <= l < j ==> !Meets(vmas[l], m.begin, m.end)
      {
        if Meets(vmas[j], m.begin, m.end) { return Busy, 0; }
      }
    }
    while k < |vmas| && vmas[k].begin <= m.begin
      invariant k <= |vmas| && forall j :: 0 <= j < k ==> vmas[j].begin <= m.begin
    {
      k := k + 1;
    }
    r := Ok;
  }

  class VmaTable {
    var vmas: seq<Vma>

    constructor ()
      ensures vmas == []
    {
      vmas := [];
    }

    ghost predicate Valid()
      reads this
    {
      Ordered(vmas) && UserAreas(vmas)
    }

    /** add_vma */
    method AddVma(m: Vma) returns (r: Outcome, k: nat)
      requires Valid()
      modifies this
      ensures Valid()
      ensures r == InvalidParam <==> !UserArea(m.begin, m.end)
      ensures r == Busy <==>
              UserArea(m.begin, m.end) && !Empty(m) && exists j ::
                  0 <= j < |old(vmas)| && Meets(old(vmas)[j], m.begin, m.end)
      ensures r != Ok ==> vmas == old(vmas)
      ensures r == Ok ==> InsertsAt(old(vmas), m, k) && vmas == old(vmas)[..k] + [m] + old(vmas)[k..]
      ensures Sorted(old(vmas)) ==> Sorted(vmas)
      ensures r == Ok ==>
              forall addr: nat :: Translate(vmas, addr) == if Contains(m, addr) then Image(m, addr)
                  else Translate(old(vmas), addr)
    {
      hide Sorted;
      r, k := Place(vmas, m);
      if r != Ok { return; }
      InsertOrdered(vmas, m, k);
      forall addr: nat
        ensures Translate(vmas[..k] + [m] + vmas[k..], addr) == if Contains(m, addr) then Image(m, addr)
                else Translate(vmas, addr)
      {
        Insert(vmas, m, k, addr);
      }
      if Sorted(vmas) { SortedInsert(vmas, m, k); }
      vmas := vmas[..k] + [m] + vmas[k..];
    }

    /** remove_vma_range: afterwards exactly the addresses outside [begin, end) translate as before. */
    method RemoveVmaRange(begin: nat, end: nat) returns (r: Outcome)
      requires Valid()
      modifies this
      ensures Valid() && r != Busy
      ensures r == InvalidParam <==> begin < end && !UserArea(begin, end)
      ensures r == InvalidParam ==> vmas == old(vmas)
      ensures r == Ok ==>
              forall addr: nat :: Translate(vmas, addr) == if begin <= addr < end then Unmapped
                  else Translate(old(vmas), addr)
      ensures r == Ok && Sorted(old(vmas)) ==> (Sorted(vmas) <==> !Strands(old(vmas), begin, end))
    {
      hide Ordered, Translate, UserAreas, PartOf, Strands, Sorted;
      if begin >= end {
        StrandsNone(vmas, begin, end);
        return Ok;
      }
      if !UserArea(begin, end) { return InvalidParam; }
      var i := 0;
      var split := false;
      ghost var decided := false;
      while i < |vmas|
        invariant Valid() && i <= |vmas|
        invariant forall j :: 0 <= j < i || (split && j < |vmas|) ==> 0 <= j ==> !Meets(vmas[j], begin, end)
        invariant forall addr: nat :: !(begin <= addr < end) ==> Translate(vmas, addr) == Translate(old(vmas), addr)
        invariant decided ==> forall j :: 0 <= j < |vmas| ==> !Meets(vmas[j], begin, end)
        invariant Decides(old(vmas), vmas, begin, end, decided)
        decreases |vmas| - i + (if split then 0 else 1)
      {
        var s; ghost var d;
        i, s, d := CutOne(i, begin, end);
        split, decided := split || s, decided || d;
      }
      StrandsNone(vmas, begin, end);
      forall addr: nat | begin <= addr < end ensures Translate(vmas, addr) == Unmapped {
        TranslateNone(vmas, addr);
      }
      r := Ok;
    }

    /** One round of the loop: cut VMA i; split says that its middle was taken out. */
    method CutOne(i: nat, begin: nat, end: nat) returns (next: nat, split: bool, ghost decided: bool)
      requires Valid() && i < |vmas| && begin < end && UserArea(begin, end)
      modifies this
      ensures Valid() && i <= next <= |vmas| && vmas[..i] == old(vmas)[..i]
      ensures forall j :: i <= j < next ==> !Meets(vmas[j], begin, end)
      ensures split ==> Meets(old(vmas)[i], begin, end) && forall j :: i <= j < |vmas| ==> !Meets(vmas[j], begin, end)
      ensures !split ==> |vmas| - next < |old(vmas)| - i && forall j :: next <= j < |vmas| ==> vmas[j] in old(vmas)[i..]
      ensures split ==> |vmas| - next <= |old(vmas)| - i
      ensures !Meets(old(vmas)[i], begin, end) ==> vmas == old(vmas) && !decided
      ensures decided ==> forall j :: i <= j < |vmas| ==> !Meets(vmas[j], begin, end)
      ensures Decides(old(vmas), vmas, begin, end, decided)
      ensures forall addr: nat :: !(begin <= addr < end) ==> Translate(vmas, addr) == Translate(old(vmas), addr)
    {
      hide Ordered, Translate, Sorted, Strands;
      var m := vmas[i];
      if !Meets(m, begin, end) { return i + 1, false, false; }
      var b := if begin > m.begin then begin else m.begin;
      var e := if end < m.end then end else m.end;
      if b == m.begin && e == m.end {
        ghost var v := vmas[..i] + vmas[i + 1..];
        StrandsRemove(vmas, v, i, begin, end);
        if Sorted(vmas) { SortedRemove(vmas, v, i); }
        RemoveAt(i);
        return i, false, false;
      }
      if b == m.begin {
        var n := m.(begin := e, memOffset := m.memOffset + (e - m.begin));
        if Sorted(vmas) { SortedAfterCut(vmas, i, n); }
        StrandsAt(vmas, i, begin, end);
        BehindApart(vmas, i, begin, end);
        Shrink(i, n);
        return i + 1, false, true;
      }
      if e == m.end {
        StrandsTail(vmas, i, m.(end := b), begin, end);
        Shrink(i, m.(end := b));
        return i + 1, false, false;
      }
      OthersApart(vmas, i, begin, end);
      StrandsNone(vmas, begin, end);
      var k := SplitAt(i, b, e);
      next, split, decided := if k == i + 1 then i + 2 else i + 1, true, true;
    }

    /** Take [b, e) out of the middle of VMA i; the right part goes where add_vma puts it. */
    method SplitAt(i: nat, b: nat, e: nat) returns (k: nat)
      requires Valid() && i < |vmas| && vmas[i].begin < b < e < vmas[i].end
      modifies this
      ensures Valid() && i < k <= |old(vmas)|
      ensures var m := old(vmas)[i]; var cut := old(vmas)[i := m.(end := b)];
              vmas == cut[..k] + [m.(begin := e, memOffset := m.memOffset + (b - m.begin) + (e - b))] + cut[k..]
      ensures Sorted(old(vmas)) ==> Sorted(vmas)
      ensures forall addr: nat :: !(b <= addr < e) ==> Translate(vmas, addr) == Translate(old(vmas), addr)
    {
      hide Ordered, Translate;
      var m := vmas[i];
      Shrink(i, m.(end := b));
      var right := m.(begin := e, memOffset := m.memOffset + (b - m.begin) + (e - b));
      OthersApart(old(vmas), i, m.begin, m.end);
      BeginsBelow(vmas, i);
      var r;
      r, k := AddVma(right);
      forall addr: nat | Contains(m, addr) ensures Translate(old(vmas), addr) == Image(m, addr) {
        TranslateAt(old(vmas), i, addr);
      }
    }

    /** Take VMA i out of the list. */
    method RemoveAt(i: nat)
      requires Valid() && i < |vmas|
      modifies this
      ensures Valid() && vmas == old(vmas)[..i] + old(vmas)[i + 1..]
      ensures forall addr: nat ::
              Translate(vmas, addr) == if Contains(old(vmas)[i], addr) then Unmapped else Translate(old(vmas), addr)
    {
      hide Ordered, Translate;
      RemoveOrdered(vmas, i);
      forall addr: nat
        ensures Translate(vmas[..i] + vmas[i + 1..], addr) == if Contains(vmas[i], addr) then Unmapped
                else Translate(vmas, addr)
      {
        Remove(vmas, i, addr);
      }
      vmas := vmas[..i] + vmas[i + 1..];
    }

    /** Cut VMA i down to a part of itself. */
    method Shrink(i: nat, m: Vma)
      requires Valid() && i < |vmas| && PartOf(m, vmas[i])
      modifies this
      ensures Valid() && vmas == old(vmas)[i := m]
      ensures forall addr: nat ::
              Translate(vmas, addr) == if Contains(old(vmas)[i], addr) && !Contains(m, addr) then Unmapped
                  else Translate(old(vmas), addr)
    {
      hide Ordered, Translate;
      ReplaceOrdered(vmas, i, m);
      forall addr: nat
        ensures Translate(vmas[i := m], addr) == if Contains(vmas[i], addr) && !Contains(m, addr) then Unmapped
                else Translate(vmas, addr)
      {
        Replace(vmas, i, m, addr);
      }
      vmas := vmas[i := m];
    }
  }

  /**
   The list need not stay sorted by begin: an empty VMA is not checked for overlap, so it can lie
   inside another one, and cutting the front of that one moves its begin past the empty VMA.
   */
  lemma NotAlwaysSorted()
    ensures var a, e := Vma(0x1000, 0x5000, 1, 0, true, true, false), Vma(0x2000, 0x2000, 2, 0, true, true, false);
            && Ordered([a, e]) && Sorted([a, e])
            && PartOf(a.(begin := 0x3000, memOffset := 0x2000), a)
            && !Sorted([a, e][0 := a.(begin := 0x3000, memOffset := 0x2000)])
  {
    var a, e := Vma(0x1000, 0x5000, 1, 0, true, true, false), Vma(0x2000, 0x2000, 2, 0, true, true, false);
    var v := [a, e][0 := a.(begin := 0x3000, memOffset := 0x2000)];
    assert v[0].begin > v[1].begin;
  }
}
