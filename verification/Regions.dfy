/**
 The memory-region normaliser: merging, trimming FREE regions, resolving overlaps of the other
 statuses by a boundary sweep, and a final merge.  The meaning is pointwise, address by address;
 the result is the one normal list with that meaning, so normalising twice changes nothing.
 */
module Regions {
  datatype Status = FREE | RESERVED | BOOT_RECLAIMABLE | ACPI_RECLAIMABLE | ACPI_NVS | IOMMU | BAD_MEMORY

  function Rank(s: Status): nat {
    match s
    case FREE => 0
    case RESERVED => 1
    case BOOT_RECLAIMABLE => 2
    case ACPI_RECLAIMABLE => 3
    case ACPI_NVS => 4
    case IOMMU => 5
    case BAD_MEMORY => 6
  }

  datatype Area = Area(begin: nat, end: nat)

  datatype Region = Region(status: Status, area: Area)

  predicate IsEmpty(a: Area) {
    a.begin >= a.end
  }

  predicate Covers(a: Area, x: nat) {
    a.begin <= x < a.end
  }

  predicate Mergeable(l: Region, r: Region) {
    l.status == r.status && r.area.begin <= l.area.end
  }

  predicate Less(l: Region, r: Region) {
    if l.area.begin != r.area.begin then l.area.begin < r.area.begin
    else if l.area.end != r.area.end then l.area.end < r.area.end
    else Rank(l.status) < Rank(r.status)
  }

  // ---------- pointwise meaning ----------

  predicate Hits(r: Region, s: Status, x: nat) {
    r.status == s && Covers(r.area, x)
  }

  /** Some region of status s covers address x. */
  ghost predicate Has(rs: seq<Region>, s: Status, x: nat) {
    exists i :: 0 <= i < |rs| && Hits(rs[i], s, x)
  }

  /** How many regions other than FREE cover x. */
  ghost function Load(rs: seq<Region>, x: nat): nat {
    if rs == [] then 0
    else Load(rs[..|rs| - 1], x) + if rs[|rs| - 1].status != FREE && Covers(rs[|rs| - 1].area, x) then 1 else 0
  }

  ghost predicate SameHas(p: seq<Region>, q: seq<Region>) {
    forall s: Status, x: nat :: Has(p, s, x) <==> Has(q, s, x)
  }

  /** No address has two statuses. */
  ghost predicate Unambiguous(rs: seq<Region>) {
    forall s: Status, t: Status, x: nat :: Has(rs, s, x) && Has(rs, t, x) ==> s == t
  }

  lemma HasAppend(rs: seq<Region>, r: Region, s: Status, x: nat)
    ensures Has(rs + [r], s, x) <==> Has(rs, s, x) || Hits(r, s, x)
  {
    var rs' := rs + [r];
    if Has(rs, s, x) {
      var i :| 0 <= i < |rs| && Hits(rs[i], s, x);
      assert Hits(rs'[i], s, x);
    }
    assert rs'[|rs|] == r;
  }

  lemma LoadAppend(rs: seq<Region>, r: Region, x: nat)
    ensures Load(rs + [r], x) == Load(rs, x) + if r.status != FREE && Covers(r.area, x) then 1 else 0
  {
    assert (rs + [r])[..|rs|] == rs;
  }

  /** The load is positive exactly where some region other than FREE lies. */
  lemma {:induction false} LoadHas(rs: seq<Region>, x: nat)
    ensures Load(rs, x) > 0 <==> exists s: Status :: s != FREE && Has(rs, s, x)
  {
    if rs != [] {
      var last := |rs| - 1;
      LoadHas(rs[..last], x);
      assert rs == rs[..last] + [rs[last]];
      forall s: Status ensures Has(rs, s, x) <==> Has(rs[..last], s, x) || Hits(rs[last], s, x) {
        HasAppend(rs[..last], rs[last], s, x);
      }
      assert Hits(rs[last], rs[last].status, x) <==> Covers(rs[last].area, x);
    }
  }

  /** Two statuses at one address load it twice. */
  lemma {:induction false} TwoStatuses(rs: seq<Region>, s: Status, t: Status, x: nat)
    requires s != FREE && t != FREE && s != t && Has(rs, s, x) && Has(rs, t, x)
    ensures Load(rs, x) >= 2
  {
    var last := |rs| - 1;
    assert rs == rs[..last] + [rs[last]];
    HasAppend(rs[..last], rs[last], s, x);
    HasAppend(rs[..last], rs[last], t, x);
    LoadHas(rs[..last], x);
    if Has(rs[..last], s, x) && Has(rs[..last], t, x) { TwoStatuses(rs[..last], s, t, x); }
  }

  // ---------- sorting ----------

  function Insert(r: Region, rs: seq<Region>): seq<Region> {
    if rs == [] then [r]
    else if Less(r, rs[|rs| - 1]) then Insert(r, rs[..|rs| - 1]) + [rs[|rs| - 1]]
    else rs + [r]
  }

  /** The regions in the order of Less. */
  function Sort(rs: seq<Region>): seq<Region> {
    if rs == [] then [] else Insert(rs[|rs| - 1], Sort(rs[..|rs| - 1]))
  }

  /** No region sorts strictly before an earlier one. */
  ghost predicate InOrder(rs: seq<Region>) {
    forall i, j :: 0 <= i < j < |rs| ==> !Less(rs[j], rs[i])
  }

  lemma {:induction false} InsertBag(r: Region, rs: seq<Region>)
    ensures multiset(Insert(r, rs)) == multiset(rs) + multiset{r}
  {
    hide Less;
    if rs != [] {
      assert rs == rs[..|rs| - 1] + [rs[|rs| - 1]];
      InsertBag(r, rs[..|rs| - 1]);
    }
  }

  lemma {:induction false} InsertInOrder(r: Region, rs: seq<Region>)
    requires InOrder(rs)
    ensures InOrder(Insert(r, rs))
  {
    if rs != [] && Less(r, rs[|rs| - 1]) {
      var init, last := rs[..|rs| - 1], rs[|rs| - 1];
      InsertInOrder(r, init);
      InsertMembers(r, init);
      var more := Insert(r, init);
      forall i | 0 <= i < |more| ensures !Less(last, more[i]) { assert more[i] in more; }
    }
  }

  /** By begin, then by end, then by the number of the status. */
  ghost predicate ByFields(rs: seq<Region>) {
    forall i, j :: 0 <= i < j < |rs| ==>
      var l, r := rs[i], rs[j];
      && l.area.begin <= r.area.begin && (l.area.begin == r.area.begin ==> l.area.end <= r.area.end)
      && (l.area == r.area ==> Rank(l.status) <= Rank(r.status))
  }

  lemma OrderIsByFields(rs: seq<Region>)
    ensures InOrder(rs) <==> ByFields(rs)
  {
    forall l: Region, r: Region
      ensures !Less(r, l) <==>
              (l.area.begin <= r.area.begin && (l.area.begin == r.area.begin ==> l.area.end <= r.area.end)
               && (l.area == r.area ==> Rank(l.status) <= Rank(r.status)))
    {
      assert l.area == r.area <==> l.area.begin == r.area.begin && l.area.end == r.area.end;
    }
  }

  /** Sorting rearranges the regions by begin, end and status. */
  lemma Sorted(rs: seq<Region>)
    ensures ByFields(Sort(rs)) && multiset(Sort(rs)) == multiset(rs)
  {
    SortInOrder(rs);
    OrderIsByFields(Sort(rs));
  }

  lemma {:induction false} SortInOrder(rs: seq<Region>)
    ensures InOrder(Sort(rs)) && multiset(Sort(rs)) == multiset(rs)
  {
    hide Insert, InOrder;
    if rs == [] {
      NoneInOrder();
    } else {
      var init, last := rs[..|rs| - 1], rs[|rs| - 1];
      assert rs == init + [last];
      SortInOrder(init);
      InsertInOrder(last, Sort(init));
      InsertBag(last, Sort(init));
    }
  }

  lemma NoneInOrder()
    ensures InOrder([])
  {}

  lemma LastIs(p: seq<Region>, q: seq<Region>)
    requires InOrder(p) && multiset(p) == multiset(q) && |p| == |q| > 0
    ensures !Less(p[|p| - 1], q[|q| - 1])
  {
    assert q[|q| - 1] in multiset(q);
    assert q[|q| - 1] in p;
    var i :| 0 <= i < |p| && p[i] == q[|q| - 1];
  }

  lemma SameSize(p: seq<Region>, q: seq<Region>)
    requires multiset(p) == multiset(q)
    ensures |p| == |q|
  {
    assert |multiset(p)| == |p| && |multiset(q)| == |q|;
  }

  lemma InitOrder(p: seq<Region>, n: nat)
    requires n <= |p| && InOrder(p)
    ensures InOrder(p[..n])
  {
    hide Less;
  }

  lemma InitBag(p: seq<Region>)
    requires p != []
    ensures multiset(p[..|p| - 1]) == multiset(p) - multiset{p[|p| - 1]}
  {
    assert p == p[..|p| - 1] + [p[|p| - 1]];
  }

  lemma SameInit(p: seq<Region>, q: seq<Region>)
    requires p != [] && q != [] && p[|p| - 1] == q[|q| - 1] && p[..|p| - 1] == q[..|q| - 1]
    ensures p == q
  {
    assert p == p[..|p| - 1] + [p[|p| - 1]] && q == q[..|q| - 1] + [q[|q| - 1]];
  }

  lemma LessDecides(l: Region, r: Region)
    requires !Less(l, r) && !Less(r, l)
    ensures l == r
  {}

  /** Less decides between any two regions, so the order is unique: no sorting algorithm can give another. */
  lemma {:induction false} OrderUnique(p: seq<Region>, q: seq<Region>)
    requires InOrder(p) && InOrder(q) && multiset(p) == multiset(q)
    ensures p == q
    decreases |p|
  {
    hide InOrder, Less;
    SameSize(p, q);
    if p != [] {
      var n := |p| - 1;
      LastIs(p, q);
      LastIs(q, p);
      LessDecides(p[n], q[n]);
      InitOrder(p, n);
      InitOrder(q, n);
      InitBag(p);
      InitBag(q);
      OrderUnique(p[..n], q[..n]);
      SameInit(p, q);
    }
  }

  ghost predicate ByBegin(rs: seq<Region>) {
    forall i, j :: 0 <= i < j < |rs| ==> rs[i].area.begin <= rs[j].area.begin
  }

  lemma {:induction false} InsertFacts(r: Region, rs: seq<Region>, s: Status, x: nat)
    ensures Has(Insert(r, rs), s, x) <==> Has(rs + [r], s, x)
    ensures Load(Insert(r, rs), x) == Load(rs + [r], x)
  {
    if rs != [] && Less(r, rs[|rs| - 1]) {
      var init, last := rs[..|rs| - 1], rs[|rs| - 1];
      InsertFacts(r, init, s, x);
      HasAppend(Insert(r, init), last, s, x);
      LoadAppend(Insert(r, init), last, x);
      HasAppend(init, r, s, x);
      LoadAppend(init, r, x);
      assert rs == init + [last];
      HasAppend(init, last, s, x);
      LoadAppend(init, last, x);
      HasAppend(rs, r, s, x);
      LoadAppend(rs, r, x);
    } else {
      assert [r] == [] + [r];
    }
  }

  lemma {:induction false} SortFacts(rs: seq<Region>, s: Status, x: nat)
    ensures Has(Sort(rs), s, x) <==> Has(rs, s, x)
    ensures Load(Sort(rs), x) == Load(rs, x)
  {
    hide Has, Load, Insert;
    if rs != [] {
      var init, last := rs[..|rs| - 1], rs[|rs| - 1];
      SortFacts(init, s, x);
      InsertFacts(last, Sort(init), s, x);
      HasAppend(Sort(init), last, s, x);
      LoadAppend(Sort(init), last, x);
      assert rs == init + [last];
      HasAppend(init, last, s, x);
      LoadAppend(init, last, x);
    }
  }

  lemma {:induction false} InsertMembers(r: Region, rs: seq<Region>)
    ensures forall y :: y in Insert(r, rs) <==> y in rs || y == r
  {
    if rs != [] && Less(r, rs[|rs| - 1]) {
      InsertMembers(r, rs[..|rs| - 1]);
      assert rs == rs[..|rs| - 1] + [rs[|rs| - 1]];
    }
  }

  lemma SortSorted(rs: seq<Region>)
    ensures ByBegin(Sort(rs))
  {
    SortInOrder(rs);
  }

  // ---------- normal lists ----------

  /** Neighbours i and i+1 neither overlap nor could be merged. */
  ghost predicate Apart(rs: seq<Region>, i: nat) {
    i + 1 < |rs| ==>
        rs[i].area.end <= rs[i + 1].area.begin &&
            (rs[i].area.end == rs[i + 1].area.begin ==> rs[i].status != rs[i + 1].status)
  }

  /** Non-empty, in address order, disjoint, and no touching neighbours of one status. */
  ghost predicate Normal(rs: seq<Region>) {
    (forall i :: 0 <= i < |rs| ==> !IsEmpty(rs[i].area)) && forall i: nat :: Apart(rs, i)
  }

  lemma NormalTail(rs: seq<Region>)
    requires Normal(rs) && rs != []
    ensures Normal(rs[1..])
  {
    forall i: nat ensures Apart(rs[1..], i) { assert Apart(rs, i + 1); }
  }

  lemma {:induction false} NormalAfter(rs: seq<Region>, i: nat)
    requires Normal(rs) && 0 < i < |rs|
    ensures rs[0].area.end <= rs[i].area.begin
  {
    assert Apart(rs, i - 1);
    if i > 1 { NormalAfter(rs, i - 1); }
  }

  /** Beyond its first region a normal list is its tail. */
  lemma TailHas(rs: seq<Region>, s: Status, x: nat)
    requires Normal(rs) && rs != []
    ensures Has(rs[1..], s, x) <==> Has(rs, s, x) && x >= rs[0].area.end
  {
    if Has(rs[1..], s, x) {
      var i :| 0 <= i < |rs[1..]| && Hits(rs[1..][i], s, x);
      assert Hits(rs[i + 1], s, x);
      NormalAfter(rs, i + 1);
    }
    if Has(rs, s, x) && x >= rs[0].area.end {
      var i :| 0 <= i < |rs| && Hits(rs[i], s, x);
      assert Hits(rs[1..][i - 1], s, x);
    }
  }

  /** The first region starts at the lowest covered address. */
  lemma FirstIsLowest(rs: seq<Region>, s: Status, x: nat)
    requires Normal(rs) && Has(rs, s, x)
    ensures rs != [] && rs[0].area.begin <= x && Has(rs, rs[0].status, rs[0].area.begin)
  {
    var i :| 0 <= i < |rs| && Hits(rs[i], s, x);
    if i > 0 { NormalAfter(rs, i); }
    assert Hits(rs[0], rs[0].status, rs[0].area.begin);
  }

  lemma FirstStatus(rs: seq<Region>, s: Status, x: nat)
    requires Normal(rs) && rs != [] && Has(rs, s, x) && x < rs[0].area.end
    ensures s == rs[0].status
  {
    var i :| 0 <= i < |rs| && Hits(rs[i], s, x);
    if i > 0 { NormalAfter(rs, i); }
  }

  /** The first region ends where its status stops. */
  lemma FirstEnds(p: seq<Region>, q: seq<Region>)
    requires Normal(p) && Normal(q) && p != [] && q != [] && SameHas(p, q)
    requires p[0].area.begin == q[0].area.begin && p[0].status == q[0].status
    ensures p[0].area.end >= q[0].area.end
  {
    var x, s := p[0].area.end, q[0].status;
    if x < q[0].area.end {
      assert Hits(q[0], s, x);
      assert Has(p, s, x);
      TailHas(p, s, x);
      NormalTail(p);
      FirstIsLowest(p[1..], s, x);
      assert Apart(p, 0);
      FirstStatus(p[1..], s, x);
    }
  }

  /** A normal list is determined by its pointwise meaning. */
  lemma {:induction false} Canonical(p: seq<Region>, q: seq<Region>)
    requires Normal(p) && Normal(q) && SameHas(p, q)
    ensures p == q
    decreases |p|
  {
    if p == [] {
      assert q != [] ==> Hits(q[0], q[0].status, q[0].area.begin);
      assert q != [] ==> Has(p, q[0].status, q[0].area.begin);
    } else {
      assert Hits(p[0], p[0].status, p[0].area.begin);
      assert Has(q, p[0].status, p[0].area.begin);
      FirstIsLowest(q, p[0].status, p[0].area.begin);
      FirstIsLowest(p, q[0].status, q[0].area.begin);
      FirstStatus(q, p[0].status, p[0].area.begin);
      FirstEnds(p, q);
      FirstEnds(q, p);
      forall s: Status, x: nat ensures Has(p[1..], s, x) <==> Has(q[1..], s, x) { TailHas(p, s, x); TailHas(q, s, x); }
      NormalTail(p);
      NormalTail(q);
      Canonical(p[1..], q[1..]);
    }
  }

  // ---------- merging ----------

  /** Merging keeps the statuses of every address and never raises its load. */
  ghost predicate Merges(rs: seq<Region>, merged: seq<Region>) {
    SameHas(rs, merged) && forall x: nat :: Load(merged, x) <= Load(rs, x)
  }

  /** The state of the merge loop after the sorted prefix done. */
  ghost predicate Merging(done: seq<Region>, merged: seq<Region>) {
    && Merges(done, merged)
    && (forall i :: 0 <= i < |merged| ==> !IsEmpty(merged[i].area))
    && (merged != [] ==> done != [] && merged[|merged| - 1].area.begin <= done[|done| - 1].area.begin)
    && (Unambiguous(done) ==> Normal(merged))
  }

  lemma SkipEmpty(done: seq<Region>, merged: seq<Region>, r: Region)
    requires Merging(done, merged) && IsEmpty(r.area) && ByBegin(done + [r])
    ensures Merging(done + [r], merged)
  {
    hide Normal, Load;
    var done' := done + [r];
    forall s: Status, x: nat ensures Has(done', s, x) <==> Has(done, s, x) { HasAppend(done, r, s, x); }
    forall x: nat ensures Load(done', x) == Load(done, x) { LoadAppend(done, r, x); }
    if merged != [] { assert done'[|done| - 1].area.begin <= done'[|done|].area.begin; }
    if Unambiguous(done') { LessAmbiguous(done, r); }
  }

  lemma LessAmbiguous(done: seq<Region>, r: Region)
    requires Unambiguous(done + [r])
    ensures Unambiguous(done)
  {
    forall s: Status, t: Status, x: nat | Has(done, s, x) && Has(done, t, x) ensures s == t {
      HasAppend(done, r, s, x);
      HasAppend(done, r, t, x);
    }
  }

  /** A region that does not touch the last merged one starts a new one. */
  lemma PushStep(done: seq<Region>, merged: seq<Region>, r: Region)
    requires Merging(done, merged) && !IsEmpty(r.area) && ByBegin(done + [r]) &&
             (merged != [] ==> !Mergeable(merged[|merged| - 1], r))
    ensures Merging(done + [r], merged + [r])
  {
    hide Load;
    var done', merged' := done + [r], merged + [r];
    forall s: Status, x: nat ensures Has(done', s, x) <==> Has(merged', s, x) {
      HasAppend(done, r, s, x);
      HasAppend(merged, r, s, x);
    }
    forall x: nat ensures Load(merged', x) <= Load(done', x) { LoadAppend(done, r, x); LoadAppend(merged, r, x); }
    if Unambiguous(done') {
      LessAmbiguous(done, r);
      if merged != [] { PushApart(done, merged, r); }
      forall i: nat ensures Apart(merged', i) { assert Apart(merged, i); }
    }
  }

  /** Unambiguous coverage keeps a new region clear of the last one. */
  lemma PushApart(done: seq<Region>, merged: seq<Region>, r: Region)
    requires Merging(done, merged) && !IsEmpty(r.area) && ByBegin(done + [r]) && merged != [] &&
             !Mergeable(merged[|merged| - 1], r)
    requires Unambiguous(done + [r])
    ensures var back := merged[|merged| - 1];
            back.area.end <= r.area.begin && (back.area.end == r.area.begin ==> back.status != r.status)
  {
    var back, x := merged[|merged| - 1], r.area.begin;
    var done' := done + [r];
    assert done'[|done| - 1].area.begin <= done'[|done|].area.begin;
    if back.status != r.status && x < back.area.end {
      assert Hits(merged[|merged| - 1], back.status, x) && Hits(r, r.status, x);
      HasAppend(done, r, back.status, x);
      HasAppend(done, r, r.status, x);
    }
  }

  /** The region with its end moved out to cover r. */
  function Extended(back: Region, r: Region): Region {
    if back.area.end < r.area.end then Region(back.status, Area(back.area.begin, r.area.end)) else back
  }

  /** A region that touches the last merged one extends it. */
  lemma ExtendStep(done: seq<Region>, merged: seq<Region>, r: Region)
    requires Merging(done, merged) && !IsEmpty(r.area) && ByBegin(done + [r]) && merged != [] &&
             Mergeable(merged[|merged| - 1], r)
    ensures Merging(done + [r], merged[..|merged| - 1] + [Extended(merged[|merged| - 1], r)])
  {
    hide Load;
    var last := |merged| - 1;
    var init, back := merged[..last], merged[last];
    var wide := Extended(back, r);
    var done', merged' := done + [r], init + [wide];
    assert merged == init + [back];
    assert done'[|done| - 1].area.begin <= done'[|done|].area.begin;
    forall s: Status, x: nat ensures Has(done', s, x) <==> Has(merged', s, x) {
      HasAppend(done, r, s, x);
      HasAppend(init, back, s, x);
      HasAppend(init, wide, s, x);
    }
    forall x: nat ensures Load(merged', x) <= Load(done', x) {
      LoadAppend(done, r, x);
      LoadAppend(init, back, x);
      LoadAppend(init, wide, x);
    }
    if Unambiguous(done') {
      LessAmbiguous(done, r);
      forall i: nat ensures Apart(merged', i) { assert Apart(merged, i); }
    }
  }

  /** What the merge makes of one more region: nothing, a longer last region, or a new one. */
  ghost function MergeIn(merged: seq<Region>, r: Region): seq<Region> {
    if IsEmpty(r.area) then merged
    else if merged != [] && Mergeable(merged[|merged| - 1], r)
        then merged[..|merged| - 1] + [Extended(merged[|merged| - 1], r)]
    else merged + [r]
  }

  /** The greedy merge of a list of regions, in its order. */
  ghost function Greedy(rs: seq<Region>): seq<Region> {
    if rs == [] then [] else MergeIn(Greedy(rs[..|rs| - 1]), rs[|rs| - 1])
  }

  lemma MergeInKeeps(done: seq<Region>, merged: seq<Region>, r: Region)
    requires Merging(done, merged) && ByBegin(done + [r])
    ensures Merging(done + [r], MergeIn(merged, r))
  {
    hide Merging, Mergeable, Extended;
    if IsEmpty(r.area) {
      SkipEmpty(done, merged, r);
    } else if merged != [] && Mergeable(merged[|merged| - 1], r) {
      ExtendStep(done, merged, r);
    } else {
      PushStep(done, merged, r);
    }
  }

  lemma {:induction false} GreedyMerging(rs: seq<Region>)
    requires ByBegin(rs)
    ensures Merging(rs, Greedy(rs))
  {
    hide Merging, MergeIn;
    if rs == [] {
      MergingNone();
    } else {
      var init, r := rs[..|rs| - 1], rs[|rs| - 1];
      GreedyMerging(init);
      assert rs == init + [r];
      MergeInKeeps(init, Greedy(init), r);
    }
  }

  /** Sorts and merges each region into the last one if they touch and share a status. */
  method MergeSameStatusRegions(regions: seq<Region>) returns (merged: seq<Region>)
    ensures merged == Greedy(Sort(regions))
    ensures Merges(regions, merged) && forall i :: 0 <= i < |merged| ==> !IsEmpty(merged[i].area)
    ensures Unambiguous(regions) ==> Normal(merged)
  {
    hide Sort, Merges, Merging, Normal, Unambiguous, ByBegin, Mergeable, Extended;
    var rs := Sort(regions);
    merged := [];
    for i := 0 to |rs|
      invariant merged == Greedy(rs[..i])
    {
      assert rs[..i + 1][..i] == rs[..i];
      if IsEmpty(rs[i].area) { continue; }
      if merged != [] && Mergeable(merged[|merged| - 1], rs[i]) {
        merged := merged[..|merged| - 1] + [Extended(merged[|merged| - 1], rs[i])];
        continue;
      }
      merged := merged + [rs[i]];
    }
    assert rs[..|rs|] == rs;
    SortSorted(regions);
    GreedyMerging(rs);
    MergedSorted(regions, merged);
  }

  lemma MergingNone()
    ensures Merging([], [])
  {}

  lemma MergedSorted(regions: seq<Region>, merged: seq<Region>)
    requires Merging(Sort(regions), merged)
    ensures Merges(regions, merged) && forall i :: 0 <= i < |merged| ==> !IsEmpty(merged[i].area)
    ensures Unambiguous(regions) ==> Normal(merged)
  {
    hide Has, Load, Normal, Sort;
    forall s: Status, x: nat ensures (Has(Sort(regions), s, x) <==> Has(regions, s, x)) &&
        Load(Sort(regions), x) == Load(regions, x) {
      SortFacts(regions, s, x);
    }
    forall x: nat ensures Load(Sort(regions), x) == Load(regions, x) { SortFacts(regions, FREE, x); }
  }

  lemma GreedyMerges(regions: seq<Region>)
    ensures Merges(regions, Greedy(Sort(regions)))
  {
    hide Merges, Merging, Greedy, Sort, Normal;
    SortSorted(regions);
    GreedyMerging(Sort(regions));
    MergedSorted(regions, Greedy(Sort(regions)));
  }

  // ---------- which overlaps of one status are merged ----------

  /** Every non-empty region strictly between i and j has status s. */
  ghost predicate Unbroken(rs: seq<Region>, s: Status, i: int, j: int) {
    forall k :: 0 <= k < |rs| && i < k < j && !IsEmpty(rs[k].area) ==> rs[k].status == s
  }

  /** No region of another status sorts between two regions of status s that cover x. */
  ghost predicate Joined(rs: seq<Region>, s: Status, x: nat) {
    forall i, j :: 0 <= i < j < |rs| && Hits(rs[i], s, x) && Hits(rs[j], s, x) ==> Unbroken(rs, s, i, j)
  }

  /** Apart from FREE only status s covers x. */
  ghost predicate OnlyStatus(rs: seq<Region>, s: Status, x: nat) {
    forall t: Status :: t != FREE && Has(rs, t, x) ==> t == s
  }

  /** The last merged region is known by the regions before it. */
  ghost predicate BackHits(merged: seq<Region>, s: Status, x: nat) {
    merged != [] && Hits(merged[|merged| - 1], s, x)
  }

  lemma BackBegin(rs: seq<Region>)
    requires ByBegin(rs)
    ensures Greedy(rs) != [] ==> rs != [] && Greedy(rs)[|Greedy(rs)| - 1].area.begin <= rs[|rs| - 1].area.begin
  {
    GreedyMerging(rs);
  }

  /** Taking r in: what the last merged region covers. */
  lemma MergeInBack(merged: seq<Region>, r: Region, s: Status, x: nat)
    requires !IsEmpty(r.area) && (merged != [] ==> merged[|merged| - 1].area.begin <= r.area.begin)
    ensures Hits(r, s, x) ==> BackHits(MergeIn(merged, r), s, x)
    ensures BackHits(merged, s, x) && r.status == s && r.area.begin <= x ==> BackHits(MergeIn(merged, r), s, x)
    ensures BackHits(MergeIn(merged, r), s, x) ==> Hits(r, s, x) || (BackHits(merged, s, x) && r.status == s)
  {}

  /** Taking r in: how the load grows. */
  lemma MergeInLoad(merged: seq<Region>, r: Region, x: nat)
    requires merged != [] ==> merged[|merged| - 1].area.begin <= r.area.begin
    ensures Load(MergeIn(merged, r), x) ==
            Load(merged, x) + if r.status != FREE && Covers(r.area, x) && !BackHits(merged, r.status, x) then 1 else 0
  {
    hide Load;
    LoadAppend(merged, r, x);
    if merged != [] {
      var init, back := merged[..|merged| - 1], merged[|merged| - 1];
      assert merged == init + [back];
      LoadAppend(init, back, x);
      LoadAppend(init, Extended(back, r), x);
    }
  }

  /** A region over x with nothing but its status behind it is in the last merged region. */
  lemma {:induction false} Reaches(rs: seq<Region>, i: nat, s: Status, x: nat)
    requires ByBegin(rs) && i < |rs| && Hits(rs[i], s, x) && Unbroken(rs, s, i, |rs|) && forall k :: 0 <= k < |rs| ==>
             rs[k].area.begin <= x
    ensures BackHits(Greedy(rs), s, x)
  {
    hide MergeIn;
    var n := |rs| - 1;
    var init, r := rs[..n], rs[n];
    assert rs == init + [r];
    BackBegin(init);
    if i == n {
      MergeInBack(Greedy(init), r, s, x);
    } else {
      assert forall k :: 0 <= k < n ==> init[k] == rs[k];
      Reaches(init, i, s, x);
      if IsEmpty(r.area) { MergeInEmpty(Greedy(init), r); } else { MergeInBack(Greedy(init), r, s, x); }
    }
  }

  lemma MergeInEmpty(merged: seq<Region>, r: Region)
    requires IsEmpty(r.area)
    ensures MergeIn(merged, r) == merged
  {}

  /** Conversely, what the last merged region covers comes from such a region. */
  lemma {:induction false} ComesFrom(rs: seq<Region>, s: Status, x: nat) returns (i: nat)
    requires ByBegin(rs) && BackHits(Greedy(rs), s, x)
    ensures i < |rs| && Hits(rs[i], s, x) && Unbroken(rs, s, i, |rs|)
  {
    hide MergeIn;
    var n := |rs| - 1;
    var init, r := rs[..n], rs[n];
    assert forall k :: 0 <= k < n ==> init[k] == rs[k];
    BackBegin(init);
    if IsEmpty(r.area) {
      MergeInEmpty(Greedy(init), r);
      i := ComesFrom(init, s, x);
    } else {
      MergeInBack(Greedy(init), r, s, x);
      if Hits(r, s, x) {
        i := n;
      } else {
        i := ComesFrom(init, s, x);
      }
    }
  }

  /** Nothing sorts between the last region and any region of status s over x before it. */
  ghost predicate ReachesAll(rs: seq<Region>, s: Status, x: nat) {
    forall i :: 0 <= i < |rs| - 1 && Hits(rs[i], s, x) ==> Unbroken(rs, s, i, |rs| - 1)
  }

  /** What one more region does to Joined. */
  lemma JoinedStep(rs: seq<Region>, s: Status, x: nat)
    requires rs != []
    ensures var n := |rs| - 1;
            Joined(rs, s, x) <==> (Joined(rs[..n], s, x) && (Hits(rs[n], s, x) ==> ReachesAll(rs, s, x)))
  {
    var n := |rs| - 1;
    var init := rs[..n];
    forall i, j | 0 <= i < j < n ensures Unbroken(init, s, i, j) <==> Unbroken(rs, s, i, j) {
      assert forall k :: 0 <= k < n ==> init[k] == rs[k];
    }
    if Joined(rs, s, x) {
      forall i, j | 0 <= i < j < n && Hits(init[i], s, x) && Hits(init[j], s, x) ensures Unbroken(init, s, i, j) {
        assert init[i] == rs[i] && init[j] == rs[j];
      }
    }
    if Joined(init, s, x) {
      forall i, j | 0 <= i < j < n && Hits(rs[i], s, x) && Hits(rs[j], s, x) ensures Unbroken(rs, s, i, j) {
        assert init[i] == rs[i] && init[j] == rs[j];
      }
    }
  }

  /** A region over x whose predecessors reach the last merged region adds no break. */
  lemma JoinsBack(rs: seq<Region>, s: Status, x: nat)
    requires rs != [] && Joined(rs[..|rs| - 1], s, x) && ByBegin(rs[..|rs| - 1]) &&
             BackHits(Greedy(rs[..|rs| - 1]), s, x)
    ensures ReachesAll(rs, s, x)
  {
    var n := |rs| - 1;
    var init := rs[..n];
    hide Greedy, BackHits;
    var c := ComesFrom(init, s, x);
    forall i | 0 <= i < n && Hits(rs[i], s, x) ensures Unbroken(rs, s, i, n) {
      assert init[i] == rs[i] && init[c] == rs[c];
      assert i < c ==> Unbroken(init, s, i, c);
      forall k | 0 <= k < |rs| && i < k < n && !IsEmpty(rs[k].area) ensures rs[k].status == s {
        assert init[k] == rs[k];
      }
    }
  }

  /** Where only status s counts, the merged regions cover x at most once exactly if nothing sorts between. */
  lemma {:induction false} LoadJoined(rs: seq<Region>, s: Status, x: nat)
    requires ByBegin(rs) && s != FREE && OnlyStatus(rs, s, x)
    ensures Load(Greedy(rs), x) <= 1 <==> Joined(rs, s, x)
  {
    if rs != [] {
      var n := |rs| - 1;
      var init, r := rs[..n], rs[n];
      assert rs == init + [r];
      forall t: Status ensures Has(rs, t, x) <==> Has(init, t, x) || Hits(r, t, x) { HasAppend(init, r, t, x); }
      assert Has(rs, r.status, x) <== Covers(r.area, x) by { assert Hits(r, r.status, x) <== Covers(r.area, x); }
      LoadJoined(init, s, x);
      BackBegin(init);
      assert Greedy(rs) == MergeIn(Greedy(init), r);
      hide Load, Joined, MergeIn, Greedy, ReachesAll;
      MergeInLoad(Greedy(init), r, x);
      JoinedStep(rs, s, x);
      LoadJoinedLast(rs, s, x);
    }
  }

  /** The case of LoadJoined where the last region covers x. */
  lemma LoadJoinedLast(rs: seq<Region>, s: Status, x: nat)
    requires rs != [] && ByBegin(rs) && s != FREE && OnlyStatus(rs, s, x)
    requires Load(Greedy(rs[..|rs| - 1]), x) <= 1 <==> Joined(rs[..|rs| - 1], s, x)
    ensures Hits(rs[|rs| - 1], s, x) ==>
              (Load(Greedy(rs[..|rs| - 1]), x) + (if BackHits(Greedy(rs[..|rs| - 1]), s, x) then 0 else 1) <= 1 <==>
               (Joined(rs[..|rs| - 1], s, x) && ReachesAll(rs, s, x)))
  {
    hide Load, Joined, Greedy;
    var n := |rs| - 1;
    var init, r := rs[..n], rs[n];
    if Hits(r, s, x) {
      if BackHits(Greedy(init), s, x) {
        if Joined(init, s, x) { JoinsBack(rs, s, x); }
      } else {
        BreaksBefore(rs, s, x);
      }
    }
  }

  /** If the last merged region misses x, any region over x before r has a break behind it. */
  lemma BreaksBefore(rs: seq<Region>, s: Status, x: nat)
    requires rs != [] && ByBegin(rs) && s != FREE && OnlyStatus(rs, s, x) && Hits(rs[|rs| - 1], s, x)
    requires !BackHits(Greedy(rs[..|rs| - 1]), s, x)
    ensures Load(Greedy(rs[..|rs| - 1]), x) == 0 <==> ReachesAll(rs, s, x)
    ensures Load(Greedy(rs[..|rs| - 1]), x) == 0 ==> Joined(rs[..|rs| - 1], s, x)
  {
    hide Greedy, BackHits, Load;
    var n := |rs| - 1;
    var init := rs[..n];
    GreedyMerging(init);
    LoadHas(Greedy(init), x);
    assert rs == init + [rs[n]];
    forall t: Status ensures Has(init, t, x) ==> Has(rs, t, x) { HasAppend(init, rs[n], t, x); }
    forall i | 0 <= i < n && Hits(rs[i], s, x) ensures !Unbroken(rs, s, i, n) {
      if Unbroken(rs, s, i, n) {
        assert forall k :: 0 <= k < n ==> init[k] == rs[k];
        Reaches(init, i, s, x);
      }
    }
    assert Load(Greedy(init), x) > 0 <==> Has(init, s, x);
    if Has(init, s, x) {
      var i :| 0 <= i < |init| && Hits(init[i], s, x);
      assert rs[i] == init[i];
    }
  }

  // ---------- FREE regions ----------

  ghost predicate Within(areas: seq<Area>, x: nat) {
    exists i :: 0 <= i < |areas| && Covers(areas[i], x)
  }

  lemma WithinAppend(areas: seq<Area>, a: Area, x: nat)
    ensures Within(areas + [a], x) <==> Within(areas, x) || Covers(a, x)
  {
    var areas' := areas + [a];
    if Within(areas, x) {
      var i :| 0 <= i < |areas| && Covers(areas[i], x);
      assert Covers(areas'[i], x);
    }
    assert areas'[|areas|] == a;
  }

  ghost predicate AllSolid(areas: seq<Area>) {
    forall i :: 0 <= i < |areas| ==> !IsEmpty(areas[i])
  }

  /** What is left of a fragment outside a used area. */
  function Pieces(f: Area, used: Area): seq<Area> {
    if IsEmpty(f) || !(f.begin < used.end && used.begin < f.end) then [f]
    else (if f.begin < used.begin then [Area(f.begin, used.begin)] else [])
         + (if used.end < f.end then [Area(used.end, f.end)] else [])
  }

  lemma PiecesAre(areas: seq<Area>, f: Area, used: Area, x: nat)
    requires !IsEmpty(f)
    ensures Within(areas + Pieces(f, used), x) <==> Within(areas, x) || (Covers(f, x) && !Covers(used, x))
  {
    if !(f.begin < used.end && used.begin < f.end) {
      WithinAppend(areas, f, x);
    } else {
      var left := if f.begin < used.begin then [Area(f.begin, used.begin)] else [];
      var middle := areas + left;
      if left != [] { WithinAppend(areas, left[0], x); } else { assert middle == areas; }
      if used.end < f.end {
        assert areas + Pieces(f, used) == middle + [Area(used.end, f.end)];
        WithinAppend(middle, Area(used.end, f.end), x);
      } else {
        assert areas + Pieces(f, used) == middle;
      }
    }
  }

  /** Cuts one used area out of every fragment. */
  method CutOut(fragments: seq<Area>, used: Area) returns (next: seq<Area>)
    requires AllSolid(fragments) && !IsEmpty(used)
    ensures AllSolid(next) && forall x: nat :: Within(next, x) <==> Within(fragments, x) && !Covers(used, x)
  {
    next := [];
    for i := 0 to |fragments|
      invariant AllSolid(next) && forall x: nat :: Within(next, x) <==> Within(fragments[..i], x) && !Covers(used, x)
    {
      hide Within, Covers;
      assert fragments[..i + 1] == fragments[..i] + [fragments[i]];
      forall x: nat ensures Within(next + Pieces(fragments[i], used), x) <==>
          Within(fragments[..i + 1], x) && !Covers(used, x) {
        PiecesAre(next, fragments[i], used, x);
        WithinAppend(fragments[..i], fragments[i], x);
      }
      next := next + Pieces(fragments[i], used);
    }
    assert fragments[..|fragments|] == fragments;
  }

  ghost predicate AllUsed(rs: seq<Region>) {
    forall i :: 0 <= i < |rs| ==> rs[i].status != FREE && !IsEmpty(rs[i].area)
  }

  /** The part of an area that no used region covers. */
  method Trim(area: Area, used: seq<Region>) returns (fragments: seq<Area>)
    requires !IsEmpty(area) && AllUsed(used)
    ensures AllSolid(fragments) && forall x: nat :: Within(fragments, x) <==> Covers(area, x) && Load(used, x) == 0
  {
    fragments := [area];
    forall x: nat ensures Within([area], x) <==> Covers(area, x) {
      assert [area] == [] + [area];
      WithinAppend([], area, x);
    }
    for i := 0 to |used|
      invariant AllSolid(fragments) && forall x: nat :: Within(fragments, x) <==>
                Covers(area, x) && Load(used[..i], x) == 0
    {
      assert used[..i + 1] == used[..i] + [used[i]];
      forall x: nat ensures Load(used[..i + 1], x) == Load(used[..i], x) + if Covers(used[i].area, x) then 1 else 0 {
        LoadAppend(used[..i], used[i], x);
      }
      hide Within, Covers, Load;
      fragments := CutOut(fragments, used[i].area);
      if fragments == [] {
        TrimmedAway(area, used, i + 1);
        return;
      }
    }
    assert used[..|used|] == used;
  }

  lemma {:induction false} LoadGrows(rs: seq<Region>, i: nat, x: nat)
    requires i <= |rs|
    ensures Load(rs[..i], x) <= Load(rs, x)
  {
    if i < |rs| {
      var init := rs[..|rs| - 1];
      assert init[..i] == rs[..i];
      LoadGrows(init, i, x);
    } else {
      assert rs[..i] == rs;
    }
  }

  lemma TrimmedAway(area: Area, used: seq<Region>, i: nat)
    requires i <= |used| && forall x: nat :: !(Covers(area, x) && Load(used[..i], x) == 0)
    ensures forall x: nat :: !Within([], x) && !(Covers(area, x) && Load(used, x) == 0)
  {
    forall x: nat ensures !(Covers(area, x) && Load(used, x) == 0) { LoadGrows(used, i, x); }
  }

  /** FREE regions for the fragments. */
  method AppendFree(regions: seq<Region>, fragments: seq<Area>) returns (r: seq<Region>)
    ensures forall x: nat :: Has(r, FREE, x) <==> Has(regions, FREE, x) || Within(fragments, x)
    ensures (forall i :: 0 <= i < |regions| ==> regions[i].status == FREE) ==> forall i :: 0 <= i < |r| ==>
            r[i].status == FREE
  {
    r := regions;
    for i := 0 to |fragments|
      invariant forall x: nat :: Has(r, FREE, x) <==> Has(regions, FREE, x) || Within(fragments[..i], x)
      invariant (forall i :: 0 <= i < |regions| ==> regions[i].status == FREE) ==> forall i :: 0 <= i < |r| ==>
                r[i].status == FREE
    {
      hide Has, Within;
      assert fragments[..i + 1] == fragments[..i] + [fragments[i]];
      forall x: nat ensures Has(r + [Region(FREE, fragments[i])], FREE, x) <==>
          Has(regions, FREE, x) || Within(fragments[..i + 1], x) {
        HasAppend(r, Region(FREE, fragments[i]), FREE, x);
        WithinAppend(fragments[..i], fragments[i], x);
      }
      r := r + [Region(FREE, fragments[i])];
    }
    assert fragments[..|fragments|] == fragments;
  }

  /** Step 2: the FREE regions without the addresses any other status covers. */
  method TrimFree(frees: seq<Region>, used: seq<Region>) returns (trimmed: seq<Region>)
    requires AllUsed(used) && forall i :: 0 <= i < |frees| ==> frees[i].status == FREE && !IsEmpty(frees[i].area)
    ensures forall i :: 0 <= i < |trimmed| ==> trimmed[i].status == FREE
    ensures forall x: nat :: Has(trimmed, FREE, x) <==> Has(frees, FREE, x) && Load(used, x) == 0
  {
    trimmed := [];
    for i := 0 to |frees|
      invariant forall i :: 0 <= i < |trimmed| ==> trimmed[i].status == FREE
      invariant forall x: nat :: Has(trimmed, FREE, x) <==> Has(frees[..i], FREE, x) && Load(used, x) == 0
    {
      assert frees[..i + 1] == frees[..i] + [frees[i]];
      forall x: nat ensures Has(frees[..i + 1], FREE, x) <==> Has(frees[..i], FREE, x) || Covers(frees[i].area, x) {
        HasAppend(frees[..i], frees[i], FREE, x);
      }
      hide Has, Within, Covers, Load;
      var fragments := Trim(frees[i].area, used);
      trimmed := AppendFree(trimmed, fragments);
    }
    assert frees[..|frees|] == frees;
  }

  // ---------- the other statuses ----------

  /** The status sweep gives x: that of the only region there, or BAD_MEMORY. */
  ghost predicate Resolved(used: seq<Region>, s: Status, x: nat) {
    if Load(used, x) == 1 then Has(used, s, x) && s != FREE else Load(used, x) >= 2 && s == BAD_MEMORY
  }

  ghost predicate Increasing(bs: seq<nat>) {
    forall i, j :: 0 <= i < j < |bs| ==> bs[i] < bs[j]
  }

  /** Every region begins and ends on a boundary. */
  ghost predicate Bounds(bs: seq<nat>, rs: seq<Region>) {
    forall i :: 0 <= i < |rs| ==> rs[i].area.begin in bs && rs[i].area.end in bs
  }

  /** Nothing else is a boundary. */
  ghost predicate OnlyBounds(bs: seq<nat>, rs: seq<Region>) {
    forall b :: b in bs ==> exists i :: 0 <= i < |rs| && (b == rs[i].area.begin || b == rs[i].area.end)
  }

  function InsertNat(x: nat, xs: seq<nat>): seq<nat> {
    if xs == [] then [x]
    else if x < xs[|xs| - 1] then InsertNat(x, xs[..|xs| - 1]) + [xs[|xs| - 1]]
    else xs + [x]
  }

  function SortNats(xs: seq<nat>): seq<nat> {
    if xs == [] then [] else InsertNat(xs[|xs| - 1], SortNats(xs[..|xs| - 1]))
  }

  ghost predicate Ascending(xs: seq<nat>) {
    forall i, j :: 0 <= i < j < |xs| ==> xs[i] <= xs[j]
  }

  lemma {:induction false} InsertNatFacts(x: nat, xs: seq<nat>)
    requires Ascending(xs)
    ensures Ascending(InsertNat(x, xs)) && forall y :: y in InsertNat(x, xs) <==> y in xs || y == x
  {
    if xs != [] && x < xs[|xs| - 1] {
      var init, last := xs[..|xs| - 1], xs[|xs| - 1];
      InsertNatFacts(x, init);
      assert xs == init + [last];
      forall i | 0 <= i < |InsertNat(x, init)| ensures InsertNat(x, init)[i] <= last {
        assert InsertNat(x, init)[i] in InsertNat(x, init);
      }
    }
  }

  lemma {:induction false} SortNatsFacts(xs: seq<nat>)
    ensures Ascending(SortNats(xs)) && forall y :: y in SortNats(xs) <==> y in xs
  {
    if xs != [] {
      var init, last := xs[..|xs| - 1], xs[|xs| - 1];
      SortNatsFacts(init);
      InsertNatFacts(last, SortNats(init));
      assert xs == init + [last];
    }
  }

  /** Both ends of every region. */
  method Ends(rs: seq<Region>) returns (bs: seq<nat>)
    requires AllUsed(rs)
    ensures Bounds(bs, rs) && OnlyBounds(bs, rs)
  {
    bs := [];
    for i := 0 to |rs|
      invariant forall j :: 0 <= j < i ==> rs[j].area.begin in bs && rs[j].area.end in bs
      invariant forall b :: b in bs ==> exists j :: 0 <= j < i && (b == rs[j].area.begin || b == rs[j].area.end)
    {
      bs := bs + [rs[i].area.begin] + [rs[i].area.end];
    }
  }

  /** An ascending list without its repetitions. */
  method Distinct(bs: seq<nat>) returns (unique: seq<nat>)
    requires Ascending(bs)
    ensures Increasing(unique) && forall b :: b in unique <==> b in bs
  {
    unique := [];
    for i := 0 to |bs|
      invariant Increasing(unique) && (forall b :: b in unique <==> b in bs[..i])
      invariant unique != [] ==> i > 0 && unique[|unique| - 1] == bs[i - 1]
      invariant i > 0 ==> unique != []
    {
      assert bs[..i + 1] == bs[..i] + [bs[i]];
      if unique == [] || unique[|unique| - 1] != bs[i] { unique := unique + [bs[i]]; }
    }
    assert bs[..|bs|] == bs;
  }

  /** The sorted, distinct ends of all non-empty regions. */
  method SortedUniqueBoundaries(rs: seq<Region>) returns (unique: seq<nat>)
    requires AllUsed(rs)
    ensures Increasing(unique) && Bounds(unique, rs) && OnlyBounds(unique, rs)
  {
    hide SortNats;
    var bs := Ends(rs);
    SortNatsFacts(bs);
    unique := Distinct(SortNats(bs));
  }

  predicate Spans(a: Area, slice: Area) {
    a.begin <= slice.begin && slice.end <= a.end
  }

  /** Inside a slice between neighbouring boundaries a region covers all or nothing. */
  lemma SliceCovered(bs: seq<nat>, a: Area, i: nat, x: nat)
    requires Increasing(bs) && i + 1 < |bs| && a.begin in bs && a.end in bs && bs[i] <= x < bs[i + 1]
    ensures Covers(a, x) <==> Spans(a, Area(bs[i], bs[i + 1]))
  {
    var j :| 0 <= j < |bs| && bs[j] == a.begin;
    var k :| 0 <= k < |bs| && bs[k] == a.end;
    assert j <= i || bs[j] >= bs[i + 1];
    assert k <= i || bs[k] >= bs[i + 1];
  }

  /** At x each of the first n regions covers all or nothing of the slice. */
  ghost predicate Uniform(used: seq<Region>, n: nat, slice: Area, x: nat) {
    forall i :: 0 <= i < n && i < |used| ==> (Covers(used[i].area, x) <==> Spans(used[i].area, slice))
  }

  lemma UniformAt(bs: seq<nat>, used: seq<Region>, i: nat, x: nat)
    requires Increasing(bs) && Bounds(bs, used) && i + 1 < |bs| && bs[i] <= x < bs[i + 1]
    ensures Uniform(used, |used|, Area(bs[i], bs[i + 1]), x)
  {
    forall j | 0 <= j < |used| ensures Covers(used[j].area, x) <==> Spans(used[j].area, Area(bs[i], bs[i + 1])) {
      SliceCovered(bs, used[j].area, i, x);
    }
  }

  lemma UniformStep(used: seq<Region>, n: nat, slice: Area, x: nat)
    requires n < |used| && AllUsed(used)
    ensures Uniform(used, n + 1, slice, x) <==>
            Uniform(used, n, slice, x) && (Covers(used[n].area, x) <==> Spans(used[n].area, slice))
    ensures Load(used[..n + 1], x) == Load(used[..n], x) + if Covers(used[n].area, x) then 1 else 0
    ensures Covers(used[n].area, x) ==> Has(used, used[n].status, x)
  {
    assert used[..n + 1] == used[..n] + [used[n]];
    LoadAppend(used[..n], used[n], x);
    assert Hits(used[n], used[n].status, x) <==> Covers(used[n].area, x);
  }

  /** What the sweep knows after the first n regions. */
  ghost predicate Counted(used: seq<Region>, n: nat, slice: Area, count: nat, first: Status, x: nat)
    requires n <= |used|
  {
    Uniform(used, n, slice, x) ==> count == Load(used[..n], x) && (count > 0 ==> first != FREE && Has(used, first, x))
  }

  /** Counts the regions over a slice; first is the status of the first of them. */
  method CoverSlice(used: seq<Region>, slice: Area) returns (count: nat, first: Status)
    requires AllUsed(used)
    ensures forall x: nat :: Counted(used, |used|, slice, count, first, x)
  {
    count, first := 0, BAD_MEMORY;
    for i := 0 to |used|
      invariant forall x: nat :: Counted(used, i, slice, count, first, x)
    {
      var status, covers := used[i].status, Spans(used[i].area, slice);
      ghost var was, had := count, first;
      if covers {
        if count == 0 { first := status; }
        count := count + 1;
      }
      ghost var n := i + 1;
      forall x: nat ensures Counted(used, n, slice, count, first, x) {
        hide Load, Has, Covers, Spans, Uniform;
        assert Counted(used, i, slice, was, had, x);
        UniformStep(used, i, slice, x);
      }
    }
  }

  /** The swept slices below boundary i say exactly what Resolved says there. */
  ghost predicate Swept(used: seq<Region>, bs: seq<nat>, i: nat, r: seq<Region>, s: Status, x: nat)
    requires i < |bs|
  {
    Has(r, s, x) <==> bs[0] <= x < bs[i] && Resolved(used, s, x)
  }

  lemma {:induction false} OnlyOne(rs: seq<Region>, s: Status, t: Status, x: nat)
    requires Load(rs, x) == 1 && s != FREE && t != FREE && Has(rs, s, x) && Has(rs, t, x)
    ensures s == t
  {
    if s != t { TwoStatuses(rs, s, t, x); }
  }

  lemma SweepStep(used: seq<Region>, bs: seq<nat>, i: nat, r: seq<Region>, count: nat, first: Status, s: Status, x: nat)
    requires Increasing(bs) && Bounds(bs, used) && i + 1 < |bs| && Swept(used, bs, i, r, s, x)
    requires Counted(used, |used|, Area(bs[i], bs[i + 1]), count, first, x)
    ensures var status := if count == 1 then first else BAD_MEMORY;
            Swept(used, bs, i + 1, if count == 0 then r else r + [Region(status, Area(bs[i], bs[i + 1]))], s, x)
  {
    hide Load, Has, Uniform, Bounds;
    var slice := Area(bs[i], bs[i + 1]);
    assert bs[0] <= bs[i] < bs[i + 1];
    HasAppend(r, Region(if count == 1 then first else BAD_MEMORY, slice), s, x);
    if Covers(slice, x) {
      UniformAt(bs, used, i, x);
      assert used[..|used|] == used;
      if count == 1 && Has(used, s, x) && s != FREE { OnlyOne(used, s, first, x); }
    }
  }

  ghost predicate SweptAll(used: seq<Region>, bs: seq<nat>, i: nat, r: seq<Region>)
    requires i < |bs|
  {
    forall s: Status, x: nat :: Swept(used, bs, i, r, s, x)
  }

  /** One slice: its one status, BAD_MEMORY if regions overlap there, or nothing. */
  method SweepSlice(used: seq<Region>, bs: seq<nat>, i: nat, before: seq<Region>) returns (r: seq<Region>)
    requires AllUsed(used) && Increasing(bs) && Bounds(bs, used) && i + 1 < |bs| && SweptAll(used, bs, i, before)
    ensures SweptAll(used, bs, i + 1, r)
  {
    hide Increasing, Bounds, Counted, Swept;
    var slice := Area(bs[i], bs[i + 1]);
    var count, first := CoverSlice(used, slice);
    r := before;
    if count > 0 { r := r + [Region(if count == 1 then first else BAD_MEMORY, slice)]; }
    ghost var n := i + 1;
    forall s: Status, x: nat ensures Swept(used, bs, n, r, s, x) {
      assert Swept(used, bs, i, before, s, x);
      assert Counted(used, |used|, slice, count, first, x);
      SweepStep(used, bs, i, before, count, first, s, x);
    }
  }

  /** Step 3: every slice between boundaries is swept. */
  method ResolveUsed(used: seq<Region>) returns (r: seq<Region>)
    requires AllUsed(used)
    ensures forall s: Status, x: nat :: Has(r, s, x) <==> Resolved(used, s, x)
  {
    hide Load, Has, Increasing, Bounds, OnlyBounds, Resolved, SweptAll;
    r := [];
    var bs := SortedUniqueBoundaries(used);
    if used != [] { TwoBounds(used, bs); }
    if |bs| >= 2 {
      NothingSwept(used, bs);
      for i := 0 to |bs| - 1
        invariant SweptAll(used, bs, i, r)
      {
        r := SweepSlice(used, bs, i, r);
      }
      AllResolved(used, bs, r);
    } else {
      NothingUsed();
    }
  }

  lemma AllResolved(used: seq<Region>, bs: seq<nat>, r: seq<Region>)
    requires Increasing(bs) && Bounds(bs, used) && |bs| >= 2 && SweptAll(used, bs, |bs| - 1, r)
    ensures forall s: Status, x: nat :: Has(r, s, x) <==> Resolved(used, s, x)
  {
    hide Load, Has, Increasing, Bounds, Resolved;
    forall s: Status, x: nat ensures Has(r, s, x) <==> Resolved(used, s, x) {
      assert Swept(used, bs, |bs| - 1, r, s, x);
      if Resolved(used, s, x) { ResolvedInside(used, bs, s, x); }
    }
  }

  lemma NothingSwept(used: seq<Region>, bs: seq<nat>)
    requires |bs| >= 1
    ensures SweptAll(used, bs, 0, [])
  {}

  lemma ResolvedInside(used: seq<Region>, bs: seq<nat>, s: Status, x: nat)
    requires Increasing(bs) && Bounds(bs, used) && Resolved(used, s, x)
    ensures |bs| > 0 && bs[0] <= x < bs[|bs| - 1]
  {
    LoadHas(used, x);
    var t: Status :| t != FREE && Has(used, t, x);
    var i :| 0 <= i < |used| && Hits(used[i], t, x);
    var j :| 0 <= j < |bs| && bs[j] == used[i].area.begin;
    var k :| 0 <= k < |bs| && bs[k] == used[i].area.end;
    assert bs[0] <= bs[j] && bs[k] <= bs[|bs| - 1];
  }

  /** A region has two boundaries. */
  lemma TwoBounds(used: seq<Region>, bs: seq<nat>)
    requires AllUsed(used) && Bounds(bs, used) && used != []
    ensures |bs| >= 2
  {
    assert used[0].area.begin in bs && used[0].area.end in bs;
    var i :| 0 <= i < |bs| && bs[i] == used[0].area.begin;
    var j :| 0 <= j < |bs| && bs[j] == used[0].area.end;
    assert i != j;
  }

  lemma NothingUsed()
    ensures forall s: Status, x: nat :: Has([], s, x) <==> Resolved([], s, x)
  {}

  // ---------- the whole ----------

  /** The FREE regions and the others, in order. */
  method Split(merged: seq<Region>) returns (frees: seq<Region>, used: seq<Region>)
    requires forall i :: 0 <= i < |merged| ==> !IsEmpty(merged[i].area)
    ensures AllUsed(used) && forall i :: 0 <= i < |frees| ==> frees[i].status == FREE && !IsEmpty(frees[i].area)
    ensures forall x: nat :: (Has(frees, FREE, x) <==> Has(merged, FREE, x)) && Load(used, x) == Load(merged, x)
    ensures forall s: Status, x: nat :: s != FREE ==> (Has(used, s, x) <==> Has(merged, s, x))
  {
    frees, used := [], [];
    for i := 0 to |merged|
      invariant AllUsed(used) && forall i :: 0 <= i < |frees| ==> frees[i].status == FREE && !IsEmpty(frees[i].area)
      invariant forall x: nat ::
                (Has(frees, FREE, x) <==> Has(merged[..i], FREE, x)) && Load(used, x) == Load(merged[..i], x)
      invariant forall s: Status, x: nat :: s != FREE ==> (Has(used, s, x) <==> Has(merged[..i], s, x))
    {
      assert merged[..i + 1] == merged[..i] + [merged[i]];
      forall s: Status, x: nat
        ensures Has(merged[..i + 1], s, x) <==> Has(merged[..i], s, x) || Hits(merged[i], s, x)
        ensures Has(frees + [merged[i]], s, x) <==> Has(frees, s, x) || Hits(merged[i], s, x)
        ensures Has(used + [merged[i]], s, x) <==> Has(used, s, x) || Hits(merged[i], s, x)
      {
        HasAppend(merged[..i], merged[i], s, x);
        HasAppend(frees, merged[i], s, x);
        HasAppend(used, merged[i], s, x);
      }
      forall x: nat
        ensures Load(merged[..i + 1], x) == Load(merged[..i], x) + if merged[i].status != FREE &&
                Covers(merged[i].area, x) then 1 else 0
        ensures Load(used + [merged[i]], x) == Load(used, x) + if merged[i].status != FREE && Covers(merged[i].area, x)
                then 1 else 0
      {
        LoadAppend(merged[..i], merged[i], x);
        LoadAppend(used, merged[i], x);
      }
      hide Has, Load;
      if merged[i].status == FREE {
        frees := frees + [merged[i]];
      } else {
        used := used + [merged[i]];
      }
    }
    assert merged[..|merged|] == merged;
  }

  /** Step 4: the non-empty regions of both lists. */
  method Collect(trimmed: seq<Region>, resolved: seq<Region>) returns (r: seq<Region>)
    ensures forall s: Status, x: nat :: Has(r, s, x) <==> Has(trimmed, s, x) || Has(resolved, s, x)
  {
    r := [];
    r := KeepSolid(r, trimmed);
    r := KeepSolid(r, resolved);
  }

  method KeepSolid(base: seq<Region>, more: seq<Region>) returns (r: seq<Region>)
    ensures forall s: Status, x: nat :: Has(r, s, x) <==> Has(base, s, x) || Has(more, s, x)
  {
    r := base;
    for i := 0 to |more|
      invariant forall s: Status, x: nat :: Has(r, s, x) <==> Has(base, s, x) || Has(more[..i], s, x)
    {
      assert more[..i + 1] == more[..i] + [more[i]];
      forall s: Status, x: nat
        ensures Has(more[..i + 1], s, x) <==> Has(more[..i], s, x) || Hits(more[i], s, x)
        ensures Has(r + [more[i]], s, x) <==> Has(r, s, x) || Hits(more[i], s, x)
      {
        HasAppend(more[..i], more[i], s, x);
        HasAppend(r, more[i], s, x);
      }
      hide Has;
      if !IsEmpty(more[i].area) { r := r + [more[i]]; }
    }
    assert more[..|more|] == more;
  }

  /** What normalising makes of the status s at x, given the first merge of the input. */
  ghost predicate Normalised(merged: seq<Region>, s: Status, x: nat) {
    if s == FREE then Has(merged, FREE, x) && Load(merged, x) == 0
    else if Load(merged, x) == 1 then Has(merged, s, x)
    else Load(merged, x) >= 2 && s == BAD_MEMORY
  }

  lemma NormalisedOnce(merged: seq<Region>, s: Status, t: Status, x: nat)
    requires Normalised(merged, s, x) && Normalised(merged, t, x)
    ensures s == t
  {
    if s != FREE && t != FREE && Load(merged, x) == 1 { OnlyOne(merged, s, t, x); }
  }

  /** out is normal and means, address by address, what the merged regions mean. */
  ghost predicate IsNormalisation(regions: seq<Region>, out: seq<Region>) {
    Normal(out) && forall s: Status, x: nat :: Has(out, s, x) <==> Normalised(Greedy(Sort(regions)), s, x)
  }

  method NormalizeMemoryRegions(regions: seq<Region>) returns (out: seq<Region>)
    ensures IsNormalisation(regions, out)
  {
    hide Has, Load, Normal, Greedy, Sort;
    var merged := MergeSameStatusRegions(regions);
    var frees, used := Split(merged);
    var trimmed := TrimFree(frees, used);
    var resolved := ResolveUsed(used);
    var normalized := Collect(trimmed, resolved);
    forall s: Status, x: nat ensures Has(normalized, s, x) <==> Normalised(merged, s, x) {
      OnlyFree(trimmed, s, x);
    }
    forall s: Status, t: Status, x: nat | Has(normalized, s, x) && Has(normalized, t, x) ensures s == t {
      NormalisedOnce(merged, s, t, x);
    }
    var sorted := Sort(normalized);
    forall s: Status, x: nat ensures Has(sorted, s, x) <==> Has(normalized, s, x) { SortFacts(normalized, s, x); }
    out := MergeSameStatusRegions(sorted);
  }

  lemma OnlyFree(rs: seq<Region>, s: Status, x: nat)
    requires forall i :: 0 <= i < |rs| ==> rs[i].status == FREE
    ensures Has(rs, s, x) ==> s == FREE
  {}

  // ---------- the laws, in terms of the input ----------

  lemma SameLoadSign(regions: seq<Region>, x: nat)
    ensures Load(Greedy(Sort(regions)), x) == 0 <==> Load(regions, x) == 0
    ensures Load(Greedy(Sort(regions)), x) <= Load(regions, x)
    ensures forall s: Status :: Has(Greedy(Sort(regions)), s, x) <==> Has(regions, s, x)
  {
    hide Has, Load, Greedy, Sort;
    GreedyMerges(regions);
    LoadHas(regions, x);
    LoadHas(Greedy(Sort(regions)), x);
  }

  /** FREE in the result: FREE and nothing else in the input. */
  lemma FreeLaw(regions: seq<Region>, out: seq<Region>, x: nat)
    requires IsNormalisation(regions, out)
    ensures Has(out, FREE, x) <==> Has(regions, FREE, x) && forall s: Status :: s != FREE ==> !Has(regions, s, x)
  {
    hide Has, Load, Greedy, Sort;
    SameLoadSign(regions, x);
    LoadHas(regions, x);
    assert Has(out, FREE, x) <==> Normalised(Greedy(Sort(regions)), FREE, x);
  }

  /** Coverage by statuses other than FREE is preserved. */
  lemma UsedLaw(regions: seq<Region>, out: seq<Region>, x: nat)
    requires IsNormalisation(regions, out)
    ensures (exists s: Status :: s != FREE && Has(out, s, x)) <==> (exists s: Status :: s != FREE && Has(regions, s, x))
  {
    hide Has, Load, Greedy, Sort;
    var merged := Greedy(Sort(regions));
    SameLoadSign(regions, x);
    LoadHas(merged, x);
    LoadHas(regions, x);
    if Load(merged, x) == 1 {
      var s: Status :| s != FREE && Has(merged, s, x);
      assert Has(out, s, x) <==> Normalised(merged, s, x);
    } else {
      assert Has(out, BAD_MEMORY, x) <==> Normalised(merged, BAD_MEMORY, x);
    }
  }

  /** A single region other than FREE keeps its status. */
  lemma SingleLaw(regions: seq<Region>, out: seq<Region>, s: Status, x: nat)
    requires IsNormalisation(regions, out) && s != FREE && Load(regions, x) == 1 && Has(regions, s, x)
    ensures forall t: Status :: Has(out, t, x) <==> t == s
  {
    hide Has, Load, Greedy, Sort;
    var merged := Greedy(Sort(regions));
    SameLoadSign(regions, x);
    assert Has(merged, s, x) && Load(merged, x) == 1;
    forall t: Status ensures Has(out, t, x) <==> t == s {
      assert Has(out, t, x) <==> Normalised(merged, t, x);
      if Normalised(merged, t, x) { NormalisedOnce(merged, s, t, x); }
    }
  }

  /** Two different statuses other than FREE become BAD_MEMORY. */
  lemma ConflictLaw(regions: seq<Region>, out: seq<Region>, s: Status, t: Status, x: nat)
    requires IsNormalisation(regions, out) && s != FREE && t != FREE && s != t && Has(regions, s, x) &&
             Has(regions, t, x)
    ensures forall u: Status :: Has(out, u, x) <==> u == BAD_MEMORY
  {
    hide Has, Load, Greedy, Sort;
    SameLoadSign(regions, x);
    TwoStatuses(Greedy(Sort(regions)), s, t, x);
    forall u: Status ensures Has(out, u, x) <==> u == BAD_MEMORY {
      assert Has(out, u, x) <==> Normalised(Greedy(Sort(regions)), u, x);
    }
  }

  /**
   Regions of one status s alone at x, apart from FREE: s survives exactly if no region of another
   status, FREE included, sorts between two of them; otherwise x becomes BAD_MEMORY.
   */
  lemma SameStatusLaw(regions: seq<Region>, out: seq<Region>, s: Status, x: nat)
    requires IsNormalisation(regions, out) && s != FREE && s != BAD_MEMORY && Has(regions, s, x) &&
             OnlyStatus(regions, s, x)
    ensures Has(out, s, x) <==> Joined(Sort(regions), s, x)
    ensures Has(out, BAD_MEMORY, x) <==> !Joined(Sort(regions), s, x)
  {
    hide Has, Load, Greedy, Sort, Joined;
    var rs := Sort(regions);
    SortSorted(regions);
    forall t: Status ensures Has(rs, t, x) <==> Has(regions, t, x) { SortFacts(regions, t, x); }
    LoadJoined(rs, s, x);
    SameLoadSign(regions, x);
    LoadHas(regions, x);
    assert Has(out, s, x) <==> Normalised(Greedy(rs), s, x);
    assert Has(out, BAD_MEMORY, x) <==> Normalised(Greedy(rs), BAD_MEMORY, x);
  }

  /** Two overlapping RESERVED regions with a FREE one sorted between them: their overlap becomes BAD_MEMORY. */
  lemma OverlapGoesBad(out: seq<Region>)
    requires IsNormalisation([Region(RESERVED, Area(0, 100)), Region(FREE, Area(10, 20)),
             Region(RESERVED, Area(15, 50))], out)
    ensures Has(out, BAD_MEMORY, 30) && !Has(out, RESERVED, 30)
  {
    var a, b, c := Region(RESERVED, Area(0, 100)), Region(FREE, Area(10, 20)), Region(RESERVED, Area(15, 50));
    var rs := [a, b, c];
    SortThree(a, b, c);
    assert Hits(rs[0], RESERVED, 30) && Hits(rs[2], RESERVED, 30);
    assert !Unbroken(rs, RESERVED, 0, 2) by { assert rs[1].status == FREE; }
    SameStatusLaw(rs, out, RESERVED, 30);
  }

  lemma SortThree(a: Region, b: Region, c: Region)
    requires !Less(b, a) && !Less(c, b)
    ensures Sort([a, b, c]) == [a, b, c]
  {
    assert [a][..0] == [] && [a, b][..1] == [a] && [a, b, c][..2] == [a, b];
    assert Sort([a]) == [a];
    assert Sort([a, b]) == [a, b];
  }

  lemma {:induction false} NormalLoad(rs: seq<Region>, x: nat)
    requires Normal(rs)
    ensures Load(rs, x) <= 1 && (rs != [] && x >= rs[|rs| - 1].area.end ==> Load(rs, x) == 0)
    ensures forall s: Status, t: Status :: Has(rs, s, x) && Has(rs, t, x) ==> s == t
  {
    if rs != [] {
      var last := |rs| - 1;
      var init := rs[..last];
      forall i: nat ensures Apart(init, i) { assert Apart(rs, i); }
      NormalLoad(init, x);
      assert rs == init + [rs[last]];
      if last > 0 { assert Apart(rs, last - 1); }
      forall s: Status ensures Has(rs, s, x) <==> Has(init, s, x) || Hits(rs[last], s, x) {
        HasAppend(init, rs[last], s, x);
      }
      LoadHas(init, x);
      if x >= rs[last].area.begin { NormalBefore(rs, init, x); }
    }
  }

  /** The regions before the last end before it begins. */
  lemma NormalBefore(rs: seq<Region>, init: seq<Region>, x: nat)
    requires Normal(rs) && rs != [] && x >= rs[|rs| - 1].area.begin && init == rs[..|rs| - 1]
    ensures forall s: Status :: !Has(init, s, x)
  {
    forall i | 0 <= i < |rs| - 1 ensures rs[i].area.end <= rs[|rs| - 1].area.begin { OrderedPair(rs, i, |rs| - 1); }
  }

  lemma {:induction false} OrderedPair(rs: seq<Region>, i: nat, j: nat)
    requires Normal(rs) && i < j < |rs|
    ensures rs[i].area.end <= rs[j].area.begin
  {
    assert Apart(rs, j - 1);
    if i < j - 1 { OrderedPair(rs, i, j - 1); }
  }

  /** Normalising a normal list gives it back. */
  lemma Idempotent(regions: seq<Region>, out: seq<Region>)
    requires Normal(regions) && IsNormalisation(regions, out)
    ensures out == regions
  {
    hide Has, Load, Normal;
    forall s: Status, x: nat ensures Has(out, s, x) <==> Has(regions, s, x) {
      NormalLoad(regions, x);
      FreeLaw(regions, out, x);
      UsedLaw(regions, out, x);
      LoadHas(regions, x);
      if s != FREE && Has(regions, s, x) { SingleLaw(regions, out, s, x); }
      if s != FREE && Has(out, s, x) {
        var t: Status :| t != FREE && Has(regions, t, x);
        SingleLaw(regions, out, t, x);
      }
    }
    Canonical(out, regions);
  }
}
