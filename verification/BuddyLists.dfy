/**
 The sixteen free lists of the buddy allocator: doubly linked lists of descriptors, one per
 order, kept strictly sorted by address.  A descriptor pointer is the index of its slot in
 descriptor memory.  The shape of a list is stated locally: next is the listed descriptor with
 the next larger address, which is what the two-neighbour buddy search relies on.
 */
module BuddyLists {
  import opened BuddyBlocks
  import Queues

  const NULL: int := -1

  datatype FreeBlock = FreeBlock(paddr: nat, order: nat, prev: int, next: int)

  // ---------- the free lists ----------

  ghost predicate Listed(mem: seq<FreeBlock>, linked: set<int>, k: nat, c: int) {
    c in linked && 0 <= c < |mem| && mem[c].order == k
  }

  /** next is the node of the same list with the next larger address. */
  ghost predicate NextOk(mem: seq<FreeBlock>, linked: set<int>, a: int)
    requires 0 <= a < |mem|
  {
    var k, n := mem[a].order, mem[a].next;
    if n == NULL then
      forall c :: Listed(mem, linked, k, c) ==> mem[c].paddr <= mem[a].paddr
    else
      && Listed(mem, linked, k, n) && mem[n].prev == a && mem[a].paddr < mem[n].paddr
      && forall c :: Listed(mem, linked, k, c) ==> mem[c].paddr <= mem[a].paddr || mem[n].paddr <= mem[c].paddr
  }

  ghost predicate PrevOk(mem: seq<FreeBlock>, heads: seq<int>, linked: set<int>, a: int)
    requires 0 <= a < |mem| && mem[a].order < |heads|
  {
    var k, p := mem[a].order, mem[a].prev;
    if p == NULL then heads[k] == a else Listed(mem, linked, k, p) && mem[p].next == a
  }

  ghost predicate HeadOk(mem: seq<FreeBlock>, heads: seq<int>, linked: set<int>, k: nat)
    requires k < |heads|
  {
    if heads[k] == NULL then
      forall c :: !Listed(mem, linked, k, c)
    else
      && Listed(mem, linked, k, heads[k]) && mem[heads[k]].prev == NULL
      && forall c :: Listed(mem, linked, k, c) ==> mem[heads[k]].paddr <= mem[c].paddr
  }

  /** The linked slots form one strictly address-sorted doubly linked list per order. */
  ghost predicate Links(mem: seq<FreeBlock>, heads: seq<int>, linked: set<int>) {
    && |heads| == MAX_ORDER + 1
    && (forall a :: a in linked ==> 0 <= a < |mem| && mem[a].order <= MAX_ORDER)
    && (forall a, b :: a in linked && b in linked && a != b && mem[a].order == mem[b].order
          ==> mem[a].paddr != mem[b].paddr)
    && (forall a {:trigger mem[a].next} :: a in linked ==> NextOk(mem, linked, a))
    && (forall a {:trigger mem[a].prev} :: a in linked ==> PrevOk(mem, heads, linked, a))
    && (forall k {:trigger heads[k]} :: 0 <= k <= MAX_ORDER ==> HeadOk(mem, heads, linked, k))
  }

  ghost function BlocksOf(mem: seq<FreeBlock>, linked: set<int>): set<Block> {
    set a | a in linked && 0 <= a < |mem| :: Block(mem[a].paddr, mem[a].order)
  }

  lemma HeadNode(mem: seq<FreeBlock>, heads: seq<int>, linked: set<int>, k: nat)
    requires Links(mem, heads, linked) && k <= MAX_ORDER
    ensures |heads| == MAX_ORDER + 1
    ensures HeadOk(mem, heads, linked, k)
    ensures heads[k] != NULL ==> Listed(mem, linked, k, heads[k]) && mem[heads[k]].prev == NULL
  {
    assert HeadOk(mem, heads, linked, k);
  }

  lemma LinksShape(mem: seq<FreeBlock>, heads: seq<int>, linked: set<int>)
    requires Links(mem, heads, linked)
    ensures |heads| == MAX_ORDER + 1
  {}

  lemma NextNode(mem: seq<FreeBlock>, heads: seq<int>, linked: set<int>, a: int)
    requires Links(mem, heads, linked) && a in linked
    ensures 0 <= a < |mem|
    ensures var n := mem[a].next; n != NULL ==>
              Listed(mem, linked, mem[a].order, n) && mem[n].prev == a && mem[a].paddr < mem[n].paddr
  {
    assert NextOk(mem, linked, a);
  }

  lemma Neighbours(mem: seq<FreeBlock>, heads: seq<int>, linked: set<int>, a: int)
    requires Links(mem, heads, linked) && a in linked
    ensures |heads| == MAX_ORDER + 1 && 0 <= a < |mem| && mem[a].order <= MAX_ORDER
    ensures NextOk(mem, linked, a) && PrevOk(mem, heads, linked, a)
    ensures mem[a].next != NULL ==> Listed(mem, linked, mem[a].order, mem[a].next) && mem[mem[a].next].prev == a
    ensures mem[a].prev != NULL ==> Listed(mem, linked, mem[a].order, mem[a].prev) && mem[mem[a].prev].next == a
  {
    assert NextOk(mem, linked, a) && PrevOk(mem, heads, linked, a);
  }

  lemma Distinct(mem: seq<FreeBlock>, heads: seq<int>, linked: set<int>, a: int, b: int)
    requires Links(mem, heads, linked) && a in linked && b in linked && a != b
    ensures 0 <= a < |mem| && 0 <= b < |mem|
    ensures mem[a].order == mem[b].order ==> mem[a].paddr != mem[b].paddr
  {}

  // ---------- one descriptor per block ----------

  lemma OneBlock(mem: seq<FreeBlock>, nodes: set<int>, a: int)
    requires a in nodes && forall n :: n in nodes ==> 0 <= n < |mem|
    requires forall n :: n in nodes && n != a && mem[n].order == mem[a].order ==> mem[n].paddr != mem[a].paddr
    ensures var b := Block(mem[a].paddr, mem[a].order);
            BlocksOf(mem, nodes) == BlocksOf(mem, nodes - {a}) + {b} && b !in BlocksOf(mem, nodes - {a})
  {}

  lemma NoBlocks(mem: seq<FreeBlock>)
    ensures BlocksOf(mem, {}) == {}
  {}

  lemma {:induction false} CountBlocks(mem: seq<FreeBlock>, nodes: set<int>)
    requires forall a :: a in nodes ==> 0 <= a < |mem|
    requires forall a, b :: a in nodes && b in nodes && a != b && mem[a].order == mem[b].order
               ==> mem[a].paddr != mem[b].paddr
    ensures |BlocksOf(mem, nodes)| == |nodes|
  {
    hide BlocksOf;
    if nodes == {} {
      NoBlocks(mem);
    } else {
      var a := Queues.Member(nodes);
      CountBlocks(mem, nodes - {a});
      OneBlock(mem, nodes, a);
    }
  }

  /** There are as many free blocks as descriptors in use. */
  lemma BlockCount(mem: seq<FreeBlock>, heads: seq<int>, linked: set<int>)
    requires Links(mem, heads, linked)
    ensures |BlocksOf(mem, linked)| == |linked|
  {
    CountBlocks(mem, linked);
  }

  // ---------- splicing a node in and out ----------

  /** p and n are the neighbours between which an address addr of order k belongs. */
  ghost predicate Gap(mem: seq<FreeBlock>, heads: seq<int>, linked: set<int>, k: nat, p: int, n: int, addr: nat)
    requires k < |heads|
  {
    && (if p == NULL then heads[k] == n else Listed(mem, linked, k, p) && mem[p].next == n && mem[p].paddr < addr)
    && (n != NULL ==> Listed(mem, linked, k, n) && mem[n].prev == p && addr < mem[n].paddr)
  }

  function SetNext(mem: seq<FreeBlock>, a: int, v: int): seq<FreeBlock> {
    if 0 <= a < |mem| then mem[a := mem[a].(next := v)] else mem
  }

  function SetPrev(mem: seq<FreeBlock>, a: int, v: int): seq<FreeBlock> {
    if 0 <= a < |mem| then mem[a := mem[a].(prev := v)] else mem
  }

  function SpliceIn(mem: seq<FreeBlock>, node: int, p: int, n: int): seq<FreeBlock> {
    SetNext(SetPrev(SetNext(SetPrev(mem, node, p), node, n), n, node), p, node)
  }

  /** Every address of list k other than the spliced one is on the right side of the gap. */
  lemma GapSides(mem: seq<FreeBlock>, heads: seq<int>, linked: set<int>, k: nat, p: int, n: int, addr: nat, c: int)
    requires Links(mem, heads, linked) && k <= MAX_ORDER && Gap(mem, heads, linked, k, p, n, addr)
    requires Listed(mem, linked, k, c)
    ensures (p != NULL && mem[c].paddr <= mem[p].paddr) || (n != NULL && mem[n].paddr <= mem[c].paddr)
  {
    if p != NULL { assert NextOk(mem, linked, p); }
    assert HeadOk(mem, heads, linked, k);
  }

  ghost predicate SameBlocks(mem: seq<FreeBlock>, mem': seq<FreeBlock>) {
    && |mem'| == |mem|
    && (forall a :: 0 <= a < |mem| ==> mem'[a].paddr == mem[a].paddr && mem'[a].order == mem[a].order)
  }

  lemma SpliceShape(mem: seq<FreeBlock>, node: int, p: int, n: int)
    ensures SameBlocks(mem, SpliceIn(mem, node, p, n))
  {}

  /** The links after splicing node in between p and n. */
  lemma SpliceLinks(mem: seq<FreeBlock>, node: int, p: int, n: int, a: int)
    requires 0 <= node < |mem| && 0 <= a < |mem| && node != p && node != n && (p == n ==> p == NULL)
    requires p < |mem| && n < |mem|
    ensures var mem' := SpliceIn(mem, node, p, n);
            && |mem'| == |mem|
            && mem'[a].next == (if a == node then n else if a == p then node else mem[a].next)
            && mem'[a].prev == (if a == node then p else if a == n then node else mem[a].prev)
  {}

  lemma SpliceNext(mem: seq<FreeBlock>, heads: seq<int>, linked: set<int>, node: int, p: int, n: int, a: int)
    requires Links(mem, heads, linked) && 0 <= node < |mem| && node !in linked && mem[node].order <= MAX_ORDER
    requires Gap(mem, heads, linked, mem[node].order, p, n, mem[node].paddr)
    requires a == node || a in linked
    ensures NextOk(SpliceIn(mem, node, p, n), linked + {node}, a)
  {
    hide Links, PrevOk, HeadOk, SpliceIn;
    var k, addr := mem[node].order, mem[node].paddr;
    var mem', linked' := SpliceIn(mem, node, p, n), linked + {node};
    if a in linked { Neighbours(mem, heads, linked, a); }
    SpliceShape(mem, node, p, n);
    SpliceLinks(mem, node, p, n, a);
    if mem'[a].next != NULL { SpliceLinks(mem, node, p, n, mem'[a].next); }
    forall c | Listed(mem, linked, k, c)
      ensures (p != NULL && mem[c].paddr <= mem[p].paddr) || (n != NULL && mem[n].paddr <= mem[c].paddr)
    {
      GapSides(mem, heads, linked, k, p, n, addr, c);
    }
    if a in linked && a != p && p != NULL { Distinct(mem, heads, linked, a, p); }
    assert forall c :: Listed(mem', linked', mem[a].order, c) ==> c == node || Listed(mem, linked, mem[a].order, c);
  }

  lemma SplicePrev(mem: seq<FreeBlock>, heads: seq<int>, linked: set<int>, node: int, p: int, n: int, a: int)
    requires Links(mem, heads, linked) && 0 <= node < |mem| && node !in linked && mem[node].order <= MAX_ORDER
    requires Gap(mem, heads, linked, mem[node].order, p, n, mem[node].paddr)
    requires a == node || a in linked
    ensures PrevOk(SpliceIn(mem, node, p, n), if p == NULL then heads[mem[node].order := node] else heads,
                   linked + {node}, a)
  {
    hide Links, NextOk, HeadOk, SpliceIn;
    LinksShape(mem, heads, linked);
    var mem' := SpliceIn(mem, node, p, n);
    if a in linked { Neighbours(mem, heads, linked, a); }
    SpliceShape(mem, node, p, n);
    SpliceLinks(mem, node, p, n, a);
    if mem'[a].prev != NULL { SpliceLinks(mem, node, p, n, mem'[a].prev); }
  }

  lemma SpliceHead(mem: seq<FreeBlock>, heads: seq<int>, linked: set<int>, node: int, p: int, n: int, j: nat)
    requires Links(mem, heads, linked) && 0 <= node < |mem| && node !in linked && mem[node].order <= MAX_ORDER
    requires Gap(mem, heads, linked, mem[node].order, p, n, mem[node].paddr)
    requires j <= MAX_ORDER
    ensures HeadOk(SpliceIn(mem, node, p, n), if p == NULL then heads[mem[node].order := node] else heads,
                   linked + {node}, j)
  {
    hide Links, NextOk, PrevOk, SpliceIn;
    HeadNode(mem, heads, linked, j);
    SpliceShape(mem, node, p, n);
    var mem', linked' := SpliceIn(mem, node, p, n), linked + {node};
    SpliceLinks(mem, node, p, n, node);
    if heads[j] != NULL { SpliceLinks(mem, node, p, n, heads[j]); }
    assert forall c :: Listed(mem', linked', j, c) ==> c == node || Listed(mem, linked, j, c);
  }

  lemma SpliceDistinct(mem: seq<FreeBlock>, heads: seq<int>, linked: set<int>, node: int, p: int, n: int, b: int)
    requires Links(mem, heads, linked) && 0 <= node < |mem| && node !in linked && mem[node].order <= MAX_ORDER
    requires Gap(mem, heads, linked, mem[node].order, p, n, mem[node].paddr)
    requires Listed(mem, linked, mem[node].order, b)
    ensures mem[b].paddr != mem[node].paddr
  {
    GapSides(mem, heads, linked, mem[node].order, p, n, mem[node].paddr, b);
  }

  lemma SpliceKeeps(mem: seq<FreeBlock>, heads: seq<int>, linked: set<int>, node: int, p: int, n: int)
    requires Links(mem, heads, linked) && 0 <= node < |mem| && node !in linked && mem[node].order <= MAX_ORDER
    requires Gap(mem, heads, linked, mem[node].order, p, n, mem[node].paddr)
    ensures Links(SpliceIn(mem, node, p, n), if p == NULL then heads[mem[node].order := node]
            else heads, linked + {node})
  {
    hide NextOk, PrevOk, HeadOk, Gap, SpliceIn;
    var k, addr := mem[node].order, mem[node].paddr;
    var mem', linked' := SpliceIn(mem, node, p, n), linked + {node};
    var heads' := if p == NULL then heads[k := node] else heads;
    SpliceShape(mem, node, p, n);
    forall a | a in linked' ensures NextOk(mem', linked', a) {
      SpliceNext(mem, heads, linked, node, p, n, a);
    }
    forall a | a in linked' ensures PrevOk(mem', heads', linked', a) {
      SplicePrev(mem, heads, linked, node, p, n, a);
    }
    forall j | 0 <= j <= MAX_ORDER ensures HeadOk(mem', heads', linked', j) {
      SpliceHead(mem, heads, linked, node, p, n, j);
    }
    forall b | Listed(mem, linked, k, b) ensures mem[b].paddr != addr {
      SpliceDistinct(mem, heads, linked, node, p, n, b);
    }
  }

  function SpliceOut(mem: seq<FreeBlock>, node: int, p: int, n: int): seq<FreeBlock> {
    SetNext(SetPrev(SetPrev(SetNext(mem, p, n), n, p), node, NULL), node, NULL)
  }

  lemma CutShape(mem: seq<FreeBlock>, node: int, p: int, n: int)
    ensures SameBlocks(mem, SpliceOut(mem, node, p, n))
  {}

  lemma CutLinks(mem: seq<FreeBlock>, heads: seq<int>, linked: set<int>, node: int, a: int)
    requires Links(mem, heads, linked) && node in linked
    requires a in linked && a != node
    ensures var mem' := SpliceOut(mem, node, mem[node].prev, mem[node].next);
            && |mem'| == |mem|
            && mem'[a].next == (if mem[a].next == node then mem[node].next else mem[a].next)
            && mem'[a].prev == (if mem[a].prev == node then mem[node].prev else mem[a].prev)
            && (mem[a].next == node <==> mem[node].prev == a)
            && (mem[a].prev == node <==> mem[node].next == a)
  {
    hide Links, NextOk, PrevOk, HeadOk;
    Neighbours(mem, heads, linked, node);
    Neighbours(mem, heads, linked, a);
  }

  lemma CutNext(mem: seq<FreeBlock>, heads: seq<int>, linked: set<int>, node: int, a: int)
    requires Links(mem, heads, linked) && node in linked
    requires a in linked && a != node
    ensures NextOk(SpliceOut(mem, node, mem[node].prev, mem[node].next), linked - {node}, a)
  {
    hide Links, PrevOk, HeadOk;
    hide SpliceOut;
    Neighbours(mem, heads, linked, node);
    Neighbours(mem, heads, linked, a);
    CutLinks(mem, heads, linked, node, a);
    if mem[node].next != NULL { CutLinks(mem, heads, linked, node, mem[node].next); }
    if mem[a].next != NULL && mem[a].next != node { CutLinks(mem, heads, linked, node, mem[a].next); }
    CutShape(mem, node, mem[node].prev, mem[node].next);
    if a == mem[node].prev {
      forall c | Listed(mem, linked, mem[a].order, c) && c != node ensures mem[c].paddr != mem[node].paddr {
        Distinct(mem, heads, linked, node, c);
      }
    }
  }

  lemma CutPrev(mem: seq<FreeBlock>, heads: seq<int>, linked: set<int>, node: int, a: int)
    requires Links(mem, heads, linked) && node in linked
    requires a in linked && a != node
    ensures PrevOk(SpliceOut(mem, node, mem[node].prev, mem[node].next),
                   if mem[node].prev == NULL then heads[mem[node].order := mem[node].next]
                       else heads, linked - {node}, a)
  {
    hide Links, NextOk, HeadOk, SpliceOut;
    Neighbours(mem, heads, linked, node);
    Neighbours(mem, heads, linked, a);
    CutLinks(mem, heads, linked, node, a);
    if mem[node].prev != NULL { CutLinks(mem, heads, linked, node, mem[node].prev); }
    if mem[a].prev != NULL && mem[a].prev != node { CutLinks(mem, heads, linked, node, mem[a].prev); }
    CutShape(mem, node, mem[node].prev, mem[node].next);
  }

  lemma CutHead(mem: seq<FreeBlock>, heads: seq<int>, linked: set<int>, node: int, j: nat)
    requires Links(mem, heads, linked) && node in linked
    requires j <= MAX_ORDER
    ensures HeadOk(SpliceOut(mem, node, mem[node].prev, mem[node].next),
                   if mem[node].prev == NULL then heads[mem[node].order := mem[node].next]
                       else heads, linked - {node}, j)
  {
    hide Links, SpliceOut;
    HeadNode(mem, heads, linked, j);
    Neighbours(mem, heads, linked, node);
    var p, n := mem[node].prev, mem[node].next;
    var mem', linked' := SpliceOut(mem, node, p, n), linked - {node};
    CutShape(mem, node, p, n);
    if n != NULL { CutLinks(mem, heads, linked, node, n); }
    if heads[j] != NULL && heads[j] != node { CutLinks(mem, heads, linked, node, heads[j]); }
    assert forall c :: Listed(mem', linked', j, c) <==> c != node && Listed(mem, linked, j, c);
    forall c | Listed(mem, linked, mem[node].order, c) && c != node ensures mem[c].paddr != mem[node].paddr {
      Distinct(mem, heads, linked, node, c);
    }
  }

  lemma CutKeeps(mem: seq<FreeBlock>, heads: seq<int>, linked: set<int>, node: int)
    requires Links(mem, heads, linked) && node in linked
    ensures Links(SpliceOut(mem, node, mem[node].prev, mem[node].next),
                  if mem[node].prev == NULL then heads[mem[node].order := mem[node].next] else heads, linked - {node})
  {
    hide NextOk, PrevOk, HeadOk, SpliceOut;
    var p, n := mem[node].prev, mem[node].next;
    var mem', linked' := SpliceOut(mem, node, p, n), linked - {node};
    var heads' := if p == NULL then heads[mem[node].order := n] else heads;
    CutShape(mem, node, p, n);
    forall a | a in linked' ensures NextOk(mem', linked', a) { CutNext(mem, heads, linked, node, a); }
    forall a | a in linked' ensures PrevOk(mem', heads', linked', a) { CutPrev(mem, heads, linked, node, a); }
    forall j | 0 <= j <= MAX_ORDER ensures HeadOk(mem', heads', linked', j) { CutHead(mem, heads, linked, node, j); }
  }

  lemma BlocksInsert(mem: seq<FreeBlock>, mem': seq<FreeBlock>, linked: set<int>, node: int)
    requires SameBlocks(mem, mem') && 0 <= node < |mem|
    ensures BlocksOf(mem', linked + {node}) == BlocksOf(mem, linked) + {Block(mem[node].paddr, mem[node].order)}
  {}

  lemma BlocksRemove(mem: seq<FreeBlock>, heads: seq<int>, mem': seq<FreeBlock>, linked: set<int>, node: int)
    requires Links(mem, heads, linked) && SameBlocks(mem, mem') && node in linked
    ensures BlocksOf(mem', linked - {node}) == BlocksOf(mem, linked) - {Block(mem[node].paddr, mem[node].order)}
  {
    hide NextOk, PrevOk, HeadOk;
  }

  /** In a sorted list of aligned blocks only the two neighbours can be the buddy. */
  lemma BuddyIsNeighbour(mem: seq<FreeBlock>, heads: seq<int>, linked: set<int>, a: int, c: int)
    requires Links(mem, heads, linked) && Separate(BlocksOf(mem, linked)) && a in linked && c in linked
    requires mem[c].order == mem[a].order && mem[a].paddr < mem[c].paddr == mem[a].paddr + Size(mem[a].order)
    ensures mem[a].next == c && mem[c].prev == a
  {
    hide Links, PrevOk, HeadOk, Size, Aligned, Separate;
    Neighbours(mem, heads, linked, a);
    Neighbours(mem, heads, linked, c);
    var n, k := mem[a].next, mem[a].order;
    assert n != NULL && mem[n].paddr <= mem[c].paddr;
    AllPlaced(mem, heads, linked, a);
    AllPlaced(mem, heads, linked, c);
    AllPlaced(mem, heads, linked, n);
    Apart(mem[a].paddr, mem[n].paddr, k);
    if n != c { Distinct(mem, heads, linked, n, c); }
  }

  lemma AllPlaced(mem: seq<FreeBlock>, heads: seq<int>, linked: set<int>, a: int)
    requires Links(mem, heads, linked) && Separate(BlocksOf(mem, linked)) && a in linked
    ensures 0 <= a < |mem| && WellPlaced(Block(mem[a].paddr, mem[a].order))
    ensures Block(mem[a].paddr, mem[a].order) in BlocksOf(mem, linked)
  {
    hide NextOk, PrevOk, HeadOk, Size, Aligned;
    assert Block(mem[a].paddr, mem[a].order) in BlocksOf(mem, linked);
  }

  lemma InPlace(mem: seq<FreeBlock>, heads: seq<int>, linked: set<int>)
    requires Links(mem, heads, linked)
    ensures forall a :: a in linked ==> 0 <= a < |mem|
  {}

  lemma SameBlocksSet(mem: seq<FreeBlock>, mem': seq<FreeBlock>, linked: set<int>)
    requires SameBlocks(mem, mem')
    ensures BlocksOf(mem', linked) == BlocksOf(mem, linked)
  {}

  lemma FreshAddress(mem: seq<FreeBlock>, linked: set<int>, node: int)
    requires 0 <= node < |mem| && Block(mem[node].paddr, mem[node].order) !in BlocksOf(mem, linked)
    ensures forall c :: Listed(mem, linked, mem[node].order, c) ==> mem[c].paddr != mem[node].paddr
  {
    forall c | Listed(mem, linked, mem[node].order, c) ensures mem[c].paddr != mem[node].paddr {
      assert Block(mem[c].paddr, mem[c].order) in BlocksOf(mem, linked);
    }
  }

  lemma BlocksAgree(mem: seq<FreeBlock>, mem': seq<FreeBlock>, linked: set<int>)
    requires |mem| <= |mem'| && forall a :: a in linked ==> 0 <= a < |mem| && mem'[a] == mem[a]
    ensures BlocksOf(mem', linked) == BlocksOf(mem, linked)
  {}

  /** Changing slots that are in no list changes no list. */
  lemma LinksAgree(mem: seq<FreeBlock>, mem': seq<FreeBlock>, heads: seq<int>, linked: set<int>)
    requires Links(mem, heads, linked) && |mem| <= |mem'|
    requires forall a :: a in linked ==> 0 <= a < |mem| && mem'[a] == mem[a]
    ensures Links(mem', heads, linked)
  {
    forall a | a in linked ensures NextOk(mem', linked, a) && PrevOk(mem', heads, linked, a) {
      Neighbours(mem, heads, linked, a);
      assert forall c, k :: Listed(mem', linked, k, c) <==> Listed(mem, linked, k, c);
    }
    forall k | 0 <= k <= MAX_ORDER ensures HeadOk(mem', heads, linked, k) {
      assert HeadOk(mem, heads, linked, k);
      assert forall c :: Listed(mem', linked, k, c) <==> Listed(mem, linked, k, c);
    }
  }
}
