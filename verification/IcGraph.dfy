/**
 The interrupt-controller dependency graph: edges kept in per-parent chains threaded through one
 edge array, and Kahn's algorithm over them.  The sort succeeds exactly on acyclic graphs.
 */
module IcGraph {
  import Queues

  const MAX_NODES: nat := 32
  const MAX_EDGES: nat := 64

  // ---------- graphs, walks and orders ----------

  /** Edge e goes from node from[e] to node to[e]; parallel edges and loops are allowed. */
  datatype Graph = Graph(n: nat, from: seq<nat>, to: seq<nat>)

  ghost predicate WellFormed(g: Graph) {
    |g.from| == |g.to| && forall e :: 0 <= e < |g.from| ==> g.from[e] < g.n && g.to[e] < g.n
  }

  ghost predicate Arc(g: Graph, u: nat, v: nat) {
    exists e: nat :: e < |g.from| && e < |g.to| && g.from[e] == u && g.to[e] == v
  }

  ghost predicate Steps(g: Graph, p: seq<nat>, i: nat) {
    i + 1 < |p| ==> Arc(g, p[i], p[i + 1])
  }

  ghost predicate Walk(g: Graph, p: seq<nat>) {
    forall i: nat :: Steps(g, p, i)
  }

  ghost predicate Cyclic(g: Graph) {
    exists p: seq<nat> :: Walk(g, p) && |p| >= 2 && p[0] == p[|p| - 1]
  }

  ghost predicate Distinct(q: seq<nat>) {
    forall i, j :: 0 <= i < j < |q| ==> q[i] != q[j]
  }

  /** Whoever is in q comes after all its parents. */
  ghost predicate ParentsFirst(g: Graph, q: seq<nat>) {
    forall e: nat, j: nat :: e < |g.from| && e < |g.to| && j < |q| && q[j] == g.to[e] ==> g.from[e] in q[..j]
  }

  /** Every node once, parents before children. */
  ghost predicate TopoOrder(g: Graph, q: seq<nat>) {
    |q| == g.n && Distinct(q) && (forall i :: 0 <= i < |q| ==> q[i] < g.n) && ParentsFirst(g, q)
  }

  ghost function Elems(q: seq<nat>): set<nat> {
    set x | x in q
  }

  ghost function Range(n: nat): (r: set<nat>)
    ensures |r| == n && forall x: nat :: x in r <==> x < n
  {
    if n == 0 then {} else Range(n - 1) + {n - 1}
  }

  lemma {:induction false} DistinctSize(q: seq<nat>)
    requires Distinct(q)
    ensures |Elems(q)| == |q|
  {
    if q != [] {
      var last := |q| - 1;
      DistinctSize(q[..last]);
      assert Elems(q) == Elems(q[..last]) + {q[last]};
    }
  }

  /** Distinct nodes are at most n, and n of them are all. */
  lemma Pigeonhole(q: seq<nat>, n: nat)
    requires Distinct(q) && forall i :: 0 <= i < |q| ==> q[i] < n
    ensures |q| <= n && (|q| == n ==> forall x: nat :: x < n ==> x in q)
  {
    DistinctSize(q);
    Queues.SubsetSize(Elems(q), Range(n));
    if |q| == n {
      forall x: nat | x < n ensures x in q { assert x in Elems(q); }
    }
  }

  /** Along a walk an order goes strictly forward. */
  lemma {:induction false} WalkAdvances(g: Graph, q: seq<nat>, p: seq<nat>, j: nat) returns (i: nat)
    requires ParentsFirst(g, q) && Walk(g, p) && |p| >= 2 && j < |q| && q[j] == p[|p| - 1]
    ensures i < j && q[i] == p[0]
    decreases |p|
  {
    var last := |p| - 1;
    assert Steps(g, p, last - 1);
    var e: nat :| e < |g.from| && e < |g.to| && g.from[e] == p[last - 1] && g.to[e] == p[last];
    assert g.from[e] in q[..j];
    i :| 0 <= i < j && q[i] == p[last - 1];
    if last > 1 {
      forall k: nat ensures Steps(g, p[..last], k) { assert Steps(g, p, k); }
      i := WalkAdvances(g, q, p[..last], i);
    }
  }

  lemma OrderedIsAcyclic(g: Graph, q: seq<nat>)
    requires WellFormed(g) && TopoOrder(g, q)
    ensures !Cyclic(g)
  {
    if Cyclic(g) {
      var p: seq<nat> :| Walk(g, p) && |p| >= 2 && p[0] == p[|p| - 1];
      assert Steps(g, p, 0);
      Pigeonhole(q, g.n);
      assert p[0] < g.n && p[0] in q;
      var j: nat :| j < |q| && q[j] == p[|p| - 1];
      var i := WalkAdvances(g, q, p, j);
      assert false;
    }
  }

  /** Node v, if in u, has a parent in u. */
  ghost predicate HasParent(g: Graph, u: set<nat>, v: nat) {
    v in u ==> v < g.n && exists w: nat :: w in u && Arc(g, w, v)
  }

  ghost predicate Stuck(g: Graph, u: set<nat>) {
    forall v: nat :: HasParent(g, u, v)
  }

  lemma {:induction false} BackWalk(g: Graph, u: set<nat>, len: nat) returns (p: seq<nat>)
    requires Stuck(g, u) && u != {}
    ensures |p| == len + 1 && Walk(g, p) && forall i :: 0 <= i < |p| ==> p[i] in u
  {
    if len == 0 {
      var v :| v in u;
      return [v];
    }
    var rest := BackWalk(g, u, len - 1);
    assert HasParent(g, u, rest[0]);
    var w: nat :| w in u && Arc(g, w, rest[0]);
    p := [w] + rest;
    forall i: nat ensures Steps(g, p, i) {
      if i > 0 { assert Steps(g, rest, i - 1); }
    }
  }

  lemma Repeats(p: seq<nat>, n: nat) returns (i: nat, j: nat)
    requires |p| > n && forall k :: 0 <= k < |p| ==> p[k] < n
    ensures i < j < |p| && p[i] == p[j]
  {
    if Distinct(p) {
      Pigeonhole(p, n);
    }
    i, j :| 0 <= i < j < |p| && p[i] == p[j];
  }

  lemma StuckIsCyclic(g: Graph, u: set<nat>)
    requires Stuck(g, u) && u != {}
    ensures Cyclic(g)
  {
    var p := BackWalk(g, u, g.n);
    forall k | 0 <= k < |p| ensures p[k] < g.n { assert HasParent(g, u, p[k]); }
    var i, j := Repeats(p, g.n);
    var c := p[i..j + 1];
    forall k: nat ensures Steps(g, c, k) { assert Steps(g, p, i + k); }
  }

  // ---------- edge chains ----------

  /** The newest edge below k that leaves node i, or -1. */
  ghost function Last(from: seq<nat>, i: nat, k: nat): (e: int)
    requires k <= |from|
    ensures -1 <= e < k && (e >= 0 ==> from[e] == i) && forall x :: e < x < k ==> from[x] != i
  {
    if k == 0 then -1 else if from[k - 1] == i then k - 1 else Last(from, i, k - 1)
  }

  lemma {:induction false} LastGrows(from: seq<nat>, i: nat, k: nat, x: nat)
    requires k <= |from|
    ensures Last(from + [x], i, k) == Last(from, i, k)
  {
    if k > 0 { LastGrows(from, i, k - 1, x); }
  }

  /** Edges into c among a set of edges. */
  ghost function Into(g: Graph, s: set<nat>, c: nat): set<nat> {
    set e | e in s && e < |g.to| && g.to[e] == c
  }

  lemma IntoRemove(g: Graph, s: set<nat>, e: nat, c: nat)
    requires e in s && e < |g.to|
    ensures Into(g, s - {e}, c) == Into(g, s, c) - {e}
    ensures |Into(g, s - {e}, c)| == |Into(g, s, c)| - if g.to[e] == c then 1 else 0
  {
    assert Into(g, s - {e}, c) == Into(g, s, c) - {e};
    assert e in Into(g, s, c) <==> g.to[e] == c;
  }

  lemma IntoAdd(g: Graph, s: set<nat>, e: nat, c: nat)
    requires e !in s && e < |g.to|
    ensures |Into(g, s + {e}, c)| == |Into(g, s, c)| + if g.to[e] == c then 1 else 0
  {
    IntoRemove(g, s + {e}, e, c);
    assert s + {e} - {e} == s;
  }

  /** Array indegree counts the edges of s. */
  ghost predicate Counts(g: Graph, s: set<nat>, indegree: seq<int>) {
    |indegree| >= g.n && forall c: nat :: c < g.n ==> indegree[c] == |Into(g, s, c)|
  }

  /** Edges counted once nodes below i, and the edges of i from k on, have been seen. */
  ghost function Seen(g: Graph, i: nat, k: nat): set<nat> {
    set e: nat | e < |g.from| && (g.from[e] < i || (g.from[e] == i && e >= k))
  }

  lemma SeenStep(g: Graph, i: nat, k: nat, e: nat, indegree: seq<int>)
    requires WellFormed(g) && k <= |g.from| && Last(g.from, i, k) == e && Counts(g, Seen(g, i, k), indegree)
    ensures g.to[e] < |indegree| && Counts(g, Seen(g, i, e), indegree[g.to[e] := indegree[g.to[e]] + 1])
  {
    assert Seen(g, i, e) == Seen(g, i, k) + {e};
    forall c: nat ensures |Into(g, Seen(g, i, e), c)| == |Into(g, Seen(g, i, k), c)| + if g.to[e] == c then 1 else 0 {
      IntoAdd(g, Seen(g, i, k), e, c);
    }
  }

  lemma SeenDone(g: Graph, i: nat, k: nat)
    requires k <= |g.from| && Last(g.from, i, k) == -1
    ensures Seen(g, i, k) == Seen(g, i + 1, |g.from|)
  {}

  // ---------- the queue ----------

  /** Edges not yet taken off: those of nodes not yet popped, and of the node popped last below k. */
  ghost function Pending(g: Graph, q: seq<nat>, head: nat, k: nat): set<nat>
    requires head <= |q|
  {
    set e: nat | e < |g.from| && (g.from[e] !in q[..head] || (head > 0 && g.from[e] == q[head - 1] && e < k))
  }

  /** Queued are exactly the nodes with no pending edge into them. */
  ghost predicate Kahn(g: Graph, q: seq<nat>, head: nat, k: nat, indegree: seq<int>) {
    && head <= |q| && Distinct(q) && (forall i :: 0 <= i < |q| ==> q[i] < g.n) && ParentsFirst(g, q)
    && Counts(g, Pending(g, q, head, k), indegree)
    && forall c: nat :: c < g.n ==> (c in q <==> Into(g, Pending(g, q, head, k), c) == {})
  }

  lemma KahnPop(g: Graph, q: seq<nat>, head: nat, indegree: seq<int>)
    requires Kahn(g, q, head, 0, indegree) && head < |q|
    ensures Kahn(g, q, head + 1, |g.from|, indegree)
  {
    assert Pending(g, q, head + 1, |g.from|) == Pending(g, q, head, 0) by {
      assert q[..head + 1] == q[..head] + [q[head]];
    }
  }

  lemma KahnDone(g: Graph, q: seq<nat>, head: nat, k: nat, indegree: seq<int>)
    requires Kahn(g, q, head, k, indegree) && 0 < head && k <= |g.from| && Last(g.from, q[head - 1], k) == -1
    ensures Kahn(g, q, head, 0, indegree)
  {
    assert Pending(g, q, head, k) == Pending(g, q, head, 0);
  }

  /** Taking edge e off leaves one fewer pending. */
  lemma PendingStep(g: Graph, q: seq<nat>, head: nat, k: nat, e: nat)
    requires WellFormed(g) && 0 < head <= |q| && k <= |g.from| && Last(g.from, q[head - 1], k) == e
    ensures e in Pending(g, q, head, k) && Pending(g, q, head, e) == Pending(g, q, head, k) - {e}
  {
    assert q[head - 1] in q[..head];
  }

  lemma KahnStep(g: Graph, q: seq<nat>, head: nat, k: nat, e: nat, indegree: seq<int>)
    requires WellFormed(g) && Kahn(g, q, head, k, indegree) && 0 < head && k <= |g.from| &&
             Last(g.from, q[head - 1], k) == e
    ensures g.to[e] < |indegree| && g.to[e] !in q
    ensures var c := g.to[e];
            var indegree' := indegree[c := indegree[c] - 1];
            if indegree[c] == 1 then Kahn(g, q + [c], head, e, indegree') else Kahn(g, q, head, e, indegree')
  {
    hide Pending, Last;
    var c, s := g.to[e], Pending(g, q, head, k);
    PendingStep(g, q, head, k, e);
    assert e in Into(g, s, c);
    forall x: nat ensures |Into(g, s - {e}, x)| == |Into(g, s, x)| - if c == x then 1 else 0 { IntoRemove(g, s, e, x); }
    forall x: nat | x != c ensures Into(g, s - {e}, x) == Into(g, s, x) {
      IntoRemove(g, s, e, x);
      assert e !in Into(g, s, x);
    }
    if indegree[c] == 1 {
      PendingPush(g, q, head, e, c);
      PushParents(g, q, head, e, c);
    }
  }

  lemma PendingPush(g: Graph, q: seq<nat>, head: nat, k: nat, c: nat)
    requires head <= |q|
    ensures Pending(g, q + [c], head, k) == Pending(g, q, head, k)
  {
    assert (q + [c])[..head] == q[..head];
  }

  /** A node without pending edges has all its parents among the popped. */
  lemma PushParents(g: Graph, q: seq<nat>, head: nat, k: nat, c: nat)
    requires WellFormed(g) && ParentsFirst(g, q) && head <= |q| && c !in q && Into(g, Pending(g, q, head, k), c) == {}
    ensures ParentsFirst(g, q + [c])
  {
    var q' := q + [c];
    forall e: nat, j: nat | e < |g.from| && e < |g.to| && j < |q'| && q'[j] == g.to[e] ensures g.from[e] in q'[..j] {
      if j < |q| {
        assert q'[..j] == q[..j];
      } else {
        assert e !in Into(g, Pending(g, q, head, k), c);
        assert g.from[e] in q[..head] && q'[..j] == q;
      }
    }
  }

  /** With the queue used up, either all nodes came out or the rest form a cycle. */
  lemma KahnEnd(g: Graph, q: seq<nat>, indegree: seq<int>)
    requires WellFormed(g) && Kahn(g, q, |q|, 0, indegree)
    ensures |q| <= g.n
    ensures if |q| == g.n then TopoOrder(g, q) && !Cyclic(g) else Cyclic(g)
  {
    Pigeonhole(q, g.n);
    if |q| == g.n {
      OrderedIsAcyclic(g, q);
    } else {
      var u := Range(g.n) - Elems(q);
      DistinctSize(q);
      if u == {} { Queues.SubsetSize(Range(g.n), Elems(q)); }
      forall v: nat ensures HasParent(g, u, v) { if v in u { StuckParent(g, q, v); } }
      StuckIsCyclic(g, u);
    }
  }

  lemma StuckParent(g: Graph, q: seq<nat>, v: nat)
    requires WellFormed(g) && v < g.n && v !in q && Into(g, Pending(g, q, |q|, 0), v) != {}
    ensures exists w: nat :: w in Range(g.n) - Elems(q) && Arc(g, w, v)
  {
    var e :| e in Into(g, Pending(g, q, |q|, 0), v);
    assert q[..|q|] == q;
    assert Arc(g, g.from[e], v);
  }

  // ---------- the class ----------

  datatype Node = Node(id: nat, nodeId: int, device: nat)

  datatype Edge = Edge(parent: nat, child: nat, nextEdge: int)

  datatype ErrCode = NullPtr | OutOfMemory | KeyDuplicated | EntryNotFound | UnknownError

  datatype Result<T> = Ok(value: T) | Err(error: ErrCode)

  ghost predicate EndsIn(edges: seq<Edge>, index: map<nat, nat>) {
    forall e :: 0 <= e < |edges| ==> edges[e].parent in index && edges[e].child in index
  }

  ghost function Parents(edges: seq<Edge>, index: map<nat, nat>): (from: seq<nat>)
    requires EndsIn(edges, index)
    ensures |from| == |edges| && forall e :: 0 <= e < |edges| ==> from[e] == index[edges[e].parent]
  {
    seq(|edges|, e requires 0 <= e < |edges| => index[edges[e].parent])
  }

  ghost function Children(edges: seq<Edge>, index: map<nat, nat>): (to: seq<nat>)
    requires EndsIn(edges, index)
    ensures |to| == |edges| && forall e :: 0 <= e < |edges| ==> to[e] == index[edges[e].child]
  {
    seq(|edges|, e requires 0 <= e < |edges| => index[edges[e].child])
  }

  ghost predicate HeadOk(edges: seq<Edge>, index: map<nat, nat>, heads: seq<int>, i: nat)
    requires EndsIn(edges, index)
  {
    i < |heads| ==> heads[i] == Last(Parents(edges, index), i, |edges|)
  }

  ghost predicate NextOk(edges: seq<Edge>, index: map<nat, nat>, e: nat)
    requires EndsIn(edges, index)
  {
    e < |edges| ==> edges[e].nextEdge == Last(Parents(edges, index), index[edges[e].parent], e)
  }

  /** Each head and each edge points at the next older edge of the same parent. */
  ghost predicate Threaded(edges: seq<Edge>, index: map<nat, nat>, heads: seq<int>)
    requires EndsIn(edges, index)
  {
    |heads| == MAX_NODES && (forall i: nat :: HeadOk(edges, index, heads, i)) &&
        (forall e: nat :: NextOk(edges, index, e))
  }

  /** No edge leaves a node that does not exist yet. */
  lemma {:induction false} NoEdge(from: seq<nat>, i: nat, k: nat)
    requires k <= |from| && forall e :: 0 <= e < |from| ==> from[e] < i
    ensures Last(from, i, k) == -1
  {
    if k > 0 { NoEdge(from, i, k - 1); }
  }

  lemma NodeAdded(edges: seq<Edge>, index: map<nat, nat>, heads: seq<int>, id: nat, at: nat)
    requires EndsIn(edges, index) && Threaded(edges, index, heads) && id !in index && at < MAX_NODES
    requires forall x :: x in index ==> index[x] < at
    ensures var index' := index[id := at];
            && EndsIn(edges, index') && Threaded(edges, index', heads[at := -1])
            && Parents(edges, index') == Parents(edges, index) && Children(edges, index') == Children(edges, index)
  {
    var index', heads' := index[id := at], heads[at := -1];
    hide Last, Threaded, EndsIn;
    assert EndsIn(edges, index') by { StillEnds(edges, index, id, at); }
    assert Parents(edges, index') == Parents(edges, index) && Children(edges, index') == Children(edges, index) by {
      StillEnds(edges, index, id, at);
    }
    NoEdge(Parents(edges, index), at, |edges|);
    ThreadedFacts(edges, index, heads);
    forall i: nat ensures HeadOk(edges, index', heads', i) { assert HeadOk(edges, index, heads, i); }
    forall e: nat ensures NextOk(edges, index', e) { assert NextOk(edges, index, e); StillEnds(edges, index, id, at); }
    ThreadedIf(edges, index', heads');
  }

  lemma StillEnds(edges: seq<Edge>, index: map<nat, nat>, id: nat, at: nat)
    requires EndsIn(edges, index) && id !in index
    ensures var index' := index[id := at];
            && EndsIn(edges, index') && Parents(edges, index') == Parents(edges, index) &&
                Children(edges, index') == Children(edges, index)
            && forall e :: 0 <= e < |edges| ==>
                edges[e].parent in index && index'[edges[e].parent] == index[edges[e].parent]
  {}

  lemma ThreadedFacts(edges: seq<Edge>, index: map<nat, nat>, heads: seq<int>)
    requires EndsIn(edges, index) && Threaded(edges, index, heads)
    ensures |heads| == MAX_NODES && (forall i: nat :: HeadOk(edges, index, heads, i)) &&
            (forall e: nat :: NextOk(edges, index, e))
  {}

  lemma ThreadedIf(edges: seq<Edge>, index: map<nat, nat>, heads: seq<int>)
    requires EndsIn(edges, index)
    requires |heads| == MAX_NODES && (forall i: nat :: HeadOk(edges, index, heads, i)) &&
             (forall e: nat :: NextOk(edges, index, e))
    ensures Threaded(edges, index, heads)
  {}

  lemma EdgeAdded(edges: seq<Edge>, index: map<nat, nat>, heads: seq<int>, parent: nat, child: nat)
    requires EndsIn(edges, index) && Threaded(edges, index, heads) && parent in index && child in index &&
             index[parent] < MAX_NODES
    ensures var p := index[parent];
            var edges' := edges + [Edge(parent, child, heads[p])];
            && EndsIn(edges', index) && Threaded(edges', index, heads[p := |edges|])
            && Parents(edges', index) == Parents(edges, index) + [p] &&
                Children(edges', index) == Children(edges, index) + [index[child]]
  {
    hide Last;
    var p, from := index[parent], Parents(edges, index);
    var edges', heads' := edges + [Edge(parent, child, heads[p])], heads[p := |edges|];
    assert Parents(edges', index) == from + [p] && Children(edges', index) == Children(edges, index) + [index[child]];
    forall i: nat ensures HeadOk(edges', index, heads', i) {
      assert HeadOk(edges, index, heads, i);
      LastGrows(from, i, |edges|, p);
      LastAppend(from, p, i);
    }
    forall e: nat ensures NextOk(edges', index, e) {
      assert HeadOk(edges, index, heads, p);
      if e < |edges| {
        assert NextOk(edges, index, e);
        LastGrows(from, index[edges[e].parent], e, p);
      } else {
        LastGrows(from, p, |edges|, p);
      }
    }
  }

  lemma LastAppend(from: seq<nat>, p: nat, i: nat)
    ensures Last(from + [p], i, |from| + 1) == if i == p then |from| else Last(from + [p], i, |from|)
  {}

  class ICInitGraph {
    var nodes: seq<Node>
    var edges: seq<Edge>
    var icEdges: seq<int>
    var nodeIndex: map<nat, nat>

    ghost predicate Indexed()
      reads `nodes, `nodeIndex
    {
      && |nodes| <= MAX_NODES
      && (forall i :: 0 <= i < |nodes| ==>
          nodes[i].device != 0 && nodes[i].id in nodeIndex && nodeIndex[nodes[i].id] == i)
      && (forall id :: id in nodeIndex ==> nodeIndex[id] < |nodes| && nodes[nodeIndex[id]].id == id)
    }

    ghost predicate Valid()
      reads this
    {
      Indexed() && |edges| <= MAX_EDGES && EndsIn(edges, nodeIndex) && Threaded(edges, nodeIndex, icEdges)
    }

    /** The graph on node positions. */
    ghost function G(): (g: Graph)
      requires EndsIn(edges, nodeIndex)
      reads `nodes, `edges, `nodeIndex
    {
      Graph(|nodes|, Parents(edges, nodeIndex), Children(edges, nodeIndex))
    }

    constructor ()
      ensures Valid() && nodes == [] && edges == []
    {
      nodes, edges, nodeIndex := [], [], map[];
      icEdges := seq(MAX_NODES, i => -1);
    }

    method AddNode(id: nat, nodeId: int, device: nat) returns (r: Result<()>)
      requires Valid()
      modifies this
      ensures Valid() && edges == old(edges)
      ensures r == if device == 0 then Err(NullPtr) else if |old(nodes)| >= MAX_NODES then Err(OutOfMemory)
                   else if id in old(nodeIndex) then Err(KeyDuplicated) else Ok(())
      ensures r.Err? ==> nodes == old(nodes) && nodeIndex == old(nodeIndex)
      ensures r.Ok? ==>
              nodes == old(nodes) + [Node(id, nodeId, device)] && nodeIndex == old(nodeIndex)[id := |old(nodes)|]
      ensures G() == old(G()).(n := |nodes|)
    {
      hide Threaded, EndsIn;
      if device == 0 { return Err(NullPtr); }
      if |nodes| >= MAX_NODES { return Err(OutOfMemory); }
      if id in nodeIndex { return Err(KeyDuplicated); }
      ThreadedFacts(edges, nodeIndex, icEdges);
      NodeAdded(edges, nodeIndex, icEdges, id, |nodes|);
      var at := |nodes|;
      nodes := nodes + [Node(id, nodeId, device)];
      nodeIndex := nodeIndex[id := at];
      icEdges := icEdges[at := -1];
      r := Ok(());
    }

    method AddEdge(parent: nat, child: nat) returns (r: Result<()>)
      requires Valid()
      modifies `edges, `icEdges
      ensures Valid()
      ensures r == if |old(edges)| >= MAX_EDGES then Err(OutOfMemory)
                   else if parent !in nodeIndex || child !in nodeIndex then Err(EntryNotFound) else Ok(())
      ensures r.Err? ==> G() == old(G())
      ensures r.Ok? ==> G() == Graph(|nodes|, old(G()).from + [nodeIndex[parent]], old(G()).to + [nodeIndex[child]])
    {
      hide Threaded, EndsIn;
      if |edges| >= MAX_EDGES { return Err(OutOfMemory); }
      if parent !in nodeIndex || child !in nodeIndex { return Err(EntryNotFound); }
      ThreadedFacts(edges, nodeIndex, icEdges);
      EdgeAdded(edges, nodeIndex, icEdges, parent, child);
      var p := nodeIndex[parent];
      var at := |edges|;
      edges := edges + [Edge(parent, child, icEdges[p])];
      icEdges := icEdges[p := at];
      r := Ok(());
    }

    lemma GraphOk()
      requires Valid()
      ensures WellFormed(G()) && |edges| == |G().from| && |icEdges| == MAX_NODES && G().n == |nodes| <= MAX_NODES
    {}

    /** The chain of a parent, one link at a time. */
    lemma ChainNext(e: nat)
      requires Valid() && e < |edges|
      ensures e < |G().from| && edges[e].nextEdge == Last(G().from, G().from[e], e)
      ensures edges[e].child in nodeIndex && nodeIndex[edges[e].child] == G().to[e]
    {
      assert NextOk(edges, nodeIndex, e);
    }

    lemma ChainHead(i: nat)
      requires Valid() && i < |nodes|
      ensures i < |icEdges| && icEdges[i] == Last(G().from, i, |edges|)
    {
      assert HeadOk(edges, nodeIndex, icEdges, i);
    }

    /** Add one to the indegree of every child. */
    method CountIndegrees(indegree: array<int>)
      requires Valid() && indegree.Length == MAX_NODES && forall i :: 0 <= i < MAX_NODES ==> indegree[i] == 0
      modifies indegree
      ensures Counts(G(), Seen(G(), |nodes|, |edges|), indegree[..])
    {
      assert Counts(G(), Seen(G(), 0, |edges|), indegree[..]) by { NothingSeen(G(), indegree[..]); }
      GraphOk();
      hide Threaded, Counts, Seen, WellFormed;
      for i := 0 to |nodes|
        invariant Counts(G(), Seen(G(), i, |edges|), indegree[..])
      {
        ChainHead(i);
        CountChain(indegree, i);
      }
    }

    method CountChain(indegree: array<int>, i: nat)
      requires Valid() && indegree.Length == MAX_NODES && i < |nodes| &&
               Counts(G(), Seen(G(), i, |edges|), indegree[..])
      modifies indegree
      ensures Counts(G(), Seen(G(), i + 1, |edges|), indegree[..])
    {
      GraphOk();
      hide Threaded, Counts, Seen, WellFormed, Valid, G, Last;
      ChainHead(i);
      var e := icEdges[i];
      ghost var k: nat := |edges|;
      while e != -1
        invariant k <= |edges| && e == Last(G().from, i, k)
        invariant Counts(G(), Seen(G(), i, k), indegree[..])
        decreases e
      {
        SeenStep(G(), i, k, e, indegree[..]);
        ChainNext(e);
        ghost var before := indegree[..];
        var child := nodeIndex[edges[e].child];
        indegree[child] := indegree[child] + 1;
        assert indegree[..] == before[child := before[child] + 1];
        k := e;
        e := edges[e].nextEdge;
      }
      SeenDone(G(), i, k);
    }

    /** Queue the nodes no edge leads to. */
    method Seed(indegree: array<int>, queue: array<nat>) returns (tail: nat)
      requires Valid() && indegree.Length == queue.Length == MAX_NODES
      requires Counts(G(), Seen(G(), |nodes|, |edges|), indegree[..])
      modifies queue
      ensures tail <= |nodes| && Kahn(G(), queue[..tail], 0, 0, indegree[..])
    {
      tail := 0;
      for i := 0 to |nodes|
        invariant tail <= i && Distinct(queue[..tail])
        invariant forall j :: 0 <= j < tail ==> queue[j] < i && indegree[queue[j]] == 0
        invariant forall c: nat :: c < i && indegree[c] == 0 ==> c in queue[..tail]
      {
        if indegree[i] == 0 {
          ghost var before := queue[..tail];
          queue[tail] := i;
          tail := tail + 1;
          assert queue[..tail] == before + [i];
        }
      }
      GraphOk();
      SeedIs(G(), queue[..tail], indegree[..]);
    }

    /** Edge e counted off: its child joins the queue if it has no other edge left. */
    lemma Dropped(q: seq<nat>, head: nat, k: nat, e: nat, before: seq<int>)
      requires Valid() && Kahn(G(), q, head, k, before) && 0 < head <= |q| && k <= |edges| && e < |edges| &&
               e == Last(G().from, q[head - 1], k)
      ensures edges[e].child in nodeIndex && nodeIndex[edges[e].child] < |before|
      ensures var c := nodeIndex[edges[e].child];
              var after := before[c := before[c] - 1];
              if after[c] == 0 then Kahn(G(), q + [c], head, e, after) && |q| + 1 <= |nodes|
                  else Kahn(G(), q, head, e, after)
    {
      GraphOk();
      hide Threaded, WellFormed, Valid, Indexed, Kahn, Last, G;
      KahnStep(G(), q, head, k, e, before);
      ChainNext(e);
      var c := nodeIndex[edges[e].child];
      if before[c] == 1 { KahnRoom(G(), q + [c], head, e, before[c := before[c] - 1]); }
    }

    /** Take one edge off; its child is queued if that was the last. */
    method DropEdge(indegree: array<int>, queue: array<nat>, head: nat, tail0: nat, e: nat,
        ghost k: nat) returns (tail: nat)
      requires Valid() && indegree.Length == queue.Length == MAX_NODES && 0 < head <= tail0 <= |nodes|
      requires k <= |edges| && e < |edges| && e == Last(G().from, queue[head - 1], k)
      requires Kahn(G(), queue[..tail0], head, k, indegree[..])
      modifies indegree, queue
      ensures tail0 <= tail <= |nodes| && Kahn(G(), queue[..tail], head, e, indegree[..])
      ensures forall j :: 0 <= j < tail0 ==> queue[j] == old(queue[j])
    {
      GraphOk();
      hide Threaded, WellFormed, Valid, Indexed, Kahn, Last, G;
      tail := tail0;
      ghost var before, q := indegree[..], queue[..tail];
      assert q[head - 1] == queue[head - 1];
      Dropped(q, head, k, e, before);
      var child := nodeIndex[edges[e].child];
      indegree[child] := indegree[child] - 1;
      assert indegree[..] == before[child := before[child] - 1];
      if indegree[child] == 0 {
        queue[tail] := child;
        tail := tail + 1;
        assert queue[..tail] == q + [child];
      }
    }

    /** Take the edges of the node popped last off; a child that loses its last one is queued. */
    method DropChain(indegree: array<int>, queue: array<nat>, head: nat, tail0: nat) returns (tail: nat)
      requires Valid() && indegree.Length == queue.Length == MAX_NODES
      requires 0 < head <= tail0 <= |nodes| && Kahn(G(), queue[..tail0], head, |edges|, indegree[..])
      modifies indegree, queue
      ensures tail0 <= tail <= |nodes| && Kahn(G(), queue[..tail], head, 0, indegree[..])
      ensures forall j :: 0 <= j < tail0 ==> queue[j] == old(queue[j])
    {
      GraphOk();
      assert queue[head - 1] == queue[..tail0][head - 1] < |nodes|;
      hide Threaded, WellFormed, Valid, Indexed, Kahn, Last, G;
      tail := tail0;
      var node := queue[head - 1];
      ChainHead(node);
      var e := icEdges[node];
      ghost var k: nat := |edges|;
      while e != -1
        invariant k <= |edges| && e == Last(G().from, node, k)
        invariant tail0 <= tail <= |nodes| && forall j :: 0 <= j < tail0 ==> queue[j] == old(queue[j])
        invariant Kahn(G(), queue[..tail], head, k, indegree[..])
        decreases e
      {
        ChainNext(e);
        tail := DropEdge(indegree, queue, head, tail, e, k);
        k := e;
        e := edges[e].nextEdge;
      }
      assert queue[..tail][head - 1] == node;
      KahnDone(G(), queue[..tail], head, k, indegree[..]);
    }

    /** Pop one node and take its edges off. */
    method PopNode(indegree: array<int>, queue: array<nat>, head: nat, tail0: nat) returns (tail: nat, device: nat)
      requires Valid() && indegree.Length == queue.Length == MAX_NODES
      requires head < tail0 <= |nodes| && Kahn(G(), queue[..tail0], head, 0, indegree[..])
      modifies indegree, queue
      ensures head < tail <= |nodes| && Kahn(G(), queue[..tail], head + 1, 0, indegree[..])
      ensures forall j :: 0 <= j < tail0 ==> queue[j] == old(queue[j])
      ensures [device] == Devices(nodes, [queue[head]])
    {
      GraphOk();
      KahnInRange(G(), queue[..tail0], head, indegree[..]);
      KahnPop(G(), queue[..tail0], head, indegree[..]);
      assert queue[..tail0][head] == queue[head] < |nodes|;
      hide Valid, Kahn, G;
      device := nodes[queue[head]].device;
      tail := DropChain(indegree, queue, head + 1, tail0);
    }

    /** The main loop. */
    method RunQueue(indegree: array<int>, queue: array<nat>, tail0: nat) returns (tail: nat, ordered: seq<nat>)
      requires Valid() && indegree.Length == queue.Length == MAX_NODES
      requires tail0 <= |nodes| <= MAX_NODES && Kahn(G(), queue[..tail0], 0, 0, indegree[..])
      modifies indegree, queue
      ensures tail <= |nodes| && Kahn(G(), queue[..tail], tail, 0, indegree[..]) &&
              ordered == Devices(nodes, queue[..tail])
    {
      var head := 0;
      tail, ordered := tail0, [];
      assert Devices(nodes, []) == [];
      hide Valid, Kahn, G, Devices;
      while head < tail
        invariant head <= tail <= |nodes| && Kahn(G(), queue[..tail], head, 0, indegree[..])
        invariant ordered == Devices(nodes, queue[..head])
        decreases |nodes| - head
      {
        var device;
        ghost var popped := queue[..head];
        tail, device := PopNode(indegree, queue, head, tail);
        head := head + 1;
        assert queue[..head] == popped + [queue[head - 1]];
        DevicesAppend(nodes, popped, queue[head - 1]);
        ordered := ordered + [device];
      }
    }

    /** Kahn's algorithm: an order exists, and is found, exactly when the graph has no cycle. */
    method TopoSort() returns (r: Result<seq<nat>>, ghost order: seq<nat>)
      requires Valid()
      ensures r.Ok? <==> !Cyclic(G())
      ensures r.Ok? ==> TopoOrder(G(), order) && r.value == Devices(nodes, order)
      ensures r.Err? ==> r.error == UnknownError
    {
      GraphOk();
      hide Valid, WellFormed, Kahn, Counts, Seen, G, Cyclic, TopoOrder, Devices;
      var indegree := new int[MAX_NODES](i => 0);
      var queue := new nat[MAX_NODES](i => 0);
      CountIndegrees(indegree);
      var tail := Seed(indegree, queue);
      var ordered;
      tail, ordered := RunQueue(indegree, queue, tail);
      order := queue[..tail];
      KahnEnd(G(), order, indegree[..]);
      if |ordered| != |nodes| { return Err(UnknownError), order; }
      r := Ok(ordered);
    }
  }

  /** The devices of a sequence of node positions. */
  ghost function Devices(nodes: seq<Node>, q: seq<nat>): (d: seq<nat>)
    ensures |d| == |q|
  {
    seq(|q|, i requires 0 <= i < |q| => if q[i] < |nodes| then nodes[q[i]].device else 0)
  }

  lemma DevicesAppend(nodes: seq<Node>, q: seq<nat>, x: nat)
    ensures Devices(nodes, q + [x]) == Devices(nodes, q) + Devices(nodes, [x])
  {}

  lemma KahnInRange(g: Graph, q: seq<nat>, head: nat, indegree: seq<int>)
    requires Kahn(g, q, head, 0, indegree) && head < |q|
    ensures q[head] < g.n
  {}

  /** Distinct nodes never overrun the queue. */
  lemma KahnRoom(g: Graph, q: seq<nat>, head: nat, k: nat, indegree: seq<int>)
    requires Kahn(g, q, head, k, indegree)
    ensures |q| <= g.n
  {
    Pigeonhole(q, g.n);
  }

  lemma SeedIs(g: Graph, q: seq<nat>, indegree: seq<int>)
    requires WellFormed(g) && Counts(g, Seen(g, g.n, |g.from|), indegree) && Distinct(q)
    requires forall j :: 0 <= j < |q| ==> q[j] < g.n && indegree[q[j]] == 0
    requires forall c: nat :: c < g.n && indegree[c] == 0 ==> c in q
    ensures Kahn(g, q, 0, 0, indegree)
  {
    var s := Pending(g, q, 0, 0);
    assert s == Seen(g, g.n, |g.from|);
    forall c: nat | c < g.n ensures c in q <==> Into(g, s, c) == {} {}
    forall e: nat | e < |g.from| ensures g.to[e] !in q {
      assert e in Into(g, s, g.to[e]);
    }
  }

  lemma NothingSeen(g: Graph, indegree: seq<int>)
    requires |indegree| >= g.n && forall c :: 0 <= c < |indegree| ==> indegree[c] == 0
    ensures Counts(g, Seen(g, 0, |g.from|), indegree)
  {
    forall c: nat | c < g.n ensures Into(g, Seen(g, 0, |g.from|), c) == {} {}
  }
}
