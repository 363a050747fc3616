/**
 Endpoint IPC: a queue of messages, the pending sends behind them and a queue of waiting receivers.
 Each operation runs with interrupts off, so every run is a sequence of whole operations; the
 class invariant states delivery over the entire history.
 */
module Endpoint {
  import opened Queues

  datatype SendFuture = SendPending | Consumed | SendCanceled

  datatype RecvFuture = Waiting | Got(message: nat) | RecvCanceled

  // ---------- queues with removals ----------

  /** The members of q outside the set, in order. */
  ghost function Kept(q: seq<nat>, gone: set<nat>): seq<nat> {
    if q == [] then []
    else if q[|q| - 1] in gone then Kept(q[..|q| - 1], gone)
    else Kept(q[..|q| - 1], gone) + [q[|q| - 1]]
  }

  lemma {:induction false} KeptWithout(q: seq<nat>, gone: set<nat>, x: nat)
    ensures Kept(q, gone + {x}) == Without(Kept(q, gone), x)
  {
    if q != [] {
      var init, last := q[..|q| - 1], q[|q| - 1];
      KeptWithout(init, gone, x);
      if last !in gone {
        var k := Kept(init, gone);
        assert (k + [last])[..|k + [last]| - 1] == k;
      }
    }
  }

  lemma KeptAppend(q: seq<nat>, x: nat, gone: set<nat>)
    requires x !in gone
    ensures Kept(q + [x], gone) == Kept(q, gone) + [x]
  {
    assert (q + [x])[..|q|] == q;
  }

  lemma {:induction false} KeptMembers(q: seq<nat>, gone: set<nat>)
    ensures forall y: nat :: y in Kept(q, gone) <==> y in q && y !in gone
  {
    if q != [] {
      KeptMembers(q[..|q| - 1], gone);
      assert q == q[..|q| - 1] + [q[|q| - 1]];
    }
  }

  lemma {:induction false} KeptNoRepeat(q: seq<nat>, gone: set<nat>)
    requires NoRepeat(q)
    ensures NoRepeat(Kept(q, gone))
  {
    if q != [] {
      var init, last := q[..|q| - 1], q[|q| - 1];
      forall i: nat, j: nat ensures !Repeats(init, i, j) { assert !Repeats(q, i, j); }
      KeptNoRepeat(init, gone);
      KeptMembers(init, gone);
      forall k: nat | k < |init| ensures init[k] != last { assert !Repeats(q, k, |q| - 1); }
      if last !in gone { AppendNoRepeat(Kept(init, gone), last); }
    }
  }

  // ---------- one side of the history ----------

  /**
   Of the requests issued in order, all but the cancelled were answered, oldest first, and the
   rest wait in the same order.
   */
  ghost predicate InOrder(issued: seq<nat>, canceled: set<nat>, answered: seq<nat>, waiting: seq<nat>) {
    && NoRepeat(issued) && (forall x :: x in canceled ==> x in issued)
    && Kept(issued, canceled) == answered + waiting
  }

  lemma Members(issued: seq<nat>, canceled: set<nat>, answered: seq<nat>, waiting: seq<nat>)
    requires InOrder(issued, canceled, answered, waiting)
    ensures forall x: nat :: x in issued <==> x in canceled || x in answered || x in waiting
    ensures forall x: nat :: x in answered || x in waiting ==> x !in canceled
    ensures forall x: nat :: x in waiting ==> x !in answered
    ensures NoRepeat(waiting) && NoRepeat(answered)
  {
    KeptMembers(issued, canceled);
    KeptNoRepeat(issued, canceled);
    var all := answered + waiting;
    forall i: nat, j: nat ensures !Repeats(answered, i, j) { assert !Repeats(all, i, j); }
    forall i: nat, j: nat ensures !Repeats(waiting, i, j) { assert !Repeats(all, |answered| + i, |answered| + j); }
    forall x: nat | x in issued || x in answered || x in waiting
      ensures x in canceled || x in answered || x in waiting
    {
      assert x in all || x in canceled;
    }
    forall x: nat | x in answered || x in waiting ensures x in issued && x !in canceled { assert x in all; }
    forall x: nat | x in waiting ensures x !in answered {
      var j :| 0 <= j < |waiting| && waiting[j] == x;
      forall i: nat | i < |answered| ensures answered[i] != x { assert !Repeats(all, i, |answered| + j); }
    }
  }

  lemma IssueWaits(issued: seq<nat>, canceled: set<nat>, answered: seq<nat>, waiting: seq<nat>, x: nat)
    requires InOrder(issued, canceled, answered, waiting) && x !in issued
    ensures InOrder(issued + [x], canceled, answered, waiting + [x])
  {
    AppendNoRepeat(issued, x);
    KeptAppend(issued, x, canceled);
    assert answered + waiting + [x] == answered + (waiting + [x]);
  }

  lemma IssueAnswered(issued: seq<nat>, canceled: set<nat>, answered: seq<nat>, x: nat)
    requires InOrder(issued, canceled, answered, []) && x !in issued
    ensures InOrder(issued + [x], canceled, answered + [x], [])
  {
    AppendNoRepeat(issued, x);
    KeptAppend(issued, x, canceled);
    assert answered + [] == answered;
  }

  lemma FrontAnswered(issued: seq<nat>, canceled: set<nat>, answered: seq<nat>, waiting: seq<nat>)
    requires InOrder(issued, canceled, answered, waiting) && waiting != []
    ensures InOrder(issued, canceled, answered + [waiting[0]], waiting[1..])
  {
    assert answered + waiting == (answered + [waiting[0]]) + waiting[1..];
  }

  lemma WaiterCanceled(issued: seq<nat>, canceled: set<nat>, answered: seq<nat>, waiting: seq<nat>, x: nat)
    requires InOrder(issued, canceled, answered, waiting) && x in waiting
    ensures InOrder(issued, canceled + {x}, answered, Without(waiting, x))
  {
    Members(issued, canceled, answered, waiting);
    KeptWithout(issued, canceled, x);
    WithoutSplit(answered, waiting, x);
    WithoutAbsent(answered, x);
  }

  /** The future of a send says where its message is. */
  ghost predicate SendsOk(sends: map<nat, SendFuture>, sent: seq<nat>, canceled: set<nat>, delivered: seq<nat>) {
    forall m: nat ::
      && (m in sends <==> m in sent)
      && (m in sends ==>
          sends[m] == if m in canceled then SendCanceled else if m in delivered then Consumed else SendPending)
  }

  /** The future of a receive says whether it waits; the k-th served receiver got the k-th delivered message. */
  ghost predicate RecvsOk(recvs: map<nat, RecvFuture>, asked: seq<nat>, canceled: set<nat>, served: seq<nat>,
      delivered: seq<nat>) {
    && |served| == |delivered|
    && (forall r: nat :: r in recvs <==> r in asked)
    && (forall r: nat :: r in recvs && r in canceled ==> recvs[r] == RecvCanceled)
    && (forall r: nat :: r in recvs && r !in canceled && r !in served ==> recvs[r] == Waiting)
    && (forall k :: 0 <= k < |served| ==> served[k] in recvs && recvs[served[k]] == Got(delivered[k]))
  }

  // ---------- the endpoint ----------

  class Endpoint {
    var messages: seq<nat>
    var pendingSends: seq<nat>
    var pendingRecvs: seq<nat>
    var sends: map<nat, SendFuture>
    var recvs: map<nat, RecvFuture>
    ghost var sent: seq<nat>
    ghost var asked: seq<nat>
    ghost var sendsCanceled: set<nat>
    ghost var recvsCanceled: set<nat>
    ghost var delivered: seq<nat>
    ghost var served: seq<nat>

    ghost predicate Valid()
      reads this
    {
      && (messages == [] || pendingRecvs == []) && pendingSends == messages
      && InOrder(sent, sendsCanceled, delivered, messages)
      && InOrder(asked, recvsCanceled, served, pendingRecvs)
      && SendsOk(sends, sent, sendsCanceled, delivered)
      && RecvsOk(recvs, asked, recvsCanceled, served, delivered)
    }

    constructor ()
      ensures Valid() && sends == map[] && recvs == map[]
    {
      messages, pendingSends, pendingRecvs, sends, recvs := [], [], [], map[], map[];
      sent, asked, sendsCanceled, recvsCanceled, delivered, served := [], [], {}, {}, [], [];
    }

    /** A pending future belongs to a queued message, and a waiting one to a queued receiver. */
    lemma FuturesTell(m: nat)
      requires Valid()
      ensures m in sends ==> (sends[m] == SendPending <==> m in messages) && (sends[m] == Consumed <==> m in delivered)
      ensures m in recvs ==> (recvs[m] == Waiting <==> m in pendingRecvs)
      ensures m in messages ==> m in sends
      ensures m in pendingRecvs ==> m in recvs
    {
      Members(sent, sendsCanceled, delivered, messages);
      Members(asked, recvsCanceled, served, pendingRecvs);
      hide InOrder, NoRepeat;
      if m in recvs && m in served {
        var k :| 0 <= k < |served| && served[k] == m;
        assert recvs[served[k]] == Got(delivered[k]);
      }
    }

    /** send: handed to the receiver that waits longest, or queued behind the messages before it. */
    method Send(m: nat)
      requires Valid() && m !in sends
      modifies this
      ensures Valid() && sent == old(sent) + [m] && asked == old(asked)
      ensures old(pendingRecvs) == [] ==>
              messages == old(messages) + [m] && sends == old(sends)[m := SendPending] && recvs == old(recvs)
      ensures old(pendingRecvs) != [] ==>
              sends == old(sends)[m := Consumed] && recvs == old(recvs)[old(pendingRecvs)[0] := Got(m)]
      ensures old(pendingRecvs) != [] ==> messages == [] && pendingRecvs == old(pendingRecvs)[1..]
    {
      hide InOrder, SendsOk, RecvsOk, Kept, Without;
      Fresh(m);
      pendingSends := pendingSends + [m];
      sent := sent + [m];
      if pendingRecvs != [] {
        var r := pendingRecvs[0];
        SentNow(sends, old(sent), sendsCanceled, delivered, m);
        ServedFront(recvs, asked, recvsCanceled, served, delivered, pendingRecvs, m);
        OnlyRemoved(m);
        pendingRecvs := pendingRecvs[1..];
        recvs := recvs[r := Got(m)];
        sends := sends[m := Consumed];
        pendingSends := Without(pendingSends, m);
        delivered, served := delivered + [m], served + [r];
      } else {
        SentLater(sends, old(sent), sendsCanceled, delivered, messages, m);
        messages := messages + [m];
        sends := sends[m := SendPending];
      }
    }

    lemma Fresh(x: nat)
      requires Valid()
      ensures x !in sends ==> x !in sent
      ensures x !in recvs ==> x !in asked
    {}

    /** The pending send of a message, if there is one. */
    method FindPendingSend(m: nat) returns (found: bool)
      ensures found <==> m in pendingSends
    {
      for i := 0 to |pendingSends|
        invariant m !in pendingSends[..i]
      {
        if pendingSends[i] == m { return true; }
        assert pendingSends[..i + 1] == pendingSends[..i] + [pendingSends[i]];
      }
      assert pendingSends[..|pendingSends|] == pendingSends;
      found := false;
    }

    /** recv: the oldest queued message, whose send is then complete, or a place in the queue of receivers. */
    method Recv(r: nat)
      requires Valid() && r !in recvs
      modifies this
      ensures Valid() && asked == old(asked) + [r] && sent == old(sent)
      ensures old(messages) == [] ==>
              pendingRecvs == old(pendingRecvs) + [r] && recvs == old(recvs)[r := Waiting] && sends == old(sends)
      ensures old(messages) != [] ==>
              recvs == old(recvs)[r := Got(old(messages)[0])] && sends == old(sends)[old(messages)[0] := Consumed]
      ensures old(messages) != [] ==> messages == old(messages)[1..] && pendingRecvs == []
    {
      hide InOrder, SendsOk, RecvsOk, Kept, Without;
      Fresh(r);
      if messages != [] {
        var m := messages[0];
        TookFront(sends, sent, sendsCanceled, delivered, messages);
        ServedNow(recvs, asked, recvsCanceled, served, delivered, r, m);
        messages := messages[1..];
        var found := FindPendingSend(m);
        if found {
          pendingSends := Without(pendingSends, m);
          sends := sends[m := Consumed];
        }
        recvs := recvs[r := Got(m)];
        asked, delivered, served := asked + [r], delivered + [m], served + [r];
        return;
      }
      WaitsNow(recvs, asked, recvsCanceled, served, delivered, pendingRecvs, r);
      pendingRecvs := pendingRecvs + [r];
      recvs := recvs[r := Waiting];
      asked := asked + [r];
    }

    /** Cancelling an unresolved send takes exactly its message out of the queue. */
    method CancelSend(m: nat)
      requires Valid() && m in sends && sends[m] == SendPending
      modifies this
      ensures Valid() && sends == old(sends)[m := SendCanceled] && recvs == old(recvs)
      ensures messages == Without(old(messages), m) && pendingRecvs == old(pendingRecvs) && sent == old(sent) &&
              asked == old(asked)
    {
      hide InOrder, SendsOk, RecvsOk, Kept, Without;
      FuturesTell(m);
      SendDropped(sends, sent, sendsCanceled, delivered, messages, m);
      var found := FindPendingSend(m);
      if found {
        messages := Without(messages, m);
        pendingSends := Without(pendingSends, m);
        sends := sends[m := SendCanceled];
      }
      sendsCanceled := sendsCanceled + {m};
    }

    /** Cancelling an unresolved receive takes exactly that receiver out of the queue. */
    method CancelRecv(r: nat)
      requires Valid() && r in recvs && recvs[r] == Waiting
      modifies this
      ensures Valid() && recvs == old(recvs)[r := RecvCanceled] && sends == old(sends) && messages == old(messages)
      ensures pendingRecvs == Without(old(pendingRecvs), r) && sent == old(sent) && asked == old(asked)
    {
      hide InOrder, SendsOk, RecvsOk, Kept, Without;
      FuturesTell(r);
      RecvDropped(recvs, asked, recvsCanceled, served, delivered, pendingRecvs, r);
      pendingRecvs := Without(pendingRecvs, r);
      recvs := recvs[r := RecvCanceled];
      recvsCanceled := recvsCanceled + {r};
    }

    /** Every message reaches at most one receiver, and each receiver gets at most one. */
    lemma DeliveredOnce(m: nat, r: nat, r': nat)
      requires Valid() && r in recvs && r' in recvs && recvs[r] == Got(m) && recvs[r'] == Got(m)
      ensures r == r' && m in sends && sends[m] == Consumed
    {
      Members(sent, sendsCanceled, delivered, messages);
      Members(asked, recvsCanceled, served, pendingRecvs);
      var i := ServedAt(r);
      var j := ServedAt(r');
      assert !Repeats(delivered, i, j) && !Repeats(delivered, j, i);
      assert m in delivered;
    }

    lemma ServedAt(r: nat) returns (k: nat)
      requires Valid() && r in recvs && recvs[r].Got?
      ensures k < |served| && served[k] == r && k < |delivered| && recvs[r] == Got(delivered[k])
    {
      assert r in served;
      k :| 0 <= k < |served| && served[k] == r;
    }

    /** First in, first out: uncancelled messages go to uncancelled receivers in the order both were issued. */
    lemma Fifo(k: nat)
      requires Valid() && k < |delivered|
      ensures k < |Kept(sent, sendsCanceled)| && k < |Kept(asked, recvsCanceled)|
      ensures Kept(asked, recvsCanceled)[k] in recvs &&
              recvs[Kept(asked, recvsCanceled)[k]] == Got(Kept(sent, sendsCanceled)[k])
    {
      assert (served + pendingRecvs)[k] == served[k] && (delivered + messages)[k] == delivered[k];
    }
  }

  lemma FrontRemoved(q: seq<nat>)
    requires q != [] && NoRepeat(q)
    ensures Without(q, q[0]) == q[1..]
  {
    forall k: nat | 0 < k < |q| ensures q[k] != q[0] { assert !Repeats(q, 0, k); }
    assert q == [q[0]] + q[1..];
    WithoutSplit([q[0]], q[1..], q[0]);
    assert [q[0]][..0] == [];
    WithoutAbsent(q[1..], q[0]);
  }

  lemma OnlyRemoved(x: nat)
    ensures Without([] + [x], x) == []
  {
    assert ([] + [x])[..0] == [];
  }

  // ---------- what each operation does to the two histories ----------

  lemma SentNow(sends: map<nat, SendFuture>, sent: seq<nat>, canceled: set<nat>, delivered: seq<nat>, m: nat)
    requires InOrder(sent, canceled, delivered, []) && SendsOk(sends, sent, canceled, delivered) && m !in sent
    ensures InOrder(sent + [m], canceled, delivered + [m], []) &&
            SendsOk(sends[m := Consumed], sent + [m], canceled, delivered + [m])
  {
    IssueAnswered(sent, canceled, delivered, m);
  }

  lemma SentLater(sends: map<nat, SendFuture>, sent: seq<nat>, canceled: set<nat>, delivered: seq<nat>,
      messages: seq<nat>, m: nat)
    requires InOrder(sent, canceled, delivered, messages) && SendsOk(sends, sent, canceled, delivered) && m !in sent
    ensures InOrder(sent + [m], canceled, delivered, messages + [m]) &&
            SendsOk(sends[m := SendPending], sent + [m], canceled, delivered)
  {
    Members(sent, canceled, delivered, messages);
    IssueWaits(sent, canceled, delivered, messages, m);
  }

  lemma TookFront(sends: map<nat, SendFuture>, sent: seq<nat>, canceled: set<nat>, delivered: seq<nat>,
      messages: seq<nat>)
    requires InOrder(sent, canceled, delivered, messages) && SendsOk(sends, sent, canceled, delivered) && messages != []
    ensures var m := messages[0];
            && InOrder(sent, canceled, delivered + [m], messages[1..]) &&
                SendsOk(sends[m := Consumed], sent, canceled, delivered + [m])
            && Without(messages, m) == messages[1..]
  {
    Members(sent, canceled, delivered, messages);
    assert messages[0] in messages;
    FrontAnswered(sent, canceled, delivered, messages);
    FrontRemoved(messages);
  }

  lemma SendDropped(sends: map<nat, SendFuture>, sent: seq<nat>, canceled: set<nat>, delivered: seq<nat>,
      messages: seq<nat>, m: nat)
    requires InOrder(sent, canceled, delivered, messages) && SendsOk(sends, sent, canceled, delivered) && m in messages
    ensures InOrder(sent, canceled + {m}, delivered, Without(messages, m)) &&
            SendsOk(sends[m := SendCanceled], sent, canceled + {m}, delivered)
  {
    Members(sent, canceled, delivered, messages);
    WaiterCanceled(sent, canceled, delivered, messages, m);
  }

  lemma ServedFront(recvs: map<nat, RecvFuture>, asked: seq<nat>, canceled: set<nat>, served: seq<nat>,
      delivered: seq<nat>, waiting: seq<nat>, m: nat)
    requires InOrder(asked, canceled, served, waiting) && RecvsOk(recvs, asked, canceled, served, delivered) &&
             waiting != []
    ensures InOrder(asked, canceled, served + [waiting[0]], waiting[1..])
    ensures RecvsOk(recvs[waiting[0] := Got(m)], asked, canceled, served + [waiting[0]], delivered + [m])
  {
    Members(asked, canceled, served, waiting);
    assert waiting[0] in waiting;
    FrontAnswered(asked, canceled, served, waiting);
  }

  lemma ServedNow(recvs: map<nat, RecvFuture>, asked: seq<nat>, canceled: set<nat>, served: seq<nat>,
      delivered: seq<nat>, r: nat, m: nat)
    requires InOrder(asked, canceled, served, []) && RecvsOk(recvs, asked, canceled, served, delivered) && r !in asked
    ensures InOrder(asked + [r], canceled, served + [r], [])
    ensures RecvsOk(recvs[r := Got(m)], asked + [r], canceled, served + [r], delivered + [m])
  {
    Members(asked, canceled, served, []);
    IssueAnswered(asked, canceled, served, r);
  }

  lemma WaitsNow(recvs: map<nat, RecvFuture>, asked: seq<nat>, canceled: set<nat>, served: seq<nat>,
      delivered: seq<nat>, waiting: seq<nat>, r: nat)
    requires InOrder(asked, canceled, served, waiting) && RecvsOk(recvs, asked, canceled, served, delivered) &&
             r !in asked
    ensures InOrder(asked + [r], canceled, served, waiting + [r]) &&
            RecvsOk(recvs[r := Waiting], asked + [r], canceled, served, delivered)
  {
    Members(asked, canceled, served, waiting);
    IssueWaits(asked, canceled, served, waiting, r);
  }

  lemma RecvDropped(recvs: map<nat, RecvFuture>, asked: seq<nat>, canceled: set<nat>, served: seq<nat>,
      delivered: seq<nat>, waiting: seq<nat>, r: nat)
    requires InOrder(asked, canceled, served, waiting) && RecvsOk(recvs, asked, canceled, served, delivered) &&
             r in waiting
    ensures InOrder(asked, canceled + {r}, served, Without(waiting, r))
    ensures RecvsOk(recvs[r := RecvCanceled], asked, canceled + {r}, served, delivered)
  {
    Members(asked, canceled, served, waiting);
    WaiterCanceled(asked, canceled, served, waiting, r);
  }
}
