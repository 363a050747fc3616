/**
 Block requests: producers, the device worker and drain_and_stop share one ring.  Each lock
 section or status change is one step; the invariant and the laws hold in every state that any
 interleaving of steps can reach.
 */
module BlockRequests {
  import opened Queues
  import RingBuffer

  datatype Status = PENDING | SUBMITTED | PROCESSING | COMPLETED | FAILED | CANCELED

  /** Whose hands a request is in. */
  datatype Place = Creating | InRing | AtWorker | AtDrainer(drainer: nat) | Reclaimed

  /** resolved and reclaimed count how often the promise was set and the request deleted. */
  datatype Request = Request(status: Status, place: Place, resolved: nat, reclaimed: nat)

  datatype Phase = Draining | SawEmpty | Finished

  /** accepted and dequeued are the ids in the order they entered and left the ring. */
  datatype State = State(depth: nat, ring: seq<nat>, accepting: bool, stopped: bool, reqs: map<nat, Request>,
                         phases: map<nat, Phase>, accepted: seq<nat>, dequeued: seq<nat>)

  datatype Step =
    | Create(id: nat)
    | Submit(id: nat)
    | WorkerDequeue
    | MarkProcessing(id: nat)
    | Complete(id: nat, ok: bool)
    | StopAccepting
    | DrainBegin(d: nat)
    | DrainDequeue(d: nat)
    | DrainCancel(d: nat, id: nat)
    | DrainSeesEmpty(d: nat)
    | DrainStop(d: nat)

  ghost predicate IsInit(s: State) {
    s == State(s.depth, [], true, false, map[], map[], [], [])
  }

  predicate At(s: State, id: nat, place: Place) {
    id in s.reqs && s.reqs[id].place == place
  }

  predicate InPhase(s: State, d: nat, phase: Phase) {
    d in s.phases && s.phases[d] == phase
  }

  ghost predicate Holding(s: State, d: nat) {
    exists id :: At(s, id, AtDrainer(d))
  }

  /** When an agent can take a step; a producer never pushes onto a full ring, the kernel halts there. */
  ghost predicate Enabled(s: State, step: Step) {
    match step
    case Create(id) => id !in s.reqs
    case Submit(id) => At(s, id, Creating) && (s.accepting && !s.stopped ==> |s.ring| < s.depth)
    case WorkerDequeue => s.ring != []
    case MarkProcessing(id) => At(s, id, AtWorker) && s.reqs[id].status == SUBMITTED
    case Complete(id, _) => At(s, id, AtWorker) && s.reqs[id].status == PROCESSING
    case StopAccepting => true
    case DrainBegin(d) => d !in s.phases
    case DrainDequeue(d) => InPhase(s, d, Draining) && !Holding(s, d) && s.ring != []
    case DrainCancel(d, id) => At(s, id, AtDrainer(d)) &&
        (s.reqs[id].status == PENDING || s.reqs[id].status == SUBMITTED)
    case DrainSeesEmpty(d) => InPhase(s, d, Draining) && !Holding(s, d) && s.ring == []
    case DrainStop(d) => InPhase(s, d, SawEmpty)
  }

  function Put(s: State, id: nat, r: Request): State {
    s.(reqs := s.reqs[id := r])
  }

  /** The promise is set and the completion callback deletes the request. */
  function Finish(r: Request, status: Status): Request {
    Request(status, Reclaimed, r.resolved + 1, r.reclaimed + 1)
  }

  /** The front of the ring goes to an agent. */
  function Popped(s: State, place: Place): State
    requires s.ring != [] && s.ring[0] in s.reqs
  {
    var id := s.ring[0];
    Put(s, id, s.reqs[id].(place := place)).(ring := s.ring[1..], dequeued := s.dequeued + [id])
  }

  function Do(s: State, step: Step): State {
    match step
    case Create(id) => Put(s, id, Request(PENDING, Creating, 0, 0))
    case Submit(id) =>
      if id !in s.reqs then s
      else if !s.accepting || s.stopped then Put(s, id, Finish(s.reqs[id], PENDING))
      else Put(s, id, s.reqs[id].(status := SUBMITTED, place := InRing)).(ring := s.ring + [id],
          accepted := s.accepted + [id])
    case WorkerDequeue => if s.ring == [] || s.ring[0] !in s.reqs then s else Popped(s, AtWorker)
    case MarkProcessing(id) => if id !in s.reqs then s else Put(s, id, s.reqs[id].(status := PROCESSING))
    case Complete(id, ok) => if id !in s.reqs then s
        else Put(s, id, Finish(s.reqs[id], if ok then COMPLETED else FAILED))
    case StopAccepting => s.(accepting := false)
    case DrainBegin(d) => s.(accepting := false, phases := s.phases[d := Draining])
    case DrainDequeue(d) => if s.ring == [] || s.ring[0] !in s.reqs then s else Popped(s, AtDrainer(d))
    case DrainCancel(_, id) => if id !in s.reqs then s else Put(s, id, Finish(s.reqs[id], CANCELED))
    case DrainSeesEmpty(d) => s.(phases := s.phases[d := SawEmpty])
    case DrainStop(d) => s.(stopped := true, phases := s.phases[d := Finished])
  }

  // ---------- the invariant ----------

  /** What the place of a request says about it. */
  ghost predicate RequestOk(s: State, id: nat) {
    id in s.reqs ==>
      var r := s.reqs[id];
      match r.place
      case Creating => r.status == PENDING && r.resolved == r.reclaimed == 0 && id !in s.accepted
      case InRing => r.status == SUBMITTED && r.resolved == r.reclaimed == 0 && id in s.ring
      case AtWorker => (r.status == SUBMITTED || r.status == PROCESSING) && r.resolved == r.reclaimed == 0 &&
          id in s.dequeued
      case AtDrainer(d) => r.status == SUBMITTED && r.resolved == r.reclaimed == 0 && id in s.dequeued &&
          InPhase(s, d, Draining)
      case Reclaimed => r.resolved == r.reclaimed == 1 &&
                        if r.status == PENDING then id !in s.accepted
                        else (r.status == COMPLETED || r.status == FAILED || r.status == CANCELED) && id in s.dequeued
  }

  /** Some drainer has found the ring empty. */
  ghost predicate Drained(s: State) {
    exists d :: InPhase(s, d, SawEmpty) || InPhase(s, d, Finished)
  }

  ghost predicate Inv(s: State) {
    && s.accepted == s.dequeued + s.ring && NoRepeat(s.accepted) && |s.ring| <= s.depth
    && (forall id :: id in s.accepted ==> id in s.reqs)
    && (forall id :: RequestOk(s, id))
    && (forall id :: At(s, id, InRing) <==> id in s.ring)
    && (s.phases != map[] ==> !s.accepting)
    && (Drained(s) ==> s.ring == []) && (s.stopped ==> Drained(s))
  }

  lemma InitInv(s: State)
    requires IsInit(s)
    ensures Inv(s)
  {}

  lemma {:induction false} RingTail(s: State)
    requires Inv(s) && s.ring != []
    ensures s.ring[0] in s.reqs && s.accepted == (s.dequeued + [s.ring[0]]) + s.ring[1..]
    ensures s.ring[0] !in s.ring[1..] && s.ring[0] !in s.dequeued
  {
    var n := |s.dequeued|;
    assert s.accepted[n] == s.ring[0] && s.ring[0] in s.accepted;
    forall k: nat | k < |s.ring[1..]| ensures s.ring[1..][k] != s.ring[0] {
      assert s.accepted[n + k + 1] == s.ring[k + 1];
      assert !Repeats(s.accepted, n, n + k + 1);
    }
    forall k: nat | k < n ensures s.dequeued[k] != s.ring[0] {
      assert s.accepted[k] == s.dequeued[k];
      assert !Repeats(s.accepted, k, n);
    }
  }

  /** The front of the ring passes to a worker or to a drainer at work. */
  lemma PoppedInv(s: State, place: Place)
    requires Inv(s) && s.ring != [] && (place == AtWorker || (place.AtDrainer? && InPhase(s, place.drainer, Draining)))
    ensures s.ring[0] in s.reqs && Inv(Popped(s, place))
  {
    RingTail(s);
    var id, t := s.ring[0], Popped(s, place);
    assert At(s, id, InRing) && RequestOk(s, id);
    assert s.ring == [id] + s.ring[1..];
    forall x ensures RequestOk(t, x) { assert RequestOk(s, x); }
    forall x ensures At(t, x, InRing) <==> x in t.ring { assert At(s, x, InRing) <==> x in s.ring; }
    SamePhases(s, t);
  }

  lemma SamePhases(s: State, t: State)
    requires s.phases == t.phases
    ensures Drained(s) <==> Drained(t)
  {
    if Drained(s) {
      var d :| InPhase(s, d, SawEmpty) || InPhase(s, d, Finished);
      assert InPhase(t, d, SawEmpty) || InPhase(t, d, Finished);
    }
    if Drained(t) {
      var d :| InPhase(t, d, SawEmpty) || InPhase(t, d, Finished);
      assert InPhase(s, d, SawEmpty) || InPhase(s, d, Finished);
    }
  }

  lemma SubmitInv(s: State, id: nat)
    requires Inv(s) && Enabled(s, Submit(id))
    ensures Inv(Do(s, Submit(id)))
  {
    var t := Do(s, Submit(id));
    assert RequestOk(s, id);
    SamePhases(s, t);
    if s.accepting && !s.stopped {
      AppendNoRepeat(s.accepted, id);
      assert s.phases == map[];
      assert t.accepted == t.dequeued + t.ring;
    }
    forall x ensures RequestOk(t, x) { assert RequestOk(s, x); }
    assert !At(s, id, InRing);
    forall x ensures At(t, x, InRing) <==> x in t.ring { assert At(s, x, InRing) <==> x in s.ring; }
  }

  /** A request in an agent's hands changes; the ring does not. */
  lemma InHandInv(s: State, t: State, id: nat)
    requires Inv(s) && id in s.reqs && id in t.reqs && t == Put(s, id, t.reqs[id])
    requires s.reqs[id].place != InRing && t.reqs[id].place != InRing && RequestOk(t, id)
    ensures Inv(t)
  {
    SamePhases(s, t);
    forall x ensures RequestOk(t, x) { assert RequestOk(s, x); }
    forall x ensures At(t, x, InRing) <==> x in t.ring { assert At(s, x, InRing) <==> x in s.ring; }
  }

  lemma CreateInv(s: State, id: nat)
    requires Inv(s) && id !in s.reqs
    ensures Inv(Do(s, Create(id)))
  {
    var t := Do(s, Create(id));
    SamePhases(s, t);
    forall x ensures RequestOk(t, x) { assert RequestOk(s, x); }
    forall x ensures At(t, x, InRing) <==> x in t.ring { assert At(s, x, InRing) <==> x in s.ring; }
  }

  /** A drainer moves on, or accepting is switched off. */
  lemma PhaseInv(s: State, step: Step)
    requires Inv(s) && Enabled(s, step) &&
             (step.StopAccepting? || step.DrainBegin? || step.DrainSeesEmpty? || step.DrainStop?)
    ensures Inv(Do(s, step))
  {
    var t := Do(s, step);
    forall x ensures RequestOk(t, x) {
      assert RequestOk(s, x);
      if x in s.reqs && s.reqs[x].place.AtDrainer? { assert At(s, x, AtDrainer(s.reqs[x].place.drainer)); }
    }
    forall x ensures At(t, x, InRing) <==> x in t.ring { assert At(s, x, InRing) <==> x in s.ring; }
    PhaseDrained(s, step);
  }

  lemma PhaseDrained(s: State, step: Step)
    requires Inv(s) && Enabled(s, step) &&
             (step.StopAccepting? || step.DrainBegin? || step.DrainSeesEmpty? || step.DrainStop?)
    ensures var t := Do(s, step);
            && (t.phases != map[] ==> !t.accepting) && (Drained(t) ==> t.ring == []) && (t.stopped ==> Drained(t))
  {
    var t := Do(s, step);
    match step
    case StopAccepting => SamePhases(s, t);
    case DrainBegin(d) =>
      if Drained(t) {
        var e :| InPhase(t, e, SawEmpty) || InPhase(t, e, Finished);
        assert InPhase(s, e, SawEmpty) || InPhase(s, e, Finished);
      }
      if s.stopped {
        var e :| InPhase(s, e, SawEmpty) || InPhase(s, e, Finished);
        assert InPhase(t, e, SawEmpty) || InPhase(t, e, Finished);
      }
    case DrainSeesEmpty(d) =>
      assert InPhase(t, d, SawEmpty);
    case DrainStop(d) =>
      assert InPhase(s, d, SawEmpty) && InPhase(t, d, Finished);
  }

  /** Every step keeps the invariant. */
  lemma StepInv(s: State, step: Step)
    requires Inv(s) && Enabled(s, step)
    ensures Inv(Do(s, step))
  {
    hide Inv;
    match step
    case Create(id) => CreateInv(s, id);
    case Submit(id) => SubmitInv(s, id);
    case WorkerDequeue => PoppedInv(s, AtWorker);
    case MarkProcessing(id) => HeldInv(s, step, id);
    case Complete(id, _) => HeldInv(s, step, id);
    case StopAccepting => PhaseInv(s, step);
    case DrainBegin(d) => PhaseInv(s, step);
    case DrainDequeue(d) => PoppedInv(s, AtDrainer(d));
    case DrainCancel(d, id) => HeldInv(s, step, id);
    case DrainSeesEmpty(d) => PhaseInv(s, step);
    case DrainStop(d) => PhaseInv(s, step);
  }

  lemma HeldInv(s: State, step: Step, id: nat)
    requires Inv(s) && Enabled(s, step)
    requires step == MarkProcessing(id) || (step.Complete? && step.id == id) || (step.DrainCancel? && step.id == id)
    ensures Inv(Do(s, step))
  {
    assert RequestOk(s, id);
    InHandInv(s, Do(s, step), id);
  }

  // ---------- whole runs ----------

  /** Do all steps in order, if each is enabled when its turn comes. */
  ghost predicate Runs(s: State, steps: seq<Step>)
    decreases |steps|
  {
    steps == [] || (Enabled(s, steps[0]) && Runs(Do(s, steps[0]), steps[1..]))
  }

  ghost function After(s: State, steps: seq<Step>): State
    decreases |steps|
  {
    if steps == [] then s else After(Do(s, steps[0]), steps[1..])
  }

  /** The invariant holds in every reachable state. */
  lemma {:induction false} RunInv(s: State, steps: seq<Step>)
    requires Inv(s) && Runs(s, steps)
    ensures Inv(After(s, steps))
    decreases |steps|
  {
    if steps != [] {
      StepInv(s, steps[0]);
      RunInv(Do(s, steps[0]), steps[1..]);
    }
  }

  /** One step only appends to the histories, and keeps what is final. */
  ghost predicate Extends(s: State, t: State) {
    && s.accepted <= t.accepted && s.dequeued <= t.dequeued && (!s.accepting ==> !t.accepting)
    && (forall id :: At(s, id, Reclaimed) ==> At(t, id, Reclaimed) && t.reqs[id] == s.reqs[id])
    && (!s.accepting ==> t.accepted == s.accepted)
  }

  lemma StepExtends(s: State, step: Step)
    requires Inv(s) && Enabled(s, step)
    ensures Extends(s, Do(s, step))
  {
    var t := Do(s, step);
    if s.ring != [] {
      RingTail(s);
      assert At(s, s.ring[0], InRing);
    }
    forall id | At(s, id, Reclaimed) ensures At(t, id, Reclaimed) && t.reqs[id] == s.reqs[id] {}
  }

  lemma {:induction false} RunExtends(s: State, steps: seq<Step>)
    requires Inv(s) && Runs(s, steps)
    ensures Extends(s, After(s, steps))
    decreases |steps|
  {
    if steps != [] {
      var t := Do(s, steps[0]);
      StepInv(s, steps[0]);
      StepExtends(s, steps[0]);
      RunExtends(t, steps[1..]);
    }
  }

  /** First in, first out: what has left the ring is a prefix of what entered it, in order. */
  lemma Fifo(s: State)
    requires Inv(s)
    ensures s.dequeued <= s.accepted && s.accepted[|s.dequeued|..] == s.ring && NoRepeat(s.accepted)
  {}

  /** An accepted request is in the ring, with the worker, with one drainer, or resolved and reclaimed exactly once. */
  lemma ExactlyOnce(s: State, id: nat)
    requires Inv(s) && id in s.accepted
    ensures id in s.reqs
    ensures var r := s.reqs[id];
            if id in s.ring then r == Request(SUBMITTED, InRing, 0, 0)
            else (r.place == AtWorker || r.place.AtDrainer?
                  || (r.place == Reclaimed && r.resolved == 1 && r.reclaimed == 1))
    ensures var r := s.reqs[id]; r.resolved == r.reclaimed <= 1
  {
    assert RequestOk(s, id);
    assert At(s, id, InRing) <==> id in s.ring;
  }

  /** The status checks of mark_processing, complete and cancel never refuse an agent at its point in the protocol. */
  lemma NeverBusy(s: State, id: nat)
    requires Inv(s) && id in s.reqs
    ensures s.reqs[id].place == AtWorker ==>
            Enabled(s, MarkProcessing(id)) || (Enabled(s, Complete(id, true)) && Enabled(s, Complete(id, false)))
    ensures s.reqs[id].place.AtDrainer? ==> Enabled(s, DrainCancel(s.reqs[id].place.drainer, id))
  {
    assert RequestOk(s, id);
  }

  /** Once a drainer has seen the ring empty it stays empty, and nothing more is ever accepted. */
  lemma DrainedForever(s: State, steps: seq<Step>)
    requires Inv(s) && Runs(s, steps) && Drained(s)
    ensures After(s, steps).ring == [] && After(s, steps).accepted == s.accepted && !After(s, steps).accepting
  {
    hide Runs, After;
    RunInv(s, steps);
    RunExtends(s, steps);
    var d :| InPhase(s, d, SawEmpty) || InPhase(s, d, Finished);
    var t := After(s, steps);
    assert s.dequeued == s.accepted;
    assert t.dequeued + t.ring == s.accepted && s.dequeued <= t.dequeued;
  }

  /** When the ring is empty and nobody holds a request, every accepted one has been resolved exactly once. */
  lemma AllResolved(s: State)
    requires Inv(s) && s.ring == [] && forall id :: id in s.reqs ==>
             s.reqs[id].place != AtWorker && !s.reqs[id].place.AtDrainer?
    ensures forall id :: id in s.accepted ==> id in s.reqs && s.reqs[id].resolved == 1 && s.reqs[id].reclaimed == 1
  {
    forall id | id in s.accepted ensures id in s.reqs && s.reqs[id].resolved == 1 && s.reqs[id].reclaimed == 1 {
      ExactlyOnce(s, id);
    }
  }

  // ---------- what became of a request ----------

  predicate HasStatus(s: State, id: nat, status: Status) {
    id in s.reqs && s.reqs[id].status == status
  }

  /** The worker has taken the request up. */
  predicate Worked(s: State, id: nat) {
    HasStatus(s, id, PROCESSING) || HasStatus(s, id, COMPLETED) || HasStatus(s, id, FAILED)
  }

  ghost predicate Cancels(step: Step, id: nat) {
    step.DrainCancel? && step.id == id
  }

  /** The steps that change a status, and no others do. */
  lemma StatusStep(s: State, step: Step, id: nat)
    requires Inv(s) && Enabled(s, step)
    ensures var t := Do(s, step);
            && (HasStatus(t, id, COMPLETED) <==> HasStatus(s, id, COMPLETED) || step == Complete(id, true))
            && (HasStatus(t, id, FAILED) <==> HasStatus(s, id, FAILED) || step == Complete(id, false))
            && (HasStatus(t, id, CANCELED) <==> HasStatus(s, id, CANCELED) || Cancels(step, id))
            && (Worked(t, id) <==> Worked(s, id) || step == MarkProcessing(id))
  {
    assert RequestOk(s, id);
    if s.ring != [] { RingTail(s); }
    assert step == Submit(id) ==> HasStatus(s, id, PENDING);
    hide Inv, RequestOk, InPhase, Holding;
  }

  /** Over a whole run the status of a request says exactly which steps were taken with it. */
  lemma {:induction false} FateLaw(s: State, steps: seq<Step>, id: nat)
    requires Inv(s) && Runs(s, steps)
    ensures var t := After(s, steps);
            && (HasStatus(t, id, COMPLETED) <==> HasStatus(s, id, COMPLETED) || Complete(id, true) in steps)
            && (HasStatus(t, id, FAILED) <==> HasStatus(s, id, FAILED) || Complete(id, false) in steps)
            && (HasStatus(t, id, CANCELED) <==>
                HasStatus(s, id, CANCELED) || exists step :: step in steps && Cancels(step, id))
            && (Worked(t, id) <==> Worked(s, id) || MarkProcessing(id) in steps)
    decreases |steps|
  {
    if steps != [] {
      StepInv(s, steps[0]);
      StatusStep(s, steps[0], id);
      hide Inv, HasStatus, Worked, Cancels, Enabled, Do;
      FateLaw(Do(s, steps[0]), steps[1..], id);
      assert forall step :: step in steps <==> step == steps[0] || step in steps[1..];
    }
  }

  /** From the start: a reclaimed request completed, failed or was cancelled as the run says, or was refused. */
  lemma Fates(s: State, steps: seq<Step>, id: nat)
    requires IsInit(s) && Runs(s, steps) && At(After(s, steps), id, Reclaimed)
    ensures var status := After(s, steps).reqs[id].status;
            && (status == COMPLETED <==> Complete(id, true) in steps)
            && (status == FAILED <==> Complete(id, false) in steps)
            && (status == CANCELED <==> exists step :: step in steps && Cancels(step, id))
            && (status == PENDING <==> id !in After(s, steps).accepted)
  {
    InitInv(s);
    RunInv(s, steps);
    FateLaw(s, steps, id);
    hide Runs, After;
    assert RequestOk(After(s, steps), id);
  }

  // ---------- the queue object ----------

  datatype Outcome = Ok | Busy | Halt

  datatype Dequeued = Got(id: nat) | EntryNotFound | FutureCanceled

  class BlockRequestQueue {
    const ring: RingBuffer.RingBuffer<nat>
    var accepting: bool
    var stopped: bool
    var status: map<nat, Status>
    /** The protocol state these fields stand for. */
    ghost var s: State

    ghost predicate Valid()
      reads this, ring, ring.data
    {
      && ring.Valid() && ring.data.Length == s.depth + 1
      && s.ring == ring.Contents() && s.accepting == accepting && s.stopped == stopped
      && status.Keys == s.reqs.Keys && (forall id :: id in status ==> status[id] == s.reqs[id].status)
      && Inv(s)
    }

    constructor (depth: nat)
      ensures Valid() && IsInit(s) && s.depth == (if depth == 0 then 1 else depth) && fresh(ring) && fresh(ring.data)
    {
      ring := new RingBuffer.RingBuffer<nat>(depth + 1, true);
      accepting, stopped, status := true, false, map[];
      s := State(if depth == 0 then 1 else depth, [], true, false, map[], map[], [], []);
    }

    /** submit, under the lock; a refused producer resolves and deletes its own request. */
    method Submit(id: nat) returns (r: Outcome)
      requires Valid() && At(s, id, Creating)
      modifies this, ring, ring.data
      ensures Valid()
      ensures r == if !old(accepting) || old(stopped) then Busy else if |old(s.ring)| == old(s.depth) then Halt else Ok
      ensures s == if r == Halt then old(s) else Do(old(s), Step.Submit(id))
      ensures status == if r == Ok then old(status)[id := SUBMITTED] else old(status)
      ensures s.ring == if r == Ok then old(s.ring) + [id] else old(s.ring)
      ensures r == Busy ==> s.reqs[id] == Request(PENDING, Reclaimed, 1, 1)
    {
      assert RequestOk(s, id);
      if !accepting || stopped {
        StepInv(s, Step.Submit(id));
        hide Inv;
        s := Do(s, Step.Submit(id));
        return Busy;
      }
      ring.Measures();
      if ring.Full() { return Halt; }
      StepInv(s, Step.Submit(id));
      hide Inv;
      var pushed := ring.Push(id);
      status := status[id := SUBMITTED];
      s := Do(s, Step.Submit(id));
      r := Ok;
    }

    /** try_dequeue, under the lock, by the worker or by a drainer. */
    method TryDequeue(ghost step: Step) returns (r: Dequeued)
      requires Valid() && (step == WorkerDequeue ||
               (step.DrainDequeue? && InPhase(s, step.d, Draining) && !Holding(s, step.d)))
      modifies this, ring
      ensures Valid()
      ensures r.Got? <==> old(s.ring) != []
      ensures r.Got? ==> r.id == old(s.ring)[0] && s == Do(old(s), step) && s.ring == old(s.ring)[1..]
      ensures r.Got? ==> At(s, r.id, if step.DrainDequeue? then AtDrainer(step.d) else AtWorker)
      ensures status == old(status)
      ensures !r.Got? ==> s == old(s) && r == if stopped then FutureCanceled else EntryNotFound
    {
      ring.Measures();
      if ring.Empty() {
        if stopped { return FutureCanceled; }
        return EntryNotFound;
      }
      RingTail(s);
      StepInv(s, step);
      hide Inv;
      var id := ring.Front();
      var popped := ring.Pop();
      s := Do(s, step);
      r := Got(id);
    }

    /** mark_processing, by the worker that holds the request. */
    method MarkProcessing(id: nat) returns (r: Outcome)
      requires Valid() && At(s, id, AtWorker)
      modifies this
      ensures Valid() && r == if old(status)[id] == SUBMITTED then Ok else Busy
      ensures s == if r == Ok then Do(old(s), Step.MarkProcessing(id)) else old(s)
      ensures status == if r == Ok then old(status)[id := PROCESSING] else old(status)
      ensures At(s, id, AtWorker)
    {
      if status[id] != SUBMITTED { return Busy; }
      StepInv(s, Step.MarkProcessing(id));
      hide Inv;
      status := status[id := PROCESSING];
      s := Do(s, Step.MarkProcessing(id));
      r := Ok;
    }

    /** complete: status, promise and deletion. */
    method Complete(id: nat, ok: bool) returns (r: Outcome)
      requires Valid() && At(s, id, AtWorker)
      modifies this
      ensures Valid() && r == if old(status)[id] == PROCESSING then Ok else Busy
      ensures s == if r == Ok then Do(old(s), Step.Complete(id, ok)) else old(s)
      ensures status == if r == Ok then old(status)[id := if ok then COMPLETED else FAILED] else old(status)
      ensures r == Ok ==> s.reqs[id] == Request(status[id], Reclaimed, 1, 1)
    {
      if status[id] != PROCESSING { return Busy; }
      assert RequestOk(s, id);
      StepInv(s, Step.Complete(id, ok));
      hide Inv;
      status := status[id := if ok then COMPLETED else FAILED];
      s := Do(s, Step.Complete(id, ok));
      r := Ok;
    }

    /** cancel, by the drainer that holds the request. */
    method Cancel(id: nat, ghost d: nat) returns (r: Outcome)
      requires Valid() && At(s, id, AtDrainer(d))
      modifies this
      ensures Valid() && r == Ok && s == Do(old(s), DrainCancel(d, id))
      ensures status == old(status)[id := CANCELED] && s.reqs[id] == Request(CANCELED, Reclaimed, 1, 1)
    {
      NeverBusy(s, id);
      assert RequestOk(s, id);
      StepInv(s, DrainCancel(d, id));
      hide Inv;
      status := status[id := CANCELED];
      s := Do(s, DrainCancel(d, id));
      r := Ok;
    }

    /** One round of the drain loop. */
    method DrainOne(ghost d: nat) returns (more: bool)
      requires Valid() && InPhase(s, d, Draining) && !Holding(s, d)
      modifies this, ring
      ensures Valid() && (more <==> old(s.ring) != [])
      ensures s == if more then OneDrained(old(s), d) else old(s)
    {
      hide Inv;
      var got := TryDequeue(DrainDequeue(d));
      if !got.Got? { return false; }
      DrainerTook(old(s), d);
      var _ := Cancel(got.id, d);
      more := true;
    }

    /** drain_and_stop when no other agent steps in between: everything in the ring is cancelled. */
    method DrainAndStop(ghost d: nat)
      requires Valid() && d !in s.phases
      modifies this, ring
      ensures Valid() && !accepting && stopped && s.ring == [] && s.accepted == old(s.accepted)
      ensures InPhase(s, d, Finished) && AllCanceled(s, old(s.ring), [])
    {
      hide Inv, Do, OneDrained, AllCanceled, Holding, InPhase;
      DrainerFresh(s, d);
      s := Do(s, DrainBegin(d));
      accepting := false;
      var more := true;
      while more
        invariant Valid() && !accepting && InPhase(s, d, Draining) && !Holding(s, d) && s.accepted == old(s.accepted)
        invariant AllCanceled(s, old(s.ring), s.ring) && (!more ==> s.ring == [])
        decreases |s.ring|, more
      {
        if s.ring != [] { DrainerGave(s, d, old(s.ring)); }
        more := DrainOne(d);
      }
      DrainerEnds(s, d, old(s.ring));
      s := Do(Do(s, DrainSeesEmpty(d)), DrainStop(d));
      stopped := true;
    }
  }

  /** The drainer takes the front of the ring and cancels it. */
  ghost function OneDrained(s: State, d: nat): State
    requires s.ring != []
  {
    Do(Do(s, DrainDequeue(d)), DrainCancel(d, s.ring[0]))
  }

  /** The requests of ring, apart from those still in left, are cancelled and gone. */
  ghost predicate AllCanceled(s: State, ring: seq<nat>, left: seq<nat>) {
    forall id :: id in ring ==> id in left || (At(s, id, Reclaimed) && s.reqs[id].status == CANCELED)
  }

  lemma DrainerFresh(s: State, d: nat)
    requires Inv(s) && d !in s.phases
    ensures var t := Do(s, DrainBegin(d));
            && Inv(t) && !Holding(t, d) && InPhase(t, d, Draining) && AllCanceled(t, s.ring, t.ring)
            && t == s.(accepting := false, phases := t.phases)
  {
    StepInv(s, DrainBegin(d));
    var t := Do(s, DrainBegin(d));
    forall id ensures !At(t, id, AtDrainer(d)) { assert RequestOk(s, id); }
  }

  lemma DrainerTook(s: State, d: nat)
    requires Inv(s) && s.ring != [] && InPhase(s, d, Draining) && !Holding(s, d)
    ensures At(Do(s, DrainDequeue(d)), s.ring[0], AtDrainer(d))
  {
    RingTail(s);
  }

  lemma DrainerGave(s: State, d: nat, ring: seq<nat>)
    requires Inv(s) && s.ring != [] && InPhase(s, d, Draining) && !Holding(s, d) && AllCanceled(s, ring, s.ring)
    ensures var t := OneDrained(s, d);
            && !Holding(t, d) && InPhase(t, d, Draining) && |t.ring| < |s.ring| && t.accepted == s.accepted &&
                t.accepting == s.accepting
            && AllCanceled(t, ring, t.ring)
  {
    RingTail(s);
    var t := OneDrained(s, d);
    forall id ensures !At(t, id, AtDrainer(d)) { assert !At(s, id, AtDrainer(d)); }
    assert s.ring == [s.ring[0]] + s.ring[1..];
  }

  lemma DrainerEnds(s: State, d: nat, ring: seq<nat>)
    requires Inv(s) && s.ring == [] && InPhase(s, d, Draining) && !Holding(s, d) && AllCanceled(s, ring, [])
    ensures var t := Do(Do(s, DrainSeesEmpty(d)), DrainStop(d));
            && Inv(t) && InPhase(t, d, Finished) && AllCanceled(t, ring, [])
            && t == s.(stopped := true, phases := t.phases)
  {
    StepInv(s, DrainSeesEmpty(d));
    StepInv(Do(s, DrainSeesEmpty(d)), DrainStop(d));
    hide Inv;
    var t := Do(Do(s, DrainSeesEmpty(d)), DrainStop(d));
    forall id | At(s, id, Reclaimed) ensures At(t, id, Reclaimed) {}
  }
}
