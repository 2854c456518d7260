/**
 The asynchronous HTTP transport as a state machine.

 Every step is one critical section of the transport's mutex, or one action of the
 thread that constructs, forks and destroys it.  While a payload is `Sending` the
 mutex is free.  A payload is "attempted" from the moment the worker takes it off the
 queue.  `accepted`, `attempted` and `discarded` are history: they name what a process
 took in, what it handed to the sender, and how many inherited bytes it threw away.
 */
module Transport {
  datatype Payload = Payload(id: nat, size: nat)

  datatype Cause = NeverEntered | Interrupted | TimedOut | Drained

  datatype Worker = NoThread | Starting | Waiting | Sending(payload: Payload) | Exited(left: seq<Payload>, cause: Cause)

  // What the owning thread is doing: the prefork sequence Stopping, Quiet, then one of the
  // Forked phases; the destructor sequence ForceSet, Destroying, Destroyed.
  datatype Owner = Idle | Stopping | Quiet | ForkedParent | ForkedChild | ForceSet | Destroying | Destroyed

  datatype Transport = Transport(
    queue: seq<Payload>, usage: int, working: bool, force: bool, worker: Worker, owner: Owner,
    accepted: seq<Payload>, attempted: seq<Payload>, discarded: nat)

  predicate IsInitial(t: Transport) {
    && |t.queue| == |t.accepted| == |t.attempted| == 0
    && t.usage == t.discarded == 0
    && t.working && !t.force && t.worker == NoThread && t.owner == Idle
  }

  datatype Event =
    | Enqueue(size: nat, limit: nat)
    | StartThread
    | Enter                    // the new thread locks the mutex for the first time
    | Wake                     // the wait ends because its predicate holds
    | Sent(timeout: bool)      // a send is over; timeout: the shutdown timeout has passed
    | Prefork
    | Join
    | Postfork
    | Destroy
    | ClearWorking

  function Bytes(queue: seq<Payload>): nat {
    if queue == [] then 0 else queue[0].size + Bytes(queue[1..])
  }

  predicate Accepts(t: Transport, size: nat, limit: nat) {
    t.usage + size <= limit
  }

  predicate Enabled(t: Transport, e: Event) {
    match e
    case Enqueue(_, _) => t.owner != ForkedChild && t.owner != Destroyed
    case StartThread => t.owner == Idle
    case Enter => t.worker == Starting
    case Wake => t.worker == Waiting && (t.queue != [] || !t.working)
    case Sent(_) => t.worker.Sending?
    case Prefork => t.owner == Idle
    case Join => (t.owner == Stopping || t.owner == Destroying) && (t.worker == NoThread || t.worker.Exited?)
    case Postfork => t.owner == ForkedParent || t.owner == ForkedChild
    case Destroy => t.owner == Idle
    case ClearWorking => t.owner == ForceSet
  }

  function Pop(t: Transport): Transport
    requires t.queue != []
  {
    var p := t.queue[0];
    t.(queue := t.queue[1..], usage := t.usage - p.size, worker := Sending(p), attempted := t.attempted + [p])
  }

  /** The head of the worker's outer loop, with the mutex held. */
  function LoopHead(t: Transport, cause: Cause): Transport {
    if !t.working then t.(worker := Exited(t.queue, cause))
    else if t.queue == [] then t.(worker := Waiting)
    else Pop(t)
  }

  /** One step; `id` names the payload of an enqueue. */
  function Next(t: Transport, e: Event, id: nat): Transport
    requires Enabled(t, e)
  {
    match e
    case Enqueue(size, limit) =>
      if !Accepts(t, size, limit) then t
      else
        t.(queue := t.queue + [Payload(id, size)], usage := t.usage + size,
           accepted := t.accepted + [Payload(id, size)])
    case StartThread => if t.worker == NoThread then t.(worker := Starting) else t
    case Enter => LoopHead(t, NeverEntered)
    case Wake =>
      if !t.working && !t.force then t.(worker := Exited(t.queue, Interrupted))
      else if t.queue == [] then LoopHead(t, Drained)
      else Pop(t)
    case Sent(timeout) =>
      if t.queue == [] then LoopHead(t, Drained)
      else if t.force && timeout then LoopHead(t, TimedOut)
      else Pop(t)
    case Prefork => t.(working := false, owner := Stopping)
    case Join => t.(worker := NoThread, owner := if t.owner == Stopping then Quiet else Destroyed)
    case Postfork =>
      var u := if t.owner == ForkedChild then t.(queue := [], discarded := t.discarded + Bytes(t.queue)) else t;
      u.(working := true, worker := if u.worker == NoThread then Starting else u.worker, owner := Idle)
    case Destroy => t.(force := true, owner := ForceSet)
    case ClearWorking => t.(working := false, owner := Destroying)
  }

  /** The memory image that a forked child starts with; its own history is empty. */
  function ChildOf(t: Transport): Transport {
    t.(owner := ForkedChild, accepted := [], attempted := [])
  }

  // ---------------------------------------------------------------------------
  // One process
  // ---------------------------------------------------------------------------

  ghost predicate Inv(t: Transport) {
    && t.usage == Bytes(t.queue) + t.discarded
    && (if t.owner == ForkedChild then t.accepted == t.attempted == [] else t.accepted == t.attempted + t.queue)
    && (t.worker.Sending? ==> t.attempted != [] && t.attempted[|t.attempted| - 1] == t.worker.payload)
    && (t.working <==> t.owner == Idle || t.owner == ForceSet)
    && (t.force <==> t.owner == ForceSet || t.owner == Destroying || t.owner == Destroyed)
    && (t.owner in {Quiet, ForkedParent, ForkedChild, Destroyed} ==> t.worker == NoThread)
    && (t.worker.Exited? ==> t.owner == Stopping || t.owner == Destroying)
    && (t.worker.Exited? && t.owner == Destroying ==>
          t.worker.left == [] || t.worker.cause == NeverEntered || t.worker.cause == TimedOut)
  }

  lemma {:induction false} BytesAppend(queue: seq<Payload>, p: Payload)
    ensures Bytes(queue + [p]) == Bytes(queue) + p.size
  {
    if queue != [] {
      assert (queue + [p])[1..] == queue[1..] + [p];
      BytesAppend(queue[1..], p);
    }
  }

  lemma PopPreserves(t: Transport)
    requires Inv(t) && t.queue != [] && t.owner in {Idle, Stopping, ForceSet, Destroying}
    ensures Inv(Pop(t)) && t.usage >= t.queue[0].size
  {
    assert t.attempted + t.queue == (t.attempted + [t.queue[0]]) + t.queue[1..];
  }

  /** Every step keeps the byte account exact, so the subtraction never underflows, keeps
      the queue in acceptance order without loss, and lets the worker exit only when asked. */
  lemma StepPreserves(t: Transport, e: Event, id: nat)
    requires Inv(t) && Enabled(t, e)
    ensures Inv(Next(t, e, id))
  {
    match e
    case Enqueue(size, limit) =>
      BytesAppend(t.queue, Payload(id, size));
      assert t.attempted + t.queue + [Payload(id, size)] == t.attempted + (t.queue + [Payload(id, size)]);
    case Enter => if t.queue != [] && t.working { PopPreserves(t); }
    case Wake => if t.queue != [] && (t.working || t.force) { PopPreserves(t); }
    case Sent(timeout) => if t.queue != [] && (t.working || !(t.force && timeout)) { PopPreserves(t); }
    case _ =>
  }

  lemma ForkPreserves(t: Transport)
    requires Inv(t) && t.owner == Quiet
    ensures Inv(ChildOf(t)) && Inv(t.(owner := ForkedParent))
  {
  }

  /** A process judges payloads by its queue alone exactly when it never discarded bytes
      at a fork: the discarded bytes stay charged to it for ever. */
  lemma CapacityIsIntactIffNothingDiscarded(t: Transport)
    requires Inv(t)
    ensures (forall size: nat, limit: nat :: Accepts(t, size, limit) <==> Bytes(t.queue) + size <= limit)
       <==> t.discarded == 0
  {
    if forall size: nat, limit: nat :: Accepts(t, size, limit) <==> Bytes(t.queue) + size <= limit {
      assert Accepts(t, 0, Bytes(t.queue));
    }
  }

  lemma DiscardedIsPermanent(t: Transport, e: Event, id: nat)
    requires Inv(t) && Enabled(t, e)
    ensures Next(t, e, id).discarded
         == t.discarded + if e == Postfork && t.owner == ForkedChild then Bytes(t.queue) else 0
    ensures ChildOf(t).discarded == t.discarded
  {
  }

  // ---------------------------------------------------------------------------
  // Flushing on destruction
  // ---------------------------------------------------------------------------

  /** A run of one process: consecutive states and the events between them. */
  ghost predicate LocalRun(ts: seq<Transport>, es: seq<Event>, ids: seq<nat>) {
    && |ts| == |es| + 1 && |ids| == |es|
    && forall k {:trigger es[k]} | 0 <= k < |es| :: Enabled(ts[k], es[k]) && ts[k + 1] == Next(ts[k], es[k], ids[k])
  }

  /** Over any run under limits of at most `bound`, the account never exceeds `bound`. */
  lemma {:induction false} UsageStaysBounded(ts: seq<Transport>, es: seq<Event>, ids: seq<nat>, bound: nat, k: nat)
    requires LocalRun(ts, es, ids) && Inv(ts[0]) && ts[0].usage <= bound && k < |ts|
    requires forall n | 0 <= n < |es| && es[n].Enqueue? :: es[n].limit <= bound
    ensures Inv(ts[k]) && Bytes(ts[k].queue) <= ts[k].usage <= bound
  {
    if k > 0 {
      UsageStaysBounded(ts, es, ids, bound, k - 1);
      StepPreserves(ts[k - 1], es[k - 1], ids[k - 1]);
    }
  }

  predicate NoTimeout(es: seq<Event>) {
    forall e | e in es :: e != Sent(true)
  }

  predicate Flushing(t: Transport) {
    && (t.owner == Destroying || t.owner == Destroyed)
    && match t.worker
       case Starting => false
       case Exited(left, _) => left == []
       case _ => true
  }

  lemma FlushStep(t: Transport, e: Event, id: nat)
    requires Inv(t) && Enabled(t, e) && Flushing(t) && e != Sent(true)
    ensures Flushing(Next(t, e, id))
    ensures Next(t, e, id).worker.Exited? && !t.worker.Exited? ==>
              Next(t, e, id).queue == [] && Next(t, e, id).attempted == Next(t, e, id).accepted
  {
    StepPreserves(t, e, id);
  }

  lemma {:induction false} FlushRun(ts: seq<Transport>, es: seq<Event>, ids: seq<nat>, k: nat)
    requires LocalRun(ts, es, ids) && NoTimeout(es) && Inv(ts[0]) && Flushing(ts[0])
    requires k < |ts|
    ensures Inv(ts[k]) && Flushing(ts[k])
  {
    if k > 0 {
      FlushRun(ts, es, ids, k - 1);
      assert es[k - 1] in es;
      FlushStep(ts[k - 1], es[k - 1], ids[k - 1]);
      StepPreserves(ts[k - 1], es[k - 1], ids[k - 1]);
    }
  }

  /** If the worker had entered its loop when the destructor cleared `working_`, and no
      shutdown timeout strikes, then for every interleaving: at the moment the worker exits the
      queue is empty and what was attempted is what was accepted, in that order. */
  lemma FlushIsComplete(ts: seq<Transport>, es: seq<Event>, ids: seq<nat>, k: nat)
    requires LocalRun(ts, es, ids) && NoTimeout(es) && Inv(ts[0])
    requires ts[0].owner == Destroying && (ts[0].worker == Waiting || ts[0].worker.Sending?)
    requires 0 < k < |ts| && ts[k].worker.Exited? && !ts[k - 1].worker.Exited?
    ensures ts[k].queue == [] && ts[k].attempted == ts[k].accepted
  {
    FlushRun(ts, es, ids, k - 1);
    assert es[k - 1] in es;
    FlushStep(ts[k - 1], es[k - 1], ids[k - 1]);
  }

  /** Without a worker in its loop when `working_` is cleared, nothing more is attempted. */
  predicate TooLate(t: Transport, attempted: seq<Payload>) {
    && (t.owner == Destroying || t.owner == Destroyed)
    && t.attempted == attempted
    && (t.worker == Starting || t.worker.Exited? || t.worker == NoThread)
  }

  /** Every enqueue among the events would overflow the account that `t` has. */
  predicate NoRoom(t: Transport, es: seq<Event>) {
    forall e | e in es && e.Enqueue? :: !Accepts(t, e.size, e.limit)
  }

  lemma TooLateStep(t: Transport, e: Event, id: nat, attempted: seq<Payload>)
    requires Inv(t) && Enabled(t, e) && TooLate(t, attempted)
    ensures Inv(Next(t, e, id)) && TooLate(Next(t, e, id), attempted)
    ensures
      if e.Enqueue? && Accepts(t, e.size, e.limit) then |Next(t, e, id).queue| == |t.queue| + 1
      else Next(t, e, id).queue == t.queue && Next(t, e, id).usage == t.usage
  {
    StepPreserves(t, e, id);
  }

  lemma {:induction false} TooLateRun(ts: seq<Transport>, es: seq<Event>, ids: seq<nat>, k: nat)
    requires LocalRun(ts, es, ids) && Inv(ts[0]) && k < |ts|
    requires TooLate(ts[0], ts[0].attempted)
    ensures Inv(ts[k]) && TooLate(ts[k], ts[0].attempted)
    ensures
      if NoRoom(ts[0], es[..k]) then ts[k].queue == ts[0].queue && ts[k].usage == ts[0].usage
      else ts[k].queue != []
  {
    if k > 0 {
      TooLateRun(ts, es, ids, k - 1);
      TooLateStep(ts[k - 1], es[k - 1], ids[k - 1], ts[0].attempted);
      assert es[..k] == es[..k - 1] + [es[k - 1]];
    }
  }

  predicate InLoop(w: Worker) {
    w == Waiting || w.Sending?
  }

  /** From e on no payload is taken off the queue: the worker, when it was in its loop, exits
      at e; otherwise it takes nothing from the beginning. */
  predicate StopsAt(ts: seq<Transport>, e: nat)
    requires e < |ts|
  {
    if InLoop(ts[0].worker) then e > 0 && ts[e].worker.Exited? && !ts[e - 1].worker.Exited?
    else e == 0
  }

  lemma SuffixRun(ts: seq<Transport>, es: seq<Event>, ids: seq<nat>, e: nat)
    requires LocalRun(ts, es, ids) && e <= |es|
    ensures LocalRun(ts[e..], es[e..], ids[e..])
  {
    var us, fs, js := ts[e..], es[e..], ids[e..];
    forall k {:trigger fs[k]} | 0 <= k < |fs|
      ensures Enabled(us[k], fs[k]) && us[k + 1] == Next(us[k], fs[k], js[k])
    {
      assert fs[k] == es[e + k];
    }
  }

  lemma NothingTakenAfter(ts: seq<Transport>, es: seq<Event>, ids: seq<nat>, e: nat, d: nat)
    requires LocalRun(ts, es, ids) && e <= d < |ts|
    requires Inv(ts[e]) && TooLate(ts[e], ts[e].attempted)
    ensures ts[d].attempted == ts[d].accepted <==> ts[e].queue == [] && NoRoom(ts[e], es[e..d])
  {
    SuffixRun(ts, es, ids, e);
    TooLateRun(ts[e..], es[e..], ids[e..], d - e);
    assert es[e..][..d - e] == es[e..d];
  }

  /** Exactly when everything accepted is attempted, at any moment after the worker has
      stopped and so also when the transport is destroyed: the worker was in its loop when
      `working_` was cleared, or nothing was queued then; and every enqueue that comes after
      the worker has stopped is refused for want of room. */
  lemma FlushCompleteIff(ts: seq<Transport>, es: seq<Event>, ids: seq<nat>, e: nat, d: nat)
    requires LocalRun(ts, es, ids) && NoTimeout(es) && Inv(ts[0])
    requires ts[0].owner == Destroying && !ts[0].worker.Exited?
    requires e <= d < |ts| && StopsAt(ts, e)
    ensures ts[d].attempted == ts[d].accepted
       <==> (InLoop(ts[0].worker) || ts[0].queue == []) && NoRoom(ts[e], es[e..d])
  {
    if InLoop(ts[0].worker) {
      FlushIsComplete(ts, es, ids, e);
      FlushRun(ts, es, ids, e);
    }
    NothingTakenAfter(ts, es, ids, e, d);
  }

  /** When the transport is destroyed, the worker has stopped at some moment of the run. */
  lemma {:induction false} DestroyedHasStopped(ts: seq<Transport>, es: seq<Event>, ids: seq<nat>, d: nat) returns (e: nat)
    requires LocalRun(ts, es, ids) && Inv(ts[0])
    requires ts[0].owner == Destroying && !ts[0].worker.Exited?
    requires d < |ts| && (ts[d].owner == Destroyed || ts[d].worker.Exited?)
    ensures e <= d && StopsAt(ts, e)
  {
    e := 0;
    if InLoop(ts[0].worker) {
      assert d > 0;
      assert Enabled(ts[d - 1], es[d - 1]);
      if ts[d - 1].owner == Destroyed || ts[d - 1].worker.Exited? {
        e := DestroyedHasStopped(ts, es, ids, d - 1);
      } else {
        StillInLoop(ts, es, ids, d - 1);
        e := d;
      }
    }
  }

  lemma {:induction false} StillInLoop(ts: seq<Transport>, es: seq<Event>, ids: seq<nat>, k: nat)
    requires LocalRun(ts, es, ids) && Inv(ts[0]) && k < |ts|
    requires ts[0].owner == Destroying && InLoop(ts[0].worker)
    ensures Inv(ts[k]) && (ts[k].owner == Destroying || ts[k].owner == Destroyed)
    ensures ts[k].owner == Destroyed || ts[k].worker.Exited? || InLoop(ts[k].worker)
  {
    if k > 0 {
      StillInLoop(ts, es, ids, k - 1);
      StepPreserves(ts[k - 1], es[k - 1], ids[k - 1]);
    }
  }

  /** The state in which `working_` is cleared meets what the theorem asks of its first state. */
  lemma ClearingStartsFlush(t: Transport, id: nat)
    requires Inv(t) && Enabled(t, ClearWorking)
    ensures
      var cleared := Next(t, ClearWorking, id);
      Inv(cleared) && cleared.owner == Destroying && !cleared.worker.Exited? && cleared.worker == t.worker
  {
    StepPreserves(t, ClearWorking, id);
  }

  /** A payload is accepted although no connection was ever initialised, and so no worker
      started: the destructor leaves it behind. */
  lemma FlushFailsWithoutWorker(t0: Transport, size: nat, id: nat) returns (ts: seq<Transport>, es: seq<Event>, ids: seq<nat>)
    requires IsInitial(t0)
    ensures LocalRun(ts, es, ids) && ts[0] == t0 && StartThread !in es
    ensures
      var end := ts[|es|];
      end.owner == Destroyed && end.accepted == [Payload(id, size)] && end.attempted == []
  {
    var t1 := Next(t0, Enqueue(size, size), id);
    var t2 := Next(t1, Destroy, id);
    var t3 := Next(t2, ClearWorking, id);
    var t4 := Next(t3, Join, id);
    ts := [t0, t1, t2, t3, t4];
    es := [Enqueue(size, size), Destroy, ClearWorking, Join];
    ids := [id, id, id, id];
  }

  /** A payload comes after the worker has drained the queue and exited, before it is joined. */
  lemma FlushFailsForLatePayload(t0: Transport, size: nat, id: nat) returns (ts: seq<Transport>, es: seq<Event>, ids: seq<nat>)
    requires IsInitial(t0)
    ensures LocalRun(ts, es, ids) && NoTimeout(es) && ts[0] == t0
    ensures |es| == 7 && ts[4].owner == Destroying && InLoop(ts[4].worker)
    ensures
      var end := ts[|es|];
      end.owner == Destroyed && end.accepted == [Payload(id, size)] && end.attempted == []
  {
    var t1 := Next(t0, StartThread, id);
    var t2 := Next(t1, Enter, id);
    var t3 := Next(t2, Destroy, id);
    var t4 := Next(t3, ClearWorking, id);
    var t5 := Next(t4, Wake, id);
    var t6 := Next(t5, Enqueue(size, size), id);
    var t7 := Next(t6, Join, id);
    ts := [t0, t1, t2, t3, t4, t5, t6, t7];
    es := [StartThread, Enter, Destroy, ClearWorking, Wake, Enqueue(size, size), Join];
    ids := [id, id, id, id, id, id, id];
  }

  /** The worker was started but gets the mutex only after `working_` is cleared. */
  lemma FlushFailsForStartingWorker(t0: Transport, size: nat, id: nat) returns (ts: seq<Transport>, es: seq<Event>, ids: seq<nat>)
    requires IsInitial(t0)
    ensures LocalRun(ts, es, ids) && ts[0] == t0 && StartThread in es
    ensures
      var end := ts[|es|];
      end.worker.Exited? && end.accepted == [Payload(id, size)] && end.attempted == []
  {
    var t1 := Next(t0, StartThread, id);
    var t2 := Next(t1, Enqueue(size, size), id);
    var t3 := Next(t2, Destroy, id);
    var t4 := Next(t3, ClearWorking, id);
    var t5 := Next(t4, Enter, id);
    ts := [t0, t1, t2, t3, t4, t5];
    es := [StartThread, Enqueue(size, size), Destroy, ClearWorking, Enter];
    ids := [id, id, id, id, id];
    assert StartThread == es[0];
  }

  // ---------------------------------------------------------------------------
  // The tree of processes
  // ---------------------------------------------------------------------------

  /** All processes, in order of creation, and the number of payloads accepted so far. */
  datatype System = System(procs: seq<Transport>, nextId: nat)

  datatype Move = Local(i: nat, e: Event) | Fork(i: nat)

  predicate IsBoot(s: System) {
    |s.procs| == 1 && IsInitial(s.procs[0]) && s.nextId == 0
  }

  predicate CanMove(s: System, m: Move) {
    && m.i < |s.procs|
    && match m
       case Local(i, e) => Enabled(s.procs[i], e)
       case Fork(i) => s.procs[i].owner == Quiet
  }

  function Moved(s: System, m: Move): System
    requires CanMove(s, m)
  {
    match m
    case Local(i, e) =>
      var t := Next(s.procs[i], e, s.nextId);
      System(s.procs[i := t], if |t.accepted| > |s.procs[i].accepted| then s.nextId + 1 else s.nextId)
    case Fork(i) =>
      System(s.procs[i := s.procs[i].(owner := ForkedParent)] + [ChildOf(s.procs[i])], s.nextId)
  }

  ghost predicate SystemRun(ss: seq<System>, ms: seq<Move>) {
    && |ss| == |ms| + 1 && IsBoot(ss[0])
    && forall k {:trigger ms[k]} | 0 <= k < |ms| :: CanMove(ss[k], ms[k]) && ss[k + 1] == Moved(ss[k], ms[k])
  }

  /** Payloads are numbered in the order in which they are accepted. */
  ghost predicate Increasing(accepted: seq<Payload>, nextId: nat) {
    && (forall a | 0 <= a < |accepted| :: accepted[a].id < nextId)
    && (forall a, b | 0 <= a < b < |accepted| :: accepted[a].id < accepted[b].id)
  }

  ghost predicate AcceptedBy(t: Transport, id: nat) {
    exists a | 0 <= a < |t.accepted| :: t.accepted[a].id == id
  }

  ghost predicate SomeoneAccepted(s: System, id: nat) {
    exists i :: 0 <= i < |s.procs| && AcceptedBy(s.procs[i], id)
  }

  ghost predicate OneOwner(s: System, id: nat) {
    forall i, j {:trigger s.procs[i], s.procs[j]} |
      0 <= i < |s.procs| && 0 <= j < |s.procs| && AcceptedBy(s.procs[i], id) && AcceptedBy(s.procs[j], id) :: i == j
  }

  ghost predicate SystemInv(s: System) {
    && (forall i | 0 <= i < |s.procs| :: Inv(s.procs[i]) && Increasing(s.procs[i].accepted, s.nextId))
    && (forall id: nat :: OneOwner(s, id))
    && (forall id: nat | id < s.nextId :: SomeoneAccepted(s, id))
  }

  lemma AcceptedGrowth(t: Transport, e: Event, id: nat)
    requires Enabled(t, e)
    ensures Next(t, e, id).accepted == t.accepted
         || exists size :: Next(t, e, id).accepted == t.accepted + [Payload(id, size)]
  {
    if e.Enqueue? && Accepts(t, e.size, e.limit) {
      assert Next(t, e, id).accepted == t.accepted + [Payload(id, e.size)];
    }
  }

  /** What a step adds to the history of its process: nothing, or the payload numbered `id`. */
  lemma AcceptedByNext(t: Transport, e: Event, id: nat, x: nat)
    requires Enabled(t, e)
    ensures AcceptedBy(Next(t, e, id), x)
       <==> AcceptedBy(t, x) || (x == id && |Next(t, e, id).accepted| > |t.accepted|)
  {
    var t' := Next(t, e, id);
    AcceptedGrowth(t, e, id);
    if AcceptedBy(t, x) {
      var a :| 0 <= a < |t.accepted| && t.accepted[a].id == x;
      assert t'.accepted[a].id == x;
    }
    if |t'.accepted| > |t.accepted| {
      assert t'.accepted[|t.accepted|].id == id;
    }
  }

  // Each part of the invariant on its own, for a step of one process and for a fork.

  lemma LocalKeepsInvs(s: System, i: nat, e: Event, s': System)
    requires SystemInv(s) && CanMove(s, Local(i, e)) && s' == Moved(s, Local(i, e))
    ensures forall j | 0 <= j < |s'.procs| :: Inv(s'.procs[j]) && Increasing(s'.procs[j].accepted, s'.nextId)
  {
    StepPreserves(s.procs[i], e, s.nextId);
    AcceptedGrowth(s.procs[i], e, s.nextId);
  }

  lemma FreshId(s: System, x: nat, j: nat)
    requires SystemInv(s) && x >= s.nextId && j < |s.procs|
    ensures !AcceptedBy(s.procs[j], x)
  {
    assert Increasing(s.procs[j].accepted, s.nextId);
  }

  lemma LocalKeepsOwner(s: System, i: nat, e: Event, s': System, x: nat)
    requires SystemInv(s) && CanMove(s, Local(i, e)) && s' == Moved(s, Local(i, e))
    ensures OneOwner(s', x)
  {
    AcceptedByNext(s.procs[i], e, s.nextId, x);
    forall j, k | 0 <= j < |s'.procs| && 0 <= k < |s'.procs| && AcceptedBy(s'.procs[j], x) && AcceptedBy(s'.procs[k], x)
      ensures j == k
    {
      if x < s.nextId {
        assert OneOwner(s, x);
        assert AcceptedBy(s.procs[j], x) && AcceptedBy(s.procs[k], x);
      } else {
        FreshId(s, x, j);
        FreshId(s, x, k);
      }
    }
  }

  lemma LocalKeepsSomeone(s: System, i: nat, e: Event, s': System, x: nat)
    requires SystemInv(s) && CanMove(s, Local(i, e)) && s' == Moved(s, Local(i, e)) && x < s'.nextId
    ensures SomeoneAccepted(s', x)
  {
    AcceptedByNext(s.procs[i], e, s.nextId, x);
    if x < s.nextId {
      assert SomeoneAccepted(s, x);
      var j :| 0 <= j < |s.procs| && AcceptedBy(s.procs[j], x);
      assert AcceptedBy(s'.procs[j], x);
    } else {
      assert AcceptedBy(s'.procs[i], x);
    }
  }

  lemma LocalPreserves(s: System, i: nat, e: Event)
    requires SystemInv(s) && CanMove(s, Local(i, e))
    ensures SystemInv(Moved(s, Local(i, e)))
  {
    var s' := Moved(s, Local(i, e));
    LocalKeepsInvs(s, i, e, s');
    forall x: nat
      ensures OneOwner(s', x)
      ensures x < s'.nextId ==> SomeoneAccepted(s', x)
    {
      LocalKeepsOwner(s, i, e, s', x);
      if x < s'.nextId { LocalKeepsSomeone(s, i, e, s', x); }
    }
  }

  lemma ForkKeepsInvs(s: System, i: nat, s': System)
    requires SystemInv(s) && CanMove(s, Fork(i)) && s' == Moved(s, Fork(i))
    ensures forall j | 0 <= j < |s'.procs| :: Inv(s'.procs[j]) && Increasing(s'.procs[j].accepted, s'.nextId)
  {
    ForkPreserves(s.procs[i]);
  }

  /** The child has accepted nothing, and no other history changes. */
  lemma ForkKeepsAccepted(s: System, i: nat, s': System, x: nat, j: nat)
    requires CanMove(s, Fork(i)) && s' == Moved(s, Fork(i)) && j < |s'.procs|
    ensures AcceptedBy(s'.procs[j], x) <==> j < |s.procs| && AcceptedBy(s.procs[j], x)
  {
    if j < |s.procs| {
      assert s'.procs[j].accepted == s.procs[j].accepted;
    } else {
      assert s'.procs[j].accepted == [];
    }
  }

  lemma ForkKeepsOwner(s: System, i: nat, s': System, x: nat)
    requires SystemInv(s) && CanMove(s, Fork(i)) && s' == Moved(s, Fork(i))
    ensures OneOwner(s', x)
  {
    assert OneOwner(s, x);
    forall j, k | 0 <= j < |s'.procs| && 0 <= k < |s'.procs| && AcceptedBy(s'.procs[j], x) && AcceptedBy(s'.procs[k], x)
      ensures j == k
    {
      ForkKeepsAccepted(s, i, s', x, j);
      ForkKeepsAccepted(s, i, s', x, k);
    }
  }

  lemma ForkKeepsSomeone(s: System, i: nat, s': System, x: nat)
    requires SystemInv(s) && CanMove(s, Fork(i)) && s' == Moved(s, Fork(i)) && x < s'.nextId
    ensures SomeoneAccepted(s', x)
  {
    assert SomeoneAccepted(s, x);
    var j :| 0 <= j < |s.procs| && AcceptedBy(s.procs[j], x);
    ForkKeepsAccepted(s, i, s', x, j);
  }

  lemma ForkMovePreserves(s: System, i: nat)
    requires SystemInv(s) && CanMove(s, Fork(i))
    ensures SystemInv(Moved(s, Fork(i)))
  {
    var s' := Moved(s, Fork(i));
    ForkKeepsInvs(s, i, s');
    forall x: nat
      ensures OneOwner(s', x)
      ensures x < s'.nextId ==> SomeoneAccepted(s', x)
    {
      ForkKeepsOwner(s, i, s', x);
      if x < s'.nextId { ForkKeepsSomeone(s, i, s', x); }
    }
  }

  lemma BootInv(s: System)
    requires IsBoot(s)
    ensures SystemInv(s)
  {
    assert Inv(s.procs[0]) && Increasing(s.procs[0].accepted, 0);
    forall id: nat
      ensures OneOwner(s, id)
    {
      assert |s.procs| == 1;
    }
  }

  lemma MovePreserves(s: System, m: Move)
    requires SystemInv(s) && CanMove(s, m)
    ensures SystemInv(Moved(s, m))
  {
    match m
    case Local(i, e) => LocalPreserves(s, i, e);
    case Fork(i) => ForkMovePreserves(s, i);
  }

  lemma {:induction false} SystemRunInv(ss: seq<System>, ms: seq<Move>, k: nat)
    requires SystemRun(ss, ms) && k < |ss|
    ensures SystemInv(ss[k])
  {
    if k == 0 {
      BootInv(ss[0]);
    } else {
      SystemRunInv(ss, ms, k - 1);
      MovePreserves(ss[k - 1], ms[k - 1]);
    }
  }

  // The byte account over the tree ------------------------------------------------

  /** Process j came into being by the k-th move. */
  predicate BornAt(ss: seq<System>, ms: seq<Move>, k: nat, j: nat)
    requires |ss| == |ms| + 1 && 0 < k < |ss|
  {
    ms[k - 1].Fork? && ms[k - 1].i < |ss[k - 1].procs| == j
  }

  /** The bytes that were queued at the forks on the line of descent of process j. */
  function BytesAtForks(ss: seq<System>, ms: seq<Move>, k: nat, j: nat): nat
    requires |ss| == |ms| + 1 && k < |ss|
  {
    if k == 0 then 0
    else if BornAt(ss, ms, k, j) then
      BytesAtForks(ss, ms, k - 1, ms[k - 1].i) + Bytes(ss[k - 1].procs[ms[k - 1].i].queue)
    else BytesAtForks(ss, ms, k - 1, j)
  }

  /** Every fork on the line of descent of process j found no bytes queued. */
  predicate CleanDescent(ss: seq<System>, ms: seq<Move>, k: nat, j: nat)
    requires |ss| == |ms| + 1 && k < |ss|
  {
    if k == 0 then true
    else if BornAt(ss, ms, k, j) then
      CleanDescent(ss, ms, k - 1, ms[k - 1].i) && Bytes(ss[k - 1].procs[ms[k - 1].i].queue) == 0
    else CleanDescent(ss, ms, k - 1, j)
  }

  lemma {:induction false} CleanDescentMeansNoBytes(ss: seq<System>, ms: seq<Move>, k: nat, j: nat)
    requires |ss| == |ms| + 1 && k < |ss|
    ensures CleanDescent(ss, ms, k, j) <==> BytesAtForks(ss, ms, k, j) == 0
  {
    if k > 0 {
      CleanDescentMeansNoBytes(ss, ms, k - 1, if BornAt(ss, ms, k, j) then ms[k - 1].i else j);
    }
  }

  /** The bytes that a process has discarded, or is about to discard in its postfork. */
  function Inherited(t: Transport): nat {
    t.discarded + if t.owner == ForkedChild then Bytes(t.queue) else 0
  }

  lemma StepKeepsInherited(t: Transport, e: Event, id: nat)
    requires Inv(t) && Enabled(t, e)
    ensures Inherited(Next(t, e, id)) == Inherited(t)
  {
    assert t.owner == ForkedChild ==> t.worker == NoThread;
    assert Bytes([]) == 0;
  }

  /** What a process has discarded is what was queued at the forks that it descends from. */
  lemma {:induction false} InheritedFromForks(ss: seq<System>, ms: seq<Move>, k: nat, j: nat)
    requires SystemRun(ss, ms) && k < |ss| && j < |ss[k].procs|
    ensures Inherited(ss[k].procs[j]) == BytesAtForks(ss, ms, k, j)
  {
    if k > 0 {
      var s, m := ss[k - 1], ms[k - 1];
      SystemRunInv(ss, ms, k - 1);
      match m
      case Local(i, e) =>
        InheritedFromForks(ss, ms, k - 1, j);
        StepKeepsInherited(s.procs[i], e, s.nextId);
      case Fork(i) =>
        InheritedFromForks(ss, ms, k - 1, if BornAt(ss, ms, k, j) then i else j);
    }
  }

  /** The process in which everything started never discards, so its account is its queue. */
  lemma {:induction false} FirstProcessIsExact(ss: seq<System>, ms: seq<Move>, k: nat)
    requires SystemRun(ss, ms) && k < |ss|
    ensures |ss[k].procs| > 0 && ss[k].procs[0].owner != ForkedChild
    ensures ss[k].procs[0].discarded == 0 && ss[k].procs[0].usage == Bytes(ss[k].procs[0].queue)
  {
    SystemRunInv(ss, ms, k);
    if k > 0 {
      FirstProcessIsExact(ss, ms, k - 1);
      assert CanMove(ss[k - 1], ms[k - 1]);
    }
  }

  /** In a process of the tree that has come out of its fork, payloads are judged by the queue
      alone exactly when every fork that it descends from found an empty account. */
  lemma CapacityIsIntactIffForksWereClean(ss: seq<System>, ms: seq<Move>, k: nat, j: nat)
    requires SystemRun(ss, ms) && k < |ss| && j < |ss[k].procs| && ss[k].procs[j].owner != ForkedChild
    ensures ss[k].procs[j].usage == Bytes(ss[k].procs[j].queue) + BytesAtForks(ss, ms, k, j)
    ensures (forall size: nat, limit: nat ::
               Accepts(ss[k].procs[j], size, limit) <==> Bytes(ss[k].procs[j].queue) + size <= limit)
       <==> CleanDescent(ss, ms, k, j)
  {
    SystemRunInv(ss, ms, k);
    InheritedFromForks(ss, ms, k, j);
    CapacityIsIntactIffNothingDiscarded(ss[k].procs[j]);
    CleanDescentMeansNoBytes(ss, ms, k, j);
  }

  predicate LimitsWithin(ms: seq<Move>, bound: nat) {
    forall m | m in ms && m.Local? && m.e.Enqueue? :: m.e.limit <= bound
  }

  lemma MoveKeepsBound(s: System, m: Move, bound: nat, j: nat)
    requires CanMove(s, m) && j < |Moved(s, m).procs|
    requires s.procs[if j < |s.procs| then j else m.i].usage <= bound
    requires m.Local? && m.e.Enqueue? ==> m.e.limit <= bound
    ensures Moved(s, m).procs[j].usage <= bound
  {
  }

  /** Under limits of at most `bound` no process of the tree ever accounts for more. */
  lemma {:induction false} UsageStaysBoundedInTree(ss: seq<System>, ms: seq<Move>, bound: nat, k: nat, j: nat)
    requires SystemRun(ss, ms) && LimitsWithin(ms, bound) && k < |ss| && j < |ss[k].procs|
    ensures Bytes(ss[k].procs[j].queue) <= ss[k].procs[j].usage <= bound
  {
    SystemRunInv(ss, ms, k);
    if k > 0 {
      UsageStaysBoundedInTree(ss, ms, bound, k - 1, if BornAt(ss, ms, k, j) then ms[k - 1].i else j);
      assert ms[k - 1] in ms;
      MoveKeepsBound(ss[k - 1], ms[k - 1], bound, j);
    }
  }

  /** A child that was forked while the send queue was full refuses every payload, with nothing
      queued, under any limit up to the size of that queue. */
  lemma ChildOfFullQueueIsStarved(s0: System, size: nat) returns (ss: seq<System>, ms: seq<Move>)
    requires IsBoot(s0) && size > 0
    ensures SystemRun(ss, ms) && ss[0] == s0
    ensures
      var child := ss[|ms|].procs;
      |child| == 2 && child[1].owner == Idle && child[1].queue == [] && child[1].worker == Starting
      && (forall n: nat, limit: nat | 0 < n && limit <= size :: !Accepts(child[1], n, limit))
  {
    var m0, m1, m2, m3, m4 := Local(0, Enqueue(size, size)), Local(0, Prefork), Local(0, Join), Fork(0), Local(1, Postfork);
    var s1 := Moved(s0, m0);
    var s2 := Moved(s1, m1);
    var s3 := Moved(s2, m2);
    var s4 := Moved(s3, m3);
    var s5 := Moved(s4, m4);
    ss, ms := [s0, s1, s2, s3, s4, s5], [m0, m1, m2, m3, m4];
  }

  /** Over any tree of forks no payload is handed to the sender twice, neither by two
      processes nor by one. */
  lemma AttemptedAtMostOnce(ss: seq<System>, ms: seq<Move>, k: nat, i: nat, j: nat, a: nat, b: nat)
    requires SystemRun(ss, ms) && k < |ss| && i < |ss[k].procs| && j < |ss[k].procs|
    requires a < |ss[k].procs[i].attempted| && b < |ss[k].procs[j].attempted|
    requires ss[k].procs[i].attempted[a].id == ss[k].procs[j].attempted[b].id
    ensures i == j && a == b
  {
    SystemRunInv(ss, ms, k);
    var ti, tj := ss[k].procs[i], ss[k].procs[j];
    assert ti.accepted[a] == ti.attempted[a] && tj.accepted[b] == tj.attempted[b];
    assert AcceptedBy(ti, ti.attempted[a].id) && AcceptedBy(tj, ti.attempted[a].id);
    assert OneOwner(ss[k], ti.attempted[a].id);
  }

  /** No payload is lost to a fork: each one ever accepted was handed to the sender by one
      process, or still waits in the queue of the only process that owns it. */
  lemma NothingIsLost(ss: seq<System>, ms: seq<Move>, k: nat, id: nat)
    requires SystemRun(ss, ms) && k < |ss| && id < ss[k].nextId
    ensures exists i :: 0 <= i < |ss[k].procs| && ss[k].procs[i].owner != ForkedChild && Holds(ss[k].procs[i], id)
  {
    SystemRunInv(ss, ms, k);
    assert SomeoneAccepted(ss[k], id);
    var i :| 0 <= i < |ss[k].procs| && AcceptedBy(ss[k].procs[i], id);
    var t := ss[k].procs[i];
    var a :| 0 <= a < |t.accepted| && t.accepted[a].id == id;
    if a < |t.attempted| {
      assert t.attempted[a].id == id;
    } else {
      assert t.queue[a - |t.attempted|].id == id;
    }
    assert Holds(t, id);
  }

  ghost predicate Holds(t: Transport, id: nat) {
    || (exists a :: 0 <= a < |t.attempted| && t.attempted[a].id == id)
    || (exists a :: 0 <= a < |t.queue| && t.queue[a].id == id)
  }

  /** What is queued at the fork stays queued in the parent, in the same order, while the
      child starts over with an empty queue. */
  lemma QueueStaysInParent(t: Transport, id: nat)
    requires Inv(t) && t.owner == Quiet
    ensures
      var parent := Next(t.(owner := ForkedParent), Postfork, id);
      parent.queue == t.queue && parent.accepted == t.accepted && parent.worker == Starting && parent.working
    ensures
      var child := Next(ChildOf(t), Postfork, id);
      child.queue == [] && child.accepted == child.attempted == [] && child.worker == Starting && child.working
  {
  }

  // ---------------------------------------------------------------------------
  // The class: every critical section is one step of the machine
  // ---------------------------------------------------------------------------

  class HttpTransportAsync {
    var payloadsToSend: seq<Payload>
    var payloadsByteUsage: int
    var working: bool
    var forceFlushOnDestruction: bool
    var worker: Worker
    ghost var owner: Owner
    ghost var accepted: seq<Payload>
    ghost var attempted: seq<Payload>
    ghost var discarded: nat

    ghost function Abs(): Transport
      reads this
    {
      Transport(payloadsToSend, payloadsByteUsage, working, forceFlushOnDestruction, worker, owner,
                accepted, attempted, discarded)
    }

    constructor ()
      ensures IsInitial(Abs())
    {
      payloadsToSend, payloadsByteUsage, working, forceFlushOnDestruction := [], 0, true, false;
      worker, owner, accepted, attempted, discarded := NoThread, Idle, [], [], 0;
    }

    method Enqueue(payload: Payload, maxSendQueueSize: nat)
      requires Enabled(Abs(), Event.Enqueue(payload.size, maxSendQueueSize))
      modifies this
      ensures Abs() == Next(old(Abs()), Event.Enqueue(payload.size, maxSendQueueSize), payload.id)
    {
      if payloadsByteUsage + payload.size > maxSendQueueSize {
        return;
      }
      payloadsToSend := payloadsToSend + [payload];
      payloadsByteUsage := payloadsByteUsage + payload.size;
      accepted := accepted + [payload];
    }

    method StartThread()
      modifies this`worker
      ensures worker == if old(worker) == NoThread then Starting else old(worker)
    {
      if worker == NoThread {
        worker := Starting;
      }
    }

    /** Takes the next payload off the queue; the mutex is then released for the sending. */
    method TakeNext()
      requires payloadsToSend != []
      modifies this
      ensures Abs() == Pop(old(Abs()))
    {
      var payload := payloadsToSend[0];
      payloadsToSend := payloadsToSend[1..];
      payloadsByteUsage := payloadsByteUsage - payload.size;
      worker := Sending(payload);
      attempted := attempted + [payload];
    }

    /** asyncSender from the test of its outer loop to the next point without the mutex. */
    method OuterLoop(cause: Cause)
      modifies this
      ensures Abs() == LoopHead(old(Abs()), cause)
    {
      if !working {
        worker := Exited(payloadsToSend, cause);
      } else if payloadsToSend == [] {
        worker := Waiting;
      } else {
        TakeNext();
      }
    }

    method EnterSender(ghost id: nat)
      requires Enabled(Abs(), Enter)
      modifies this
      ensures Abs() == Next(old(Abs()), Enter, id)
    {
      OuterLoop(NeverEntered);
    }

    method WakeUp(ghost id: nat)
      requires Enabled(Abs(), Wake)
      modifies this
      ensures Abs() == Next(old(Abs()), Wake, id)
    {
      if !working && !forceFlushOnDestruction {
        worker := Exited(payloadsToSend, Interrupted);
      } else if payloadsToSend == [] {
        OuterLoop(Drained);
      } else {
        TakeNext();
      }
    }

    method AfterSend(shutdownTimeoutReached: bool, ghost id: nat)
      requires Enabled(Abs(), Sent(shutdownTimeoutReached))
      modifies this
      ensures Abs() == Next(old(Abs()), Sent(shutdownTimeoutReached), id)
    {
      if forceFlushOnDestruction && payloadsToSend != [] && shutdownTimeoutReached {
        OuterLoop(TimedOut);
      } else if payloadsToSend != [] {
        TakeNext();
      } else {
        OuterLoop(Drained);
      }
    }

    /** prefork and the destructor run in two steps each: they ask the worker to stop, then join it. */
    method Prefork(ghost id: nat)
      requires Enabled(Abs(), Event.Prefork)
      modifies this
      ensures Abs() == Next(old(Abs()), Event.Prefork, id)
    {
      working := false;
      owner := Stopping;
    }

    method SetForceFlush(ghost id: nat)
      requires Enabled(Abs(), Destroy)
      modifies this
      ensures Abs() == Next(old(Abs()), Destroy, id)
    {
      forceFlushOnDestruction := true;
      owner := ForceSet;
    }

    method ShutdownThread(ghost id: nat)
      requires Enabled(Abs(), ClearWorking)
      modifies this
      ensures Abs() == Next(old(Abs()), ClearWorking, id)
    {
      working := false;
      owner := Destroying;
    }

    method JoinThread(ghost id: nat)
      requires Enabled(Abs(), Join)
      modifies this
      ensures Abs() == Next(old(Abs()), Join, id)
    {
      worker := NoThread;
      owner := if owner == Stopping then Quiet else Destroyed;
    }

    method PostforkIn(child: bool, ghost id: nat)
      requires child == (owner == ForkedChild) && Enabled(Abs(), Postfork)
      modifies this
      ensures Abs() == Next(old(Abs()), Postfork, id)
    {
      if child && payloadsToSend != [] {
        discarded := discarded + Bytes(payloadsToSend);
        payloadsToSend := [];
      }
      working := true;
      StartThread();
      owner := Idle;
    }
  }

  // ---------------------------------------------------------------------------
  // The retry loop around one payload
  // ---------------------------------------------------------------------------

  datatype Outcome = Delivered | Rejected | GivenUp

  predicate IsSuccess(code: int) { 200 <= code < 300 }

  predicate IsFatal(code: int) { 400 <= code < 500 && code != 408 && code != 429 }

  /** `response(k)` is the code of the k-th attempt.  The loop stops at the first success or
      fatal answer and otherwise after `maxRetries` attempts. */
  method SendWithRetries(response: nat -> int, maxRetries: nat) returns (outcome: Outcome, attempts: nat)
    ensures attempts <= maxRetries
    ensures
      forall k: nat | k + 1 < attempts ::
        !(200 <= response(k) < 300) && (400 <= response(k) < 500 ==> response(k) == 408 || response(k) == 429)
    ensures outcome == Delivered <==> attempts > 0 && 200 <= response(attempts - 1) < 300
    ensures outcome == Rejected <==>
      attempts > 0 && 400 <= response(attempts - 1) < 500 && response(attempts - 1) !in {408, 429}
    ensures outcome == GivenUp ==> attempts == maxRetries
  {
    var retry := 0;
    while retry < maxRetries
      invariant retry <= maxRetries
      invariant forall k: nat | k < retry :: !IsSuccess(response(k)) && !IsFatal(response(k))
    {
      var code := response(retry);
      if IsSuccess(code) {
        return Delivered, retry + 1;
      }
      if IsFatal(code) {
        return Rejected, retry + 1;
      }
      retry := retry + 1;
    }
    return GivenUp, retry;
  }
}
