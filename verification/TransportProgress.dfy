/**
 What the steps of the transport achieve, told by the queue and the histories alone: which
 payloads are taken in, when the worker hands one to the sender, and that it can always get
 through the whole queue.
 */
module TransportProgress {
  import opened Transport

  /** A payload is taken in exactly when it fits beside the queued and the discarded bytes,
      whatever the worker is doing; it then stands last, and nothing else changes. */
  lemma EnqueueTakesWhatFits(t: Transport, size: nat, limit: nat, id: nat)
    requires Inv(t)
    ensures Enabled(t, Enqueue(size, limit)) <==> t.owner != ForkedChild && t.owner != Destroyed
    ensures Enabled(t, Enqueue(size, limit)) ==>
      Next(t, Enqueue(size, limit), id)
        == if Bytes(t.queue) + t.discarded + size > limit then t
           else t.(queue := t.queue + [Payload(id, size)], accepted := t.accepted + [Payload(id, size)],
                   usage := t.usage + size)
  {
  }

  /** In a run of one process: whatever fits is accepted and queued behind what was there. */
  lemma {:induction false} RunTakesWhatFits(ts: seq<Transport>, es: seq<Event>, ids: seq<nat>, k: nat)
    requires LocalRun(ts, es, ids) && Inv(ts[0]) && k < |es| && es[k].Enqueue?
    ensures
      var t, u, p := ts[k], ts[k + 1], Payload(ids[k], es[k].size);
      if Bytes(t.queue) + t.discarded + es[k].size <= es[k].limit then
        u.queue == t.queue + [p] && u.accepted == t.accepted + [p] && u.attempted == t.attempted && u.worker == t.worker
      else u == t
  {
    RunKeepsInv(ts, es, ids, k);
    assert Enabled(ts[k], es[k]);
    EnqueueTakesWhatFits(ts[k], es[k].size, es[k].limit, ids[k]);
  }

  lemma {:induction false} RunKeepsInv(ts: seq<Transport>, es: seq<Event>, ids: seq<nat>, k: nat)
    requires LocalRun(ts, es, ids) && Inv(ts[0]) && k < |ts|
    ensures Inv(ts[k])
  {
    if k > 0 {
      RunKeepsInv(ts, es, ids, k - 1);
      StepPreserves(ts[k - 1], es[k - 1], ids[k - 1]);
    }
  }

  // The worker --------------------------------------------------------------------------

  /** A started thread can always enter, a send can always end, and a waiting worker can wake as
      soon as something is queued or it is asked to stop. */
  lemma WorkerCanMove(t: Transport, timeout: bool)
    ensures Enabled(t, Enter) <==> t.worker == Starting
    ensures Enabled(t, Sent(timeout)) <==> t.worker.Sending?
    ensures Enabled(t, Wake) <==> t.worker == Waiting && (t.queue != [] || !t.working)
  {
  }

  /** While the transport works, every step of the worker with something queued hands the front
      payload to the sender; with nothing queued the worker goes to wait. */
  lemma WorkingWorkerTakesFront(t: Transport, e: Event, id: nat)
    requires Inv(t) && t.working && Enabled(t, e) && (e == Enter || e == Wake || e.Sent?)
    ensures
      var u := Next(t, e, id);
      && u.attempted + u.queue == t.attempted + t.queue && u.accepted == t.accepted
      && (if t.queue == [] then |u.attempted| == |t.attempted| && u.worker == Waiting
          else |u.attempted| == |t.attempted| + 1 && u.worker == Sending(t.queue[0]))
  {
    if t.queue != [] { assert t.queue == [t.queue[0]] + t.queue[1..]; }
  }

  /** While the destructor waits, the worker goes on in this way, but exits when nothing is queued,
      when the shutdown timeout has passed after a send, and when it has only just been started. */
  lemma FlushingWorkerTakesFront(t: Transport, e: Event, id: nat)
    requires Inv(t) && t.owner == Destroying && Enabled(t, e) && (e == Enter || e == Wake || e.Sent?)
    ensures
      var u := Next(t, e, id);
      && u.attempted + u.queue == t.attempted + t.queue && u.accepted == t.accepted
      && (if t.queue == [] || e == Enter || e == Sent(true) then |u.attempted| == |t.attempted| && u.worker.Exited?
          else |u.attempted| == |t.attempted| + 1 && u.worker == Sending(t.queue[0]))
  {
    if t.queue != [] { assert t.queue == [t.queue[0]] + t.queue[1..]; }
  }

  /** Before a fork a waiting worker exits at once and leaves the queue to the parent; one that is
      sending first gets through the queue. */
  lemma ForkingWorkerTakesFront(t: Transport, e: Event, id: nat)
    requires Inv(t) && t.owner == Stopping && Enabled(t, e) && (e == Enter || e == Wake || e.Sent?)
    ensures
      var u := Next(t, e, id);
      && u.attempted + u.queue == t.attempted + t.queue && u.accepted == t.accepted
      && (if t.queue == [] || !e.Sent? then |u.attempted| == |t.attempted| && u.worker.Exited?
          else |u.attempted| == |t.attempted| + 1 && u.worker == Sending(t.queue[0]))
  {
    if t.queue != [] { assert t.queue == [t.queue[0]] + t.queue[1..]; }
  }

  /** The owning thread starts, stops and joins the worker; it never touches what is queued,
      except for the child of a fork, which empties its queue. */
  lemma OwnerStepsKeepQueue(t: Transport, e: Event, id: nat)
    requires Inv(t) && Enabled(t, e) && !(e.Enqueue? || e == Enter || e == Wake || e.Sent?)
    ensures
      var u := Next(t, e, id);
      && u.accepted == t.accepted && u.attempted == t.attempted && u.usage == t.usage
      && u.queue == (if t.owner == ForkedChild then [] else t.queue)
      && u.worker == (if e == Join then NoThread
                      else if (e == StartThread || e == Postfork) && t.worker == NoThread then Starting
                      else t.worker)
  {
  }

  /** What the owning thread can do: start and fork and destroy when idle, and then only go on with
      what it has begun, joining a worker only when there is none or it has exited. */
  lemma OwnerCanMove(t: Transport)
    ensures Enabled(t, StartThread) <==> t.owner == Idle
    ensures Enabled(t, Prefork) <==> t.owner == Idle
    ensures Enabled(t, Destroy) <==> t.owner == Idle
    ensures Enabled(t, ClearWorking) <==> t.owner == ForceSet
    ensures Enabled(t, Postfork) <==> t.owner in {ForkedParent, ForkedChild}
    ensures Enabled(t, Join) <==> t.owner in {Stopping, Destroying} && (t.worker == NoThread || t.worker.Exited?)
  {
  }

  // Draining ---------------------------------------------------------------------------------

  lemma OneStepFirst(t: Transport, e: Event, ts: seq<Transport>, es: seq<Event>, ids: seq<nat>, id: nat)
    requires Enabled(t, e) && (e == Wake || e == Sent(false))
    requires LocalRun(ts, es, ids) && ts[0] == Next(t, e, id) && forall e | e in es :: e == Wake || e == Sent(false)
    ensures LocalRun([t] + ts, [e] + es, [id] + ids) && forall f | f in [e] + es :: f == Wake || f == Sent(false)
  {
    var ts', es', ids' := [t] + ts, [e] + es, [id] + ids;
    forall k {:trigger es'[k]} | 0 <= k < |es'|
      ensures Enabled(ts'[k], es'[k]) && ts'[k + 1] == Next(ts'[k], es'[k], ids'[k])
    {
      if k > 0 { assert es'[k] == es[k - 1]; }
    }
  }

  /** By steps of its own and before any shutdown timeout, a worker that has entered its loop can get
      through the whole queue of a working transport, in order, and then waits for more. */
  lemma {:induction false} WorkerDrains(t: Transport, id: nat) returns (ts: seq<Transport>, es: seq<Event>, ids: seq<nat>)
    requires Inv(t) && t.owner == Idle && (t.worker == Waiting || t.worker.Sending?)
    ensures LocalRun(ts, es, ids) && ts[0] == t && forall e | e in es :: e == Wake || e == Sent(false)
    ensures
      var end := ts[|es|];
      && end.queue == [] && end.attempted == end.accepted == t.accepted
      && end.worker == Waiting && end.owner == Idle
    decreases |t.queue|
  {
    if t.queue == [] && t.worker == Waiting {
      ts, es, ids := [t], [], [];
    } else {
      var e := if t.worker == Waiting then Wake else Sent(false);
      StepPreserves(t, e, id);
      var u := Next(t, e, id);
      WorkingWorkerTakesFront(t, e, id);
      if t.queue == [] {
        ts, es, ids := [u], [], [];
      } else {
        ts, es, ids := WorkerDrains(u, id);
      }
      OneStepFirst(t, e, ts, es, ids, id);
      ts, es, ids := [t] + ts, [e] + es, [id] + ids;
    }
  }

  /** So can the worker of a transport that is being destroyed; it then exits. */
  lemma {:induction false} DestructorDrains(t: Transport, id: nat) returns (ts: seq<Transport>, es: seq<Event>, ids: seq<nat>)
    requires Inv(t) && t.owner == Destroying && (t.worker == Waiting || t.worker.Sending?)
    ensures LocalRun(ts, es, ids) && ts[0] == t && forall e | e in es :: e == Wake || e == Sent(false)
    ensures
      var end := ts[|es|];
      && end.queue == [] && end.attempted == end.accepted == t.accepted
      && end.worker.Exited? && end.owner == Destroying
    decreases |t.queue|
  {
    var e := if t.worker == Waiting then Wake else Sent(false);
    StepPreserves(t, e, id);
    var u := Next(t, e, id);
    FlushingWorkerTakesFront(t, e, id);
    if t.queue == [] {
      ts, es, ids := [u], [], [];
    } else {
      ts, es, ids := DestructorDrains(u, id);
    }
    OneStepFirst(t, e, ts, es, ids, id);
    ts, es, ids := [t] + ts, [e] + es, [id] + ids;
  }
}
