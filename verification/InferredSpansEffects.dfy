/**
 What one capture does, told by frames, classes and sample ids alone: which frames it looks at,
 which of them keep their spans, which spans are dropped, and where new spans stand.
 */
module InferredSpansEffects {
  import opened Common
  import opened InferredSpans
  import opened InferredSpansRuns

  // The frames that a capture looks at ------------------------------------------------

  lemma {:induction false} BelowApmIs(stack: seq<Frame>)
    ensures
      var r := BelowApmFrames(stack);
      && r == stack[|stack| - |r|..]
      && (forall f | f in r ::
            f.cls.None? || !("OpenTelemetry\\" <= f.cls.value || "Elastic\\" <= f.cls.value))
      && (|r| < |stack| ==>
            var f := stack[|stack| - |r| - 1];
            f.cls.Some? && ("OpenTelemetry\\" <= f.cls.value || "Elastic\\" <= f.cls.value))
  {
    if stack != [] {
      BelowApmIs(stack[1..]);
      assert stack == [stack[0]] + stack[1..];
    }
  }

  /** The two topmost frames are left out, and of the others everything down to the lowest frame
      of a class under OpenTelemetry\ or Elastic\. */
  lemma CaptureLooksAt(trace: seq<Frame>)
    ensures
      var r := Prepared(trace);
      && (|r| + 2 <= |trace| || r == [])
      && r == trace[|trace| - |r|..]
      && (forall f | f in r ::
            f.cls.None? || !("OpenTelemetry\\" <= f.cls.value || "Elastic\\" <= f.cls.value))
      && (|r| + 2 < |trace| ==>
            var f := trace[|trace| - |r| - 1];
            f.cls.Some? && ("OpenTelemetry\\" <= f.cls.value || "Elastic\\" <= f.cls.value))
  {
    var stack := if |trace| < 2 then [] else trace[2..];
    BelowApmIs(stack);
  }

  // The frames that keep their spans ---------------------------------------------------

  /** Frames that agree all the way from the bottom are all kept, with their spans. */
  lemma AgreeingFramesAreKept(
    s: State, stack: seq<Frame>, internal: bool, reduce: bool, canReparent: SpanId -> bool, same: nat, s': State, k: nat)
    requires Compared(s, stack, internal, reduce, canReparent, same, s')
    requires k <= |stack| && k <= |s.last|
    requires
      var low, lowest := s.last[|s.last| - k..], stack[|stack| - k..];
      forall i | 0 <= i < k :: low[i].frame == lowest[i]
    ensures k <= same && k <= |s'.last|
    ensures s'.last[|s'.last| - k..] == s.last[|s.last| - k..]
    ensures forall i | |s.last| - k <= i < |s.last| :: s'.otel.spans[s.last[i].span] == s.otel.spans[s.last[i].span]
  {
    var low, lowest := s.last[|s.last| - k..], stack[|stack| - k..];
    forall n | 1 <= n <= k
      ensures SameFromBottom(stack, s.last, n)
    {
      assert low[k - n].frame == lowest[k - n];
    }
    assert IdenticalFromBottom(stack, s.last, k);
    ProjectsToStack(s, stack, internal, reduce, canReparent, same, s');
    var kept := s.last[|s.last| - same..];
    assert s'.last[|s'.last| - k..] == kept[same - k..] == s.last[|s.last| - k..];
    forall i | |s.last| - k <= i < |s.last|
      ensures s'.otel.spans[s.last[i].span] == s.otel.spans[s.last[i].span]
    {
      KeptSpanIsUntouched(s, stack, internal, reduce, canReparent, same, s', i);
    }
  }

  lemma KeptSpanIsUntouched(
    s: State, stack: seq<Frame>, internal: bool, reduce: bool, canReparent: SpanId -> bool, same: nat, s': State, i: nat)
    requires Compared(s, stack, internal, reduce, canReparent, same, s')
    requires |s.last| - same <= i < |s.last|
    ensures s'.otel.spans[s.last[i].span] == s.otel.spans[s.last[i].span]
  {
    var after := s'.otel.spans[..|s.otel.spans|];
    EndFrame(s, |s.last| - same, reduce, canReparent, after, i);
    assert after[s.last[i].span] == s'.otel.spans[s.last[i].span];
  }

  lemma NothingToDo(
    s: State, stack: seq<Frame>, internal: bool, reduce: bool, canReparent: SpanId -> bool, s': State)
    requires |stack| == |s.last| && Compared(s, stack, internal, reduce, canReparent, |stack|, s')
    ensures s' == s.(sample := s.sample + 1)
  {
    assert stack[..0] == [];
    assert forall p | 0 <= p < |s.otel.spans| :: !IsEnded(s.last, 0, p);
    assert s'.otel.spans == s.otel.spans;
  }

  lemma RepeatedFrames(
    s: State, stack: seq<Frame>, internal: bool, reduce: bool, canReparent: SpanId -> bool, same: nat, s': State)
    requires Compared(s, stack, internal, reduce, canReparent, same, s')
    requires |stack| == |s.last| && forall i | 0 <= i < |s.last| :: s.last[i].frame == stack[i]
    ensures s' == s.(sample := s.sample + 1)
  {
    assert s.last[0..] == s.last && stack[0..] == stack;
    AgreeingFramesAreKept(s, stack, internal, reduce, canReparent, same, s', |s.last|);
    NothingToDo(s, stack, internal, reduce, canReparent, s');
  }

  /** A capture of the stack that is already tracked ends nothing, starts nothing and changes no
      span; only the sample id moves on. */
  lemma RepeatedStackChangesNothing(
    s: State, trace: seq<Frame>, internal: bool, reduce: bool, canReparent: SpanId -> bool, s': State)
    requires !s.down && Stepped(s, Capture(trace, internal), reduce, canReparent, s')
    requires |Prepared(trace)| == |s.last|
    requires forall i | 0 <= i < |s.last| :: s.last[i].frame == Prepared(trace)[i]
    ensures s' == s.(sample := s.sample + 1)
  {
    var same: nat :| Compared(s, Prepared(trace), internal, reduce, canReparent, same, s');
    RepeatedFrames(s, Prepared(trace), internal, reduce, canReparent, same, s');
  }

  // The spans that end -------------------------------------------------------------------

  /** Frame t is the topmost of the tracked frames that the sample of frame i started. */
  predicate IsTopOf(last: seq<Tracked>, t: nat, i: nat)
    requires i < |last|
  {
    t <= i && (forall j | t <= j <= i :: last[j].sample == last[i].sample)
    && (t > 0 ==> last[t - 1].sample != last[i].sample)
  }

  lemma {:induction false} RunTopIsTop(last: seq<Tracked>, i: nat)
    requires i < |last|
    ensures IsTopOf(last, RunTop(last, i), i) && (RunStart(last, i) <==> RunTop(last, i) == i)
  {
    if !RunStart(last, i) { RunTopIsTop(last, i - 1); }
  }

  lemma EndedStatus(
    last: seq<Tracked>, cut: nat, reduce: bool, canReparent: SpanId -> bool, spans: seq<Span>, i: nat, t: nat)
    requires i < cut <= |last| && (forall k | 0 <= k < |last| :: last[k].span < |spans|)
    requires IsTopOf(last, t, i)
    ensures Ended(last, cut, reduce, canReparent, spans, i).status
         == if reduce && t < i && canReparent(last[t].span) then Dropped else Finished
  {
    RunTopIsTop(last, i);
    assert last[RunTop(last, i)].sample == last[i].sample;
    assert RunTop(last, i) == t;
  }

  /** A tracked frame that is gone from the new stack is dropped exactly when span reduction is on,
      the sample that started it started a frame further up too, and the topmost frame of that
      sample could be re-parented; otherwise its span is finished. */
  lemma DroppedIff(
    s: State, stack: seq<Frame>, internal: bool, reduce: bool, canReparent: SpanId -> bool, same: nat, s': State,
    i: nat, t: nat)
    requires Valid(s) && Compared(s, stack, internal, reduce, canReparent, same, s')
    requires i < |s.last| - same
    requires t <= i && (forall j | t <= j <= i :: s.last[j].sample == s.last[i].sample)
    requires t > 0 ==> s.last[t - 1].sample != s.last[i].sample
    ensures s'.otel.spans[s.last[i].span].status
         == if reduce && t < i && canReparent(s.last[t].span) then Dropped else Finished
  {
    var after := s'.otel.spans[..|s.otel.spans|];
    EndedStatus(s.last, |s.last| - same, reduce, canReparent, s.otel.spans, i, t);
    assert after[s.last[i].span] == Ended(s.last, |s.last| - same, reduce, canReparent, s.otel.spans, i);
  }

  lemma OnlyHeir(
    s: State, cut: nat, reduce: bool, canReparent: SpanId -> bool, after: seq<Span>, i: nat, m: nat)
    requires Valid(s) && i <= m < cut <= |s.last|
    requires EndedTogether(s.last, cut, reduce, canReparent, s.otel.spans, after)
    requires after[s.last[i].span].status != Dropped
    requires forall k | i < k <= m :: after[s.last[k].span].status == Dropped
    requires m + 1 < |s.last| ==> after[s.last[m + 1].span].status != Dropped
    ensures after[s.last[i].span].parent == Below(s.last, m)
  {
    var h := Heir(s.last, cut, reduce, canReparent, i);
    NearestKeptAncestor(s, cut, reduce, canReparent, after, i, h);
    if h < m || m < h { assert false; }
  }

  lemma ParentInEnded(
    s: State, cut: nat, reduce: bool, canReparent: SpanId -> bool, after: seq<Span>, spans: seq<Span>, i: nat, m: nat)
    requires Valid(s) && i <= m < cut <= |s.last| && after <= spans
    requires EndedTogether(s.last, cut, reduce, canReparent, s.otel.spans, after)
    requires spans[s.last[i].span].status != Dropped
    requires forall k | i < k <= m :: spans[s.last[k].span].status == Dropped
    requires m + 1 < |s.last| ==> spans[s.last[m + 1].span].status != Dropped
    ensures spans[s.last[i].span].parent == Below(s.last, m)
  {
    forall k | i < k <= m
      ensures after[s.last[k].span].status == Dropped
    {
      assert after[s.last[k].span] == spans[s.last[k].span];
    }
    OnlyHeir(s, cut, reduce, canReparent, after, i, m);
  }

  /** The parent of a gone frame that is not dropped: the frame below it, or, when frames right below
      it are dropped, the frame below those. */
  lemma FinalParent(
    s: State, stack: seq<Frame>, internal: bool, reduce: bool, canReparent: SpanId -> bool, same: nat, s': State,
    i: nat, m: nat)
    requires Valid(s) && Compared(s, stack, internal, reduce, canReparent, same, s')
    requires i <= m < |s.last| - same && s'.otel.spans[s.last[i].span].status != Dropped
    requires forall k | i < k <= m :: s'.otel.spans[s.last[k].span].status == Dropped
    requires m + 1 < |s.last| ==> s'.otel.spans[s.last[m + 1].span].status != Dropped
    ensures s'.otel.spans[s.last[i].span].parent == if m + 1 < |s.last| then Some(s.last[m + 1].span) else None
  {
    ParentInEnded(s, |s.last| - same, reduce, canReparent, s'.otel.spans[..|s.otel.spans|], s'.otel.spans, i, m);
  }

  // The spans that start ------------------------------------------------------------------

  lemma {:induction false} StartedFrame(s: State, frames: seq<Frame>, i: nat)
    requires i < |frames|
    ensures
      var t := StartFrames(s, frames).last[i];
      t.frame == frames[i] && t.sample == s.sample && t.span >= |s.otel.spans|
    ensures StartFrames(s, frames).sample == s.sample
  {
    if i > 0 {
      StartedFrame(s, frames[1..], i - 1);
    } else if |frames| > 1 {
      StartedFrame(s, frames[1..], 0);
    } else {
      assert frames[1..] == [];
    }
  }

  lemma TrackedAfter(
    s: State, stack: seq<Frame>, internal: bool, reduce: bool, canReparent: SpanId -> bool, same: nat, s': State)
    requires Compared(s, stack, internal, reduce, canReparent, same, s')
    ensures s'.sample == s.sample + 1 && same <= |s'.last|
    ensures
      var mid := AfterEnding(s, |s.last| - same, s'.otel.spans[..|s.otel.spans|]);
      var grown := StartFrames(mid, stack[..|stack| - same]);
      s'.last == if internal && same < |stack| then grown.last[1..] else grown.last
  {
    var mid := AfterEnding(s, |s.last| - same, s'.otel.spans[..|s.otel.spans|]);
    var frames := stack[..|stack| - same];
    if frames != [] { StartedFrame(mid, frames, 0); }
  }

  lemma NewFrame(
    s: State, stack: seq<Frame>, internal: bool, reduce: bool, canReparent: SpanId -> bool, same: nat, s': State, i: nat)
    requires Compared(s, stack, internal, reduce, canReparent, same, s') && same + i < |s'.last|
    ensures s'.last[i].sample == s.sample + 1 && |s.otel.spans| <= s'.last[i].span
  {
    TrackedAfter(s, stack, internal, reduce, canReparent, same, s');
    var mid := AfterEnding(s, |s.last| - same, s'.otel.spans[..|s.otel.spans|]);
    StartedFrame(mid, stack[..|stack| - same], if internal && same < |stack| then i + 1 else i);
  }

  /** Every frame that is new gets a new open span under that of the frame below it, and one new
      sample id, greater than those of all the frames that were tracked before. */
  lemma NewFrames(
    s: State, stack: seq<Frame>, internal: bool, reduce: bool, canReparent: SpanId -> bool, same: nat, s': State, i: nat)
    requires Valid(s) && Compared(s, stack, internal, reduce, canReparent, same, s') && same + i < |s'.last|
    ensures s'.last[i].sample == s'.sample && forall j | 0 <= j < |s.last| :: s.last[j].sample < s'.last[i].sample
    ensures |s.otel.spans| <= s'.last[i].span < |s'.otel.spans|
    ensures s'.otel.spans[s'.last[i].span]
         == Span(if i + 1 < |s'.last| then Some(s'.last[i + 1].span) else None, Open)
  {
    NewFrame(s, stack, internal, reduce, canReparent, same, s', i);
    TrackedAfter(s, stack, internal, reduce, canReparent, same, s');
    ComparedPreserves(s, stack, internal, reduce, canReparent, same, s');
    TrackedSpan(s', i);
  }

  lemma TrackedSpan(s: State, i: nat)
    requires Valid(s) && i < |s.last|
    ensures s.otel.spans[s.last[i].span] == Span(if i + 1 < |s.last| then Some(s.last[i + 1].span) else None, Open)
  {
    assert s.otel.spans[s.last[i].span].parent == Below(s.last, i);
  }

  lemma GrownTop(
    s: State, stack: seq<Frame>, reduce: bool, canReparent: SpanId -> bool, same: nat, after: seq<Span>, grown: State)
    requires Valid(s) && same < |stack| && same <= |s.last|
    requires EndedTogether(s.last, |s.last| - same, reduce, canReparent, s.otel.spans, after)
    requires grown == StartFrames(AfterEnding(s, |s.last| - same, after), stack[..|stack| - same])
    ensures Valid(grown) && grown.last != [] && grown.last[0].span == |grown.otel.spans| - 1
    ensures |grown.otel.spans| == |s.otel.spans| + |stack| - same
    ensures grown.otel.spans[grown.last[0].span] == Span(Below(grown.last, 0), Open)
  {
    var cut := |s.last| - same;
    EndPreserves(s, cut, reduce, canReparent, after);
    StartAllPreserves(AfterEnding(s, cut, after), stack[..|stack| - same]);
  }

  /** A new internal top frame has already returned: its span, the newest one, is finished at once,
      under that of the frame below it. */
  lemma InternalTopIsFinished(
    s: State, stack: seq<Frame>, reduce: bool, canReparent: SpanId -> bool, same: nat, s': State)
    requires Valid(s) && Compared(s, stack, true, reduce, canReparent, same, s') && same < |stack|
    ensures |s'.otel.spans| == |s.otel.spans| + |stack| - same
    ensures s'.otel.spans[|s'.otel.spans| - 1]
         == Span(if s'.last == [] then None else Some(s'.last[0].span), Finished)
  {
    var after := s'.otel.spans[..|s.otel.spans|];
    var grown := StartFrames(AfterEnding(s, |s.last| - same, after), stack[..|stack| - same]);
    GrownTop(s, stack, reduce, canReparent, same, after, grown);
    assert s' == FinishTop(grown);
  }

  /** Runs begin with the state that the constructor leaves and go on with any capture or shutdown. */
  lemma RunsGoOn(
    states: seq<State>, calls: seq<Call>, reduce: bool, canReparent: SpanId -> bool, call: Call, s': State)
    ensures Run([State([], 0, Otel([], []), false)], [], reduce, canReparent)
    ensures Run(states, calls, reduce, canReparent) && Stepped(states[|calls|], call, reduce, canReparent, s') ==>
              Run(states + [s'], calls + [call], reduce, canReparent)
  {
    if Run(states, calls, reduce, canReparent) && Stepped(states[|calls|], call, reduce, canReparent, s') {
      var states', calls' := states + [s'], calls + [call];
      forall i | 0 <= i < |calls'|
        ensures StepAt(states', calls', reduce, canReparent, i)
      {
        if i < |calls| { assert StepAt(states, calls, reduce, canReparent, i); }
      }
    }
  }

  // After the shutdown ---------------------------------------------------------------------

  /** Once shut down, a run starts no span any more and changes none, and a capture changes nothing at all. */
  lemma {:induction false} NothingAfterShutdown(
    states: seq<State>, calls: seq<Call>, reduce: bool, canReparent: SpanId -> bool, i: nat, k: nat)
    requires Run(states, calls, reduce, canReparent) && i < k < |states| && calls[i] == Shutdown
    ensures states[k].down && states[k].last == [] && states[k].otel == states[i + 1].otel
    ensures k > i + 1 && calls[k - 1].Capture? ==> states[k] == states[k - 1]
  {
    if k == i + 1 {
      ShutdownLeavesNothingOpen(states, calls, reduce, canReparent, i);
    } else {
      NothingAfterShutdown(states, calls, reduce, canReparent, i, k - 1);
      var s, s' := states[k - 1], states[k];
      assert StepAt(states, calls, reduce, canReparent, k - 1);
      if calls[k - 1] == Shutdown {
        var same: nat :| Compared(s.(down := true), [], false, reduce, canReparent, same, s');
        NothingToDo(s.(down := true), [], false, reduce, canReparent, s');
      }
    }
  }
}
