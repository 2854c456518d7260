/**
 Whole runs of the stack differ, from the constructor over captures to the shutdown: what the
 invariant of `InferredSpans` means for the spans that are exported.
 */
module InferredSpansRuns {
  import opened InferredSpans

  // ---------------------------------------------------------------------------
  // Whole runs
  // ---------------------------------------------------------------------------

  const FRAMES_TO_SKIP := 2

  datatype Call = Capture(trace: seq<Frame>, internal: bool) | Shutdown

  predicate HasPrefix(prefix: string, text: string) {
    |prefix| <= |text| && text[..|prefix|] == prefix
  }

  /** A frame of the instrumentation itself. */
  predicate IsApmFrame(frame: Frame) {
    frame.cls.Some? && (HasPrefix("OpenTelemetry\\", frame.cls.value) || HasPrefix("Elastic\\", frame.cls.value))
  }

  /** Everything below the lowest frame of the instrumentation. */
  function BelowApmFrames(stack: seq<Frame>): (r: seq<Frame>)
    ensures |r| <= |stack|
  {
    if stack == [] then []
    else
      var rest := BelowApmFrames(stack[1..]);
      if |rest| == |stack| - 1 && !IsApmFrame(stack[0]) then stack else rest
  }

  function Prepared(trace: seq<Frame>): seq<Frame> {
    BelowApmFrames(if |trace| < FRAMES_TO_SKIP then [] else trace[FRAMES_TO_SKIP..])
  }

  ghost predicate Stepped(s: State, call: Call, reduce: bool, canReparent: SpanId -> bool, s': State) {
    match call
    case Capture(trace, internal) =>
      if s.down then s' == s
      else exists same: nat :: Compared(s, Prepared(trace), internal, reduce, canReparent, same, s')
    case Shutdown =>
      exists same: nat :: Compared(s.(down := true), [], false, reduce, canReparent, same, s')
  }

  ghost predicate StepAt(states: seq<State>, calls: seq<Call>, reduce: bool, canReparent: SpanId -> bool, i: nat)
    requires i < |calls| < |states|
  {
    Stepped(states[i], calls[i], reduce, canReparent, states[i + 1])
  }

  ghost predicate Run(states: seq<State>, calls: seq<Call>, reduce: bool, canReparent: SpanId -> bool) {
    && |states| == |calls| + 1
    && IsInitial(states[0])
    && forall i {:trigger StepAt(states, calls, reduce, canReparent, i)} | 0 <= i < |calls| ::
         StepAt(states, calls, reduce, canReparent, i)
  }

  lemma ComparedPreserves(
    s: State, stack: seq<Frame>, internal: bool, reduce: bool, canReparent: SpanId -> bool, same: nat, s': State)
    requires Valid(s) && Compared(s, stack, internal, reduce, canReparent, same, s')
    ensures Valid(s')
  {
    var cut := |s.last| - same;
    var after := s'.otel.spans[..|s.otel.spans|];
    var mid := AfterEnding(s, cut, after);
    EndPreserves(s, cut, reduce, canReparent, after);
    StartAllPreserves(mid, stack[..|stack| - same]);
    if internal && same < |stack| {
      FinishTopPreserves(StartFrames(mid, stack[..|stack| - same]));
    }
  }

  lemma StepPreserves(s: State, call: Call, reduce: bool, canReparent: SpanId -> bool, s': State)
    requires Valid(s) && Stepped(s, call, reduce, canReparent, s')
    ensures Valid(s')
  {
    match call
    case Capture(trace, internal) =>
      if !s.down {
        var same: nat :| Compared(s, Prepared(trace), internal, reduce, canReparent, same, s');
        ComparedPreserves(s, Prepared(trace), internal, reduce, canReparent, same, s');
      }
    case Shutdown =>
      var same: nat :| Compared(s.(down := true), [], false, reduce, canReparent, same, s');
      ComparedPreserves(s.(down := true), [], false, reduce, canReparent, same, s');
  }

  lemma {:induction false} RunIsValid(
    states: seq<State>, calls: seq<Call>, reduce: bool, canReparent: SpanId -> bool, i: nat)
    requires Run(states, calls, reduce, canReparent) && i < |states|
    ensures Valid(states[i])
  {
    if i > 0 {
      RunIsValid(states, calls, reduce, canReparent, i - 1);
      assert StepAt(states, calls, reduce, canReparent, i - 1);
      StepPreserves(states[i - 1], calls[i - 1], reduce, canReparent, states[i]);
    }
  }

  lemma ClosedIsUntouched(
    s: State, stack: seq<Frame>, internal: bool, reduce: bool, canReparent: SpanId -> bool, same: nat, s': State,
    p: SpanId)
    requires Valid(s) && p < |s.otel.spans| && s.otel.spans[p].status != Open
    requires Compared(s, stack, internal, reduce, canReparent, same, s')
    ensures p < |s'.otel.spans| && s'.otel.spans[p] == s.otel.spans[p]
  {
    var after := s'.otel.spans[..|s.otel.spans|];
    assert !IsEnded(s.last, |s.last| - same, p);
    assert after[p] == s'.otel.spans[p];
  }

  /** A closed span is never touched again: its parent is final. */
  lemma ClosedIsFinal(s: State, call: Call, reduce: bool, canReparent: SpanId -> bool, s': State, p: SpanId)
    requires Valid(s) && Stepped(s, call, reduce, canReparent, s')
    requires p < |s.otel.spans| && s.otel.spans[p].status != Open
    ensures p < |s'.otel.spans| && s'.otel.spans[p] == s.otel.spans[p]
  {
    match call
    case Capture(trace, internal) =>
      if !s.down {
        var same: nat :| Compared(s, Prepared(trace), internal, reduce, canReparent, same, s');
        ClosedIsUntouched(s, Prepared(trace), internal, reduce, canReparent, same, s', p);
      }
    case Shutdown =>
      var same: nat :| Compared(s.(down := true), [], false, reduce, canReparent, same, s');
      ClosedIsUntouched(s.(down := true), [], false, reduce, canReparent, same, s', p);
  }

  lemma ShutdownEndsAll(s: State, reduce: bool, canReparent: SpanId -> bool, s': State)
    requires Valid(s) && Stepped(s, Shutdown, reduce, canReparent, s')
    ensures s'.last == [] && s'.otel.scopes == [] && s'.down
  {
    var same: nat :| Compared(s.(down := true), [], false, reduce, canReparent, same, s');
  }

  lemma ShutdownLeavesNothingOpen(
    states: seq<State>, calls: seq<Call>, reduce: bool, canReparent: SpanId -> bool, i: nat)
    requires Run(states, calls, reduce, canReparent) && i < |calls| && calls[i] == Shutdown
    ensures states[i + 1].last == [] && states[i + 1].down
    ensures
      var spans := states[i + 1].otel.spans;
      forall p | 0 <= p < |spans| :: spans[p].status != Open
  {
    RunIsValid(states, calls, reduce, canReparent, i);
    RunIsValid(states, calls, reduce, canReparent, i + 1);
    assert StepAt(states, calls, reduce, canReparent, i);
    ShutdownEndsAll(states[i], reduce, canReparent, states[i + 1]);
  }

  /** The main result: over every run, whatever re-parenting attempts fail, no finished
      span points at a dropped one; and once the run is shut down the finished spans
      are closed under their final parents. */
  lemma NoFinishedSpanPointsAtDropped(
    states: seq<State>, calls: seq<Call>, reduce: bool, canReparent: SpanId -> bool, i: nat, spans: seq<Span>, p: SpanId)
    requires Run(states, calls, reduce, canReparent) && i < |states| && spans == states[i].otel.spans
    requires p < |spans| && spans[p].status == Finished && spans[p].parent.Some?
    ensures spans[p].parent.value < p && spans[spans[p].parent.value].status != Dropped
    ensures i > 0 && calls[i - 1] == Shutdown ==> spans[spans[p].parent.value].status == Finished
  {
    RunIsValid(states, calls, reduce, canReparent, i);
    assert KeptPointsAtKept(spans, p);
    if i > 0 && calls[i - 1] == Shutdown {
      ShutdownLeavesNothingOpen(states, calls, reduce, canReparent, i - 1);
    }
  }

  // Projection ------------------------------------------------------------------

  function Frames(last: seq<Tracked>): seq<Frame> {
    seq(|last|, i requires 0 <= i < |last| => last[i].frame)
  }

  lemma {:induction false} StartedFrames(s: State, frames: seq<Frame>)
    ensures Frames(StartFrames(s, frames).last) == frames + Frames(s.last)
  {
    if frames != [] {
      StartedFrames(s, frames[1..]);
      assert Frames(StartFrames(s, frames).last) == [frames[0]] + Frames(StartFrames(s, frames[1..]).last);
    } else {
      assert frames + Frames(s.last) == Frames(s.last);
    }
  }

  lemma LowestFramesAgree(stack: seq<Frame>, last: seq<Tracked>, same: nat)
    requires IdenticalFromBottom(stack, last, same)
    ensures Frames(last[|last| - same..]) == stack[|stack| - same..]
  {
    var kept, low := Frames(last[|last| - same..]), stack[|stack| - same..];
    forall k | 0 <= k < same
      ensures kept[k] == low[k]
    {
      assert SameFromBottom(stack, last, same - k);
    }
  }

  lemma GrownFrames(s: State, stack: seq<Frame>, same: nat, after: seq<Span>, grown: State)
    requires IdenticalFromBottom(stack, s.last, same) && |s.otel.scopes| == |s.last|
    requires grown == StartFrames(AfterEnding(s, |s.last| - same, after), stack[..|stack| - same])
    ensures Frames(grown.last) == stack
    ensures grown.last[|stack| - same..] == s.last[|s.last| - same..]
  {
    var mid := AfterEnding(s, |s.last| - same, after);
    StartedFrames(mid, stack[..|stack| - same]);
    KeepsLowest(mid, stack[..|stack| - same]);
    LowestFramesAgree(stack, s.last, same);
    assert stack[..|stack| - same] + stack[|stack| - same..] == stack;
  }

  lemma FramesTail(last: seq<Tracked>)
    requires last != []
    ensures Frames(last[1..]) == Frames(last)[1..]
  {
  }

  /** After a comparison the tracked frames are the new stack, without its top frame
      exactly when that frame was newly started and is internal; the shared lowest
      frames keep their spans. */
  lemma ProjectsToStack(
    s: State, stack: seq<Frame>, internal: bool, reduce: bool, canReparent: SpanId -> bool, same: nat, s': State)
    requires Compared(s, stack, internal, reduce, canReparent, same, s')
    ensures Frames(s'.last) == if internal && same < |stack| then stack[1..] else stack
    ensures same <= |s'.last| && s'.last[|s'.last| - same..] == s.last[|s.last| - same..]
  {
    var after := s'.otel.spans[..|s.otel.spans|];
    var grown := StartFrames(AfterEnding(s, |s.last| - same, after), stack[..|stack| - same]);
    GrownFrames(s, stack, same, after, grown);
    if internal && same < |stack| {
      FramesTail(grown.last);
      assert s'.last == grown.last[1..];
    }
  }

  lemma {:induction false} KeepsLowest(s: State, frames: seq<Frame>)
    ensures StartFrames(s, frames).last[|frames|..] == s.last
  {
    if frames != [] {
      KeepsLowest(s, frames[1..]);
    }
  }

  // Conservation ----------------------------------------------------------------

  function WithStatus(spans: seq<Span>, status: Status): set<SpanId> {
    set p: SpanId | p < |spans| && spans[p].status == status
  }

  function Upto(n: nat): set<SpanId> {
    if n == 0 then {} else Upto(n - 1) + {n - 1}
  }

  function Elements(ids: seq<SpanId>): set<SpanId> {
    set p | p in ids
  }

  lemma {:induction false} UptoIs(n: nat)
    ensures forall p: SpanId :: p in Upto(n) <==> p < n
    ensures |Upto(n)| == n
  {
    if n > 0 {
      UptoIs(n - 1);
      var before := Upto(n - 1);
      assert n - 1 !in before;
      assert |before + {n - 1}| == |before| + 1;
    }
  }

  lemma {:induction false} DistinctCount(ids: seq<SpanId>)
    requires forall i, j | 0 <= i < j < |ids| :: ids[i] > ids[j]
    ensures |Elements(ids)| == |ids|
  {
    if ids != [] {
      DistinctCount(ids[1..]);
      assert ids == [ids[0]] + ids[1..];
      assert Elements(ids) == {ids[0]} + Elements(ids[1..]);
    }
  }

  lemma OpenAreScopes(s: State)
    requires Mirrored(s) && OpenIsTracked(s)
    ensures WithStatus(s.otel.spans, Open) == Elements(s.otel.scopes)
  {
    forall p | p in s.otel.scopes
      ensures p in WithStatus(s.otel.spans, Open)
    {
      var k :| 0 <= k < |s.otel.scopes| && s.otel.scopes[k] == p;
      assert s.otel.spans[s.last[k].span].status == Open;
    }
  }

  lemma StatusesPartition(spans: seq<Span>)
    ensures |spans|
         == |WithStatus(spans, Finished)| + |WithStatus(spans, Dropped)| + |WithStatus(spans, Open)|
  {
    var finished, dropped, open := WithStatus(spans, Finished), WithStatus(spans, Dropped), WithStatus(spans, Open);
    UptoIs(|spans|);
    assert Upto(|spans|) == (finished + dropped) + open;
    assert finished !! dropped && (finished + dropped) !! open;
  }

  /** Started = finished + dropped + still tracked. */
  lemma SpansAreConserved(s: State)
    requires Valid(s)
    ensures |s.otel.spans|
         == |WithStatus(s.otel.spans, Finished)| + |WithStatus(s.otel.spans, Dropped)| + |s.last|
  {
    DistinctCount(s.otel.scopes);
    OpenAreScopes(s);
    StatusesPartition(s.otel.spans);
  }
}
