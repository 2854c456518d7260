/** The class that keeps the last stack trace, proved against the comparison relation. */
module StackDiffer {
  import opened Common
  import opened InferredSpans
  import opened InferredSpansRuns

  class InferredSpansDiffer {
    const spanReductionEnabled: bool
    // Whether force_set_object_property_value succeeds for a given span.  A span is
    // re-parented at most once, so an arbitrary function is an arbitrary outcome.
    const canReparent: SpanId -> bool

    var lastStackTrace: seq<Tracked>
    var stackTraceId: nat
    var isShutdown: bool
    var otel: Otel

    function Abs(): State
      reads this
    {
      State(lastStackTrace, stackTraceId, otel, isShutdown)
    }

    constructor (spanReductionEnabled: bool, canReparent: SpanId -> bool)
      ensures IsInitial(Abs()) && Valid(Abs())
      ensures this.spanReductionEnabled == spanReductionEnabled && this.canReparent == canReparent
    {
      this.spanReductionEnabled := spanReductionEnabled;
      this.canReparent := canReparent;
      lastStackTrace := [];
      stackTraceId := 0;
      isShutdown := false;
      otel := Otel([], []);
    }

    method CaptureStackTrace(trace: seq<Frame>, topFrameIsInternalFunction: bool)
      requires Valid(Abs())
      modifies this
      ensures Valid(Abs())
      ensures Stepped(old(Abs()), Capture(trace, topFrameIsInternalFunction), spanReductionEnabled, canReparent, Abs())
    {
      if isShutdown {
        return;
      }
      var stackTrace := if |trace| < FRAMES_TO_SKIP then [] else trace[FRAMES_TO_SKIP..];
      var filtered, cutIndex := FilterOutAPMFrames(stackTrace);
      ghost var same := CompareStackTraces(filtered, topFrameIsInternalFunction, cutIndex);
      assert filtered == Prepared(trace);
      ComparedPreserves(old(Abs()), filtered, topFrameIsInternalFunction, spanReductionEnabled, canReparent, same, Abs());
    }

    method Shutdown()
      requires Valid(Abs())
      modifies this
      ensures Valid(Abs())
      ensures Stepped(old(Abs()), Call.Shutdown, spanReductionEnabled, canReparent, Abs())
    {
      isShutdown := true;
      ghost var before := Abs();
      ghost var same := CompareStackTraces([], false, Some(0));
      ComparedPreserves(before, [], false, spanReductionEnabled, canReparent, same, Abs());
    }

    /** Cuts the stack just below its lowest instrumentation frame. */
    method FilterOutAPMFrames(stackTrace: seq<Frame>) returns (filtered: seq<Frame>, cutIndex: Option<nat>)
      ensures filtered == BelowApmFrames(stackTrace)
      ensures cutIndex == if |filtered| == |stackTrace| then None else Some(|stackTrace| - |filtered| - 1)
    {
      cutIndex := None;
      var index := |stackTrace| - 1;
      while index >= 0
        invariant -1 <= index < |stackTrace|
        invariant forall f | f in stackTrace[index + 1..] :: !IsApmFrame(f)
      {
        if IsApmFrame(stackTrace[index]) {
          cutIndex := Some(index);
          break;
        }
        assert stackTrace[index..] == [stackTrace[index]] + stackTrace[index + 1..];
        index := index - 1;
      }
      filtered := if cutIndex.Some? then stackTrace[cutIndex.value + 1..] else stackTrace;
      CutIsUnique(stackTrace, |filtered|);
    }

    method GetHowManyStackFramesAreIdenticalFromStackBottom(stackTrace: seq<Frame>) returns (n: nat)
      ensures LongestIdentical(stackTrace, lastStackTrace, n)
    {
      var count := if |stackTrace| <= |lastStackTrace| then |stackTrace| else |lastStackTrace|;
      var index := 1;
      while index <= count
        invariant 1 <= index <= count + 1
        invariant IdenticalFromBottom(stackTrace, lastStackTrace, index - 1)
      {
        if stackTrace[|stackTrace| - index] != lastStackTrace[|lastStackTrace| - index].frame {
          assert !SameFromBottom(stackTrace, lastStackTrace, index);
          return index - 1;
        }
        index := index + 1;
      }
      return count;
    }

    /** Decides whether the span of an ended frame is dropped, and re-parents the first
        span of a run.  `failed` keeps the outcome of the last attempt. */
    method ShouldReduceFrame(index: nat, oldFramesCount: nat, previous: int, failed: bool)
      returns (dropSpan: bool, previous': int, failed': bool)
      requires index < oldFramesCount <= |lastStackTrace|
      requires AllAlive(lastStackTrace, index, oldFramesCount, otel)
      modifies this`otel
      ensures previous' == lastStackTrace[index].sample
      ensures dropSpan == (previous == lastStackTrace[index].sample && !failed)
      ensures Reparented(lastStackTrace, index, oldFramesCount, canReparent, previous, failed, failed', old(otel), otel)
    {
      var frameId := lastStackTrace[index].sample;
      dropSpan := previous == frameId;
      previous' := frameId;
      failed' := failed;
      if !dropSpan {
        var lastSpanParent: Option<Option<SpanId>> := None;
        var i := index + 1;
        while i < oldFramesCount
          invariant index < i <= oldFramesCount
          invariant RunEnd(lastStackTrace, oldFramesCount, index) >= i - 1
          invariant RunEnd(lastStackTrace, oldFramesCount, index)
                 == RunEnd(lastStackTrace, oldFramesCount, i - 1)
          invariant lastStackTrace[i - 1].sample == frameId
          invariant lastSpanParent == if i == index + 1 then None
                                      else Some(otel.spans[lastStackTrace[i - 1].span].parent)
        {
          if lastStackTrace[i].sample != frameId {
            break;
          }
          var span := lastStackTrace[i].span;
          if !otel.Alive(span) {
            break;
          }
          lastSpanParent := Some(otel.spans[span].parent);
          i := i + 1;
        }
        if lastSpanParent.Some? {
          var span := lastStackTrace[index].span;
          if !otel.Alive(span) {
            return false, previous', failed';
          }
          var ok := canReparent(span);
          if ok {
            otel := otel.WithParent(span, lastSpanParent.value);
          }
          failed' := !ok;
        }
      }
      if failed' && dropSpan {
        dropSpan := false;
      }
    }

    /** Ends or drops the span of the frame whose scope is the current one. */
    method EndFrameSpan(frame: Tracked, dropSpan: bool)
      requires otel.scopes != [] && otel.scopes[0] == frame.span && frame.span < |otel.spans|
      requires |otel.scopes| > 1 ==> otel.scopes[1] != frame.span
      modifies this`otel
      ensures otel == old(otel).DetachTop().WithStatus(frame.span, if dropSpan then Dropped else Finished)
    {
      if !otel.Alive(frame.span) {
        return;
      }
      if dropSpan {
        // Dropping leaves no trace in the SDK; the status records that the span never ends.
        otel := otel.Detach(frame.span).WithStatus(frame.span, Dropped);
        return;
      }
      var scope := otel.Current();
      if scope.Some? {
        otel := otel.DetachTop();
      }
      if scope.None? || scope == otel.Current() {
        return;
      }
      otel := otel.WithStatus(frame.span, Finished);
    }

    /** Starts a span under the given context or, without one, under the current context. */
    method StartFrameSpan(frame: Frame, parentContext: Option<SpanId>) returns (newFrame: Tracked)
      modifies this`otel
      ensures
        var parent := if parentContext.Some? then parentContext else old(otel).Current();
        && newFrame == Tracked(frame, |old(otel).spans|, stackTraceId)
        && otel == Otel(old(otel).spans + [Span(parent, Open)], [newFrame.span] + old(otel).scopes)
    {
      var parent := if parentContext.Some? then parentContext else otel.Current();
      var span := |otel.spans|;
      otel := Otel(otel.spans + [Span(parent, Open)], [span] + otel.scopes);
      newFrame := Tracked(frame, span, stackTraceId);
    }

    method CompareStackTraces(stackTrace: seq<Frame>, topFrameIsInternalFunction: bool, apmFramesFilteredOut: Option<nat>)
      returns (ghost same: nat)
      requires Mirrored(Abs())
      modifies this`lastStackTrace, this`stackTraceId, this`otel
      ensures Compared(old(Abs()), stackTrace, topFrameIsInternalFunction, spanReductionEnabled, canReparent, same, Abs())
    {
      ghost var s := Abs();
      stackTraceId := stackTraceId + 1;
      var identical := GetHowManyStackFramesAreIdenticalFromStackBottom(stackTrace);
      same := identical;
      EndOldFrames(|lastStackTrace| - identical, s);
      ghost var after := otel.spans;
      ghost var mid := Abs();
      if |stackTrace| == identical {
        Assemble(s, stackTrace, topFrameIsInternalFunction, spanReductionEnabled, canReparent, same, after, mid);
        return;
      }
      MidTopMirrored(s, |s.last| - same, after);
      StartNewFrames(stackTrace, identical, topFrameIsInternalFunction, apmFramesFilteredOut);
      Assemble(s, stackTrace, topFrameIsInternalFunction, spanReductionEnabled, canReparent, same, after, Abs());
    }

    /** First half of the comparison: ends the spans of the frames that are gone. */
    method EndOldFrames(oldFramesCount: nat, ghost s: State)
      requires Mirrored(s) && oldFramesCount <= |lastStackTrace|
      requires s.last == lastStackTrace && s.otel == otel
      modifies this`lastStackTrace, this`otel
      ensures EndedTogether(s.last, oldFramesCount, spanReductionEnabled, canReparent, s.otel.spans, otel.spans)
      ensures lastStackTrace == s.last[oldFramesCount..]
      ensures otel.scopes == s.otel.scopes[oldFramesCount..]
    {
      var previous: int := -1;
      var failed := false;
      var index := 0;
      while index < oldFramesCount
        invariant 0 <= index <= oldFramesCount && lastStackTrace == s.last
        invariant otel.scopes == s.otel.scopes[index..]
        invariant EndedSoFar(s, index, oldFramesCount, spanReductionEnabled, canReparent, otel.spans)
        invariant spanReductionEnabled ==> Remembered(s.last, index, oldFramesCount, canReparent, previous, failed)
      {
        previous, failed := EndOneFrame(s, index, oldFramesCount, previous, failed);
        index := index + 1;
      }
      lastStackTrace := lastStackTrace[oldFramesCount..];
    }

    method EndOneFrame(ghost s: State, index: nat, oldFramesCount: nat, previous: int, failed: bool)
      returns (previous': int, failed': bool)
      requires Mirrored(s) && index < oldFramesCount <= |lastStackTrace| && lastStackTrace == s.last
      requires otel.scopes == s.otel.scopes[index..]
      requires EndedSoFar(s, index, oldFramesCount, spanReductionEnabled, canReparent, otel.spans)
      requires spanReductionEnabled ==> Remembered(s.last, index, oldFramesCount, canReparent, previous, failed)
      modifies this`otel
      ensures otel.scopes == s.otel.scopes[index + 1..]
      ensures EndedSoFar(s, index + 1, oldFramesCount, spanReductionEnabled, canReparent, otel.spans)
      ensures spanReductionEnabled ==>
                Remembered(s.last, index + 1, oldFramesCount, canReparent, previous', failed')
    {
      StillAlive(s, index, oldFramesCount, otel);
      ghost var before := otel;
      var dropSpan := false;
      previous', failed' := previous, failed;
      if spanReductionEnabled {
        dropSpan, previous', failed' := ShouldReduceFrame(index, oldFramesCount, previous, failed);
        RememberedDecides(s.last, index, oldFramesCount, canReparent, previous, failed);
        RememberedNext(s.last, index, oldFramesCount, canReparent, previous, failed, failed', before, otel);
        ReparentedNext(s.last, index, oldFramesCount, canReparent, previous, failed, failed', before, otel, dropSpan);
      }
      EndFrameSpan(lastStackTrace[index], dropSpan);
      NextValue(s, index, oldFramesCount, spanReductionEnabled, canReparent, before.spans, dropSpan);
      EndedOneMore(s, index, oldFramesCount, spanReductionEnabled, canReparent, before.spans);
    }

    /** Second half: starts spans for the new frames, from the lowest to the top one. */
    method StartNewFrames(
      stackTrace: seq<Frame>, identical: nat, topFrameIsInternalFunction: bool, apmFramesFilteredOut: Option<nat>)
      requires TopMirrored(Abs()) && identical < |stackTrace|
      modifies this`lastStackTrace, this`otel
      ensures IsGrown(old(Abs()), stackTrace[..|stackTrace| - identical], topFrameIsInternalFunction, Abs())
    {
      ghost var s, started := Abs(), stackTrace[..|stackTrace| - identical];
      assert started[|started|..] == [];
      var first := true;
      var index := |stackTrace| - identical - 1;
      while index >= 0
        invariant -1 <= index < |started|
        invariant StartedDownTo(s, started, index, topFrameIsInternalFunction, Abs())
      {
        ghost var before := Abs();
        var underLast := first && apmFramesFilteredOut.Some? && apmFramesFilteredOut.value != 0 && lastStackTrace != [];
        StartOneFrame(stackTrace[index], underLast, index == 0 && topFrameIsInternalFunction);
        OneMoreStarted(s, started, index, topFrameIsInternalFunction, before, Abs());
        first := false;
        index := index - 1;
      }
    }

    /** Starts one frame, under the context of the last top frame or the current one, and ends
        it at once when it is internal. */
    method StartOneFrame(frame: Frame, underLast: bool, endsAtOnce: bool)
      requires TopMirrored(Abs()) && (underLast ==> lastStackTrace != [])
      modifies this`lastStackTrace, this`otel
      ensures !endsAtOnce ==> TopMirrored(Abs())
      ensures
        var grown := StartFrame(old(Abs()), frame);
        && grown.otel.scopes != [] && grown.last[0].span < |grown.otel.spans|
        && Abs() == if endsAtOnce then FinishTop(grown) else grown
    {
      var newFrame := StartFrameSpan(frame, if underLast then Some(lastStackTrace[0].span) else None);
      if endsAtOnce {
        EndFrameSpan(newFrame, false);
      } else {
        lastStackTrace := [newFrame] + lastStackTrace;
      }
    }
  }

  ghost predicate TopMirrored(s: State) {
    && |s.otel.scopes| == |s.last|
    && (s.last != [] ==> s.otel.scopes[0] == s.last[0].span < |s.otel.spans|)
  }

  ghost predicate IsGrown(s: State, frames: seq<Frame>, internal: bool, s': State) {
    var grown := StartFrames(s, frames);
    && grown.last != [] && grown.otel.scopes != [] && grown.last[0].span < |grown.otel.spans|
    && s' == if internal then FinishTop(grown) else grown
  }

  /** The frames below `index` have been started; after the top one it may have ended already. */
  ghost predicate StartedDownTo(s: State, frames: seq<Frame>, index: int, internal: bool, now: State)
    requires -1 <= index < |frames|
  {
    if index < 0 then IsGrown(s, frames, internal, now)
    else now == StartFrames(s, frames[index + 1..]) && TopMirrored(now)
  }

  lemma OneMoreStarted(s: State, frames: seq<Frame>, index: nat, internal: bool, before: State, after: State)
    requires index < |frames| && StartedDownTo(s, frames, index, internal, before)
    requires
      var grown := StartFrame(before, frames[index]);
      && grown.otel.scopes != [] && grown.last[0].span < |grown.otel.spans|
      && after == if index == 0 && internal then FinishTop(grown) else grown
    requires index > 0 ==> TopMirrored(after)
    ensures StartedDownTo(s, frames, index - 1, internal, after)
  {
    var rest := frames[index..];
    assert rest[1..] == frames[index + 1..];
    assert index == 0 ==> rest == frames;
  }

  /** The two halves together are one comparison. */
  lemma Assemble(
    s: State, stack: seq<Frame>, internal: bool, reduce: bool, canReparent: SpanId -> bool, same: nat,
    after: seq<Span>, s': State)
    requires Mirrored(s) && LongestIdentical(stack, s.last, same)
    requires EndedTogether(s.last, |s.last| - same, reduce, canReparent, s.otel.spans, after)
    requires
      var mid := AfterEnding(s, |s.last| - same, after);
      if |stack| == same then s' == mid else IsGrown(mid, stack[..|stack| - same], internal, s')
    ensures Compared(s, stack, internal, reduce, canReparent, same, s')
  {
    var mid, started := AfterEnding(s, |s.last| - same, after), stack[..|stack| - same];
    StartedAfter(mid, started);
    assert s'.otel.spans[..|s.otel.spans|] == StartFrames(mid, started).otel.spans[..|s.otel.spans|];
  }

  lemma MidTopMirrored(s: State, cut: nat, after: seq<Span>)
    requires Mirrored(s) && cut <= |s.last| && |after| == |s.otel.spans|
    ensures TopMirrored(AfterEnding(s, cut, after))
  {
  }

  // Steps of the ending loop ----------------------------------------------------

  ghost predicate AllAlive(last: seq<Tracked>, from: nat, to: nat, otel: Otel) {
    && to <= |last|
    && forall i | from <= i < to :: otel.Alive(last[i].span)
  }

  ghost predicate EndedSoFar(
    s: State, index: nat, cut: nat, reduce: bool, canReparent: SpanId -> bool, spans: seq<Span>)
    requires Mirrored(s) && index <= cut <= |s.last|
  {
    && |spans| == |s.otel.spans|
    && (forall i {:trigger Ended(s.last, cut, reduce, canReparent, s.otel.spans, i)} | 0 <= i < index ::
          spans[s.last[i].span] == Ended(s.last, cut, reduce, canReparent, s.otel.spans, i))
    && (forall p | 0 <= p < |spans| && !IsEnded(s.last, index, p) :: spans[p] == s.otel.spans[p])
  }

  lemma UntouchedSoFar(
    s: State, index: nat, cut: nat, reduce: bool, canReparent: SpanId -> bool, spans: seq<Span>, i: nat)
    requires Mirrored(s) && index <= cut <= |s.last| && index <= i < cut
    requires EndedSoFar(s, index, cut, reduce, canReparent, spans)
    ensures spans[s.last[i].span] == s.otel.spans[s.last[i].span]
  {
    assert !IsEnded(s.last, index, s.last[i].span);
  }

  lemma StillAlive(s: State, index: nat, cut: nat, otel: Otel)
    requires Mirrored(s) && index < cut <= |s.last|
    requires otel.scopes == s.otel.scopes[index..] && |otel.spans| == |s.otel.spans|
    ensures AllAlive(s.last, index, cut, otel)
    ensures otel.scopes[0] == s.last[index].span && s.last[index].span < |otel.spans|
    ensures |otel.scopes| > 1 ==> otel.scopes[1] != s.last[index].span
  {
    forall i | index <= i < cut
      ensures otel.Alive(s.last[i].span)
    {
      assert otel.scopes[i - index] == s.last[i].span;
    }
  }

  /** What the two variables kept between the calls of ShouldReduceFrame hold before the turn of frame i. */
  ghost predicate Remembered(
    last: seq<Tracked>, i: nat, cut: nat, canReparent: SpanId -> bool, previous: int, failed: bool)
    requires i <= cut <= |last|
  {
    && previous == (if i == 0 then -1 else last[i - 1].sample)
    && (i < cut && !RunStart(last, i) ==> failed == !canReparent(last[RunTop(last, i)].span))
  }

  /** What ShouldReduceFrame does to the spans and to the failure flag. */
  ghost predicate Reparented(
    last: seq<Tracked>, i: nat, cut: nat, canReparent: SpanId -> bool,
    previous: int, failed: bool, failed': bool, before: Otel, after: Otel)
    requires i < cut <= |last| && AllAlive(last, i, cut, before)
  {
    var span, low := last[i].span, RunEnd(last, cut, i);
    if previous != last[i].sample && low > i then
      && failed' == !canReparent(span)
      && after == if failed' then before else before.WithParent(span, before.spans[last[low].span].parent)
    else failed' == failed && after == before
  }

  /** The span is dropped when it is not the first of its run and the first one could be re-parented. */
  lemma {:induction false} RememberedDecides(
    last: seq<Tracked>, i: nat, cut: nat, canReparent: SpanId -> bool, previous: int, failed: bool)
    requires i < cut <= |last| && Remembered(last, i, cut, canReparent, previous, failed)
    ensures RunStart(last, i) == (previous != last[i].sample)
    ensures (previous == last[i].sample && !failed) == (!RunStart(last, i) && canReparent(last[RunTop(last, i)].span))
  {
  }

  lemma {:induction false} RememberedNext(
    last: seq<Tracked>, i: nat, cut: nat, canReparent: SpanId -> bool,
    previous: int, failed: bool, failed': bool, before: Otel, after: Otel)
    requires i < cut <= |last| && AllAlive(last, i, cut, before)
    requires Remembered(last, i, cut, canReparent, previous, failed)
    requires Reparented(last, i, cut, canReparent, previous, failed, failed', before, after)
    ensures Remembered(last, i + 1, cut, canReparent, last[i].sample, failed')
  {
    RememberedDecides(last, i, cut, canReparent, previous, failed);
    if i + 1 < cut && !RunStart(last, i + 1) {
      assert RunTop(last, i + 1) == RunTop(last, i);
      if RunStart(last, i) { assert RunEnd(last, cut, i) > i; }
    }
  }

  lemma {:induction false} ReparentedNext(
    last: seq<Tracked>, i: nat, cut: nat, canReparent: SpanId -> bool,
    previous: int, failed: bool, failed': bool, before: Otel, after: Otel, drop: bool)
    requires i < cut <= |last| && AllAlive(last, i, cut, before)
    requires forall k | 0 <= k < |last| :: last[k].span < |before.spans|
    requires Remembered(last, i, cut, canReparent, previous, failed)
    requires Reparented(last, i, cut, canReparent, previous, failed, failed', before, after)
    ensures after.scopes == before.scopes && |after.spans| == |before.spans|
    ensures after.WithStatus(last[i].span, if drop then Dropped else Finished).spans
         == EndedNext(last, i, cut, true, canReparent, before.spans, drop)
  {
  }

  /** One iteration: re-parent the first span of a run if that is possible, then end or drop. */
  function EndedNext(
    last: seq<Tracked>, index: nat, cut: nat, reduce: bool, canReparent: SpanId -> bool, spans: seq<Span>, drop: bool)
    : seq<Span>
    requires index < cut <= |last| && forall i | 0 <= i < |last| :: last[i].span < |spans|
  {
    var span, low := last[index].span, RunEnd(last, cut, index);
    var parent := if reduce && RunStart(last, index) && low > index && canReparent(span)
                  then spans[last[low].span].parent else spans[span].parent;
    spans[span := Span(parent, if drop then Dropped else Finished)]
  }

  lemma NextValue(
    s: State, index: nat, cut: nat, reduce: bool, canReparent: SpanId -> bool, spans: seq<Span>, drop: bool)
    requires Mirrored(s) && index < cut <= |s.last|
    requires EndedSoFar(s, index, cut, reduce, canReparent, spans)
    requires drop == (reduce && !RunStart(s.last, index) && canReparent(s.last[RunTop(s.last, index)].span))
    ensures EndedNext(s.last, index, cut, reduce, canReparent, spans, drop)
         == spans[s.last[index].span := Ended(s.last, cut, reduce, canReparent, s.otel.spans, index)]
  {
    UntouchedSoFar(s, index, cut, reduce, canReparent, spans, index);
    UntouchedSoFar(s, index, cut, reduce, canReparent, spans, RunEnd(s.last, cut, index));
  }

  lemma {:induction false} EndedOneMore(
    s: State, index: nat, cut: nat, reduce: bool, canReparent: SpanId -> bool, spans: seq<Span>)
    requires Mirrored(s) && index < cut <= |s.last|
    requires EndedSoFar(s, index, cut, reduce, canReparent, spans)
    ensures
      var e := Ended(s.last, cut, reduce, canReparent, s.otel.spans, index);
      EndedSoFar(s, index + 1, cut, reduce, canReparent, spans[s.last[index].span := e])
  {
    forall p | 0 <= p < |spans| && !IsEnded(s.last, index + 1, p)
      ensures p != s.last[index].span && spans[p] == s.otel.spans[p]
    {
      assert s.last[index].span != p;
      assert !IsEnded(s.last, index, p);
    }
  }

  lemma {:induction false} CutIsUnique(stack: seq<Frame>, n: nat)
    requires n <= |stack|
    requires forall f | f in stack[|stack| - n..] :: !IsApmFrame(f)
    requires n < |stack| ==> IsApmFrame(stack[|stack| - n - 1])
    ensures BelowApmFrames(stack) == stack[|stack| - n..]
  {
    if stack != [] {
      if n < |stack| {
        assert stack[1..][|stack| - 1 - n..] == stack[|stack| - n..];
        CutIsUnique(stack[1..], n);
      } else {
        assert stack[0] in stack[|stack| - n..];
        CutIsUnique(stack[1..], n - 1);
      }
    }
  }
}
