/**
 The stack differ behind inferred spans.

 Every sample of the PHP stack is compared with the previous one: frames that
 disappeared end their spans, frames that appeared start spans.  "Reduction" then
 drops all but the topmost of the ended spans that were started by the same sample
 and re-parents the survivor.

 `Otel` stands for the OpenTelemetry SDK: the table of started spans and the stack of
 attached scopes, the top first.  A started span owns exactly one scope, so a scope is
 named by its span.  `parent == None` is the context that was current below the
 differ's own scopes.
 */
module InferredSpans {
  import opened Common

  type SpanId = nat

  datatype Status = Open | Finished | Dropped

  datatype Span = Span(parent: Option<SpanId>, status: Status)

  /** One entry of debug_backtrace: exactly the five keys that the comparison looks at. */
  datatype Frame = Frame(
    cls: Option<string>, func: Option<string>, file: Option<string>, line: Option<int>, typ: Option<string>)

  /** A frame extended with the span started for it and the sample that started it. */
  datatype Tracked = Tracked(frame: Frame, span: SpanId, sample: nat)

  datatype Otel = Otel(spans: seq<Span>, scopes: seq<SpanId>) {
    /** Context::getCurrent(). */
    function Current(): Option<SpanId> {
      if scopes == [] then None else Some(scopes[0])
    }

    /** A weak reference still yields its span while the span's scope is attached. */
    predicate Alive(span: SpanId) {
      span in scopes && span < |spans|
    }

    function DetachTop(): Otel
      requires scopes != []
    {
      this.(scopes := scopes[1..])
    }

    function Detach(span: SpanId): Otel {
      this.(scopes := Without(scopes, span))
    }

    function WithStatus(span: SpanId, status: Status): Otel
      requires span < |spans|
    {
      this.(spans := spans[span := spans[span].(status := status)])
    }

    function WithParent(span: SpanId, parent: Option<SpanId>): Otel
      requires span < |spans|
    {
      this.(spans := spans[span := spans[span].(parent := parent)])
    }
  }

  function Without(scopes: seq<SpanId>, span: SpanId): seq<SpanId> {
    if scopes == [] then []
    else if scopes[0] == span then scopes[1..]
    else [scopes[0]] + Without(scopes[1..], span)
  }

  // ---------------------------------------------------------------------------
  // Specification of one comparison
  // ---------------------------------------------------------------------------

  datatype State = State(last: seq<Tracked>, sample: nat, otel: Otel, down: bool)

  predicate IsInitial(s: State) {
    && |s.last| == |s.otel.spans| == |s.otel.scopes| == 0
    && s.sample == 0
    && !s.down
  }

  /** Frame i is the topmost of the run of frames that share its sample. */
  predicate RunStart(last: seq<Tracked>, i: nat)
    requires i < |last|
  {
    i == 0 || last[i - 1].sample != last[i].sample
  }

  /** The topmost frame of the run that frame i belongs to. */
  function RunTop(last: seq<Tracked>, i: nat): (j: nat)
    requires i < |last|
    ensures j <= i && RunStart(last, j)
  {
    if RunStart(last, i) then i else RunTop(last, i - 1)
  }

  /** The lowest frame of that run among the `cut` topmost frames. */
  function RunEnd(last: seq<Tracked>, cut: nat, i: nat): (j: nat)
    requires i < cut <= |last|
    ensures i <= j < cut
    decreases cut - i
  {
    if i + 1 < cut && last[i + 1].sample == last[i].sample then RunEnd(last, cut, i + 1) else i
  }

  lemma {:induction false} RunEndIsMaximal(last: seq<Tracked>, cut: nat, i: nat)
    requires i < cut <= |last|
    ensures last[RunEnd(last, cut, i)].sample == last[i].sample
    ensures RunEnd(last, cut, i) + 1 < cut ==> RunStart(last, RunEnd(last, cut, i) + 1)
    decreases cut - i
  {
    if i + 1 < cut && last[i + 1].sample == last[i].sample { RunEndIsMaximal(last, cut, i + 1); }
  }

  lemma {:induction false} RunIsUniform(last: seq<Tracked>, cut: nat, i: nat)
    requires i < cut <= |last|
    ensures forall k | i <= k <= RunEnd(last, cut, i) :: last[k].sample == last[i].sample
    decreases cut - i
  {
    if i + 1 < cut && last[i + 1].sample == last[i].sample { RunIsUniform(last, cut, i + 1); }
  }

  /** What becomes of the span of frame i when the `cut` topmost frames end together:
      the topmost frame of a run survives with the original parent of the lowest ended
      frame of the run, the rest of the run is dropped; if the parent cannot be changed
      the whole run is kept as it is. */
  function Ended(last: seq<Tracked>, cut: nat, reduce: bool, canReparent: SpanId -> bool, spans: seq<Span>, i: nat): Span
    requires i < cut <= |last|
    requires forall k | 0 <= k < |last| :: last[k].span < |spans|
  {
    var before := spans[last[i].span];
    if !reduce then
      before.(status := Finished)
    else if RunStart(last, i) then
      var low := RunEnd(last, cut, i);
      if low > i && canReparent(last[i].span) then Span(spans[last[low].span].parent, Finished)
      else before.(status := Finished)
    else if canReparent(last[RunTop(last, i)].span) then
      before.(status := Dropped)
    else
      before.(status := Finished)
  }

  ghost predicate IsEnded(last: seq<Tracked>, cut: nat, span: SpanId)
    requires cut <= |last|
  {
    exists i | 0 <= i < cut :: last[i].span == span
  }

  ghost predicate EndedTogether(
    last: seq<Tracked>, cut: nat, reduce: bool, canReparent: SpanId -> bool, spans: seq<Span>, after: seq<Span>)
    requires cut <= |last|
    requires forall k | 0 <= k < |last| :: last[k].span < |spans|
  {
    && |after| == |spans|
    && (forall i {:trigger Ended(last, cut, reduce, canReparent, spans, i)} | 0 <= i < cut ::
          after[last[i].span] == Ended(last, cut, reduce, canReparent, spans, i))
    && (forall p | 0 <= p < |spans| && !IsEnded(last, cut, p) :: after[p] == spans[p])
  }

  /** A span is started under the current context and its frame becomes the top one. */
  function StartFrame(s: State, frame: Frame): State {
    var span := |s.otel.spans|;
    s.(last := [Tracked(frame, span, s.sample)] + s.last,
       otel := Otel(s.otel.spans + [Span(s.otel.Current(), Open)], [span] + s.otel.scopes))
  }

  /** Starts the frames of a stack from the lowest to the top one. */
  function StartFrames(s: State, frames: seq<Frame>): (r: State)
    ensures |r.last| == |s.last| + |frames|
    ensures |r.otel.spans| == |s.otel.spans| + |frames|
    ensures frames != [] ==> r.otel.scopes != [] && r.last[0].span == |r.otel.spans| - 1
  {
    if frames == [] then s else StartFrame(StartFrames(s, frames[1..]), frames[0])
  }

  /** The newest frame is internal and has already returned: its span ends at once. */
  function FinishTop(s: State): State
    requires s.last != [] && s.last[0].span < |s.otel.spans| && s.otel.scopes != []
  {
    s.(last := s.last[1..],
       otel := Otel(s.otel.spans[s.last[0].span := s.otel.spans[s.last[0].span].(status := Finished)],
                    s.otel.scopes[1..]))
  }

  /** The k-th frames from the bottom (the lowest is the first) are the same. */
  predicate SameFromBottom(stack: seq<Frame>, last: seq<Tracked>, k: nat) {
    1 <= k <= |stack| && k <= |last| && stack[|stack| - k] == last[|last| - k].frame
  }

  ghost predicate IdenticalFromBottom(stack: seq<Frame>, last: seq<Tracked>, n: nat) {
    && n <= |stack| && n <= |last|
    && forall k | 1 <= k <= n :: SameFromBottom(stack, last, k)
  }

  ghost predicate LongestIdentical(stack: seq<Frame>, last: seq<Tracked>, n: nat) {
    && IdenticalFromBottom(stack, last, n)
    && forall m: nat | IdenticalFromBottom(stack, last, m) :: m <= n
  }

  /** The state between ending and starting. */
  function AfterEnding(s: State, cut: nat, after: seq<Span>): State
    requires cut <= |s.last| && |s.otel.scopes| == |s.last|
  {
    State(s.last[cut..], s.sample + 1, Otel(after, s.otel.scopes[cut..]), s.down)
  }

  /** s' is the state after comparing a new stack with the state s; the lowest `same` frames stay. */
  ghost predicate Compared(
    s: State, stack: seq<Frame>, internal: bool, reduce: bool, canReparent: SpanId -> bool, same: nat, s': State)
  {
    && Mirrored(s)
    && LongestIdentical(stack, s.last, same)
    && |s.otel.spans| <= |s'.otel.spans|
    && var cut := |s.last| - same;
    && var after := s'.otel.spans[..|s.otel.spans|];
    && EndedTogether(s.last, cut, reduce, canReparent, s.otel.spans, after)
    && var grown := StartFrames(AfterEnding(s, cut, after), stack[..|stack| - same]);
    && s' == if internal && same < |stack| then FinishTop(grown) else grown
  }

  // ---------------------------------------------------------------------------
  // The invariant
  // ---------------------------------------------------------------------------

  /** The scope stack mirrors the frames; spans are numbered in starting order. */
  ghost predicate Mirrored(s: State) {
    && |s.otel.scopes| == |s.last|
    && (forall i | 0 <= i < |s.last| :: s.otel.scopes[i] == s.last[i].span)
    && (forall i | 0 <= i < |s.last| :: s.last[i].span < |s.otel.spans|)
    && (forall i, j | 0 <= i < j < |s.last| :: s.last[i].span > s.last[j].span)
  }

  /** The open spans are exactly those of the tracked frames. */
  ghost predicate OpenIsTracked(s: State)
    requires Mirrored(s)
  {
    && (forall i | 0 <= i < |s.last| :: s.otel.spans[s.last[i].span].status == Open)
    && (forall p | 0 <= p < |s.otel.spans| && s.otel.spans[p].status == Open :: p in s.otel.scopes)
  }

  /** Sample ids never increase from the top to the bottom, so equal ids are contiguous. */
  ghost predicate SamplesOrdered(s: State) {
    && (forall i | 0 <= i < |s.last| :: 1 <= s.last[i].sample <= s.sample)
    && (forall i, j | 0 <= i < j < |s.last| :: s.last[i].sample >= s.last[j].sample)
  }

  function Below(last: seq<Tracked>, i: nat): Option<SpanId> {
    if i + 1 < |last| then Some(last[i + 1].span) else None
  }

  ghost predicate ParentChain(s: State)
    requires Mirrored(s)
  {
    forall i {:trigger Below(s.last, i)} | 0 <= i < |s.last| ::
      s.otel.spans[s.last[i].span].parent == Below(s.last, i)
  }

  /** Parents were started earlier, and no kept span points at a dropped one. */
  ghost predicate NoDanglingParent(spans: seq<Span>) {
    forall p | 0 <= p < |spans| :: KeptPointsAtKept(spans, p)
  }

  predicate KeptPointsAtKept(spans: seq<Span>, p: SpanId)
    requires p < |spans|
  {
    spans[p].status != Dropped && spans[p].parent.Some? ==>
      spans[p].parent.value < p && spans[spans[p].parent.value].status != Dropped
  }

  predicate ChildAbove(last: seq<Tracked>, spans: seq<Span>, p: SpanId, j: nat)
    requires p < |spans| && 0 < j < |last|
  {
    spans[p].status != Dropped && spans[p].parent == Some(last[j].span) ==>
      RunStart(last, j) || p == last[j - 1].span
  }

  /** A frame below the top of its run has the frame above it as its only kept child. */
  ghost predicate OnlyChild(s: State) {
    forall p: SpanId, j: nat {:trigger ChildAbove(s.last, s.otel.spans, p, j)} | p < |s.otel.spans| && 0 < j < |s.last| ::
      ChildAbove(s.last, s.otel.spans, p, j)
  }

  ghost predicate Valid(s: State) {
    && Mirrored(s)
    && OpenIsTracked(s)
    && SamplesOrdered(s)
    && ParentChain(s)
    && NoDanglingParent(s.otel.spans)
    && OnlyChild(s)
  }

  /** While a comparison starts frames: the frames of this sample are the newest spans. */
  ghost predicate Growing(s: State) {
    && Valid(s)
    && (s.last != [] && s.last[0].sample == s.sample ==> s.last[0].span == |s.otel.spans| - 1)
    && s.sample >= 1
  }

  // Ending frames ---------------------------------------------------------------

  /** The lowest of the ended frames whose spans are replaced by the span of frame i. */
  function Heir(last: seq<Tracked>, cut: nat, reduce: bool, canReparent: SpanId -> bool, i: nat): (m: nat)
    requires i < cut <= |last|
    ensures i <= m < cut
  {
    if reduce && RunStart(last, i) && canReparent(last[i].span) then RunEnd(last, cut, i) else i
  }

  lemma BelowHeirIsKept(
    last: seq<Tracked>, cut: nat, reduce: bool, canReparent: SpanId -> bool, spans: seq<Span>, i: nat)
    requires i < cut <= |last|
    requires forall k | 0 <= k < |last| :: last[k].span < |spans| && spans[last[k].span].status == Open
    requires Ended(last, cut, reduce, canReparent, spans, i).status != Dropped
    requires Heir(last, cut, reduce, canReparent, i) + 1 < cut
    ensures Ended(last, cut, reduce, canReparent, spans, Heir(last, cut, reduce, canReparent, i) + 1).status != Dropped
  {
    var m := Heir(last, cut, reduce, canReparent, i);
    RunEndIsMaximal(last, cut, i);
    if reduce && !RunStart(last, m + 1) {
      assert RunTop(last, m + 1) == RunTop(last, m);
    }
  }

  lemma BelowHeirStaysKept(
    s: State, cut: nat, reduce: bool, canReparent: SpanId -> bool, after: seq<Span>, i: nat, m: nat)
    requires Mirrored(s) && OpenIsTracked(s) && i < cut <= |s.last|
    requires EndedTogether(s.last, cut, reduce, canReparent, s.otel.spans, after)
    requires m == Heir(s.last, cut, reduce, canReparent, i) && m + 1 < |s.last|
    requires Ended(s.last, cut, reduce, canReparent, s.otel.spans, i).status != Dropped
    ensures after[s.last[m + 1].span].status != Dropped
  {
    if m + 1 < cut {
      BelowHeirIsKept(s.last, cut, reduce, canReparent, s.otel.spans, i);
    } else {
      assert !IsEnded(s.last, cut, s.last[m + 1].span);
    }
  }

  lemma EndedValue(
    s: State, cut: nat, reduce: bool, canReparent: SpanId -> bool, i: nat, m: nat)
    requires Mirrored(s) && OpenIsTracked(s) && ParentChain(s) && i < cut <= |s.last|
    requires m == Heir(s.last, cut, reduce, canReparent, i)
    ensures Ended(s.last, cut, reduce, canReparent, s.otel.spans, i)
         == Span(Below(s.last, m), Ended(s.last, cut, reduce, canReparent, s.otel.spans, i).status)
    ensures Ended(s.last, cut, reduce, canReparent, s.otel.spans, i).status != Open
  {
    assert s.otel.spans[s.last[m].span].parent == Below(s.last, m);
  }

  /** An ended span that is kept gets the span below its heir as parent; that one is kept too. */
  lemma EndedParent(s: State, cut: nat, reduce: bool, canReparent: SpanId -> bool, after: seq<Span>, i: nat, m: nat)
    requires Mirrored(s) && OpenIsTracked(s) && ParentChain(s) && i < cut <= |s.last|
    requires EndedTogether(s.last, cut, reduce, canReparent, s.otel.spans, after)
    requires m == Heir(s.last, cut, reduce, canReparent, i)
    ensures after[s.last[i].span].status != Open
    ensures after[s.last[i].span].parent == Below(s.last, m)
    ensures after[s.last[i].span].status != Dropped && m + 1 < |s.last| ==>
              after[s.last[m + 1].span].status != Dropped
  {
    EndedValue(s, cut, reduce, canReparent, i, m);
    if after[s.last[i].span].status != Dropped && m + 1 < |s.last| {
      BelowHeirStaysKept(s, cut, reduce, canReparent, after, i, m);
    }
  }

  /** Reduction contracts the tree: the final parent of an ended span that is kept is its
      nearest original ancestor that is not dropped. */
  lemma NearestKeptAncestor(
    s: State, cut: nat, reduce: bool, canReparent: SpanId -> bool, after: seq<Span>, i: nat, m: nat)
    requires Valid(s) && i < cut <= |s.last|
    requires EndedTogether(s.last, cut, reduce, canReparent, s.otel.spans, after)
    requires after[s.last[i].span].status != Dropped && m == Heir(s.last, cut, reduce, canReparent, i)
    ensures after[s.last[i].span].parent == Below(s.last, m)
    ensures forall k | i < k <= m :: after[s.last[k].span].status == Dropped
    ensures m + 1 < |s.last| ==> after[s.last[m + 1].span].status != Dropped
  {
    EndedParent(s, cut, reduce, canReparent, after, i, m);
    RunIsUniform(s.last, cut, i);
    forall k | i < k <= m
      ensures after[s.last[k].span].status == Dropped
    {
      RunTopOfMember(s.last, i, k);
      assert Ended(s.last, cut, reduce, canReparent, s.otel.spans, k).status == Dropped;
    }
  }

  lemma {:induction false} RunTopOfMember(last: seq<Tracked>, i: nat, k: nat)
    requires i < k < |last| && RunStart(last, i)
    requires forall j | i <= j <= k :: last[j].sample == last[i].sample
    ensures RunTop(last, k) == i && !RunStart(last, k)
  {
    if k - 1 > i { RunTopOfMember(last, i, k - 1); }
  }

  lemma EndedParentIsKept(
    s: State, cut: nat, reduce: bool, canReparent: SpanId -> bool, after: seq<Span>, i: nat)
    requires Mirrored(s) && OpenIsTracked(s) && ParentChain(s) && i < cut <= |s.last|
    requires EndedTogether(s.last, cut, reduce, canReparent, s.otel.spans, after)
    ensures KeptPointsAtKept(after, s.last[i].span)
  {
    EndedParent(s, cut, reduce, canReparent, after, i, Heir(s.last, cut, reduce, canReparent, i));
  }

  lemma UntouchedParentIsKept(
    s: State, cut: nat, reduce: bool, canReparent: SpanId -> bool, after: seq<Span>, p: SpanId)
    requires Mirrored(s) && NoDanglingParent(s.otel.spans) && OnlyChild(s)
    requires cut <= |s.last| && p < |s.otel.spans| && !IsEnded(s.last, cut, p)
    requires EndedTogether(s.last, cut, reduce, canReparent, s.otel.spans, after)
    ensures KeptPointsAtKept(after, p)
  {
    if after[p].status != Dropped && after[p].parent.Some? {
      var q := after[p].parent.value;
      assert KeptPointsAtKept(s.otel.spans, p);
      if IsEnded(s.last, cut, q) {
        var j :| 0 <= j < cut && s.last[j].span == q;
        assert j > 0 ==> ChildAbove(s.last, s.otel.spans, p, j);
        assert RunStart(s.last, j);
        assert Ended(s.last, cut, reduce, canReparent, s.otel.spans, j).status != Dropped;
      }
    }
  }

  lemma EndPreservesOpen(s: State, cut: nat, reduce: bool, canReparent: SpanId -> bool, after: seq<Span>, p: SpanId)
    requires Mirrored(s) && ParentChain(s) && OpenIsTracked(s) && cut <= |s.last|
    requires EndedTogether(s.last, cut, reduce, canReparent, s.otel.spans, after)
    requires p < |after| && after[p].status == Open
    ensures p in s.otel.scopes[cut..]
  {
    if IsEnded(s.last, cut, p) {
      var i :| 0 <= i < cut && s.last[i].span == p;
      var m := Heir(s.last, cut, reduce, canReparent, i);
      EndedParent(s, cut, reduce, canReparent, after, i, m);
    } else {
      assert p in s.otel.scopes;
      var k :| 0 <= k < |s.otel.scopes| && s.otel.scopes[k] == p;
      assert s.otel.scopes[cut..][k - cut] == p;
    }
  }

  lemma EndPreservesOnlyChild(
    s: State, cut: nat, reduce: bool, canReparent: SpanId -> bool, after: seq<Span>, p: SpanId, j: nat)
    requires Mirrored(s) && OpenIsTracked(s) && ParentChain(s) && OnlyChild(s) && p < |after|
    requires cut < j < |s.last| && after[p].status != Dropped && after[p].parent == Some(s.last[j].span)
    requires EndedTogether(s.last, cut, reduce, canReparent, s.otel.spans, after)
    ensures RunStart(s.last, j) || p == s.last[j - 1].span
  {
    if IsEnded(s.last, cut, p) {
      var i :| 0 <= i < cut && s.last[i].span == p;
      var m := Heir(s.last, cut, reduce, canReparent, i);
      EndedParent(s, cut, reduce, canReparent, after, i, m);
    } else {
      assert ChildAbove(s.last, s.otel.spans, p, j);
    }
  }

  lemma EndMirrored(s: State, cut: nat, after: seq<Span>)
    requires Mirrored(s) && SamplesOrdered(s) && cut <= |s.last| && |after| == |s.otel.spans|
    ensures Mirrored(AfterEnding(s, cut, after)) && SamplesOrdered(AfterEnding(s, cut, after))
  {
  }

  lemma EndFrame(s: State, cut: nat, reduce: bool, canReparent: SpanId -> bool, after: seq<Span>, i: nat)
    requires Mirrored(s) && cut <= i < |s.last|
    requires EndedTogether(s.last, cut, reduce, canReparent, s.otel.spans, after)
    ensures after[s.last[i].span] == s.otel.spans[s.last[i].span]
  {
    assert !IsEnded(s.last, cut, s.last[i].span);
  }

  lemma EndChain(s: State, cut: nat, reduce: bool, canReparent: SpanId -> bool, after: seq<Span>)
    requires Mirrored(s) && OpenIsTracked(s) && ParentChain(s) && cut <= |s.last|
    requires EndedTogether(s.last, cut, reduce, canReparent, s.otel.spans, after)
    requires Mirrored(AfterEnding(s, cut, after))
    ensures OpenIsTracked(AfterEnding(s, cut, after)) && ParentChain(AfterEnding(s, cut, after))
  {
    var mid := AfterEnding(s, cut, after);
    forall i | 0 <= i < |mid.last|
      ensures mid.otel.spans[mid.last[i].span].parent == Below(mid.last, i)
      ensures mid.otel.spans[mid.last[i].span].status == Open
    {
      EndFrame(s, cut, reduce, canReparent, after, cut + i);
      assert Below(mid.last, i) == Below(s.last, cut + i);
    }
    forall p | 0 <= p < |after| && after[p].status == Open
      ensures p in mid.otel.scopes
    {
      EndPreservesOpen(s, cut, reduce, canReparent, after, p);
    }
  }

  lemma EndNoDangling(s: State, cut: nat, reduce: bool, canReparent: SpanId -> bool, after: seq<Span>)
    requires Valid(s) && cut <= |s.last|
    requires EndedTogether(s.last, cut, reduce, canReparent, s.otel.spans, after)
    ensures NoDanglingParent(after)
  {
    forall p | 0 <= p < |after|
      ensures KeptPointsAtKept(after, p)
    {
      if i :| 0 <= i < cut && s.last[i].span == p {
        EndedParentIsKept(s, cut, reduce, canReparent, after, i);
      } else {
        UntouchedParentIsKept(s, cut, reduce, canReparent, after, p);
      }
    }
  }

  lemma EndKeepsOnlyChild(s: State, cut: nat, reduce: bool, canReparent: SpanId -> bool, after: seq<Span>)
    requires Valid(s) && cut <= |s.last|
    requires EndedTogether(s.last, cut, reduce, canReparent, s.otel.spans, after)
    ensures OnlyChild(AfterEnding(s, cut, after))
  {
    var mid := AfterEnding(s, cut, after);
    forall p: SpanId, j: nat | p < |after| && 0 < j < |mid.last|
      ensures ChildAbove(mid.last, mid.otel.spans, p, j)
    {
      if after[p].status != Dropped && after[p].parent == Some(mid.last[j].span) {
        EndPreservesOnlyChild(s, cut, reduce, canReparent, after, p, cut + j);
      }
    }
  }

  lemma EndPreserves(s: State, cut: nat, reduce: bool, canReparent: SpanId -> bool, after: seq<Span>)
    requires Valid(s) && cut <= |s.last|
    requires EndedTogether(s.last, cut, reduce, canReparent, s.otel.spans, after)
    ensures Growing(AfterEnding(s, cut, after))
  {
    EndMirrored(s, cut, after);
    EndChain(s, cut, reduce, canReparent, after);
    EndNoDangling(s, cut, reduce, canReparent, after);
    EndKeepsOnlyChild(s, cut, reduce, canReparent, after);
  }

  // Starting frames -------------------------------------------------------------

  lemma StartOnlyChild(s: State, frame: Frame, p: SpanId, j: nat)
    requires Mirrored(s) && OnlyChild(s) && NoDanglingParent(s.otel.spans)
    requires s.last != [] && s.last[0].sample == s.sample ==> s.last[0].span == |s.otel.spans| - 1
    requires 0 < j <= |s.last| && p <= |s.otel.spans|
    ensures ChildAbove(StartFrame(s, frame).last, StartFrame(s, frame).otel.spans, p, j)
  {
    var r := StartFrame(s, frame);
    assert r.last[j] == s.last[j - 1];
    if p < |s.otel.spans| {
      assert KeptPointsAtKept(s.otel.spans, p);
      if j > 1 {
        assert r.last[j - 1] == s.last[j - 2];
        assert ChildAbove(s.last, s.otel.spans, p, j - 1);
      }
    }
  }

  lemma StartChain(s: State, frame: Frame)
    requires Mirrored(s) && OpenIsTracked(s) && ParentChain(s) && Mirrored(StartFrame(s, frame))
    ensures OpenIsTracked(StartFrame(s, frame)) && ParentChain(StartFrame(s, frame))
  {
    var r := StartFrame(s, frame);
    forall i | 0 <= i < |r.last|
      ensures r.otel.spans[r.last[i].span].parent == Below(r.last, i)
      ensures r.otel.spans[r.last[i].span].status == Open
    {
      if i > 0 {
        assert r.last[i] == s.last[i - 1];
        assert Below(r.last, i) == Below(s.last, i - 1);
      }
    }
  }

  lemma StartNoDangling(s: State, frame: Frame)
    requires Mirrored(s) && OpenIsTracked(s) && NoDanglingParent(s.otel.spans)
    ensures NoDanglingParent(StartFrame(s, frame).otel.spans)
  {
    var spans := StartFrame(s, frame).otel.spans;
    forall p | 0 <= p < |spans|
      ensures KeptPointsAtKept(spans, p)
    {
      if p < |s.otel.spans| { assert KeptPointsAtKept(s.otel.spans, p); }
    }
  }

  lemma StartMirrored(s: State, frame: Frame)
    requires Mirrored(s) && SamplesOrdered(s) && s.sample >= 1
    ensures Mirrored(StartFrame(s, frame)) && SamplesOrdered(StartFrame(s, frame))
  {
    var r := StartFrame(s, frame);
    assert forall i | 0 < i < |r.last| :: r.last[i] == s.last[i - 1] && r.otel.scopes[i] == s.otel.scopes[i - 1];
  }

  lemma StartKeepsOnlyChild(s: State, frame: Frame)
    requires Mirrored(s) && OnlyChild(s) && NoDanglingParent(s.otel.spans)
    requires s.last != [] && s.last[0].sample == s.sample ==> s.last[0].span == |s.otel.spans| - 1
    ensures OnlyChild(StartFrame(s, frame))
  {
    var r := StartFrame(s, frame);
    forall p: SpanId, j: nat | p < |r.otel.spans| && 0 < j < |r.last|
      ensures ChildAbove(r.last, r.otel.spans, p, j)
    {
      StartOnlyChild(s, frame, p, j);
    }
  }

  lemma StartPreserves(s: State, frame: Frame)
    requires Growing(s)
    ensures Growing(StartFrame(s, frame))
  {
    StartMirrored(s, frame);
    StartChain(s, frame);
    StartNoDangling(s, frame);
    StartKeepsOnlyChild(s, frame);
  }

  lemma {:induction false} StartedAfter(s: State, frames: seq<Frame>)
    ensures StartFrames(s, frames).otel.spans[..|s.otel.spans|] == s.otel.spans
  {
    if frames != [] {
      StartedAfter(s, frames[1..]);
    }
  }

  lemma {:induction false} StartAllPreserves(s: State, frames: seq<Frame>)
    requires Growing(s)
    ensures Growing(StartFrames(s, frames))
  {
    if frames != [] {
      StartAllPreserves(s, frames[1..]);
      StartPreserves(StartFrames(s, frames[1..]), frames[0]);
    }
  }

  lemma FinishMirrored(s: State)
    requires Mirrored(s) && SamplesOrdered(s) && s.last != []
    ensures Mirrored(FinishTop(s)) && SamplesOrdered(FinishTop(s))
  {
  }

  lemma FinishOpen(s: State, p: SpanId)
    requires Mirrored(s) && OpenIsTracked(s) && s.last != []
    requires p < |s.otel.spans| && p != s.last[0].span && s.otel.spans[p].status == Open
    ensures p in s.otel.scopes[1..]
  {
    var k :| 0 <= k < |s.otel.scopes| && s.otel.scopes[k] == p;
    assert s.otel.scopes[1..][k - 1] == p;
  }

  lemma FinishChain(s: State)
    requires Mirrored(s) && OpenIsTracked(s) && ParentChain(s) && s.last != [] && Mirrored(FinishTop(s))
    ensures OpenIsTracked(FinishTop(s)) && ParentChain(FinishTop(s))
  {
    var r := FinishTop(s);
    forall i | 0 <= i < |r.last|
      ensures r.otel.spans[r.last[i].span].parent == Below(r.last, i)
      ensures r.otel.spans[r.last[i].span].status == Open
    {
      assert r.last[i] == s.last[i + 1];
      assert Below(r.last, i) == Below(s.last, i + 1);
    }
    forall p | 0 <= p < |r.otel.spans| && r.otel.spans[p].status == Open
      ensures p in r.otel.scopes
    {
      FinishOpen(s, p);
    }
  }

  lemma FinishOnlyChild(s: State)
    requires Mirrored(s) && OnlyChild(s) && s.last != [] && s.otel.spans[s.last[0].span].status == Open
    ensures OnlyChild(FinishTop(s))
  {
    var r := FinishTop(s);
    forall p: SpanId, j: nat | p < |r.otel.spans| && 0 < j < |r.last|
      ensures ChildAbove(r.last, r.otel.spans, p, j)
    {
      assert ChildAbove(s.last, s.otel.spans, p, j + 1);
    }
  }

  lemma FinishTopPreserves(s: State)
    requires Valid(s) && s.last != []
    ensures Valid(FinishTop(s))
  {
    var r := FinishTop(s);
    FinishMirrored(s);
    FinishChain(s);
    FinishOnlyChild(s);
    forall p | 0 <= p < |r.otel.spans|
      ensures KeptPointsAtKept(r.otel.spans, p)
    {
      assert KeptPointsAtKept(s.otel.spans, p);
    }
  }
}
