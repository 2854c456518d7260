/**
 When the wildcard matcher decides exactly the language of its pattern.  The matcher moves on
 by a literal's length and not to the end of its occurrence, and it compares the suffix
 without looking at what the earlier literals used, so with two or more literals it can
 accept too much.  `Exact` is a test on the pattern alone that tells when it does not.
 */
module WildcardExactness {
  import opened Wildcard

  /** `p`, put `o` characters to the right of the start of `q`, shares a character with `q` and agrees with it. */
  predicate Overlaid(p: string, q: string, o: int, cs: bool) {
    && -|p| < o
    && o + |p| <= |q|
    && forall i | 0 <= i < |p| && 0 <= o + i :: Same(p[i], q[o + i], cs)
  }

  /** Some text ends with `q` and has a `p` that runs into this `q`; an anchored `p` may not start inside it. */
  predicate Overlap(p: string, q: string, anchored: bool, cs: bool) {
    exists o :: -|p| < o <= (if anchored then 0 else |q|) && Overlaid(p, q, o, cs)
  }

  /** The number of literals with a star before them. */
  function Floating(m: Matcher): int {
    if m.starts then |m.parts| else |m.parts| - 1
  }

  predicate Exact(m: Matcher) {
    var n, f := |m.parts|, Floating(m);
    if f <= 0 || n == 1 then true
    else if m.ends then f == 1
    else f <= 2 && !Overlap(m.parts[n - 2], m.parts[n - 1], f == 1, m.cs)
  }

  // An exact pattern accepts nothing outside its language ----------------------------

  lemma LangOne(p: string, lead: bool, ends: bool, text: string, cs: bool, k: nat)
    requires OccursAt(text, p, k, cs)
    requires lead || k == 0
    requires ends || k + |p| == |text|
    ensures Lang([p], lead, ends, text, cs)
  {
    assert PartAt([p], lead, ends, text, cs, k);
  }

  lemma LangTwo(p: string, q: string, lead: bool, ends: bool, text: string, cs: bool, j: nat, k: nat)
    requires OccursAt(text, p, j, cs) && OccursAt(text, q, k, cs)
    requires j + |p| <= k
    requires lead || j == 0
    requires ends || k + |q| == |text|
    ensures Lang([p, q], lead, ends, text, cs)
  {
    var skip := j + |p|;
    Shifted(text, q, skip, k - skip, cs);
    LangOne(q, true, ends, text[skip..], cs, k - skip);
    assert [p, q][1..] == [q];
    assert PartAt([p, q], lead, ends, text, cs, j);
  }

  lemma RunsIntoSuffix(text: string, p: string, q: string, k: nat, cs: bool)
    requires OccursAt(text, p, k, cs) && IsSuffix(q, text, cs)
    requires k + |p| > |text| - |q|
    ensures Overlaid(p, q, k - (|text| - |q|), cs)
  {
    var s := |text| - |q|;
    forall i | 0 <= i < |p| && 0 <= k - s + i
      ensures Same(p[i], q[k - s + i], cs)
    {
      assert Same(text[k + i], p[i], cs) && Same(text[s + (k - s + i)], q[k - s + i], cs);
    }
  }

  lemma TwoBeforeEnd(m: Matcher, p: string, q: string, text: string, k: nat)
    requires OccursAt(text, p, k, m.cs) && IsSuffix(q, text, m.cs)
    requires !Overlap(p, q, false, m.cs) || (k == 0 && !Overlap(p, q, true, m.cs))
    requires p != []
    ensures k + |p| <= |text| - |q|
  {
    if k + |p| > |text| - |q| {
      RunsIntoSuffix(text, p, q, k, m.cs);
    }
  }

  lemma ExactWithoutFloating(m: Matcher, text: string)
    requires WellFormed(m) && Accepts(m, text)
    requires Floating(m) <= 0 || |m.parts| == 1
    ensures InLanguage(m, text)
  {
    if m.parts != [] {
      var p := m.parts[0];
      assert m.parts == [p];
      if m.ends {
        assert LoopPart(m, text, 0);
        var k: nat :| OccursAt(text, p, k, m.cs) && (m.starts || k == 0);
        LangOne(p, m.starts, m.ends, text, m.cs, k);
      } else if m.starts {
        LangOne(p, m.starts, m.ends, text, m.cs, |text| - |p|);
      } else {
        LangOne(p, m.starts, m.ends, text, m.cs, 0);
      }
    }
  }

  lemma ExactAnchoredPair(m: Matcher, text: string)
    requires WellFormed(m) && Exact(m) && Accepts(m, text)
    requires |m.parts| == 2 && !m.starts
    ensures InLanguage(m, text)
  {
    var p, q := m.parts[0], m.parts[1];
    assert m.parts == [p, q] && IsLiteral(p);
    assert LoopPart(m, text, 0);
    if m.ends {
      assert LoopPart(m, text, 1);
      OneMore(m.parts, 0);
      var k: nat :| |p| <= k && OccursAt(text, q, k, m.cs);
      LangTwo(p, q, false, true, text, m.cs, 0, k);
    } else {
      TwoBeforeEnd(m, p, q, text, 0);
      LangTwo(p, q, false, false, text, m.cs, 0, |text| - |q|);
    }
  }

  lemma ExactFloatingPair(m: Matcher, text: string)
    requires WellFormed(m) && Exact(m) && Accepts(m, text)
    requires |m.parts| == 2 && m.starts && !m.ends
    ensures InLanguage(m, text)
  {
    var p, q := m.parts[0], m.parts[1];
    assert m.parts == [p, q] && IsLiteral(p);
    assert LoopPart(m, text, 0);
    var k: nat :| OccursAt(text, p, k, m.cs);
    TwoBeforeEnd(m, p, q, text, k);
    LangTwo(p, q, true, false, text, m.cs, k, |text| - |q|);
  }

  lemma PairBehindFirst(first: string, p: string, q: string, text: string, cs: bool, k: nat)
    requires OccursAt(text, first, 0, cs)
    requires |first| <= k && OccursAt(text, p, k, cs) && IsSuffix(q, text, cs) && k + |p| <= |text| - |q|
    ensures Lang([first, p, q], false, false, text, cs)
  {
    var skip := |first|;
    var rest := text[skip..];
    Shifted(text, p, skip, k - skip, cs);
    Shifted(text, q, skip, |text| - |q| - skip, cs);
    LangTwo(p, q, true, false, rest, cs, k - skip, |rest| - |q|);
    assert [first, p, q][1..] == [p, q];
    assert PartAt([first, p, q], false, false, text, cs, 0);
  }

  lemma ExactAnchoredTriple(m: Matcher, text: string)
    requires WellFormed(m) && Exact(m) && Accepts(m, text)
    requires |m.parts| == 3 && !m.starts && !m.ends
    ensures InLanguage(m, text)
  {
    var first, p, q := m.parts[0], m.parts[1], m.parts[2];
    assert m.parts == [first, p, q] && IsLiteral(p);
    assert LoopPart(m, text, 0) && LoopPart(m, text, 1);
    OneMore(m.parts, 0);
    var k: nat :| |first| <= k && OccursAt(text, p, k, m.cs);
    TwoBeforeEnd(m, p, q, text, k);
    PairBehindFirst(first, p, q, text, m.cs, k);
  }

  lemma ExactAcceptsOnlyTheLanguage(m: Matcher, text: string)
    requires WellFormed(m) && Exact(m) && Accepts(m, text)
    ensures InLanguage(m, text)
  {
    if Floating(m) <= 0 || |m.parts| == 1 {
      ExactWithoutFloating(m, text);
    } else if |m.parts| == 2 && !m.starts {
      ExactAnchoredPair(m, text);
    } else if m.starts {
      ExactFloatingPair(m, text);
    } else {
      ExactAnchoredTriple(m, text);
    }
  }

  // Texts that a pattern which is not exact accepts wrongly ----------------------------

  lemma {:induction false} LangLength(parts: seq<string>, lead: bool, ends: bool, text: string, cs: bool)
    requires Lang(parts, lead, ends, text, cs)
    ensures Total(parts, |parts|) <= |text|
    decreases |parts|
  {
    if parts != [] {
      var k := FirstPartAt(parts, lead, ends, text, cs);
      LangLength(parts[1..], |parts| > 1 || ends, ends, text[k + |parts[0]|..], cs);
    }
  }

  lemma OverlayIsShort(p: string, q: string, o: int, cs: bool) returns (text: string)
    requires p != [] && Overlaid(p, q, o, cs)
    ensures |text| < |p| + |q|
    ensures OccursAt(text, p, if o < 0 then 0 else o, cs)
    ensures IsSuffix(q, text, cs)
  {
    if o < 0 {
      text := p[..-o] + q;
    } else {
      text := q;
    }
  }

  lemma OverlapFoolsPair(m: Matcher) returns (text: string)
    requires WellFormed(m) && |m.parts| == 2 && !m.ends
    requires Overlap(m.parts[0], m.parts[1], !m.starts, m.cs)
    ensures Accepts(m, text) && !InLanguage(m, text)
  {
    var p, q := m.parts[0], m.parts[1];
    var o :| -|p| < o <= (if !m.starts then 0 else |q|) && Overlaid(p, q, o, m.cs);
    assert IsLiteral(p);
    text := OverlayIsShort(p, q, o, m.cs);
    assert LoopPart(m, text, 0);
    OneMore(m.parts, 0);
    OneMore(m.parts, 1);
    if InLanguage(m, text) {
      LangLength(m.parts, m.starts, m.ends, text, m.cs);
    }
  }

  /** A text that fools the floating parts still does so behind the anchored first part. */
  lemma AnchorKeepsFooling(m: Matcher, floating: string)
    requires |m.parts| >= 2 && !m.starts
    requires
      var f := Matcher(m.cs, true, m.ends, m.parts[1..]);
      Accepts(f, floating) && !InLanguage(f, floating)
    ensures
      var text := m.parts[0] + floating;
      Accepts(m, text) && !InLanguage(m, text)
  {
    var f := Matcher(m.cs, true, m.ends, m.parts[1..]);
    var first := m.parts[0];
    var text := first + floating;
    assert text[|first|..] == floating;
    forall i: nat | i < LoopCount(m)
      ensures LoopPart(m, text, i)
    {
      if i == 0 {
        assert text == [] + first + floating;
      } else {
        assert LoopPart(f, floating, i - 1) && f.parts[i - 1] == m.parts[i];
        RoomAfter(text, m.parts[i], |first|, Total(f.parts, i - 1), m.cs);
      }
    }
    if !m.ends {
      var last := m.parts[|m.parts| - 1];
      assert LastPart(f, floating);
      RoomAfterSuffix(text, last, |first|, m.cs);
    }
    if InLanguage(m, text) { BehindAnchor(m, floating); }
  }

  lemma BehindAnchor(m: Matcher, floating: string)
    requires |m.parts| >= 2 && !m.starts
    requires InLanguage(m, m.parts[0] + floating)
    ensures InLanguage(Matcher(m.cs, true, m.ends, m.parts[1..]), floating)
  {
    var text := m.parts[0] + floating;
    var k := FirstPartAt(m.parts, m.starts, m.ends, text, m.cs);
    assert text[k + |m.parts[0]|..] == floating;
  }

  // Counting the characters other than a star ---------------------------------------

  function Weight(t: string): nat {
    if t == [] then 0 else (if t[0] == STAR then 0 else 1) + Weight(t[1..])
  }

  lemma {:induction false} WeightOfSum(a: string, b: string)
    ensures Weight(a + b) == Weight(a) + Weight(b)
  {
    if a == [] {
      assert a + b == b;
    } else {
      WeightOfSum(a[1..], b);
      assert (a + b)[1..] == a[1..] + b;
    }
  }

  lemma {:induction false} WeightOfLiteral(p: string)
    requires STAR !in p
    ensures Weight(p) == |p|
  {
    if p != [] { WeightOfLiteral(p[1..]); }
  }

  lemma {:induction false} NoWeightMeansStars(t: string, i: nat)
    requires Weight(t) == 0 && i < |t|
    ensures t[i] == STAR
  {
    if i > 0 { NoWeightMeansStars(t[1..], i - 1); }
  }

  lemma {:induction false} StarsWeighNothing(n: nat)
    ensures Weight(seq(n, _ => STAR)) == 0
  {
    if n > 0 {
      StarsWeighNothing(n - 1);
      assert seq(n, _ => STAR)[1..] == seq(n - 1, _ => STAR);
    }
  }

  lemma WeightOfOccurrence(text: string, p: string, k: nat, cs: bool)
    requires OccursAt(text, p, k, cs) && IsLiteral(p)
    ensures Weight(text) == Weight(text[..k]) + |p| + Weight(text[k + |p|..])
  {
    var mid := text[k..k + |p|];
    forall i | 0 <= i < |mid|
      ensures mid[i] != STAR
    {
      assert Same(text[k + i], p[i], cs) && p[i] in p;
    }
    WeightOfLiteral(mid);
    assert text == text[..k] + mid + text[k + |p|..];
    WeightOfSum(text[..k] + mid, text[k + |p|..]);
    WeightOfSum(text[..k], mid);
  }

  lemma {:induction false} LangWeight(parts: seq<string>, lead: bool, ends: bool, text: string, cs: bool)
    requires AllLiterals(parts) && Lang(parts, lead, ends, text, cs)
    ensures Total(parts, |parts|) <= Weight(text)
    decreases |parts|
  {
    if parts != [] {
      var k := FirstPartAt(parts, lead, ends, text, cs);
      assert IsLiteral(parts[0]);
      WeightOfOccurrence(text, parts[0], k, cs);
      LangWeight(parts[1..], |parts| > 1 || ends, ends, text[k + |parts[0]|..], cs);
    }
  }

  /** When the text has no character to spare, only stars stand before the first part. */
  lemma TightFirstPart(parts: seq<string>, lead: bool, ends: bool, text: string, cs: bool, k: nat)
    requires parts != [] && AllLiterals(parts) && PartAt(parts, lead, ends, text, cs, k)
    requires Weight(text) <= Total(parts, |parts|)
    ensures forall i | 0 <= i < k :: text[i] == STAR
    ensures text[k] != STAR
    ensures Weight(text[k + |parts[0]|..]) <= Total(parts[1..], |parts| - 1)
  {
    assert IsLiteral(parts[0]);
    WeightOfOccurrence(text, parts[0], k, cs);
    LangWeight(parts[1..], |parts| > 1 || ends, ends, text[k + |parts[0]|..], cs);
    forall i | 0 <= i < k
      ensures text[i] == STAR
    {
      NoWeightMeansStars(text[..k], i);
    }
    assert Same(text[k + 0], parts[0][0], cs);
  }

  // Two floating parts that are both searched for can be found in the wrong order ------

  /** The parts, each after a star. */
  function Spread(parts: seq<string>): string {
    if parts == [] then [] else [STAR] + parts[0] + Spread(parts[1..])
  }

  lemma {:induction false} SpreadWeight(parts: seq<string>)
    requires AllLiterals(parts)
    ensures Weight(Spread(parts)) == Total(parts, |parts|)
  {
    if parts != [] {
      assert IsLiteral(parts[0]);
      SpreadWeight(parts[1..]);
      WeightOfLiteral(parts[0]);
      WeightOfSum([STAR] + parts[0], Spread(parts[1..]));
      WeightOfSum([STAR], parts[0]);
    }
  }

  lemma BetweenTexts(before: string, p: string, after: string, cs: bool)
    ensures OccursAt(before + p + after, p, |before|, cs)
  {
    var t := before + p + after;
    assert forall i | 0 <= i < |p| :: t[|before| + i] == p[i];
  }

  lemma DropStarAndPart(p: string, rest: string)
    ensures ([STAR] + p + rest)[1 + |p|..] == rest
  {}

  lemma {:induction false} SpreadContains(parts: seq<string>, i: nat, cs: bool) returns (k: nat)
    requires i < |parts|
    ensures OccursAt(Spread(parts), parts[i], k, cs)
    ensures i == |parts| - 1 ==> k + |parts[i]| == |Spread(parts)|
  {
    var rest := Spread(parts[1..]);
    if i == 0 {
      k := 1;
      BetweenTexts([STAR], parts[0], rest, cs);
    } else {
      k := SpreadContains(parts[1..], i - 1, cs);
      var skip := 1 + |parts[0]|;
      DropStarAndPart(parts[0], rest);
      Shifted(Spread(parts), parts[i], skip, k, cs);
      k := skip + k;
    }
  }

  /** The first two parts in the other order; when they are the same text, only one of them. */
  function Swapped(parts: seq<string>, cs: bool): seq<string>
    requires |parts| >= 2
  {
    if SameText(parts[0], parts[1], cs) then parts[1..] else [parts[1], parts[0]] + parts[2..]
  }

  function SwappedText(parts: seq<string>, cs: bool): string
    requires |parts| >= 2
  {
    seq(Total(parts, |parts|), _ => STAR) + Spread(Swapped(parts, cs))
  }

  lemma SwappedHolds(parts: seq<string>, cs: bool, i: nat) returns (k: nat)
    requires |parts| >= 2 && i < |parts|
    ensures OccursAt(Spread(Swapped(parts, cs)), parts[i], k, cs)
    ensures i == |parts| - 1 && i >= 2 ==> k + |parts[i]| == |Spread(Swapped(parts, cs))|
  {
    var order := Swapped(parts, cs);
    if !SameText(parts[0], parts[1], cs) {
      k := SpreadContains(order, if i == 0 then 1 else if i == 1 then 0 else i, cs);
    } else if i > 0 {
      k := SpreadContains(order, i - 1, cs);
    } else {
      k := SpreadContains(order, 0, cs);
      SameOccurs(Spread(order), parts[0], parts[1], k, cs);
    }
  }

  lemma SameOccurs(text: string, p: string, q: string, k: nat, cs: bool)
    requires SameText(p, q, cs) && OccursAt(text, q, k, cs)
    ensures OccursAt(text, p, k, cs)
  {
    forall i | 0 <= i < |p|
      ensures Same(text[k + i], p[i], cs)
    {
      assert Same(text[k + i], q[i], cs) && Same(p[0 + i], q[i], cs);
    }
  }

  lemma SwappedContains(parts: seq<string>, cs: bool, i: nat)
    requires |parts| >= 2 && i < |parts|
    ensures OccursFrom(SwappedText(parts, cs), parts[i], Total(parts, |parts|), cs)
    ensures i == |parts| - 1 && i >= 2 ==> IsSuffix(parts[i], SwappedText(parts, cs), cs)
  {
    var k := SwappedHolds(parts, cs, i);
    BehindStars(Total(parts, |parts|), Spread(Swapped(parts, cs)), parts[i], k, cs);
  }

  lemma BehindStars(n: nat, tail: string, p: string, k: nat, cs: bool)
    requires OccursAt(tail, p, k, cs)
    ensures OccursFrom(seq(n, _ => STAR) + tail, p, n, cs)
    ensures k + |p| == |tail| ==> IsSuffix(p, seq(n, _ => STAR) + tail, cs)
  {
    var text := seq(n, _ => STAR) + tail;
    assert text[n..] == tail;
    Shifted(text, p, n, k, cs);
    assert OccursAt(text, p, n + k, cs);
  }

  lemma SwappedWeight(parts: seq<string>, cs: bool)
    requires |parts| >= 2 && AllLiterals(parts)
    ensures Weight(SwappedText(parts, cs)) == Total(Swapped(parts, cs), |Swapped(parts, cs)|)
    ensures Weight(SwappedText(parts, cs)) <= Total(parts, |parts|)
    ensures SameText(parts[0], parts[1], cs) ==> Weight(SwappedText(parts, cs)) < Total(parts, |parts|)
  {
    var order := Swapped(parts, cs);
    var n := Total(parts, |parts|);
    StarsWeighNothing(n);
    WeightOfSum(seq(n, _ => STAR), Spread(order));
    SwappedTotal(parts, cs);
    SpreadWeight(order);
  }

  lemma SwappedTotal(parts: seq<string>, cs: bool)
    requires |parts| >= 2 && AllLiterals(parts)
    ensures AllLiterals(Swapped(parts, cs))
    ensures
      var order := Swapped(parts, cs);
      if SameText(parts[0], parts[1], cs) then Total(order, |order|) < Total(parts, |parts|)
      else Total(order, |order|) == Total(parts, |parts|)
  {
    var order := Swapped(parts, cs);
    assert IsLiteral(parts[0]) && IsLiteral(parts[1]);
    if !SameText(parts[0], parts[1], cs) {
      assert order[1..] == [parts[0]] + parts[2..];
      assert order[1..][1..] == parts[2..] == parts[1..][1..];
    }
  }

  /** After `n` stars comes one more, then `q`, then a star again. */
  predicate StarsPartStar(text: string, n: nat, q: string) {
    && n + 1 + |q| < |text|
    && (forall i | 0 <= i <= n :: text[i] == STAR)
    && (forall i | 0 <= i < |q| :: text[n + 1 + i] == q[i])
    && text[n + 1 + |q|] == STAR
  }

  lemma SwappedHead(parts: seq<string>, cs: bool)
    requires |parts| >= 2 && !SameText(parts[0], parts[1], cs)
    ensures StarsPartStar(SwappedText(parts, cs), Total(parts, |parts|), parts[1])
  {
    var order := Swapped(parts, cs);
    StarredHead(parts[1], Spread(order[1..]), Spread(order));
    StarsThenPart(seq(Total(parts, |parts|), _ => STAR), parts[1], Spread(order));
  }

  lemma StarredHead(q: string, rest: string, tail: string)
    requires rest != [] && rest[0] == STAR && tail == [STAR] + q + rest
    ensures StarsPartStar(tail, 0, q)
  {
    assert tail[1 + |q|] == rest[0];
  }

  lemma StarsThenPart(stars: string, q: string, tail: string)
    requires forall i | 0 <= i < |stars| :: stars[i] == STAR
    requires StarsPartStar(tail, 0, q)
    ensures StarsPartStar(stars + tail, |stars|, q)
  {
    var text, n := stars + tail, |stars|;
    assert text[n + 0] == tail[0];
    assert text[n + (1 + |q|)] == tail[0 + 1 + |q|];
    forall i | 0 <= i < |q|
      ensures text[n + 1 + i] == q[i]
    {
      assert text[n + (1 + i)] == tail[0 + 1 + i];
    }
  }

  lemma OccurrenceHasNoStar(text: string, p: string, k: nat, cs: bool)
    requires OccursAt(text, p, k, cs) && IsLiteral(p)
    ensures forall i | k <= i < k + |p| :: text[i] != STAR
  {
    forall i | k <= i < k + |p|
      ensures text[i] != STAR
    {
      assert Same(text[k + (i - k)], p[i - k], cs) && p[i - k] in p;
    }
  }

  lemma SecondPartDoesNotFit(parts: seq<string>, ends: bool, text: string, cs: bool, k: nat)
    requires |parts| >= 2 && AllLiterals(parts) && !SameText(parts[0], parts[1], cs)
    requires k + |parts[1]| < |text| && text[k + |parts[1]|] == STAR
    requires forall i | 0 <= i < |parts[1]| :: text[k + i] == parts[1][i]
    requires OccursAt(text, parts[0], k, cs)
    requires Weight(text[k + |parts[0]|..]) <= Total(parts[1..], |parts| - 1)
    ensures !Lang(parts[1..], true, ends, text[k + |parts[0]|..], cs)
  {
    var p, q := parts[0], parts[1];
    assert IsLiteral(p) && IsLiteral(q);
    OccurrenceHasNoStar(text, p, k, cs);
    assert |p| <= |q|;
    assert |p| < |q| by {
      if |p| == |q| { CopyIsSame(text, p, q, k, cs); }
    }
    var d := |q| - |p|;
    var rest := text[k + |p|..];
    assert rest[0] == text[k + |p|] == q[|p|] && q[|p|] in q;
    assert rest[d] == STAR;
    if Lang(parts[1..], true, ends, rest, cs) {
      var j := FirstPartAt(parts[1..], true, ends, rest, cs);
      OccurrenceHasNoStar(rest, q, j, cs);
      TightFirstPart(parts[1..], true, ends, rest, cs, j);
    }
  }

  lemma CopyIsSame(text: string, p: string, q: string, k: nat, cs: bool)
    requires OccursAt(text, p, k, cs) && |p| == |q|
    requires forall i | 0 <= i < |q| :: text[k + i] == q[i]
    ensures SameText(p, q, cs)
  {
    forall i | 0 <= i < |p|
      ensures Same(p[0 + i], q[i], cs)
    {
      assert Same(text[k + i], p[i], cs);
    }
  }

  lemma SwappedIsNotInLanguage(parts: seq<string>, ends: bool, cs: bool)
    requires |parts| >= 2 && AllLiterals(parts)
    ensures !Lang(parts, true, ends, SwappedText(parts, cs), cs)
  {
    SwappedWeight(parts, cs);
    if SameText(parts[0], parts[1], cs) {
      if Lang(parts, true, ends, SwappedText(parts, cs), cs) {
        LangWeight(parts, true, ends, SwappedText(parts, cs), cs);
      }
    } else {
      OtherOrderIsNotInLanguage(parts, ends, cs);
    }
  }

  lemma OtherOrderIsNotInLanguage(parts: seq<string>, ends: bool, cs: bool)
    requires |parts| >= 2 && AllLiterals(parts) && !SameText(parts[0], parts[1], cs)
    requires Weight(SwappedText(parts, cs)) <= Total(parts, |parts|)
    ensures !Lang(parts, true, ends, SwappedText(parts, cs), cs)
  {
    var text := SwappedText(parts, cs);
    assert IsLiteral(parts[1]);
    SwappedHead(parts, cs);
    assert text[Total(parts, |parts|) + 1 + 0] == parts[1][0] && parts[1][0] in parts[1];
    if Lang(parts, true, ends, text, cs) {
      var k := FirstPartAt(parts, true, ends, text, cs);
      TightFirstPart(parts, true, ends, text, cs, k);
      assert k == Total(parts, |parts|) + 1;
      SecondPartDoesNotFit(parts, ends, text, cs, k);
    }
  }

  lemma SwapFoolsFloating(m: Matcher) returns (text: string)
    requires WellFormed(m) && m.starts && |m.parts| >= (if m.ends then 2 else 3)
    ensures Accepts(m, text) && !InLanguage(m, text)
  {
    text := SwappedText(m.parts, m.cs);
    SwappedIsNotInLanguage(m.parts, m.ends, m.cs);
    forall i: nat | i < LoopCount(m)
      ensures LoopPart(m, text, i)
    {
      SwappedContains(m.parts, m.cs, i);
      TotalGrows(m.parts, i);
      var q: nat :| Total(m.parts, |m.parts|) <= q && OccursAt(text, m.parts[i], q, m.cs);
    }
    SwappedContains(m.parts, m.cs, |m.parts| - 1);
  }

  lemma {:induction false} TotalGrows(parts: seq<string>, n: nat)
    requires n <= |parts|
    ensures Total(parts, n) <= Total(parts, |parts|)
  {
    if n > 0 { TotalGrows(parts[1..], n - 1); }
  }

  // The two directions together ----------------------------------------------------------

  lemma FoolsFloating(m: Matcher) returns (text: string)
    requires WellFormed(m) && m.starts && !Exact(m)
    ensures Accepts(m, text) && !InLanguage(m, text)
  {
    if |m.parts| == 2 && !m.ends {
      text := OverlapFoolsPair(m);
    } else {
      text := SwapFoolsFloating(m);
    }
  }

  lemma Fools(m: Matcher) returns (text: string)
    requires WellFormed(m) && !Exact(m)
    ensures Accepts(m, text) && !InLanguage(m, text)
  {
    if m.starts {
      text := FoolsFloating(m);
    } else if |m.parts| == 2 {
      text := OverlapFoolsPair(m);
    } else {
      var f := Matcher(m.cs, true, m.ends, m.parts[1..]);
      var floating := FoolsFloating(f);
      AnchorKeepsFooling(m, floating);
      text := m.parts[0] + floating;
    }
  }

  /** Matching decides the glob of the expression exactly when the parsed pattern is exact. */
  lemma MatchDecidesTheGlobIff(expr: string)
    ensures
      var m := Parsed(expr);
      Exact(m) <==> forall text :: Accepts(m, text) <==> Glob(Body(expr), text, m.cs)
  {
    var m := Parsed(expr);
    ParsedIsWellFormed(expr);
    if Exact(m) {
      forall text
        ensures Accepts(m, text) <==> Glob(Body(expr), text, m.cs)
      {
        ParsedDefinesTheGlob(expr, text);
        if Accepts(m, text) { ExactAcceptsOnlyTheLanguage(m, text); }
        if InLanguage(m, text) { MatchIsComplete(m, text); }
      }
    } else {
      var text := Fools(m);
      ParsedDefinesTheGlob(expr, text);
    }
  }
}
