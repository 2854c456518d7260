/**
 The wildcard matcher: its parser, its printer and its matching, against the language of
 the pattern.  Characters stand for bytes; case folding is the ASCII one of stripos.
 */
module Wildcard {
  import opened Common
  import opened Strings

  const PREFIX := "(?-i)"
  const STAR := '*'

  datatype Matcher = Matcher(cs: bool, starts: bool, ends: bool, parts: seq<string>)

  // Comparisons -----------------------------------------------------------------

  function Lower(c: char): char {
    if 'A' <= c <= 'Z' then c - 'A' + 'a' else c
  }

  predicate Same(a: char, b: char, cs: bool) {
    if cs then a == b else Lower(a) == Lower(b)
  }

  predicate OccursAt(text: string, part: string, q: nat, cs: bool) {
    q + |part| <= |text| && forall i | 0 <= i < |part| :: Same(text[q + i], part[i], cs)
  }

  predicate SameText(a: string, b: string, cs: bool) {
    |a| == |b| && OccursAt(a, b, 0, cs)
  }

  predicate IsSuffix(part: string, text: string, cs: bool) {
    |part| <= |text| && OccursAt(text, part, |text| - |part|, cs)
  }

  // The language of a pattern -----------------------------------------------------

  predicate CaseSensitive(expr: string) {
    |PREFIX| <= |expr| && expr[..|PREFIX|] == PREFIX
  }

  function Body(expr: string): string {
    if CaseSensitive(expr) then expr[|PREFIX|..] else expr
  }

  /** A star stands for any text, every other character for itself. */
  predicate Glob(body: string, text: string, cs: bool)
    decreases |body| + |text|
  {
    if body == [] then text == []
    else if body[0] == STAR then Glob(body[1..], text, cs) || (text != [] && Glob(body, text[1..], cs))
    else text != [] && Same(text[0], body[0], cs) && Glob(body[1..], text[1..], cs)
  }

  // What the parser finds ---------------------------------------------------------

  /** The length of the leading literal. */
  function LiteralLength(s: string): (n: nat)
    ensures n <= |s|
    ensures n < |s| ==> s[n] == STAR
  {
    if s == [] || s[0] == STAR then 0 else 1 + LiteralLength(s[1..])
  }

  lemma {:induction false} LiteralHasNoStar(s: string)
    ensures STAR !in s[..LiteralLength(s)]
    ensures s != [] && s[0] != STAR ==> LiteralLength(s) > 0
  {
    if s != [] && s[0] != STAR {
      LiteralHasNoStar(s[1..]);
      assert s[..LiteralLength(s)] == [s[0]] + s[1..][..LiteralLength(s[1..])];
    }
  }

  function Literals(s: string): seq<string>
    decreases |s|
  {
    if s == [] then []
    else if s[0] == STAR then Literals(s[1..])
    else
      LiteralHasNoStar(s);
      [s[..LiteralLength(s)]] + Literals(s[LiteralLength(s)..])
  }

  predicate StartsWithStar(s: string) { s != [] && s[0] == STAR }

  predicate EndsWithStar(s: string) { s != [] && s[|s| - 1] == STAR }

  function Parsed(expr: string): Matcher {
    var body := Body(expr);
    Matcher(CaseSensitive(expr), StartsWithStar(body), EndsWithStar(body), Literals(body))
  }

  /** The parts occur one after the other; `lead` says whether a star stands before the next one. */
  ghost predicate Lang(parts: seq<string>, lead: bool, ends: bool, text: string, cs: bool)
    decreases |parts|
  {
    if parts == [] then lead || text == []
    else exists k: nat :: PartAt(parts, lead, ends, text, cs, k)
  }

  ghost predicate PartAt(parts: seq<string>, lead: bool, ends: bool, text: string, cs: bool, k: nat)
    requires parts != []
    decreases |parts|, 0
  {
    && (lead || k == 0)
    && OccursAt(text, parts[0], k, cs)
    && Lang(parts[1..], |parts| > 1 || ends, ends, text[k + |parts[0]|..], cs)
  }

  ghost predicate InLanguage(m: Matcher, text: string) {
    Lang(m.parts, m.starts, m.ends, text, m.cs)
  }

  lemma FirstPartAt(parts: seq<string>, lead: bool, ends: bool, text: string, cs: bool) returns (k: nat)
    requires parts != [] && Lang(parts, lead, ends, text, cs)
    ensures PartAt(parts, lead, ends, text, cs, k)
  {
    k :| PartAt(parts, lead, ends, text, cs, k);
  }

  // Glob and parts define the same language ----------------------------------------

  lemma {:induction false} GlobLiteral(body: string, text: string, cs: bool)
    requires body != [] && body[0] != STAR
    ensures
      var n := LiteralLength(body);
      Glob(body, text, cs) <==> OccursAt(text, body[..n], 0, cs) && Glob(body[n..], text[n..], cs)
    decreases |body|
  {
    var n := LiteralLength(body);
    if text != [] && Same(text[0], body[0], cs) {
      if |body| > 1 && body[1] != STAR {
        GlobLiteral(body[1..], text[1..], cs);
        ShiftOccurrence(text, body[..n], cs);
        if n <= |text| {
          assert body[1..][n - 1..] == body[n..] && text[1..][n - 1..] == text[n..];
        }
        assert body[1..][..n - 1] == body[..n][1..];
      } else {
        assert n == 1;
      }
    }
  }

  lemma ShiftOccurrence(text: string, part: string, cs: bool)
    requires text != [] && part != [] && Same(text[0], part[0], cs)
    ensures OccursAt(text, part, 0, cs) <==> OccursAt(text[1..], part[1..], 0, cs)
  {
    if OccursAt(text[1..], part[1..], 0, cs) {
      forall i | 0 <= i < |part|
        ensures Same(text[i], part[i], cs)
      {
        if i > 0 { assert Same(text[1..][0 + (i - 1)], part[1..][i - 1], cs); }
      }
    }
  }

  lemma {:induction false} GlobStar(rest: string, text: string, cs: bool)
    ensures Glob([STAR] + rest, text, cs) <==> exists k: nat :: k <= |text| && Glob(rest, text[k..], cs)
    decreases |text|
  {
    var body := [STAR] + rest;
    assert body[1..] == rest;
    assert text[0..] == text;
    if text == [] {
      assert Glob(rest, text[0..], cs) == Glob(body, text, cs);
    } else {
      GlobStar(rest, text[1..], cs);
      if Glob(body, text[1..], cs) {
        var k: nat :| k <= |text[1..]| && Glob(rest, text[1..][k..], cs);
        assert text[1..][k..] == text[k + 1..];
      }
      forall k: nat | k <= |text| && Glob(rest, text[k..], cs)
        ensures Glob(body, text, cs)
      {
        if k > 0 {
          assert text[1..][k - 1..] == text[k..];
        }
      }
    }
  }

  /** A leading star lets the parts start anywhere. */
  lemma {:induction false} LeadStar(parts: seq<string>, lead: bool, ends: bool, text: string, cs: bool)
    ensures Lang(parts, true, ends, text, cs)
      <==> exists k: nat :: k <= |text| && Lang(parts, lead, ends, text[k..], cs)
  {
    if parts == [] {
      assert Lang(parts, lead, ends, text[|text|..], cs);
    } else {
      if Lang(parts, true, ends, text, cs) {
        var k := FirstPartAt(parts, true, ends, text, cs);
        assert text[k..][0 + |parts[0]|..] == text[k + |parts[0]|..];
        assert PartAt(parts, lead, ends, text[k..], cs, 0);
      }
      forall k: nat | k <= |text| && Lang(parts, lead, ends, text[k..], cs)
        ensures Lang(parts, true, ends, text, cs)
      {
        var j := FirstPartAt(parts, lead, ends, text[k..], cs);
        assert text[k..][j + |parts[0]|..] == text[k + j + |parts[0]|..];
        forall i | 0 <= i < |parts[0]|
          ensures Same(text[k + j + i], parts[0][i], cs)
        {
          assert Same(text[k..][j + i], parts[0][i], cs);
        }
        assert PartAt(parts, true, ends, text, cs, k + j);
      }
    }
  }

  lemma {:induction false} NoPartsMeansStars(s: string)
    requires s != [] && Literals(s) == []
    ensures EndsWithStar(s)
    decreases |s|
  {
    if s[0] == STAR && |s| > 1 {
      NoPartsMeansStars(s[1..]);
    }
  }

  /** The parser loses nothing: its parts and two flags define the language of the pattern. */
  lemma {:induction false} PartsDefineTheGlob(body: string, text: string, cs: bool)
    ensures Glob(body, text, cs)
      <==> Lang(Literals(body), StartsWithStar(body), EndsWithStar(body), text, cs)
    decreases |body|
  {
    if body == [] {
    } else if body[0] == STAR {
      var rest := body[1..];
      assert body == [STAR] + rest;
      GlobStar(rest, text, cs);
      forall k: nat | k <= |text|
        ensures Glob(rest, text[k..], cs)
          <==> Lang(Literals(rest), StartsWithStar(rest), EndsWithStar(rest), text[k..], cs)
      {
        PartsDefineTheGlob(rest, text[k..], cs);
      }
      LeadStar(Literals(rest), StartsWithStar(rest), EndsWithStar(rest), text, cs);
      if rest == [] {
        assert Glob(rest, text[|text|..], cs);
      }
    } else {
      LiteralThenRest(body, text, cs);
    }
  }

  lemma {:induction false} LiteralThenRest(body: string, text: string, cs: bool)
    requires body != [] && body[0] != STAR
    ensures Glob(body, text, cs)
      <==> Lang(Literals(body), StartsWithStar(body), EndsWithStar(body), text, cs)
    decreases |body|, 0
  {
    var n := LiteralLength(body);
    var rest := body[n..];
    var parts := Literals(body);
    var ends := EndsWithStar(body);
    LiteralHasNoStar(body);
    GlobLiteral(body, text, cs);
    assert parts == [body[..n]] + Literals(rest);
    assert parts[1..] == Literals(rest);
    if rest == [] {
      assert body[..n] == body;
      assert !ends;
    } else {
      assert StartsWithStar(rest) && EndsWithStar(rest) == ends;
      if Literals(rest) == [] { NoPartsMeansStars(rest); }
    }
    assert StartsWithStar(rest) == (|parts| > 1 || ends);
    if OccursAt(text, body[..n], 0, cs) {
      PartsDefineTheGlob(rest, text[n..], cs);
      assert PartAt(parts, false, ends, text, cs, 0) == Glob(rest, text[n..], cs);
    }
    assert forall k: nat :: PartAt(parts, false, ends, text, cs, k) ==> k == 0;
  }

  lemma ParsedDefinesTheGlob(expr: string, text: string)
    ensures InLanguage(Parsed(expr), text) <==> Glob(Body(expr), text, CaseSensitive(expr))
  {
    PartsDefineTheGlob(Body(expr), text, CaseSensitive(expr));
  }

  // What matching accepts --------------------------------------------------------------

  /** The summed length of the first `n` parts. */
  function Total(parts: seq<string>, n: nat): nat
    requires n <= |parts|
  {
    if n == 0 then 0 else |parts[0]| + Total(parts[1..], n - 1)
  }

  lemma {:induction false} OneMore(parts: seq<string>, n: nat)
    requires n < |parts|
    ensures Total(parts, n + 1) == Total(parts, n) + |parts[n]|
  {
    if n > 0 {
      OneMore(parts[1..], n - 1);
    }
  }

  function LoopCount(m: Matcher): nat {
    if |m.parts| > 0 && !m.ends then |m.parts| - 1 else |m.parts|
  }

  ghost predicate OccursFrom(text: string, part: string, from: nat, cs: bool) {
    exists q: nat :: from <= q && OccursAt(text, part, q, cs)
  }

  /** A loop part only has to occur at or after the summed lengths of the earlier parts. */
  ghost predicate LoopPart(m: Matcher, text: string, i: nat)
    requires i < |m.parts|
  {
    if i == 0 && !m.starts then OccursAt(text, m.parts[0], 0, m.cs)
    else OccursFrom(text, m.parts[i], Total(m.parts, i), m.cs)
  }

  predicate LastPart(m: Matcher, text: string)
    requires m.parts != []
  {
    var last := m.parts[|m.parts| - 1];
    if !m.starts && |m.parts| == 1 then SameText(last, text, m.cs) else IsSuffix(last, text, m.cs)
  }

  ghost predicate Accepts(m: Matcher, text: string) {
    && (m.parts == [] && !m.starts ==> text == [])
    && (forall i: nat {:trigger LoopPart(m, text, i)} | i < LoopCount(m) :: LoopPart(m, text, i))
    && (m.parts != [] && !m.ends ==> LastPart(m, text))
  }

  method FindSubString(haystack: string, needle: string, offset: nat, cs: bool) returns (pos: Option<nat>)
    requires offset <= |haystack|
    ensures pos.None? ==> forall q: nat :: offset <= q ==> !OccursAt(haystack, needle, q, cs)
    ensures pos.Some? ==> offset <= pos.value && OccursAt(haystack, needle, pos.value, cs)
    ensures pos.Some? ==> forall q: nat :: offset <= q < pos.value ==> !OccursAt(haystack, needle, q, cs)
  {
    var q := offset;
    while q + |needle| <= |haystack|
      invariant offset <= q
      invariant forall r: nat :: offset <= r < q ==> !OccursAt(haystack, needle, r, cs)
    {
      if OccursAt(haystack, needle, q, cs) {
        return Some(q);
      }
      q := q + 1;
    }
    return None;
  }

  method Match(m: Matcher, text: string) returns (ok: bool)
    ensures ok <==> Accepts(m, text)
  {
    if !m.starts && m.parts == [] && text != [] {
      return false;
    }
    var allowAnyPrefix := m.starts;
    var textPos := 0;
    var loopParts := |m.parts|;
    if loopParts > 0 && !m.ends {
      loopParts := loopParts - 1;
    }
    var i := 0;
    while i < loopParts
      invariant 0 <= i <= loopParts == LoopCount(m)
      invariant textPos == Total(m.parts, i) <= |text|
      invariant allowAnyPrefix <==> m.starts || i > 0
      invariant forall j: nat {:trigger LoopPart(m, text, j)} | j < i :: LoopPart(m, text, j)
    {
      var part := m.parts[i];
      var pos := FindSubString(text, part, textPos, m.cs);
      if pos.None? {
        assert !LoopPart(m, text, i);
        return false;
      }
      if !allowAnyPrefix && pos.value != textPos {
        assert !LoopPart(m, text, i);
        return false;
      }
      assert LoopPart(m, text, i);
      OneMore(m.parts, i);
      textPos := textPos + |part|;
      allowAnyPrefix := true;
      i := i + 1;
    }
    if loopParts < |m.parts| {
      var last := m.parts[|m.parts| - 1];
      if !m.starts && |m.parts| == 1 {
        if !SameText(last, text, m.cs) {
          return false;
        }
      } else if !IsSuffix(last, text, m.cs) {
        return false;
      }
    }
    return true;
  }

  lemma RoomAfter(text: string, part: string, skip: nat, from: nat, cs: bool)
    requires skip <= |text|
    requires OccursFrom(text[skip..], part, from, cs)
    ensures OccursFrom(text, part, skip + from, cs)
  {
    var q: nat :| from <= q && OccursAt(text[skip..], part, q, cs);
    Shifted(text, part, skip, q, cs);
    assert OccursAt(text, part, skip + q, cs);
  }

  lemma RoomAfterSuffix(text: string, part: string, skip: nat, cs: bool)
    requires skip <= |text| && IsSuffix(part, text[skip..], cs)
    ensures IsSuffix(part, text, cs)
  {
    Shifted(text, part, skip, |text[skip..]| - |part|, cs);
  }

  /** Every occurrence that the language asks for leaves room for the parts before it. */
  lemma {:induction false} LangLeavesRoom(parts: seq<string>, lead: bool, ends: bool, text: string, cs: bool, i: nat)
    requires Lang(parts, lead, ends, text, cs)
    requires i < |parts|
    ensures OccursFrom(text, parts[i], Total(parts, i), cs)
    ensures i == |parts| - 1 && !ends ==> IsSuffix(parts[i], text, cs)
    decreases |parts|
  {
    var k := FirstPartAt(parts, lead, ends, text, cs);
    var skip := k + |parts[0]|;
    if i > 0 {
      LangLeavesRoom(parts[1..], true, ends, text[skip..], cs, i - 1);
      assert parts[1..][i - 1] == parts[i];
      RoomAfter(text, parts[i], skip, Total(parts[1..], i - 1), cs);
      if i == |parts| - 1 && !ends { RoomAfterSuffix(text, parts[i], skip, cs); }
    } else if |parts| == 1 && !ends {
      assert text[skip..] == [];
      assert k == |text| - |parts[0]|;
    }
  }

  lemma Shifted(text: string, part: string, skip: nat, q: nat, cs: bool)
    requires skip <= |text|
    ensures OccursAt(text[skip..], part, q, cs) <==> OccursAt(text, part, skip + q, cs)
  {
    var t := text[skip..];
    if OccursAt(t, part, q, cs) {
      forall i | 0 <= i < |part|
        ensures Same(text[skip + q + i], part[i], cs)
      {
        assert Same(t[q + i], part[i], cs);
      }
    }
    if OccursAt(text, part, skip + q, cs) {
      forall i | 0 <= i < |part|
        ensures Same(t[q + i], part[i], cs)
      {
        assert Same(text[skip + q + i], part[i], cs);
      }
    }
  }

  /** No text of the pattern's language is ever refused. */
  lemma MatchIsComplete(m: Matcher, text: string)
    requires InLanguage(m, text)
    ensures Accepts(m, text)
  {
    if m.parts != [] {
      var k := FirstPartAt(m.parts, m.starts, m.ends, text, m.cs);
      forall i: nat | i < LoopCount(m)
        ensures LoopPart(m, text, i)
      {
        LangLeavesRoom(m.parts, m.starts, m.ends, text, m.cs, i);
      }
      if !m.ends {
        LangLeavesRoom(m.parts, m.starts, m.ends, text, m.cs, |m.parts| - 1);
        if !m.starts && |m.parts| == 1 {
          assert text[0 + |m.parts[0]|..] == [];
        }
      }
    }
  }

  // Parsing -----------------------------------------------------------------------------

  lemma {:induction false} LiteralEnds(s: string, n: nat)
    requires n <= |s| && STAR !in s[..n]
    requires n < |s| ==> s[n] == STAR
    ensures LiteralLength(s) == n
  {
    if n > 0 {
      assert s[0] == s[..n][0];
      assert s[1..][..n - 1] == s[..n][1..];
      LiteralEnds(s[1..], n - 1);
    }
  }

  lemma OccurrenceOfStar(s: string, q: nat)
    requires q < |s|
    ensures OccursAt(s, [STAR], q, true) <==> s[q] == STAR
  {
    if OccursAt(s, [STAR], q, true) {
      assert Same(s[q + 0], [STAR][0], true);
    }
  }

  /** The literal that starts at `pos` ends at the next star or at the end. */
  lemma NextStarEndsLiteral(s: string, pos: nat, end: nat)
    requires pos <= end <= |s|
    requires forall q: nat :: pos <= q < end ==> !OccursAt(s, [STAR], q, true)
    requires end < |s| ==> OccursAt(s, [STAR], end, true)
    ensures LiteralLength(s[pos..]) == end - pos
  {
    if end < |s| { OccurrenceOfStar(s, end); }
    forall q: nat | pos <= q < end
      ensures s[q] != STAR
    {
      OccurrenceOfStar(s, q);
    }
    assert s[pos..][..end - pos] == s[pos..end];
    LiteralEnds(s[pos..], end - pos);
  }

  lemma StarStep(s: string, pos: nat)
    requires pos < |s| && s[pos] == STAR
    ensures Literals(s[pos..]) == Literals(s[pos + 1..])
  {
    assert s[pos..][1..] == s[pos + 1..];
  }

  lemma LiteralStep(s: string, pos: nat, end: nat)
    requires pos < end <= |s| && LiteralLength(s[pos..]) == end - pos
    ensures Literals(s[pos..]) == [s[pos..end]] + Literals(s[end..])
    ensures s[pos] != STAR && s[end - 1] != STAR
  {
    LiteralHasNoStar(s[pos..]);
    var p := s[pos..][..end - pos];
    assert p == s[pos..end] && s[pos..][end - pos..] == s[end..];
    assert p[0] == s[pos] && p[end - pos - 1] == s[end - 1];
  }

  /** What the parser knows after reading `expr[start..pos]`. */
  ghost predicate Reading(expr: string, start: nat, pos: nat, parts: seq<string>, starts: bool, lastWasStar: bool) {
    && start <= pos <= |expr|
    && parts + Literals(expr[pos..]) == Literals(expr[start..])
    && (starts <==> pos > start && expr[start] == STAR)
    && (parts == [] && pos > start ==> expr[start] == STAR)
    && (lastWasStar <==> pos > start && expr[pos - 1] == STAR)
  }

  lemma ReadStar(expr: string, start: nat, pos: nat, parts: seq<string>, starts: bool, lastWasStar: bool)
    requires Reading(expr, start, pos, parts, starts, lastWasStar)
    requires pos < |expr| && expr[pos] == STAR
    ensures Reading(expr, start, pos + 1, parts, starts || parts == [], true)
  {
    StarStep(expr, pos);
  }

  lemma ReadLiteral(expr: string, start: nat, pos: nat, end: nat, parts: seq<string>, starts: bool, lastWasStar: bool)
    requires Reading(expr, start, pos, parts, starts, lastWasStar)
    requires pos < end <= |expr| && LiteralLength(expr[pos..]) == end - pos
    ensures Reading(expr, start, end, parts + [expr[pos..end]], starts, false)
  {
    LiteralStep(expr, pos, end);
    var part, rest := [expr[pos..end]], Literals(expr[end..]);
    Regroup(parts, part, rest);
  }

  lemma ReadAll(expr: string, start: nat, parts: seq<string>, starts: bool, lastWasStar: bool)
    requires start == if CaseSensitive(expr) then |PREFIX| else 0
    requires Reading(expr, start, |expr|, parts, starts, lastWasStar)
    ensures Matcher(CaseSensitive(expr), starts, lastWasStar, parts) == Parsed(expr)
  {
    assert expr[start..] == Body(expr);
    assert expr[|expr|..] == [];
  }

  method Parse(expr: string) returns (m: Matcher)
    ensures m == Parsed(expr)
  {
    var cs := CaseSensitive(expr);
    var pos := if cs then |PREFIX| else 0;
    ghost var start := pos;
    var parts: seq<string>, starts, lastWasStar := [], false, false;
    while pos < |expr|
      invariant Reading(expr, start, pos, parts, starts, lastWasStar)
    {
      var next := FindSubString(expr, [STAR], pos, true);
      var partEnd := if next.None? then |expr| else next.value;
      NextStarEndsLiteral(expr, pos, partEnd);
      if next == Some(pos) {
        OccurrenceOfStar(expr, pos);
        ReadStar(expr, start, pos, parts, starts, lastWasStar);
        lastWasStar := true;
        if parts == [] {
          starts := true;
        }
        pos := pos + 1;
      } else {
        ReadLiteral(expr, start, pos, partEnd, parts, starts, lastWasStar);
        lastWasStar := false;
        parts := parts + [expr[pos..partEnd]];
        pos := partEnd;
      }
    }
    ReadAll(expr, start, parts, starts, lastWasStar);
    m := Matcher(cs, starts, lastWasStar, parts);
  }

  predicate IsLiteral(p: string) {
    p != [] && STAR !in p
  }

  predicate AllLiterals(parts: seq<string>) {
    forall i | 0 <= i < |parts| :: IsLiteral(parts[i])
  }

  predicate WellFormed(m: Matcher) {
    && AllLiterals(m.parts)
    && (m.parts == [] ==> m.starts == m.ends)
  }

  lemma {:induction false} LiteralsAreWellFormed(s: string)
    ensures AllLiterals(Literals(s))
    ensures Literals(s) == [] ==> StartsWithStar(s) == EndsWithStar(s)
    decreases |s|
  {
    if s == [] {
    } else if s[0] == STAR {
      LiteralsAreWellFormed(s[1..]);
      if Literals(s) == [] { NoPartsMeansStars(s); }
    } else {
      LiteralHasNoStar(s);
      LiteralsAreWellFormed(s[LiteralLength(s)..]);
    }
  }

  lemma ParsedIsWellFormed(expr: string)
    ensures WellFormed(Parsed(expr))
  {
    LiteralsAreWellFormed(Body(expr));
  }

  // Printing ----------------------------------------------------------------------------

  /** The parts with one star before each but the first. */
  function Starred(parts: seq<string>, first: bool): string {
    if parts == [] then [] else (if first then [] else [STAR]) + parts[0] + Starred(parts[1..], false)
  }

  function GroupName(m: Matcher): string {
    (if m.starts then [STAR] else []) + Starred(m.parts, true) + (if m.ends then [STAR] else [])
  }

  function ToString(m: Matcher): string {
    if m.cs then PREFIX + GroupName(m) else GroupName(m)
  }

  lemma StarredStep(parts: seq<string>, i: nat)
    requires i < |parts|
    ensures Starred(parts[i..], true) == parts[i] + Starred(parts[i + 1..], false)
    ensures Starred(parts[i..], false) == [STAR] + parts[i] + Starred(parts[i + 1..], false)
  {
    assert parts[i..][1..] == parts[i + 1..];
  }

  method Print(m: Matcher) returns (result: string)
    ensures result == ToString(m)
  {
    result := "";
    if m.starts {
      result := result + [STAR];
    }
    ghost var lead := result;
    var isFirst := true;
    for i := 0 to |m.parts|
      invariant isFirst <==> i == 0
      invariant result + Starred(m.parts[i..], isFirst) == lead + Starred(m.parts, true)
    {
      StarredStep(m.parts, i);
      if isFirst {
        isFirst := false;
      } else {
        result := result + [STAR];
      }
      result := result + m.parts[i];
    }
    assert m.parts[|m.parts|..] == [] && result == lead + Starred(m.parts, true);
    if m.ends {
      result := result + [STAR];
    }
    assert result == GroupName(m);
    if m.cs {
      result := PREFIX + result;
    }
  }

  lemma {:induction false} LiteralsOfLiteral(p: string, rest: string)
    requires IsLiteral(p)
    requires rest == [] || rest[0] == STAR
    ensures Literals(p + rest) == [p] + Literals(rest)
  {
    var s := p + rest;
    assert s[..|p|] == p && s[|p|..] == rest;
    LiteralEnds(s, |p|);
    assert s[0] == p[0];
  }

  lemma StarredSplit(parts: seq<string>, first: bool, tail: string)
    requires parts != []
    ensures
      var rest := parts[0] + (Starred(parts[1..], false) + tail);
      Starred(parts, first) + tail == if first then rest else [STAR] + rest
  {
    var p, t := parts[0], Starred(parts[1..], false);
    Regroup(p, t, tail);
    if first {
      DropEmpty(p, t);
    } else {
      var lead := [STAR];
      Regroup(lead, p, t);
      Regroup(lead, p + t, tail);
    }
  }

  lemma DropEmpty(p: string, t: string)
    ensures [] + p + t == p + t
  {}

  lemma LiteralsOfFirst(parts: seq<string>, first: bool, tail: string)
    requires parts != [] && IsLiteral(parts[0])
    requires tail == [] || tail == [STAR]
    ensures Literals(Starred(parts, first) + tail) == [parts[0]] + Literals(Starred(parts[1..], false) + tail)
  {
    var rest := Starred(parts[1..], false) + tail;
    LiteralsOfLiteral(parts[0], rest);
    StarredSplit(parts, first, tail);
  }

  lemma {:induction false} LiteralsOfStarred(parts: seq<string>, first: bool, tail: string)
    requires AllLiterals(parts)
    requires tail == [] || tail == [STAR]
    ensures Literals(Starred(parts, first) + tail) == parts
  {
    if parts == [] {
      assert Starred(parts, first) + tail == tail;
    } else {
      LiteralsOfFirst(parts, first, tail);
      LiteralsOfStarred(parts[1..], false, tail);
    }
  }

  lemma {:induction false} StarredEnd(parts: seq<string>, first: bool)
    requires AllLiterals(parts)
    requires parts != []
    ensures Starred(parts, first) != [] && !EndsWithStar(Starred(parts, first))
  {
    var s := Starred(parts, first);
    assert IsLiteral(parts[0]);
    if |parts| == 1 {
      var lead := if first then [] else [STAR];
      assert parts[1..] == [];
      assert Starred(parts[1..], false) == [];
      assert s == lead + parts[0] + [];
      assert s[|s| - 1] == parts[0][|parts[0]| - 1];
    } else {
      StarredEnd(parts[1..], false);
      var t := Starred(parts[1..], false);
      assert s[|s| - 1] == t[|t| - 1];
    }
  }

  lemma PrintedEnds(m: Matcher)
    requires WellFormed(m)
    ensures StartsWithStar(GroupName(m)) == m.starts
    ensures EndsWithStar(GroupName(m)) == m.ends
  {
    var s := GroupName(m);
    if m.parts != [] {
      assert IsLiteral(m.parts[0]);
      StarredEnd(m.parts, true);
      var t := Starred(m.parts, true);
      if !m.starts { assert s[0] == t[0] == m.parts[0][0]; }
      if !m.ends { assert s[|s| - 1] == t[|t| - 1]; }
    }
  }

  lemma PrintedParts(m: Matcher)
    requires WellFormed(m)
    ensures Literals(GroupName(m)) == m.parts
  {
    var tail := if m.ends then [STAR] else [];
    LiteralsOfStarred(m.parts, true, tail);
    var s := Starred(m.parts, true) + tail;
    if m.starts {
      assert GroupName(m) == [STAR] + s;
      assert GroupName(m)[1..] == s;
    } else {
      assert GroupName(m) == s;
    }
  }

  /** The leading literal of a case insensitive pattern is not the case sensitivity mark. */
  predicate Unmarked(m: Matcher) {
    !m.cs && !m.starts && m.parts != [] ==> !CaseSensitive(m.parts[0])
  }

  lemma AfterFirstPart(m: Matcher)
    requires m.parts != [] && !m.starts
    requires |m.parts[0]| < |GroupName(m)|
    ensures GroupName(m)[|m.parts[0]|] == STAR
  {
    var p := m.parts[0];
    if |m.parts| > 1 {
      assert Starred(m.parts[1..], false)[0] == STAR;
    }
  }

  lemma PrintedIsUnmarked(m: Matcher)
    requires WellFormed(m) && Unmarked(m) && !m.cs
    ensures !CaseSensitive(GroupName(m))
  {
    var g := GroupName(m);
    if |PREFIX| <= |g| {
      if m.starts {
        assert g[..|PREFIX|][0] == STAR;
      } else {
        var p := m.parts[0];
        if |PREFIX| <= |p| {
          assert g[..|PREFIX|] == p[..|PREFIX|];
        } else {
          AfterFirstPart(m);
          assert g[..|PREFIX|][|p|] == STAR != PREFIX[|p|];
        }
      }
    }
  }

  lemma PrintedMark(m: Matcher)
    requires WellFormed(m) && Unmarked(m)
    ensures CaseSensitive(ToString(m)) == m.cs
    ensures Body(ToString(m)) == GroupName(m)
  {
    if m.cs {
      assert ToString(m)[..|PREFIX|] == PREFIX && ToString(m)[|PREFIX|..] == GroupName(m);
    } else {
      PrintedIsUnmarked(m);
    }
  }

  /** What the printer writes, the parser reads back unchanged. */
  lemma ParseInvertsPrint(m: Matcher)
    requires WellFormed(m) && Unmarked(m)
    ensures Parsed(ToString(m)) == m
  {
    PrintedMark(m);
    PrintedEnds(m);
    PrintedParts(m);
  }

  /** Parsing is stable under printing. */
  lemma PrintingIsStable(expr: string)
    ensures Parsed(ToString(Parsed(expr))) == Parsed(expr)
  {
    ParsedIsWellFormed(expr);
    ParseInvertsPrint(Parsed(expr));
  }

  /** Collapsing runs of stars, as the printer does, keeps the language. */
  lemma CollapsingKeepsTheGlob(expr: string, text: string)
    ensures
      var m := Parsed(expr);
      Glob(GroupName(m), text, m.cs) <==> Glob(Body(expr), text, m.cs)
  {
    var m := Parsed(expr);
    ParsedIsWellFormed(expr);
    PrintedEnds(m);
    PrintedParts(m);
    PartsDefineTheGlob(GroupName(m), text, m.cs);
    PartsDefineTheGlob(Body(expr), text, m.cs);
  }
}
