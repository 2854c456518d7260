/**
 What patterns mean, character by character: what counts as the same letter, what a star and a
 literal stand for, and what the case sensitivity mark does.
 */
module WildcardMeaning {
  import opened Wildcard

  // Letters ---------------------------------------------------------------------------

  /** Without regard to case two characters agree exactly when they are equal or one of them is a
      letter from A to Z and the other the same letter from a to z; with regard to it, when they are equal. */
  lemma SameIff(c: char, d: char, cs: bool)
    ensures Same(c, d, cs) <==>
      || c == d
      || (!cs && 'A' <= c <= 'Z' && d as int == c as int + 32)
      || (!cs && 'A' <= d <= 'Z' && c as int == d as int + 32)
  {
  }

  lemma VariantsOccurAlike(a: string, b: string, p: string, q: string, at: nat)
    requires |a| == |b| && |p| == |q|
    requires forall i | 0 <= i < |a| :: Same(a[i], b[i], false)
    requires forall i | 0 <= i < |p| :: Same(p[i], q[i], false)
    ensures OccursAt(a, p, at, false) <==> OccursAt(b, q, at, false)
  {
    if at + |p| <= |a| {
      forall i | 0 <= i < |p|
        ensures Same(a[at + i], p[i], false) <==> Same(b[at + i], q[i], false)
      {
        assert Same(a[at + i], b[at + i], false) && Same(p[i], q[i], false);
      }
      if OccursAt(a, p, at, false) {
        forall i | 0 <= i < |p|
          ensures Same(b[at + i], q[i], false)
        {
          assert Same(a[at + i], p[i], false);
        }
      }
      if OccursAt(b, q, at, false) {
        forall i | 0 <= i < |p|
          ensures Same(a[at + i], p[i], false)
        {
          assert Same(b[at + i], q[i], false);
        }
      }
    }
  }

  /** Parts of the same lengths that differ only by the case of letters. */
  predicate Variants(ps: seq<string>, qs: seq<string>) {
    && |ps| == |qs|
    && forall i | 0 <= i < |ps| :: VariantTexts(ps[i], qs[i])
  }

  predicate VariantTexts(p: string, q: string) {
    |p| == |q| && forall i | 0 <= i < |p| :: Same(p[i], q[i], false)
  }

  lemma {:induction false} VariantTotals(ps: seq<string>, qs: seq<string>, n: nat)
    requires Variants(ps, qs) && n <= |ps|
    ensures Total(ps, n) == Total(qs, n)
  {
    if n > 0 {
      assert VariantTexts(ps[0], qs[0]);
      forall i | 0 <= i < |ps[1..]|
        ensures VariantTexts(ps[1..][i], qs[1..][i])
      {
        assert VariantTexts(ps[i + 1], qs[i + 1]);
      }
      VariantTotals(ps[1..], qs[1..], n - 1);
    }
  }

  lemma VariantLoopPart(m: Matcher, n: Matcher, a: string, b: string, i: nat)
    requires !m.cs && n == m.(parts := n.parts) && Variants(m.parts, n.parts) && VariantTexts(a, b)
    requires i < |m.parts| && LoopPart(m, a, i)
    ensures LoopPart(n, b, i)
  {
    assert VariantTexts(m.parts[i], n.parts[i]);
    VariantTotals(m.parts, n.parts, i);
    if i == 0 && !m.starts {
      VariantsOccurAlike(a, b, m.parts[0], n.parts[0], 0);
    } else {
      var q: nat :| Total(m.parts, i) <= q && OccursAt(a, m.parts[i], q, false);
      VariantsOccurAlike(a, b, m.parts[i], n.parts[i], q);
    }
  }

  lemma VariantLastPart(m: Matcher, n: Matcher, a: string, b: string)
    requires !m.cs && n == m.(parts := n.parts) && Variants(m.parts, n.parts) && VariantTexts(a, b)
    requires m.parts != [] && LastPart(m, a)
    ensures LastPart(n, b)
  {
    var k := |m.parts| - 1;
    var p, q := m.parts[k], n.parts[k];
    assert VariantTexts(p, q);
    if !m.starts && |m.parts| == 1 {
      VariantsOccurAlike(p, q, a, b, 0);
    } else {
      VariantsOccurAlike(a, b, p, q, |a| - |p|);
    }
  }

  lemma VariantsAccepted(m: Matcher, n: Matcher, a: string, b: string)
    requires !m.cs && n == m.(parts := n.parts) && Variants(m.parts, n.parts) && VariantTexts(a, b)
    requires Accepts(m, a)
    ensures Accepts(n, b)
  {
    forall i: nat | i < LoopCount(n)
      ensures LoopPart(n, b, i)
    {
      VariantLoopPart(m, n, a, b, i);
    }
    if m.parts != [] && !m.ends { VariantLastPart(m, n, a, b); }
  }

  /** Texts that differ only by the case of letters are accepted alike by a pattern without the mark. */
  lemma CaseOfTextIsIgnored(m: Matcher, a: string, b: string)
    requires !m.cs && |a| == |b|
    requires forall i | 0 <= i < |a| ::
               || a[i] == b[i]
               || ('A' <= a[i] <= 'Z' && b[i] as int == a[i] as int + 32)
               || ('A' <= b[i] <= 'Z' && a[i] as int == b[i] as int + 32)
    ensures Accepts(m, a) <==> Accepts(m, b)
  {
    if Accepts(m, a) { VariantsAccepted(m, m, a, b); }
    if Accepts(m, b) { VariantsAccepted(m, m, b, a); }
  }

  /** So are the texts by patterns whose literals differ only by the case of letters. */
  lemma CaseOfPatternIsIgnored(m: Matcher, n: Matcher, text: string)
    requires !m.cs && n == m.(parts := n.parts) && |m.parts| == |n.parts|
    requires forall k | 0 <= k < |m.parts| ::
               && |m.parts[k]| == |n.parts[k]|
               && forall i | 0 <= i < |m.parts[k]| ::
                    var c, d := m.parts[k][i], n.parts[k][i];
                    || c == d
                    || ('A' <= c <= 'Z' && d as int == c as int + 32)
                    || ('A' <= d <= 'Z' && c as int == d as int + 32)
    ensures Accepts(m, text) <==> Accepts(n, text)
  {
    forall k | 0 <= k < |m.parts|
      ensures VariantTexts(m.parts[k], n.parts[k]) && VariantTexts(n.parts[k], m.parts[k])
    {
    }
    if Accepts(m, text) { VariantsAccepted(m, n, text, text); }
    if Accepts(n, text) { VariantsAccepted(n, m, text, text); }
  }

  // Literals and stars -----------------------------------------------------------------

  lemma {:induction false} GlobOfPlain(p: string, text: string, cs: bool)
    requires '*' !in p
    ensures Glob(p, text, cs) <==> |text| == |p| && forall i | 0 <= i < |p| :: Same(text[i], p[i], cs)
  {
    if p != [] {
      assert p[0] in p;
      if text != [] {
        GlobOfPlain(p[1..], text[1..], cs);
        assert p == [p[0]] + p[1..] && text == [text[0]] + text[1..];
      }
    }
  }

  /** A pattern without a star stands for the texts that agree with it in every place. */
  lemma GlobOfLiteral(p: string, text: string, cs: bool)
    requires '*' !in p
    ensures Glob(p, text, cs) <==>
      && |text| == |p|
      && forall i | 0 <= i < |p| ::
           || text[i] == p[i]
           || (!cs && 'A' <= text[i] <= 'Z' && p[i] as int == text[i] as int + 32)
           || (!cs && 'A' <= p[i] <= 'Z' && text[i] as int == p[i] as int + 32)
  {
    GlobOfPlain(p, text, cs);
  }

  ghost predicate SplitsAt(a: string, c: string, text: string, cs: bool, i: nat) {
    i <= |text| && Glob(a, text[..i], cs) && Glob(c, text[i..], cs)
  }

  ghost predicate Splits(a: string, c: string, text: string, cs: bool) {
    exists i: nat :: SplitsAt(a, c, text, cs, i)
  }

  /** What takes the first character of a text with it. */
  lemma SplitsLater(a: string, c: string, text: string, cs: bool, i: nat)
    requires text != [] && i < |text|
    ensures text[1..][..i] == text[..i + 1][1..] && text[1..][i..] == text[i + 1..]
  {
  }

  lemma SplitStar(a: string, c: string, text: string, cs: bool)
    requires a != [] && a[0] == STAR
    ensures Splits(a, c, text, cs) <==> Splits(a[1..], c, text, cs) || (text != [] && Splits(a, c, text[1..], cs))
  {
    forall i: nat | SplitsAt(a, c, text, cs, i)
      ensures Splits(a[1..], c, text, cs) || (text != [] && Splits(a, c, text[1..], cs))
    {
      if Glob(a[1..], text[..i], cs) {
        assert SplitsAt(a[1..], c, text, cs, i);
      } else {
        SplitsLater(a, c, text, cs, i - 1);
        assert SplitsAt(a, c, text[1..], cs, i - 1);
      }
    }
    forall i: nat | SplitsAt(a[1..], c, text, cs, i)
      ensures Splits(a, c, text, cs)
    {
      assert SplitsAt(a, c, text, cs, i);
    }
    if text != [] {
      forall i: nat | SplitsAt(a, c, text[1..], cs, i)
        ensures Splits(a, c, text, cs)
      {
        SplitsLater(a, c, text, cs, i);
        assert SplitsAt(a, c, text, cs, i + 1);
      }
    }
  }

  lemma SplitCharacter(a: string, c: string, text: string, cs: bool)
    requires a != [] && a[0] != STAR
    ensures Splits(a, c, text, cs) <==> text != [] && Same(text[0], a[0], cs) && Splits(a[1..], c, text[1..], cs)
  {
    forall i: nat | SplitsAt(a, c, text, cs, i)
      ensures text != [] && Same(text[0], a[0], cs) && Splits(a[1..], c, text[1..], cs)
    {
      SplitsLater(a, c, text, cs, i - 1);
      assert SplitsAt(a[1..], c, text[1..], cs, i - 1);
    }
    if text != [] && Same(text[0], a[0], cs) {
      forall i: nat | SplitsAt(a[1..], c, text[1..], cs, i)
        ensures Splits(a, c, text, cs)
      {
        SplitsLater(a, c, text, cs, i);
        assert SplitsAt(a, c, text, cs, i + 1);
      }
    }
  }

  lemma {:induction false} GlobOfSum(a: string, c: string, text: string, cs: bool)
    ensures Glob(a + c, text, cs) <==> Splits(a, c, text, cs)
    decreases |a| + |text|
  {
    if a == [] {
      assert a + c == c && text[0..] == text;
      assert SplitsAt(a, c, text, cs, 0) <==> Glob(c, text, cs);
    } else {
      assert (a + c)[0] == a[0] && (a + c)[1..] == a[1..] + c;
      if a[0] == STAR {
        SplitStar(a, c, text, cs);
        GlobOfSum(a[1..], c, text, cs);
        if text != [] { GlobOfSum(a, c, text[1..], cs); }
      } else {
        SplitCharacter(a, c, text, cs);
        if text != [] { GlobOfSum(a[1..], c, text[1..], cs); }
      }
    }
  }

  lemma StarFrom(b: string, text: string, cs: bool, i: nat)
    requires i <= |text|
    ensures Glob([STAR] + b, text[i..], cs) <==> exists j :: i <= j <= |text| && Glob(b, text[j..], cs)
  {
    GlobStar(b, text[i..], cs);
    forall k: nat | k <= |text| - i
      ensures text[i..][k..] == text[i + k..]
    {}
    if j :| i <= j <= |text| && Glob(b, text[j..], cs) {
      assert text[i..][j - i..] == text[j..];
    }
  }

  /** A star stands for any text at all between what comes before it and what comes after it. */
  lemma GlobOfStar(a: string, b: string, text: string, cs: bool)
    ensures Glob(a + (['*'] + b), text, cs) <==>
      exists i, j :: 0 <= i <= j <= |text| && Glob(a, text[..i], cs) && Glob(b, text[j..], cs)
  {
    GlobOfSum(a, [STAR] + b, text, cs);
    if Splits(a, [STAR] + b, text, cs) {
      var i: nat :| SplitsAt(a, [STAR] + b, text, cs, i);
      StarFrom(b, text, cs, i);
      var j :| i <= j <= |text| && Glob(b, text[j..], cs);
    }
    if i, j :| 0 <= i <= j <= |text| && Glob(a, text[..i], cs) && Glob(b, text[j..], cs) {
      StarFrom(b, text, cs, i);
      assert SplitsAt(a, [STAR] + b, text, cs, i);
    }
  }

  lemma PlainBody(p: string)
    requires '*' !in p
    ensures !StartsWithStar(p) && !EndsWithStar(p) && Literals(p) == if p == [] then [] else [p]
  {
    if p != [] {
      assert p[0] in p && p[|p| - 1] in p;
      assert p[..|p|] == p && p[|p|..] == [];
      LiteralEnds(p, |p|);
    }
  }

  predicate Alike(p: string, text: string, cs: bool) {
    |text| == |p| && forall i | 0 <= i < |p| :: Same(p[i], text[i], cs)
  }

  lemma VariantsIff(p: string, text: string)
    ensures Alike(p, text, false) <==>
      && |text| == |p|
      && forall i | 0 <= i < |p| ::
           || text[i] == p[i]
           || ('A' <= text[i] <= 'Z' && p[i] as int == text[i] as int + 32)
           || ('A' <= p[i] <= 'Z' && text[i] as int == p[i] as int + 32)
  {
  }

  lemma PlainAccepts(p: string, text: string, cs: bool)
    requires '*' !in p
    ensures Accepts(Matcher(cs, false, false, if p == [] then [] else [p]), text) <==> Alike(p, text, cs)
  {
    var m := Matcher(cs, false, false, if p == [] then [] else [p]);
    if p != [] { assert LastPart(m, text) == SameText(p, text, cs); }
  }

  lemma PlainMark(p: string)
    requires '*' !in p
    ensures Parsed("(?-i)" + p) == Matcher(true, false, false, if p == [] then [] else [p])
    ensures !("(?-i)" <= p) ==> Parsed(p) == Matcher(false, false, false, if p == [] then [] else [p])
  {
    var e := "(?-i)" + p;
    assert e[..5] == "(?-i)" && e[5..] == p;
    PlainBody(p);
  }

  /** An expression without a star but with the mark "(?-i)" accepts what follows the mark. */
  lemma MarkedExpression(p: string, text: string)
    requires '*' !in p
    ensures Accepts(Parsed("(?-i)" + p), text) <==> text == p
  {
    PlainMark(p);
    PlainAccepts(p, text, true);
    if Alike(p, text, true) {
      assert forall i | 0 <= i < |p| :: p[i] == text[i];
    }
  }

  /** Without the mark it accepts what differs from it only by the case of letters. */
  lemma UnmarkedExpression(p: string, text: string)
    requires '*' !in p && !("(?-i)" <= p)
    ensures Accepts(Parsed(p), text) <==>
      && |text| == |p|
      && forall i | 0 <= i < |p| ::
           || text[i] == p[i]
           || ('A' <= text[i] <= 'Z' && p[i] as int == text[i] as int + 32)
           || ('A' <= p[i] <= 'Z' && text[i] as int == p[i] as int + 32)
  {
    PlainMark(p);
    PlainAccepts(p, text, false);
    VariantsIff(p, text);
  }
}
