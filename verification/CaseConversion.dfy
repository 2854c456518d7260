/**
 The converters between camelCase and snake_case names, and exactly when each undoes the
 other.  Characters stand for bytes; only the ASCII letters have a case.
 */
module CaseConversion {
  import opened Strings

  const UNDERSCORE := '_'

  predicate IsUpper(c: char) { 'A' <= c <= 'Z' }

  predicate IsLower(c: char) { 'a' <= c <= 'z' }

  function ToLower(c: char): (l: char)
    ensures !IsUpper(l)
    ensures IsUpper(c) ==> IsLower(l) && ToUpper(l) == c
  {
    if IsUpper(c) then c - 'A' + 'a' else c
  }

  function ToUpper(c: char): (u: char)
    ensures !IsLower(u)
  {
    if IsLower(c) then c - 'a' + 'A' else c
  }

  // From camelCase to snake_case ---------------------------------------------------

  /** Each capital becomes a lower case letter, with an underscore before it unless it comes first. */
  function Snake(s: string, first: bool): string {
    if s == [] then []
    else if !IsUpper(s[0]) then [s[0]] + Snake(s[1..], false)
    else (if first then [] else [UNDERSCORE]) + [ToLower(s[0])] + Snake(s[1..], false)
  }

  lemma {:induction false} SnakeOfSum(a: string, b: string, first: bool)
    ensures Snake(a + b, first) == Snake(a, first) + Snake(b, first && a == [])
  {
    if a == [] {
      assert a + b == b;
    } else {
      SnakeOfSum(a[1..], b, false);
      assert (a + b)[0] == a[0] && (a + b)[1..] == a[1..] + b;
      var head := if !IsUpper(a[0]) then [a[0]] else (if first then [] else [UNDERSCORE]) + [ToLower(a[0])];
      assert Snake(a, first) == head + Snake(a[1..], false);
      Regroup(head, Snake(a[1..], false), Snake(b, false));
    }
  }

  lemma SnakeOfOne(c: char, first: bool)
    ensures Snake([c], first) == if !('A' <= c <= 'Z') then [c] else (if first then "" else "_") + [c - 'A' + 'a']
  {
    assert [c][1..] == [];
  }

  /** Wherever it stands, a letter from A to Z becomes the one from a to z, behind an underscore
      unless it comes first; every other character stays as it is. */
  lemma SnakeOfCharacter(before: string, c: char, after: string)
    ensures Snake(before + ([c] + after), true) ==
      Snake(before, true)
      + ((if !('A' <= c <= 'Z') then [c] else (if before == [] then "" else "_") + [c - 'A' + 'a']) + Snake(after, false))
  {
    SnakeOfSum(before, [c] + after, true);
    SnakeOfSum([c], after, before == []);
    SnakeOfOne(c, before == []);
  }

  /** What has been written, the chunk not yet copied, and the conversion of the rest make up the whole. */
  ghost predicate Written(input: string, prev: nat, i: nat, result: string) {
    && prev <= i <= |input|
    && (result + input[prev..i]) + Snake(input[i..], i == 0) == Snake(input, true)
    && (result == "" ==> prev == 0)
  }

  lemma SnakeAtUpper(input: string, i: nat)
    requires i < |input|
    ensures Snake(input[i..], i == 0) ==
      (if !IsUpper(input[i]) then [input[i]] else (if i == 0 then [] else [UNDERSCORE]) + [ToLower(input[i])])
        + Snake(input[i + 1..], false)
  {
    assert input[i..][1..] == input[i + 1..];
  }

  lemma KeepWritten(input: string, prev: nat, i: nat, result: string)
    requires Written(input, prev, i, result) && i < |input| && !IsUpper(input[i])
    ensures Written(input, prev, i + 1, result)
  {
    SnakeAtUpper(input, i);
    var chunk := input[prev..i];
    assert input[prev..i + 1] == chunk + [input[i]];
    Regroup(result + chunk, [input[i]], Snake(input[i + 1..], false));
    Regroup(result, chunk, [input[i]]);
  }

  lemma RaiseWritten(input: string, prev: nat, i: nat, result: string)
    requires Written(input, prev, i, result) && i < |input| && IsUpper(input[i])
    ensures Written(input, i + 1, i + 1,
                    result + input[prev..i] + (if i == 0 then [] else [UNDERSCORE]) + [ToLower(input[i])])
  {
    SnakeAtUpper(input, i);
    var before, mark, l := result + input[prev..i], if i == 0 then [] else [UNDERSCORE], [ToLower(input[i])];
    Regroup(before, mark + l, Snake(input[i + 1..], false));
    Regroup(before, mark, l);
    NothingAdded(before + mark + l, input[i + 1..i + 1]);
  }

  lemma NothingAdded(s: string, t: string)
    requires t == []
    ensures s + t == s
  {}

  lemma AllWritten(input: string, prev: nat, result: string)
    requires Written(input, prev, |input|, result)
    ensures result + input[prev..] == Snake(input, true)
  {
    assert input[prev..|input|] == input[prev..];
    NothingAdded(result + input[prev..], Snake(input[|input|..], |input| == 0));
  }

  method CamelToSnakeCase(input: string) returns (result: string)
    ensures result == Snake(input, true)
  {
    result := "";
    var prevIndex := 0;
    var i := 0;
    assert input[0..] == input;
    while i != |input|
      invariant Written(input, prevIndex, i, result)
      decreases |input| - i
    {
      if !IsUpper(input[i]) {
        KeepWritten(input, prevIndex, i, result);
      } else {
        RaiseWritten(input, prevIndex, i, result);
        result := result + input[prevIndex..i];
        NothingAdded(result, []);
        if i != 0 {
          result := result + [UNDERSCORE];
        }
        result := result + [ToLower(input[i])];
        prevIndex := i + 1;
      }
      i := i + 1;
    }
    AllWritten(input, prevIndex, result);
    if result == "" {
      return input;
    }
    result := result + input[prevIndex..|input|];
  }

  // From snake_case to camelCase -----------------------------------------------------

  function SkipUnderscores(s: string): (r: string)
    ensures |r| <= |s|
    ensures r != [] ==> r[0] != UNDERSCORE
  {
    if s != [] && s[0] == UNDERSCORE then SkipUnderscores(s[1..]) else s
  }

  /** A run of underscores goes and raises the character after it, unless nothing came before (`!seen`). */
  function Camel(s: string, seen: bool): string
    decreases |s|
  {
    if s == [] then []
    else if s[0] != UNDERSCORE then [s[0]] + Camel(s[1..], true)
    else
      var r := SkipUnderscores(s);
      if r == [] then []
      else [if seen then ToUpper(r[0]) else r[0]] + Camel(r[1..], true)
  }

  lemma {:induction false} SkipOfSum(a: string, b: string)
    requires SkipUnderscores(a) != []
    ensures SkipUnderscores(a + b) == SkipUnderscores(a) + b
  {
    if a[0] == UNDERSCORE {
      SkipOfSum(a[1..], b);
      assert (a + b)[1..] == a[1..] + b;
    }
  }

  lemma {:induction false} SkipKeepsEnd(a: string)
    requires a != [] && a[|a| - 1] != UNDERSCORE
    ensures SkipUnderscores(a) != [] && SkipUnderscores(a)[|SkipUnderscores(a)| - 1] == a[|a| - 1]
  {
    if a[0] == UNDERSCORE { SkipKeepsEnd(a[1..]); }
  }

  lemma CamelFromHere(s: string, seen: bool)
    requires s != [] && SkipUnderscores(s) != []
    ensures
      var r := SkipUnderscores(s);
      Camel(s, seen) == [if s[0] == UNDERSCORE && seen then ToUpper(r[0]) else r[0]] + Camel(r[1..], true)
  {
  }

  lemma {:induction false} CamelOfSum(a: string, b: string, seen: bool)
    requires a == [] || a[|a| - 1] != UNDERSCORE
    ensures Camel(a + b, seen) == Camel(a, seen) + Camel(b, seen || a != [])
    decreases |a|
  {
    if a == [] {
      assert a + b == b;
    } else {
      SkipKeepsEnd(a);
      SkipOfSum(a, b);
      var r := SkipUnderscores(a);
      CamelOfSum(r[1..], b, true);
      assert (r + b)[0] == r[0] && (r + b)[1..] == r[1..] + b;
      var c := if a[0] == UNDERSCORE && seen then ToUpper(r[0]) else r[0];
      CamelFromHere(a, seen);
      CamelFromHere(a + b, seen);
      Regroup([c], Camel(r[1..], true), Camel(b, true));
    }
  }

  lemma CamelOfRun(run: string, c: char, after: string, seen: bool)
    requires c != UNDERSCORE && forall i | 0 <= i < |run| :: run[i] == UNDERSCORE
    ensures Camel(run + ([c] + after), seen) == [if run != [] && seen then ToUpper(c) else c] + Camel(after, true)
    ensures Camel(run, seen) == []
  {
    var s, t := run + ([c] + after), [c] + after;
    SkipStops(run, |run|);
    SkipStops(s, |run|);
    assert s[|run|..] == t && t[1..] == after;
    if run == [] { assert s == t; }
  }

  /** A run of underscores, wherever it stands, goes; the character after it becomes the one from A
      to Z when it is one from a to z and something stands before the run.  At the end of the name
      the run goes without a trace. */
  lemma CamelOfCharacter(before: string, run: string, c: char, after: string)
    requires before == [] || before[|before| - 1] != '_'
    requires c != '_' && forall i | 0 <= i < |run| :: run[i] == '_'
    ensures Camel(before + (run + ([c] + after)), false) ==
         Camel(before, false)
         + ([if run != [] && before != [] && 'a' <= c <= 'z' then c - 'a' + 'A' else c] + Camel(after, true))
    ensures Camel(before + run, false) == Camel(before, false)
  {
    CamelOfSum(before, run, false);
    CamelOfSum(before, run + ([c] + after), false);
    CamelOfRun(run, c, after, before != []);
  }

  lemma {:induction false} CamelKeeps(chunk: string, s: string, seen: bool)
    requires UNDERSCORE !in chunk
    ensures Camel(chunk + s, seen) == chunk + Camel(s, seen || chunk != [])
  {
    if chunk == [] {
      assert chunk + s == s;
    } else {
      assert (chunk + s)[0] == chunk[0] && (chunk + s)[1..] == chunk[1..] + s;
      CamelKeeps(chunk[1..], s, true);
    }
  }

  lemma {:induction false} CamelKeepsAll(chunk: string, seen: bool)
    requires UNDERSCORE !in chunk
    ensures Camel(chunk, seen) == chunk
  {
    if chunk != [] { CamelKeepsAll(chunk[1..], true); }
  }

  lemma {:induction false} SkipStops(s: string, n: nat)
    requires n <= |s| && (forall i | 0 <= i < n :: s[i] == UNDERSCORE)
    requires n < |s| ==> s[n] != UNDERSCORE
    ensures SkipUnderscores(s) == s[n..]
  {
    if n > 0 {
      SkipStops(s[1..], n - 1);
      assert s[1..][n - 1..] == s[n..];
    }
  }

  method FindUnderscore(input: string, offset: nat) returns (p: nat)
    requires offset <= |input|
    ensures offset <= p <= |input| && UNDERSCORE !in input[offset..p]
    ensures p < |input| ==> input[p] == UNDERSCORE
  {
    p := offset;
    while p < |input| && input[p] != UNDERSCORE
      invariant offset <= p <= |input| && UNDERSCORE !in input[offset..p]
    {
      assert input[offset..p + 1] == input[offset..p] + [input[p]];
      p := p + 1;
    }
  }

  method FindOther(input: string, offset: nat) returns (p: nat)
    requires offset <= |input|
    ensures offset <= p <= |input| && SkipUnderscores(input[offset..]) == input[p..]
    ensures p < |input| ==> input[p] != UNDERSCORE
  {
    p := offset;
    while p != |input| && input[p] == UNDERSCORE
      invariant offset <= p <= |input|
      invariant forall i | offset <= i < p :: input[i] == UNDERSCORE
    {
      p := p + 1;
    }
    SkipStops(input[offset..], p - offset);
    assert input[offset..][p - offset..] == input[p..];
  }

  /** One turn of the loop: a chunk, a run of underscores and the character after it. */
  lemma CamelStep(input: string, pos: nat, under: nat, other: nat, seen: bool)
    requires pos <= under < |input| && input[under] == UNDERSCORE && UNDERSCORE !in input[pos..under]
    requires other <= |input| && SkipUnderscores(input[under..]) == input[other..]
    ensures
      var chunk := input[pos..under];
      var raised := seen || chunk != [];
      Camel(input[pos..], seen) == chunk +
        if other == |input| then []
        else [if raised then ToUpper(input[other]) else input[other]] + Camel(input[other + 1..], true)
  {
    var chunk := input[pos..under];
    assert input[pos..] == chunk + input[under..];
    CamelKeeps(chunk, input[under..], seen);
    if other < |input| { assert input[other..][1..] == input[other + 1..]; }
  }

  /** What has been converted, and the conversion of the rest, make up the whole. */
  ghost predicate Converted(input: string, pos: nat, result: string) {
    && pos <= |input|
    && result + Camel(input[pos..], result != []) == Camel(input, false)
    && (result == [] ==> pos == 0)
  }

  lemma TurnConverts(input: string, pos: nat, under: nat, other: nat, result: string)
    requires Converted(input, pos, result)
    requires pos <= under < |input| && input[under] == UNDERSCORE && UNDERSCORE !in input[pos..under]
    requires other < |input| && SkipUnderscores(input[under..]) == input[other..]
    ensures
      var before := result + input[pos..under];
      Converted(input, other + 1, before + [if before == [] then input[other] else ToUpper(input[other])])
  {
    CamelStep(input, pos, under, other, result != []);
    var chunk := input[pos..under];
    var c := if result + chunk == [] then input[other] else ToUpper(input[other]);
    var rest := Camel(input[other + 1..], true);
    Regroup(result, chunk, [c] + rest);
    Regroup(result + chunk, [c], rest);
  }

  lemma OnlyUnderscoresLeft(input: string, pos: nat, under: nat, result: string)
    requires Converted(input, pos, result)
    requires pos <= under < |input| && input[under] == UNDERSCORE && UNDERSCORE !in input[pos..under]
    requires SkipUnderscores(input[under..]) == input[|input|..]
    ensures result + input[pos..under] == Camel(input, false)
  {
    CamelStep(input, pos, under, |input|, result != []);
  }

  lemma NoUnderscoreLeft(input: string, pos: nat, result: string)
    requires Converted(input, pos, result) && UNDERSCORE !in input[pos..|input|]
    ensures result + input[pos..] == Camel(input, false)
  {
    assert input[pos..|input|] == input[pos..];
    CamelKeepsAll(input[pos..], result != []);
  }

  method SnakeToCamelCase(input: string) returns (result: string)
    ensures result == Camel(input, false)
  {
    result := "";
    var remainderPos := 0;
    while true
      invariant Converted(input, remainderPos, result)
      decreases |input| - remainderPos
    {
      var underscorePos := FindUnderscore(input, remainderPos);
      if underscorePos == |input| {
        break;
      }
      var nonUnderscorePos := FindOther(input, underscorePos);
      if nonUnderscorePos == |input| {
        OnlyUnderscoresLeft(input, remainderPos, underscorePos, result);
        result := result + input[remainderPos..underscorePos];
        return;
      }
      TurnConverts(input, remainderPos, underscorePos, nonUnderscorePos, result);
      result := result + input[remainderPos..underscorePos];
      if result == "" {
        result := result + [input[nonUnderscorePos]];
      } else {
        result := result + [ToUpper(input[nonUnderscorePos])];
      }
      // The loop would be left here if the two positions were equal; they never are.
      assert nonUnderscorePos != remainderPos - 1;
      remainderPos := nonUnderscorePos + 1;
    }
    NoUnderscoreLeft(input, remainderPos, result);
    if remainderPos == |input| {
      assert input[remainderPos..] == [];
      return;
    }
    if result == "" {
      return input;
    }
    result := result + input[remainderPos..|input|];
  }

  // When each undoes the other ---------------------------------------------------------

  lemma {:induction false} CamelHasNoUnderscore(s: string, seen: bool)
    ensures UNDERSCORE !in Camel(s, seen)
    decreases |s|
  {
    if s != [] {
      if s[0] != UNDERSCORE {
        CamelHasNoUnderscore(s[1..], true);
      } else {
        var r := SkipUnderscores(s);
        if r != [] { CamelHasNoUnderscore(r[1..], true); }
      }
    }
  }

  lemma {:induction false} CamelInvertsSnake(s: string)
    requires UNDERSCORE !in s
    ensures Camel(Snake(s, false), true) == s
  {
    if s != [] {
      CamelInvertsSnake(s[1..]);
      var t := Snake(s, false);
      var rest := Snake(s[1..], false);
      if IsUpper(s[0]) {
        assert t == [UNDERSCORE, ToLower(s[0])] + rest;
        assert t[1..] == [ToLower(s[0])] + rest && t[1..][1..] == rest;
        assert SkipUnderscores(t) == t[1..];
      } else {
        assert t[1..] == rest;
      }
    }
  }

  /** Names of one kind survive the way to snake_case and back, and no others. */
  lemma CamelInvertsSnakeIff(s: string)
    ensures Camel(Snake(s, true), false) == s <==> UNDERSCORE !in s && (s != [] ==> !IsUpper(s[0]))
  {
    CamelHasNoUnderscore(Snake(s, true), false);
    if s != [] && UNDERSCORE !in s {
      var t := Snake(s, true);
      assert t[1..] == Snake(s[1..], false);
      CamelInvertsSnake(s[1..]);
      assert Camel(t, false)[0] == t[0];
    }
  }

  predicate SnakeAt(t: string, first: bool, i: nat)
    requires i < |t|
  {
    && !IsUpper(t[i])
    && (t[i] == UNDERSCORE ==> (i > 0 || !first) && i + 1 < |t| && IsLower(t[i + 1]))
  }

  /** No capital, and each underscore is followed by a lower case letter and does not come first. */
  predicate SnakeShaped(t: string, first: bool) {
    forall i | 0 <= i < |t| :: SnakeAt(t, first, i)
  }

  lemma ShapeOfTail(t: string, first: bool)
    requires t != [] && SnakeShaped(t, first)
    ensures SnakeShaped(t[1..], false)
  {
    forall i | 0 <= i < |t[1..]|
      ensures SnakeAt(t[1..], false, i)
    {
      assert SnakeAt(t, first, i + 1);
    }
  }

  lemma ShapeOfCons(c: char, t: string, first: bool)
    requires SnakeShaped(t, false) && SnakeAt([c] + t, first, 0)
    ensures SnakeShaped([c] + t, first)
  {
    var s := [c] + t;
    forall i | 0 <= i < |s|
      ensures SnakeAt(s, first, i)
    {
      if i > 0 { assert SnakeAt(t, false, i - 1) && s[i] == t[i - 1]; }
    }
  }

  lemma {:induction false} SnakeIsSnakeShaped(s: string, first: bool)
    requires UNDERSCORE !in s
    ensures SnakeShaped(Snake(s, first), first)
  {
    if s != [] {
      var rest := Snake(s[1..], false);
      SnakeIsSnakeShaped(s[1..], false);
      var l := ToLower(s[0]);
      ShapeOfCons(l, rest, first);
      if IsUpper(s[0]) && !first {
        ShapeOfCons(UNDERSCORE, [l] + rest, false);
        assert Snake(s, first) == [UNDERSCORE] + ([l] + rest);
      } else {
        assert Snake(s, first) == [l] + rest;
      }
    }
  }

  lemma {:induction false} SnakeInvertsCamel(t: string, seen: bool)
    requires SnakeShaped(t, !seen)
    ensures Snake(Camel(t, seen), !seen) == t
    decreases |t|
  {
    if t != [] {
      assert SnakeAt(t, !seen, 0);
      ShapeOfTail(t, !seen);
      var c := Camel(t, seen);
      if t[0] != UNDERSCORE {
        SnakeInvertsCamel(t[1..], true);
        assert c[1..] == Camel(t[1..], true);
      } else {
        var r := t[1..];
        ShapeOfTail(r, false);
        SnakeInvertsCamel(r[1..], true);
        assert SkipUnderscores(t) == r;
        assert c[1..] == Camel(r[1..], true);
        assert t == [UNDERSCORE, r[0]] + r[1..];
      }
    }
  }

  lemma SnakeInvertsCamelIff(t: string)
    ensures Snake(Camel(t, false), true) == t <==> SnakeShaped(t, true)
  {
    CamelHasNoUnderscore(t, false);
    SnakeIsSnakeShaped(Camel(t, false), true);
    if SnakeShaped(t, true) { SnakeInvertsCamel(t, false); }
  }
}
