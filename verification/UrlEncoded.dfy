/**
 Percent decoding and the comma separated key=value lists that carry header and resource
 attribute settings.  Strings are sequences of bytes.
 */
module UrlEncoded {
  import opened Common
  import opened Strings

  type Byte = b: int | 0 <= b < 256
  type Bytes = seq<Byte>

  const PERCENT: Byte := 37
  const COMMA: Byte := 44
  const EQUALS: Byte := 61

  // Percent decoding --------------------------------------------------------------

  predicate IsHexDigit(b: Byte) {
    48 <= b <= 57 || 65 <= b <= 70 || 97 <= b <= 102
  }

  function HexValue(b: Byte): (v: int)
    requires IsHexDigit(b)
    ensures 0 <= v < 16
  {
    if b <= 57 then b - 48 else if b <= 70 then b - 55 else b - 87
  }

  predicate StartsWithEscape(s: Bytes) {
    |s| > 2 && s[0] == PERCENT && IsHexDigit(s[1]) && IsHexDigit(s[2])
  }

  function EscapedByte(s: Bytes): Byte
    requires StartsWithEscape(s)
  {
    16 * HexValue(s[1]) + HexValue(s[2])
  }

  function Decoded(s: Bytes): Bytes {
    if s == [] then []
    else if StartsWithEscape(s) then [EscapedByte(s)] + Decoded(s[3..])
    else [s[0]] + Decoded(s[1..])
  }

  predicate EscapeAt(s: Bytes, i: nat) {
    i + 2 < |s| && s[i] == PERCENT && IsHexDigit(s[i + 1]) && IsHexDigit(s[i + 2])
  }

  lemma DecodeAt(s: Bytes, i: nat, done: Bytes)
    requires i < |s|
    ensures done + Decoded(s[i..]) ==
      if EscapeAt(s, i) then (done + [16 * HexValue(s[i + 1]) + HexValue(s[i + 2])]) + Decoded(s[i + 3..])
      else (done + [s[i]]) + Decoded(s[i + 1..])
  {
    var rest := s[i..];
    if EscapeAt(s, i) {
      assert StartsWithEscape(rest) && rest[3..] == s[i + 3..];
      Regroup(done, [EscapedByte(rest)], Decoded(s[i + 3..]));
    } else {
      assert !StartsWithEscape(rest) && rest[1..] == s[i + 1..];
      Regroup(done, [s[i]], Decoded(s[i + 1..]));
    }
  }

  method PercentDecode(input: Bytes) returns (result: Bytes)
    ensures result == Decoded(input)
  {
    result := [];
    var i := 0;
    while i < |input|
      invariant 0 <= i <= |input|
      invariant result + Decoded(input[i..]) == Decoded(input)
    {
      DecodeAt(input, i, result);
      if input[i] == PERCENT && i + 2 < |input| && IsHexDigit(input[i + 1]) && IsHexDigit(input[i + 2]) {
        result := result + [16 * HexValue(input[i + 1]) + HexValue(input[i + 2])];
        i := i + 2;
      } else {
        result := result + [input[i]];
      }
      i := i + 1;
    }
  }

  /** A percent sign and two hexadecimal digits, each in either letter case, stand for one byte. */
  lemma EscapeIsDecoded(high: nat, low: nat, h: Byte, l: Byte, rest: Bytes)
    requires high < 16 && low < 16
    requires h as int == (if high < 10 then 48 + high else 55 + high) || (high >= 10 && h as int == 87 + high)
    requires l as int == (if low < 10 then 48 + low else 55 + low) || (low >= 10 && l as int == 87 + low)
    ensures Decoded([37, h, l] + rest) == [(16 * high + low) as Byte] + Decoded(rest)
  {
    var s := [37, h, l] + rest;
    assert StartsWithEscape(s) && s[3..] == rest;
  }

  /** Every byte that does not begin such an escape stands for itself. */
  lemma OtherBytesAreKept(s: Bytes)
    requires s != []
    requires |s| > 2 && s[0] == 37 ==>
               (exists b | b in s[1..3] :: b < 48 || 57 < b < 65 || 70 < b < 97 || 102 < b)
    ensures Decoded(s) == [s[0]] + Decoded(s[1..])
  {
  }

  /** `e` is a percent encoding of `s`: a byte stands for itself unless it is '%', or is escaped. */
  ghost predicate Encodes(e: Bytes, s: Bytes)
    decreases |s|
  {
    if s == [] then e == []
    else
      || (e != [] && e[0] == s[0] != PERCENT && Encodes(e[1..], s[1..]))
      || (StartsWithEscape(e) && EscapedByte(e) == s[0] && Encodes(e[3..], s[1..]))
  }

  lemma {:induction false} DecodeInvertsEncoding(e: Bytes, s: Bytes)
    requires Encodes(e, s)
    ensures Decoded(e) == s
    decreases |s|
  {
    if s != [] {
      if e[0] == s[0] != PERCENT && Encodes(e[1..], s[1..]) {
        DecodeInvertsEncoding(e[1..], s[1..]);
      } else {
        DecodeInvertsEncoding(e[3..], s[1..]);
      }
    }
  }

  function HexDigit(v: int): (b: Byte)
    requires 0 <= v < 16
    ensures IsHexDigit(b) && HexValue(b) == v
  {
    if v < 10 then 48 + v else 55 + v
  }

  /** The upper case encoder that keeps the bytes in `kept`. */
  function Encoded(s: Bytes, kept: set<Byte>): Bytes {
    if s == [] then []
    else if s[0] in kept then [s[0]] + Encoded(s[1..], kept)
    else [PERCENT, HexDigit(s[0] / 16), HexDigit(s[0] % 16)] + Encoded(s[1..], kept)
  }

  lemma {:induction false} EncoderEncodes(s: Bytes, kept: set<Byte>)
    requires PERCENT !in kept
    ensures Encodes(Encoded(s, kept), s)
  {
    if s != [] {
      var e := Encoded(s, kept);
      EncoderEncodes(s[1..], kept);
      if s[0] in kept {
        assert e[1..] == Encoded(s[1..], kept);
      } else {
        assert e[3..] == Encoded(s[1..], kept);
      }
    }
  }

  lemma {:induction false} DecodeInvertsEncoder(s: Bytes, kept: set<Byte>)
    requires PERCENT !in kept
    ensures Decoded(Encoded(s, kept)) == s
  {
    EncoderEncodes(s, kept);
    DecodeInvertsEncoding(Encoded(s, kept), s);
  }

  /** No other byte of the output of the encoder can be a kept one. */
  lemma {:induction false} EncoderAvoids(s: Bytes, kept: set<Byte>, b: Byte)
    requires b !in kept && b != PERCENT && !IsHexDigit(b)
    ensures b !in Encoded(s, kept)
  {
    if s != [] { EncoderAvoids(s[1..], kept, b); }
  }

  predicate HasEscape(s: Bytes) {
    exists i | 0 <= i < |s| :: StartsWithEscape(s[i..])
  }

  lemma {:induction false} DecodeNeverGrows(s: Bytes)
    ensures |Decoded(s)| <= |s|
  {
    if s != [] {
      DecodeNeverGrows(if StartsWithEscape(s) then s[3..] else s[1..]);
    }
  }

  /** Decoding leaves alone exactly the texts that hold no escape. */
  lemma {:induction false} DecodeKeepsIff(s: Bytes)
    ensures Decoded(s) == s <==> !HasEscape(s)
  {
    if s != [] {
      assert s[0..] == s;
      if StartsWithEscape(s) {
        DecodeNeverGrows(s[3..]);
      } else {
        DecodeKeepsIff(s[1..]);
        assert Decoded(s)[1..] == Decoded(s[1..]);
        assert forall i | 1 <= i < |s| :: s[i..] == s[1..][i - 1..];
        if HasEscape(s[1..]) {
          var i :| 0 <= i < |s[1..]| && StartsWithEscape(s[1..][i..]);
          assert s[i + 1..] == s[1..][i..];
        }
      }
    }
  }

  // Key=value lists -----------------------------------------------------------------

  function IndexOf(s: Bytes, b: Byte): (p: Option<nat>)
    ensures p.Some? ==> p.value < |s| && s[p.value] == b && b !in s[..p.value]
    ensures p.None? ==> b !in s
  {
    if s == [] then None
    else if s[0] == b then Some(0)
    else
      match IndexOf(s[1..], b)
      case None => None
      case Some(p) =>
        assert s[..p + 1] == [s[0]] + s[1..][..p];
        Some(p + 1)
  }

  lemma {:induction false} IndexIsUnique(before: Bytes, b: Byte, after: Bytes)
    requires b !in before
    ensures IndexOf(before + [b] + after, b) == Some(|before|)
  {
    var s := before + [b] + after;
    if before == [] {
      assert s[0] == b;
    } else {
      IndexIsUnique(before[1..], b, after);
      assert s[0] == before[0] && s[1..] == before[1..] + [b] + after;
    }
  }

  method Find(s: Bytes, b: Byte) returns (p: Option<nat>)
    ensures p == IndexOf(s, b)
  {
    var i := 0;
    while i < |s|
      invariant 0 <= i <= |s|
      invariant b !in s[..i]
    {
      if s[i] == b {
        assert s == s[..i] + [b] + s[i + 1..];
        IndexIsUnique(s[..i], b, s[i + 1..]);
        return Some(i);
      }
      assert s[..i + 1] == s[..i] + [s[i]];
      i := i + 1;
    }
    assert s[..|s|] == s;
    return None;
  }

  type Attributes = map<Bytes, Bytes>

  /** What one piece between commas contributes: nothing when it has no '='. */
  function PairOf(pair: Bytes): Attributes {
    match IndexOf(pair, EQUALS)
    case None => map[]
    case Some(e) => map[pair[..e] := Decoded(pair[e + 1..])]
  }

  /** The first value of a key wins. */
  function Attrs(input: Bytes): Attributes
    decreases |input|
  {
    match IndexOf(input, COMMA)
    case None => PairOf(input)
    case Some(c) => Attrs(input[c + 1..]) + PairOf(input[..c])
  }

  method InsertPair(before: Attributes, pair: Bytes) returns (result: Attributes)
    ensures result == PairOf(pair) + before
  {
    result := before;
    var equalPos := Find(pair, EQUALS);
    if equalPos.Some? {
      var key := pair[..equalPos.value];
      var value := PercentDecode(pair[equalPos.value + 1..]);
      if key !in result {
        result := result[key := value];
      }
    }
  }

  lemma PlusIsAssociative(a: Attributes, b: Attributes, c: Attributes)
    ensures (a + b) + c == a + (b + c)
  {}

  /** What has been read, and what the rest will give, make up the attributes of the text. */
  ghost predicate Collected(text: Bytes, rest: Bytes, done: Attributes) {
    Attrs(rest) + done == Attrs(text)
  }

  lemma OnePieceMore(text: Bytes, rest: Bytes, done: Attributes, c: nat)
    requires Collected(text, rest, done) && IndexOf(rest, COMMA) == Some(c)
    ensures Collected(text, rest[c + 1..], PairOf(rest[..c]) + done)
  {
    PlusIsAssociative(Attrs(rest[c + 1..]), PairOf(rest[..c]), done);
  }

  lemma LastPiece(text: Bytes, rest: Bytes, done: Attributes)
    requires Collected(text, rest, done) && IndexOf(rest, COMMA).None?
    ensures PairOf(rest) + done == Attrs(text)
  {}

  lemma NothingRead(text: Bytes, done: Attributes)
    requires done == map[]
    ensures Collected(text, text, done)
  {}

  lemma AllRead(text: Bytes, rest: Bytes, done: Attributes)
    requires Collected(text, rest, done) && rest == []
    ensures done == Attrs(text)
  {}

  method ParseKeyValues(text: Bytes) returns (result: Attributes)
    ensures result == Attrs(text)
  {
    result := map[];
    var input := text;
    NothingRead(text, result);
    while input != []
      invariant Collected(text, input, result)
      decreases |input|
    {
      var commaPos := Find(input, COMMA);
      if commaPos.None? {
        LastPiece(text, input, result);
        result := InsertPair(result, input);
        return;
      }
      OnePieceMore(text, input, result, commaPos.value);
      result := InsertPair(result, input[..commaPos.value]);
      input := input[commaPos.value + 1..];
    }
    AllRead(text, input, result);
  }

  lemma AttrsOfPiece(piece: Bytes, rest: Bytes)
    requires COMMA !in piece
    ensures Attrs(piece + [COMMA] + rest) == Attrs(rest) + PairOf(piece)
  {
    var s := piece + [COMMA] + rest;
    IndexIsUnique(piece, COMMA, rest);
    assert s[..|piece|] == piece && s[|piece| + 1..] == rest;
  }

  /** Parsing distributes over the comma; what stands on the left takes precedence. */
  lemma {:induction false} AttrsOfJoin(a: Bytes, b: Bytes)
    ensures Attrs(a + [44] + b) == Attrs(b) + Attrs(a)
    decreases |a|
  {
    match IndexOf(a, COMMA)
    case None =>
      AttrsOfPiece(a, b);
    case Some(c) =>
      var piece, rest := a[..c], a[c + 1..];
      assert a + [COMMA] + b == piece + [COMMA] + (rest + [COMMA] + b);
      AttrsOfPiece(piece, rest + [COMMA] + b);
      AttrsOfJoin(rest, b);
      PlusIsAssociative(Attrs(b), Attrs(rest), PairOf(piece));
  }

  datatype Setting = Setting(key: Bytes, encoded: Bytes, value: Bytes)

  ghost predicate IsSetting(kv: Setting) {
    && COMMA !in kv.key && EQUALS !in kv.key
    && COMMA !in kv.encoded
    && Encodes(kv.encoded, kv.value)
  }

  /** Every value has a form that can stand in a list: the encoder escapes the comma. */
  lemma {:induction false} EncoderGivesSetting(key: Bytes, value: Bytes, kept: set<Byte>)
    requires COMMA !in key && EQUALS !in key
    requires PERCENT !in kept && COMMA !in kept
    ensures IsSetting(Setting(key, Encoded(value, kept), value))
  {
    EncoderEncodes(value, kept);
    EncoderAvoids(value, kept, COMMA);
  }

  function Text(kv: Setting): Bytes {
    kv.key + [EQUALS] + kv.encoded
  }

  function Joined(kvs: seq<Setting>): Bytes {
    if kvs == [] then []
    else if |kvs| == 1 then Text(kvs[0])
    else Text(kvs[0]) + [COMMA] + Joined(kvs[1..])
  }

  function FirstWins(kvs: seq<Setting>): Attributes {
    if kvs == [] then map[] else FirstWins(kvs[1..]) + map[kvs[0].key := kvs[0].value]
  }

  /** A piece without a comma sets what precedes its first "=" to the decoded rest; without "=" it sets nothing. */
  lemma PieceIsRead(key: Bytes, encoded: Bytes)
    requires 44 !in key && 61 !in key && 44 !in encoded
    ensures Attrs(key) == map[]
    ensures Attrs(key + [61] + encoded) == map[key := Decoded(encoded)]
  {
    var s := key + [61] + encoded;
    IndexIsUnique(key, EQUALS, encoded);
    assert s[..|key|] == key && s[|key| + 1..] == encoded;
    assert COMMA !in s;
  }

  lemma AttrsOfSetting(kv: Setting)
    requires IsSetting(kv)
    ensures Attrs(Text(kv)) == map[kv.key := kv.value]
  {
    PieceIsRead(kv.key, kv.encoded);
    DecodeInvertsEncoding(kv.encoded, kv.value);
  }

  /** Parsing a joined list of settings gives back each key with the first value written for it. */
  lemma {:induction false} ParseInvertsJoin(kvs: seq<Setting>)
    requires forall i | 0 <= i < |kvs| :: IsSetting(kvs[i])
    ensures Attrs(Joined(kvs)) == FirstWins(kvs)
  {
    if kvs != [] {
      assert IsSetting(kvs[0]);
      AttrsOfSetting(kvs[0]);
      if |kvs| > 1 {
        AttrsOfJoin(Text(kvs[0]), Joined(kvs[1..]));
        ParseInvertsJoin(kvs[1..]);
      } else {
        assert kvs[1..] == [];
      }
    }
  }

  lemma {:induction false} FirstWinsIsFirst(kvs: seq<Setting>, i: nat)
    requires i < |kvs|
    requires forall j | 0 <= j < i :: kvs[j].key != kvs[i].key
    ensures kvs[i].key in FirstWins(kvs) && FirstWins(kvs)[kvs[i].key] == kvs[i].value
  {
    if i > 0 {
      assert kvs[0].key != kvs[i].key;
      FirstWinsIsFirst(kvs[1..], i - 1);
    }
  }

  /** The list writes out the map: only entries of the map, and each of its keys. */
  ghost predicate Writes(kvs: seq<Setting>, m: Attributes) {
    && (forall i | 0 <= i < |kvs| :: kvs[i].key in m && m[kvs[i].key] == kvs[i].value)
    && (forall k | k in m :: exists i | 0 <= i < |kvs| :: kvs[i].key == k)
  }

  /** Whatever map is written out is read back whole. */
  lemma ParseInvertsWriting(kvs: seq<Setting>, m: Attributes)
    requires forall i | 0 <= i < |kvs| :: IsSetting(kvs[i])
    requires Writes(kvs, m)
    ensures Attrs(Joined(kvs)) == m
  {
    ParseInvertsJoin(kvs);
    FirstWinsOfWriting(kvs, m);
  }

  lemma FirstWinsOfWriting(kvs: seq<Setting>, m: Attributes)
    requires Writes(kvs, m)
    ensures FirstWins(kvs) == m
  {
    FirstWinsOfMap(kvs, m);
    forall k | k in m
      ensures k in FirstWins(kvs)
    {
      var i :| 0 <= i < |kvs| && kvs[i].key == k;
      WrittenKeyIsIn(kvs, i);
    }
  }

  lemma {:induction false} WrittenKeyIsIn(kvs: seq<Setting>, i: nat)
    requires i < |kvs|
    ensures kvs[i].key in FirstWins(kvs)
  {
    if i > 0 { WrittenKeyIsIn(kvs[1..], i - 1); }
  }

  lemma {:induction false} FirstWinsOfMap(kvs: seq<Setting>, m: Attributes)
    requires forall i | 0 <= i < |kvs| :: kvs[i].key in m && m[kvs[i].key] == kvs[i].value
    ensures forall k | k in FirstWins(kvs) :: k in m && m[k] == FirstWins(kvs)[k]
  {
    if kvs != [] {
      FirstWinsOfMap(kvs[1..], m);
      assert kvs[0].key in m;
    }
  }
}
