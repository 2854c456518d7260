/**
 The UTF-8 validator, against the definition of UTF-8 in section 3 of RFC 3629.
 Bytes and scalar values are bit-vectors because the code works on bits.
 */
module Utf8 {
  type Byte = bv8

  // Unicode scalar values: no surrogates, nothing above U+10FFFF.
  predicate IsScalar(v: bv32) {
    v <= 0x10FFFF && !(0xD800 <= v <= 0xDFFF)
  }

  /** The x bits of a continuation byte 10xxxxxx. */
  function Cont(bits: bv32): Byte {
    0x80 | ((bits & 0x3F) as bv8)
  }

  // First bytes 110xxxxx, 1110xxxx and 11110xxx.
  function Lead2(v: bv32): Byte requires v <= 0x7FF { 0xC0 | ((v >> 6) as bv8) }
  function Lead3(v: bv32): Byte requires v <= 0xFFFF { 0xE0 | ((v >> 12) as bv8) }
  function Lead4(v: bv32): Byte requires v <= 0x10FFFF { 0xF0 | ((v >> 18) as bv8) }

  function Encode(v: bv32): (s: seq<Byte>)
    requires IsScalar(v)
    ensures 1 <= |s| <= 4
  {
    if v <= 0x7F then [v as bv8]
    else if v <= 0x7FF then [Lead2(v), Cont(v)]
    else if v <= 0xFFFF then [Lead3(v), Cont(v >> 6), Cont(v)]
    else [Lead4(v), Cont(v >> 12), Cont(v >> 6), Cont(v)]
  }

  predicate AllScalars(vs: seq<bv32>) {
    forall v | v in vs :: IsScalar(v)
  }

  function EncodeAll(vs: seq<bv32>): seq<Byte>
    requires AllScalars(vs)
  {
    if vs == [] then [] else Encode(vs[0]) + EncodeAll(vs[1..])
  }

  predicate IsCont(b: Byte) {
    b & 0xC0 == 0x80
  }

  function Low(b: Byte): bv32 {
    (b & 0x3F) as bv32
  }

  // The byte ranges of the two-, three- and four-byte characters, and their scalar values.
  predicate Are2(b0: Byte, b1: Byte) {
    0xC2 <= b0 < 0xE0 && IsCont(b1)
  }

  predicate Are3(b0: Byte, b1: Byte, b2: Byte) {
    0xE0 <= b0 < 0xF0 && IsCont(b1) && IsCont(b2) && (b0 == 0xE0 ==> b1 >= 0xA0) && (b0 == 0xED ==> b1 < 0xA0)
  }

  predicate Are4(b0: Byte, b1: Byte, b2: Byte, b3: Byte) {
    0xF0 <= b0 < 0xF5 && IsCont(b1) && IsCont(b2) && IsCont(b3) && (b0 == 0xF0 ==> b1 >= 0x90) && (b0 == 0xF4 ==> b1 <= 0x8F)
  }

  function Join2(b0: Byte, b1: Byte): bv32 {
    (((b0 & 0x1F) as bv32) << 6) | Low(b1)
  }

  function Join3(b0: Byte, b1: Byte, b2: Byte): bv32 {
    (((b0 & 0x0F) as bv32) << 12) | (Low(b1) << 6) | Low(b2)
  }

  function Join4(b0: Byte, b1: Byte, b2: Byte, b3: Byte): bv32 {
    (((b0 & 0x07) as bv32) << 18) | (Low(b1) << 12) | (Low(b2) << 6) | Low(b3)
  }

  /** The number of bytes of the character at the front of s, 0 if there is none. */
  function Front(s: seq<Byte>): (n: nat)
    ensures n <= |s| && n <= 4
  {
    if |s| >= 1 && s[0] < 0x80 then 1
    else if |s| >= 2 && Are2(s[0], s[1]) then 2
    else if |s| >= 3 && Are3(s[0], s[1], s[2]) then 3
    else if |s| >= 4 && Are4(s[0], s[1], s[2], s[3]) then 4
    else 0
  }

  function Decode(s: seq<Byte>): bv32
    requires Front(s) > 0
  {
    if Front(s) == 1 then s[0] as bv32
    else if Front(s) == 2 then Join2(s[0], s[1])
    else if Front(s) == 3 then Join3(s[0], s[1], s[2])
    else Join4(s[0], s[1], s[2], s[3])
  }

  /** A concatenation of characters. */
  predicate WellFormed(s: seq<Byte>)
    decreases |s|
  {
    s == [] || (Front(s) > 0 && WellFormed(s[Front(s)..]))
  }

  // One character: the bits -------------------------------------------------------

  lemma Joined3(b0: Byte, b1: Byte, b2: Byte)
    requires Are3(b0, b1, b2)
    ensures 0x800 <= Join3(b0, b1, b2) <= 0xFFFF && IsScalar(Join3(b0, b1, b2))
    ensures Lead3(Join3(b0, b1, b2)) == b0 && Cont(Join3(b0, b1, b2) >> 6) == b1 && Cont(Join3(b0, b1, b2)) == b2
  {
  }

  lemma Joined4(b0: Byte, b1: Byte, b2: Byte, b3: Byte) returns (v: bv32)
    requires Are4(b0, b1, b2, b3)
    ensures 0x10000 <= v <= 0x10FFFF
    ensures Lead4(v) == b0 && Cont(v >> 12) == b1 && Cont(v >> 6) == b2 && Cont(v) == b3
  {
    v := Join4(b0, b1, b2, b3);
  }

  /** Second bytes stay within the narrower range after the first bytes E0, ED, F0 and F4. */
  lemma SecondByte(v: bv32)
    ensures 0x800 <= v <= 0xFFFF && Lead3(v) == 0xE0 ==> Cont(v >> 6) >= 0xA0
    ensures 0x800 <= v <= 0xFFFF && IsScalar(v) && Lead3(v) == 0xED ==> Cont(v >> 6) < 0xA0
    ensures 0x10000 <= v <= 0x10FFFF && Lead4(v) == 0xF0 ==> Cont(v >> 12) >= 0x90
    ensures 0x10000 <= v <= 0x10FFFF && Lead4(v) == 0xF4 ==> Cont(v >> 12) <= 0x8F
  {
  }

  lemma JoinBits(v: bv32)
    ensures ((v >> 6) << 6) | (v & 0x3F) == v
    ensures ((v >> 12) << 12) | (((v >> 6) & 0x3F) << 6) | (v & 0x3F) == v
    ensures ((v >> 18) << 18) | (((v >> 12) & 0x3F) << 12) | (((v >> 6) & 0x3F) << 6) | (v & 0x3F) == v
  {
  }

  lemma Split2(v: bv32)
    requires 0x80 <= v <= 0x7FF
    ensures Are2(Lead2(v), Cont(v)) && Join2(Lead2(v), Cont(v)) == v
  {
    JoinBits(v);
  }

  lemma Split3(v: bv32)
    requires 0x800 <= v <= 0xFFFF && IsScalar(v)
    ensures Are3(Lead3(v), Cont(v >> 6), Cont(v)) && Join3(Lead3(v), Cont(v >> 6), Cont(v)) == v
  {
    SecondByte(v);
    JoinBits(v);
    assert Join3(Lead3(v), Cont(v >> 6), Cont(v)) == ((v >> 12) << 12) | (((v >> 6) & 0x3F) << 6) | (v & 0x3F);
  }

  lemma Split4(v: bv32)
    requires 0x10000 <= v <= 0x10FFFF
    ensures Join4(Lead4(v), Cont(v >> 12), Cont(v >> 6), Cont(v)) == v
  {
    JoinBits(v);
    assert Join4(Lead4(v), Cont(v >> 12), Cont(v >> 6), Cont(v))
        == ((v >> 18) << 18) | (((v >> 12) & 0x3F) << 12) | (((v >> 6) & 0x3F) << 6) | (v & 0x3F);
  }

  // One character: the bytes ------------------------------------------------------

  lemma EncodeJoined3(b0: Byte, b1: Byte, b2: Byte)
    requires Are3(b0, b1, b2)
    ensures IsScalar(Join3(b0, b1, b2)) && Encode(Join3(b0, b1, b2)) == [b0, b1, b2]
  {
    Joined3(b0, b1, b2);
  }

  lemma EncodeJoined4(b0: Byte, b1: Byte, b2: Byte, b3: Byte) returns (v: bv32)
    requires Are4(b0, b1, b2, b3)
    ensures IsScalar(v) && Encode(v) == [b0, b1, b2, b3]
  {
    v := Joined4(b0, b1, b2, b3);
  }

  /** Every accepted front is the encoding of a scalar value. */
  lemma DecodeFront(s: seq<Byte>) returns (v: bv32)
    requires Front(s) > 0
    ensures IsScalar(v) && Encode(v) == s[..Front(s)]
  {
    if Front(s) == 1 {
      v := s[0] as bv32;
    } else if Front(s) == 2 {
      v := Join2(s[0], s[1]);
    } else if Front(s) == 3 {
      EncodeJoined3(s[0], s[1], s[2]);
      v := Join3(s[0], s[1], s[2]);
    } else {
      v := EncodeJoined4(s[0], s[1], s[2], s[3]);
    }
  }

  lemma EncodeFront(v: bv32, rest: seq<Byte>)
    requires IsScalar(v)
    ensures Front(Encode(v) + rest) == |Encode(v)|
    ensures Decode(Encode(v) + rest) == v
  {
    var s := Encode(v) + rest;
    if 0x7F < v <= 0x7FF {
      Split2(v);
    } else if 0x7FF < v <= 0xFFFF {
      Split3(v);
    } else if 0xFFFF < v {
      Split4(v);
    }
  }

  // Whole texts -------------------------------------------------------------------

  lemma {:induction false} EncodedIsWellFormed(vs: seq<bv32>)
    requires AllScalars(vs)
    ensures WellFormed(EncodeAll(vs))
  {
    if vs != [] {
      EncodedIsWellFormed(vs[1..]);
      EncodeFront(vs[0], EncodeAll(vs[1..]));
    }
  }

  lemma {:induction false} WellFormedIsEncoded(s: seq<Byte>) returns (vs: seq<bv32>)
    requires WellFormed(s)
    ensures AllScalars(vs) && EncodeAll(vs) == s
    decreases |s|
  {
    if s == [] {
      vs := [];
    } else {
      var n := Front(s);
      var v := DecodeFront(s);
      var rest := WellFormedIsEncoded(s[n..]);
      vs := [v] + rest;
      assert vs[1..] == rest;
      assert s == s[..n] + s[n..];
    }
  }

  /** A text encodes at most one sequence of scalar values. */
  lemma {:induction false} EncodingIsUnique(vs: seq<bv32>, ws: seq<bv32>)
    requires AllScalars(vs) && AllScalars(ws) && EncodeAll(vs) == EncodeAll(ws)
    ensures vs == ws
  {
    if vs != [] && ws != [] {
      var s := EncodeAll(vs);
      EncodeFront(vs[0], EncodeAll(vs[1..]));
      EncodeFront(ws[0], EncodeAll(ws[1..]));
      assert s[Front(s)..] == EncodeAll(vs[1..]) && s[Front(s)..] == EncodeAll(ws[1..]);
      EncodingIsUnique(vs[1..], ws[1..]);
    }
  }

  ghost predicate IsUtf8Text(s: seq<Byte>) {
    exists vs :: AllScalars(vs) && EncodeAll(vs) == s
  }

  lemma WellFormedIffText(s: seq<Byte>)
    ensures WellFormed(s) <==> IsUtf8Text(s)
  {
    if WellFormed(s) {
      var vs := WellFormedIsEncoded(s);
    }
    if IsUtf8Text(s) {
      var vs :| AllScalars(vs) && EncodeAll(vs) == s;
      EncodedIsWellFormed(vs);
    }
  }

  /** The scalar values and how many bytes each takes. */
  lemma EncodedLength(v: bv32)
    ensures IsScalar(v) <==> v < 0xD800 || 0xDFFF < v <= 0x10FFFF
    ensures IsScalar(v) ==> |Encode(v)| == if v < 0x80 then 1 else if v < 0x800 then 2 else if v < 0x10000 then 3 else 4
  {
  }

  // What the bytes of a character are worth: six bits each, below what marks the first byte.

  function Worth2(b0: Byte, b1: Byte): bv32 {
    (((b0 - 0xC0) as bv32) << 6) + (b1 - 0x80) as bv32
  }

  function Worth3(b0: Byte, b1: Byte, b2: Byte): bv32 {
    (((b0 - 0xE0) as bv32) << 12) + (((b1 - 0x80) as bv32) << 6) + (b2 - 0x80) as bv32
  }

  function Worth4(b0: Byte, b1: Byte, b2: Byte, b3: Byte): bv32 {
    (((b0 - 0xF0) as bv32) << 18) + (((b1 - 0x80) as bv32) << 12) + (((b2 - 0x80) as bv32) << 6) + (b3 - 0x80) as bv32
  }

  lemma EncodedWorth(v: bv32)
    ensures v <= 0x7FF ==> Worth2(Lead2(v), Cont(v)) == v
    ensures v <= 0xFFFF ==> Worth3(Lead3(v), Cont(v >> 6), Cont(v)) == v
    ensures v <= 0x10FFFF ==> Worth4(Lead4(v), Cont(v >> 12), Cont(v >> 6), Cont(v)) == v
  {
  }

  /** Each scalar value is the worth of its bytes. */
  lemma EncodedMeans(v: bv32)
    requires IsScalar(v)
    ensures
      var s := Encode(v);
      match |s|
      case 1 => s[0] as bv32 == v
      case 2 => Worth2(s[0], s[1]) == v
      case 3 => Worth3(s[0], s[1], s[2]) == v
      case _ => Worth4(s[0], s[1], s[2], s[3]) == v
  {
    EncodedWorth(v);
  }

  lemma ContRange(b: Byte)
    ensures IsCont(b) <==> 0x80 <= b <= 0xBF
  {
  }

  /** The byte ranges of section 4 of RFC 3629. */
  lemma FrontIffRanges(s: seq<Byte>)
    ensures Front(s) == 1 <==> |s| >= 1 && s[0] <= 0x7F
    ensures Front(s) == 2 <==> |s| >= 2 && 0xC2 <= s[0] <= 0xDF && 0x80 <= s[1] <= 0xBF
    ensures Front(s) == 3 <==>
      && |s| >= 3 && 0xE0 <= s[0] <= 0xEF && 0x80 <= s[2] <= 0xBF
      && (if s[0] == 0xE0 then 0xA0 else 0x80) <= s[1] <= (if s[0] == 0xED then 0x9F else 0xBF)
    ensures Front(s) == 4 <==>
      && |s| >= 4 && 0xF0 <= s[0] <= 0xF4 && 0x80 <= s[2] <= 0xBF && 0x80 <= s[3] <= 0xBF
      && (if s[0] == 0xF0 then 0x90 else 0x80) <= s[1] <= (if s[0] == 0xF4 then 0x8F else 0xBF)
  {
    if |s| >= 2 { ContRange(s[1]); }
    if |s| >= 3 { ContRange(s[2]); }
    if |s| >= 4 { ContRange(s[3]); }
  }

  lemma TextGoesOn(s: seq<Byte>)
    ensures IsUtf8Text(s) <==> s == [] || (Front(s) > 0 && IsUtf8Text(s[Front(s)..]))
  {
    WellFormedIffText(s);
    if Front(s) > 0 { WellFormedIffText(s[Front(s)..]); }
  }

  /** What a text can begin with, by the syntax of section 4 of RFC 3629. */
  lemma TextIffSyntax(s: seq<Byte>)
    ensures IsUtf8Text(s) <==>
      || s == []
      || (|s| >= 1 && s[0] <= 0x7F && IsUtf8Text(s[1..]))
      || (|s| >= 2 && 0xC2 <= s[0] <= 0xDF && 0x80 <= s[1] <= 0xBF && IsUtf8Text(s[2..]))
      || (&& |s| >= 3 && 0xE0 <= s[0] <= 0xEF && 0x80 <= s[2] <= 0xBF && IsUtf8Text(s[3..])
          && (if s[0] == 0xE0 then 0xA0 else 0x80) <= s[1] <= (if s[0] == 0xED then 0x9F else 0xBF))
      || (&& |s| >= 4 && 0xF0 <= s[0] <= 0xF4 && 0x80 <= s[2] <= 0xBF && 0x80 <= s[3] <= 0xBF && IsUtf8Text(s[4..])
          && (if s[0] == 0xF0 then 0x90 else 0x80) <= s[1] <= (if s[0] == 0xF4 then 0x8F else 0xBF))
  {
    TextGoesOn(s);
    FrontIffRanges(s);
  }

  // The validator -----------------------------------------------------------------

  // How many bytes follow a first byte, indexed by its low six bits: 32 ones, 16 twos, 8 threes.
  const TABLE := seq(56, i => if i < 32 then 1 else if i < 48 then 2 else 3)

  /** The index stays within the table for every first byte that the code looks up. */
  lemma TableEntry(c: Byte)
    requires 0xC0 <= c < 0xF5
    ensures 0 <= (c & 0x3F) as int < |TABLE|
    ensures TABLE[(c & 0x3F) as int] == if c < 0xE0 then 1 else if c < 0xF0 then 2 else 3
  {
    var low := c & 0x3F;
    assert low <= 0x34;
    assert c < 0xE0 <==> low < 0x20;
    assert c < 0xF0 <==> low < 0x30;
  }

  /** The bit tests of the code as bounds on the bytes. */
  lemma BitTests(c: Byte, d: Byte)
    requires 0xC0 <= c < 0xF5 && IsCont(d)
    ensures c < 0xE0 ==> (c & 0x3E == 0 <==> c < 0xC2)
    ensures d & 0x20 == 0 <==> d < 0xA0
    ensures d & 0x30 == 0 <==> d < 0x90
  {
  }

  /** The number of bytes of the first character, by the tests that the code makes. */
  function Tested(s: seq<Byte>, ab: nat): nat
    requires |s| > ab >= 1 && ab <= 3
  {
    var c, d := s[0], s[1];
    if d & 0xC0 != 0x80 then 0
    else if ab == 1 then if c & 0x3E == 0 then 0 else 2
    else if ab == 2 then
      if s[2] & 0xC0 != 0x80 || (c == 0xE0 && d & 0x20 == 0) || (c == 0xED && d >= 0xA0) then 0 else 3
    else
      if s[2] & 0xC0 != 0x80 || s[3] & 0xC0 != 0x80
         || (c == 0xF0 && d & 0x30 == 0) || c > 0xF4 || (c == 0xF4 && d > 0x8F) then 0 else 4
  }

  lemma FrontIsTested(s: seq<Byte>, ab: nat)
    requires |s| > 0 && 0xC0 <= s[0] < 0xF5
    requires ab == if s[0] < 0xE0 then 1 else if s[0] < 0xF0 then 2 else 3
    ensures Front(s) == if |s| <= ab then 0 else Tested(s, ab)
  {
    if |s| > ab && IsCont(s[1]) {
      BitTests(s[0], s[1]);
    }
  }

  /** Accepts a byte string exactly when it encodes a sequence of scalar values. */
  method IsUtf8(input: seq<Byte>) returns (ok: bool)
    ensures ok <==> IsUtf8Text(input)
  {
    WellFormedIffText(input);
    ok := IsWellFormed(input);
  }

  method IsWellFormed(input: seq<Byte>) returns (ok: bool)
    ensures ok <==> WellFormed(input)
  {
    var p, length := 0, |input|;
    while length > 0
      invariant 0 <= length && p + length == |input|
      invariant WellFormed(input) <==> WellFormed(input[p..])
    {
      var c := input[p];
      ghost var start, rest := p, input[p..];
      p := p + 1;
      length := length - 1;
      if c < 0x80 {
        continue;
      }
      if c < 0xC0 || c >= 0xF5 {
        return false;
      }
      TableEntry(c);
      var ab := TABLE[(c & 0x3F) as int];
      FrontIsTested(rest, ab);
      if length < ab {
        return false;
      }
      length := length - ab;
      var d := input[p];
      p := p + 1;
      if d & 0xC0 != 0x80 {
        return false;
      }
      if ab == 1 {
        if c & 0x3E == 0 {
          return false;
        }
      } else if ab == 2 {
        p := p + 1;
        if input[p - 1] & 0xC0 != 0x80 || (c == 0xE0 && d & 0x20 == 0) || (c == 0xED && d >= 0xA0) {
          return false;
        }
      } else {
        p := p + 2;
        if input[p - 2] & 0xC0 != 0x80 || input[p - 1] & 0xC0 != 0x80
           || (c == 0xF0 && d & 0x30 == 0) || c > 0xF4 || (c == 0xF4 && d > 0x8F) {
          return false;
        }
      }
    }
    assert input[p..] == [];
    return true;
  }
}
