/**
 The text that PHP's serialize gives to the values that identify resources and scopes: null,
 booleans, integers, floats, byte strings and arrays.  Every text ends where its own first
 characters say, so two texts followed by anything can only agree if the values do.
 */
module PhpSerialize {
  import opened Strings

  // A float is kept as the text that is written for it, which has no ';'.
  datatype Value =
    | Null
    | Bool(b: bool)
    | Int(n: int)
    | Float(text: string)
    | Str(s: string)
    | Arr(entries: Entries)

  datatype Key = IntKey(n: int) | StrKey(s: string)

  datatype Entries = End | Entry(key: Key, value: Value, rest: Entries)

  function Count(es: Entries): nat {
    match es
    case End => 0
    case Entry(_, _, rest) => 1 + Count(rest)
  }

  predicate WellFormed(v: Value) {
    match v
    case Float(text) => ';' !in text
    case Arr(entries) => AllWellFormed(entries)
    case _ => true
  }

  predicate AllWellFormed(es: Entries) {
    match es
    case End => true
    case Entry(_, v, rest) => WellFormed(v) && AllWellFormed(rest)
  }

  // Decimal numbers ---------------------------------------------------------------

  function Digit(d: nat): (c: char)
    requires d < 10
    ensures '0' <= c <= '9'
  {
    '0' + d as char
  }

  function Decimal(n: nat): string {
    if n < 10 then [Digit(n)] else Decimal(n / 10) + [Digit(n % 10)]
  }

  /** The number that a text of digits is read as. */
  function Reading(s: string): int {
    if s == [] then 0 else 10 * Reading(s[..|s| - 1]) + (s[|s| - 1] as int - '0' as int)
  }

  /** A number is written with the digits from 0 to 9, without needless zeros in front, and reads as itself. */
  lemma {:induction false} DecimalReads(n: nat)
    ensures Reading(Decimal(n)) == n && Decimal(n) != [] && (Decimal(n)[0] == '0' <==> n == 0)
    ensures forall c | c in Decimal(n) :: '0' <= c <= '9'
  {
    DecimalIsDecimal(n);
    if n >= 10 {
      DecimalReads(n / 10);
      var s := Decimal(n);
      assert s[..|s| - 1] == Decimal(n / 10);
    } else {
      assert [Digit(n)][..0] == [];
    }
  }

  function Signed(n: int): string {
    if n < 0 then ['-'] + Decimal(-n) else Decimal(n)
  }

  predicate IsDecimal(s: string) {
    s != [] && forall c | c in s :: '0' <= c <= '9'
  }

  lemma {:induction false} DecimalIsDecimal(n: nat)
    ensures IsDecimal(Decimal(n))
  {
    if n >= 10 { DecimalIsDecimal(n / 10); }
  }

  lemma {:induction false} DecimalIsInjective(m: nat, n: nat)
    requires Decimal(m) == Decimal(n)
    ensures m == n
  {
    var s, t := Decimal(m), Decimal(n);
    DecimalIsDecimal(m / 10);
    DecimalIsDecimal(n / 10);
    assert s[|s| - 1] == Digit(m % 10) && t[|t| - 1] == Digit(n % 10);
    if m >= 10 && n >= 10 {
      assert s[..|s| - 1] == Decimal(m / 10) && t[..|t| - 1] == Decimal(n / 10);
      DecimalIsInjective(m / 10, n / 10);
    }
  }

  lemma SignIsFirst(n: int)
    ensures Signed(n) != [] && (Signed(n)[0] == '-' <==> n < 0)
  {
    DecimalIsDecimal(if n < 0 then -n else n);
    assert Decimal(if n < 0 then -n else n)[0] in Decimal(if n < 0 then -n else n);
  }

  lemma SignedIsInjective(m: int, n: int)
    requires Signed(m) == Signed(n)
    ensures m == n
  {
    SignIsFirst(m);
    SignIsFirst(n);
    if m < 0 {
      assert Signed(m)[1..] == Decimal(-m) && Signed(n)[1..] == Decimal(-n);
      DecimalIsInjective(-m, -n);
    } else {
      DecimalIsInjective(m, n);
    }
  }

  lemma SignedAvoids(n: int, c: char)
    requires c != '-' && !('0' <= c <= '9')
    ensures c !in Signed(n)
  {
    DecimalIsDecimal(if n < 0 then -n else n);
  }

  // The texts, each followed by `rest` --------------------------------------------------

  function IntText(n: int, rest: string): string {
    "i:" + (Signed(n) + ([';'] + rest))
  }

  function StrText(s: string, rest: string): string {
    "s:" + (Decimal(|s|) + ([':'] + ("\"" + (s + ("\";" + rest)))))
  }

  function KeyText(k: Key, rest: string): string {
    match k
    case IntKey(n) => IntText(n, rest)
    case StrKey(s) => StrText(s, rest)
  }

  function Text(v: Value, rest: string): string {
    match v
    case Null => "N;" + rest
    case Bool(b) => (if b then "b:1;" else "b:0;") + rest
    case Int(n) => IntText(n, rest)
    case Float(text) => "d:" + (text + ([';'] + rest))
    case Str(s) => StrText(s, rest)
    case Arr(entries) => "a:" + (Decimal(Count(entries)) + ([':'] + ("{" + EntriesText(entries, "}" + rest))))
  }

  function EntriesText(es: Entries, rest: string): string {
    match es
    case End => rest
    case Entry(k, v, more) => KeyText(k, Text(v, EntriesText(more, rest)))
  }

  function Serialize(v: Value): string {
    Text(v, [])
  }

  // Reading is unique ---------------------------------------------------------------------

  lemma SplitAtLength(a: string, b: string, x: string, y: string)
    requires a + x == b + y && |a| == |b|
    ensures a == b && x == y
  {
    assert a == (a + x)[..|a|] && b == (b + y)[..|b|];
    assert x == (a + x)[|a|..] && y == (b + y)[|b|..];
  }

  lemma SplitAtMark(a: string, b: string, mark: char, x: string, y: string)
    requires a + ([mark] + x) == b + ([mark] + y)
    requires mark !in a && mark !in b
    ensures a == b && x == y
  {
    var s := a + ([mark] + x);
    assert s[|a|] == mark && s[|b|] == mark;
    assert forall i | 0 <= i < |a| :: s[i] == a[i] && a[i] in a;
    assert forall i | 0 <= i < |b| :: s[i] == b[i] && b[i] in b;
    SplitAtLength(a, b, [mark] + x, [mark] + y);
    SplitAtLength([mark], [mark], x, y);
  }

  lemma IntIsRead(m: int, n: int, x: string, y: string)
    requires IntText(m, x) == IntText(n, y)
    ensures m == n && x == y
  {
    SplitAtLength("i:", "i:", Signed(m) + ([';'] + x), Signed(n) + ([';'] + y));
    SignedAvoids(m, ';');
    SignedAvoids(n, ';');
    SplitAtMark(Signed(m), Signed(n), ';', x, y);
    SignedIsInjective(m, n);
  }

  lemma CountIsRead(m: nat, n: nat, x: string, y: string)
    requires Decimal(m) + ([':'] + x) == Decimal(n) + ([':'] + y)
    ensures m == n && x == y
  {
    DecimalIsDecimal(m);
    DecimalIsDecimal(n);
    SplitAtMark(Decimal(m), Decimal(n), ':', x, y);
    DecimalIsInjective(m, n);
  }

  lemma StrIsRead(s: string, t: string, x: string, y: string)
    requires StrText(s, x) == StrText(t, y)
    ensures s == t && x == y
  {
    var u, v := "\"" + (s + ("\";" + x)), "\"" + (t + ("\";" + y));
    SplitAtLength("s:", "s:", Decimal(|s|) + ([':'] + u), Decimal(|t|) + ([':'] + v));
    CountIsRead(|s|, |t|, u, v);
    SplitAtLength("\"", "\"", s + ("\";" + x), t + ("\";" + y));
    SplitAtLength(s, t, "\";" + x, "\";" + y);
    SplitAtLength("\";", "\";", x, y);
  }

  lemma KeyIsRead(k: Key, l: Key, x: string, y: string)
    requires KeyText(k, x) == KeyText(l, y)
    ensures k == l && x == y
  {
    assert KeyText(k, x)[0] == (if k.IntKey? then 'i' else 's');
    assert KeyText(l, y)[0] == (if l.IntKey? then 'i' else 's');
    if k.IntKey? { IntIsRead(k.n, l.n, x, y); } else { StrIsRead(k.s, l.s, x, y); }
  }

  function Tag(v: Value): char {
    match v
    case Null => 'N'
    case Bool(_) => 'b'
    case Int(_) => 'i'
    case Float(_) => 'd'
    case Str(_) => 's'
    case Arr(_) => 'a'
  }

  lemma TextStartsWithTag(v: Value, rest: string)
    ensures Text(v, rest) != [] && Text(v, rest)[0] == Tag(v)
  {}

  /** A text followed by anything determines its value and what follows. */
  lemma {:induction false} ValueIsRead(v: Value, w: Value, x: string, y: string)
    requires WellFormed(v) && WellFormed(w) && Text(v, x) == Text(w, y)
    ensures v == w && x == y
    decreases v
  {
    TextStartsWithTag(v, x);
    TextStartsWithTag(w, y);
    match v
    case Null => SplitAtLength("N;", "N;", x, y);
    case Bool(b) =>
      assert Text(v, x)[2] == (if b then '1' else '0') && Text(w, y)[2] == (if w.b then '1' else '0');
      SplitAtLength(if b then "b:1;" else "b:0;", if w.b then "b:1;" else "b:0;", x, y);
    case Int(n) => IntIsRead(n, w.n, x, y);
    case Float(text) =>
      SplitAtLength("d:", "d:", text + ([';'] + x), w.text + ([';'] + y));
      SplitAtMark(text, w.text, ';', x, y);
    case Str(s) => StrIsRead(s, w.s, x, y);
    case Arr(es) => ArrayIsRead(es, w.entries, x, y);
  }

  lemma {:induction false} ArrayIsRead(es: Entries, fs: Entries, x: string, y: string)
    requires AllWellFormed(es) && AllWellFormed(fs) && Text(Arr(es), x) == Text(Arr(fs), y)
    ensures es == fs && x == y
    decreases es, 1
  {
    var u, v := EntriesText(es, "}" + x), EntriesText(fs, "}" + y);
    SplitAtLength("a:", "a:", Decimal(Count(es)) + ([':'] + ("{" + u)), Decimal(Count(fs)) + ([':'] + ("{" + v)));
    CountIsRead(Count(es), Count(fs), "{" + u, "{" + v);
    SplitAtLength("{", "{", u, v);
    EntriesAreRead(es, fs, "}" + x, "}" + y);
    SplitAtLength("}", "}", x, y);
  }

  lemma {:induction false} EntriesAreRead(es: Entries, fs: Entries, x: string, y: string)
    requires AllWellFormed(es) && AllWellFormed(fs) && Count(es) == Count(fs)
    requires EntriesText(es, x) == EntriesText(fs, y)
    ensures es == fs && x == y
    decreases es, 0
  {
    if es.Entry? {
      var u, v := EntriesText(es.rest, x), EntriesText(fs.rest, y);
      KeyIsRead(es.key, fs.key, Text(es.value, u), Text(fs.value, v));
      ValueIsRead(es.value, fs.value, u, v);
      EntriesAreRead(es.rest, fs.rest, x, y);
    }
  }

  // No text is a proper prefix of another --------------------------------------------------

  lemma IntTextAppends(n: int, rest: string, more: string)
    ensures IntText(n, rest + more) == IntText(n, rest) + more
  {
    Regroup([';'], rest, more);
    Regroup(Signed(n), [';'] + rest, more);
    Regroup("i:", Signed(n) + ([';'] + rest), more);
  }

  lemma StrTextAppends(s: string, rest: string, more: string)
    ensures StrText(s, rest + more) == StrText(s, rest) + more
  {
    var t1 := "\";" + rest;
    var t2 := s + t1;
    var t3 := "\"" + t2;
    var t4 := [':'] + t3;
    var t5 := Decimal(|s|) + t4;
    Regroup("\";", rest, more);
    Regroup(s, t1, more);
    Regroup("\"", t2, more);
    Regroup([':'], t3, more);
    Regroup(Decimal(|s|), t4, more);
    Regroup("s:", t5, more);
  }

  lemma {:induction false} TextAppends(v: Value, rest: string, more: string)
    ensures Text(v, rest + more) == Text(v, rest) + more
    decreases v
  {
    match v
    case Null => Regroup("N;", rest, more);
    case Bool(b) => Regroup(if b then "b:1;" else "b:0;", rest, more);
    case Int(n) => IntTextAppends(n, rest, more);
    case Float(text) =>
      Regroup([';'], rest, more);
      Regroup(text, [';'] + rest, more);
      Regroup("d:", text + ([';'] + rest), more);
    case Str(s) => StrTextAppends(s, rest, more);
    case Arr(es) => ArrayTextAppends(es, rest, more);
  }

  lemma {:induction false} ArrayTextAppends(es: Entries, rest: string, more: string)
    ensures Text(Arr(es), rest + more) == Text(Arr(es), rest) + more
    decreases es, 1
  {
    var t1 := EntriesText(es, "}" + rest);
    var t2 := "{" + t1;
    var t3 := [':'] + t2;
    var t4 := Decimal(Count(es)) + t3;
    Regroup("}", rest, more);
    EntriesTextAppends(es, "}" + rest, more);
    Regroup("{", t1, more);
    Regroup([':'], t2, more);
    Regroup(Decimal(Count(es)), t3, more);
    Regroup("a:", t4, more);
  }

  lemma {:induction false} EntriesTextAppends(es: Entries, rest: string, more: string)
    ensures EntriesText(es, rest + more) == EntriesText(es, rest) + more
    decreases es, 0
  {
    if es.Entry? {
      var t := EntriesText(es.rest, rest);
      EntriesTextAppends(es.rest, rest, more);
      TextAppends(es.value, t, more);
      var u := Text(es.value, t);
      if es.key.IntKey? { IntTextAppends(es.key.n, u, more); } else { StrTextAppends(es.key.s, u, more); }
    }
  }

  /** The format, for every kind of value and of key. */
  lemma SerializedForms(b: bool, n: int, text: string, s: string)
    ensures Serialize(Null) == "N;"
    ensures Serialize(Bool(b)) == if b then "b:1;" else "b:0;"
    ensures Serialize(Int(n)) == if n >= 0 then "i:" + Decimal(n) + ";" else "i:-" + Decimal(-n) + ";"
    ensures Serialize(Float(text)) == "d:" + text + ";"
    ensures Serialize(Str(s)) == "s:" + Decimal(|s|) + ":\"" + s + "\";"
  {
  }

  /** An array is written as its number of entries and the keys and values, one after the other. */
  lemma {:induction false} SerializedArray(es: Entries)
    ensures Serialize(Arr(es)) == "a:" + (Decimal(Count(es)) + (":{" + (Body(es) + "}")))
  {
    EntriesAppend(es, "}");
    Regroup([':'], "{", Body(es) + "}");
    assert "}" + [] == "}" && [':'] + "{" == ":{";
  }

  /** The serialized keys and values. */
  function Body(es: Entries): string {
    match es
    case End => ""
    case Entry(IntKey(n), v, rest) => Serialize(Int(n)) + Serialize(v) + Body(rest)
    case Entry(StrKey(s), v, rest) => Serialize(Str(s)) + Serialize(v) + Body(rest)
  }

  lemma {:induction false} EntriesAppend(es: Entries, rest: string)
    ensures EntriesText(es, rest) == Body(es) + rest
  {
    match es
    case End =>
    case Entry(k, v, more) =>
      EntriesAppend(more, rest);
      var t := Body(more) + rest;
      var key := match k case IntKey(n) => Int(n) case StrKey(s) => Str(s);
      SerializeThen(v, t);
      SerializeThen(key, Text(v, t));
      Regroup(Serialize(key), Serialize(v), t);
      Regroup(Serialize(key) + Serialize(v), Body(more), rest);
  }

  lemma {:induction false} SerializeThen(v: Value, more: string)
    ensures Text(v, more) == Serialize(v) + more
  {
    assert [] + more == more;
    TextAppends(v, [], more);
  }

  /** Serialized values are prefix-free, and equal only for equal values. */
  lemma {:induction false} SerializeIsPrefixFree(v: Value, w: Value)
    requires WellFormed(v) && WellFormed(w) && Serialize(v) <= Serialize(w)
    ensures v == w
  {
    var a, b := Serialize(v), Serialize(w);
    var more := b[|a|..];
    assert b == a + more;
    SerializeThen(v, more);
    ValueIsRead(v, w, more, []);
  }
}
