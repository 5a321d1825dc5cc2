/** The canonical JSON text that deployment seals hash, a parser that undoes it, and the seal check. */
module CanonicalJson {
  import opened Wrappers
  import opened Digits
  import Lex
  import Numbers

  /** A JSON value. A float is the text of the shortest round-trip printer: a mantissa and, for very large
      and very small magnitudes, an exponent. */
  datatype Value =
    | Null
    | Bool(b: bool)
    | Int(n: int)
    | Float(mantissa: string, exponent: Option<int>)
    | Str(s: string)
    | Arr(items: seq<Value>)
    | Obj(members: seq<(string, Value)>)

  const BY_KEY := (m: (string, Value)) => m.0

  predicate MantissaChar(c: char) {
    IsDigit(c) || c == '-' || c == '.'
  }

  predicate FloatOk(mantissa: string, exponent: Option<int>) {
    && mantissa != "" && (forall i :: 0 <= i < |mantissa| ==> MantissaChar(mantissa[i]))
    && (exponent.None? ==> '.' in mantissa)
    && (exponent.Some? ==> -0x8000_0000 <= exponent.value < 0x8000_0000)
  }

  /** Keys are distinct in every object, and floats are as the base printer writes them. */
  predicate WellFormed(v: Value) {
    match v
    case Float(m, e) => FloatOk(m, e)
    case Arr(items) => forall i :: 0 <= i < |items| ==> WellFormed(items[i])
    case Obj(members) =>
      && (forall i, j :: 0 <= i < j < |members| ==> members[i].0 != members[j].0)
      && (forall i :: 0 <= i < |members| ==> WellFormed(members[i].1))
    case _ => true
  }

  // ----- Scalars

  function PrintInt(n: int): (s: string)
    ensures s != "" && (s[0] == '-' || IsDigit(s[0]))
  {
    if n < 0 then "-" + Render(-n) else Render(n)
  }

  /** What the base float printer writes. */
  function BaseFloat(mantissa: string, exponent: Option<int>): string {
    if exponent.None? then mantissa else mantissa + "e" + PrintInt(exponent.value)
  }

  function TwoDigits(n: nat): string {
    if n < 10 then "0" + Render(n) else Render(n)
  }

  function SignedExponent(exponent: int): string {
    if exponent < 0 then "-" + TwoDigits(-exponent) else "+" + TwoDigits(exponent)
  }

  /** The source's rewriting of a printed float: a signed exponent of at least two digits. */
  function RewriteExponent(text: string): Option<string> {
    var (mantissa, e) := Numbers.SplitOnce(text, {'e'});
    if e.None? then Some(text)
    else
      var exponent :- Numbers.ParseI64(e.value);
      if -0x8000_0000 <= exponent < 0x8000_0000 then Some(mantissa + "e" + SignedExponent(exponent)) else None
  }

  function CanonicalFloat(mantissa: string, exponent: Option<int>): string {
    if exponent.None? then mantissa else mantissa + "e" + SignedExponent(exponent.value)
  }

  lemma {:induction false} SplitAtExponent(m: string, tail: string)
    requires forall i :: 0 <= i < |m| ==> m[i] != 'e'
    ensures Numbers.SplitOnce(m, {'e'}) == (m, None)
    ensures Numbers.SplitOnce(m + "e" + tail, {'e'}) == (m, Some(tail))
  {
    if m == "" {
      assert (m + "e" + tail)[1..] == tail;
    } else {
      SplitAtExponent(m[1..], tail);
      assert (m + "e" + tail)[1..] == m[1..] + "e" + tail;
      assert m == [m[0]] + m[1..];
    }
  }

  lemma PrintIntParses(n: int)
    requires Numbers.InI64(n)
    ensures Numbers.ParseI64(PrintInt(n)) == Some(n)
  {
    if n < 0 {
      RenderToNat(-n);
      assert PrintInt(n)[1..] == Render(-n);
    } else {
      RenderToNat(n);
    }
  }

  /** Rewriting never fails on a printed float, and yields the canonical spelling. */
  lemma {:induction false} RewriteExact(mantissa: string, exponent: Option<int>)
    requires FloatOk(mantissa, exponent)
    ensures RewriteExponent(BaseFloat(mantissa, exponent)) == Some(CanonicalFloat(mantissa, exponent))
  {
    SplitAtExponent(mantissa, if exponent.Some? then PrintInt(exponent.value) else "");
    if exponent.Some? {
      PrintIntParses(exponent.value);
    }
  }

  function HexChar(d: nat): (c: char)
    requires d < 16
  {
    if d < 10 then ('0' as int + d) as char else ('a' as int + d - 10) as char
  }

  /** The escapes of section 7 of RFC 8259 that the printer writes. */
  function Escape(c: char): string {
    if c == '\"' then "\\\""
    else if c == '\\' then "\\\\"
    else if c as int == 8 then "\\b"
    else if c as int == 12 then "\\f"
    else if c == '\n' then "\\n"
    else if c == '\r' then "\\r"
    else if c == '\t' then "\\t"
    else if c as int < 32 then "\\u00" + [HexChar(c as int / 16), HexChar(c as int % 16)]
    else [c]
  }

  function EscapeAll(s: string): string {
    if s == "" then "" else Escape(s[0]) + EscapeAll(s[1..])
  }

  function Quote(s: string): string {
    "\"" + EscapeAll(s) + "\""
  }

  // ----- The printer

  function Join(parts: seq<string>): string {
    if parts == [] then "" else if |parts| == 1 then parts[0] else parts[0] + "," + Join(parts[1..])
  }

  lemma SortedFrom(v: Value)
    requires v.Obj?
    ensures forall m :: m in Lex.SortBy(v.members, BY_KEY) ==> m in v.members && m.1 < v
  {
    forall m | m in Lex.SortBy(v.members, BY_KEY)
      ensures m in v.members && m.1 < v
    {
      Lex.SortByMember(v.members, BY_KEY, m);
      var i :| 0 <= i < |v.members| && v.members[i] == m;
      assert v.members[i].1 < v;
    }
  }

  function Sorted(v: Value): (r: seq<(string, Value)>)
    requires v.Obj?
    ensures forall m :: m in r ==> m in v.members && m.1 < v
  {
    SortedFrom(v);
    Lex.SortBy(v.members, BY_KEY)
  }

  function Print(v: Value): string
    decreases v, 1
  {
    match v
    case Null => "null"
    case Bool(b) => if b then "true" else "false"
    case Int(n) => PrintInt(n)
    case Float(m, e) => CanonicalFloat(m, e)
    case Str(s) => Quote(s)
    case Arr(items) => "[" + Join(PrintItems(items, v)) + "]"
    case Obj(_) => "{" + Join(PrintMembers(Sorted(v), v)) + "}"
  }

  function PrintItems(items: seq<Value>, parent: Value): (r: seq<string>)
    requires forall i :: 0 <= i < |items| ==> items[i] < parent
    ensures |r| == |items|
    decreases parent, 0, |items|
  {
    if items == [] then [] else [Print(items[0])] + PrintItems(items[1..], parent)
  }

  function PrintMembers(members: seq<(string, Value)>, parent: Value): (r: seq<string>)
    requires forall i :: 0 <= i < |members| ==> members[i].1 < parent
    ensures |r| == |members|
    decreases parent, 0, |members|
  {
    if members == [] then []
    else [Quote(members[0].0) + ":" + Print(members[0].1)] + PrintMembers(members[1..], parent)
  }

  // ----- The value a text stands for: objects in key order, at every depth

  function Canon(v: Value): Value
    decreases v, 1
  {
    match v
    case Arr(items) => Arr(CanonItems(items, v))
    case Obj(_) => Obj(CanonMembers(Sorted(v), v))
    case _ => v
  }

  function CanonItems(items: seq<Value>, parent: Value): (r: seq<Value>)
    requires forall i :: 0 <= i < |items| ==> items[i] < parent
    ensures |r| == |items| && forall i :: 0 <= i < |items| ==> r[i] == Canon(items[i])
    decreases parent, 0, |items|
  {
    if items == [] then [] else [Canon(items[0])] + CanonItems(items[1..], parent)
  }

  function CanonMembers(members: seq<(string, Value)>, parent: Value): (r: seq<(string, Value)>)
    requires forall i :: 0 <= i < |members| ==> members[i].1 < parent
    ensures |r| == |members| && forall i :: 0 <= i < |members| ==> r[i] == (members[i].0, Canon(members[i].1))
    decreases parent, 0, |members|
  {
    if members == [] then []
    else [(members[0].0, Canon(members[0].1))] + CanonMembers(members[1..], parent)
  }

  // ----- A parser for the canonical text

  function HexValue(c: char): Option<nat> {
    if IsDigit(c) then Some(DigitValue(c))
    else if 'a' <= c <= 'f' then Some(10 + (c as int - 'a' as int)) else None
  }

  function Unescape(s: string): (r: Option<(char, string)>)
    ensures r.Some? ==> |r.value.1| < |s|
  {
    if s == "" then None
    else if s[0] in "\"\\" then Some((s[0], s[1..]))
    else if s[0] == 'b' then Some((8 as char, s[1..]))
    else if s[0] == 'f' then Some((12 as char, s[1..]))
    else if s[0] == 'n' then Some(('\n', s[1..]))
    else if s[0] == 'r' then Some(('\r', s[1..]))
    else if s[0] == 't' then Some(('\t', s[1..]))
    else if |s| >= 5 && s[..3] == "u00" then
      var high :- HexValue(s[3]);
      var low :- HexValue(s[4]);
      if high < 8 then Some(((16 * high + low) as char, s[5..])) else None
    else None
  }

  /** The characters up to the closing quote, and what follows it. */
  function ParseString(s: string): (r: Option<(string, string)>)
    ensures r.Some? ==> |r.value.1| < |s|
  {
    if s == "" then None
    else if s[0] == '\"' then Some(("", s[1..]))
    else if s[0] == '\\' then
      var c :- Unescape(s[1..]);
      var more :- ParseString(c.1);
      Some(([c.0] + more.0, more.1))
    else
      var more :- ParseString(s[1..]);
      Some(([s[0]] + more.0, more.1))
  }

  predicate NumberChar(c: char) {
    MantissaChar(c) || c == '+' || c == 'e'
  }

  function NumberRun(s: string): (r: (string, string))
    ensures s == r.0 + r.1
  {
    if s == "" || !NumberChar(s[0]) then ("", s)
    else
      var (run, rest) := NumberRun(s[1..]);
      ([s[0]] + run, rest)
  }

  function ParseExponent(e: string): Option<int> {
    if |e| < 2 || !AllDigits(e[1..]) then None
    else if e[0] == '-' then Some(-(ToNat(e[1..]) as int))
    else if e[0] == '+' then Some(ToNat(e[1..]))
    else None
  }

  function ParseNumber(run: string): Option<Value> {
    var (mantissa, e) := Numbers.SplitOnce(run, {'e'});
    if e.Some? then
      var exponent :- ParseExponent(e.value);
      Some(Float(mantissa, Some(exponent)))
    else if '.' in run then Some(Float(run, None))
    else if run != "" && run[0] == '-' && AllDigits(run[1..]) then Some(Int(-(ToNat(run[1..]) as int)))
    else if run != "" && AllDigits(run) then Some(Int(ToNat(run)))
    else None
  }

  function ParseWord(s: string): (r: Option<(Value, string)>)
    ensures r.Some? ==> |r.value.1| < |s|
  {
    if |s| >= 4 && s[..4] == "null" then Some((Null, s[4..]))
    else if |s| >= 4 && s[..4] == "true" then Some((Bool(true), s[4..]))
    else if |s| >= 5 && s[..5] == "false" then Some((Bool(false), s[5..]))
    else None
  }

  predicate Next(s: string, c: char) {
    s != "" && s[0] == c
  }

  function ParseValue(s: string): (r: Option<(Value, string)>)
    ensures r.Some? ==> |r.value.1| < |s|
    decreases |s|, 0
  {
    if s == "" then None
    else if s[0] == '\"' then
      var text :- ParseString(s[1..]);
      Some((Str(text.0), text.1))
    else if s[0] == '[' then
      if Next(s[1..], ']') then Some((Arr([]), s[2..]))
      else
        var items :- ParseItems(s[1..]);
        Some((Arr(items.0), items.1))
    else if s[0] == '{' then
      if Next(s[1..], '}') then Some((Obj([]), s[2..]))
      else
        var members :- ParseMembers(s[1..]);
        Some((Obj(members.0), members.1))
    else if MantissaChar(s[0]) then
      var (run, rest) := NumberRun(s);
      var number :- ParseNumber(run);
      Some((number, rest))
    else ParseWord(s)
  }

  function ParseItems(s: string): (r: Option<(seq<Value>, string)>)
    ensures r.Some? ==> |r.value.1| < |s|
    decreases |s|, 1
  {
    var (v, rest) :- ParseValue(s);
    if Next(rest, ']') then Some(([v], rest[1..]))
    else if Next(rest, ',') then
      var more :- ParseItems(rest[1..]);
      Some(([v] + more.0, more.1))
    else None
  }

  /** A key, a colon and a value. */
  function ParseMember(s: string): (r: Option<((string, Value), string)>)
    ensures r.Some? ==> |r.value.1| < |s|
    decreases |s|, 1
  {
    if !Next(s, '\"') then None
    else
      var (key, after) :- ParseString(s[1..]);
      if !Next(after, ':') then None
      else
        var (v, rest) :- ParseValue(after[1..]);
        Some(((key, v), rest))
  }

  function ParseMembers(s: string): (r: Option<(seq<(string, Value)>, string)>)
    ensures r.Some? ==> |r.value.1| < |s|
    decreases |s|, 2
  {
    var (m, rest) :- ParseMember(s);
    if Next(rest, '}') then Some(([m], rest[1..]))
    else if Next(rest, ',') then
      var more :- ParseMembers(rest[1..]);
      Some(([m] + more.0, more.1))
    else None
  }

  function Parse(s: string): Option<Value> {
    var (v, rest) :- ParseValue(s);
    if rest == "" then Some(v) else None
  }
}
