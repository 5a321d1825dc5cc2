/** The canonical text determines its value up to the order of object keys, and a deployment seal covers
    everything except the sealed key itself. */
module CanonicalJsonLaws {
  import opened Wrappers
  import opened Digits
  import opened CanonicalJson
  import Lex

  // ----- Strings read back

  lemma HexReadsBack(d: nat)
    requires d < 16
    ensures HexValue(HexChar(d)) == Some(d)
  {
  }

  lemma EscapeHead(c: char)
    ensures if Escape(c) == [c] then c != '\"' && c != '\\' else |Escape(c)| >= 2 && Escape(c)[0] == '\\'
  {
  }

  lemma UnescapeEscaped(c: char, rest: string)
    requires Escape(c) != [c]
    ensures Unescape(Escape(c)[1..] + rest) == Some((c, rest))
  {
    var t := Escape(c)[1..] + rest;
    if |Escape(c)| == 2 {
      assert t[1..] == rest;
    } else {
      var high, low := c as int / 16, c as int % 16;
      HexReadsBack(high);
      HexReadsBack(low);
      assert t[..3] == "u00" && t[3] == HexChar(high) && t[4] == HexChar(low) && t[5..] == rest;
    }
  }

  lemma CharReadsBack(c: char, tail: string)
    ensures Escape(c) == [c] ==> c != '\"' && c != '\\' && (Escape(c) + tail)[1..] == tail
    ensures Escape(c) != [c] ==> (Escape(c) + tail)[0] == '\\' && Unescape((Escape(c) + tail)[1..]) == Some((c, tail))
  {
    EscapeHead(c);
    if Escape(c) != [c] {
      UnescapeEscaped(c, tail);
      assert (Escape(c) + tail)[1..] == Escape(c)[1..] + tail;
    }
  }

  lemma {:induction false} ParsesOn(c: char, tail: string, s: string, rest: string)
    requires ParseString(tail) == Some((s, rest))
    ensures ParseString(Escape(c) + tail) == Some(([c] + s, rest))
  {
    CharReadsBack(c, tail);
  }

  lemma {:induction false} EscapeFirst(s: string, end: string)
    requires s != ""
    ensures EscapeAll(s) + end == Escape(s[0]) + (EscapeAll(s[1..]) + end)
  {
  }

  lemma {:induction false} ParsesBefore(s: string, end: string, rest: string)
    requires end != "" && end[0] == '\"' && end[1..] == rest
    ensures ParseString(EscapeAll(s) + end) == Some((s, rest))
  {
    if s == "" {
      assert "" + end == end;
    } else {
      ParsesBefore(s[1..], end, rest);
      EscapeFirst(s, end);
      ParsesOn(s[0], EscapeAll(s[1..]) + end, s[1..], rest);
      assert s == [s[0]] + s[1..];
    }
  }

  lemma {:induction false} StringReadsBack(s: string, rest: string)
    ensures ParseString(EscapeAll(s) + "\"" + rest) == Some((s, rest))
  {
    var end := "\"" + rest;
    assert EscapeAll(s) + "\"" + rest == EscapeAll(s) + end;
    ParsesBefore(s, end, rest);
  }

  lemma QuotePieces(s: string, rest: string)
    ensures Next(Quote(s) + rest, '\"') && (Quote(s) + rest)[1..] == EscapeAll(s) + "\"" + rest
  {
    assert Quote(s) + rest == "\"" + (EscapeAll(s) + "\"" + rest);
  }

  // ----- Numbers read back

  /** What may follow a value: nothing that would continue a number. */
  predicate Delimited(rest: string) {
    rest == "" || !NumberChar(rest[0])
  }

  lemma {:induction false} RunStops(run: string, rest: string)
    requires (forall i :: 0 <= i < |run| ==> NumberChar(run[i])) && Delimited(rest)
    ensures NumberRun(run + rest) == (run, rest)
  {
    if run != "" {
      RunStops(run[1..], rest);
      assert (run + rest)[1..] == run[1..] + rest;
      assert run == [run[0]] + run[1..];
    } else {
      assert run + rest == rest;
    }
  }

  lemma DigitsAreMantissa(text: string)
    requires AllDigits(text)
    ensures forall i :: 0 <= i < |text| ==> MantissaChar(text[i]) && text[i] != 'e'
    ensures '.' !in text
  {
  }

  lemma IntReadsBack(n: int)
    ensures forall i :: 0 <= i < |PrintInt(n)| ==> MantissaChar(PrintInt(n)[i])
    ensures ParseNumber(PrintInt(n)) == Some(Int(n))
  {
    var text := PrintInt(n);
    if n < 0 {
      NegativeReadsBack(-n);
    } else {
      DigitsAreMantissa(text);
      SplitAtExponent(text, "");
      RenderToNat(n);
    }
  }

  lemma NegativeReadsBack(m: nat)
    requires m > 0
    ensures forall i :: 0 <= i < |"-" + Render(m)| ==> MantissaChar(("-" + Render(m))[i])
    ensures ParseNumber("-" + Render(m)) == Some(Int(-(m as int)))
  {
    var text := "-" + Render(m);
    DigitsAreMantissa(Render(m));
    SplitAtExponent(text, "");
    RenderToNat(m);
    assert text[1..] == Render(m);
  }

  lemma TwoDigitsValue(n: nat)
    ensures TwoDigits(n) != "" && AllDigits(TwoDigits(n)) && ToNat(TwoDigits(n)) == n
  {
    RenderToNat(n);
    if n < 10 {
      ToNatConcat("0", Render(n));
      assert "0"[..0] == "" && ToNat("0") == 0;
    }
  }

  lemma ExponentReadsBack(e: int)
    ensures forall i :: 0 <= i < |SignedExponent(e)| ==> NumberChar(SignedExponent(e)[i])
    ensures ParseExponent(SignedExponent(e)) == Some(e)
  {
    var n: nat := if e < 0 then -e else e;
    TwoDigitsValue(n);
    assert SignedExponent(e)[1..] == TwoDigits(n);
  }

  lemma FloatReadsBack(m: string, e: Option<int>)
    requires FloatOk(m, e)
    ensures CanonicalFloat(m, e) != "" && MantissaChar(CanonicalFloat(m, e)[0])
    ensures forall i :: 0 <= i < |CanonicalFloat(m, e)| ==> NumberChar(CanonicalFloat(m, e)[i])
    ensures ParseNumber(CanonicalFloat(m, e)) == Some(Float(m, e))
  {
    SplitAtExponent(m, if e.Some? then SignedExponent(e.value) else "");
    if e.Some? {
      ExponentReadsBack(e.value);
    }
  }

  lemma {:induction false} NumberReadsBack(text: string, v: Value, rest: string)
    requires text != "" && MantissaChar(text[0]) && ParseNumber(text) == Some(v) && Delimited(rest)
    requires forall i :: 0 <= i < |text| ==> NumberChar(text[i])
    ensures ParseValue(text + rest) == Some((v, rest))
  {
    RunStops(text, rest);
    assert (text + rest)[0] == text[0];
  }

  // ----- Values read back

  lemma {:induction false} PrintHead(v: Value)
    requires WellFormed(v)
    ensures Print(v) != "" && Print(v)[0] != ']'
  {
    if v.Float? {
      FloatReadsBack(v.mantissa, v.exponent);
    }
  }

  lemma ItemsStep(s: string, tail: string, v: Value)
    requires ParseValue(s) == Some((v, tail)) && tail != ""
    ensures tail[0] == ']' ==> ParseItems(s) == Some(([v], tail[1..]))
    ensures tail[0] == ',' && ParseItems(tail[1..]).Some? ==>
              var more := ParseItems(tail[1..]).value;
              ParseItems(s) == Some(([v] + more.0, more.1))
  {
  }

  lemma {:induction false} MembersEnd(s: string, m: (string, Value), rest: string)
    requires ParseMember(s) == Some((m, "}" + rest))
    ensures ParseMembers(s) == Some(([m], rest))
  {
    assert ("}" + rest)[1..] == rest;
  }

  lemma {:induction false} MembersStep(
    s: string, m: (string, Value), more: string, ms: seq<(string, Value)>, rest: string)
    requires ParseMember(s) == Some((m, "," + more)) && ParseMembers(more) == Some((ms, rest))
    ensures ParseMembers(s) == Some(([m] + ms, rest))
  {
    assert ("," + more)[1..] == more;
  }

  lemma {:induction false} JoinMore(parts: seq<string>, close: string)
    requires |parts| > 1
    ensures Join(parts) + close == parts[0] + ("," + (Join(parts[1..]) + close))
  {
  }

  lemma {:induction false} ItemsReadBack(items: seq<Value>, parent: Value, rest: string)
    requires items != [] && (forall i :: 0 <= i < |items| ==> items[i] < parent && WellFormed(items[i]))
    ensures ParseItems(Join(PrintItems(items, parent)) + ("]" + rest)) == Some((CanonItems(items, parent), rest))
    decreases parent, 0, |items|
  {
    var close := "]" + rest;
    if |items| == 1 {
      ValueReadsBack(items[0], close);
      ItemsStep(Print(items[0]) + close, close, Canon(items[0]));
      assert PrintItems(items, parent) == [Print(items[0])];
      assert CanonItems(items, parent) == [Canon(items[0])];
      assert close[1..] == rest;
    } else {
      var more := Join(PrintItems(items[1..], parent)) + close;
      var tail := "," + more;
      ItemsReadBack(items[1..], parent, rest);
      ValueReadsBack(items[0], tail);
      assert tail[1..] == more;
      ItemsStep(Print(items[0]) + tail, tail, Canon(items[0]));
      assert PrintItems(items, parent)[1..] == PrintItems(items[1..], parent);
      JoinMore(PrintItems(items, parent), close);
    }
  }

  lemma {:induction false} MemberPieces(key: string, value: string, tail: string)
    ensures Next(Quote(key) + ":" + value + tail, '\"')
    ensures (Quote(key) + ":" + value + tail)[1..] == EscapeAll(key) + "\"" + (":" + (value + tail))
  {
    assert Quote(key) + ":" + value + tail == "\"" + (EscapeAll(key) + "\"" + (":" + (value + tail)));
  }

  lemma {:induction false} MemberReadsBack(m: (string, Value), tail: string)
    requires WellFormed(m.1) && Delimited(tail)
    ensures ParseMember(Quote(m.0) + ":" + Print(m.1) + tail) == Some(((m.0, Canon(m.1)), tail))
    decreases m.1, 2
  {
    var after := ":" + (Print(m.1) + tail);
    ValueReadsBack(m.1, tail);
    StringReadsBack(m.0, after);
    MemberPieces(m.0, Print(m.1), tail);
    assert after[1..] == Print(m.1) + tail;
  }

  lemma {:induction false} MembersReadBack(members: seq<(string, Value)>, parent: Value, rest: string)
    requires members != []
    requires forall i :: 0 <= i < |members| ==> members[i].1 < parent && WellFormed(members[i].1)
    ensures ParseMembers(Join(PrintMembers(members, parent)) + ("}" + rest))
            == Some((CanonMembers(members, parent), rest))
    decreases parent, 0, |members|
  {
    var close := "}" + rest;
    var m, printed := members[0], Quote(members[0].0) + ":" + Print(members[0].1);
    if |members| == 1 {
      MemberReadsBack(m, close);
      MembersEnd(printed + close, (m.0, Canon(m.1)), rest);
      assert PrintMembers(members, parent) == [printed];
      assert CanonMembers(members, parent) == [(m.0, Canon(m.1))];
    } else {
      var more := Join(PrintMembers(members[1..], parent)) + close;
      MembersReadBack(members[1..], parent, rest);
      MemberReadsBack(m, "," + more);
      MembersStep(printed + ("," + more), (m.0, Canon(m.1)), more, CanonMembers(members[1..], parent), rest);
      MoreMembers(members, parent, close);
    }
  }

  lemma {:induction false} MoreMembers(members: seq<(string, Value)>, parent: Value, close: string)
    requires |members| > 1 && forall i :: 0 <= i < |members| ==> members[i].1 < parent
    ensures Join(PrintMembers(members, parent)) + close ==
            Quote(members[0].0) + ":" + Print(members[0].1)
            + ("," + (Join(PrintMembers(members[1..], parent)) + close))
    ensures CanonMembers(members, parent) ==
            [(members[0].0, Canon(members[0].1))] + CanonMembers(members[1..], parent)
  {
    assert PrintMembers(members, parent)[1..] == PrintMembers(members[1..], parent);
    JoinMore(PrintMembers(members, parent), close);
  }

  lemma {:induction false} WordReadsBack(v: Value, rest: string)
    requires v.Null? || v.Bool?
    ensures ParseValue(Print(v) + rest) == Some((v, rest))
  {
    var text := Print(v) + rest;
    if v.Null? {
      assert text[..4] == "null" && text[4..] == rest;
    } else if v.b {
      assert text[..4] == "true" && text[4..] == rest;
    } else {
      assert text[..5] == "false" && text[5..] == rest;
    }
  }

  /** Reading a canonical text, whatever follows it, yields the value with its keys in order. */
  lemma {:induction false} ValueReadsBack(v: Value, rest: string)
    requires WellFormed(v) && Delimited(rest)
    ensures ParseValue(Print(v) + rest) == Some((Canon(v), rest))
    decreases v, 1
  {
    match v
    case Null => WordReadsBack(v, rest);
    case Bool(b) => WordReadsBack(v, rest);
    case Int(n) =>
      IntReadsBack(n);
      NumberReadsBack(Print(v), v, rest);
    case Float(m, e) =>
      FloatReadsBack(m, e);
      NumberReadsBack(Print(v), v, rest);
    case Str(s) =>
      StringReadsBack(s, rest);
      QuotePieces(s, rest);
    case Arr(items) => ArrayReadsBack(v, rest);
    case Obj(_) => ObjectReadsBack(v, rest);
  }

  lemma Bracketed(open: char, inner: string, close: string, rest: string)
    ensures ([open] + inner + close + rest)[1..] == inner + (close + rest)
    ensures ([open] + inner + close + rest)[0] == open
    ensures inner == "" && |close| == 1 ==> ([open] + inner + close + rest)[2..] == rest
  {
    assert [open] + inner + close + rest == [open] + (inner + (close + rest));
    if inner == "" && |close| == 1 {
      assert [open] + inner + close + rest == ([open] + close) + rest;
    }
  }

  lemma {:induction false} ArrayReadsBack(v: Value, rest: string)
    requires v.Arr? && WellFormed(v) && Delimited(rest)
    ensures ParseValue(Print(v) + rest) == Some((Canon(v), rest))
    decreases v, 0, |v.items| + 1
  {
    var inner := Join(PrintItems(v.items, v));
    Bracketed('[', inner, "]", rest);
    if v.items != [] {
      ItemsReadBack(v.items, v, rest);
      PrintHead(v.items[0]);
      assert inner[0] == Print(v.items[0])[0];
    }
  }

  lemma {:induction false} ParsesObject(inner: string, rest: string, ms: seq<(string, Value)>)
    requires inner != "" && inner[0] == '\"' && ParseMembers(inner + ("}" + rest)) == Some((ms, rest))
    ensures ParseValue("{" + inner + "}" + rest) == Some((Obj(ms), rest))
  {
    Bracketed('{', inner, "}", rest);
  }

  lemma {:induction false} ParsesEmptyObject(rest: string)
    ensures ParseValue("{" + "" + "}" + rest) == Some((Obj([]), rest))
  {
    Bracketed('{', "", "}", rest);
  }

  lemma {:induction false} ObjectReadsBack(v: Value, rest: string)
    requires v.Obj? && WellFormed(v) && Delimited(rest)
    ensures ParseValue(Print(v) + rest) == Some((Canon(v), rest))
    decreases v, 0, |Sorted(v)| + 1
  {
    var sorted := Sorted(v);
    if sorted == [] {
      ParsesEmptyObject(rest);
    } else {
      MembersReadBack(sorted, v, rest);
      MembersHead(sorted, v);
      ParsesObject(Join(PrintMembers(sorted, v)), rest, CanonMembers(sorted, v));
    }
  }

  lemma {:induction false} MembersHead(members: seq<(string, Value)>, parent: Value)
    requires members != [] && forall i :: 0 <= i < |members| ==> members[i].1 < parent
    ensures Join(PrintMembers(members, parent)) != "" && Join(PrintMembers(members, parent))[0] == '\"'
  {
  }

  /** The printer can be undone. */
  lemma PrintReadsBack(v: Value)
    requires WellFormed(v)
    ensures Parse(Print(v)) == Some(Canon(v))
  {
    ValueReadsBack(v, "");
    assert Print(v) + "" == Print(v);
  }

  // ----- What the rendering determines

  /** Equality of JSON values: object keys carry no order. */
  ghost predicate Same(a: Value, b: Value)
    decreases a, 0
  {
    if a.Arr? && b.Arr? then
      |a.items| == |b.items| && forall i :: 0 <= i < |a.items| ==> Same(a.items[i], b.items[i])
    else if a.Obj? && b.Obj? then
      && (forall i :: 0 <= i < |a.members| ==> HasSame(a.members[i], b.members))
      && (forall j :: 0 <= j < |b.members| ==> HasKey(a.members, b.members[j].0))
    else a == b
  }

  ghost predicate HasSame(m: (string, Value), others: seq<(string, Value)>)
    decreases m.1, 1
  {
    exists j :: 0 <= j < |others| && others[j].0 == m.0 && Same(m.1, others[j].1)
  }

  ghost predicate HasKey(members: seq<(string, Value)>, key: string) {
    exists i :: 0 <= i < |members| && members[i].0 == key
  }

  lemma SortedAscends(v: Value)
    requires v.Obj? && WellFormed(v)
    ensures Lex.Ascending(Sorted(v), BY_KEY)
    ensures forall m :: m in Sorted(v) <==> m in v.members
  {
    Lex.SortByAscends(v.members, BY_KEY);
    forall m
      ensures m in Sorted(v) <==> m in v.members
    {
      Lex.SortByMember(v.members, BY_KEY, m);
    }
  }

  lemma {:induction false} AscendingKeysAgree(a: seq<(string, Value)>, b: seq<(string, Value)>)
    requires Lex.Ascending(a, BY_KEY) && Lex.Ascending(b, BY_KEY)
    requires forall i :: 0 <= i < |a| ==> HasKey(b, a[i].0)
    requires forall j :: 0 <= j < |b| ==> HasKey(a, b[j].0)
    ensures |a| == |b| && forall i :: 0 <= i < |a| ==> a[i].0 == b[i].0
    decreases |a|
  {
    if a != [] && b != [] {
      FirstKeysAgree(a, b);
      TailKeys(a, b);
      TailKeys(b, a);
      AscendingKeysAgree(a[1..], b[1..]);
    } else {
      HeldByNone(a, b);
      HeldByNone(b, a);
    }
  }

  lemma HeldByNone(a: seq<(string, Value)>, b: seq<(string, Value)>)
    requires forall i :: 0 <= i < |a| ==> HasKey(b, a[i].0)
    ensures a != [] ==> b != []
  {
    if a != [] {
      assert HasKey(b, a[0].0);
    }
  }

  lemma FirstKeysAgree(a: seq<(string, Value)>, b: seq<(string, Value)>)
    requires Lex.Ascending(a, BY_KEY) && Lex.Ascending(b, BY_KEY) && a != [] && b != []
    requires HasKey(b, a[0].0) && HasKey(a, b[0].0)
    ensures a[0].0 == b[0].0
  {
    var j :| 0 <= j < |b| && b[j].0 == a[0].0;
    var i :| 0 <= i < |a| && a[i].0 == b[0].0;
    assert i > 0 ==> Lex.Less(BY_KEY(a[0]), BY_KEY(b[0]));
    assert j > 0 ==> Lex.Less(BY_KEY(b[0]), BY_KEY(a[0]));
    Lex.LessAsymmetric(BY_KEY(a[0]), BY_KEY(b[0]));
  }

  lemma TailKeys(a: seq<(string, Value)>, b: seq<(string, Value)>)
    requires Lex.Ascending(a, BY_KEY) && Lex.Ascending(b, BY_KEY) && a != [] && b != [] && a[0].0 == b[0].0
    requires forall i :: 0 <= i < |a| ==> HasKey(b, a[i].0)
    ensures forall i :: 0 <= i < |a[1..]| ==> HasKey(b[1..], a[1..][i].0)
  {
    forall i | 0 <= i < |a[1..]|
      ensures HasKey(b[1..], a[1..][i].0)
    {
      var j :| 0 <= j < |b| && b[j].0 == a[i + 1].0;
      Lex.LessIrreflexive(BY_KEY(a[0]));
      assert Lex.Less(BY_KEY(a[0]), BY_KEY(a[i + 1]));
      assert b[1..][j - 1] == b[j];
    }
  }

  /** Two objects that hold, in key order, pairwise the same keys and values. */
  ghost predicate PairwiseAlike(x: seq<(string, Value)>, y: seq<(string, Value)>) {
    && |x| == |y|
    && forall i :: 0 <= i < |x| ==> x[i].0 == y[i].0 && Same(x[i].1, y[i].1)
  }

  lemma {:induction false} SortedKeyKept(a: Value, b: Value, i: nat)
    requires a.Obj? && b.Obj? && WellFormed(a) && WellFormed(b) && Same(a, b) && i < |Sorted(a)|
    ensures HasKey(Sorted(b), Sorted(a)[i].0)
  {
    var x, y := Sorted(a), Sorted(b);
    SortedAscends(a);
    SortedAscends(b);
    assert x[i] in x;
    var k :| 0 <= k < |a.members| && a.members[k] == x[i];
    assert HasSame(a.members[k], b.members);
    var j :| 0 <= j < |b.members| && b.members[j].0 == x[i].0;
    assert b.members[j] in y;
  }

  lemma {:induction false} SortedKeyHeld(a: Value, b: Value, j: nat)
    requires a.Obj? && b.Obj? && WellFormed(a) && WellFormed(b) && Same(a, b) && j < |Sorted(b)|
    ensures HasKey(Sorted(a), Sorted(b)[j].0)
  {
    var x, y := Sorted(a), Sorted(b);
    SortedAscends(a);
    SortedAscends(b);
    assert y[j] in y;
    var k :| 0 <= k < |b.members| && b.members[k] == y[j];
    assert HasKey(a.members, b.members[k].0);
    var i :| 0 <= i < |a.members| && a.members[i].0 == y[j].0;
    assert a.members[i] in x;
  }

  lemma {:induction false} SameKeysSorted(a: Value, b: Value)
    requires a.Obj? && b.Obj? && WellFormed(a) && WellFormed(b) && Same(a, b)
    ensures forall i :: 0 <= i < |Sorted(a)| ==> HasKey(Sorted(b), Sorted(a)[i].0)
    ensures forall j :: 0 <= j < |Sorted(b)| ==> HasKey(Sorted(a), Sorted(b)[j].0)
  {
    forall i | 0 <= i < |Sorted(a)|
      ensures HasKey(Sorted(b), Sorted(a)[i].0)
    {
      SortedKeyKept(a, b, i);
    }
    forall j | 0 <= j < |Sorted(b)|
      ensures HasKey(Sorted(a), Sorted(b)[j].0)
    {
      SortedKeyHeld(a, b, j);
    }
  }

  lemma SameToPairs(a: Value, b: Value)
    requires a.Obj? && b.Obj? && WellFormed(a) && WellFormed(b) && Same(a, b)
    ensures PairwiseAlike(Sorted(a), Sorted(b))
  {
    var x, y := Sorted(a), Sorted(b);
    SameKeysSorted(a, b);
    SortedAscends(a);
    SortedAscends(b);
    AscendingKeysAgree(x, y);
    forall i | 0 <= i < |x|
      ensures Same(x[i].1, y[i].1)
    {
      assert x[i] in x && y[i] in y;
      SamePair(a, b, x[i], y[i]);
    }
  }

  /** Two objects agree exactly when, in key order, keys and values agree pairwise. */
  lemma SameSorted(a: Value, b: Value)
    requires a.Obj? && b.Obj? && WellFormed(a) && WellFormed(b)
    ensures Same(a, b) <==> PairwiseAlike(Sorted(a), Sorted(b))
  {
    if Same(a, b) {
      SameToPairs(a, b);
    }
    if PairwiseAlike(Sorted(a), Sorted(b)) {
      PairwiseSame(a, b);
    }
  }

  lemma {:induction false} OneMemberOfAKey(members: seq<(string, Value)>, j: nat, k: nat)
    requires WellFormed(Obj(members)) && j < |members| && k < |members| && members[j].0 == members[k].0
    ensures j == k
  {
  }

  lemma {:induction false} SamePair(a: Value, b: Value, m: (string, Value), n: (string, Value))
    requires a.Obj? && b.Obj? && WellFormed(a) && WellFormed(b) && Same(a, b)
    requires m in a.members && n in b.members && m.0 == n.0
    ensures Same(m.1, n.1)
  {
    var i :| 0 <= i < |a.members| && a.members[i] == m;
    assert HasSame(a.members[i], b.members);
    var j :| 0 <= j < |b.members| && b.members[j].0 == m.0 && Same(m.1, b.members[j].1);
    var k :| 0 <= k < |b.members| && b.members[k] == n;
    OneMemberOfAKey(b.members, j, k);
  }

  lemma {:induction false} PairHasSame(a: Value, b: Value, k: nat)
    requires a.Obj? && b.Obj? && WellFormed(a) && WellFormed(b) && k < |a.members|
    requires PairwiseAlike(Sorted(a), Sorted(b))
    ensures HasSame(a.members[k], b.members)
  {
    var x, y := Sorted(a), Sorted(b);
    SortedAscends(a);
    SortedAscends(b);
    assert a.members[k] in x;
    var i :| 0 <= i < |x| && x[i] == a.members[k];
    assert y[i] in y;
    var j :| 0 <= j < |b.members| && b.members[j] == y[i];
    assert b.members[j].0 == a.members[k].0 && Same(a.members[k].1, b.members[j].1);
  }

  lemma PairHasKey(a: Value, b: Value, k: nat)
    requires a.Obj? && b.Obj? && WellFormed(a) && WellFormed(b) && k < |b.members|
    requires PairwiseAlike(Sorted(a), Sorted(b))
    ensures HasKey(a.members, b.members[k].0)
  {
    var x, y := Sorted(a), Sorted(b);
    SortedAscends(a);
    SortedAscends(b);
    assert b.members[k] in y;
    var i :| 0 <= i < |y| && y[i] == b.members[k];
    assert x[i] in x;
    var j :| 0 <= j < |a.members| && a.members[j] == x[i];
    assert a.members[j].0 == b.members[k].0;
  }

  lemma PairwiseSame(a: Value, b: Value)
    requires a.Obj? && b.Obj? && WellFormed(a) && WellFormed(b)
    requires PairwiseAlike(Sorted(a), Sorted(b))
    ensures Same(a, b)
  {
    forall k | 0 <= k < |a.members|
      ensures HasSame(a.members[k], b.members)
    {
      PairHasSame(a, b, k);
    }
    forall k | 0 <= k < |b.members|
      ensures HasKey(a.members, b.members[k].0)
    {
      PairHasKey(a, b, k);
    }
  }

  lemma SortedWellFormed(v: Value, i: nat)
    requires v.Obj? && WellFormed(v) && i < |Sorted(v)|
    ensures WellFormed(Sorted(v)[i].1) && Sorted(v)[i].1 < v
  {
    SortedAscends(v);
    assert Sorted(v)[i] in Sorted(v);
    var k :| 0 <= k < |v.members| && v.members[k] == Sorted(v)[i];
  }

  /** The canonical form identifies exactly the values that are equal. */
  lemma {:induction false} CanonExact(a: Value, b: Value)
    requires WellFormed(a) && WellFormed(b)
    ensures Canon(a) == Canon(b) <==> Same(a, b)
    decreases a
  {
    if a.Arr? && b.Arr? {
      forall i | 0 <= i < |a.items| && i < |b.items|
        ensures Canon(a.items[i]) == Canon(b.items[i]) <==> Same(a.items[i], b.items[i])
      {
        CanonExact(a.items[i], b.items[i]);
      }
      ArrCanon(a, b);
    } else if a.Obj? && b.Obj? {
      forall i | 0 <= i < |Sorted(a)| && i < |Sorted(b)|
        ensures Canon(Sorted(a)[i].1) == Canon(Sorted(b)[i].1) <==> Same(Sorted(a)[i].1, Sorted(b)[i].1)
      {
        SortedWellFormed(a, i);
        SortedWellFormed(b, i);
        CanonExact(Sorted(a)[i].1, Sorted(b)[i].1);
      }
      SameSorted(a, b);
      ObjCanon(a, b);
    }
  }

  lemma {:induction false} ArrCanon(a: Value, b: Value)
    requires a.Arr? && b.Arr?
    ensures Canon(a) == Canon(b) <==>
            |a.items| == |b.items| && forall i :: 0 <= i < |a.items| ==> Canon(a.items[i]) == Canon(b.items[i])
  {
    var x, y := CanonItems(a.items, a), CanonItems(b.items, b);
    assert Canon(a) == Arr(x) && Canon(b) == Arr(y);
    if x == y {
      assert forall i :: 0 <= i < |x| ==> x[i] == y[i];
    }
  }

  lemma {:induction false} ObjCanon(a: Value, b: Value)
    requires a.Obj? && b.Obj?
    ensures Canon(a) == Canon(b) <==>
            && |Sorted(a)| == |Sorted(b)|
            && (forall i :: 0 <= i < |Sorted(a)| ==> Sorted(a)[i].0 == Sorted(b)[i].0)
            && forall i :: 0 <= i < |Sorted(a)| ==> Canon(Sorted(a)[i].1) == Canon(Sorted(b)[i].1)
  {
    var x, y := CanonMembers(Sorted(a), a), CanonMembers(Sorted(b), b);
    assert Canon(a) == Obj(x) && Canon(b) == Obj(y);
    if x == y {
      assert forall i :: 0 <= i < |x| ==> x[i] == y[i];
    }
  }

  lemma {:induction false} ItemsPrintAlike(a: seq<Value>, b: seq<Value>, p: Value, q: Value)
    requires forall i :: 0 <= i < |a| ==> a[i] < p
    requires forall i :: 0 <= i < |b| ==> b[i] < q
    requires |a| == |b| && forall i :: 0 <= i < |a| ==> Print(a[i]) == Print(b[i])
    ensures PrintItems(a, p) == PrintItems(b, q)
    decreases |a|
  {
    if a != [] {
      ItemsPrintAlike(a[1..], b[1..], p, q);
    }
  }

  lemma {:induction false} MembersPrintAlike(
    a: seq<(string, Value)>, b: seq<(string, Value)>, p: Value, q: Value)
    requires forall i :: 0 <= i < |a| ==> a[i].1 < p
    requires forall i :: 0 <= i < |b| ==> b[i].1 < q
    requires |a| == |b| && forall i :: 0 <= i < |a| ==> a[i].0 == b[i].0 && Print(a[i].1) == Print(b[i].1)
    ensures PrintMembers(a, p) == PrintMembers(b, q)
    decreases |a|
  {
    if a != [] {
      MembersPrintAlike(a[1..], b[1..], p, q);
    }
  }

  /** Equal values print alike, whatever the order of their keys. */
  lemma {:induction false} SamePrintsAlike(a: Value, b: Value)
    requires WellFormed(a) && WellFormed(b) && Same(a, b)
    ensures Print(a) == Print(b)
    decreases a, 1
  {
    if a.Arr? && b.Arr? {
      SameArraysPrintAlike(a, b);
    } else if a.Obj? && b.Obj? {
      SameObjectsPrintAlike(a, b);
    }
  }

  lemma {:induction false} SameArraysPrintAlike(a: Value, b: Value)
    requires WellFormed(a) && WellFormed(b) && Same(a, b) && a.Arr? && b.Arr?
    ensures Print(a) == Print(b)
    decreases a, 0
  {
    forall i | 0 <= i < |a.items|
      ensures Print(a.items[i]) == Print(b.items[i])
    {
      SamePrintsAlike(a.items[i], b.items[i]);
    }
    ItemsPrintAlike(a.items, b.items, a, b);
  }

  lemma {:induction false} SameObjectsPrintAlike(a: Value, b: Value)
    requires WellFormed(a) && WellFormed(b) && Same(a, b) && a.Obj? && b.Obj?
    ensures Print(a) == Print(b)
    decreases a, 0
  {
    SameSorted(a, b);
    forall i | 0 <= i < |Sorted(a)|
      ensures Print(Sorted(a)[i].1) == Print(Sorted(b)[i].1)
    {
      SortedWellFormed(a, i);
      SortedWellFormed(b, i);
      SamePrintsAlike(Sorted(a)[i].1, Sorted(b)[i].1);
    }
    MembersPrintAlike(Sorted(a), Sorted(b), a, b);
  }

  /** Rendering is injective up to key order, and independent of it. */
  lemma PrintExact(a: Value, b: Value)
    requires WellFormed(a) && WellFormed(b)
    ensures Print(a) == Print(b) <==> Same(a, b)
  {
    PrintReadsBack(a);
    PrintReadsBack(b);
    CanonExact(a, b);
    if Same(a, b) {
      SamePrintsAlike(a, b);
    }
  }
}
