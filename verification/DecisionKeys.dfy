/** The private ordered keys under which questions and choices travel to the native backend. */
module DecisionKeys {
  import opened Digits
  import CheckedU64
  import Lex

  /** `format!("{index:08}")`: at least eight digits. */
  function Pad8(n: nat): string {
    Zeros(8 - |Render(n)|) + Render(n)
  }

  function Zeros(n: int): (s: string)
    ensures AllDigits(s) && |s| == if n < 0 then 0 else n
  {
    if n <= 0 then "" else ['0'] + Zeros(n - 1)
  }

  function Key(index: nat): string {
    ['q'] + Pad8(index)
  }

  function ChoiceKey(index: nat): string {
    ['c'] + Pad8(index)
  }

  lemma {:induction false} ZerosValue(n: int, s: string)
    requires AllDigits(s)
    ensures AllDigits(Zeros(n) + s) && ToNat(Zeros(n) + s) == ToNat(s)
    decreases if n < 0 then 0 else n
  {
    if n > 0 {
      ZerosValue(n - 1, s);
      var rest := Zeros(n - 1) + s;
      assert Zeros(n) + s == ['0'] + rest;
      ToNatConcat(['0'], rest);
      assert ['0'][..0] == "";
    } else {
      assert Zeros(n) + s == s;
    }
  }

  lemma Pad8Value(n: nat)
    ensures AllDigits(Pad8(n)) && ToNat(Pad8(n)) == n
  {
    ZerosValue(8 - |Render(n)|, Render(n));
    RenderToNat(n);
  }

  /** Keys are injective for every index, and a question key is never a choice key. */
  lemma KeysInjective(i: nat, j: nat)
    ensures Key(i) == Key(j) <==> i == j
    ensures ChoiceKey(i) == ChoiceKey(j) <==> i == j
    ensures Key(i) != ChoiceKey(j)
  {
    Pad8Value(i);
    Pad8Value(j);
    assert Key(i)[1..] == Pad8(i) && Key(j)[1..] == Pad8(j);
    assert ChoiceKey(i)[1..] == Pad8(i) && ChoiceKey(j)[1..] == Pad8(j);
    assert Key(i)[0] == 'q' && ChoiceKey(j)[0] == 'c';
  }

  lemma {:induction false} ToNatBound(s: string)
    requires AllDigits(s)
    ensures ToNat(s) < Pow10(|s|)
  {
    if s != "" {
      ToNatBound(s[..|s| - 1]);
    }
  }

  /** Digit strings of one length are ordered like the numbers they denote. */
  lemma {:induction false} LessIsValue(a: string, b: string)
    requires AllDigits(a) && AllDigits(b) && |a| == |b|
    ensures Lex.Less(a, b) <==> ToNat(a) < ToNat(b)
    decreases |a|
  {
    if a != "" {
      var x, y := a[1..], b[1..];
      LessIsValue(x, y);
      FirstDigit(a);
      FirstDigit(b);
      ToNatBound(x);
      ToNatBound(y);
      FirstDigitDecides(DigitValue(a[0]), DigitValue(b[0]), Pow10(|x|), ToNat(x), ToNat(y));
    }
  }

  lemma {:induction false} FirstDigit(s: string)
    requires AllDigits(s) && s != ""
    ensures ToNat(s) == DigitValue(s[0]) * Pow10(|s| - 1) + ToNat(s[1..])
  {
    assert s == [s[0]] + s[1..];
    ToNatConcat([s[0]], s[1..]);
    assert [s[0]][..0] == "";
    assert ToNat([s[0]]) == DigitValue(s[0]);
  }

  lemma LargerDigit(d: nat, e: nat, unit: nat)
    requires d < e
    ensures d * unit + unit <= e * unit
  {
    CheckedU64.MulMonotone(unit, d + 1, e);
    assert unit * (d + 1) == d * unit + unit;
  }

  lemma FirstDigitDecides(d: nat, e: nat, unit: nat, m: nat, n: nat)
    requires m < unit && n < unit
    ensures d * unit + m < e * unit + n <==> d < e || (d == e && m < n)
  {
    if d < e {
      LargerDigit(d, e, unit);
    } else if e < d {
      LargerDigit(e, d, unit);
    }
  }

  lemma {:induction false} RenderLength(n: nat, width: nat)
    requires width > 0
    ensures n < Pow10(width) ==> |Render(n)| <= width
    decreases n
  {
    if n >= 10 && n < Pow10(width) {
      assert Pow10(1) == 10;
      RenderLength(n / 10, width - 1);
    }
  }

  /** Up to eight digits, the order of the keys is the order of the indices. */
  lemma KeyOrder(i: nat, j: nat)
    requires i < 100_000_000 && j < 100_000_000
    ensures Lex.Less(Key(i), Key(j)) <==> i < j
    ensures Lex.Less(ChoiceKey(i), ChoiceKey(j)) <==> i < j
  {
    Pow10Eight();
    RenderLength(i, 8);
    RenderLength(j, 8);
    Pad8Value(i);
    Pad8Value(j);
    LessIsValue(Pad8(i), Pad8(j));
    assert Key(i)[1..] == Pad8(i) && Key(j)[1..] == Pad8(j);
    assert ChoiceKey(i)[1..] == Pad8(i) && ChoiceKey(j)[1..] == Pad8(j);
  }

  lemma Pow10Eight()
    ensures Pow10(8) == 100_000_000
  {
    assert Pow10(4) == 10 * (10 * (10 * (10 * Pow10(0))));
    assert Pow10(8) == 10 * (10 * (10 * (10 * Pow10(4))));
  }

  lemma KeyOrderBreaks()
    ensures Lex.Less(Key(100_000_000), Key(99_999_999)) && Lex.Less(ChoiceKey(100_000_000), ChoiceKey(99_999_999))
  {
    Pow10Eight();
    RenderLength(99_999_999, 8);
    assert Key(100_000_000)[1..] == Pad8(100_000_000) && Key(99_999_999)[1..] == Pad8(99_999_999);
    assert ChoiceKey(100_000_000)[1..] == Pad8(100_000_000) && ChoiceKey(99_999_999)[1..] == Pad8(99_999_999);
  }

  /** The first `n` keys of one kind are ordered like their indices. */
  ghost predicate OrderedUpTo(key: nat -> string, n: nat) {
    forall i: nat, j: nat :: i < n && j < n ==> (Lex.Less(key(i), key(j)) <==> i < j)
  }

  /** The first `n` keys are ordered like their indices exactly up to eight digits: the ninth breaks the order. */
  lemma KeyOrderExact(n: nat)
    ensures OrderedUpTo(Key, n) <==> n <= 100_000_000
    ensures OrderedUpTo(ChoiceKey, n) <==> n <= 100_000_000
  {
    if n <= 100_000_000 {
      forall i: nat, j: nat | i < n && j < n
        ensures (Lex.Less(Key(i), Key(j)) <==> i < j) && (Lex.Less(ChoiceKey(i), ChoiceKey(j)) <==> i < j)
      {
        KeyOrder(i, j);
      }
    } else {
      KeyOrderBreaks();
    }
  }
}
