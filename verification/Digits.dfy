/** Decimal digit strings and the naturals they denote. */
module Digits {
  predicate IsDigit(c: char) {
    '0' <= c <= '9'
  }

  predicate AllDigits(s: string) {
    forall i :: 0 <= i < |s| ==> IsDigit(s[i])
  }

  function DigitValue(c: char): (d: nat)
    requires IsDigit(c)
    ensures d < 10
  {
    c as int - '0' as int
  }

  function DigitChar(d: nat): (c: char)
    requires d < 10
    ensures IsDigit(c) && DigitValue(c) == d
  {
    ('0' as int + d) as char
  }

  /** The natural a digit string denotes; the empty string denotes zero. */
  function ToNat(s: string): nat
    requires AllDigits(s)
  {
    if s == "" then 0 else 10 * ToNat(s[..|s| - 1]) + DigitValue(s[|s| - 1])
  }

  /** The usual rendering: no leading zero except for zero itself. */
  function Render(n: nat): (s: string)
    ensures s != "" && AllDigits(s)
  {
    if n < 10 then [DigitChar(n)] else Render(n / 10) + [DigitChar(n % 10)]
  }

  ghost function Pow10(n: nat): (p: nat)
    ensures p >= 1
  {
    if n == 0 then 1 else 10 * Pow10(n - 1)
  }

  lemma {:induction false} RenderToNat(n: nat)
    ensures ToNat(Render(n)) == n
  {
    if n < 10 {
      assert Render(n)[..0] == "";
    } else {
      RenderToNat(n / 10);
      assert Render(n)[..|Render(n)| - 1] == Render(n / 10);
    }
  }

  lemma RenderInjective(m: nat, n: nat)
    requires Render(m) == Render(n)
    ensures m == n
  {
    RenderToNat(m);
    RenderToNat(n);
  }

  lemma {:induction false} RenderNoLeadingZero(n: nat)
    ensures n > 0 ==> Render(n)[0] != '0'
  {
    if n >= 10 {
      RenderNoLeadingZero(n / 10);
    }
  }

  lemma TenTimes(m: int, p: int)
    ensures 10 * (m * p) == m * (10 * p)
  {
  }

  lemma AppendedDigit(m: nat, p: nat, front: nat, last: nat)
    ensures 10 * (m * p + front) + last == m * (10 * p) + (10 * front + last)
  {
    TenTimes(m, p);
  }

  lemma {:induction false} ToNatConcat(a: string, b: string)
    requires AllDigits(a) && AllDigits(b)
    ensures AllDigits(a + b) && ToNat(a + b) == ToNat(a) * Pow10(|b|) + ToNat(b)
    decreases b
  {
    if b == "" {
      assert a + b == a;
    } else {
      var front := b[..|b| - 1];
      ToNatConcat(a, front);
      assert (a + b)[..|a + b| - 1] == a + front;
      AppendedDigit(ToNat(a), Pow10(|front|), ToNat(front), DigitValue(b[|b| - 1]));
    }
  }

  lemma {:induction false} NoLeadingZeroPositive(s: string)
    requires AllDigits(s) && s != "" && s[0] != '0'
    ensures ToNat(s) >= 1
  {
    if |s| > 1 {
      NoLeadingZeroPositive(s[..|s| - 1]);
    }
  }

  /** A digit string without leading zeros is determined by its value. */
  lemma {:induction false} CanonicalDigitsUnique(a: string, b: string)
    requires AllDigits(a) && AllDigits(b)
    requires (a != "" ==> a[0] != '0') && (b != "" ==> b[0] != '0')
    requires ToNat(a) == ToNat(b)
    ensures a == b
    decreases |a|
  {
    if a != "" {
      NoLeadingZeroPositive(a);
    }
    if b != "" {
      NoLeadingZeroPositive(b);
    }
    if a != "" && b != "" {
      var x, y := a[..|a| - 1], b[..|b| - 1];
      assert DigitValue(a[|a| - 1]) == DigitValue(b[|b| - 1]) && ToNat(x) == ToNat(y);
      CanonicalDigitsUnique(x, y);
      assert a == x + [a[|a| - 1]] && b == y + [b[|b| - 1]];
    }
  }
}
