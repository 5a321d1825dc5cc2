/** The exact decimal value of a JSON number lexeme, in a normal form: sign, digits without leading or
    trailing zeros, and a power of ten. */
module Numbers {
  import opened Wrappers
  import opened Digits

  const I64_MIN: int := -0x8000_0000_0000_0000
  const I64_MAX: int := 0x7FFF_FFFF_FFFF_FFFF

  predicate InI64(n: int) {
    I64_MIN <= n <= I64_MAX
  }

  function Checked(n: int): Option<int> {
    if InI64(n) then Some(n) else None
  }

  type Normal = (bool, string, int)

  // ----- String operations of the source

  function StripMinus(s: string): (bool, string) {
    if s != "" && s[0] == '-' then (true, s[1..]) else (false, s)
  }

  /** Splits at the first character of a set, if there is one. */
  function SplitOnce(s: string, at: set<char>): (string, Option<string>) {
    if s == "" then ("", None)
    else if s[0] in at then ("", Some(s[1..]))
    else
      var (before, after) := SplitOnce(s[1..], at);
      ([s[0]] + before, after)
  }

  /** `str::parse::<i64>`: an optional sign and at least one digit, in range. */
  function ParseI64(s: string): Option<int> {
    var digits := if s != "" && (s[0] == '+' || s[0] == '-') then s[1..] else s;
    if digits == "" || !AllDigits(digits) then None
    else Checked(if s[0] == '-' then -(ToNat(digits) as int) else ToNat(digits))
  }

  function WithoutDots(s: string): string {
    if s == "" then "" else (if s[0] == '.' then "" else [s[0]]) + WithoutDots(s[1..])
  }

  function TrimZeros(s: string): string {
    if s != "" && s[0] == '0' then TrimZeros(s[1..]) else s
  }

  /** Pops trailing zeros, each adding one to the exponent. */
  function PopZeros(digits: string, exponent: int): Option<(string, int)>
    decreases digits
  {
    if digits == "" || digits[|digits| - 1] != '0' then Some((digits, exponent))
    else
      var next :- Checked(exponent + 1);
      PopZeros(digits[..|digits| - 1], next)
  }

  function Parts(s: string): (bool, string, Option<int>, nat) {
    var (negative, rest) := StripMinus(s);
    var (base, e) := SplitOnce(rest, {'e', 'E'});
    var exponent := if e.None? then Some(0) else ParseI64(e.value);
    var fraction := SplitOnce(base, {'.'}).1;
    (negative, base, exponent, if fraction.None? then 0 else |fraction.value|)
  }

  function FromParts(negative: bool, digits: string, parsed: Option<int>, fraction: nat): Option<Normal> {
    var exponent :- parsed;
    var shifted :- Checked(exponent - fraction);
    if digits == "" then Some((false, "0", 0))
    else
      var (d, x) :- PopZeros(digits, shifted);
      Some((negative, d, x))
  }

  function DecimalOf(s: string): Option<Normal> {
    var (negative, base, parsed, fraction) := Parts(s);
    FromParts(negative, TrimZeros(WithoutDots(base)), parsed, fraction)
  }

  method Decimal(s: string) returns (r: Option<Normal>)
    ensures r == DecimalOf(s)
  {
    var (negative, base, parsed, fraction) := Parts(s);
    var digits := TrimZeros(WithoutDots(base));
    if parsed.None? {
      return None;
    }
    var shifted := Checked(parsed.value - fraction);
    if shifted.None? {
      return None;
    }
    var exponent := shifted.value;
    if digits == "" {
      return Some((false, "0", 0));
    }
    while digits != "" && digits[|digits| - 1] == '0'
      invariant PopZeros(digits, exponent) == PopZeros(TrimZeros(WithoutDots(base)), shifted.value)
      decreases digits
    {
      digits := digits[..|digits| - 1];
      var next := Checked(exponent + 1);
      if next.None? {
        return None;
      }
      exponent := next.value;
    }
    return Some((negative, digits, exponent));
  }

  // ----- JSON number lexemes (section 6 of RFC 8259) and what they denote

  datatype Sign = NoSign | Plus | Minus

  datatype Exponent = Exponent(upper: bool, sign: Sign, digits: string)

  datatype Lexeme = Lexeme(negative: bool, integer: string, fraction: Option<string>, exponent: Option<Exponent>)

  predicate WellFormed(l: Lexeme) {
    && l.integer != "" && AllDigits(l.integer) && (l.integer == "0" || l.integer[0] != '0')
    && (l.fraction.Some? ==> l.fraction.value != "" && AllDigits(l.fraction.value))
    && (l.exponent.Some? ==> l.exponent.value.digits != "" && AllDigits(l.exponent.value.digits))
  }

  function SignText(s: Sign): string {
    match s
    case NoSign => ""
    case Plus => "+"
    case Minus => "-"
  }

  function BaseText(l: Lexeme): string {
    if l.fraction.Some? then l.integer + ['.'] + l.fraction.value else l.integer
  }

  function ExponentText(e: Exponent): string {
    SignText(e.sign) + e.digits
  }

  function Unsigned(l: Lexeme): string {
    if l.exponent.Some?
    then BaseText(l) + [if l.exponent.value.upper then 'E' else 'e'] + ExponentText(l.exponent.value)
    else BaseText(l)
  }

  function LexemeText(l: Lexeme): string {
    if l.negative then ['-'] + Unsigned(l) else Unsigned(l)
  }

  function FractionDigits(l: Lexeme): string {
    if l.fraction.Some? then l.fraction.value else ""
  }

  function ExponentValue(l: Lexeme): int
    requires WellFormed(l)
  {
    if l.exponent.None? then 0
    else if l.exponent.value.sign == Minus then -(ToNat(l.exponent.value.digits) as int)
    else ToNat(l.exponent.value.digits)
  }

  /** A lexeme denotes `Mantissa * 10^Scale`. */
  function Mantissa(l: Lexeme): int
    requires WellFormed(l)
  {
    var m: int := ToNat(l.integer + FractionDigits(l));
    if l.negative then -m else m
  }

  function Scale(l: Lexeme): int
    requires WellFormed(l)
  {
    ExponentValue(l) - |FractionDigits(l)|
  }

  /** Equality of the denoted rationals, cleared of negative powers. */
  ghost predicate SameNumber(a: Lexeme, b: Lexeme)
    requires WellFormed(a) && WellFormed(b)
  {
    var low := if Scale(a) <= Scale(b) then Scale(a) else Scale(b);
    Mantissa(a) * Pow10(Scale(a) - low) == Mantissa(b) * Pow10(Scale(b) - low)
  }

  // ----- The source's string operations recover a lexeme's parts

  lemma {:induction false} SplitNone(s: string, at: set<char>)
    requires forall c :: c in s ==> c !in at
    ensures SplitOnce(s, at) == (s, None)
  {
    if s != "" {
      SplitNone(s[1..], at);
      assert s == [s[0]] + s[1..];
    }
  }

  lemma {:induction false} SplitFound(a: string, c: char, b: string, at: set<char>)
    requires (forall x :: x in a ==> x !in at) && c in at
    ensures SplitOnce(a + [c] + b, at) == (a, Some(b))
    decreases a
  {
    var s := a + [c] + b;
    if a == "" {
      assert s[1..] == b;
    } else {
      SplitFound(a[1..], c, b, at);
      assert s[1..] == a[1..] + [c] + b;
      assert a == [a[0]] + a[1..];
    }
  }

  lemma {:induction false} WithoutDotsDigits(s: string)
    requires AllDigits(s)
    ensures WithoutDots(s) == s
  {
    if s != "" {
      WithoutDotsDigits(s[1..]);
      assert s == [s[0]] + s[1..];
    }
  }

  lemma {:induction false} WithoutDotsConcat(a: string, b: string)
    ensures WithoutDots(a + b) == WithoutDots(a) + WithoutDots(b)
    decreases a
  {
    if a == "" {
      assert a + b == b;
    } else {
      assert (a + b)[1..] == a[1..] + b;
      WithoutDotsConcat(a[1..], b);
    }
  }

  lemma ParseExponent(e: Exponent)
    requires e.digits != "" && AllDigits(e.digits)
    ensures ParseI64(ExponentText(e)) ==
            Checked(if e.sign == Minus then -(ToNat(e.digits) as int) else ToNat(e.digits))
  {
    var text := ExponentText(e);
    assert IsDigit(e.digits[0]);
    if e.sign != NoSign {
      assert text[1..] == e.digits;
    } else {
      assert text == e.digits;
    }
  }

  lemma OneDot()
    ensures WithoutDots(['.']) == ""
  {
    assert WithoutDots(['.']) == "" + WithoutDots("");
  }

  lemma DotRemoved(integer: string, fraction: string)
    requires AllDigits(integer) && AllDigits(fraction)
    ensures WithoutDots(integer + ['.'] + fraction) == integer + fraction
  {
    WithoutDotsDigits(integer);
    WithoutDotsDigits(fraction);
    WithoutDotsConcat(integer + ['.'], fraction);
    WithoutDotsConcat(integer, ['.']);
    OneDot();
    assert integer + "" == integer;
  }

  lemma FractionBase(integer: string, fraction: string)
    requires AllDigits(integer) && AllDigits(fraction)
    ensures WithoutDots(integer + ['.'] + fraction) == integer + fraction
    ensures SplitOnce(integer + ['.'] + fraction, {'.'}).1 == Some(fraction)
  {
    DotRemoved(integer, fraction);
    SplitFound(integer, '.', fraction, {'.'});
  }

  lemma BaseDigits(l: Lexeme)
    requires WellFormed(l)
    ensures forall c :: c in BaseText(l) ==> IsDigit(c) || c == '.'
    ensures WithoutDots(BaseText(l)) == l.integer + FractionDigits(l)
    ensures SplitOnce(BaseText(l), {'.'}).1 == l.fraction
  {
    if l.fraction.Some? {
      FractionBase(l.integer, l.fraction.value);
    } else {
      WithoutDotsDigits(l.integer);
      assert BaseText(l) == l.integer && l.integer + FractionDigits(l) == l.integer;
      SplitNone(l.integer, {'.'});
    }
  }

  lemma SignSplits(l: Lexeme)
    requires WellFormed(l)
    ensures StripMinus(LexemeText(l)) == (l.negative, Unsigned(l))
  {
    assert Unsigned(l)[0] == l.integer[0] && IsDigit(l.integer[0]);
    if l.negative {
      assert LexemeText(l)[1..] == Unsigned(l);
    }
  }

  lemma ExponentSplits(l: Lexeme)
    requires WellFormed(l)
    ensures SplitOnce(Unsigned(l), {'e', 'E'}) ==
            (BaseText(l), if l.exponent.Some? then Some(ExponentText(l.exponent.value)) else None)
  {
    BaseDigits(l);
    if l.exponent.Some? {
      var c := if l.exponent.value.upper then 'E' else 'e';
      SplitFound(BaseText(l), c, ExponentText(l.exponent.value), {'e', 'E'});
    } else {
      SplitNone(BaseText(l), {'e', 'E'});
    }
  }

  lemma PartsOfLexeme(l: Lexeme)
    requires WellFormed(l)
    ensures Parts(LexemeText(l)) == (l.negative, BaseText(l), Checked(ExponentValue(l)), |FractionDigits(l)|)
  {
    SignSplits(l);
    ExponentSplits(l);
    BaseDigits(l);
    if l.exponent.Some? {
      ParseExponent(l.exponent.value);
    }
  }

  // ----- Trimming zeros preserves the value

  lemma {:induction false} TrimZerosValue(s: string)
    requires AllDigits(s)
    ensures AllDigits(TrimZeros(s)) && ToNat(TrimZeros(s)) == ToNat(s)
    ensures TrimZeros(s) != "" ==> TrimZeros(s)[0] != '0'
    ensures TrimZeros(s) == "" <==> ToNat(s) == 0
  {
    if s != "" && s[0] == '0' {
      TrimZerosValue(s[1..]);
      ToNatConcat("0", s[1..]);
      assert "0"[..0] == "";
      assert s == "0" + s[1..];
    } else if s != "" {
      NoLeadingZeroPositive(s);
    }
  }

  /** Trailing zeros of a digit string that does not denote zero. */
  function Zeros(s: string): nat {
    if s == "" || s[|s| - 1] != '0' then 0 else 1 + Zeros(s[..|s| - 1])
  }

  lemma LastDigit(s: string)
    requires AllDigits(s) && s != ""
    ensures AllDigits(s[..|s| - 1]) && ToNat(s) == 10 * ToNat(s[..|s| - 1]) + DigitValue(s[|s| - 1])
  {
  }

  lemma TenMore(d: nat, p: nat, q: nat, m: nat)
    requires q == 10 * p && d * p == m
    ensures d * q == 10 * m
  {
    assert d * (10 * p) == 10 * (d * p);
  }

  lemma LastDigitRemains(m: nat, n: nat, d: nat)
    requires n == 10 * m + d && 0 < d < 10
    ensures n % 10 != 0 && n * 1 == n
  {
  }

  lemma NoTrailingZero(s: string)
    requires AllDigits(s) && s != "" && s[|s| - 1] != '0'
    ensures Zeros(s) == 0 && s[..|s| - Zeros(s)] == s && ToNat(s) % 10 != 0 && ToNat(s) * Pow10(0) == ToNat(s)
  {
    LastDigit(s);
    LastDigitRemains(ToNat(s[..|s| - 1]), ToNat(s), DigitValue(s[|s| - 1]));
    assert s[..|s|] == s;
  }

  lemma {:induction false} ZerosValue(s: string)
    requires AllDigits(s) && s != "" && s[0] != '0'
    ensures Zeros(s) < |s|
    ensures var d := s[..|s| - Zeros(s)];
            ToNat(d) * Pow10(Zeros(s)) == ToNat(s) && ToNat(d) % 10 != 0 && d[0] != '0'
  {
    if s[|s| - 1] == '0' {
      var front := s[..|s| - 1];
      LastDigit(s);
      ZerosValue(front);
      var d := front[..|front| - Zeros(front)];
      assert d == s[..|s| - Zeros(s)];
      TenMore(ToNat(d), Pow10(Zeros(front)), Pow10(Zeros(s)), ToNat(front));
    } else {
      NoTrailingZero(s);
    }
  }

  lemma {:induction false} PopZerosExact(s: string, exponent: int)
    requires InI64(exponent)
    ensures Zeros(s) <= |s|
    ensures PopZeros(s, exponent) ==
            if exponent + Zeros(s) <= I64_MAX then Some((s[..|s| - Zeros(s)], exponent + Zeros(s))) else None
    decreases s
  {
    if s != "" && s[|s| - 1] == '0' {
      var front := s[..|s| - 1];
      if InI64(exponent + 1) {
        PopZerosExact(front, exponent + 1);
        assert front[..|front| - Zeros(front)] == s[..|s| - Zeros(s)];
      } else {
        ZerosBound(front);
      }
    } else {
      assert s[..|s|] == s;
    }
  }

  lemma {:induction false} ZerosBound(s: string)
    ensures Zeros(s) <= |s|
  {
    if s != "" && s[|s| - 1] == '0' {
      ZerosBound(s[..|s| - 1]);
    }
  }

  // ----- The normal form

  function Significant(l: Lexeme): string {
    TrimZeros(l.integer + FractionDigits(l))
  }

  /** When `decimal` is defined: the written exponent, the exponent less the fraction's length, and, for
      numbers other than zero, the normal exponent each fit i64. */
  ghost predicate Representable(l: Lexeme)
    requires WellFormed(l)
  {
    && InI64(ExponentValue(l)) && InI64(Scale(l))
    && (Mantissa(l) != 0 ==> InI64(Scale(l) + Zeros(Significant(l))))
  }

  lemma DecimalOfLexeme(l: Lexeme)
    requires WellFormed(l)
    ensures DecimalOf(LexemeText(l)) ==
            FromParts(l.negative, Significant(l), Checked(ExponentValue(l)), |FractionDigits(l)|)
  {
    PartsOfLexeme(l);
    BaseDigits(l);
  }

  function NormalForm(l: Lexeme): Normal
    requires WellFormed(l)
  {
    if Mantissa(l) == 0 then (false, "0", 0)
    else (l.negative, NormalDigits(l), Scale(l) + Zeros(Significant(l)))
  }

  lemma {:induction false} FromPartsExact(negative: bool, digits: string, exponent: int, fraction: nat)
    ensures Zeros(digits) <= |digits|
    ensures var x := exponent - fraction + Zeros(digits);
            FromParts(negative, digits, Checked(exponent), fraction) ==
            if !InI64(exponent) || !InI64(exponent - fraction) then None
            else if digits == "" then Some((false, "0", 0))
            else if x <= I64_MAX then Some((negative, digits[..|digits| - Zeros(digits)], x))
            else None
  {
    ZerosBound(digits);
    if InI64(exponent - fraction) {
      PopZerosExact(digits, exponent - fraction);
    }
  }

  lemma LexemeFormExact(l: Lexeme)
    requires WellFormed(l)
    ensures FromParts(l.negative, Significant(l), Checked(ExponentValue(l)), |FractionDigits(l)|) ==
            if Representable(l) then Some(NormalForm(l)) else None
  {
    SignificantFacts(l);
    FromPartsExact(l.negative, Significant(l), ExponentValue(l), |FractionDigits(l)|);
  }

  lemma DecimalExact(l: Lexeme)
    requires WellFormed(l)
    ensures DecimalOf(LexemeText(l)) == if Representable(l) then Some(NormalForm(l)) else None
  {
    DecimalOfLexeme(l);
    LexemeFormExact(l);
  }

  /** The digits of the normal form. */
  function NormalDigits(l: Lexeme): string {
    ZerosBound(Significant(l));
    Significant(l)[..|Significant(l)| - Zeros(Significant(l))]
  }

  lemma {:induction false} Pow10Adds(a: nat, b: nat)
    ensures Pow10(a + b) == Pow10(a) * Pow10(b)
    decreases a
  {
    if a > 0 {
      Pow10Adds(a - 1, b);
      assert 10 * (Pow10(a - 1) * Pow10(b)) == Pow10(a) * Pow10(b);
    }
  }

  lemma TimesOne(c: int)
    ensures c * Pow10(0) == c
  {
  }

  lemma NotTenfold(c: int, x: int)
    requires c % 10 != 0
    ensures c != 10 * x
  {
  }

  /** Numbers not divisible by ten scaled by powers of ten agree only if both parts do. */
  lemma {:induction false} ScaledUnique(c: int, d: int, a: nat, b: nat)
    requires c % 10 != 0 && d % 10 != 0
    requires c * Pow10(a) == d * Pow10(b)
    ensures a == b && c == d
    decreases a
  {
    TimesOne(c);
    TimesOne(d);
    var x := if a > 0 then c * Pow10(a - 1) else 0;
    var y := if b > 0 then d * Pow10(b - 1) else 0;
    NotTenfold(c, y);
    NotTenfold(d, x);
    if a > 0 {
      TenTimes(c, Pow10(a - 1));
    }
    if b > 0 {
      TenTimes(d, Pow10(b - 1));
    }
    if a > 0 && b > 0 {
      ScaledUnique(c, d, a - 1, b - 1);
    }
  }

  lemma ScaleFurther(m: int, c: int, z: nat, more: nat)
    requires m == c * Pow10(z)
    ensures m * Pow10(more) == c * Pow10(z + more)
  {
    Pow10Adds(z, more);
    assert c * Pow10(z) * Pow10(more) == c * (Pow10(z) * Pow10(more));
  }

  /** The signed significand of the normal form. */
  function Core(l: Lexeme): int
    requires WellFormed(l)
  {
    SignificantFacts(l);
    var d: int := ToNat(NormalDigits(l));
    if l.negative then -d else d
  }

  lemma SignificantFacts(l: Lexeme)
    requires WellFormed(l)
    ensures AllDigits(Significant(l)) && Zeros(Significant(l)) <= |Significant(l)|
    ensures Mantissa(l) != 0 <==> Significant(l) != ""
    ensures Significant(l) != "" ==> Significant(l)[0] != '0'
    ensures ToNat(Significant(l)) == if l.negative then -Mantissa(l) else Mantissa(l)
  {
    TrimZerosValue(l.integer + FractionDigits(l));
    ZerosBound(Significant(l));
  }

  lemma SignedProduct(negative: bool, d: int, p: int, core: int, m: int, mantissa: int)
    requires d >= 0 && d * p == m && d % 10 != 0
    requires if negative then core == -d && mantissa == -m else core == d && mantissa == m
    ensures core % 10 != 0 && mantissa == core * p && (core < 0 <==> negative)
  {
    assert (-d) * p == -(d * p);
  }

  lemma CoreFacts(l: Lexeme)
    requires WellFormed(l) && Mantissa(l) != 0
    ensures Core(l) % 10 != 0 && Mantissa(l) == Core(l) * Pow10(Zeros(Significant(l)))
    ensures Core(l) < 0 <==> l.negative
  {
    SignificantFacts(l);
    var digits := Significant(l);
    ZerosValue(digits);
    SignedProduct(
      l.negative, ToNat(NormalDigits(l)), Pow10(Zeros(digits)), Core(l), ToNat(digits), Mantissa(l));
  }

  lemma SameNumberCores(a: Lexeme, b: Lexeme)
    requires WellFormed(a) && WellFormed(b) && Mantissa(a) != 0 && Mantissa(b) != 0
    ensures SameNumber(a, b) <==>
            Core(a) == Core(b) && Scale(a) + Zeros(Significant(a)) == Scale(b) + Zeros(Significant(b))
  {
    var low := if Scale(a) <= Scale(b) then Scale(a) else Scale(b);
    var (za, zb) := (Zeros(Significant(a)), Zeros(Significant(b)));
    CoreFacts(a);
    CoreFacts(b);
    ScaleFurther(Mantissa(a), Core(a), za, Scale(a) - low);
    ScaleFurther(Mantissa(b), Core(b), zb, Scale(b) - low);
    CommonScale(Core(a), Core(b), za + Scale(a) - low, zb + Scale(b) - low);
  }

  lemma CommonScale(c: int, d: int, a: nat, b: nat)
    requires c % 10 != 0 && d % 10 != 0
    ensures c * Pow10(a) == d * Pow10(b) <==> a == b && c == d
  {
    if c * Pow10(a) == d * Pow10(b) {
      ScaledUnique(c, d, a, b);
    }
  }

  lemma ZeroProduct(m: int, p: int)
    requires p >= 1
    ensures m * p == 0 <==> m == 0
  {
    assert m >= 1 ==> m * p >= p;
    assert m <= -1 ==> m * p <= -p;
  }

  lemma SameNumberZero(a: Lexeme, b: Lexeme)
    requires WellFormed(a) && WellFormed(b) && Mantissa(a) == 0
    ensures SameNumber(a, b) <==> Mantissa(b) == 0
  {
    var low := if Scale(a) <= Scale(b) then Scale(a) else Scale(b);
    ZeroProduct(Mantissa(a), Pow10(Scale(a) - low));
    ZeroProduct(Mantissa(b), Pow10(Scale(b) - low));
  }

  lemma NormalFormsAgree(a: Lexeme, b: Lexeme)
    requires WellFormed(a) && WellFormed(b)
    ensures NormalForm(a) == NormalForm(b) <==> SameNumber(a, b)
  {
    if Mantissa(a) == 0 {
      SameNumberZero(a, b);
      NonZeroFormDiffers(b);
    } else if Mantissa(b) == 0 {
      SameNumberZero(b, a);
      SameNumberSymmetric(a, b);
      NonZeroFormDiffers(a);
    } else {
      SameNumberCores(a, b);
      EqualCores(a, b);
    }
  }

  /** The normal form is complete: two lexemes it is defined on have equal forms exactly when they
      denote the same rational, whatever mix of sign of zero, fraction and exponent spells them. */
  lemma NormalFormComplete(a: Lexeme, b: Lexeme)
    requires WellFormed(a) && WellFormed(b)
    requires DecimalOf(LexemeText(a)).Some? && DecimalOf(LexemeText(b)).Some?
    ensures DecimalOf(LexemeText(a)) == DecimalOf(LexemeText(b)) <==> SameNumber(a, b)
  {
    DecimalExact(a);
    DecimalExact(b);
    NormalFormsAgree(a, b);
  }

  lemma SameNumberSymmetric(a: Lexeme, b: Lexeme)
    requires WellFormed(a) && WellFormed(b)
    ensures SameNumber(a, b) <==> SameNumber(b, a)
  {
  }

  lemma NonZeroFormDiffers(l: Lexeme)
    requires WellFormed(l)
    ensures Mantissa(l) != 0 ==> NormalDigits(l) != "0"
  {
    SignificantFacts(l);
    if Mantissa(l) != 0 {
      ZerosValue(Significant(l));
    }
  }

  lemma EqualCores(a: Lexeme, b: Lexeme)
    requires WellFormed(a) && WellFormed(b) && Mantissa(a) != 0 && Mantissa(b) != 0
    ensures Core(a) == Core(b) <==> a.negative == b.negative && NormalDigits(a) == NormalDigits(b)
  {
    CoreFacts(a);
    CoreFacts(b);
    SignificantFacts(a);
    SignificantFacts(b);
    ZerosValue(Significant(a));
    ZerosValue(Significant(b));
    if Core(a) == Core(b) {
      CanonicalDigitsUnique(NormalDigits(a), NormalDigits(b));
    }
  }
}
