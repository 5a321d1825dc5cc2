/** The checked u64 arithmetic every container check is written with. */
module CheckedU64 {
  import opened Wrappers

  const MAX_U64: int := 0xFFFF_FFFF_FFFF_FFFF

  type u64 = x: int | 0 <= x <= MAX_U64

  function Add(a: u64, b: u64): Option<u64> {
    if a + b <= MAX_U64 then Some(a + b) else None
  }

  function Mul(a: u64, b: u64): Option<u64> {
    if a * b <= MAX_U64 then
      MulNonNegative(a, b);
      Some(a * b)
    else
      None
  }

  function Align(n: u64, a: u64): Option<u64>
    requires a > 0
  {
    var s :- Add(n, a - 1);
    RoundDownBounds(s, a);
    Some(s / a * a)
  }

  /** The unbounded meaning of `Align`: the least multiple of `a` that is at least `n`. */
  ghost function RoundUp(n: nat, a: nat): (r: nat)
    requires a > 0
    ensures r % a == 0 && n <= r < n + a
  {
    RoundDownBounds(n + a - 1, a);
    MultipleHasNoRemainder((n + a - 1) / a, a);
    (n + a - 1) / a * a
  }

  lemma RoundUpIsLeast(n: nat, a: nat, m: nat)
    requires a > 0 && n <= m && m % a == 0
    ensures RoundUp(n, a) <= m
  {
    MultiplesAreApart(RoundUp(n, a), m, a);
  }

  /** `Align` fails exactly when the next multiple is outside u64, provided the alignment divides
      2^64; every alignment the containers use (128, 256, 4096) does. */
  lemma AlignExact(n: u64, a: u64)
    requires a > 0 && (MAX_U64 + 1) % a == 0
    ensures Align(n, a) == if RoundUp(n, a) <= MAX_U64 then Some(RoundUp(n, a)) else None
  {
    if n + (a - 1) > MAX_U64 {
      MultiplesAreApart(MAX_U64 + 1, RoundUp(n, a), a);
    } else {
      RoundDownBounds(n + a - 1, a);
    }
  }

  lemma MulNonNegative(a: nat, b: nat)
    ensures 0 <= a * b
  {
  }

  lemma RoundDownBounds(n: nat, a: nat)
    requires a > 0
    ensures 0 <= n / a * a <= n < n / a * a + a
  {
    assert n == n / a * a + n % a;
  }

  lemma MultipleHasNoRemainder(q: nat, a: nat)
    requires a > 0
    ensures 0 <= q * a && (q * a) % a == 0 && q * a / a == q
  {
    assert q * a == q * a / a * a + (q * a) % a;
    var d := q - q * a / a;
    assert d * a == (q * a) % a;
    assert d >= 1 ==> d * a >= a;
    assert d <= -1 ==> d * a <= -1 * a;
  }

  /** Two multiples of `a` less than `a` apart are equal, so the smaller bound wins. */
  lemma MultiplesAreApart(x: nat, y: nat, a: nat)
    requires a > 0 && x % a == 0 && y % a == 0
    requires x < y + a
    ensures x <= y
  {
    assert x == x / a * a && y == y / a * a;
    var d := x / a - y / a;
    assert d * a == x - y;
    assert d >= 1 ==> d * a >= a;
    assert d <= 0 ==> d * a <= 0;
  }

  lemma MulMonotone(a: nat, b: nat, c: nat)
    requires b <= c
    ensures a * b <= a * c
  {
    assert a * c == a * b + a * (c - b);
  }
}
