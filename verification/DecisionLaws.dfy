/** Positions survive the keyed detour, distributions are accepted for exactly the requested keys, and an
    accepted score lies in the range of the levels. */
module DecisionLaws {
  import opened Wrappers
  import opened Digits
  import opened DecisionKeys
  import opened Decisions

  // ----- Accepted distributions

  /** The keys of an ordered map occur once. */
  predicate DistinctEntries<T>(d: seq<(string, T)>) {
    forall i, j :: 0 <= i < j < |d| ==> d[i].0 != d[j].0
  }

  function KeySet<T>(d: seq<(string, T)>): set<string> {
    set i | 0 <= i < |d| :: d[i].0
  }

  lemma {:induction false} LookupExact<T>(d: seq<(string, T)>, key: string)
    ensures Lookup(d, key).Some? <==> key in KeySet(d)
    ensures DistinctEntries(d) ==> forall i :: 0 <= i < |d| && d[i].0 == key ==> Lookup(d, key) == Some(d[i].1)
    decreases |d|
  {
    if d != [] {
      LookupExact(d[1..], key);
      assert forall i :: 0 < i < |d| ==> d[i] == d[1..][i - 1];
      assert forall i :: 0 <= i < |d[1..]| ==> d[1..][i] == d[i + 1];
    }
  }

  lemma {:induction false} DistinctCount(s: seq<string>)
    requires forall i, j :: 0 <= i < j < |s| ==> s[i] != s[j]
    ensures |set x | x in s| == |s|
  {
    if s != [] {
      var rest := s[1..];
      DistinctCount(rest);
      assert (set x | x in s) == {s[0]} + set x | x in rest;
    }
  }

  lemma KeySetCount<T>(d: seq<(string, T)>)
    requires DistinctEntries(d)
    ensures |KeySet(d)| == |d|
  {
    var keys := seq(|d|, i requires 0 <= i < |d| => d[i].0);
    DistinctCount(keys);
    forall k
      ensures k in KeySet(d) <==> k in keys
    {
      if k in KeySet(d) {
        var i :| 0 <= i < |d| && d[i].0 == k;
        assert keys[i] == k;
      }
    }
    assert KeySet(d) == set x | x in keys;
  }

  lemma {:induction false} ProbabilitiesExact(d: Distribution)
    requires Probabilities(d).Some?
    ensures |Probabilities(d).value| == |d|
    ensures forall i :: 0 <= i < |d| ==>
              && Probabilities(d).value[i].0 == d[i].0
              && d[i].1 == Finite(Probabilities(d).value[i].1)
              && 0.0 <= Probabilities(d).value[i].1 <= 1.0
    decreases |d|
  {
    if d != [] {
      ProbabilitiesExact(d[1..]);
    }
  }

  ghost predicate Distinct(keys: seq<string>) {
    forall i, j :: 0 <= i < j < |keys| ==> keys[i] != keys[j]
  }

  /** An accepted distribution has exactly the requested keys, each with the backend's own probability, and
      the probabilities sum to one up to the tolerance. */
  lemma AcceptedKeys(d: Distribution, keys: seq<string>)
    requires DistinctEntries(d) && Distinct(keys) && Accept(Some(d), keys).Some?
    ensures var p := Accept(Some(d), keys).value;
            && DistinctEntries(p) && KeySet(p) == KeySet(d) == (set k | k in keys)
            && (forall i :: 0 <= i < |p| ==> 0.0 <= p[i].1 <= 1.0)
            && (forall k :: k in keys ==> Lookup(d, k) == Some(Finite(At(p, k))))
            && Distance(Sum(p, PROBABILITY), 1.0) <= TOLERANCE
  {
    var p := Accept(Some(d), keys).value;
    ProbabilitiesExact(d);
    assert KeySet(p) == KeySet(d);
    forall k | k in keys
      ensures k in KeySet(d) && Lookup(d, k) == Some(Finite(At(p, k)))
    {
      var i :| 0 <= i < |keys| && keys[i] == k;
      LookupExact(d, k);
      LookupExact(p, k);
      var j :| 0 <= j < |d| && d[j].0 == k;
      assert p[j].0 == k;
    }
    KeySetCount(d);
    DistinctCount(keys);
    var requested := set k | k in keys;
    Subset(requested, KeySet(d));
  }

  lemma Subset(a: set<string>, b: set<string>)
    requires a <= b && |a| == |b|
    ensures a == b
  {
    if a != b {
      var x :| x in b && x !in a;
      assert |b - {x}| < |a|;
      Cardinality(a, b - {x});
    }
  }

  lemma {:induction false} Cardinality(a: set<string>, b: set<string>)
    requires a <= b
    ensures |a| <= |b|
    decreases a
  {
    if a != {} {
      var x :| x in a;
      Cardinality(a - {x}, b - {x});
    }
  }

  // ----- Sums do not depend on the order of the map

  lemma {:induction false} SumWithout(p: seq<(string, real)>, i: nat, term: Term)
    requires i < |p|
    ensures Sum(p, term) == term(p[i]) + Sum(p[..i] + p[i + 1..], term)
    decreases i
  {
    if i == 0 {
      assert p[..0] + p[1..] == p[1..];
    } else {
      SumWithout(p[1..], i - 1, term);
      var q := p[..i] + p[i + 1..];
      assert q[1..] == p[1..][..i - 1] + p[1..][i..];
    }
  }

  lemma RemoveFirst(a: seq<(string, real)>, b: seq<(string, real)>, i: nat)
    requires multiset(a) == multiset(b) && a != [] && i < |b| && b[i] == a[0]
    ensures multiset(a[1..]) == multiset(b[..i] + b[i + 1..])
  {
    assert a == [a[0]] + a[1..] && b == b[..i] + [b[i]] + b[i + 1..];
    assert multiset(a[1..]) == multiset(a) - multiset{a[0]};
    assert multiset(b[..i] + b[i + 1..]) == multiset(b) - multiset{b[i]};
  }

  /** A sum over entries depends only on which entries there are. */
  lemma {:induction false} SumPermutes(a: seq<(string, real)>, b: seq<(string, real)>, term: Term)
    requires multiset(a) == multiset(b)
    ensures Sum(a, term) == Sum(b, term)
    decreases |a|
  {
    assert |multiset(a)| == |a| && |multiset(b)| == |b|;
    if a != [] {
      assert a[0] in multiset(b);
      var i :| 0 <= i < |b| && b[i] == a[0];
      SumWithout(b, i, term);
      RemoveFirst(a, b, i);
      SumPermutes(a[1..], b[..i] + b[i + 1..], term);
    }
  }

  /** The entries in the order of the requested keys. */
  function InOrder(p: seq<(string, real)>, keys: seq<string>): seq<(string, real)> {
    seq(|keys|, i requires 0 <= i < |keys| => (keys[i], At(p, keys[i])))
  }

  lemma {:induction false} DistinctMultiset(s: seq<(string, real)>, x: (string, real))
    requires DistinctEntries(s)
    ensures multiset(s)[x] == if x in s then 1 else 0
  {
    if s != [] {
      assert s == [s[0]] + s[1..];
      DistinctMultiset(s[1..], x);
      assert forall i :: 0 <= i < |s[1..]| ==> s[1..][i] == s[i + 1];
    }
  }

  lemma InOrderPermutes(p: seq<(string, real)>, keys: seq<string>)
    requires DistinctEntries(p) && Distinct(keys) && KeySet(p) == set k | k in keys
    ensures multiset(p) == multiset(InOrder(p, keys))
  {
    var q := InOrder(p, keys);
    forall x
      ensures multiset(p)[x] == multiset(q)[x]
    {
      DistinctMultiset(p, x);
      DistinctMultiset(q, x);
      LookupExact(p, x.0);
      if x in p {
        var i :| 0 <= i < |p| && p[i] == x;
        assert x.0 in KeySet(p);
        var j :| 0 <= j < |keys| && keys[j] == x.0;
        assert q[j] == x;
      }
      if x in q {
        var j :| 0 <= j < |q| && q[j] == x;
        assert keys[j] in keys;
        var i :| 0 <= i < |p| && p[i].0 == keys[j];
        assert p[i] == x;
      }
    }
  }

  // ----- Scores

  lemma LevelKeysDistinct(n: nat)
    ensures Distinct(LevelKeys(n))
  {
    forall i, j | 0 <= i < j < n
      ensures LevelKeys(n)[i] != LevelKeys(n)[j]
    {
      if Render(i) == Render(j) {
        RenderInjective(i, j);
      }
    }
  }

  lemma ChoiceKeysDistinct(n: nat)
    ensures Distinct(ChoiceKeys(n))
  {
    forall i, j | 0 <= i < j < n
      ensures ChoiceKeys(n)[i] != ChoiceKeys(n)[j]
    {
      KeysInjective(i, j);
    }
  }

  /** The probability of each level, by its index. */
  function ByLevel(p: seq<(string, real)>): nat -> real {
    (i: nat) => At(p, Render(i))
  }

  function Total(f: nat -> real, n: nat): real {
    if n == 0 then 0.0 else Total(f, n - 1) + f(n - 1)
  }

  function Weighted(q: nat -> real): nat -> real {
    (i: nat) => i as real * q(i)
  }

  /** The expected value of the level indices, summed in index order. */
  function Expectation(q: nat -> real, n: nat): real {
    Total(Weighted(q), n)
  }

  function Mass(q: nat -> real, n: nat): real {
    Total(q, n)
  }

  lemma {:induction false} SumSnoc(p: seq<(string, real)>, x: (string, real), term: Term)
    ensures Sum(p + [x], term) == Sum(p, term) + term(x)
    decreases |p|
  {
    if p == [] {
      assert (p + [x])[1..] == [];
    } else {
      assert (p + [x])[1..] == p[1..] + [x];
      SumSnoc(p[1..], x, term);
    }
  }

  function LevelEntries(p: seq<(string, real)>, n: nat): (r: seq<(string, real)>)
    ensures |r| == n && forall i :: 0 <= i < n ==> r[i] == (Render(i), At(p, Render(i)))
  {
    if n == 0 then [] else LevelEntries(p, n - 1) + [(Render(n - 1), At(p, Render(n - 1)))]
  }

  /** Summing the entries of the levels is summing over the level indices. */
  lemma {:induction false} SumByLevel(p: seq<(string, real)>, n: nat, term: Term, f: nat -> real)
    requires forall i: nat :: term((Render(i), At(p, Render(i)))) == f(i)
    ensures Sum(LevelEntries(p, n), term) == Total(f, n)
  {
    if n > 0 {
      SumByLevel(p, n - 1, term, f);
      SumSnoc(LevelEntries(p, n - 1), (Render(n - 1), At(p, Render(n - 1))), term);
    }
  }

  lemma IndexOfLevel(i: nat)
    ensures IndexOf(Render(i)) == i as real
  {
    RenderToNat(i);
  }

  lemma {:induction false} WeightedEntry(p: seq<(string, real)>, k: string, i: nat, q: nat -> real)
    requires IndexOf(k) == i as real && q(i) == At(p, k)
    ensures WEIGHTED((k, At(p, k))) == Weighted(q)(i)
  {
  }

  lemma {:induction false} WeightedLevel(p: seq<(string, real)>, i: nat)
    ensures WEIGHTED((Render(i), At(p, Render(i)))) == Weighted(ByLevel(p))(i)
  {
    IndexOfLevel(i);
    WeightedEntry(p, Render(i), i, ByLevel(p));
  }

  lemma {:induction false} WeightedLevels(p: seq<(string, real)>, n: nat)
    ensures Sum(LevelEntries(p, n), WEIGHTED) == Expectation(ByLevel(p), n)
  {
    forall i: nat
      ensures WEIGHTED((Render(i), At(p, Render(i)))) == Weighted(ByLevel(p))(i)
    {
      WeightedLevel(p, i);
    }
    SumByLevel(p, n, WEIGHTED, Weighted(ByLevel(p)));
  }

  lemma {:induction false} SumsInOrder(p: seq<(string, real)>, n: nat)
    ensures Sum(InOrder(p, LevelKeys(n)), WEIGHTED) == Expectation(ByLevel(p), n)
    ensures Sum(InOrder(p, LevelKeys(n)), PROBABILITY) == Mass(ByLevel(p), n)
  {
    assert InOrder(p, LevelKeys(n)) == LevelEntries(p, n);
    WeightedLevels(p, n);
    SumByLevel(p, n, PROBABILITY, ByLevel(p));
  }

  lemma ProductBound(i: real, m: real, x: real)
    requires 0.0 <= i <= m && 0.0 <= x
    ensures 0.0 <= i * x <= m * x
  {
  }

  lemma Distributes(a: real, x: real, y: real)
    ensures a * (x + y) == a * x + a * y
  {
  }

  lemma BoundStep(e: real, mass: real, i: real, top: real, x: real)
    requires 0.0 <= e <= top * mass && 0.0 <= i <= top && 0.0 <= x
    ensures 0.0 <= e + i * x <= top * (mass + x)
  {
    ProductBound(i, top, x);
    Distributes(top, mass, x);
  }

  lemma {:induction false} ExpectationBound(q: nat -> real, n: nat, top: nat, high: real)
    requires n <= top + 1 && high == top as real && forall i :: 0 <= i < n ==> 0.0 <= q(i)
    ensures 0.0 <= Expectation(q, n) <= high * Mass(q, n)
  {
    if n > 0 {
      ExpectationBound(q, n - 1, top, high);
      BoundStep(Expectation(q, n - 1), Mass(q, n - 1), (n - 1) as real, high, q(n - 1));
    }
  }

  lemma ScoreNear(score: real, e: real, mass: real, top: real, most: real, t: real)
    requires 0.0 <= e <= top * mass && 0.0 <= top && mass <= most && Distance(score, e) <= t
    ensures 0.0 - t <= score <= top * most + t
  {
    assert top * mass <= top * most;
  }

  /** A score near the expectation of a nearly normalized distribution. */
  lemma {:induction false} ScoreRange(q: nat -> real, n: nat, score: real, t: real, most: real)
    requires n > 0 && forall i :: 0 <= i < n ==> 0.0 <= q(i)
    requires Mass(q, n) <= most && Distance(score, Expectation(q, n)) <= t
    ensures 0.0 - t <= score <= (n - 1) as real * most + t
  {
    var top := (n - 1) as real;
    ExpectationBound(q, n, n - 1, top);
    ScoreNear(score, Expectation(q, n), Mass(q, n), top, most, t);
  }

  lemma {:induction false} ScoreParts(levels: seq<Level>, name: Option<string>, a: Answer)
    requires a.ScoreAnswer? && ConvertScore(levels, name, a).Some?
    requires a.probabilities.Some? && DistinctEntries(a.probabilities.value)
    ensures Accept(a.probabilities, LevelKeys(|levels|)).Some?
    ensures var p, n := Accept(a.probabilities, LevelKeys(|levels|)).value, |levels|;
            && Sum(p, WEIGHTED) == Expectation(ByLevel(p), n) && Sum(p, PROBABILITY) == Mass(ByLevel(p), n)
            && (forall i :: 0 <= i < n ==> 0.0 <= ByLevel(p)(i))
            && Mass(ByLevel(p), n) <= 1.0 + TOLERANCE
  {
    var p, keys := Accept(a.probabilities, LevelKeys(|levels|)).value, LevelKeys(|levels|);
    LevelKeysDistinct(|levels|);
    AcceptedKeys(a.probabilities.value, keys);
    InOrderPermutes(p, keys);
    SumPermutes(p, InOrder(p, keys), WEIGHTED);
    SumPermutes(p, InOrder(p, keys), PROBABILITY);
    SumsInOrder(p, |levels|);
    forall i | 0 <= i < |levels|
      ensures 0.0 <= ByLevel(p)(i)
    {
      assert keys[i] in keys;
      LookupExact(p, keys[i]);
      var j :| 0 <= j < |p| && p[j].0 == keys[i];
    }
  }

  lemma {:induction false} ScoreAccepted(levels: seq<Level>, name: Option<string>, a: Answer)
    returns (score: real, q: nat -> real)
    requires a.ScoreAnswer? && levels != [] && ConvertScore(levels, name, a).Some?
    requires a.probabilities.Some? && DistinctEntries(a.probabilities.value)
    ensures ConvertScore(levels, name, a).value.score == score
    ensures q == ByLevel(Accept(a.probabilities, LevelKeys(|levels|)).value)
    ensures Distance(score, Expectation(q, |levels|)) <= TOLERANCE && Mass(q, |levels|) <= 1.0 + TOLERANCE
    ensures forall i :: 0 <= i < |levels| ==> 0.0 <= q(i)
  {
    ScoreParts(levels, name, a);
    score, q := a.score.value, ByLevel(Accept(a.probabilities, LevelKeys(|levels|)).value);
  }

  lemma {:induction false} ScoreIsExpectation(levels: seq<Level>, name: Option<string>, a: Answer)
    requires a.ScoreAnswer? && levels != [] && ConvertScore(levels, name, a).Some?
    requires a.probabilities.Some? && DistinctEntries(a.probabilities.value)
    ensures var n := |levels|;
            Distance(
              ConvertScore(levels, name, a).value.score,
              Expectation(ByLevel(Accept(a.probabilities, LevelKeys(n)).value), n)) <= TOLERANCE
  {
    var score, q := ScoreAccepted(levels, name, a);
  }

  lemma {:induction false} ScoreRanges(levels: seq<Level>, name: Option<string>, a: Answer)
    returns (score: real, bound: real)
    requires a.ScoreAnswer? && levels != [] && ConvertScore(levels, name, a).Some?
    requires a.probabilities.Some? && DistinctEntries(a.probabilities.value)
    ensures ConvertScore(levels, name, a).value.score == score && 0.0 - TOLERANCE <= score <= bound
    ensures bound == Bound(|levels|)
  {
    var q;
    score, q := ScoreAccepted(levels, name, a);
    bound := RangeBound(q, |levels|, score);
  }

  /** The last level index, up to the two tolerances. */
  function Bound(n: nat): real {
    (n - 1) as real * (1.0 + TOLERANCE) + TOLERANCE
  }

  lemma {:induction false} RangeBound(q: nat -> real, n: nat, score: real) returns (bound: real)
    requires n > 0 && forall i :: 0 <= i < n ==> 0.0 <= q(i)
    requires Mass(q, n) <= 1.0 + TOLERANCE && Distance(score, Expectation(q, n)) <= TOLERANCE
    ensures bound == Bound(n) && 0.0 - TOLERANCE <= score <= bound
  {
    ScoreRange(q, n, score, TOLERANCE, 1.0 + TOLERANCE);
    bound := Bound(n);
  }

  lemma {:induction false} ScoreInRange(levels: seq<Level>, name: Option<string>, a: Answer)
    requires a.ScoreAnswer? && levels != [] && ConvertScore(levels, name, a).Some?
    requires a.probabilities.Some? && DistinctEntries(a.probabilities.value)
    ensures var score, n := ConvertScore(levels, name, a).value.score, |levels|;
            0.0 - TOLERANCE <= score <= (n - 1) as real * (1.0 + TOLERANCE) + TOLERANCE
  {
    var score, bound := ScoreRanges(levels, name, a);
  }

  /** An accepted score is the expected level index up to the tolerance, whatever order the backend's map
      has, and lies within the range of the levels up to the two tolerances. */
  lemma AcceptedScore(levels: seq<Level>, name: Option<string>, a: Answer)
    requires a.ScoreAnswer? && levels != [] && ConvertScore(levels, name, a).Some?
    requires a.probabilities.Some? && DistinctEntries(a.probabilities.value)
    ensures var score, n := ConvertScore(levels, name, a).value.score, |levels|;
            && Distance(score, Expectation(ByLevel(Accept(a.probabilities, LevelKeys(n)).value), n)) <= TOLERANCE
            && 0.0 - TOLERANCE <= score <= (n - 1) as real * (1.0 + TOLERANCE) + TOLERANCE
  {
    ScoreIsExpectation(levels, name, a);
    ScoreInRange(levels, name, a);
  }

  // ----- Positions

  /** Every option of a choice answer carries the probability the backend gave its own key, and the chosen
      value is the option whose key the backend chose. */
  lemma ChoicePositions(choices: seq<Choice>, name: Option<string>, a: Answer)
    requires a.ChoiceAnswer? && ConvertChoice(choices, name, a).Some?
    requires a.probabilities.Some? && DistinctEntries(a.probabilities.value)
    ensures var r := ConvertChoice(choices, name, a).value;
            && |r.options| == |choices|
            && (forall i :: 0 <= i < |choices| ==>
                  && r.options[i].0 == choices[i].value
                  && Lookup(a.probabilities.value, ChoiceKey(i)) == Some(Finite(r.options[i].1)))
            && exists i :: 0 <= i < |choices| && a.choice == ChoiceKey(i) && r.choice == choices[i].value
  {
    var keys := ChoiceKeys(|choices|);
    ChoiceKeysDistinct(|choices|);
    AcceptedKeys(a.probabilities.value, keys);
    forall i | 0 <= i < |choices|
      ensures Lookup(a.probabilities.value, ChoiceKey(i))
              == Some(Finite(ConvertChoice(choices, name, a).value.options[i].1))
    {
      assert keys[i] in keys;
    }
  }

  lemma LevelPositions(levels: seq<Level>, name: Option<string>, a: Answer)
    requires a.ScoreAnswer? && ConvertScore(levels, name, a).Some?
    requires a.probabilities.Some? && DistinctEntries(a.probabilities.value)
    ensures var r := ConvertScore(levels, name, a).value;
            && |r.levels| == |levels|
            && forall i :: 0 <= i < |levels| ==>
                 && r.levels[i].0 == i && r.levels[i].1 == levels[i].title
                 && Lookup(a.probabilities.value, Render(i)) == Some(Finite(r.levels[i].2))
  {
    var keys := LevelKeys(|levels|);
    LevelKeysDistinct(|levels|);
    AcceptedKeys(a.probabilities.value, keys);
    forall i | 0 <= i < |levels|
      ensures Lookup(a.probabilities.value, Render(i)) == Some(Finite(ConvertScore(levels, name, a).value.levels[i].2))
    {
      assert keys[i] in keys;
    }
  }

  /** What a backend that answers every native question it is sent returns. */
  function Answers(questions: seq<Question>, backend: NativeQuestion -> Answer): map<string, Answer> {
    map k | k in Keyed(questions) :: backend(Keyed(questions)[k])
  }

  /** End to end, answer i is the backend's answer to question i: the keyed detour cannot permute. */
  method Ask(
    questions: seq<Question>, backend: NativeQuestion -> Answer, model: Option<string>, usage: Option<NativeUsage>)
    returns (r: Option<Response>)
    ensures r.Some? <==>
            && 1 <= |questions| <= 1024
            && (forall i :: 0 <= i < |questions| ==>
                  Askable(questions[i]) && Convert(questions[i], backend(Native(questions[i]))).Some?)
            && Identified(model) && usage.Some? && Complete(usage.value)
    ensures r.Some? ==>
              && model == Some(r.value.model) && usage == Some(r.value.usage)
              && |r.value.answers| == |questions|
              && forall i :: 0 <= i < |questions| ==>
                   Convert(questions[i], backend(Native(questions[i]))) == Some(r.value.answers[i])
  {
    var native := Parse(questions);
    if native.None? {
      return None;
    }
    var answers := Answers(questions, backend);
    KeyedExact(questions);
    assert answers.Keys == Keyed(questions).Keys;
    r := Respond(questions, Output(answers, model, usage));
  }
}
