/** Conversion of ordered decision questions to the native backend's keyed form, and of its keyed answers back. */
module Decisions {
  import opened Wrappers
  import opened Digits
  import opened DecisionKeys
  import opened CheckedU64

  datatype ChoiceValue = Text(s: string) | Flag(b: bool)
  datatype Choice = Choice(value: ChoiceValue, description: Option<string>)
  datatype Level = Level(title: string, description: Option<string>)

  datatype Question =
    | Predicate(instructions: string, name: Option<string>)
    | Choose(instructions: string, choices: seq<Choice>, name: Option<string>)
    | Score(instructions: string, levels: seq<Level>, name: Option<string>)

  datatype Content = OfChoice(choice: Choice) | OfLevel(level: Level)

  datatype NativeQuestion =
    | Noul(instructions: string)
    | NativeChoice(instructions: string, criteria: map<string, Content>)
    | NativeScore(instructions: string, levels: seq<Content>)

  /** An f64: a real number, or one of the values that are none. */
  datatype Float = Finite(value: real) | NotFinite

  /** An ordered map of probabilities: ascending keys, each once. */
  type Distribution = seq<(string, Float)>

  datatype Answer =
    | Refused
    | NoulAnswer(noul: Float, abstained: bool)
    | ChoiceAnswer(choice: string, probabilities: Option<Distribution>, confidence: Option<Float>, abstained: bool)
    | ScoreAnswer(
        score: Float, legend: Option<map<string, Content>>, probabilities: Option<Distribution>,
        confidence: Option<Float>, abstained: bool)

  datatype PublicAnswer =
    | Refusal(name: Option<string>)
    | Probability(name: Option<string>, probability: real)
    | Chosen(name: Option<string>, choice: ChoiceValue, confidence: real, options: seq<(ChoiceValue, real)>)
    | Scored(name: Option<string>, score: real, confidence: real, levels: seq<(nat, string, real)>)

  // ----- Questions

  predicate DistinctValues(choices: seq<Choice>) {
    forall i, j :: 0 <= i < j < |choices| ==> choices[i].value != choices[j].value
  }

  predicate Askable(q: Question) {
    match q
    case Predicate(_, _) => true
    case Choose(_, choices, _) => 2 <= |choices| <= 255 && DistinctValues(choices)
    case Score(_, levels, _) => 2 <= |levels| <= 255
  }

  /** A map built by inserting the elements of a sequence under the keys of their positions. */
  function Indexed<T>(s: seq<T>, key: nat -> string): map<string, T> {
    if s == [] then map[] else Indexed(s[..|s| - 1], key)[key(|s| - 1) := s[|s| - 1]]
  }

  function Contents(choices: seq<Choice>): seq<Content> {
    seq(|choices|, i requires 0 <= i < |choices| => OfChoice(choices[i]))
  }

  function Criteria(choices: seq<Choice>): map<string, Content> {
    Indexed(Contents(choices), ChoiceKey)
  }

  function Levels(levels: seq<Level>): seq<Content> {
    seq(|levels|, i requires 0 <= i < |levels| => OfLevel(levels[i]))
  }

  function Native(q: Question): NativeQuestion {
    match q
    case Predicate(instructions, _) => Noul(instructions)
    case Choose(instructions, choices, _) => NativeChoice(instructions, Criteria(choices))
    case Score(instructions, levels, _) => NativeScore(instructions, Levels(levels))
  }

  function Natives(questions: seq<Question>): seq<NativeQuestion> {
    seq(|questions|, i requires 0 <= i < |questions| => Native(questions[i]))
  }

  function Keyed(questions: seq<Question>): map<string, NativeQuestion> {
    Indexed(Natives(questions), Key)
  }

  ghost predicate Injective(key: nat -> string) {
    forall i: nat, j: nat :: key(i) == key(j) ==> i == j
  }

  /** Under injective keys each element is found under the key of its position, and nothing else is. */
  lemma {:induction false} IndexedExact<T>(s: seq<T>, key: nat -> string)
    requires Injective(key)
    ensures forall i :: 0 <= i < |s| ==> key(i) in Indexed(s, key) && Indexed(s, key)[key(i)] == s[i]
    ensures forall k :: k in Indexed(s, key) ==> exists i :: 0 <= i < |s| && k == key(i)
    ensures |Indexed(s, key)| == |s|
  {
    forall i | 0 <= i < |s|
      ensures key(i) in Indexed(s, key) && Indexed(s, key)[key(i)] == s[i]
    {
      IndexedAt(s, key, i);
    }
    forall k | k in Indexed(s, key)
      ensures exists i :: 0 <= i < |s| && k == key(i)
    {
      var i := IndexedFrom(s, key, k);
    }
    IndexedSize(s, key);
  }

  lemma {:induction false} IndexedAt<T>(s: seq<T>, key: nat -> string, i: nat)
    requires Injective(key) && i < |s|
    ensures key(i) in Indexed(s, key) && Indexed(s, key)[key(i)] == s[i]
    decreases |s|
  {
    var n := |s| - 1;
    if i < n {
      IndexedAt(s[..n], key, i);
      assert key(i) != key(n);
    }
  }

  lemma {:induction false} IndexedFrom<T>(s: seq<T>, key: nat -> string, k: string) returns (i: nat)
    requires k in Indexed(s, key)
    ensures i < |s| && k == key(i)
    decreases |s|
  {
    var n := |s| - 1;
    if k == key(n) {
      i := n;
    } else {
      i := IndexedFrom(s[..n], key, k);
    }
  }

  lemma {:induction false} IndexedSize<T>(s: seq<T>, key: nat -> string)
    requires Injective(key)
    ensures |Indexed(s, key)| == |s|
  {
    if s != [] {
      var n := |s| - 1;
      IndexedSize(s[..n], key);
      if key(n) in Indexed(s[..n], key) {
        var i := IndexedFrom(s[..n], key, key(n));
      }
      Grown(Indexed(s[..n], key), key(n), s[n]);
    }
  }

  lemma Grown<T>(before: map<string, T>, k: string, v: T)
    requires k !in before
    ensures |before[k := v]| == |before| + 1
  {
    assert before[k := v].Keys == before.Keys + {k};
  }

  lemma KeysAreInjective()
    ensures Injective(Key) && Injective(ChoiceKey)
  {
    forall i: nat, j: nat
      ensures (Key(i) == Key(j) ==> i == j) && (ChoiceKey(i) == ChoiceKey(j) ==> i == j)
    {
      KeysInjective(i, j);
    }
  }

  /** Each choice travels under its own key, and nothing else does. */
  lemma CriteriaExact(choices: seq<Choice>)
    ensures forall i :: 0 <= i < |choices| ==>
              ChoiceKey(i) in Criteria(choices) && Criteria(choices)[ChoiceKey(i)] == OfChoice(choices[i])
    ensures forall k :: k in Criteria(choices) ==> exists i :: 0 <= i < |choices| && k == ChoiceKey(i)
  {
    KeysAreInjective();
    IndexedExact(Contents(choices), ChoiceKey);
  }

  /** Each question travels under its own key, and nothing else does. */
  lemma KeyedExact(questions: seq<Question>)
    ensures forall i :: 0 <= i < |questions| ==>
              Key(i) in Keyed(questions) && Keyed(questions)[Key(i)] == Native(questions[i])
    ensures forall k :: k in Keyed(questions) ==> exists i :: 0 <= i < |questions| && k == Key(i)
    ensures |Keyed(questions)| == |questions|
  {
    KeysAreInjective();
    IndexedExact(Natives(questions), Key);
  }

  lemma IndexedSnoc<T>(s: seq<T>, key: nat -> string, i: nat)
    requires i < |s|
    ensures Indexed(s[..i + 1], key) == Indexed(s[..i], key)[key(i) := s[i]]
  {
    assert s[..i + 1][..i] == s[..i];
  }

  /** The values of the first choices. */
  ghost predicate SeenValues(seen: set<ChoiceValue>, choices: seq<Choice>, i: nat)
    requires i <= |choices|
  {
    && (forall k :: 0 <= k < i ==> choices[k].value in seen)
    && (forall v :: v in seen ==> exists k :: 0 <= k < i && choices[k].value == v)
    && DistinctValues(choices[..i])
  }

  lemma SeenNext(seen: set<ChoiceValue>, choices: seq<Choice>, i: nat)
    requires i < |choices| && SeenValues(seen, choices, i)
    ensures choices[i].value !in seen ==> SeenValues(seen + {choices[i].value}, choices, i + 1)
    ensures choices[i].value in seen ==> !DistinctValues(choices)
  {
  }

  method ConvertChoices(choices: seq<Choice>) returns (r: Option<map<string, Content>>)
    ensures r.Some? <==> DistinctValues(choices)
    ensures r.Some? ==> r.value == Criteria(choices)
  {
    var seen: set<ChoiceValue> := {};
    var criteria := map[];
    ghost var contents := Contents(choices);
    for i := 0 to |choices|
      invariant SeenValues(seen, choices, i)
      invariant criteria == Indexed(contents[..i], ChoiceKey)
    {
      SeenNext(seen, choices, i);
      if choices[i].value in seen {
        return None;
      }
      seen := seen + {choices[i].value};
      IndexedSnoc(contents, ChoiceKey, i);
      criteria := criteria[ChoiceKey(i) := OfChoice(choices[i])];
    }
    assert choices[..|choices|] == choices && contents[..|choices|] == contents;
    return Some(criteria);
  }

  method ConvertQuestion(q: Question) returns (r: Option<NativeQuestion>)
    ensures r.Some? <==> Askable(q)
    ensures r.Some? ==> r.value == Native(q)
  {
    match q
    case Predicate(instructions, _) =>
      return Some(Noul(instructions));
    case Choose(instructions, choices, _) =>
      if |choices| < 2 || |choices| > 255 {
        return None;
      }
      var criteria := ConvertChoices(choices);
      return if criteria.Some? then Some(NativeChoice(instructions, criteria.value)) else None;
    case Score(instructions, levels, _) =>
      if |levels| < 2 || |levels| > 255 {
        return None;
      }
      return Some(NativeScore(instructions, Levels(levels)));
  }

  /** The question loop of the request conversion. */
  method Parse(questions: seq<Question>) returns (r: Option<map<string, NativeQuestion>>)
    ensures r.Some? <==> 1 <= |questions| <= 1024 && forall i :: 0 <= i < |questions| ==> Askable(questions[i])
    ensures r.Some? ==> r.value == Keyed(questions)
  {
    if questions == [] || |questions| > 1024 {
      return None;
    }
    var native := map[];
    ghost var natives := Natives(questions);
    for i := 0 to |questions|
      invariant native == Indexed(natives[..i], Key)
      invariant forall k :: 0 <= k < i ==> Askable(questions[k])
    {
      var q := ConvertQuestion(questions[i]);
      if q.None? {
        return None;
      }
      IndexedSnoc(natives, Key, i);
      native := native[Key(i) := q.value];
    }
    assert natives[..|questions|] == natives;
    return Some(native);
  }

  // ----- Answers

  const TOLERANCE: real := 0.00001

  function Distance(a: real, b: real): real {
    if a < b then b - a else a - b
  }

  function AsProbability(f: Float): Option<real> {
    if f.Finite? && 0.0 <= f.value <= 1.0 then Some(f.value) else None
  }

  function Lookup<T>(entries: seq<(string, T)>, key: string): Option<T> {
    if entries == [] then None
    else if entries[0].0 == key then Some(entries[0].1)
    else Lookup(entries[1..], key)
  }

  function Probabilities(d: Distribution): Option<seq<(string, real)>> {
    if d == [] then Some([])
    else
      var p :- AsProbability(d[0].1);
      var rest :- Probabilities(d[1..]);
      Some([(d[0].0, p)] + rest)
  }

  /** What an entry adds to a sum. */
  type Term = ((string, real)) -> real

  /** A sum in the order of the entries. */
  function Sum(p: seq<(string, real)>, term: Term): real {
    if p == [] then 0.0 else term(p[0]) + Sum(p[1..], term)
  }

  function IndexOf(k: string): real {
    if AllDigits(k) then ToNat(k) as real else 0.0
  }

  const PROBABILITY: Term := (e: (string, real)) => e.1
  const WEIGHTED: Term := (e: (string, real)) => IndexOf(e.0) * e.1

  /** Accepts a distribution for the requested keys. */
  function Accept(d: Option<Distribution>, keys: seq<string>): Option<seq<(string, real)>> {
    if d.None? || |d.value| != |keys| || exists i :: 0 <= i < |keys| && Lookup(d.value, keys[i]).None? then None
    else
      var p :- Probabilities(d.value);
      if Distance(Sum(p, PROBABILITY), 1.0) > TOLERANCE then None else Some(p)
  }

  function ChoiceKeys(n: nat): seq<string> {
    seq(n, i requires 0 <= i < n => ChoiceKey(i))
  }

  function LevelKeys(n: nat): seq<string> {
    seq(n, i requires 0 <= i < n => Render(i))
  }

  function Position(keys: seq<string>, key: string): (r: Option<nat>)
    ensures r.Some? ==> r.value < |keys| && keys[r.value] == key
  {
    if keys == [] then None
    else if keys[0] == key then Some(0)
    else
      var i :- Position(keys[1..], key);
      Some(i + 1)
  }

  /** The probability held for a key; the source indexes the accepted map, which has it. */
  function At(p: seq<(string, real)>, key: string): real {
    var v := Lookup(p, key);
    if v.Some? then v.value else 0.0
  }

  function ConvertChoice(choices: seq<Choice>, name: Option<string>, a: Answer): Option<PublicAnswer>
    requires a.ChoiceAnswer?
  {
    if a.abstained then None
    else
      var keys := ChoiceKeys(|choices|);
      var p :- Accept(a.probabilities, keys);
      var selected :- Position(keys, a.choice);
      var given :- a.confidence;
      var confidence :- AsProbability(given);
      Some(Chosen(
        name, choices[selected].value, confidence,
        seq(|choices|, i requires 0 <= i < |choices| => (choices[i].value, At(p, ChoiceKey(i))))))
  }

  predicate LegendMatches(legend: map<string, Content>, levels: seq<Level>) {
    && |legend| == |levels|
    && forall i :: 0 <= i < |levels| ==> Render(i) in legend && legend[Render(i)] == OfLevel(levels[i])
  }

  function ConvertScore(levels: seq<Level>, name: Option<string>, a: Answer): Option<PublicAnswer>
    requires a.ScoreAnswer?
  {
    if a.abstained || (a.legend.Some? && !LegendMatches(a.legend.value, levels)) then None
    else
      var p :- Accept(a.probabilities, LevelKeys(|levels|));
      if a.score.NotFinite? || Distance(a.score.value, Sum(p, WEIGHTED)) > TOLERANCE then None
      else
        var given :- a.confidence;
        var confidence :- AsProbability(given);
        Some(Scored(
          name, a.score.value, confidence,
          seq(|levels|, i requires 0 <= i < |levels| => (i, levels[i].title, At(p, Render(i))))))
  }

  /** The answer to one question. */
  function Convert(q: Question, a: Answer): Option<PublicAnswer> {
    match (q, a)
    case (_, Refused) => Some(Refusal(q.name))
    case (Predicate(_, name), NoulAnswer(noul, abstained)) =>
      if abstained then None
      else
        var p :- AsProbability(noul);
        Some(Probability(name, p))
    case (Choose(_, choices, name), ChoiceAnswer(_, _, _, _)) => ConvertChoice(choices, name, a)
    case (Score(_, levels, name), ScoreAnswer(_, _, _, _, _)) => ConvertScore(levels, name, a)
    case _ => None
  }

  // ----- The whole response

  /** The counters of the native usage, each of which the backend may have left out. */
  datatype NativeUsage = NativeUsage(
    input: Option<u64>, output: Option<u64>, total: Option<u64>,
    cached: Option<u64>, cacheWrite: Option<u64>, reasoning: Option<u64>)

  datatype Output = Output(answers: map<string, Answer>, model: Option<string>, usage: Option<NativeUsage>)

  datatype Response = Response(model: string, answers: seq<PublicAnswer>, usage: NativeUsage)

  /** All counters are there, and the total is the sum, computed without overflow. */
  predicate Complete(u: NativeUsage) {
    && u.input.Some? && u.output.Some? && u.total.Some?
    && u.cached.Some? && u.cacheWrite.Some? && u.reasoning.Some?
    && Add(u.input.value, u.output.value) == u.total
  }

  predicate Identified(model: Option<string>) {
    model.Some? && model.value != ""
  }

  /** The answer loop of the response conversion. */
  method ConvertAnswers(questions: seq<Question>, answers: map<string, Answer>) returns (r: Option<seq<PublicAnswer>>)
    ensures r.Some? <==>
            && |answers| == |questions|
            && forall i :: 0 <= i < |questions| ==>
                 Key(i) in answers && Convert(questions[i], answers[Key(i)]).Some?
    ensures r.Some? ==>
              && |r.value| == |questions|
              && forall i :: 0 <= i < |questions| ==>
                   Convert(questions[i], answers[Key(i)]) == Some(r.value[i])
  {
    if |answers| != |questions| {
      return None;
    }
    var out := [];
    for i := 0 to |questions|
      invariant |out| == i
      invariant forall k :: 0 <= k < i ==>
                  Key(k) in answers && Convert(questions[k], answers[Key(k)]) == Some(out[k])
    {
      if Key(i) !in answers {
        return None;
      }
      var answer := Convert(questions[i], answers[Key(i)]);
      if answer.None? {
        return None;
      }
      out := out + [answer.value];
    }
    return Some(out);
  }

  /** The response conversion, with the identity and the usage the reply must carry. */
  method Respond(questions: seq<Question>, output: Output) returns (r: Option<Response>)
    ensures r.Some? <==>
            && |output.answers| == |questions| && Identified(output.model)
            && (forall i :: 0 <= i < |questions| ==>
                  Key(i) in output.answers && Convert(questions[i], output.answers[Key(i)]).Some?)
            && output.usage.Some? && Complete(output.usage.value)
    ensures r.Some? ==>
              && output.model == Some(r.value.model) && output.usage == Some(r.value.usage)
              && |r.value.answers| == |questions|
              && forall i :: 0 <= i < |questions| ==>
                   Convert(questions[i], output.answers[Key(i)]) == Some(r.value.answers[i])
  {
    if |output.answers| != |questions| || !Identified(output.model) {
      return None;
    }
    var answers := ConvertAnswers(questions, output.answers);
    if answers.None? || output.usage.None? || !Complete(output.usage.value) {
      return None;
    }
    return Some(Response(output.model.value, answers.value, output.usage.value));
  }
}
