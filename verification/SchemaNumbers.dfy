/** Admission of schema numbers: a bounded search of a raw JSON schema for numeric assertions that the
    native number representation would round, or that nest too deep. */
module SchemaNumbers {
  import opened Wrappers
  import Digits
  import Lex
  import Numbers

  const MAX_DEPTH: nat := 64

  /** A raw JSON value, numbers and other scalars as their source text. Member names may repeat. */
  datatype Raw =
    | Number(text: string)
    | Scalar(text: string)
    | Object(members: seq<(string, Raw)>)
    | Array(items: seq<Raw>)

  /** Parsing a number natively and printing it back; none when the native parser refuses it. */
  type Native = string -> Option<string>

  // ----- Objects as ordered maps: the last of repeated members wins

  function Drop(members: seq<(string, Raw)>, key: string): seq<(string, Raw)> {
    if members == [] then []
    else
      Drop(members[..|members| - 1], key)
      + if members[|members| - 1].0 == key then [] else [members[|members| - 1]]
  }

  function LastOfEach(members: seq<(string, Raw)>): seq<(string, Raw)> {
    if members == [] then []
    else
      var last := members[|members| - 1];
      Drop(LastOfEach(members[..|members| - 1]), last.0) + [last]
  }

  const BY_NAME := (m: (string, Raw)) => m.0

  function Entries(v: Raw): seq<(string, Raw)>
    requires v.Object?
  {
    Lex.SortBy(LastOfEach(v.members), BY_NAME)
  }

  function Lookup(members: seq<(string, Raw)>, key: string): Option<Raw> {
    if members == [] then None
    else if members[|members| - 1].0 == key then Some(members[|members| - 1].1)
    else Lookup(members[..|members| - 1], key)
  }

  /** The member an ordered map holds for a name. */
  function Member(v: Raw, key: string): Option<Raw> {
    if v.Object? then Lookup(v.members, key) else None
  }

  lemma {:induction false} DropMember(members: seq<(string, Raw)>, key: string, m: (string, Raw))
    ensures m in Drop(members, key) <==> m in members && m.0 != key
  {
    if members != [] {
      DropMember(members[..|members| - 1], key, m);
    }
  }

  lemma {:induction false} LastOfEachMember(members: seq<(string, Raw)>, m: (string, Raw))
    ensures m in LastOfEach(members) <==> Lookup(members, m.0) == Some(m.1)
  {
    if members != [] {
      LastOfEachMember(members[..|members| - 1], m);
      DropMember(LastOfEach(members[..|members| - 1]), members[|members| - 1].0, m);
    }
  }

  /** The entries of an object are exactly its members. */
  lemma EntriesAreMembers(v: Raw, key: string, child: Raw)
    requires v.Object?
    ensures (key, child) in Entries(v) <==> Member(v, key) == Some(child)
  {
    Lex.SortByMember(LastOfEach(v.members), BY_NAME, (key, child));
    LastOfEachMember(v.members, (key, child));
  }

  // ----- The search

  /** A position of the search: a value, read as a literal or as a schema. */
  datatype Node = Node(raw: Raw, literal: bool)

  /** A child with the path segments that lead to it. */
  datatype Child = Child(segments: seq<string>, node: Node)

  /** The keywords the search follows: those that hold literals, those whose members or items are schemas,
      and those that hold one schema or a list of schemas. */
  datatype Keywords = Keywords(assertions: seq<string>, applicators: seq<string>, itemApplicators: seq<string>)

  const LISTED :=
    Keywords(
      ["minimum", "maximum", "exclusiveMinimum", "exclusiveMaximum", "const", "enum"],
      ["properties", "$defs", "definitions", "anyOf", "oneOf", "allOf", "prefixItems"],
      ["items", "additionalItems", "additionalProperties"])

  function MemberChildren(prefix: seq<string>, v: Raw, literal: bool): seq<Child> {
    if v.Object? then
      var entries := Entries(v);
      seq(|entries|, i requires 0 <= i < |entries| => Child(prefix + [entries[i].0], Node(entries[i].1, literal)))
    else []
  }

  function ItemChildren(prefix: seq<string>, v: Raw, literal: bool): seq<Child> {
    if v.Array? then
      seq(|v.items|, i requires 0 <= i < |v.items| => Child(prefix + [Digits.Render(i)], Node(v.items[i], literal)))
    else []
  }

  function Assertion(v: Raw, k: string): seq<Child> {
    var m := Member(v, k);
    if m.Some? then [Child([k], Node(m.value, true))] else []
  }

  function Applicator(v: Raw, k: string): seq<Child> {
    var m := Member(v, k);
    if m.Some? then MemberChildren([k], m.value, false) + ItemChildren([k], m.value, false) else []
  }

  function ItemApplicator(v: Raw, k: string): seq<Child> {
    var m := Member(v, k);
    if m.None? then []
    else if m.value.Array? then ItemChildren([k], m.value, false)
    else [Child([k], Node(m.value, false))]
  }

  function Gather(v: Raw, keys: seq<string>, f: (Raw, string) -> seq<Child>): seq<Child> {
    if keys == [] then [] else f(v, keys[0]) + Gather(v, keys[1..], f)
  }

  /** The nodes the source visits next, in its order. */
  function Children(kw: Keywords, n: Node): seq<Child> {
    if n.literal then MemberChildren([], n.raw, true) + ItemChildren([], n.raw, true)
    else
      Gather(n.raw, kw.assertions, Assertion)
      + Gather(n.raw, kw.applicators, Applicator)
      + Gather(n.raw, kw.itemApplicators, ItemApplicator)
  }

  /** The number keeps its value through native parsing. */
  predicate Kept(native: Native, text: string) {
    native(text).Some? && Numbers.DecimalOf(text) == Numbers.DecimalOf(native(text).value)
  }

  function Remaining(depth: nat): nat {
    if depth <= MAX_DEPTH then MAX_DEPTH + 1 - depth else 0
  }

  /** The path of the first problem, if there is one. */
  function Problem(native: Native, kw: Keywords, n: Node, depth: nat): Option<seq<string>>
    decreases Remaining(depth), 0
  {
    if depth > MAX_DEPTH then Some([])
    else if n.raw.Number? then (if Kept(native, n.raw.text) then None else Some([]))
    else FirstProblem(native, kw, Children(kw, n), depth + 1)
  }

  function FirstProblem(native: Native, kw: Keywords, children: seq<Child>, depth: nat): Option<seq<string>>
    decreases Remaining(depth), 1 + |children|
  {
    if children == [] then None
    else
      var p := Problem(native, kw, children[0].node, depth);
      if p.Some? then Some(children[0].segments + p.value) else FirstProblem(native, kw, children[1..], depth)
  }

  // ----- Reachability through the listed keywords

  /** `segments` leads from `n` to `child`: into every member or item of a literal; from a schema through an
      assertion to a literal, and through an applicator to subschemas. */
  ghost predicate Leads(kw: Keywords, n: Node, segments: seq<string>, child: Node) {
    if n.literal then
      child.literal && InsideOf([], n.raw, segments, child.raw)
    else if |segments| >= 1 && Member(n.raw, segments[0]).Some? then
      var k, m := segments[0], Member(n.raw, segments[0]).value;
      || (k in kw.assertions && segments == [k] && child == Node(m, true))
      || (k in kw.applicators && !child.literal && InsideOf([k], m, segments, child.raw))
      || (k in kw.itemApplicators && m.Array? && !child.literal && InsideOf([k], m, segments, child.raw))
      || (k in kw.itemApplicators && !m.Array? && segments == [k] && child == Node(m, false))
    else false
  }

  /** `child` is a member or an item of `v`, and `segments` is the prefix with its name or position. */
  ghost predicate InsideOf(prefix: seq<string>, v: Raw, segments: seq<string>, child: Raw) {
    || (exists name :: segments == prefix + [name] && Member(v, name) == Some(child))
    || (v.Array? && exists i :: 0 <= i < |v.items| && segments == prefix + [Digits.Render(i)] && v.items[i] == child)
  }

  /** The steps of the search as a relation; numbers lead nowhere. */
  type Relation = (Node, Child) -> bool

  ghost function Steps(kw: Keywords): Relation {
    (n: Node, c: Child) => !n.raw.Number? && Leads(kw, n, c.segments, c.node)
  }

  /** A chain of steps from `n`. */
  ghost predicate Chain(steps: Relation, n: Node, path: seq<Child>)
    decreases |path|
  {
    path == [] || (steps(n, path[0]) && Chain(steps, path[0].node, path[1..]))
  }

  function Target(n: Node, path: seq<Child>): Node {
    if path == [] then n else path[|path| - 1].node
  }

  function PathLabel(path: seq<Child>): seq<string> {
    if path == [] then [] else path[0].segments + PathLabel(path[1..])
  }

  /** What every reachable node must satisfy. */
  predicate Fine(native: Native, n: Node, depth: nat) {
    depth <= MAX_DEPTH && (n.raw.Number? ==> Kept(native, n.raw.text))
  }

  // ----- The children visited are exactly the nodes led to

  lemma {:induction false} GatherMember(v: Raw, keys: seq<string>, f: (Raw, string) -> seq<Child>, c: Child)
    ensures c in Gather(v, keys, f) <==> exists i :: 0 <= i < |keys| && c in f(v, keys[i])
  {
    if keys != [] {
      GatherMember(v, keys[1..], f, c);
      if i :| 0 <= i < |keys[1..]| && c in f(v, keys[1..][i]) {
        assert keys[i + 1] == keys[1..][i];
      }
      if i :| 0 <= i < |keys| && c in f(v, keys[i]) {
        if i > 0 {
          assert keys[1..][i - 1] == keys[i];
        }
      }
    }
  }

  lemma InsideChildren(prefix: seq<string>, v: Raw, literal: bool, c: Child)
    ensures c in MemberChildren(prefix, v, literal) || c in ItemChildren(prefix, v, literal)
            <==> c.node.literal == literal && InsideOf(prefix, v, c.segments, c.node.raw)
    ensures c in ItemChildren(prefix, v, literal) ==> v.Array?
    ensures v.Array? ==> MemberChildren(prefix, v, literal) == []
  {
    if v.Object? {
      var entries := Entries(v);
      if c in MemberChildren(prefix, v, literal) {
        var i :| 0 <= i < |entries| && c == Child(prefix + [entries[i].0], Node(entries[i].1, literal));
        assert entries[i] in entries;
        EntriesAreMembers(v, entries[i].0, entries[i].1);
      }
      if name :| c.segments == prefix + [name] && Member(v, name) == Some(c.node.raw) {
        EntriesAreMembers(v, name, c.node.raw);
        var i :| 0 <= i < |entries| && entries[i] == (name, c.node.raw);
        if c.node.literal == literal {
          assert MemberChildren(prefix, v, literal)[i] == c;
        }
      }
    } else if v.Array? {
      if i :| 0 <= i < |v.items| && c.segments == prefix + [Digits.Render(i)] && v.items[i] == c.node.raw {
        if c.node.literal == literal {
          assert ItemChildren(prefix, v, literal)[i] == c;
        }
      }
    }
  }

  lemma SchemaChildren(v: Raw, c: Child, k: string)
    ensures c in Assertion(v, k) <==> c.segments == [k] && c.node.literal && Member(v, k) == Some(c.node.raw)
    ensures c in Applicator(v, k) <==>
            Member(v, k).Some? && !c.node.literal && InsideOf([k], Member(v, k).value, c.segments, c.node.raw)
    ensures c in ItemApplicator(v, k) <==>
            && Member(v, k).Some? && !c.node.literal
            && if Member(v, k).value.Array? then InsideOf([k], Member(v, k).value, c.segments, c.node.raw)
               else c.segments == [k] && c.node.raw == Member(v, k).value
  {
    if Member(v, k).Some? {
      InsideChildren([k], Member(v, k).value, false, c);
    }
  }

  lemma {:induction false} ChildrenExact(kw: Keywords, n: Node, c: Child)
    ensures c in Children(kw, n) <==> Leads(kw, n, c.segments, c.node)
  {
    if n.literal {
      InsideChildren([], n.raw, true, c);
    } else {
      GatherMember(n.raw, kw.assertions, Assertion, c);
      GatherMember(n.raw, kw.applicators, Applicator, c);
      GatherMember(n.raw, kw.itemApplicators, ItemApplicator, c);
      forall k
        ensures c in Assertion(n.raw, k) || c in Applicator(n.raw, k) || c in ItemApplicator(n.raw, k) ==>
                  |c.segments| >= 1 && c.segments[0] == k
      {
        SchemaChildren(n.raw, c, k);
      }
      if |c.segments| >= 1 {
        SchemaChildren(n.raw, c, c.segments[0]);
      }
    }
  }

  // ----- Soundness and completeness

  lemma {:induction false} FirstProblemNone(native: Native, kw: Keywords, children: seq<Child>, depth: nat, c: Child)
    requires FirstProblem(native, kw, children, depth).None? && c in children
    ensures Problem(native, kw, c.node, depth).None?
  {
    if c != children[0] {
      FirstProblemNone(native, kw, children[1..], depth, c);
    }
  }

  lemma {:induction false} NoProblemBelow(native: Native, kw: Keywords, n: Node, depth: nat, c: Child)
    requires Problem(native, kw, n, depth).None? && Steps(kw)(n, c)
    ensures Problem(native, kw, c.node, depth + 1).None?
  {
    assert Leads(kw, n, c.segments, c.node);
    ChildrenExact(kw, n, c);
    FirstProblemNone(native, kw, Children(kw, n), depth + 1, c);
  }

  /** A property of nodes and depths that every step keeps holds all along a chain. */
  lemma {:induction false} AlongChain(
    steps: Relation, holds: (Node, nat) -> bool, n: Node, depth: nat, path: seq<Child>)
    requires forall m: Node, c: Child, d: nat :: holds(m, d) && steps(m, c) ==> holds(c.node, d + 1)
    requires holds(n, depth) && Chain(steps, n, path)
    ensures holds(Target(n, path), depth + |path|)
    decreases |path|
  {
    if path != [] {
      var c, rest := path[0], path[1..];
      assert holds(c.node, depth + 1);
      AlongChain(steps, holds, c.node, depth + 1, rest);
      assert Target(n, path) == Target(c.node, rest);
    }
  }

  /** No problem means every reachable node is fine. */
  lemma NoProblemMeansFine(native: Native, kw: Keywords, n: Node, depth: nat, path: seq<Child>)
    requires Problem(native, kw, n, depth).None? && Chain(Steps(kw), n, path)
    ensures Fine(native, Target(n, path), depth + |path|)
  {
    var holds := (m: Node, d: nat) => Problem(native, kw, m, d).None?;
    forall m: Node, c: Child, d: nat | holds(m, d) && Steps(kw)(m, c)
      ensures holds(c.node, d + 1)
    {
      NoProblemBelow(native, kw, m, d, c);
    }
    AlongChain(Steps(kw), holds, n, depth, path);
    assert holds(Target(n, path), depth + |path|);
  }

  lemma {:induction false} FirstProblemSome(native: Native, kw: Keywords, children: seq<Child>, depth: nat)
    returns (c: Child)
    requires FirstProblem(native, kw, children, depth).Some?
    ensures c in children && Problem(native, kw, c.node, depth).Some?
    ensures FirstProblem(native, kw, children, depth).value == c.segments + Problem(native, kw, c.node, depth).value
  {
    if Problem(native, kw, children[0].node, depth).Some? {
      c := children[0];
    } else {
      c := FirstProblemSome(native, kw, children[1..], depth);
    }
  }

  /** A problem below a node is the problem of one of its children. */
  lemma {:induction false} ProblemBelow(native: Native, kw: Keywords, n: Node, depth: nat) returns (c: Child)
    requires Problem(native, kw, n, depth).Some? && depth <= MAX_DEPTH && !n.raw.Number?
    ensures Steps(kw)(n, c) && Problem(native, kw, c.node, depth + 1).Some?
    ensures Problem(native, kw, n, depth).value == c.segments + Problem(native, kw, c.node, depth + 1).value
  {
    c := FirstProblemSome(native, kw, Children(kw, n), depth + 1);
    ChildrenExact(kw, n, c);
  }

  lemma ChainCons(steps: Relation, n: Node, c: Child, rest: seq<Child>)
    requires steps(n, c) && Chain(steps, c.node, rest)
    ensures Chain(steps, n, [c] + rest) && PathLabel([c] + rest) == c.segments + PathLabel(rest)
    ensures Target(n, [c] + rest) == Target(c.node, rest)
  {
    assert ([c] + rest)[1..] == rest;
  }

  lemma {:induction false} ProblemHere(native: Native, kw: Keywords, n: Node, depth: nat)
    requires Problem(native, kw, n, depth).Some? && (depth > MAX_DEPTH || n.raw.Number?)
    ensures Problem(native, kw, n, depth).value == [] && !Fine(native, n, depth)
  {
  }

  /** The problem of a node is that of the child `c`, behind the segments that lead to it. */
  ghost predicate Descends(steps: Relation, problem: (Node, nat) -> Option<seq<string>>, n: Node, d: nat, c: Child)
    requires problem(n, d).Some?
  {
    && steps(n, c) && problem(c.node, d + 1).Some?
    && problem(n, d).value == c.segments + problem(c.node, d + 1).value
  }

  /** A problem is at the node itself, or goes on to a child. */
  ghost predicate Located(
    steps: Relation, problem: (Node, nat) -> Option<seq<string>>, fine: (Node, nat) -> bool, m: Node, d: nat)
  {
    problem(m, d).Some? ==>
      || (problem(m, d).value == [] && !fine(m, d))
      || (d <= MAX_DEPTH && exists c :: Descends(steps, problem, m, d, c))
  }

  ghost predicate Locates(steps: Relation, problem: (Node, nat) -> Option<seq<string>>, fine: (Node, nat) -> bool) {
    forall m: Node, d: nat :: Located(steps, problem, fine, m, d)
  }

  lemma {:induction false} PathOfProblem(
    steps: Relation, problem: (Node, nat) -> Option<seq<string>>, fine: (Node, nat) -> bool, n: Node, depth: nat)
    returns (path: seq<Child>)
    requires problem(n, depth).Some? && Locates(steps, problem, fine)
    ensures Chain(steps, n, path) && PathLabel(path) == problem(n, depth).value
    ensures !fine(Target(n, path), depth + |path|)
    decreases Remaining(depth)
  {
    assert Located(steps, problem, fine, n, depth);
    if problem(n, depth).value == [] && !fine(n, depth) {
      path := [];
    } else {
      var c :| Descends(steps, problem, n, depth, c);
      var rest := PathOfProblem(steps, problem, fine, c.node, depth + 1);
      ChainCons(steps, n, c, rest);
      path := [c] + rest;
      assert depth + |path| == depth + 1 + |rest|;
    }
  }

  lemma {:induction false} ProblemsAreLocated(
    native: Native, kw: Keywords, problem: (Node, nat) -> Option<seq<string>>, fine: (Node, nat) -> bool)
    requires forall m: Node, d: nat :: problem(m, d) == Problem(native, kw, m, d)
    requires forall m: Node, d: nat :: fine(m, d) == Fine(native, m, d)
    ensures Locates(Steps(kw), problem, fine)
  {
    forall m: Node, d: nat
      ensures Located(Steps(kw), problem, fine, m, d)
    {
      if problem(m, d).Some? {
        if d > MAX_DEPTH || m.raw.Number? {
          ProblemHere(native, kw, m, d);
        } else {
          var c := ProblemBelow(native, kw, m, d);
          assert Descends(Steps(kw), problem, m, d, c);
        }
      }
    }
  }

  /** A reported path leads to a reachable node that is not fine. */
  lemma {:induction false} ProblemIsReachable(native: Native, kw: Keywords, n: Node, depth: nat)
    returns (path: seq<Child>)
    requires Problem(native, kw, n, depth).Some?
    ensures Chain(Steps(kw), n, path) && PathLabel(path) == Problem(native, kw, n, depth).value
    ensures !Fine(native, Target(n, path), depth + |path|)
  {
    var problem := (m: Node, d: nat) => Problem(native, kw, m, d);
    var fine := (m: Node, d: nat) => Fine(native, m, d);
    ProblemsAreLocated(native, kw, problem, fine);
    path := PathOfProblem(Steps(kw), problem, fine, n, depth);
  }

  /** The search reports nothing exactly when every node reachable through the listed keywords is at
      depth at most 64 and every reachable number keeps its value. */
  lemma SearchExact(native: Native, kw: Keywords, n: Node)
    ensures Problem(native, kw, n, 0).None? <==>
            forall path :: Chain(Steps(kw), n, path) ==> Fine(native, Target(n, path), |path|)
  {
    if Problem(native, kw, n, 0).None? {
      forall path | Chain(Steps(kw), n, path)
        ensures Fine(native, Target(n, path), |path|)
      {
        NoProblemMeansFine(native, kw, n, 0, path);
      }
    } else {
      var path := ProblemIsReachable(native, kw, n, 0);
    }
  }

  /** What keeping a value means: when the native text is itself a representable number, a lexeme is kept
      exactly when it is representable and denotes the same rational. */
  lemma KeptMeansSameRational(native: Native, l: Numbers.Lexeme, printed: Numbers.Lexeme)
    requires Numbers.WellFormed(l) && Numbers.WellFormed(printed) && Numbers.Representable(printed)
    requires native(Numbers.LexemeText(l)) == Some(Numbers.LexemeText(printed))
    ensures Kept(native, Numbers.LexemeText(l)) <==> Numbers.Representable(l) && Numbers.SameNumber(l, printed)
  {
    Numbers.DecimalExact(l);
    Numbers.DecimalExact(printed);
    Numbers.NormalFormsAgree(l, printed);
  }

  /** A zero keeps its value whatever its exponent, yet it is reported when that exponent does not fit i64. */
  lemma ZerosKeptExactly(native: Native, l: Numbers.Lexeme, printed: Numbers.Lexeme)
    requires Numbers.WellFormed(l) && Numbers.WellFormed(printed) && Numbers.Representable(printed)
    requires Numbers.Mantissa(l) == 0 && Numbers.Mantissa(printed) == 0
    requires native(Numbers.LexemeText(l)) == Some(Numbers.LexemeText(printed))
    ensures Numbers.SameNumber(l, printed)
    ensures Kept(native, Numbers.LexemeText(l)) <==>
            Numbers.InI64(Numbers.ExponentValue(l)) && Numbers.InI64(Numbers.Scale(l))
  {
    KeptMeansSameRational(native, l, printed);
    Numbers.SameNumberZero(l, printed);
  }

  /** The zero `0e10000000000000000000`, which native parsing prints as `0.0`, is reported at its own path. */
  lemma HugeZeroIsReported(native: Native, kw: Keywords, l: Numbers.Lexeme, printed: Numbers.Lexeme, n: Node)
    requires l == Numbers.Lexeme(
      false, "0", None, Some(Numbers.Exponent(false, Numbers.NoSign, ['1'] + "0000000000000000000")))
    requires printed == Numbers.Lexeme(false, "0", Some("0"), None)
    requires native(Numbers.LexemeText(l)) == Some(Numbers.LexemeText(printed))
    requires n.raw == Number(Numbers.LexemeText(l))
    ensures Numbers.WellFormed(l) && Numbers.WellFormed(printed) && Numbers.SameNumber(l, printed)
    ensures Problem(native, kw, n, 0) == Some([])
  {
    TenToTheNineteenth("0000000000000000000");
    ZeroTexts(printed);
    ZeroTexts(l);
    ZerosKeptExactly(native, l, printed);
  }

  lemma ZeroTexts(l: Numbers.Lexeme)
    requires Numbers.WellFormed(l) && l.integer == "0" && (l.fraction == None || l.fraction == Some("0"))
    ensures Numbers.Mantissa(l) == 0
    ensures l.exponent.None? ==> Numbers.Representable(l)
  {
    assert "0" + "" == "0" && "0"[..0] == "" && "00"[..1] == "0" && "0" + "0" == "00";
  }

  lemma TenToTheNineteenth(zeros: string)
    requires zeros == "0000000000000000000"
    ensures Digits.AllDigits(['1'] + zeros) && !Numbers.InI64(Digits.ToNat(['1'] + zeros))
  {
    Digits.ToNatConcat(['1'], zeros);
    assert ['1'][..0] == "";
    assert Digits.ToNat(['1']) == 1;
    Numbers.Pow10Adds(4, 4);
    Numbers.Pow10Adds(8, 8);
    Numbers.Pow10Adds(16, 3);
    assert Digits.Pow10(4) == 10 * (10 * (10 * (10 * Digits.Pow10(0))));
    assert Digits.Pow10(3) == 10 * (10 * (10 * Digits.Pow10(0)));
  }

  // ----- The schemas of a request body

  function At(v: Option<Raw>, key: string): Option<Raw> {
    if v.Some? then Member(v.value, key) else None
  }

  /** The strict parameters schema of one tool, read from its nested function object if it has one. */
  function ToolSchema(t: Raw): Option<Raw> {
    var nested := Member(t, "function");
    var definition := if nested.Some? && nested.value.Object? then nested.value else t;
    if Member(definition, "strict") == Some(Scalar("true")) then Member(definition, "parameters") else None
  }

  function FormatSchemas(root: Raw): seq<Raw> {
    var chat := At(At(Member(root, "response_format"), "json_schema"), "schema");
    var responses := At(At(Member(root, "text"), "format"), "schema");
    (if chat.Some? then [chat.value] else []) + (if responses.Some? then [responses.value] else [])
  }

  function ToolSchemas(tools: seq<Raw>): seq<Raw> {
    if tools == [] then []
    else
      var s := ToolSchema(tools[|tools| - 1]);
      ToolSchemas(tools[..|tools| - 1]) + if s.Some? then [s.value] else []
  }

  function Schemas(root: Raw): seq<Raw> {
    var tools := Member(root, "tools");
    FormatSchemas(root) + if tools.Some? && tools.value.Array? then ToolSchemas(tools.value.items) else []
  }

  method GatherSchemas(root: Raw) returns (schemas: seq<Raw>)
    ensures schemas == Schemas(root)
  {
    schemas := FormatSchemas(root);
    var tools := Member(root, "tools");
    if tools.Some? && tools.value.Array? {
      var items := tools.value.items;
      ghost var opening := schemas;
      for i := 0 to |items|
        invariant schemas == opening + ToolSchemas(items[..i])
      {
        assert items[..i + 1][..i] == items[..i];
        var s := ToolSchema(items[i]);
        if s.Some? {
          schemas := schemas + [s.value];
        }
      }
      assert items[..|items|] == items;
    }
  }

  /** Nothing reachable from a schema is too deep or loses its value. */
  ghost predicate Preserved(native: Native, kw: Keywords, schema: Raw) {
    forall path :: Chain(Steps(kw), Node(schema, false), path) ==>
      Fine(native, Target(Node(schema, false), path), |path|)
  }

  method Search(native: Native, kw: Keywords, schema: Raw) returns (ok: bool)
    ensures ok <==> Preserved(native, kw, schema)
  {
    SearchExact(native, kw, Node(schema, false));
    ok := Problem(native, kw, Node(schema, false), 0).None?;
  }

  method SearchAll(native: Native, kw: Keywords, schemas: seq<Raw>) returns (ok: bool)
    ensures ok <==> forall s :: s in schemas ==> Preserved(native, kw, s)
  {
    for i := 0 to |schemas|
      invariant forall s :: s in schemas[..i] ==> Preserved(native, kw, s)
    {
      var fine := Search(native, kw, schemas[i]);
      if !fine {
        return false;
      }
      assert schemas[..i + 1] == schemas[..i] + [schemas[i]];
    }
    assert schemas[..|schemas|] == schemas;
    return true;
  }

  /** Admission of a request body: every gathered schema is searched from depth zero. */
  method Validate(native: Native, root: Raw) returns (ok: bool)
    ensures ok <==> forall s :: s in Schemas(root) ==> Preserved(native, LISTED, s)
  {
    var schemas := GatherSchemas(root);
    ok := SearchAll(native, LISTED, schemas);
  }
}
