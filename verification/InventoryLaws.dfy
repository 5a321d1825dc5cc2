/** The validators and the binding contract describe the same inventory. */
module InventoryLaws {
  import opened Wrappers
  import opened Inventory
  import CheckedU64

  /** The number of elements of a shape, over unbounded integers. */
  ghost function Volume(s: Shape): nat {
    if s == [] then 1
    else
      var rest := Volume(s[1..]);
      ProductNonNegative(s[0], rest);
      s[0] * rest
  }

  lemma ProductNonNegative(a: nat, b: nat)
    ensures 0 <= a * b
  {
  }

  lemma Volumes(a: nat, b: nat)
    ensures Volume([a]) == a && Volume([a, b]) == a * b == b * a
  {
    assert Volume([]) == 1 && [a][1..] == [] && [a, b][1..] == [b] && [b][1..] == [];
    assert b * 1 == b && a * 1 == a;
  }

  /** The contract has a shape whose element count fits u64. */
  ghost predicate Fits(o: Outcome) {
    o.Some? && o.value.Some? && IsU64(Volume(o.value.value))
  }

  /** Where the contract describes a parameter at all, the validators compute its count exactly when the
      shape fits, and then the count is the shape's. */
  ghost predicate Agrees(r: Row, o: Outcome) {
    r.Need? && o.Some? && o.value.Some? ==>
      && (Fits(o) <==> r.count.Some?)
      && (Fits(o) ==> r.count == Some(Volume(o.value.value)))
  }

  predicate Passes(rows: seq<Row>) {
    forall i :: 0 <= i < |rows| ==> if rows[i].Need? then rows[i].count.Some? else rows[i].ok
  }

  /** Wherever the contract has a shape it stands and falls with the required count, and when the validator
      passes every required parameter has a fitting contract shape. The second half may lean on what steps outside
      these rows establish. */
  ghost predicate ExactGiven(rows: seq<Row>, f: Name -> Outcome, ready: bool) {
    && (forall i :: 0 <= i < |rows| && rows[i].Need? ==> Agrees(rows[i], f(rows[i].name)))
    && (ready && Passes(rows) ==> forall i :: 0 <= i < |rows| && rows[i].Need? ==> Fits(f(rows[i].name)))
  }

  ghost predicate Exact(rows: seq<Row>, f: Name -> Outcome) {
    ExactGiven(rows, f, true)
  }

  lemma PassesParts(a: seq<Row>, b: seq<Row>)
    requires Passes(a + b)
    ensures Passes(a) && Passes(b)
  {
    assert forall i :: 0 <= i < |a| ==> (a + b)[i] == a[i];
    assert forall i :: 0 <= i < |b| ==> (a + b)[|a| + i] == b[i];
  }

  lemma ExactConcat(a: seq<Row>, b: seq<Row>, f: Name -> Outcome, ready: bool)
    requires ExactGiven(a, f, ready) && ExactGiven(b, f, ready)
    ensures ExactGiven(a + b, f, ready)
  {
    if Passes(a + b) {
      PassesParts(a, b);
    }
  }

  lemma ExactWeaker(rows: seq<Row>, f: Name -> Outcome, ready: bool)
    requires Exact(rows, f)
    ensures ExactGiven(rows, f, ready)
  {
  }

  lemma ExactThree(a: seq<Row>, b: seq<Row>, c: seq<Row>, f: Name -> Outcome, ready: bool)
    requires ExactGiven(a, f, ready) && ExactGiven(b, f, ready) && ExactGiven(c, f, ready)
    ensures ExactGiven(a + b + c, f, ready)
  {
    ExactConcat(a, b, f, ready);
    ExactConcat(a + b, c, f, ready);
  }

  /** A group may use what its own first rows establish. */
  lemma ExactAfter(a: seq<Row>, b: seq<Row>, f: Name -> Outcome, ready: bool)
    requires ExactGiven(a, f, ready) && ExactGiven(b, f, ready) && (Passes(a) ==> ready)
    ensures Exact(a + b, f)
  {
    ExactConcat(a, b, f, ready);
    if Passes(a + b) {
      PassesParts(a, b);
    }
  }

  lemma ChecksExact(rows: seq<Row>, f: Name -> Outcome, ready: bool)
    requires forall i :: 0 <= i < |rows| ==> rows[i].Check?
    ensures ExactGiven(rows, f, ready)
  {
  }

  lemma OneExact(r: Row, f: Name -> Outcome)
    requires r.Need? && Same(r.count, f(r.name))
    ensures Exact([r], f)
  {
    if Passes([r]) {
      assert [r][0].Need?;
    }
  }

  lemma PassesUnder(prefix: Name, rows: seq<Row>)
    requires Passes(Under(prefix, rows))
    ensures Passes(rows)
  {
    assert forall i :: 0 <= i < |rows| ==> Under(prefix, rows)[i].Need? == rows[i].Need?;
  }

  lemma ExactUnder(prefix: Name, rows: seq<Row>, f: Name -> Outcome, g: Name -> Outcome)
    requires Exact(rows, f) && forall s :: g(prefix + s) == f(s)
    ensures Exact(Under(prefix, rows), g)
  {
    if Passes(Under(prefix, rows)) {
      PassesUnder(prefix, rows);
    }
  }

  // ----- Groups of one prefix

  /** A count and a contract outcome that stand and fall together. */
  ghost predicate Same(count: Option<nat>, o: Outcome) {
    (Fits(o) <==> count.Some?) && (Fits(o) ==> count.value == Volume(o.value.value))
  }

  /** A way of relating counts to outcomes, and what is asked of one. */
  type Link = (Option<nat>, Outcome) -> bool

  ghost predicate Links(same: Link) {
    && (forall a: nat, b: nat :: same(Mul(a, b), Shaped([a, b])) && same(Mul(b, a), Shaped([a, b])))
    && (forall a: nat :: IsU64(a) ==> same(Some(a), Shaped([a])))
    && (forall kernel: nat, h: nat :: h > 0 ==> same(Times(Mul(2, kernel), Some(h)), Shaped([2, kernel, h])))
    && same(None, None)
  }

  ghost function SameLink(): Link {
    (count: Option<nat>, o: Outcome) => Same(count, o)
  }

  lemma MulExact(a: nat, b: nat)
    ensures a * b == b * a >= 0
    ensures Mul(a, b) == Mul(b, a) == if IsU64(a * b) then Some(a * b) else None
  {
  }

  lemma PairSame(a: nat, b: nat)
    ensures Same(Mul(a, b), Shaped([a, b])) && Same(Mul(b, a), Shaped([a, b]))
  {
    MulExact(a, b);
    Volumes(a, b);
  }

  lemma SingleSame(a: nat)
    requires IsU64(a)
    ensures Same(Some(a), Shaped([a]))
  {
    Volumes(a, a);
  }

  lemma VolumeOfThree(a: nat, b: nat, c: nat)
    ensures Volume([a, b, c]) == a * (b * c)
  {
    Volumes(b, c);
    assert [a, b, c][1..] == [b, c];
  }

  /** The two ways of multiplying a convolution kernel out. */
  lemma KernelSame(kernel: nat, h: nat)
    requires h > 0
    ensures Same(Times(Mul(2, kernel), Some(h)), Shaped([2, kernel, h]))
  {
    var twice := 2 * kernel;
    MulExact(2, kernel);
    MulExact(twice, h);
    VolumeOfThree(2, kernel, h);
    assert twice * h == 2 * (kernel * h);
    assert twice * h == twice + twice * (h - 1);
  }

  lemma SameLinks()
    ensures Links(SameLink())
  {
    forall a: nat, b: nat
      ensures Same(Mul(a, b), Shaped([a, b])) && Same(Mul(b, a), Shaped([a, b]))
    {
      PairSame(a, b);
    }
    forall a: nat | IsU64(a)
      ensures Same(Some(a), Shaped([a]))
    {
      SingleSame(a);
    }
    forall kernel: nat, h: nat | h > 0
      ensures Same(Times(Mul(2, kernel), Some(h)), Shaped([2, kernel, h]))
    {
      KernelSame(kernel, h);
    }
  }

  lemma Pair(same: Link, a: nat, b: nat)
    requires Links(same)
    ensures same(Mul(a, b), Shaped([a, b])) && same(Mul(b, a), Shaped([a, b]))
  {
  }

  lemma Single(same: Link, a: nat)
    requires Links(same) && IsU64(a)
    ensures same(Some(a), Shaped([a]))
  {
  }

  /** What a group owes for one of its names: the two descriptions agree once the group's own dimensions are
      there, and the contract fails when they are not. */
  ghost predicate Owes(same: Link, ready: bool, count: Option<nat>, o: Outcome) {
    if ready then same(count, o) else o == None
  }

  ghost predicate OwesAll(
    same: Link, ready: bool, prefix: Name, lasts: seq<Segment>, count: Segment -> Option<nat>, f: Name -> Outcome) {
    forall i :: 0 <= i < |lasts| ==> Owes(same, ready, count(lasts[i]), f(prefix + [lasts[i]]))
  }

  /** Listed requirements are exact when each of them is owed. */
  lemma NeedsExact(
    prefix: Name, lasts: seq<Segment>, count: Segment -> Option<nat>, f: Name -> Outcome, ready: bool)
    requires OwesAll(SameLink(), ready, prefix, lasts, count, f)
    ensures ExactGiven(Needs(prefix, lasts, count), f, ready)
  {
    var rows := Needs(prefix, lasts, count);
    forall i | 0 <= i < |lasts|
      ensures if ready then Same(count(lasts[i]), f(prefix + [lasts[i]])) else !Fits(f(prefix + [lasts[i]]))
    {
      assert Owes(SameLink(), ready, count(lasts[i]), f(prefix + [lasts[i]]));
    }
    if Passes(rows) {
      assert forall i :: 0 <= i < |lasts| ==> rows[i].Need?;
    }
  }

  /** The group's own rows often establish what it needs. */
  lemma ReadyExact(
    prefix: Name, lasts: seq<Segment>, count: Segment -> Option<nat>, f: Name -> Outcome, ready: bool, i: nat, j: nat)
    requires OwesAll(SameLink(), ready, prefix, lasts, count, f)
    requires i < |lasts| && j < |lasts| && (count(lasts[i]).Some? && count(lasts[j]).Some? ==> ready)
    ensures Exact(Needs(prefix, lasts, count), f)
  {
    NeedsExact(prefix, lasts, count, f, ready);
    var rows := Needs(prefix, lasts, count);
    if Passes(rows) {
      assert rows[i].Need? && rows[j].Need?;
    }
  }

  function Layered(component: Segment, c: Config, h: nat): Name -> Outcome {
    (s: Name) => LayerShape(component, c, h, s)
  }

  predicate GdnReady(c: Config) {
    GdnKeyWidth(c).Some? && GdnValueWidth(c).Some?
  }

  lemma GdnKeys(same: Link, c: Config, h: nat, last: Segment)
    requires Links(same) && (last == Query || last == Key)
    ensures Owes(same, GdnReady(c), GdnCount(c, Some(h), last), GdnShape(c, h, [Gdn, last]))
  {
    if GdnReady(c) {
      Pair(same, GdnKeyWidth(c).value, h);
    }
  }

  lemma GdnValues(same: Link, c: Config, h: nat, last: Segment)
    requires Links(same) && (last == Value || last == Z || last == Output)
    ensures Owes(same, GdnReady(c), GdnCount(c, Some(h), last), GdnShape(c, h, [Gdn, last]))
  {
    if GdnReady(c) {
      Pair(same, GdnValueWidth(c).value, h);
      Pair(same, h, GdnValueWidth(c).value);
    }
  }

  lemma GdnHeads(same: Link, c: Config, h: nat, last: Segment)
    requires Links(same) && (last == AProjection || last == BProjection || last == ALog || last == DtBias)
    ensures Owes(same, GdnReady(c), GdnCount(c, Some(h), last), GdnShape(c, h, [Gdn, last]))
  {
    if GdnReady(c) {
      Pair(same, Dim(c, LinearNumValueHeads).value, h);
      Single(same, Dim(c, LinearNumValueHeads).value);
    }
  }

  lemma GdnNorm(same: Link, c: Config, h: nat)
    requires Links(same)
    ensures Owes(same, GdnReady(c), GdnCount(c, Some(h), Norm), GdnShape(c, h, [Gdn, Norm]))
  {
    if GdnReady(c) && Dim(c, LinearValueHeadDim).Some? {
      Single(same, Dim(c, LinearValueHeadDim).value);
    }
  }

  lemma GdnConvolutionShape(c: Config, h: nat)
    ensures GdnReady(c) ==>
              GdnShape(c, h, [Gdn, Convolution]) ==
              if Dim(c, LinearConvKernelDim).None? || GdnConvolutionWidth(c).None? then None
              else Shaped([Dim(c, LinearConvKernelDim).value, GdnConvolutionWidth(c).value])
    ensures !GdnReady(c) ==> GdnShape(c, h, [Gdn, Convolution]) == None
  {
  }

  lemma GdnConvolution(same: Link, c: Config, h: nat)
    requires Links(same)
    ensures Owes(same, GdnReady(c), GdnCount(c, Some(h), Convolution), GdnShape(c, h, [Gdn, Convolution]))
  {
    var kernel, width := Dim(c, LinearConvKernelDim), GdnConvolutionWidth(c);
    GdnConvolutionShape(c, h);
    assert GdnCount(c, Some(h), Convolution) == Times(kernel, width);
    if kernel.Some? && width.Some? {
      Pair(same, kernel.value, width.value);
    }
  }

  lemma GdnContract(component: Segment, c: Config, h: nat, last: Segment)
    ensures LayerShape(component, c, h, [Gdn] + [last]) == GdnShape(c, h, [Gdn, last])
  {
    assert [Gdn] + [last] == [Gdn, last];
  }

  lemma GdnLast(same: Link, component: Segment, c: Config, h: nat, i: nat)
    requires Links(same) && i < |GDN|
    ensures Owes(same, GdnReady(c), GdnCount(c, Some(h), GDN[i]), LayerShape(component, c, h, [Gdn] + [GDN[i]]))
  {
    GdnContract(component, c, h, GDN[i]);
    if i < 2 {
      GdnKeys(same, c, h, GDN[i]);
    } else if i < 4 || i == 10 {
      GdnValues(same, c, h, GDN[i]);
    } else if i < 8 {
      GdnHeads(same, c, h, GDN[i]);
    } else if i == 8 {
      GdnConvolution(same, c, h);
    } else {
      GdnNorm(same, c, h);
    }
  }

  lemma GdnOwes(same: Link, component: Segment, c: Config, h: nat, count: Segment -> Option<nat>)
    requires Links(same) && forall l :: count(l) == GdnCount(c, Some(h), l)
    ensures OwesAll(same, GdnReady(c), [Gdn], GDN, count, Layered(component, c, h))
  {
    forall i | 0 <= i < |GDN|
      ensures Owes(same, GdnReady(c), count(GDN[i]), Layered(component, c, h)([Gdn] + [GDN[i]]))
    {
      GdnLast(same, component, c, h, i);
    }
  }

  lemma GdnCountsReady(c: Config, h: nat, count: Segment -> Option<nat>)
    requires forall l :: count(l) == GdnCount(c, Some(h), l)
    ensures count(GDN[0]).Some? && count(GDN[2]).Some? ==> GdnReady(c)
  {
    assert GDN[0] == Query && GDN[2] == Value;
  }

  lemma GdnNeedsExact(component: Segment, c: Config, h: nat, count: Segment -> Option<nat>)
    requires forall l :: count(l) == GdnCount(c, Some(h), l)
    ensures Exact(Needs([Gdn], GDN, count), Layered(component, c, h))
  {
    SameLinks();
    GdnOwes(SameLink(), component, c, h, count);
    GdnCountsReady(c, h, count);
    ReadyExact([Gdn], GDN, count, Layered(component, c, h), GdnReady(c), 0, 2);
  }

  lemma GdnExact(component: Segment, c: Config, h: nat)
    ensures Exact(GdnRows(c, Some(h)), Layered(component, c, h))
  {
    var count := (l: Segment) => GdnCount(c, Some(h), l);
    GdnNeedsExact(component, c, h, count);
    ChecksExact([GdnCheck(c)], Layered(component, c, h), true);
    ExactConcat([GdnCheck(c)], Needs([Gdn], GDN, count), Layered(component, c, h), true);
  }

  lemma AttentionMatrix(same: Link, c: Config, h: nat, last: Segment)
    requires Links(same) && last in [Query, Gate, Key, Value, ContextKey, ContextValue]
    ensures Owes(
      same, AttentionDims(c).Some?, AttentionCount(c, Some(h), last), AttentionShape(c, h, [Attention, last]))
  {
    if AttentionDims(c).Some? {
      Pair(same, AttentionDims(c).value.0, h);
      Pair(same, AttentionDims(c).value.1, h);
    }
  }

  lemma AttentionOutput(same: Link, c: Config, h: nat)
    requires Links(same)
    ensures Owes(
      same, AttentionDims(c).Some?, AttentionCount(c, Some(h), Output), AttentionShape(c, h, [Attention, Output]))
  {
    if AttentionDims(c).Some? {
      Pair(same, h, AttentionDims(c).value.0);
    }
  }

  lemma AttentionNorm(same: Link, c: Config, h: nat, last: Segment)
    requires Links(same) && (last == QueryNorm || last == KeyNorm)
    ensures Owes(
      same, AttentionDims(c).Some?, AttentionCount(c, Some(h), last), AttentionShape(c, h, [Attention, last]))
  {
    if AttentionDims(c).Some? {
      Single(same, AttentionDims(c).value.2);
    }
  }

  lemma AttentionLast(same: Link, c: Config, h: nat, last: Segment)
    requires Links(same) && (last in ATTENTION || last in DRAFT_ATTENTION)
    ensures Owes(
      same, AttentionDims(c).Some?, AttentionCount(c, Some(h), last), AttentionShape(c, h, [Attention, last]))
  {
    if last == Output {
      AttentionOutput(same, c, h);
    } else if last == QueryNorm || last == KeyNorm {
      AttentionNorm(same, c, h, last);
    } else {
      AttentionMatrix(same, c, h, last);
    }
  }

  lemma AttentionOwes(
    same: Link, component: Segment, c: Config, h: nat, lasts: seq<Segment>, count: Segment -> Option<nat>)
    requires Links(same) && (lasts == ATTENTION || lasts == DRAFT_ATTENTION)
    requires forall l :: count(l) == AttentionCount(c, Some(h), l)
    ensures OwesAll(same, AttentionDims(c).Some?, [Attention], lasts, count, Layered(component, c, h))
  {
    forall i | 0 <= i < |lasts|
      ensures Owes(
        same, AttentionDims(c).Some?, count(lasts[i]), Layered(component, c, h)([Attention] + [lasts[i]]))
    {
      AttentionLast(same, c, h, lasts[i]);
      assert [Attention] + [lasts[i]] == [Attention, lasts[i]];
    }
  }

  lemma AttentionExact(component: Segment, c: Config, h: nat, lasts: seq<Segment>)
    requires lasts == ATTENTION || lasts == DRAFT_ATTENTION
    ensures Exact(AttentionRows(c, Some(h), lasts), Layered(component, c, h))
  {
    var count, f := (l: Segment) => AttentionCount(c, Some(h), l), Layered(component, c, h);
    SameLinks();
    AttentionOwes(SameLink(), component, c, h, lasts, count);
    assert count(lasts[0]) == AttentionCount(c, Some(h), Query);
    ReadyExact([Attention], lasts, count, f, AttentionDims(c).Some?, 0, 0);
  }

  /** Gate, up and down projections of one width. */
  lemma FeedForwardLast(same: Link, width: nat, h: nat, last: Segment)
    requires Links(same) && last in FEED_FORWARD
    ensures same(Mul(width, h), FeedForwardShape(width, h, last))
  {
    Pair(same, width, h);
    Pair(same, h, width);
  }

  /** A feed-forward group under a prefix whose contract is that of one width. */
  lemma FeedForwardOwes(same: Link, ready: bool, prefix: Name, width: Option<nat>, h: nat, f: Name -> Outcome)
    requires Links(same) && (ready ==> width.Some?)
    requires forall last :: last in FEED_FORWARD ==>
               f(prefix + [last]) == if ready then FeedForwardShape(width.value, h, last) else None
    ensures OwesAll(same, ready, prefix, FEED_FORWARD, Constant(Times(width, Some(h))), f)
  {
    forall i | 0 <= i < |FEED_FORWARD|
      ensures Owes(same, ready, Times(width, Some(h)), f(prefix + [FEED_FORWARD[i]]))
    {
      assert FEED_FORWARD[i] in FEED_FORWARD;
      if ready {
        FeedForwardLast(same, width.value, h, FEED_FORWARD[i]);
      }
    }
  }

  lemma MlpContract(component: Segment, c: Config, h: nat, last: Segment)
    requires last in FEED_FORWARD
    ensures LayerShape(component, c, h, [Mlp] + [last]) ==
            if Dim(c, IntermediateSize).Some? then FeedForwardShape(Dim(c, IntermediateSize).value, h, last) else None
  {
    assert [Mlp] + [last] == [Mlp, last];
  }

  lemma MlpExact(component: Segment, c: Config, h: nat)
    ensures Exact(MlpRows(c, Some(h)), Layered(component, c, h))
  {
    var width := Dim(c, IntermediateSize);
    var count, f := Constant(Times(width, Some(h))), Layered(component, c, h);
    forall last | last in FEED_FORWARD
      ensures f([Mlp] + [last]) == if width.Some? then FeedForwardShape(width.value, h, last) else None
    {
      MlpContract(component, c, h, last);
    }
    SameLinks();
    FeedForwardOwes(SameLink(), width.Some?, [Mlp], width, h, f);
    ReadyExact([Mlp], FEED_FORWARD, count, f, width.Some?, 0, 0);
  }

  predicate MoeReady(c: Config) {
    Dim(c, MoeIntermediateSize).Some? && Dim(c, SharedExpertIntermediateSize).Some?
  }

  lemma ExpertContract(component: Segment, c: Config, h: nat, i: nat, last: Segment)
    requires last in FEED_FORWARD
    ensures LayerShape(component, c, h, [Moe, Experts, Index(i)] + [last]) ==
            if MoeReady(c) then FeedForwardShape(Dim(c, MoeIntermediateSize).value, h, last) else None
  {
    assert [Moe, Experts, Index(i)] + [last] == [Moe, Experts, Index(i), last];
  }

  lemma SharedContract(component: Segment, c: Config, h: nat, last: Segment)
    requires last in FEED_FORWARD
    ensures LayerShape(component, c, h, [Moe, Shared] + [last]) ==
            if MoeReady(c) then FeedForwardShape(Dim(c, SharedExpertIntermediateSize).value, h, last) else None
  {
    assert [Moe, Shared] + [last] == [Moe, Shared, last];
  }

  lemma ExpertExact(component: Segment, c: Config, h: nat, i: nat)
    ensures ExactGiven(
      Needs([Moe, Experts, Index(i)], FEED_FORWARD, Constant(Times(Dim(c, MoeIntermediateSize), Some(h)))),
      Layered(component, c, h), MoeReady(c))
  {
    var prefix, width, f := [Moe, Experts, Index(i)], Dim(c, MoeIntermediateSize), Layered(component, c, h);
    forall last | last in FEED_FORWARD
      ensures f(prefix + [last]) == if MoeReady(c) then FeedForwardShape(width.value, h, last) else None
    {
      ExpertContract(component, c, h, i, last);
    }
    SameLinks();
    FeedForwardOwes(SameLink(), MoeReady(c), prefix, width, h, f);
    NeedsExact(prefix, FEED_FORWARD, Constant(Times(width, Some(h))), f, MoeReady(c));
  }

  lemma {:induction false} ExpertsConcat(count: Option<nat>, experts: nat, f: Name -> Outcome, ready: bool)
    requires forall i :: 0 <= i < experts ==>
               ExactGiven(Needs([Moe, Experts, Index(i)], FEED_FORWARD, Constant(count)), f, ready)
    ensures ExactGiven(ExpertRows(count, experts), f, ready)
  {
    if experts > 0 {
      ExpertsConcat(count, experts - 1, f, ready);
      ExactConcat(
        ExpertRows(count, experts - 1), Needs([Moe, Experts, Index(experts - 1)], FEED_FORWARD, Constant(count)),
        f, ready);
    }
  }

  lemma ExpertsExact(component: Segment, c: Config, h: nat, experts: nat)
    ensures ExactGiven(
      ExpertRows(Times(Dim(c, MoeIntermediateSize), Some(h)), experts), Layered(component, c, h), MoeReady(c))
  {
    var count, f := Times(Dim(c, MoeIntermediateSize), Some(h)), Layered(component, c, h);
    forall i | 0 <= i < experts
      ensures ExactGiven(Needs([Moe, Experts, Index(i)], FEED_FORWARD, Constant(count)), f, MoeReady(c))
    {
      ExpertExact(component, c, h, i);
    }
    ExpertsConcat(count, experts, f, MoeReady(c));
  }

  lemma SharedExact(component: Segment, c: Config, h: nat)
    ensures ExactGiven(
      Needs([Moe, Shared], FEED_FORWARD, Constant(Times(Dim(c, SharedExpertIntermediateSize), Some(h)))),
      Layered(component, c, h), MoeReady(c))
  {
    var width, f := Dim(c, SharedExpertIntermediateSize), Layered(component, c, h);
    forall last | last in FEED_FORWARD
      ensures f([Moe, Shared] + [last]) == if MoeReady(c) then FeedForwardShape(width.value, h, last) else None
    {
      SharedContract(component, c, h, last);
    }
    SameLinks();
    FeedForwardOwes(SameLink(), MoeReady(c), [Moe, Shared], width, h, f);
    NeedsExact([Moe, Shared], FEED_FORWARD, Constant(Times(width, Some(h))), f, MoeReady(c));
  }

  lemma RouterLast(same: Link, c: Config, h: nat)
    requires Links(same)
    ensures Owes(same, MoeReady(c), MoeCount(c, Some(h), Router), MoeShape(c, h, [Moe, Router]))
  {
    if Dim(c, NumExperts).Some? {
      Pair(same, Dim(c, NumExperts).value, h);
    }
  }

  lemma SharedScoreLast(same: Link, c: Config, h: nat)
    requires Links(same) && IsU64(h)
    ensures Owes(same, MoeReady(c), MoeCount(c, Some(h), SharedScore), MoeShape(c, h, [Moe, SharedScore]))
  {
    Pair(same, 1, h);
    assert Mul(1, h) == Some(h);
  }

  lemma RouterOwes(same: Link, component: Segment, c: Config, h: nat, last: Segment)
    requires Links(same) && IsU64(h) && (last == Router || last == SharedScore)
    ensures Owes(same, MoeReady(c), MoeCount(c, Some(h), last), LayerShape(component, c, h, [Moe] + [last]))
  {
    assert [Moe] + [last] == [Moe, last];
    if last == Router {
      RouterLast(same, c, h);
    } else {
      SharedScoreLast(same, c, h);
    }
  }

  lemma RouterExact(component: Segment, c: Config, h: nat)
    requires IsU64(h)
    ensures ExactGiven(
      Needs([Moe], [Router, SharedScore], (l: Segment) => MoeCount(c, Some(h), l)), Layered(component, c, h),
      MoeReady(c))
  {
    var count, f, lasts := (l: Segment) => MoeCount(c, Some(h), l), Layered(component, c, h), [Router, SharedScore];
    SameLinks();
    forall i | 0 <= i < |lasts|
      ensures Owes(SameLink(), MoeReady(c), count(lasts[i]), f([Moe] + [lasts[i]]))
    {
      RouterOwes(SameLink(), component, c, h, lasts[i]);
    }
    NeedsExact([Moe], lasts, count, f, MoeReady(c));
  }

  lemma MoeBodyExact(component: Segment, c: Config, h: nat)
    requires IsU64(h)
    ensures ExactGiven(MoeBody(c, Some(h)), Layered(component, c, h), MoeReady(c))
  {
    var f := Layered(component, c, h);
    var router := Needs([Moe], [Router, SharedScore], (l: Segment) => MoeCount(c, Some(h), l));
    var experts := ExpertRows(Times(Dim(c, MoeIntermediateSize), Some(h)), BoundedExperts(c));
    var shared := Needs([Moe, Shared], FEED_FORWARD, Constant(Times(Dim(c, SharedExpertIntermediateSize), Some(h))));
    RouterExact(component, c, h);
    ExpertsExact(component, c, h, BoundedExperts(c));
    SharedExact(component, c, h);
    ExactThree(router, experts, shared, f, MoeReady(c));
  }

  lemma MoeChecksReady(c: Config)
    ensures Passes(MoeChecks(c)) ==> MoeReady(c)
  {
    if Passes(MoeChecks(c)) {
      assert MoeChecks(c)[2].ok;
    }
  }

  lemma MoeExact(component: Segment, c: Config, h: nat)
    requires IsU64(h)
    ensures Exact(MoeRows(c, Some(h)), Layered(component, c, h))
  {
    var f := Layered(component, c, h);
    MoeBodyExact(component, c, h);
    MoeChecksReady(c);
    ChecksExact(MoeChecks(c), f, MoeReady(c));
    ExactAfter(MoeChecks(c), MoeBody(c, Some(h)), f, MoeReady(c));
  }

  /** Requirements that share one count and one shape of that count. */
  lemma ConstantExact(prefix: Name, lasts: seq<Segment>, count: Option<nat>, f: Name -> Outcome, o: Outcome)
    requires Same(count, o) && forall i :: 0 <= i < |lasts| ==> f(prefix + [lasts[i]]) == o
    ensures Exact(Needs(prefix, lasts, Constant(count)), f)
  {
    NeedsExact(prefix, lasts, Constant(count), f, true);
  }

  lemma NormsExact(component: Segment, c: Config, h: nat)
    requires IsU64(h)
    ensures Exact(Needs([], [InputNorm, PostAttentionNorm], Constant(Some(h))), Layered(component, c, h))
  {
    SingleSame(h);
    ConstantExact([], [InputNorm, PostAttentionNorm], Some(h), Layered(component, c, h), Shaped([h]));
  }

  lemma BlockExact(component: Segment, c: Config, h: nat, linear: bool)
    requires IsU64(h)
    ensures Exact(BlockRows(c, Some(h), linear), Layered(component, c, h))
  {
    var f := Layered(component, c, h);
    var norms := Needs([], [InputNorm, PostAttentionNorm], Constant(Some(h)));
    var mixer := if linear then GdnRows(c, Some(h)) else AttentionRows(c, Some(h), ATTENTION);
    var ffn := if c.moe then MoeRows(c, Some(h)) else [DenseCheck(c)] + MlpRows(c, Some(h));
    NormsExact(component, c, h);
    GdnExact(component, c, h);
    AttentionExact(component, c, h, ATTENTION);
    MoeExact(component, c, h);
    MlpExact(component, c, h);
    ExactConcat([DenseCheck(c)], MlpRows(c, Some(h)), f, true);
    ExactThree(norms, mixer, ffn, f, true);
  }

  lemma DraftLayerExact(component: Segment, c: Config, h: nat)
    requires IsU64(h)
    ensures Exact(DraftLayer(c, Some(h)), Layered(component, c, h))
  {
    var f, norms := Layered(component, c, h), Needs([], [InputNorm, PostAttentionNorm], Constant(Some(h)));
    var attention := AttentionRows(c, Some(h), DRAFT_ATTENTION);
    NormsExact(component, c, h);
    AttentionExact(component, c, h, DRAFT_ATTENTION);
    MlpExact(component, c, h);
    ExactConcat(norms, attention, f, true);
    ExactConcat(norms + attention, MlpRows(c, Some(h)), f, true);
  }

  lemma ConvBase(same: Link, c: Config, h: nat, word: Segment)
    requires Links(same) && h > 0 && word in {AttentionConv, MlpConv}
    ensures same(ConvCount(c, Some(h), BaseKernel), LayerShape(Dflash2, c, h, [word, BaseKernel]))
  {
  }

  lemma ConvContract(c: Config, h: nat, word: Segment, last: Segment)
    requires word in {AttentionConv, MlpConv}
    ensures LayerShape(Dflash2, c, h, [word, last]) == ConvShape(c, h, [word, last])
  {
  }

  function ConvProjectionRows(c: Config, h: nat): Option<nat> {
    Times(Times(Some(2), Dim(c, ConvKernelSize)), GroupCount(c, Some(h)))
  }

  lemma ConvProjectionShape(c: Config, h: nat, word: Segment)
    requires word in {AttentionConv, MlpConv}
    ensures ConvShape(c, h, [word, KernelProjection]) ==
            if ConvProjectionRows(c, h).None? then None else Shaped([ConvProjectionRows(c, h).value, h])
  {
  }

  lemma ConvProjection(same: Link, c: Config, h: nat, word: Segment)
    requires Links(same) && word in {AttentionConv, MlpConv}
    ensures same(ConvCount(c, Some(h), KernelProjection), LayerShape(Dflash2, c, h, [word, KernelProjection]))
  {
    ConvContract(c, h, word, KernelProjection);
    ConvProjectionShape(c, h, word);
    assert ConvCount(c, Some(h), KernelProjection) == Times(ConvProjectionRows(c, h), Some(h));
    if ConvProjectionRows(c, h).Some? {
      Pair(same, ConvProjectionRows(c, h).value, h);
    }
  }

  lemma ConvWord(c: Config, h: nat, word: Segment, count: Segment -> Option<nat>)
    requires h > 0 && word in {AttentionConv, MlpConv} && forall l :: count(l) == ConvCount(c, Some(h), l)
    ensures Exact(Needs([word], CONV, count), Layered(Dflash2, c, h))
  {
    SameLinks();
    forall i | 0 <= i < |CONV|
      ensures Owes(SameLink(), true, count(CONV[i]), Layered(Dflash2, c, h)([word] + [CONV[i]]))
    {
      assert [word] + [CONV[i]] == [word, CONV[i]];
      if i == 0 {
        ConvBase(SameLink(), c, h, word);
      } else {
        ConvProjection(SameLink(), c, h, word);
      }
    }
    NeedsExact([word], CONV, count, Layered(Dflash2, c, h), true);
  }

  lemma ConvExact(c: Config, h: nat)
    requires h > 0
    ensures Exact(ConvRows(c, Some(h)), Layered(Dflash2, c, h))
  {
    var count := (l: Segment) => ConvCount(c, Some(h), l);
    ConvWord(c, h, AttentionConv, count);
    ConvWord(c, h, MlpConv, count);
    ExactConcat(Needs([AttentionConv], CONV, count), Needs([MlpConv], CONV, count), Layered(Dflash2, c, h), true);
  }

  // ----- From parameter names to groups

  function Contracted(cs: Components): Name -> Outcome {
    (name: Name) => Contract(cs, name)
  }

  /** The hidden width the contract uses for a component with layers. */
  ghost predicate Hosts(cs: Components, component: Segment, c: Config, h: nat) {
    && component in {Text, Mtp, Dflash, Dflash2} && ConfigOf(component, cs) == Some(c)
    && Dim(cs.text, HiddenSize) == Some(h) && Dim(cs.text, VocabSize).Some?
    && (component in {Text, Mtp} ==> c == cs.text)
  }

  lemma LayerParameterOf(component: Segment, i: nat, s: Name)
    ensures LayerParameter([component, Layers, Index(i)] + s) == if s != [] && i <= MAX_U32 then Some(s) else None
  {
    var name := [component, Layers, Index(i)] + s;
    assert name[1] == Layers && name[2] == Index(i) && name[3..] == s;
  }

  lemma {:induction false} LayerDispatch(cs: Components, component: Segment, c: Config, h: nat, name: Name)
    requires Hosts(cs, component, c, h) && |name| >= 3 && name[0] == component && name[1] == Layers
    ensures Contract(cs, name) ==
            if LayerParameter(name).None? then UNKNOWN else LayerShape(component, c, h, LayerParameter(name).value)
  {
    assert name[1..][0] == Layers;
  }

  lemma LayerContract(cs: Components, component: Segment, c: Config, h: nat, i: nat, s: Name)
    requires Hosts(cs, component, c, h)
    ensures Contract(cs, [component, Layers, Index(i)] + s) ==
            if i <= MAX_U32 then LayerShape(component, c, h, s) else UNKNOWN
  {
    LayerParameterOf(component, i, s);
    LayerDispatch(cs, component, c, h, [component, Layers, Index(i)] + s);
  }

  lemma {:induction false} LayerExact(
    cs: Components, component: Segment, c: Config, h: nat, i: nat, rows: seq<Row>, ready: bool)
    requires Hosts(cs, component, c, h) && Exact(rows, Layered(component, c, h)) && (ready ==> i <= MAX_U32)
    ensures ExactGiven(Under([component, Layers, Index(i)], rows), Contracted(cs), ready)
  {
    var prefix := [component, Layers, Index(i)];
    if i <= MAX_U32 {
      forall s
        ensures Contracted(cs)(prefix + s) == Layered(component, c, h)(s)
      {
        LayerContract(cs, component, c, h, i, s);
      }
      ExactUnder(prefix, rows, Layered(component, c, h), Contracted(cs));
    } else {
      forall s
        ensures Contracted(cs)(prefix + s) == UNKNOWN
      {
        LayerContract(cs, component, c, h, i, s);
      }
    }
  }

  lemma {:induction false} RepeatedConcat(
    component: Segment, rows: seq<Row>, layers: nat, f: Name -> Outcome, ready: bool)
    requires forall i :: 0 <= i < layers ==> ExactGiven(Under([component, Layers, Index(i)], rows), f, ready)
    ensures ExactGiven(RepeatedRows(component, rows, layers), f, ready)
  {
    if layers > 0 {
      var before := RepeatedRows(component, rows, layers - 1);
      var last := Under([component, Layers, Index(layers - 1)], rows);
      RepeatedConcat(component, rows, layers - 1, f, ready);
      ExactConcat(before, last, f, ready);
    }
  }

  lemma RepeatedExact(
    cs: Components, component: Segment, c: Config, h: nat, rows: seq<Row>, layers: nat, ready: bool)
    requires Hosts(cs, component, c, h) && Exact(rows, Layered(component, c, h))
    requires ready ==> layers <= MAX_U32
    ensures ExactGiven(RepeatedRows(component, rows, layers), Contracted(cs), ready)
  {
    forall i | 0 <= i < layers
      ensures ExactGiven(Under([component, Layers, Index(i)], rows), Contracted(cs), ready)
    {
      LayerExact(cs, component, c, h, i, rows, ready);
    }
    RepeatedConcat(component, rows, layers, Contracted(cs), ready);
  }

  lemma CheckedLayerExact(cs: Components, h: nat, i: nat, check: Row, block: seq<Row>, ready: bool)
    requires Hosts(cs, Text, cs.text, h) && check.Check? && (ready ==> i <= MAX_U32)
    requires Exact(block, Layered(Text, cs.text, h))
    ensures ExactGiven([check] + Under([Text, Layers, Index(i)], block), Contracted(cs), ready)
  {
    LayerExact(cs, Text, cs.text, h, i, block, ready);
    ChecksExact([check], Contracted(cs), ready);
    ExactConcat([check], Under([Text, Layers, Index(i)], block), Contracted(cs), ready);
  }

  lemma TextLayerExact(cs: Components, h: nat, i: nat, ready: bool)
    requires Hosts(cs, Text, cs.text, h) && i < |cs.text.layers| && (ready ==> i <= MAX_U32)
    ensures ExactGiven(TextLayer(cs.text, Some(h), i), Contracted(cs), ready)
  {
    BlockExact(Text, cs.text, h, cs.text.layers[i].Linear?);
    CheckedLayerExact(
      cs, h, i, KindCheck(cs.text, i), BlockRows(cs.text, Some(h), cs.text.layers[i].Linear?), ready);
  }

  lemma {:induction false} LayersConcat(c: Config, h: Option<nat>, layers: nat, f: Name -> Outcome, ready: bool)
    requires layers <= |c.layers|
    requires forall i :: 0 <= i < layers ==> ExactGiven(TextLayer(c, h, i), f, ready)
    ensures ExactGiven(LayerRows(c, h, layers), f, ready)
  {
    if layers > 0 {
      LayersConcat(c, h, layers - 1, f, ready);
      ExactConcat(LayerRows(c, h, layers - 1), TextLayer(c, h, layers - 1), f, ready);
    }
  }

  lemma TextLayersExact(cs: Components, h: nat, ready: bool)
    requires Hosts(cs, Text, cs.text, h) && (ready ==> |cs.text.layers| <= MAX_U32)
    ensures ExactGiven(LayerRows(cs.text, Some(h), |cs.text.layers|), Contracted(cs), ready)
  {
    forall i | 0 <= i < |cs.text.layers|
      ensures ExactGiven(TextLayer(cs.text, Some(h), i), Contracted(cs), ready)
    {
      TextLayerExact(cs, h, i, ready);
    }
    LayersConcat(cs.text, Some(h), |cs.text.layers|, Contracted(cs), ready);
  }

  lemma Rearrange(h: nat, n: nat)
    requires h > 0
    ensures h * h * n == h * (n * h) && n * (h * h) == h * (n * h) && 0 <= n * h <= h * (n * h)
  {
    ProductNonNegative(n, h);
    ProductNonNegative(h - 1, n * h);
    assert h * (n * h) == n * h + (h - 1) * (n * h);
  }

  lemma SquareIsU64(h: nat)
    requires h <= MAX_U32
    ensures Mul(h, h) == Some(h * h)
  {
    CheckedU64.MulMonotone(h, h, MAX_U32);
    MulExact(h, h);
  }

  /** Square matrices scaled by a factor: the order of multiplication does not decide whether they fit. */
  lemma SquareSame(h: nat, n: nat)
    requires 0 < h <= MAX_U32
    ensures Same(Times(Mul(h, h), Some(n)), if Mul(n, h).Some? then Shaped([h, Mul(n, h).value]) else None)
    ensures Same(Times(Some(n), Mul(h, h)), if Mul(n, h).Some? then Shaped([h, Mul(n, h).value]) else None)
  {
    var square, width := h * h, n * h;
    SquareIsU64(h);
    Rearrange(h, n);
    MulExact(n, h);
    MulExact(square, n);
    Volumes(h, width);
  }

  lemma MtpInputContract(cs: Components, h: nat)
    requires Hosts(cs, Mtp, cs.text, h)
    ensures Contract(cs, [Mtp, InputProjection]) ==
            if Mul(2, h).None? then None else Shaped([h, Mul(2, h).value])
  {
  }

  lemma MtpInputExact(cs: Components, h: nat)
    requires Hosts(cs, Mtp, cs.text, h)
    ensures Exact([Need([Mtp, InputProjection], Times(Some(2), Times(Some(h), Some(h))))], Contracted(cs))
  {
    SquareSame(h, 2);
    MtpInputContract(cs, h);
    OneExact(Need([Mtp, InputProjection], Times(Some(2), Times(Some(h), Some(h)))), Contracted(cs));
  }

  lemma MtpNormContract(cs: Components, h: nat, last: Segment)
    requires Hosts(cs, Mtp, cs.text, h) && (last == EmbeddingNorm || last == HiddenNorm || last == FinalNorm)
    ensures Contract(cs, [Mtp, last]) == Shaped([h])
  {
  }

  lemma MtpNormsExact(cs: Components, h: nat)
    requires Hosts(cs, Mtp, cs.text, h)
    ensures Exact(Needs([Mtp], [EmbeddingNorm, HiddenNorm, FinalNorm], Constant(Some(h))), Contracted(cs))
  {
    var lasts := [EmbeddingNorm, HiddenNorm, FinalNorm];
    SingleSame(h);
    forall i | 0 <= i < |lasts|
      ensures Contracted(cs)([Mtp] + [lasts[i]]) == Shaped([h])
    {
      assert [Mtp] + [lasts[i]] == [Mtp, lasts[i]];
      MtpNormContract(cs, h, lasts[i]);
    }
    ConstantExact([Mtp], lasts, Some(h), Contracted(cs), Shaped([h]));
  }

  lemma MtpBlockExact(cs: Components, h: nat)
    requires Hosts(cs, Mtp, cs.text, h)
    ensures Exact(Under([Mtp, Layers, Index(0)], BlockRows(cs.text, Some(h), false)), Contracted(cs))
  {
    BlockExact(Mtp, cs.text, h, false);
    LayerExact(cs, Mtp, cs.text, h, 0, BlockRows(cs.text, Some(h), false), true);
  }

  lemma MtpExact(cs: Components, h: nat)
    requires Hosts(cs, Mtp, cs.text, h)
    ensures Exact(MtpRows(cs.text, Some(h)), Contracted(cs))
  {
    MtpInputExact(cs, h);
    MtpNormsExact(cs, h);
    MtpBlockExact(cs, h);
    ExactThree(
      [Need([Mtp, InputProjection], Times(Some(2), Times(Some(h), Some(h))))],
      Needs([Mtp], [EmbeddingNorm, HiddenNorm, FinalNorm], Constant(Some(h))),
      Under([Mtp, Layers, Index(0)], BlockRows(cs.text, Some(h), false)), Contracted(cs), true);
  }

  lemma SelectorContract(cs: Components, c: Config, h: nat, vocab: nat, last: Segment)
    requires Hosts(cs, Dflash2, c, h) && Dim(cs.text, VocabSize) == Some(vocab)
    ensures Contract(cs, [Dflash2, CandidateSelector, last]) ==
            SelectorShape(c, h, vocab, [CandidateSelector, last])
  {
    assert [Dflash2, CandidateSelector, last][1..] == [CandidateSelector, last];
  }

  lemma SelectorLast(same: Link, c: Config, h: nat, vocab: nat, last: Segment)
    requires Links(same) && last in SELECTOR
    ensures same(
      SelectorCount(c, Some(h), Some(vocab), last), SelectorShape(c, h, vocab, [CandidateSelector, last]))
  {
    if Dim(c, SelectorRank).Some? {
      Pair(same, Dim(c, SelectorRank).value, h);
      Pair(same, vocab, Dim(c, SelectorRank).value);
    }
  }

  lemma SelectorNeeds(cs: Components, c: Config, h: nat, vocab: nat)
    requires Hosts(cs, Dflash2, c, h) && Dim(cs.text, VocabSize) == Some(vocab)
    ensures Exact(
      Needs([Dflash2, CandidateSelector], SELECTOR, (l: Segment) => SelectorCount(c, Some(h), Some(vocab), l)),
      Contracted(cs))
  {
    var count, f := (l: Segment) => SelectorCount(c, Some(h), Some(vocab), l), Contracted(cs);
    SameLinks();
    forall i | 0 <= i < |SELECTOR|
      ensures Owes(SameLink(), true, count(SELECTOR[i]), f([Dflash2, CandidateSelector] + [SELECTOR[i]]))
    {
      assert [Dflash2, CandidateSelector] + [SELECTOR[i]] == [Dflash2, CandidateSelector, SELECTOR[i]];
      SelectorContract(cs, c, h, vocab, SELECTOR[i]);
      SelectorLast(SameLink(), c, h, vocab, SELECTOR[i]);
    }
    NeedsExact([Dflash2, CandidateSelector], SELECTOR, count, f, true);
  }

  lemma ConvLayersExact(cs: Components, c: Config, h: nat)
    requires Hosts(cs, Dflash2, c, h)
    ensures ExactGiven(
      RepeatedRows(Dflash2, ConvRows(c, Some(h)), |c.layers|), Contracted(cs), |c.layers| <= 1024)
  {
    ConvExact(c, h);
    RepeatedExact(cs, Dflash2, c, h, ConvRows(c, Some(h)), |c.layers|, |c.layers| <= 1024);
  }

  lemma SelectorExact(cs: Components, c: Config, h: nat, vocab: nat)
    requires Hosts(cs, Dflash2, c, h) && Dim(cs.text, VocabSize) == Some(vocab)
    ensures ExactGiven(SelectorRows(c, Some(h), Some(vocab)), Contracted(cs), |c.layers| <= 1024)
  {
    var ready := |c.layers| <= 1024;
    var needs :=
      Needs([Dflash2, CandidateSelector], SELECTOR, (l: Segment) => SelectorCount(c, Some(h), Some(vocab), l));
    SelectorNeeds(cs, c, h, vocab);
    ExactWeaker(needs, Contracted(cs), ready);
    ConvLayersExact(cs, c, h);
    ChecksExact([SelectorCheck(c, Some(h))], Contracted(cs), ready);
    ExactThree(
      [SelectorCheck(c, Some(h))], RepeatedRows(Dflash2, ConvRows(c, Some(h)), |c.layers|), needs,
      Contracted(cs), ready);
  }

  lemma FeatureProjectionExact(cs: Components, component: Segment, c: Config, h: nat)
    requires Hosts(cs, component, c, h) && (component == Dflash || component == Dflash2)
    ensures Exact(
      [Need([component, FeatureProjection], Times(Times(Some(h), Some(h)), Some(|c.taps|)))], Contracted(cs))
  {
    SquareSame(h, |c.taps|);
    OneExact(
      Need([component, FeatureProjection], Times(Times(Some(h), Some(h)), Some(|c.taps|))), Contracted(cs));
  }

  lemma DraftNormsExact(cs: Components, component: Segment, c: Config, h: nat)
    requires Hosts(cs, component, c, h) && (component == Dflash || component == Dflash2)
    ensures Exact(Needs([component], [ContextNorm, FinalNorm], Constant(Some(h))), Contracted(cs))
  {
    SingleSame(h);
    ConstantExact([component], [ContextNorm, FinalNorm], Some(h), Contracted(cs), Shaped([h]));
  }

  lemma FeatureExact(cs: Components, component: Segment, c: Config, h: nat)
    requires Hosts(cs, component, c, h) && (component == Dflash || component == Dflash2)
    ensures Exact(DraftFront(component, c, Some(h)), Contracted(cs))
  {
    FeatureProjectionExact(cs, component, c, h);
    DraftNormsExact(cs, component, c, h);
    ExactConcat(
      [Need([component, FeatureProjection], Times(Times(Some(h), Some(h)), Some(|c.taps|)))],
      Needs([component], [ContextNorm, FinalNorm], Constant(Some(h))), Contracted(cs), true);
  }

  lemma OptionalSelectorExact(cs: Components, component: Segment, c: Config, h: nat, vocab: nat)
    requires Hosts(cs, component, c, h) && Dim(cs.text, VocabSize) == Some(vocab)
    requires component == Dflash || component == Dflash2
    ensures ExactGiven(OptionalSelector(component, c, Some(h), Some(vocab)), Contracted(cs), |c.layers| <= 1024)
  {
    if component == Dflash2 {
      SelectorExact(cs, c, h, vocab);
    }
  }

  lemma DraftBodyExact(cs: Components, component: Segment, c: Config, h: nat, vocab: nat)
    requires Hosts(cs, component, c, h) && Dim(cs.text, VocabSize) == Some(vocab)
    requires component == Dflash || component == Dflash2
    ensures ExactGiven(DraftBody(component, c, Some(h), Some(vocab)), Contracted(cs), |c.layers| <= 1024)
  {
    FeatureExact(cs, component, c, h);
    ExactWeaker(DraftFront(component, c, Some(h)), Contracted(cs), |c.layers| <= 1024);
    DraftLayerExact(component, c, h);
    RepeatedExact(cs, component, c, h, DraftLayer(c, Some(h)), |c.layers|, |c.layers| <= 1024);
    OptionalSelectorExact(cs, component, c, h, vocab);
    ExactThree(
      DraftFront(component, c, Some(h)), RepeatedRows(component, DraftLayer(c, Some(h)), |c.layers|),
      OptionalSelector(component, c, Some(h), Some(vocab)), Contracted(cs), |c.layers| <= 1024);
  }

  lemma DraftChecksExact(c: Config, vocab: Option<nat>, target: Config, f: Name -> Outcome)
    ensures ExactGiven(DraftChecks(c, vocab, target), f, |c.layers| <= 1024)
    ensures Passes(DraftChecks(c, vocab, target)) ==> |c.layers| <= 1024
  {
    ChecksExact(DraftChecks(c, vocab, target), f, |c.layers| <= 1024);
    if Passes(DraftChecks(c, vocab, target)) {
      assert DraftChecks(c, vocab, target)[1].ok;
    }
  }

  lemma DraftPartsExact(cs: Components, component: Segment, c: Config, h: nat, vocab: nat)
    returns (checks: seq<Row>, body: seq<Row>)
    requires Hosts(cs, component, c, h) && Dim(cs.text, VocabSize) == Some(vocab)
    requires component == Dflash || component == Dflash2
    ensures DraftRows(component, c, Some(h), Some(vocab), cs.text) == checks + body
    ensures ExactGiven(checks, Contracted(cs), |c.layers| <= 1024)
    ensures Passes(checks) ==> |c.layers| <= 1024
    ensures ExactGiven(body, Contracted(cs), |c.layers| <= 1024)
  {
    checks, body := DraftChecks(c, Some(vocab), cs.text), DraftBody(component, c, Some(h), Some(vocab));
    DraftBodyExact(cs, component, c, h, vocab);
    DraftChecksExact(c, Some(vocab), cs.text, Contracted(cs));
  }

  lemma DraftExact(cs: Components, component: Segment, c: Config, h: nat, vocab: nat) returns (rows: seq<Row>)
    requires Hosts(cs, component, c, h) && Dim(cs.text, VocabSize) == Some(vocab)
    requires component == Dflash || component == Dflash2
    ensures rows == DraftRows(component, c, Some(h), Some(vocab), cs.text) && Exact(rows, Contracted(cs))
  {
    var checks, body := DraftPartsExact(cs, component, c, h, vocab);
    ExactAfter(checks, body, Contracted(cs), |c.layers| <= 1024);
    rows := checks + body;
  }

  // ----- Vision

  predicate VisionReady(c: Config) {
    Dim(c, IntermediateSize).Some? && PatchWidth(c).Some? && MergerWidth(c, Dim(c, HiddenSize)).Some?
  }

  ghost predicate HostsVision(cs: Components, c: Config, h: nat, th: nat) {
    && cs.vision == Some(c) && Dim(c, HiddenSize) == Some(h)
    && Dim(cs.text, HiddenSize) == Some(th) && Dim(cs.text, VocabSize).Some?
  }

  lemma VisionFrontContract(cs: Components, c: Config, h: nat, th: nat, last: Segment)
    requires HostsVision(cs, c, h, th) && last in VISION_FRONT
    ensures Contract(cs, [Vision, last]) ==
            if VisionReady(c) then VisionFrontShape(c, h, PatchWidth(c).value, last) else None
  {
  }

  lemma VisionFrontLast(same: Link, c: Config, h: nat, last: Segment)
    requires Links(same) && last in VISION_FRONT && IsU64(h) && PatchWidth(c).Some?
    ensures same(VisionFrontCount(c, Some(h), last), VisionFrontShape(c, h, PatchWidth(c).value, last))
  {
    if last == PatchEmbedding {
      Pair(same, h, PatchWidth(c).value);
    } else if last == PatchEmbeddingBias {
      Single(same, h);
    } else if Dim(c, NumPositions).Some? {
      Pair(same, Dim(c, NumPositions).value, h);
    }
  }

  lemma VisionFrontExact(cs: Components, c: Config, h: nat, th: nat)
    requires HostsVision(cs, c, h, th)
    ensures ExactGiven(
      Needs([Vision], VISION_FRONT, (l: Segment) => VisionFrontCount(c, Some(h), l)), Contracted(cs), VisionReady(c))
  {
    var count := (l: Segment) => VisionFrontCount(c, Some(h), l);
    SameLinks();
    forall i | 0 <= i < |VISION_FRONT|
      ensures Owes(SameLink(), VisionReady(c), count(VISION_FRONT[i]), Contracted(cs)([Vision] + [VISION_FRONT[i]]))
    {
      assert [Vision] + [VISION_FRONT[i]] == [Vision, VISION_FRONT[i]];
      VisionFrontContract(cs, c, h, th, VISION_FRONT[i]);
      if VisionReady(c) {
        VisionFrontLast(SameLink(), c, h, VISION_FRONT[i]);
      }
    }
    NeedsExact([Vision], VISION_FRONT, count, Contracted(cs), VisionReady(c));
  }

  lemma MergerContract(cs: Components, c: Config, h: nat, th: nat, last: Segment)
    requires HostsVision(cs, c, h, th)
    ensures Contract(cs, [Vision, Merger, last]) ==
            if VisionReady(c) then MergerShape(h, th, MergerWidth(c, Some(h)).value, last) else None
  {
  }

  lemma MergerLast(same: Link, c: Config, h: nat, th: nat, last: Segment)
    requires Links(same) && last in MERGER && IsU64(h) && IsU64(th) && MergerWidth(c, Some(h)).Some?
    ensures same(
      MergerCount(c, Some(h), Some(th), last), MergerShape(h, th, MergerWidth(c, Some(h)).value, last))
  {
    var merger := MergerWidth(c, Some(h)).value;
    if last == NormWeight {
      Single(same, h);
    } else if last == NormBias {
      Single(same, h);
    } else if last == Fc1 {
      Pair(same, merger, merger);
    } else if last == Fc1Bias {
      Single(same, merger);
    } else if last == Fc2 {
      Pair(same, th, merger);
    } else if last == Fc2Bias {
      Single(same, th);
    }
  }

  lemma MergerOwes(same: Link, cs: Components, c: Config, h: nat, th: nat, last: Segment)
    requires Links(same) && HostsVision(cs, c, h, th) && last in MERGER
    ensures Owes(same, VisionReady(c), MergerCount(c, Some(h), Some(th), last), Contract(cs, [Vision, Merger] + [last]))
  {
    assert [Vision, Merger] + [last] == [Vision, Merger, last];
    MergerContract(cs, c, h, th, last);
    if VisionReady(c) {
      MergerLast(same, c, h, th, last);
    }
  }

  lemma MergerExact(cs: Components, c: Config, h: nat, th: nat)
    requires HostsVision(cs, c, h, th)
    ensures ExactGiven(
      Needs([Vision, Merger], MERGER, (l: Segment) => MergerCount(c, Some(h), Some(th), l)), Contracted(cs),
      VisionReady(c))
  {
    var count := (l: Segment) => MergerCount(c, Some(h), Some(th), l);
    SameLinks();
    forall i | 0 <= i < |MERGER|
      ensures Owes(SameLink(), VisionReady(c), count(MERGER[i]), Contracted(cs)([Vision, Merger] + [MERGER[i]]))
    {
      assert MERGER[i] in MERGER;
      MergerOwes(SameLink(), cs, c, h, th, MERGER[i]);
    }
    NeedsExact([Vision, Merger], MERGER, count, Contracted(cs), VisionReady(c));
  }

  /** The contract of the names below one vision layer. */
  function VisionLayered(c: Config, h: nat): Name -> Outcome {
    (s: Name) => if VisionReady(c) then VisionLayerShape(h, Dim(c, IntermediateSize).value, s) else None
  }

  /** Requirements of one vision layer that share one count and one shape. */
  lemma VisionConstant(c: Config, h: nat, prefix: Name, lasts: seq<Segment>, count: Option<nat>, o: Outcome)
    requires Same(count, o)
    requires forall i :: 0 <= i < |lasts| ==>
               VisionLayered(c, h)(prefix + [lasts[i]]) == if VisionReady(c) then o else None
    ensures ExactGiven(Needs(prefix, lasts, Constant(count)), VisionLayered(c, h), VisionReady(c))
  {
    NeedsExact(prefix, lasts, Constant(count), VisionLayered(c, h), VisionReady(c));
  }

  lemma VisionNorms(c: Config, h: nat, lasts: seq<Segment>)
    requires lasts == [Norm1Weight, Norm1Bias, Norm2Weight, Norm2Bias] && IsU64(h)
    ensures ExactGiven(Needs([], lasts, Constant(Some(h))), VisionLayered(c, h), VisionReady(c))
  {
    SingleSame(h);
    VisionConstant(c, h, [], lasts, Some(h), Shaped([h]));
  }

  lemma VisionBiases(c: Config, h: nat)
    requires IsU64(h)
    ensures ExactGiven(
      Needs([Attention], [QueryBias, KeyBias, ValueBias, OutputBias], Constant(Some(h))), VisionLayered(c, h),
      VisionReady(c))
  {
    SingleSame(h);
    VisionConstant(c, h, [Attention], [QueryBias, KeyBias, ValueBias, OutputBias], Some(h), Shaped([h]));
  }

  lemma VisionSquares(c: Config, h: nat)
    ensures ExactGiven(
      Needs([Attention], [Query, Key, Value, Output], Constant(Times(Some(h), Some(h)))), VisionLayered(c, h),
      VisionReady(c))
  {
    PairSame(h, h);
    VisionConstant(c, h, [Attention], [Query, Key, Value, Output], Times(Some(h), Some(h)), Shaped([h, h]));
  }

  lemma VisionMlpShape(h: nat, inner: nat, last: Segment)
    requires last in VISION_MLP
    ensures VisionLayerShape(h, inner, [Mlp, last]) ==
            if last == Fc2Bias then Shaped([h])
            else if last == Fc1Bias then Shaped([inner])
            else if last == Fc1 then Shaped([inner, h])
            else Shaped([h, inner])
  {
  }

  lemma VisionMlpLast(same: Link, c: Config, h: nat, last: Segment)
    requires Links(same) && IsU64(h) && VisionReady(c) && last in VISION_MLP
    ensures same(
      VisionMlpCount(c, Some(h), last), VisionLayerShape(h, Dim(c, IntermediateSize).value, [Mlp, last]))
  {
    var inner := Dim(c, IntermediateSize).value;
    VisionMlpShape(h, inner, last);
    Single(same, h);
    Single(same, inner);
    Pair(same, inner, h);
    Pair(same, h, inner);
  }

  lemma VisionMlp(c: Config, h: nat)
    requires IsU64(h)
    ensures ExactGiven(
      Needs([Mlp], VISION_MLP, (l: Segment) => VisionMlpCount(c, Some(h), l)), VisionLayered(c, h), VisionReady(c))
  {
    var count := (l: Segment) => VisionMlpCount(c, Some(h), l);
    SameLinks();
    forall i | 0 <= i < |VISION_MLP|
      ensures Owes(SameLink(), VisionReady(c), count(VISION_MLP[i]), VisionLayered(c, h)([Mlp] + [VISION_MLP[i]]))
    {
      assert [Mlp] + [VISION_MLP[i]] == [Mlp, VISION_MLP[i]];
      if VisionReady(c) {
        VisionMlpLast(SameLink(), c, h, VISION_MLP[i]);
      }
    }
    NeedsExact([Mlp], VISION_MLP, count, VisionLayered(c, h), VisionReady(c));
  }

  lemma VisionLayerExact(c: Config, h: nat)
    requires IsU64(h)
    ensures ExactGiven(VisionLayer(c, Some(h)), VisionLayered(c, h), VisionReady(c))
  {
    var f, ready := VisionLayered(c, h), VisionReady(c);
    var norms := Needs([], [Norm1Weight, Norm1Bias, Norm2Weight, Norm2Bias], Constant(Some(h)));
    var biases := Needs([Attention], [QueryBias, KeyBias, ValueBias, OutputBias], Constant(Some(h)));
    var squares := Needs([Attention], [Query, Key, Value, Output], Constant(Times(Some(h), Some(h))));
    var mlp := Needs([Mlp], VISION_MLP, (l: Segment) => VisionMlpCount(c, Some(h), l));
    VisionNorms(c, h, [Norm1Weight, Norm1Bias, Norm2Weight, Norm2Bias]);
    VisionBiases(c, h);
    VisionSquares(c, h);
    VisionMlp(c, h);
    ExactConcat(norms, biases, f, ready);
    ExactConcat(norms + biases, squares, f, ready);
    ExactConcat(norms + biases + squares, mlp, f, ready);
  }

  lemma VisionDispatch(cs: Components, c: Config, h: nat, th: nat, name: Name)
    requires HostsVision(cs, c, h, th) && |name| >= 4 && name[0] == Vision && name[1] == Layers
    ensures Contract(cs, name) == VisionShape(c, h, th, name)
  {
    assert name[1..][0] == Layers;
  }

  lemma VisionContract(cs: Components, c: Config, h: nat, th: nat, i: nat, s: Name)
    requires HostsVision(cs, c, h, th) && i <= MAX_U32 && s != []
    ensures Contract(cs, [Vision, Layers, Index(i)] + s) == VisionLayered(c, h)(s)
  {
    LayerParameterOf(Vision, i, s);
    VisionDispatch(cs, c, h, th, [Vision, Layers, Index(i)] + s);
  }

  lemma VisionUnderContract(cs: Components, c: Config, h: nat, th: nat, i: nat, k: nat)
    requires HostsVision(cs, c, h, th) && i <= MAX_U32
    requires k < |VisionLayer(c, Some(h))| && VisionLayer(c, Some(h))[k].Need?
    ensures var name := VisionLayer(c, Some(h))[k].name;
            Contracted(cs)([Vision, Layers, Index(i)] + name) == VisionLayered(c, h)(name)
  {
    NamesNotEmpty(c, h, k);
    VisionContract(cs, c, h, th, i, VisionLayer(c, Some(h))[k].name);
  }

  /** Rows move under a prefix when their own names' outcomes do. */
  lemma {:induction false} ExactRenamed(
    prefix: Name, rows: seq<Row>, f: Name -> Outcome, g: Name -> Outcome, ready: bool)
    requires ExactGiven(rows, f, ready)
    requires forall k :: 0 <= k < |rows| && rows[k].Need? ==> g(prefix + rows[k].name) == f(rows[k].name)
    ensures ExactGiven(Under(prefix, rows), g, ready)
  {
    if Passes(Under(prefix, rows)) {
      PassesUnder(prefix, rows);
    }
  }

  lemma VisionUnder(cs: Components, c: Config, h: nat, th: nat, i: nat)
    requires HostsVision(cs, c, h, th) && i <= MAX_U32
    ensures ExactGiven(
      Under([Vision, Layers, Index(i)], VisionLayer(c, Some(h))), Contracted(cs), VisionReady(c))
  {
    var prefix, rows := [Vision, Layers, Index(i)], VisionLayer(c, Some(h));
    VisionLayerExact(c, h);
    forall k | 0 <= k < |rows| && rows[k].Need?
      ensures Contracted(cs)(prefix + rows[k].name) == VisionLayered(c, h)(rows[k].name)
    {
      VisionUnderContract(cs, c, h, th, i, k);
    }
    ExactRenamed(prefix, rows, VisionLayered(c, h), Contracted(cs), VisionReady(c));
  }

  lemma NamesNotEmpty(c: Config, h: nat, k: nat)
    requires k < |VisionLayer(c, Some(h))| && VisionLayer(c, Some(h))[k].Need?
    ensures VisionLayer(c, Some(h))[k].name != []
  {
  }

  lemma VisionChecksReady(c: Config)
    ensures Passes(VisionChecks(c)) ==> VisionReady(c) && Dim(c, HiddenSize).Some?
  {
    if Passes(VisionChecks(c)) {
      assert VisionChecks(c)[1].ok && VisionChecks(c)[3].ok;
    }
  }

  /** Without a hidden size of its own no vision parameter has a contract. */
  lemma NoWidthNoContract(cs: Components, c: Config, name: Name)
    requires cs.vision == Some(c) && Dim(c, HiddenSize).None? && |name| >= 2 && name[0] == Vision
    ensures Contract(cs, name) == None
  {
  }

  lemma VisionWithoutWidth(cs: Components, c: Config, th: nat)
    requires cs.vision == Some(c) && Dim(c, HiddenSize).None?
    ensures ExactGiven(VisionBody(c, Some(th)), Contracted(cs), false)
  {
    var body := VisionBody(c, Some(th));
    forall i | 0 <= i < |body| && body[i].Need?
      ensures Contracted(cs)(body[i].name) == None
    {
      VisionNames(c, Some(th), i);
      NoWidthNoContract(cs, c, body[i].name);
    }
  }

  lemma VisionExact(cs: Components, c: Config, th: nat)
    requires cs.vision == Some(c) && Dim(cs.text, HiddenSize) == Some(th) && Dim(cs.text, VocabSize).Some?
    ensures Exact(VisionRows(c, Some(th)), Contracted(cs))
  {
    var ready := VisionReady(c) && Dim(c, HiddenSize).Some?;
    if Dim(c, HiddenSize).None? {
      VisionWithoutWidth(cs, c, th);
    } else {
      VisionBodyExact(cs, c, Dim(c, HiddenSize).value, th);
    }
    ChecksExact(VisionChecks(c), Contracted(cs), ready);
    VisionChecksReady(c);
    ExactAfter(VisionChecks(c), VisionBody(c, Some(th)), Contracted(cs), ready);
  }

  lemma VisionBodyExact(cs: Components, c: Config, h: nat, th: nat)
    requires HostsVision(cs, c, h, th)
    ensures ExactGiven(VisionBody(c, Some(th)), Contracted(cs), VisionReady(c))
  {
    var f, ready := Contracted(cs), VisionReady(c);
    var front := Needs([Vision], VISION_FRONT, (l: Segment) => VisionFrontCount(c, Some(h), l));
    var merger := Needs([Vision, Merger], MERGER, (l: Segment) => MergerCount(c, Some(h), Some(th), l));
    var layers := RepeatedRows(Vision, VisionLayer(c, Some(h)), VisionDepth(c));
    VisionFrontExact(cs, c, h, th);
    MergerExact(cs, c, h, th);
    forall i | 0 <= i < VisionDepth(c)
      ensures ExactGiven(Under([Vision, Layers, Index(i)], VisionLayer(c, Some(h))), f, ready)
    {
      VisionUnder(cs, c, h, th, i);
    }
    RepeatedConcat(Vision, VisionLayer(c, Some(h)), VisionDepth(c), f, ready);
    ExactThree(front, merger, layers, f, ready);
  }

  lemma {:induction false} RepeatedNames(component: Segment, rows: seq<Row>, layers: nat, i: nat)
    requires i < |RepeatedRows(component, rows, layers)| && RepeatedRows(component, rows, layers)[i].Need?
    ensures |RepeatedRows(component, rows, layers)[i].name| >= 2
    ensures RepeatedRows(component, rows, layers)[i].name[0] == component
  {
    var before := RepeatedRows(component, rows, layers - 1);
    if i < |before| {
      RepeatedNames(component, rows, layers - 1, i);
    }
  }

  lemma VisionNames(c: Config, target: Option<nat>, i: nat)
    requires i < |VisionBody(c, target)| && VisionBody(c, target)[i].Need?
    ensures |VisionBody(c, target)[i].name| >= 2 && VisionBody(c, target)[i].name[0] == Vision
  {
    var h := Dim(c, HiddenSize);
    var front := VisionFront(c, h, target);
    if i >= |front| {
      RepeatedNames(Vision, VisionLayer(c, h), VisionDepth(c), i - |front|);
    }
  }

  // ----- Proposal and the whole inventory

  /** The validators bound a declared row count by u32; the contract does not. */
  predicate ProposalRowsAreU32(cs: Components) {
    cs.proposal.Some? && cs.proposal.value.indexed ==>
      Uint(cs.proposal.value.config, Rows) == Dim(cs.proposal.value.config, Rows)
  }

  lemma ProposalContract(cs: Components, p: ProposalConfig, h: nat, vocab: nat, last: Segment)
    requires cs.proposal == Some(p) && Dim(cs.text, HiddenSize) == Some(h) && Dim(cs.text, VocabSize) == Some(vocab)
    ensures Contract(cs, [Proposal, last]) == ProposalShape(p, h, vocab, [last])
  {
    assert [Proposal, last][1..] == [last];
  }

  lemma ProposalNeeds(cs: Components, p: ProposalConfig, h: nat, vocab: nat)
    requires cs.proposal == Some(p) && Dim(cs.text, HiddenSize) == Some(h) && Dim(cs.text, VocabSize) == Some(vocab)
    requires ProposalRowsAreU32(cs)
    ensures Same(Times(ProposalCount(p, Some(vocab)), Some(h)), Contract(cs, [Proposal, Head]))
    ensures Same(ProposalCount(p, Some(vocab)), Contract(cs, [Proposal, TokenIds]))
  {
    var rows := ProposalCount(p, Some(vocab));
    ProposalContract(cs, p, h, vocab, Head);
    ProposalContract(cs, p, h, vocab, TokenIds);
    if rows.Some? {
      PairSame(rows.value, h);
      SingleSame(rows.value);
    }
  }

  lemma ProposalHeadExact(cs: Components, p: ProposalConfig, h: nat, vocab: nat)
    requires cs.proposal == Some(p) && Dim(cs.text, HiddenSize) == Some(h) && Dim(cs.text, VocabSize) == Some(vocab)
    requires ProposalRowsAreU32(cs)
    ensures Exact([Need([Proposal, Head], Times(ProposalCount(p, Some(vocab)), Some(h)))], Contracted(cs))
    ensures Exact(ProposalIds(p, ProposalCount(p, Some(vocab))), Contracted(cs))
  {
    var rows := ProposalCount(p, Some(vocab));
    ProposalNeeds(cs, p, h, vocab);
    OneExact(Need([Proposal, Head], Times(rows, Some(h))), Contracted(cs));
    OneExact(Need([Proposal, TokenIds], rows), Contracted(cs));
  }

  lemma ProposalExact(cs: Components, p: ProposalConfig, h: nat, vocab: nat)
    requires cs.proposal == Some(p) && Dim(cs.text, HiddenSize) == Some(h) && Dim(cs.text, VocabSize) == Some(vocab)
    requires ProposalRowsAreU32(cs)
    ensures Exact(ProposalRows(p, Some(h), Some(vocab)), Contracted(cs))
  {
    var rows := ProposalCount(p, Some(vocab));
    ProposalHeadExact(cs, p, h, vocab);
    ChecksExact([ProposalCheck(rows, Some(vocab))], Contracted(cs), true);
    ExactThree(
      [ProposalCheck(rows, Some(vocab))], [Need([Proposal, Head], Times(rows, Some(h)))], ProposalIds(p, rows),
      Contracted(cs), true);
  }

  lemma MatrixNeedExact(cs: Components, h: nat, vocab: nat, last: Segment)
    requires Dim(cs.text, HiddenSize) == Some(h) && Dim(cs.text, VocabSize) == Some(vocab)
    requires last == TokenEmbedding || last == OutputHead
    ensures Exact([MatrixNeed(cs, last)], Contracted(cs))
  {
    PairSame(vocab, h);
    OneExact(MatrixNeed(cs, last), Contracted(cs));
  }

  lemma FinalNormContract(cs: Components, h: nat)
    requires Dim(cs.text, HiddenSize) == Some(h) && Dim(cs.text, VocabSize).Some?
    ensures Contract(cs, [Text, FinalNorm]) == Shaped([h]) && Uint(cs.text, HiddenSize) == Some(h)
  {
  }

  lemma FinalNormExact(cs: Components, h: nat)
    requires Dim(cs.text, HiddenSize) == Some(h) && Dim(cs.text, VocabSize).Some?
    ensures Exact([Need([Text, FinalNorm], Uint(cs.text, HiddenSize))], Contracted(cs))
  {
    SingleSame(h);
    FinalNormContract(cs, h);
    OneExact(Need([Text, FinalNorm], Uint(cs.text, HiddenSize)), Contracted(cs));
  }

  lemma FrontNeedsExact(cs: Components, h: nat, vocab: nat)
    requires Dim(cs.text, HiddenSize) == Some(h) && Dim(cs.text, VocabSize) == Some(vocab)
    ensures Exact(FrontNeeds(cs), Contracted(cs))
  {
    MatrixNeedExact(cs, h, vocab, TokenEmbedding);
    MatrixNeedExact(cs, h, vocab, OutputHead);
    FinalNormExact(cs, h);
    ExactThree(
      [MatrixNeed(cs, TokenEmbedding)], [MatrixNeed(cs, OutputHead)],
      [Need([Text, FinalNorm], Uint(cs.text, HiddenSize))], Contracted(cs), true);
  }

  lemma FrontExact(cs: Components, h: nat, vocab: nat)
    requires Dim(cs.text, HiddenSize) == Some(h) && Dim(cs.text, VocabSize) == Some(vocab)
    ensures Exact(FrontRows(cs), Contracted(cs))
  {
    FrontNeedsExact(cs, h, vocab);
    ChecksExact(FrontChecks(cs), Contracted(cs), true);
    ExactConcat(FrontNeeds(cs), FrontChecks(cs), Contracted(cs), true);
  }

  lemma FrontPasses(cs: Components)
    requires Passes(FrontRows(cs))
    ensures Dim(cs.text, HiddenSize).Some? && Dim(cs.text, VocabSize).Some? && CoversLayers(cs.text)
  {
    PassesParts(FrontNeeds(cs), FrontChecks(cs));
    var checks := FrontChecks(cs);
    assert checks[1].ok && checks[3].ok;
  }

  lemma StepsParts(cs: Components)
    requires Passes(Steps(cs))
    ensures Passes(FrontRows(cs))
    ensures cs.proposal.Some? ==>
              Passes(ProposalRows(cs.proposal.value, Dim(cs.text, HiddenSize), Dim(cs.text, VocabSize)))
  {
    var h, vocab := Dim(cs.text, HiddenSize), Dim(cs.text, VocabSize);
    var body, tail := Body(cs, h, vocab), Tail(cs, h, vocab);
    PassesParts(FrontRows(cs) + body, tail);
    PassesParts(FrontRows(cs), body);
    PassesParts(OptionalProposal(cs, h, vocab), OptionalDraft(Dflash2, cs.dflash2, cs, h, vocab));
  }

  lemma OptionalMtpExact(cs: Components, h: nat)
    requires Dim(cs.text, HiddenSize) == Some(h) && Dim(cs.text, VocabSize).Some?
    ensures Exact(OptionalMtp(cs, Some(h)), Contracted(cs))
  {
    if cs.mtp {
      MtpExact(cs, h);
    }
  }

  lemma OptionalVisionExact(cs: Components, h: nat)
    requires Dim(cs.text, HiddenSize) == Some(h) && Dim(cs.text, VocabSize).Some?
    ensures Exact(OptionalVision(cs, Some(h)), Contracted(cs))
  {
    if cs.vision.Some? {
      VisionExact(cs, cs.vision.value, h);
    }
  }

  lemma TextRowsExact(cs: Components, h: nat)
    requires Dim(cs.text, HiddenSize) == Some(h) && Dim(cs.text, VocabSize).Some?
    ensures ExactGiven(
      LayerRows(cs.text, Some(h), |cs.text.layers|), Contracted(cs), CoversLayers(cs.text))
  {
    TextLayersExact(cs, h, CoversLayers(cs.text));
  }

  lemma TextMtpExact(cs: Components, h: nat) returns (a: seq<Row>)
    requires Dim(cs.text, HiddenSize) == Some(h) && Dim(cs.text, VocabSize).Some?
    ensures a == LayerRows(cs.text, Some(h), |cs.text.layers|) + OptionalMtp(cs, Some(h))
    ensures ExactGiven(a, Contracted(cs), CoversLayers(cs.text))
  {
    TextRowsExact(cs, h);
    OptionalMtpExact(cs, h);
    ExactWeaker(OptionalMtp(cs, Some(h)), Contracted(cs), CoversLayers(cs.text));
    ExactConcat(
      LayerRows(cs.text, Some(h), |cs.text.layers|), OptionalMtp(cs, Some(h)), Contracted(cs), CoversLayers(cs.text));
    a := LayerRows(cs.text, Some(h), |cs.text.layers|) + OptionalMtp(cs, Some(h));
  }

  lemma DflashExact(cs: Components, h: nat, vocab: nat) returns (b: seq<Row>)
    requires Dim(cs.text, HiddenSize) == Some(h) && Dim(cs.text, VocabSize) == Some(vocab)
    ensures b == OptionalDraft(Dflash, cs.dflash, cs, Some(h), Some(vocab)) && Exact(b, Contracted(cs))
  {
    b := OptionalDraft(Dflash, cs.dflash, cs, Some(h), Some(vocab));
    OptionalDraftExact(cs, Dflash, cs.dflash, h, vocab);
  }

  lemma BodyExact(cs: Components, h: nat, vocab: nat)
    requires Dim(cs.text, HiddenSize) == Some(h) && Dim(cs.text, VocabSize) == Some(vocab)
    ensures ExactGiven(Body(cs, Some(h), Some(vocab)), Contracted(cs), CoversLayers(cs.text))
  {
    var a := TextMtpExact(cs, h);
    var b := DflashExact(cs, h, vocab);
    OptionalVisionExact(cs, h);
    var c := OptionalVision(cs, Some(h));
    ExactWeaker(b, Contracted(cs), CoversLayers(cs.text));
    ExactWeaker(c, Contracted(cs), CoversLayers(cs.text));
    ExactThree(a, b, c, Contracted(cs), CoversLayers(cs.text));
  }

  lemma OptionalDraftExact(cs: Components, component: Segment, draft: Option<Config>, h: nat, vocab: nat)
    requires component == Dflash || component == Dflash2
    requires draft == ConfigOf(component, cs)
    requires Dim(cs.text, HiddenSize) == Some(h) && Dim(cs.text, VocabSize) == Some(vocab)
    ensures Exact(OptionalDraft(component, draft, cs, Some(h), Some(vocab)), Contracted(cs))
  {
    if draft.Some? {
      var rows := DraftExact(cs, component, draft.value, h, vocab);
    }
  }

  lemma TailExact(cs: Components, h: nat, vocab: nat)
    requires Dim(cs.text, HiddenSize) == Some(h) && Dim(cs.text, VocabSize) == Some(vocab)
    requires ProposalRowsAreU32(cs)
    ensures Exact(Tail(cs, Some(h), Some(vocab)), Contracted(cs))
  {
    if cs.proposal.Some? {
      ProposalExact(cs, cs.proposal.value, h, vocab);
    }
    OptionalDraftExact(cs, Dflash2, cs.dflash2, h, vocab);
    ExactConcat(
      OptionalProposal(cs, Some(h), Some(vocab)), OptionalDraft(Dflash2, cs.dflash2, cs, Some(h), Some(vocab)),
      Contracted(cs), true);
  }

  lemma FrontPassesGives(cs: Components)
    ensures Passes(FrontRows(cs)) ==>
              Dim(cs.text, HiddenSize).Some? && Dim(cs.text, VocabSize).Some? && CoversLayers(cs.text)
  {
    if Passes(FrontRows(cs)) {
      FrontPasses(cs);
    }
  }

  lemma StepsExactWith(cs: Components, h: nat, vocab: nat)
    requires ProposalRowsAreU32(cs)
    requires Dim(cs.text, HiddenSize) == Some(h) && Dim(cs.text, VocabSize) == Some(vocab)
    ensures Exact(Steps(cs), Contracted(cs))
  {
    FrontExact(cs, h, vocab);
    ExactWeaker(FrontRows(cs), Contracted(cs), CoversLayers(cs.text));
    BodyExact(cs, h, vocab);
    TailExact(cs, h, vocab);
    FrontPassesGives(cs);
    ExactAfter(FrontRows(cs), Body(cs, Some(h), Some(vocab)), Contracted(cs), CoversLayers(cs.text));
    ExactConcat(
      FrontRows(cs) + Body(cs, Some(h), Some(vocab)), Tail(cs, Some(h), Some(vocab)), Contracted(cs), true);
  }

  lemma StepsExactWithout(cs: Components)
    requires Dim(cs.text, HiddenSize).None? || Dim(cs.text, VocabSize).None?
    ensures Exact(Steps(cs), Contracted(cs))
  {
    assert forall name :: !Fits(Contract(cs, name));
    assert !Passes(Steps(cs)) by {
      if Passes(Steps(cs)) {
        StepsParts(cs);
        FrontPassesGives(cs);
      }
    }
  }

  /** The widths every contract shape starts from. */
  predicate HasWidths(cs: Components) {
    Dim(cs.text, HiddenSize).Some? && Dim(cs.text, VocabSize).Some?
  }

  /** The row of the token list, when a proposal has one. */
  lemma TokenIdsRow(cs: Components) returns (r: Row)
    requires cs.proposal.Some? && cs.proposal.value.indexed
    ensures r == Need([Proposal, TokenIds], Dim(cs.proposal.value.config, Rows)) && r in Steps(cs)
  {
    var h, vocab := Dim(cs.text, HiddenSize), Dim(cs.text, VocabSize);
    var rows := Dim(cs.proposal.value.config, Rows);
    r := Need([Proposal, TokenIds], rows);
    assert ProposalIds(cs.proposal.value, rows) == [r];
    InTail(ProposalRows(cs.proposal.value, h, vocab)[..2], [r], r);
    InTail(OptionalProposal(cs, h, vocab), OptionalDraft(Dflash2, cs.dflash2, cs, h, vocab), r);
    InTail(FrontRows(cs) + Body(cs, h, vocab), Tail(cs, h, vocab), r);
  }

  lemma InTail(a: seq<Row>, b: seq<Row>, r: Row)
    requires r in a || r in b
    ensures r in a + b
  {
  }

  /** A declared row count beyond u32 has a fitting contract shape and no count. */
  lemma WideRowsDisagree(cs: Components)
    requires HasWidths(cs) && !ProposalRowsAreU32(cs)
    ensures !Exact(Steps(cs), Contracted(cs))
  {
    var r := TokenIdsRow(cs);
    var p, vocab := cs.proposal.value, Dim(cs.text, VocabSize).value;
    ProposalContract(cs, p, Dim(cs.text, HiddenSize).value, vocab, TokenIds);
    Volumes(p.config.dims[Rows], 1);
    if Exact(Steps(cs), Contracted(cs)) {
      ExactAt(Steps(cs), Contracted(cs), r);
    }
  }

  /** The two descriptions of the inventory are exact for each other, for every configuration but those whose
      proposal declares more rows than u32 holds. */
  lemma StepsExact(cs: Components)
    ensures Exact(Steps(cs), Contracted(cs)) <==> (HasWidths(cs) ==> ProposalRowsAreU32(cs))
  {
    if !HasWidths(cs) {
      StepsExactWithout(cs);
    } else if ProposalRowsAreU32(cs) {
      StepsExactWith(cs, Dim(cs.text, HiddenSize).value, Dim(cs.text, VocabSize).value);
    } else {
      WideRowsDisagree(cs);
    }
  }

  lemma SatisfiedPasses(rows: seq<Row>, counts: map<Name, nat>)
    requires forall r :: r in rows ==> Satisfied(r, counts)
    ensures Passes(rows)
  {
    forall i | 0 <= i < |rows|
      ensures if rows[i].Need? then rows[i].count.Some? else rows[i].ok
    {
      assert rows[i] in rows;
    }
  }

  lemma ValidatesPasses(cs: Components, counts: map<Name, nat>)
    requires Validates(cs, counts)
    ensures Passes(Steps(cs))
  {
    SatisfiedPasses(Steps(cs), counts);
  }

  lemma PassesBoundsProposal(cs: Components)
    requires Passes(Steps(cs))
    ensures ProposalRowsAreU32(cs)
  {
    StepsParts(cs);
    if cs.proposal.Some? {
      var p := ProposalRows(cs.proposal.value, Dim(cs.text, HiddenSize), Dim(cs.text, VocabSize));
      assert p[0].ok;
    }
  }

  lemma ExactAt(rows: seq<Row>, f: Name -> Outcome, r: Row)
    requires Exact(rows, f) && r in rows && r.Need?
    ensures Agrees(r, f(r.name)) && (Passes(rows) ==> Fits(f(r.name)))
  {
    var k :| 0 <= k < |rows| && rows[k] == r;
    assert Agrees(rows[k], f(rows[k].name));
  }

  /** Whenever the validators accept the counts of the bindings, the contract knows every parameter they
      require, with a shape of exactly the required number of elements; nothing in it overflows. */
  lemma ValidatedInventory(cs: Components, counts: map<Name, nat>, r: Row)
    requires Validates(cs, counts) && r in Steps(cs) && r.Need?
    ensures r.name in counts && Fits(Contract(cs, r.name))
    ensures Volume(Contract(cs, r.name).value.value) == counts[r.name]
  {
    ValidatesPasses(cs, counts);
    PassesBoundsProposal(cs);
    StepsExact(cs);
    ExactAt(Steps(cs), Contracted(cs), r);
  }

  predicate OfProposal(name: Name) {
    name == [Proposal, Head] || name == [Proposal, TokenIds]
  }

  lemma ProposalRowNames(p: ProposalConfig, h: Option<nat>, vocab: Option<nat>, r: Row)
    requires r in ProposalRows(p, h, vocab) && r.Need?
    ensures OfProposal(r.name)
  {
  }

  lemma OthersStayWithoutProposal(cs: Components, h: Option<nat>, vocab: Option<nat>)
    ensures FrontRows(cs.(proposal := None)) == FrontRows(cs)
    ensures Body(cs.(proposal := None), h, vocab) == Body(cs, h, vocab)
  {
  }

  lemma TailStaysWithoutProposal(cs: Components, h: Option<nat>, vocab: Option<nat>, r: Row)
    requires r in Tail(cs, h, vocab) && r.Need? && !OfProposal(r.name)
    ensures r in Tail(cs.(proposal := None), h, vocab)
  {
    if r in OptionalProposal(cs, h, vocab) {
      ProposalRowNames(cs.proposal.value, h, vocab, r);
    }
  }

  /** All other rows stay when the proposal is taken away. */
  lemma RowStaysWithoutProposal(cs: Components, r: Row)
    requires r in Steps(cs) && r.Need? && !OfProposal(r.name)
    ensures r in Steps(cs.(proposal := None))
  {
    var h, vocab, bare := Dim(cs.text, HiddenSize), Dim(cs.text, VocabSize), cs.(proposal := None);
    OthersStayWithoutProposal(cs, h, vocab);
    if r in Tail(cs, h, vocab) {
      TailStaysWithoutProposal(cs, h, vocab, r);
    }
    InTail(FrontRows(bare) + Body(bare, h, vocab), Tail(bare, h, vocab), r);
  }

  lemma OnlyTwoProposalShapes(cs: Components, name: Name)
    requires |name| >= 2 && name[0] == Proposal && !OfProposal(name)
    ensures Contract(cs, name).Some? ==> Contract(cs, name).value.None?
  {
    if |name| == 2 {
      assert name == [Proposal, name[1]];
    }
  }

  lemma ContractStaysWithoutProposal(cs: Components, name: Name)
    requires Contract(cs, name).Some? && Contract(cs, name).value.Some? && !OfProposal(name)
    ensures Contract(cs.(proposal := None), name) == Contract(cs, name)
  {
    if name[0] == Proposal {
      OnlyTwoProposalShapes(cs, name);
    } else {
      assert ConfigOf(name[0], cs.(proposal := None)) == ConfigOf(name[0], cs);
    }
  }

  /** Wherever the contract describes a required parameter, the validators compute its count, without overflow,
      exactly when the element count of the described shape fits u64, and then it is that element count; only
      the two parameters of a proposal need their declared row count to be a u32. */
  lemma CountedExactlyWhenItFits(cs: Components, r: Row)
    requires r in Steps(cs) && r.Need? && (OfProposal(r.name) ==> ProposalRowsAreU32(cs))
    requires Contract(cs, r.name).Some? && Contract(cs, r.name).value.Some?
    ensures r.count.Some? <==> IsU64(Volume(Contract(cs, r.name).value.value))
    ensures r.count.Some? ==> r.count.value == Volume(Contract(cs, r.name).value.value)
  {
    if ProposalRowsAreU32(cs) {
      StepsExact(cs);
      ExactAt(Steps(cs), Contracted(cs), r);
    } else {
      var bare := cs.(proposal := None);
      RowStaysWithoutProposal(cs, r);
      ContractStaysWithoutProposal(cs, r.name);
      StepsExact(bare);
      ExactAt(Steps(bare), Contracted(bare), r);
    }
  }

  /** So a shape the contract describes beyond u64 never reaches a binding: the validators, which run first,
      refuse the configuration whatever its bindings count. */
  lemma OversizedShapesAreRefused(cs: Components, r: Row, counts: map<Name, nat>)
    requires r in Steps(cs) && r.Need?
    requires Contract(cs, r.name).Some? && Contract(cs, r.name).value.Some?
    requires !IsU64(Volume(Contract(cs, r.name).value.value))
    ensures !Validates(cs, counts)
  {
    if Validates(cs, counts) {
      ValidatedInventory(cs, counts, r);
    }
  }

  /** The contract alone bounds nothing: it may describe a matrix without error although the validators'
      element count overflows. */
  lemma ContractMayExceedU64(c: Config, cs: Components)
    requires cs == Components(c, None, false, None, None, None)
    requires c.dims == map[HiddenSize := MAX_U32, VocabSize := 1, NumAttentionHeads := 0x8000_0000,
                           NumKeyValueHeads := 1, HeadDim := 0x8000_0000]
    ensures var name := [Text, Layers, Index(0), Attention, Query];
            && Contract(cs, name) == Shaped([0x4000_0000_0000_0000, MAX_U32])
            && AttentionCount(c, Dim(c, HiddenSize), Query) == None
  {
    LayerContract(cs, Text, c, MAX_U32, 0, [Attention, Query]);
    assert [Text, Layers, Index(0)] + [Attention, Query] == [Text, Layers, Index(0), Attention, Query];
  }

  /** A declared row count beyond u32 is refused by the validators and described by the contract. */
  lemma WideProposalDiffers(p: ProposalConfig, cs: Components)
    requires cs.proposal == Some(p) && p.indexed && p.config.dims == map[Rows := 0x1_0000_0000]
    requires Dim(cs.text, HiddenSize) == Some(1) && Dim(cs.text, VocabSize) == Some(1)
    ensures Fits(Contract(cs, [Proposal, Head])) && ProposalCount(p, Some(1)) == None
  {
    ProposalContract(cs, p, 1, 1, Head);
    PairSame(0x1_0000_0000, 1);
  }
}
