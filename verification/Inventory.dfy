/** Two descriptions of the native parameter inventory: the rows the validators require, each a name and an
    element count, and the binding contract, a shape per name. */
module Inventory {
  import opened Wrappers
  import CheckedU64
  import Rope

  const MAX_U32: nat := 0xFFFF_FFFF

  /** One segment of a parameter name between slashes. */
  datatype Segment =
    | Text | Mtp | Dflash | Dflash2 | Vision | Proposal
    | Layers | Index(n: nat) | Attention | Gdn | Mlp | Moe | Experts | Shared | Merger | CandidateSelector
    | Head | TokenIds | TokenEmbedding | OutputHead | FinalNorm | EmbeddingNorm | HiddenNorm | ContextNorm
    | InputProjection | FeatureProjection | HiddenProjection | PredecessorCodebook | SuccessorCodebook
    | InputNorm | PostAttentionNorm | Query | Key | Gate | Value | Output | QueryNorm | KeyNorm
    | ContextKey | ContextValue | Z | AProjection | BProjection | ALog | DtBias | Convolution | Norm
    | Up | Down | Router | SharedScore | AttentionConv | MlpConv | BaseKernel | KernelProjection
    | PatchEmbedding | PatchEmbeddingBias | PositionEmbedding | NormWeight | NormBias
    | Fc1 | Fc1Bias | Fc2 | Fc2Bias | Norm1Weight | Norm1Bias | Norm2Weight | Norm2Bias
    | QueryBias | KeyBias | ValueBias | OutputBias
    | Other(spelling: string)

  type Name = seq<Segment>

  datatype Dimension =
    | HiddenSize | VocabSize | MaxPositions | NumHiddenLayers
    | NumAttentionHeads | NumKeyValueHeads | HeadDim
    | LinearNumKeyHeads | LinearKeyHeadDim | LinearNumValueHeads | LinearValueHeadDim | LinearConvKernelDim
    | IntermediateSize | NumExperts | NumExpertsPerTok | MoeIntermediateSize | SharedExpertIntermediateSize
    | SlidingWindow | ConvKernelSize | ConvGroupSize | SelectorRank | SelectorTopK
    | Depth | NumHeads | PatchSize | TemporalPatchSize | SpatialMergeSize | NumPositions | Rows

  datatype LayerKind = Full | Linear | Sliding | Unknown

  /** One component's configuration: its integer members, and what the checks beside them read. `admitted`
      stands for the checks on strings, floats and member names. */
  datatype Config = Config(
    dims: map<Dimension, nat>, moe: bool, layers: seq<LayerKind>, admitted: bool,
    ropePresent: bool, ropeWidth: nat, ropeSections: (nat, nat, nat), taps: seq<nat>, maskToken: nat)

  datatype ProposalConfig = ProposalConfig(indexed: bool, config: Config)

  datatype Components = Components(
    text: Config, proposal: Option<ProposalConfig>, mtp: bool,
    dflash: Option<Config>, dflash2: Option<Config>, vision: Option<Config>)

  // ----- Checked arithmetic that carries failure along

  function Uint(c: Config, d: Dimension): Option<nat> {
    if d in c.dims && 1 <= c.dims[d] <= CheckedU64.MAX_U64 then Some(c.dims[d]) else None
  }

  function Dim(c: Config, d: Dimension): Option<nat> {
    var n :- Uint(c, d);
    if n <= MAX_U32 then Some(n) else None
  }

  predicate IsU64(n: nat) {
    n <= CheckedU64.MAX_U64
  }

  function Mul(a: nat, b: nat): Option<nat> {
    CheckedU64.MulNonNegative(a, b);
    if IsU64(a * b) then Some(a * b) else None
  }

  function Times(a: Option<nat>, b: Option<nat>): Option<nat> {
    var x :- a;
    var y :- b;
    Mul(x, y)
  }

  function Plus(a: Option<nat>, b: Option<nat>): Option<nat> {
    var x :- a;
    var y :- b;
    if IsU64(x + y) then Some(x + y) else None
  }

  /** Query width, key width and head dimension. */
  function AttentionDims(c: Config): Option<(nat, nat, nat)> {
    var n :- Dim(c, NumAttentionHeads);
    var kv :- Dim(c, NumKeyValueHeads);
    var d :- Dim(c, HeadDim);
    if n % kv != 0 then None
    else
      var q :- Mul(n, d);
      var k :- Mul(kv, d);
      Some((q, k, d))
  }

  function QueryWidth(c: Config): Option<nat> {
    var a :- AttentionDims(c);
    Some(a.0)
  }

  function KeyWidth(c: Config): Option<nat> {
    var a :- AttentionDims(c);
    Some(a.1)
  }

  function HeadWidth(c: Config): Option<nat> {
    var a :- AttentionDims(c);
    Some(a.2)
  }

  function GdnKeyWidth(c: Config): Option<nat> {
    Times(Dim(c, LinearNumKeyHeads), Dim(c, LinearKeyHeadDim))
  }

  function GdnValueWidth(c: Config): Option<nat> {
    Times(Dim(c, LinearNumValueHeads), Dim(c, LinearValueHeadDim))
  }

  function GdnConvolutionWidth(c: Config): Option<nat> {
    Plus(Times(Some(2), GdnKeyWidth(c)), GdnValueWidth(c))
  }

  function PatchWidth(c: Config): Option<nat> {
    Times(Times(Times(Some(3), Dim(c, TemporalPatchSize)), Dim(c, PatchSize)), Dim(c, PatchSize))
  }

  function MergerWidth(c: Config, h: Option<nat>): Option<nat> {
    Times(Times(Dim(c, SpatialMergeSize), Dim(c, SpatialMergeSize)), h)
  }

  // ----- What the validators require

  /** A step of a validator: a parameter that must exist with a count, or a check of its own. A count that
      could not be computed fails the step like a check that does not hold. */
  datatype Row = Need(name: Name, count: Option<nat>) | Check(ok: bool)

  function Under(prefix: Name, rows: seq<Row>): (r: seq<Row>)
    ensures |r| == |rows|
    ensures forall i :: 0 <= i < |rows| ==>
              r[i] == if rows[i].Need? then Need(prefix + rows[i].name, rows[i].count) else rows[i]
  {
    if rows == [] then []
    else
      [if rows[0].Need? then Need(prefix + rows[0].name, rows[0].count) else rows[0]] + Under(prefix, rows[1..])
  }

  /** One requirement per listed last segment, in order. */
  function Needs(prefix: Name, lasts: seq<Segment>, count: Segment -> Option<nat>): (r: seq<Row>)
    ensures |r| == |lasts| && forall i :: 0 <= i < |lasts| ==> r[i] == Need(prefix + [lasts[i]], count(lasts[i]))
  {
    seq(|lasts|, i requires 0 <= i < |lasts| => Need(prefix + [lasts[i]], count(lasts[i])))
  }

  function Constant(count: Option<nat>): Segment -> Option<nat> {
    (l: Segment) => count
  }

  const GDN: seq<Segment> :=
    [Query, Key, Value, Z, AProjection, BProjection, ALog, DtBias, Convolution, Norm, Output]

  function GdnCount(c: Config, h: Option<nat>, last: Segment): Option<nat> {
    if last == Query || last == Key then Times(GdnKeyWidth(c), h)
    else if last == Value || last == Z then Times(GdnValueWidth(c), h)
    else if last == AProjection || last == BProjection then Times(Dim(c, LinearNumValueHeads), h)
    else if last == ALog || last == DtBias then Dim(c, LinearNumValueHeads)
    else if last == Convolution then Times(Dim(c, LinearConvKernelDim), GdnConvolutionWidth(c))
    else if last == Norm then Dim(c, LinearValueHeadDim)
    else if last == Output then Times(h, GdnValueWidth(c))
    else None
  }

  function GdnCheck(c: Config): Row {
    var heads, keyHeads := Dim(c, LinearNumValueHeads), Dim(c, LinearNumKeyHeads);
    Check(heads.Some? && keyHeads.Some? && heads.value % keyHeads.value == 0)
  }

  function GdnRows(c: Config, h: Option<nat>): seq<Row> {
    [GdnCheck(c)] + Needs([Gdn], GDN, (l: Segment) => GdnCount(c, h, l))
  }

  const ATTENTION: seq<Segment> := [Query, Key, Gate, Value, QueryNorm, KeyNorm, Output]
  const DRAFT_ATTENTION: seq<Segment> :=
    [Query, Key, Value, ContextKey, ContextValue, QueryNorm, KeyNorm, Output]

  function AttentionCount(c: Config, h: Option<nat>, last: Segment): Option<nat> {
    if last == Query || last == Gate then Times(QueryWidth(c), h)
    else if last == Key || last == Value || last == ContextKey || last == ContextValue then Times(KeyWidth(c), h)
    else if last == QueryNorm || last == KeyNorm then HeadWidth(c)
    else if last == Output then Times(h, QueryWidth(c))
    else None
  }

  function AttentionRows(c: Config, h: Option<nat>, lasts: seq<Segment>): seq<Row> {
    Needs([Attention], lasts, (l: Segment) => AttentionCount(c, h, l))
  }

  const FEED_FORWARD: seq<Segment> := [Gate, Up, Down]

  function MlpRows(c: Config, h: Option<nat>): seq<Row> {
    Needs([Mlp], FEED_FORWARD, Constant(Times(Dim(c, IntermediateSize), h)))
  }

  function ExpertRows(count: Option<nat>, experts: nat): seq<Row> {
    if experts == 0 then []
    else ExpertRows(count, experts - 1) + Needs([Moe, Experts, Index(experts - 1)], FEED_FORWARD, Constant(count))
  }

  function BoundedExperts(c: Config): nat {
    var experts := Dim(c, NumExperts);
    if experts.Some? && experts.value <= 100_000 then experts.value else 0
  }

  function MoeCount(c: Config, h: Option<nat>, last: Segment): Option<nat> {
    if last == Router then Times(Dim(c, NumExperts), h) else h
  }

  function MoeChecks(c: Config): seq<Row> {
    var experts, chosen := Dim(c, NumExperts), Dim(c, NumExpertsPerTok);
    var width, shared := Dim(c, MoeIntermediateSize), Dim(c, SharedExpertIntermediateSize);
    [ Check(IntermediateSize !in c.dims),
      Check(experts.Some? && chosen.Some? && experts.value <= 100_000 && chosen.value <= experts.value),
      Check(width.Some? && shared.Some?) ]
  }

  function MoeBody(c: Config, h: Option<nat>): seq<Row> {
    Needs([Moe], [Router, SharedScore], (l: Segment) => MoeCount(c, h, l))
    + ExpertRows(Times(Dim(c, MoeIntermediateSize), h), BoundedExperts(c))
    + Needs([Moe, Shared], FEED_FORWARD, Constant(Times(Dim(c, SharedExpertIntermediateSize), h)))
  }

  function MoeRows(c: Config, h: Option<nat>): seq<Row> {
    MoeChecks(c) + MoeBody(c, h)
  }

  function DenseCheck(c: Config): Row {
    Check(
      NumExperts !in c.dims && NumExpertsPerTok !in c.dims
      && MoeIntermediateSize !in c.dims && SharedExpertIntermediateSize !in c.dims)
  }

  function BlockRows(c: Config, h: Option<nat>, linear: bool): seq<Row> {
    Needs([], [InputNorm, PostAttentionNorm], Constant(h))
    + (if linear then GdnRows(c, h) else AttentionRows(c, h, ATTENTION))
    + if c.moe then MoeRows(c, h) else [DenseCheck(c)] + MlpRows(c, h)
  }

  function KindCheck(c: Config, i: nat): Row
    requires i < |c.layers|
  {
    Check(c.layers[i].Full? || c.layers[i].Linear?)
  }

  function TextLayer(c: Config, h: Option<nat>, i: nat): seq<Row>
    requires i < |c.layers|
  {
    [KindCheck(c, i)]
    + Under([Text, Layers, Index(i)], BlockRows(c, h, c.layers[i].Linear?))
  }

  function LayerRows(c: Config, h: Option<nat>, layers: nat): seq<Row>
    requires layers <= |c.layers|
  {
    if layers == 0 then [] else LayerRows(c, h, layers - 1) + TextLayer(c, h, layers - 1)
  }

  /** The layer count is bounded and matches the listed kinds. */
  predicate CoversLayers(c: Config) {
    Dim(c, NumHiddenLayers).Some? && |c.layers| == Dim(c, NumHiddenLayers).value <= 1024
  }

  /** Attention members present, or anything that needs them. */
  predicate NeedsRope(c: Config, mtp: bool) {
    || Full in c.layers || mtp || c.ropePresent
    || HeadDim in c.dims || NumAttentionHeads in c.dims || NumKeyValueHeads in c.dims
  }

  predicate RopeOk(c: Config) {
    && AttentionDims(c).Some? && c.ropeWidth > 0 && c.ropeWidth % 2 == 0
    && c.ropeSections.0 <= MAX_U32 && c.ropeSections.1 <= MAX_U32 && c.ropeSections.2 <= MAX_U32
    && Rope.SectionsOk(c.ropeSections, c.ropeWidth)
  }

  function MtpRows(c: Config, h: Option<nat>): seq<Row> {
    [Need([Mtp, InputProjection], Times(Some(2), Times(h, h)))]
    + Needs([Mtp], [EmbeddingNorm, HiddenNorm, FinalNorm], Constant(h))
    + Under([Mtp, Layers, Index(0)], BlockRows(c, h, false))
  }

  function DraftLayer(c: Config, h: Option<nat>): seq<Row> {
    Needs([], [InputNorm, PostAttentionNorm], Constant(h))
    + AttentionRows(c, h, DRAFT_ATTENTION)
    + MlpRows(c, h)
  }

  /** The group size the hidden width is divided by; the check beside it makes the division exact. */
  function GroupCount(c: Config, h: Option<nat>): Option<nat> {
    var width :- h;
    var group :- Dim(c, ConvGroupSize);
    Some(width / group)
  }

  const CONV: seq<Segment> := [BaseKernel, KernelProjection]

  function ConvCount(c: Config, h: Option<nat>, last: Segment): Option<nat> {
    var twice := Times(Some(2), Dim(c, ConvKernelSize));
    if last == BaseKernel then Times(twice, h) else Times(Times(twice, GroupCount(c, h)), h)
  }

  function ConvRows(c: Config, h: Option<nat>): seq<Row> {
    var count := (l: Segment) => ConvCount(c, h, l);
    Needs([AttentionConv], CONV, count) + Needs([MlpConv], CONV, count)
  }

  function RepeatedRows(component: Segment, rows: seq<Row>, layers: nat): seq<Row> {
    if layers == 0 then []
    else RepeatedRows(component, rows, layers - 1) + Under([component, Layers, Index(layers - 1)], rows)
  }

  predicate DraftKindsOk(c: Config) {
    forall i :: 0 <= i < |c.layers| ==>
      c.layers[i].Full? || (c.layers[i].Sliding? && Dim(c, SlidingWindow).Some?)
  }

  predicate TapsOk(c: Config, target: Config) {
    && c.taps != [] && Dim(target, NumHiddenLayers).Some?
    && (forall i :: 0 <= i < |c.taps| ==> c.taps[i] < Dim(target, NumHiddenLayers).value)
    && forall i, j :: 0 <= i < j < |c.taps| ==> c.taps[i] != c.taps[j]
  }

  function DraftChecks(c: Config, vocab: Option<nat>, target: Config): seq<Row> {
    [ Check(c.admitted), Check(CoversLayers(c)), Check(HeadWidth(c).Some? && HeadWidth(c).value % 2 == 0),
      Check(Dim(c, MaxPositions).Some? && DraftKindsOk(c) && TapsOk(c, target)),
      Check(vocab.Some? && c.maskToken < vocab.value) ]
  }

  function DraftRows(component: Segment, c: Config, h: Option<nat>, vocab: Option<nat>, target: Config): seq<Row> {
    DraftChecks(c, vocab, target) + DraftBody(component, c, h, vocab)
  }

  function DraftFront(component: Segment, c: Config, h: Option<nat>): seq<Row> {
    [Need([component, FeatureProjection], Times(Times(h, h), Some(|c.taps|)))]
    + Needs([component], [ContextNorm, FinalNorm], Constant(h))
  }

  function OptionalSelector(component: Segment, c: Config, h: Option<nat>, vocab: Option<nat>): seq<Row> {
    if component == Dflash2 then SelectorRows(c, h, vocab) else []
  }

  function DraftBody(component: Segment, c: Config, h: Option<nat>, vocab: Option<nat>): seq<Row> {
    DraftFront(component, c, h)
    + RepeatedRows(component, DraftLayer(c, h), |c.layers|)
    + OptionalSelector(component, c, h, vocab)
  }

  function SelectorCheck(c: Config, h: Option<nat>): Row {
    Check(Dim(c, SelectorTopK).Some? && Dim(c, ConvGroupSize).Some? && h.Some?
          && h.value % Dim(c, ConvGroupSize).value == 0)
  }

  const SELECTOR: seq<Segment> := [HiddenProjection, PredecessorCodebook, SuccessorCodebook]

  function SelectorCount(c: Config, h: Option<nat>, vocab: Option<nat>, last: Segment): Option<nat> {
    if last == HiddenProjection then Times(Dim(c, SelectorRank), h) else Times(vocab, Dim(c, SelectorRank))
  }

  function SelectorRows(c: Config, h: Option<nat>, vocab: Option<nat>): seq<Row> {
    [SelectorCheck(c, h)]
    + RepeatedRows(Dflash2, ConvRows(c, h), |c.layers|)
    + Needs([Dflash2, CandidateSelector], SELECTOR, (l: Segment) => SelectorCount(c, h, vocab, l))
  }

  /** The head and position checks; the source takes the square root in floating point. */
  predicate VisionGeometry(c: Config, h: Option<nat>) {
    var heads, positions := Dim(c, NumHeads), Dim(c, NumPositions);
    && h.Some? && heads.Some? && positions.Some? && h.value % heads.value == 0 && h.value / heads.value % 4 == 0
    && exists side :: 0 <= side <= positions.value && side * side == positions.value
  }

  function VisionFrontCount(c: Config, h: Option<nat>, last: Segment): Option<nat> {
    if last == PatchEmbedding then Times(h, PatchWidth(c))
    else if last == PositionEmbedding then Times(Dim(c, NumPositions), h)
    else h
  }

  function MergerCount(c: Config, h: Option<nat>, target: Option<nat>, last: Segment): Option<nat> {
    var merger := MergerWidth(c, h);
    if last == Fc1 then Times(merger, merger)
    else if last == Fc1Bias then merger
    else if last == Fc2 then Times(target, merger)
    else if last == Fc2Bias then target
    else h
  }

  function VisionMlpCount(c: Config, h: Option<nat>, last: Segment): Option<nat> {
    if last == Fc1Bias then Dim(c, IntermediateSize)
    else if last == Fc2Bias then h
    else Times(h, Dim(c, IntermediateSize))
  }

  const VISION_FRONT: seq<Segment> := [PatchEmbedding, PatchEmbeddingBias, PositionEmbedding]
  const MERGER: seq<Segment> := [NormWeight, NormBias, Fc1, Fc1Bias, Fc2, Fc2Bias]
  const VISION_MLP: seq<Segment> := [Fc2Bias, Fc1, Fc2, Fc1Bias]

  function VisionFront(c: Config, h: Option<nat>, target: Option<nat>): seq<Row> {
    Needs([Vision], VISION_FRONT, (l: Segment) => VisionFrontCount(c, h, l))
    + Needs([Vision, Merger], MERGER, (l: Segment) => MergerCount(c, h, target, l))
  }

  function VisionLayer(c: Config, h: Option<nat>): seq<Row> {
    Needs([], [Norm1Weight, Norm1Bias, Norm2Weight, Norm2Bias], Constant(h))
    + Needs([Attention], [QueryBias, KeyBias, ValueBias, OutputBias], Constant(h))
    + Needs([Attention], [Query, Key, Value, Output], Constant(Times(h, h)))
    + Needs([Mlp], VISION_MLP, (l: Segment) => VisionMlpCount(c, h, l))
  }

  function VisionChecks(c: Config): seq<Row> {
    var h := Dim(c, HiddenSize);
    [ Check(c.admitted), Check(VisionGeometry(c, h)), Check(Dim(c, Depth).Some? && Dim(c, Depth).value <= 1024),
      Check(Dim(c, IntermediateSize).Some? && PatchWidth(c).Some? && MergerWidth(c, h).Some?) ]
  }

  function VisionBody(c: Config, target: Option<nat>): seq<Row> {
    var h := Dim(c, HiddenSize);
    VisionFront(c, h, target) + RepeatedRows(Vision, VisionLayer(c, h), VisionDepth(c))
  }

  function VisionRows(c: Config, target: Option<nat>): seq<Row> {
    VisionChecks(c) + VisionBody(c, target)
  }

  function VisionDepth(c: Config): nat {
    var depth := Dim(c, Depth);
    if depth.Some? && depth.value <= 1024 then depth.value else 0
  }

  function ProposalCount(p: ProposalConfig, vocab: Option<nat>): Option<nat> {
    if p.indexed then Dim(p.config, Rows) else vocab
  }

  function ProposalCheck(rows: Option<nat>, vocab: Option<nat>): Row {
    Check(rows.Some? && vocab.Some? && rows.value <= vocab.value)
  }

  function ProposalRows(p: ProposalConfig, h: Option<nat>, vocab: Option<nat>): seq<Row> {
    var rows := ProposalCount(p, vocab);
    [ProposalCheck(rows, vocab)] + [Need([Proposal, Head], Times(rows, h))] + ProposalIds(p, rows)
  }

  function ProposalIds(p: ProposalConfig, rows: Option<nat>): seq<Row> {
    if p.indexed then [Need([Proposal, TokenIds], rows)] else []
  }

  function OptionalProposal(cs: Components, h: Option<nat>, vocab: Option<nat>): seq<Row> {
    if cs.proposal.Some? then ProposalRows(cs.proposal.value, h, vocab) else []
  }

  function OptionalDraft(
    component: Segment, draft: Option<Config>, cs: Components, h: Option<nat>, vocab: Option<nat>): seq<Row> {
    if draft.Some? then DraftRows(component, draft.value, h, vocab, cs.text) else []
  }

  /** Every step the container validators take for a set of components, in their order. */
  function Steps(cs: Components): seq<Row> {
    var h, vocab := Dim(cs.text, HiddenSize), Dim(cs.text, VocabSize);
    FrontRows(cs) + Body(cs, h, vocab) + Tail(cs, h, vocab)
  }

  function Body(cs: Components, h: Option<nat>, vocab: Option<nat>): seq<Row> {
    LayerRows(cs.text, h, |cs.text.layers|)
    + OptionalMtp(cs, h)
    + OptionalDraft(Dflash, cs.dflash, cs, h, vocab)
    + OptionalVision(cs, h)
  }

  function OptionalMtp(cs: Components, h: Option<nat>): seq<Row> {
    if cs.mtp then MtpRows(cs.text, h) else []
  }

  function OptionalVision(cs: Components, h: Option<nat>): seq<Row> {
    if cs.vision.Some? then VisionRows(cs.vision.value, h) else []
  }

  function Tail(cs: Components, h: Option<nat>, vocab: Option<nat>): seq<Row> {
    OptionalProposal(cs, h, vocab) + OptionalDraft(Dflash2, cs.dflash2, cs, h, vocab)
  }

  function MatrixNeed(cs: Components, last: Segment): Row {
    Need([Text, last], Times(Uint(cs.text, VocabSize), Uint(cs.text, HiddenSize)))
  }

  function FrontNeeds(cs: Components): seq<Row> {
    [MatrixNeed(cs, TokenEmbedding)] + [MatrixNeed(cs, OutputHead)]
    + [Need([Text, FinalNorm], Uint(cs.text, HiddenSize))]
  }

  function FrontChecks(cs: Components): seq<Row> {
    [ Check(cs.text.admitted), Check(Dim(cs.text, HiddenSize).Some? && Dim(cs.text, VocabSize).Some?),
      Check(Dim(cs.text, MaxPositions).Some?), Check(CoversLayers(cs.text)),
      Check(NeedsRope(cs.text, cs.mtp) ==> RopeOk(cs.text)) ]
  }

  function FrontRows(cs: Components): seq<Row> {
    FrontNeeds(cs) + FrontChecks(cs)
  }

  /** The counts of the container's bindings satisfy the validators. */
  predicate Validates(cs: Components, counts: map<Name, nat>) {
    forall r :: r in Steps(cs) ==> Satisfied(r, counts)
  }

  predicate Satisfied(r: Row, counts: map<Name, nat>) {
    if r.Need? then r.count.Some? && r.name in counts && counts[r.name] == r.count.value else r.ok
  }

  // ----- The binding contract

  type Shape = seq<nat>

  /** The source's three outcomes: an error (none), no contract for the name (some none), or a shape. */
  type Outcome = Option<Option<Shape>>

  const UNKNOWN: Outcome := Some(None)

  function Shaped(s: Shape): Outcome {
    Some(Some(s))
  }

  function ConfigOf(component: Segment, cs: Components): Option<Config> {
    if component == Text then Some(cs.text)
    else if component == Mtp then if cs.mtp then Some(cs.text) else None
    else if component == Dflash then cs.dflash
    else if component == Dflash2 then cs.dflash2
    else if component == Vision then cs.vision
    else None
  }

  function ProposalShape(p: ProposalConfig, th: nat, vocab: nat, rest: Name): Outcome {
    var rows :- if p.indexed then Uint(p.config, Rows) else Some(vocab);
    if |rest| != 1 then UNKNOWN
    else
      if rest[0] == Head then Shaped([rows, th])
      else if rest[0] == TokenIds then Shaped([rows])
      else UNKNOWN
  }

  /** The parameter after `layers/<index>/`, if there is one. */
  function LayerParameter(name: Name): Option<Name> {
    if |name| < 2 then None
    else if name[1] == Layers then
      if |name| >= 4 && name[2].Index? && name[2].n <= MAX_U32 then Some(name[3..]) else None
    else LayerParameter(name[1..])
  }

  function VisionShape(c: Config, h: nat, th: nat, name: Name): Outcome
    requires |name| >= 2
  {
    var inner :- Dim(c, IntermediateSize);
    var patch :- PatchWidth(c);
    var merger :- MergerWidth(c, Some(h));
    if |name| == 2 then VisionFrontShape(c, h, patch, name[1])
    else if |name| == 3 && name[1] == Merger then MergerShape(h, th, merger, name[2])
    else
      var suffix := LayerParameter(name);
      if suffix.None? then UNKNOWN else VisionLayerShape(h, inner, suffix.value)
  }

  function VisionFrontShape(c: Config, h: nat, patch: nat, last: Segment): Outcome {
    if last == PatchEmbedding then Shaped([h, patch])
    else if last == PatchEmbeddingBias then Shaped([h])
    else if last == PositionEmbedding then
      var positions :- Dim(c, NumPositions);
      Shaped([positions, h])
    else UNKNOWN
  }

  function MergerShape(h: nat, th: nat, merger: nat, last: Segment): Outcome {
    if last == NormWeight || last == NormBias then Shaped([h])
    else if last == Fc1 then Shaped([merger, merger])
    else if last == Fc1Bias then Shaped([merger])
    else if last == Fc2 then Shaped([th, merger])
    else if last == Fc2Bias then Shaped([th])
    else UNKNOWN
  }

  function VisionLayerShape(h: nat, inner: nat, s: Name): Outcome {
    if |s| == 1 && s[0] in {Norm1Weight, Norm1Bias, Norm2Weight, Norm2Bias} then Shaped([h])
    else if |s| == 2 && s[0] == Attention then
      if s[1] in {QueryBias, KeyBias, ValueBias, OutputBias} then Shaped([h])
      else if s[1] in {Query, Key, Value, Output} then Shaped([h, h])
      else UNKNOWN
    else if |s| == 2 && s[0] == Mlp then
      if s[1] == Fc2Bias then Shaped([h])
      else if s[1] == Fc1Bias then Shaped([inner])
      else if s[1] == Fc1 then Shaped([inner, h])
      else if s[1] == Fc2 then Shaped([h, inner])
      else UNKNOWN
    else UNKNOWN
  }

  predicate Begins(s: Name, word: Segment) {
    |s| >= 2 && s[0] == word
  }

  function AttentionShape(c: Config, h: nat, s: Name): Outcome {
    var (q, k, d) :- AttentionDims(c);
    if |s| != 2 then UNKNOWN
    else
      if s[1] == Query || s[1] == Gate then Shaped([q, h])
      else if s[1] == Key || s[1] == Value || s[1] == ContextKey || s[1] == ContextValue then Shaped([k, h])
      else if s[1] == QueryNorm || s[1] == KeyNorm then Shaped([d])
      else if s[1] == Output then Shaped([h, q])
      else UNKNOWN
  }

  function GdnShape(c: Config, h: nat, s: Name): Outcome {
    var k :- GdnKeyWidth(c);
    var heads :- Dim(c, LinearNumValueHeads);
    var v :- GdnValueWidth(c);
    if |s| != 2 then UNKNOWN
    else
      if s[1] == Query || s[1] == Key then Shaped([k, h])
      else if s[1] == Value || s[1] == Z then Shaped([v, h])
      else if s[1] == AProjection || s[1] == BProjection then Shaped([heads, h])
      else if s[1] == ALog || s[1] == DtBias then Shaped([heads])
      else if s[1] == Norm then
        var d :- Dim(c, LinearValueHeadDim);
        Shaped([d])
      else if s[1] == Convolution then
        var kernel :- Dim(c, LinearConvKernelDim);
        var width :- GdnConvolutionWidth(c);
        Shaped([kernel, width])
      else if s[1] == Output then Shaped([h, v])
      else UNKNOWN
  }

  function MlpShape(c: Config, h: nat, s: Name): Outcome {
    var i :- Dim(c, IntermediateSize);
    if |s| != 2 then UNKNOWN
    else
      if s[1] == Gate || s[1] == Up then Shaped([i, h])
      else if s[1] == Down then Shaped([h, i])
      else UNKNOWN
  }

  function MoeShape(c: Config, h: nat, s: Name): Outcome {
    var expert :- Dim(c, MoeIntermediateSize);
    var shared :- Dim(c, SharedExpertIntermediateSize);
    if |s| == 2 && s[1] == Router then
      var experts :- Dim(c, NumExperts);
      Shaped([experts, h])
    else if |s| == 2 && s[1] == SharedScore then Shaped([1, h])
    else if |s| >= 3 && s[1] == Shared then FeedForwardShape(shared, h, s[|s| - 1])
    else if |s| >= 3 && s[1] == Experts then FeedForwardShape(expert, h, s[|s| - 1])
    else UNKNOWN
  }

  function FeedForwardShape(width: nat, h: nat, last: Segment): Outcome {
    if last == Down then Shaped([h, width])
    else if last == Gate || last == Up then Shaped([width, h])
    else UNKNOWN
  }

  function ConvShape(c: Config, h: nat, s: Name): Outcome {
    if |s| != 2 || s[0] !in {AttentionConv, MlpConv} then UNKNOWN
    else
      if s[1] == BaseKernel then
        var kernel :- Dim(c, ConvKernelSize);
        Shaped([2, kernel, h])
      else if s[1] == KernelProjection then
        var rows :- Times(Times(Some(2), Dim(c, ConvKernelSize)), GroupCount(c, Some(h)));
        Shaped([rows, h])
      else UNKNOWN
  }

  function LayerShape(component: Segment, c: Config, h: nat, s: Name): Outcome {
    if |s| == 1 && (s[0] == InputNorm || s[0] == PostAttentionNorm) then Shaped([h])
    else if Begins(s, Attention) then AttentionShape(c, h, s)
    else if Begins(s, Gdn) then GdnShape(c, h, s)
    else if Begins(s, Mlp) then MlpShape(c, h, s)
    else if Begins(s, Moe) then MoeShape(c, h, s)
    else if component == Dflash2 then ConvShape(c, h, s)
    else UNKNOWN
  }

  function SelectorShape(c: Config, h: nat, vocab: nat, rest: Name): Outcome {
    var rank :- Dim(c, SelectorRank);
    if |rest| != 2 then UNKNOWN
    else
      if rest[1] == HiddenProjection then Shaped([rank, h])
      else if rest[1] == PredecessorCodebook || rest[1] == SuccessorCodebook then Shaped([vocab, rank])
      else UNKNOWN
  }

  function ComponentShape(c: Config, h: nat, th: nat, vocab: nat, name: Name): Outcome
    requires |name| >= 2
  {
    var component, last := name[0], name[|name| - 1];
    if |name| == 2 && (last == TokenEmbedding || last == OutputHead) then Shaped([vocab, h])
    else if |name| == 2 && last in {FinalNorm, EmbeddingNorm, HiddenNorm, ContextNorm} then Shaped([h])
    else if |name| == 2 && component == Mtp && last == InputProjection then
      var twice :- Mul(2, h);
      Shaped([h, twice])
    else if |name| == 2 && (component == Dflash || component == Dflash2) && last == FeatureProjection then
      var width :- Mul(|c.taps|, h);
      Shaped([h, width])
    else if component == Dflash2 && Begins(name[1..], CandidateSelector) then
      SelectorShape(c, h, vocab, name[1..])
    else if component == Vision then VisionShape(c, h, th, name)
    else
      var suffix := LayerParameter(name);
      if suffix.None? then UNKNOWN else LayerShape(component, c, h, suffix.value)
  }

  /** The binding contract of a parameter name. */
  function Contract(cs: Components, name: Name): Outcome {
    if |name| < 2 then UNKNOWN
    else
      var th :- Dim(cs.text, HiddenSize);
      var vocab :- Dim(cs.text, VocabSize);
      if name[0] == Proposal then
        if cs.proposal.None? then UNKNOWN else ProposalShape(cs.proposal.value, th, vocab, name[1..])
      else
        var config := ConfigOf(name[0], cs);
        if config.None? then UNKNOWN
        else
          var h :- if name[0] == Dflash || name[0] == Dflash2 then Some(th) else Dim(config.value, HiddenSize);
          ComponentShape(config.value, h, th, vocab, name)
  }
}
