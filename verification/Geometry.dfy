/** Admission of one tensor descriptor of a version 3 container: its encoded byte count must be the
    native plane layout of its shape, computed in checked u64 arithmetic. */
module Geometry {
  import opened Wrappers
  import opened CheckedU64

  datatype Format = Bf16 | Fp32 | Int32 | Q4 | Q5 | Q6 | Q8 | Fp8 | Nvfp4 | UnknownFormat

  datatype Layout = Contiguous | RowSplit | RowScale | BlockScale | UnknownLayout

  /** A dimension outside u64, or zero, stands for any JSON value that is not a positive integer. */
  datatype Tensor = Tensor(shape: seq<int>, format: Format, layout: Layout, offset: u64, bytes: u64)

  predicate Dimension(d: int) {
    0 < d <= MAX_U64
  }

  function FoldElements(acc: u64, shape: seq<int>): Option<u64>
    decreases shape
  {
    if shape == [] then
      Some(acc)
    else if !Dimension(shape[0]) then
      None
    else
      var next :- Mul(acc, shape[0]);
      FoldElements(next, shape[1..])
  }

  function Elements(shape: seq<int>): Option<u64> {
    if |shape| <= 16 then FoldElements(1, shape) else None
  }

  predicate Grouped(f: Format) {
    f in {Q4, Q5, Q6, Q8}
  }

  function GroupSize(f: Format): (g: nat)
    ensures g == 32 || g == 64
  {
    if f == Q8 then 32 else 64
  }

  function HighBytesPerGroup(f: Format): nat {
    if f == Q5 then 8 else if f == Q6 then 16 else 0
  }

  function RowSplitBytes(n: u64, k: u64, f: Format): Option<u64> {
    var padded :- Align(k, 128);
    var groups :- Mul(n, padded / GroupSize(f));
    GroupPlanesBytes(groups, f)
  }

  /** The aligned bytes of one plane. */
  function PlaneBytes(groups: u64, bytesPerGroup: u64): Option<u64> {
    var bytes :- Mul(groups, bytesPerGroup);
    Align(bytes, 256)
  }

  function GroupPlanesBytes(groups: u64, f: Format): Option<u64> {
    var lowPlane :- PlaneBytes(groups, 32);
    var highPlane :- PlaneBytes(groups, HighBytesPerGroup(f));
    var planes :- Add(lowPlane, highPlane);
    var scales :- Mul(groups, 2);
    Add(planes, scales)
  }

  function EncodedBytes(t: Tensor): Option<u64> {
    var count :- Elements(t.shape);
    if t.layout == Contiguous then
      if t.format == Bf16 then Mul(count, 2)
      else if t.format == Fp32 || t.format == Int32 then Mul(count, 4)
      else None
    else if |t.shape| != 2 || !Dimension(t.shape[0]) || !Dimension(t.shape[1]) then
      None
    else
      var n, k := t.shape[0], t.shape[1];
      if t.layout == RowSplit && Grouped(t.format) then
        RowSplitBytes(n, k, t.format)
      else if t.layout == RowScale && t.format == Fp8 then
        var plane :- Align(count, 256);
        var scales :- Mul(n, 2);
        Add(plane, scales)
      else if t.layout == BlockScale && t.format == Nvfp4 && n % 128 == 0 && k % 64 == 0 then
        var plane :- Align(count / 2, 256);
        var scaled :- Add(plane, count / 16);
        Add(scaled, 4)
      else
        None
  }

  predicate Admits(t: Tensor) {
    var bytes := EncodedBytes(t);
    bytes.Some? && t.bytes > 0 && t.bytes == bytes.value && t.offset % 256 == 0
  }

  // ----- The native layout over unbounded integers

  ghost function Product(shape: seq<int>): int {
    if shape == [] then 1 else shape[0] * Product(shape[1..])
  }

  ghost predicate Supported(t: Tensor) {
    && |t.shape| <= 16
    && (forall i :: 0 <= i < |t.shape| ==> Dimension(t.shape[i]))
    && match t.layout
       case Contiguous => t.format in {Bf16, Fp32, Int32}
       case RowSplit => |t.shape| == 2 && Grouped(t.format)
       case RowScale => |t.shape| == 2 && t.format == Fp8
       case BlockScale => |t.shape| == 2 && t.format == Nvfp4 && t.shape[0] % 128 == 0 && t.shape[1] % 64 == 0
       case UnknownLayout => false
  }

  /** Elements actually stored: row-split layouts pad every row to a multiple of 128. */
  ghost function Padded(t: Tensor): int
    requires Supported(t)
  {
    if t.layout == RowSplit then t.shape[0] * RoundUp(t.shape[1], 128) else Product(t.shape)
  }

  /** Bits per element in the first and in the second data plane. */
  ghost function PlaneBits(f: Format): (nat, nat) {
    match f
    case Bf16 => (16, 0)
    case Fp32 => (32, 0)
    case Int32 => (32, 0)
    case Q4 => (4, 0)
    case Q5 => (4, 1)
    case Q6 => (4, 2)
    case Q8 => (8, 0)
    case Fp8 => (8, 0)
    case Nvfp4 => (4, 0)
    case UnknownFormat => (0, 0)
  }

  /** Bytes of scales: one half-precision scale a group or a row, or one byte a 16-element block plus
      one single-precision scale for the whole tensor. */
  ghost function ScaleBytes(t: Tensor): int
    requires Supported(t)
  {
    match t.layout
    case RowSplit => Padded(t) / GroupSize(t.format) * 2
    case RowScale => 2 * t.shape[0]
    case BlockScale => Padded(t) / 16 + 4
    case _ => 0
  }

  ghost function LowBytes(t: Tensor): int
    requires Supported(t)
  {
    Padded(t) * PlaneBits(t.format).0 / 8
  }

  ghost function HighBytes(t: Tensor): int
    requires Supported(t)
  {
    Padded(t) * PlaneBits(t.format).1 / 8
  }

  ghost function TotalBytes(t: Tensor): int
    requires Supported(t)
  {
    PaddedIsPositive(t);
    if t.layout == Contiguous then
      LowBytes(t)
    else
      RoundUp(LowBytes(t), 256) + RoundUp(HighBytes(t), 256) + ScaleBytes(t)
  }

  // ----- Lemmas

  lemma {:induction false} ProductPositive(shape: seq<int>)
    requires forall i :: 0 <= i < |shape| ==> shape[i] > 0
    ensures Product(shape) >= 1
  {
    if shape != [] {
      ProductPositive(shape[1..]);
      MulMonotone(shape[0], 1, Product(shape[1..]));
    }
  }

  lemma PaddedIsPositive(t: Tensor)
    requires Supported(t)
    ensures Padded(t) >= 1
  {
    ProductPositive(t.shape);
    if t.layout == RowSplit {
      MulMonotone(t.shape[0], 1, RoundUp(t.shape[1], 128));
    }
  }

  /** The left fold overflows exactly when the final product does: no intermediate product is larger. */
  lemma {:induction false} FoldExact(acc: u64, shape: seq<int>)
    requires acc >= 1
    ensures FoldElements(acc, shape).Some? <==>
            (forall i :: 0 <= i < |shape| ==> Dimension(shape[i])) && acc * Product(shape) <= MAX_U64
    ensures FoldElements(acc, shape).Some? ==> FoldElements(acc, shape).value == acc * Product(shape)
    decreases shape
  {
    if shape == [] {
    } else if !Dimension(shape[0]) {
    } else {
      var head, tail := shape[0], shape[1..];
      assert shape == [head] + tail;
      assert acc * Product(shape) == acc * head * Product(tail);
      MulMonotone(acc, 1, head);
      if forall i :: 0 <= i < |tail| ==> Dimension(tail[i]) {
        ProductPositive(tail);
        MulMonotone(acc * head, 1, Product(tail));
        if acc * head <= MAX_U64 {
          FoldExact(acc * head, tail);
        }
      } else {
        var i :| 0 <= i < |tail| && !Dimension(tail[i]);
        assert !Dimension(shape[i + 1]);
        if acc * head <= MAX_U64 {
          FoldExact(acc * head, tail);
        }
      }
    }
  }

  lemma ElementsExact(shape: seq<int>)
    ensures Elements(shape).Some? <==>
            && |shape| <= 16
            && (forall i :: 0 <= i < |shape| ==> Dimension(shape[i]))
            && Product(shape) <= MAX_U64
    ensures Elements(shape).Some? ==> Elements(shape).value == Product(shape)
  {
    FoldExact(1, shape);
  }

  lemma MatrixProduct(shape: seq<int>)
    requires |shape| == 2
    ensures Product(shape) == shape[0] * shape[1]
  {
    assert shape[1..][1..] == [];
    assert Product(shape[1..]) == shape[1];
  }

  /** A row-split matrix in groups: `q` groups a row of `g` elements each. */
  lemma GroupsHoldPaddedRow(n: nat, q: nat, g: nat)
    requires g > 0
    ensures n * (q * g) == n * q * g && (n * q * g) / g == n * q && (n * q * g) % g == 0
  {
    assert n * (q * g) == n * q * g;
    MulNonNegative(n, q);
    MultipleHasNoRemainder(n * q, g);
  }

  lemma GroupsOf(q: nat)
    ensures 128 * q / 32 * 32 == 128 * q && 128 * q / 64 * 64 == 128 * q
  {
  }

  lemma RoundUpInGroups(r: nat, g: nat)
    requires (g == 32 || g == 64) && r % 128 == 0
    ensures r == r / g * g
  {
    var q := r / 128;
    assert r == 128 * q;
    GroupsOf(q);
  }

  lemma PaddedInGroups(t: Tensor) returns (rows: nat)
    requires Supported(t) && t.layout == RowSplit
    ensures rows == t.shape[0] * (RoundUp(t.shape[1], 128) / GroupSize(t.format))
    ensures Padded(t) == rows * GroupSize(t.format) && Padded(t) / GroupSize(t.format) == rows
  {
    var n, g := t.shape[0], GroupSize(t.format);
    var q := RoundUp(t.shape[1], 128) / g;
    MulNonNegative(n, q);
    rows := n * q;
    RoundUpInGroups(RoundUp(t.shape[1], 128), g);
    GroupsHoldPaddedRow(n, q, g);
  }

  lemma RowSplitPlanes(t: Tensor, rows: nat)
    requires Supported(t) && t.layout == RowSplit
    requires Padded(t) == rows * GroupSize(t.format) && Padded(t) / GroupSize(t.format) == rows
    ensures LowBytes(t) == rows * 32 && HighBytes(t) == rows * HighBytesPerGroup(t.format)
    ensures ScaleBytes(t) == rows * 2
    ensures 8 * LowBytes(t) == PlaneBits(t.format).0 * Padded(t)
    ensures 8 * HighBytes(t) == PlaneBits(t.format).1 * Padded(t)
  {
    var p := Padded(t);
    match t.format
    case Q4 => assert p == rows * 64 && LowBytes(t) == p * 4 / 8;
    case Q5 => assert p == rows * 64 && LowBytes(t) == p * 4 / 8 && HighBytes(t) == p * 1 / 8;
    case Q6 => assert p == rows * 64 && LowBytes(t) == p * 4 / 8 && HighBytes(t) == p * 2 / 8;
    case Q8 => assert p == rows * 32 && LowBytes(t) == p * 8 / 8;
  }

  ghost function GroupPlanesTotal(groups: nat, f: Format): nat {
    RoundUp(groups * 32, 256) + RoundUp(groups * HighBytesPerGroup(f), 256) + groups * 2
  }

  function Bounded(n: nat): Option<u64> {
    if n <= MAX_U64 then Some(n) else None
  }

  lemma PlaneExact(groups: u64, width: u64)
    ensures groups * width >= 0 && PlaneBytes(groups, width) == Bounded(RoundUp(groups * width, 256))
  {
    MulNonNegative(groups, width);
    if groups * width <= MAX_U64 {
      AlignExact(groups * width, 256);
    }
  }

  lemma GroupPlanesSum(groups: u64, f: Format, low: nat, high: nat)
    requires PlaneBytes(groups, 32) == Bounded(low) && PlaneBytes(groups, HighBytesPerGroup(f)) == Bounded(high)
    ensures GroupPlanesBytes(groups, f) == Bounded(low + high + groups * 2)
  {
  }

  lemma GroupPlanesExact(groups: u64, f: Format)
    ensures GroupPlanesBytes(groups, f) == Bounded(GroupPlanesTotal(groups, f))
  {
    var width: u64 := HighBytesPerGroup(f);
    PlaneExact(groups, 32);
    PlaneExact(groups, width);
    GroupPlanesSum(groups, f, RoundUp(groups * 32, 256), RoundUp(groups * width, 256));
  }

  lemma RowSplitExact(t: Tensor)
    requires Supported(t) && t.layout == RowSplit
    ensures RowSplitBytes(t.shape[0], t.shape[1], t.format) ==
            if RoundUp(t.shape[1], 128) <= MAX_U64 && TotalBytes(t) <= MAX_U64 then Some(TotalBytes(t)) else None
  {
    AlignExact(t.shape[1], 128);
    var rows := PaddedInGroups(t);
    RowSplitPlanes(t, rows);
    assert TotalBytes(t) == GroupPlanesTotal(rows, t.format) >= rows;
    if rows <= MAX_U64 {
      GroupPlanesExact(rows, t.format);
    }
  }

  lemma MatrixExact(t: Tensor)
    requires Supported(t) && (t.layout == RowScale || t.layout == BlockScale)
    requires Product(t.shape) <= MAX_U64
    ensures EncodedBytes(t) == if TotalBytes(t) <= MAX_U64 then Some(TotalBytes(t)) else None
  {
    ElementsExact(t.shape);
    PaddedIsPositive(t);
    MatrixProduct(t.shape);
    var count := Product(t.shape);
    assert RoundUp(0, 256) == 0;
    if t.layout == RowScale {
      assert LowBytes(t) == count * 8 / 8 == count;
      AlignExact(count, 256);
    } else {
      BlockCountDivides(t.shape[0], t.shape[1]);
      assert LowBytes(t) == count * 4 / 8 == count / 2;
      AlignExact(count / 2, 256);
    }
  }

  /** Admission is exactly the unbounded layout. The only arithmetic limits are that the element
      count, the padded row and the byte total themselves fit u64: no wraparound and no spurious
      overflow in any intermediate step. */
  lemma GeometryExact(t: Tensor)
    ensures Admits(t) <==>
            && Supported(t)
            && Product(t.shape) <= MAX_U64
            && (t.layout == RowSplit ==> RoundUp(t.shape[1], 128) <= MAX_U64)
            && t.bytes == TotalBytes(t)
            && t.offset % 256 == 0
  {
    ElementsExact(t.shape);
    if Supported(t) && Product(t.shape) <= MAX_U64 {
      TotalIsPositive(t);
      if t.layout == RowSplit {
        RowSplitExact(t);
      } else if t.layout == Contiguous {
        assert TotalBytes(t) == Product(t.shape) * PlaneBits(t.format).0 / 8;
      } else {
        MatrixExact(t);
      }
    }
  }

  lemma TotalIsPositive(t: Tensor)
    requires Supported(t)
    ensures TotalBytes(t) > 0
  {
    PaddedIsPositive(t);
    if t.layout == RowSplit {
      var rows := PaddedInGroups(t);
      RowSplitPlanes(t, rows);
    }
  }

  lemma BlockCountDivides(n: nat, k: nat)
    requires n % 128 == 0
    ensures (n * k) % 16 == 0 && (n * k) % 2 == 0
  {
    var q := n / 128;
    assert n * k == 128 * (q * k);
  }

  lemma PaddingCoversRow(n: nat, k: nat)
    ensures n * k <= n * RoundUp(k, 128)
  {
    MulMonotone(n, k, RoundUp(k, 128));
  }

  lemma RowSplitHolds(t: Tensor)
    requires Supported(t) && t.layout == RowSplit
    ensures Product(t.shape) <= Padded(t) && Padded(t) % GroupSize(t.format) == 0
    ensures 8 * LowBytes(t) == PlaneBits(t.format).0 * Padded(t)
    ensures 8 * HighBytes(t) == PlaneBits(t.format).1 * Padded(t)
  {
    var rows := PaddedInGroups(t);
    RowSplitPlanes(t, rows);
    MultipleHasNoRemainder(rows, GroupSize(t.format));
    MatrixProduct(t.shape);
    PaddingCoversRow(t.shape[0], t.shape[1]);
  }

  /** Every division of a supported layout is exact: the data planes carry every padded element at
      the format's width, and groups and blocks are whole. */
  lemma {:induction false} PlanesHoldEveryElement(t: Tensor)
    requires Supported(t)
    ensures Product(t.shape) <= Padded(t)
    ensures 8 * LowBytes(t) == PlaneBits(t.format).0 * Padded(t)
    ensures 8 * HighBytes(t) == PlaneBits(t.format).1 * Padded(t)
    ensures t.layout == RowSplit ==> Padded(t) % GroupSize(t.format) == 0
    ensures t.layout == BlockScale ==> Padded(t) % 16 == 0
  {
    PaddedIsPositive(t);
    match t.layout
    case Contiguous =>
    case RowSplit =>
      RowSplitHolds(t);
    case RowScale =>
    case BlockScale =>
      BlockScaleHolds(t);
  }

  lemma BlockPadded(t: Tensor)
    requires Supported(t) && t.layout == BlockScale
    ensures Padded(t) == Product(t.shape) >= 0 && Padded(t) % 16 == 0
  {
    PaddedIsPositive(t);
    MatrixProduct(t.shape);
    BlockCountDivides(t.shape[0], t.shape[1]);
  }

  lemma FourBitPlanes(p: nat)
    requires p % 16 == 0
    ensures 8 * (p * 4 / 8) == 4 * p && 8 * (p * 0 / 8) == 0 * p
  {
    var q := p / 16;
    assert p == 16 * q;
    FourBitsOf(q);
  }

  lemma FourBitsOf(q: nat)
    ensures 16 * q * 4 / 8 == 8 * q && 16 * q * 0 / 8 == 0
  {
  }

  lemma BlockScaleHolds(t: Tensor)
    requires Supported(t) && t.layout == BlockScale
    ensures Product(t.shape) <= Padded(t) && Padded(t) % 16 == 0
    ensures 8 * LowBytes(t) == PlaneBits(t.format).0 * Padded(t)
    ensures 8 * HighBytes(t) == PlaneBits(t.format).1 * Padded(t)
  {
    BlockPadded(t);
    FourBitPlanes(Padded(t));
  }

  /** All but fewer than 256 bytes an aligned plane of an admitted tensor is data or scales. */
  lemma RoundingOverhead(t: Tensor)
    requires Admits(t)
    ensures Supported(t)
    ensures var exact := LowBytes(t) + HighBytes(t) + ScaleBytes(t);
            && exact <= t.bytes
            && (t.layout == Contiguous ==> t.bytes == exact)
            && t.bytes - exact < if HighBytes(t) > 0 then 512 else 256
  {
    GeometryExact(t);
    TotalIsRounded(t);
  }

  lemma TotalIsRounded(t: Tensor)
    requires Supported(t)
    ensures LowBytes(t) >= 0 && HighBytes(t) >= 0
    ensures TotalBytes(t) == if t.layout == Contiguous then LowBytes(t) + HighBytes(t) + ScaleBytes(t)
                             else RoundUp(LowBytes(t), 256) + RoundUp(HighBytes(t), 256) + ScaleBytes(t)
    ensures HighBytes(t) == 0 ==> RoundUp(HighBytes(t), 256) == 0
  {
    PaddedIsPositive(t);
  }
}
