/** Semantic admission of an indexed proposal: the token list bound to `proposal/token_ids`, read
    through whole-object or multi-part bindings, must be an injection into the vocabulary. */
module Proposal {
  import opened Wrappers
  import opened CheckedU64
  import opened Bytes
  import opened Objects
  import Geometry
  import Payload

  const READ_LIMIT: u64 := 8 * 1024 * 1024

  /** Bounds outside u64 stand for JSON values that are not such integers. */
  datatype Part = Part(source: string, begin: int, end: int)

  datatype Binding = Whole(source: string) | Parts(parts: seq<Part>) | Malformed

  // ----- Element counts of bindings

  function Reference(name: string, inventory: map<string, ObjectRow>): Option<u64> {
    if !IdOk(name) || name !in inventory || !inventory[name].kind.TensorKind? then None
    else Geometry.Elements(inventory[name].kind.shape)
  }

  predicate PartOk(part: Part, inventory: map<string, ObjectRow>) {
    && 0 <= part.begin < part.end <= MAX_U64
    && var elements := Reference(part.source, inventory);
       elements.Some? && part.end <= elements.value
  }

  function SumParts(sum: u64, parts: seq<Part>, inventory: map<string, ObjectRow>): Option<u64>
    decreases parts
  {
    if parts == [] then Some(sum)
    else if !PartOk(parts[0], inventory) then None
    else
      var next :- Add(sum, parts[0].end - parts[0].begin);
      SumParts(next, parts[1..], inventory)
  }

  function BindingElements(b: Binding, inventory: map<string, ObjectRow>): Option<u64> {
    match b
    case Whole(name) => Reference(name, inventory)
    case Parts(parts) => if parts == [] then None else SumParts(0, parts, inventory)
    case Malformed => None
  }

  // ----- Native binding contract of `proposal/token_ids`

  function References(b: Binding): seq<string> {
    match b
    case Whole(name) => [name]
    case Parts(parts) => seq(|parts|, i requires 0 <= i < |parts| => parts[i].source)
    case Malformed => []
  }

  predicate ContractOk(b: Binding, inventory: map<string, ObjectRow>, rows: u64) {
    && (forall name :: name in References(b) ==>
          name in inventory && inventory[name].kind.TensorKind? && inventory[name].kind.format == Geometry.Int32)
    && (b.Whole? ==> inventory[b.source].kind.shape == [rows])
  }

  /** Everything the directory itself must say before token values are read. */
  predicate Bound(b: Binding, inventory: map<string, ObjectRow>, rows: u64) {
    rows > 0 && BindingElements(b, inventory) == Some(rows) && ContractOk(b, inventory, rows)
  }

  // ----- The bound token list, independent of how it is read

  ghost function Words(s: seq<byte>): seq<int>
    decreases s
  {
    if |s| < 4 then [] else [FromI32Le(s[..4])] + Words(s[4..])
  }

  /** The 32-bit integers stored in an admitted int32 object. */
  ghost function ObjectWords(o: ObjectRow, p: seq<byte>): seq<int>
    requires 0 <= o.offset <= EndOf(o) <= |p|
  {
    Words(p[o.offset..EndOf(o)])
  }

  /** What admission leaves true of an object: it lies in the payload `p`, and if it is an int32 tensor
      its bytes are its elements, four apiece. */
  ghost predicate ObjectPlaced(o: ObjectRow, p: seq<byte>) {
    && 0 <= o.offset < EndOf(o) <= |p|
    && (o.kind.TensorKind? && o.kind.format == Geometry.Int32 ==>
          o.bytes % 4 == 0 && Geometry.Elements(o.kind.shape) == Some(o.bytes / 4))
  }

  ghost predicate Placed(inventory: map<string, ObjectRow>, p: seq<byte>) {
    forall name :: name in inventory ==> ObjectPlaced(inventory[name], p)
  }

  ghost predicate PartsPlaced(parts: seq<Part>, inventory: map<string, ObjectRow>) {
    forall i :: 0 <= i < |parts| ==>
      && PartOk(parts[i], inventory)
      && inventory[parts[i].source].kind.format == Geometry.Int32
  }

  ghost function PartWords(part: Part, inventory: map<string, ObjectRow>, p: seq<byte>): seq<int>
    requires Placed(inventory, p) && PartOk(part, inventory)
    requires inventory[part.source].kind.format == Geometry.Int32
  {
    WordCount(inventory[part.source], p);
    ObjectWords(inventory[part.source], p)[part.begin..part.end]
  }

  ghost function PartsWords(parts: seq<Part>, inventory: map<string, ObjectRow>, p: seq<byte>): seq<int>
    requires Placed(inventory, p) && PartsPlaced(parts, inventory)
  {
    if parts == [] then []
    else PartsWords(parts[..|parts| - 1], inventory, p) + PartWords(parts[|parts| - 1], inventory, p)
  }

  ghost function TokenList(b: Binding, inventory: map<string, ObjectRow>, p: seq<byte>, rows: u64): seq<int>
    requires Placed(inventory, p) && Bound(b, inventory, rows)
  {
    if b.Whole? then ObjectWords(inventory[b.source], p)
    else
      BoundParts(b, inventory, rows);
      PartsWords(b.parts, inventory, p)
  }

  ghost predicate Injection(tokens: seq<int>, vocab: u64) {
    && (forall i :: 0 <= i < |tokens| ==> 0 <= tokens[i] < vocab)
    && (forall i, j :: 0 <= i < j < |tokens| ==> tokens[i] != tokens[j])
  }

  // ----- Lemmas: words of slices, counts of bindings

  lemma {:induction false} WordsLength(s: seq<byte>)
    ensures |Words(s)| == |s| / 4
    decreases s
  {
    if |s| >= 4 {
      WordsLength(s[4..]);
    }
  }

  lemma {:induction false} WordsConcat(a: seq<byte>, b: seq<byte>)
    requires |a| % 4 == 0
    ensures Words(a + b) == Words(a) + Words(b)
    decreases a
  {
    if a == [] {
      assert a + b == b;
    } else {
      assert (a + b)[..4] == a[..4] && (a + b)[4..] == a[4..] + b;
      WordsConcat(a[4..], b);
    }
  }

  lemma OneWord(s: seq<byte>)
    requires |s| == 4
    ensures Words(s) == [FromI32Le(s)]
  {
    assert s[..4] == s && s[4..] == [];
  }

  lemma Middle<T>(a: seq<T>, b: seq<T>, d: seq<T>)
    ensures (a + (b + d))[|a|..|a| + |b|] == b
  {
  }

  lemma {:induction false} WordsMiddle(a: seq<byte>, b: seq<byte>, d: seq<byte>, from: nat, to: nat)
    requires from <= to && |a| == 4 * from && |b| == 4 * (to - from)
    ensures to <= |Words(a + (b + d))| && Words(b) == Words(a + (b + d))[from..to]
  {
    WordsConcat(a, b + d);
    WordsConcat(b, d);
    WordsLength(a);
    WordsLength(b);
    Middle(Words(a), Words(b), Words(d));
  }

  lemma {:induction false} WordsSlice(s: seq<byte>, from: nat, to: nat)
    requires from <= to && 4 * to <= |s|
    ensures to <= |Words(s)| && Words(s[4 * from..4 * to]) == Words(s)[from..to]
  {
    var a, b, d := s[..4 * from], s[4 * from..4 * to], s[4 * to..];
    assert s == a + (b + d);
    WordsMiddle(a, b, d, from, to);
  }

  lemma Int32Bytes(o: ObjectRow)
    requires RowOk(o) && o.kind.TensorKind? && o.kind.format == Geometry.Int32
    ensures Geometry.Elements(o.kind.shape) == Some(o.bytes / 4) && o.bytes % 4 == 0
  {
    Geometry.GeometryExact(AsTensor(o));
    Geometry.ElementsExact(o.kind.shape);
    Geometry.PaddedIsPositive(AsTensor(o));
  }

  lemma WordCount(o: ObjectRow, p: seq<byte>)
    requires ObjectPlaced(o, p) && o.kind.TensorKind? && o.kind.format == Geometry.Int32
    ensures Geometry.Elements(o.kind.shape) == Some(|ObjectWords(o, p)|)
    ensures o.bytes == 4 * |ObjectWords(o, p)|
  {
    WordsLength(p[o.offset..EndOf(o)]);
  }

  lemma {:induction false} SumPartsOk(sum: u64, parts: seq<Part>, inventory: map<string, ObjectRow>)
    requires SumParts(sum, parts, inventory).Some?
    ensures forall i :: 0 <= i < |parts| ==> PartOk(parts[i], inventory)
    ensures SumParts(sum, parts, inventory).value == sum + PartLengths(parts)
    decreases parts
  {
    if parts != [] {
      SumPartsOk(sum + (parts[0].end - parts[0].begin), parts[1..], inventory);
      assert parts == [parts[0]] + parts[1..];
      LengthsCons(parts);
    }
  }

  function PartLengths(parts: seq<Part>): int {
    if parts == [] then 0
    else PartLengths(parts[..|parts| - 1]) + (parts[|parts| - 1].end - parts[|parts| - 1].begin)
  }

  lemma {:induction false} LengthsCons(parts: seq<Part>)
    requires parts != []
    ensures PartLengths(parts) == (parts[0].end - parts[0].begin) + PartLengths(parts[1..])
    decreases parts
  {
    if |parts| > 1 {
      var front := parts[..|parts| - 1];
      LengthsCons(front);
      assert front[1..] == parts[1..][..|parts| - 2];
    }
  }

  lemma BoundParts(b: Binding, inventory: map<string, ObjectRow>, rows: u64)
    requires Bound(b, inventory, rows) && !b.Whole?
    ensures b.Parts? && PartsPlaced(b.parts, inventory) && PartLengths(b.parts) == rows
  {
    SumPartsOk(0, b.parts, inventory);
    forall i | 0 <= i < |b.parts|
      ensures inventory[b.parts[i].source].kind.format == Geometry.Int32
    {
      assert References(b)[i] == b.parts[i].source;
    }
  }

  lemma {:induction false} PartsWordsLength(parts: seq<Part>, inventory: map<string, ObjectRow>, p: seq<byte>)
    requires Placed(inventory, p) && PartsPlaced(parts, inventory)
    ensures |PartsWords(parts, inventory, p)| == PartLengths(parts)
    decreases parts
  {
    if parts != [] {
      PartsWordsLength(parts[..|parts| - 1], inventory, p);
      WordCount(inventory[parts[|parts| - 1].source], p);
    }
  }

  /** The bound list has exactly `rows` entries. */
  lemma TokenCount(b: Binding, inventory: map<string, ObjectRow>, p: seq<byte>, rows: u64)
    requires Placed(inventory, p) && Bound(b, inventory, rows)
    ensures |TokenList(b, inventory, p, rows)| == rows
  {
    if b.Whole? {
      assert References(b)[0] == b.source;
      WordCount(inventory[b.source], p);
    } else {
      BoundParts(b, inventory, rows);
      PartsWordsLength(b.parts, inventory, p);
    }
  }

  // ----- Reading the list through the files

  function Range(part: Part, inventory: map<string, ObjectRow>): (int, int)
    requires part.source in inventory
  {
    (inventory[part.source].offset + part.begin * 4, (part.end - part.begin) * 4)
  }

  /** A part's byte range lies inside its object and carries exactly the part's words. */
  lemma RangeWords(part: Part, inventory: map<string, ObjectRow>, p: seq<byte>)
    requires Placed(inventory, p) && PartOk(part, inventory)
    requires inventory[part.source].kind.format == Geometry.Int32
    ensures var (offset, bytes) := Range(part, inventory);
            && 0 <= offset < offset + bytes <= |p|
            && Words(p[offset..offset + bytes]) == PartWords(part, inventory, p)
  {
    var o := inventory[part.source];
    WordCount(o, p);
    var s := p[o.offset..EndOf(o)];
    WordsSlice(s, part.begin, part.end);
    Payload.SliceOfSlice(p, o.offset, EndOf(o), 4 * part.begin, 4 * part.end);
  }

  lemma {:induction false} PartsStep(parts: seq<Part>, inventory: map<string, ObjectRow>, p: seq<byte>, n: nat)
    requires 0 < n <= |parts| && Placed(inventory, p) && PartsPlaced(parts, inventory)
    ensures PartsPlaced(parts[..n - 1], inventory) && PartsPlaced(parts[..n], inventory)
    ensures PartLengths(parts[..n]) == PartLengths(parts[..n - 1]) + (parts[n - 1].end - parts[n - 1].begin)
    ensures PartsWords(parts[..n], inventory, p) ==
            PartsWords(parts[..n - 1], inventory, p) + PartWords(parts[n - 1], inventory, p)
  {
    assert parts[..n][..n - 1] == parts[..n - 1];
  }

  /** The byte ranges of the logical payload a binding names, in order. */
  function Ranges(b: Binding, inventory: map<string, ObjectRow>): seq<(int, int)>
    requires forall name :: name in References(b) ==> name in inventory
  {
    match b
    case Whole(name) =>
      assert References(b)[0] == name;
      [(inventory[name].offset, inventory[name].bytes)]
    case Parts(parts) =>
      assert forall i :: 0 <= i < |parts| ==> References(b)[i] == parts[i].source;
      seq(|parts|, i requires 0 <= i < |parts| => Range(parts[i], inventory))
    case Malformed => []
  }

  ghost predicate RangesInside(ranges: seq<(int, int)>, p: seq<byte>) {
    forall i :: 0 <= i < |ranges| ==> 0 <= ranges[i].0 && 0 < ranges[i].1 && ranges[i].0 + ranges[i].1 <= |p|
  }

  /** The concatenation of the ranges' slices of the payload. */
  ghost function Gather(ranges: seq<(int, int)>, p: seq<byte>, n: nat): seq<byte>
    requires n <= |ranges| && RangesInside(ranges, p)
  {
    if n == 0 then []
    else Gather(ranges, p, n - 1) + p[ranges[n - 1].0..ranges[n - 1].0 + ranges[n - 1].1]
  }

  lemma {:induction false} GatherGrows(ranges: seq<(int, int)>, p: seq<byte>, m: nat, n: nat)
    requires m <= n <= |ranges| && RangesInside(ranges, p)
    ensures |Gather(ranges, p, m)| <= |Gather(ranges, p, n)|
    decreases n
  {
    if m < n {
      GatherGrows(ranges, p, m, n - 1);
    }
  }

  method ReadRanges(c: Payload.Container, files: seq<Payload.V3File>, ranges: seq<(int, int)>, limit: u64,
                    ghost p: seq<byte>)
    returns (r: Option<seq<byte>>)
    requires Payload.Spread(c, files, p) && RangesInside(ranges, p)
    ensures r.Some? <==> |Gather(ranges, p, |ranges|)| <= limit
    ensures r.Some? ==> r.value == Gather(ranges, p, |ranges|)
  {
    var result: seq<byte> := [];
    for i := 0 to |ranges|
      invariant |result| <= limit && result == Gather(ranges, p, i)
    {
      var (offset, bytes) := ranges[i];
      GatherGrows(ranges, p, i + 1, |ranges|);
      if |result| + bytes > limit {
        return None;
      }
      var read := Payload.ReadResource(c, files, offset, bytes, p);
      result := result + read.value;
    }
    return Some(result);
  }

  lemma GatherWords(ranges: seq<(int, int)>, p: seq<byte>, n: nat, words: int)
    requires 0 < n <= |ranges| && RangesInside(ranges, p) && |Gather(ranges, p, n - 1)| == 4 * words
    ensures |Gather(ranges, p, n)| == 4 * words + ranges[n - 1].1
    ensures Words(Gather(ranges, p, n)) ==
            Words(Gather(ranges, p, n - 1)) + Words(p[ranges[n - 1].0..ranges[n - 1].0 + ranges[n - 1].1])
  {
    WordsConcat(Gather(ranges, p, n - 1), p[ranges[n - 1].0..ranges[n - 1].0 + ranges[n - 1].1]);
  }

  lemma PartGather(part: Part, inventory: map<string, ObjectRow>, p: seq<byte>,
                   ranges: seq<(int, int)>, n: nat, words: int)
    requires Placed(inventory, p) && PartOk(part, inventory) && inventory[part.source].kind.format == Geometry.Int32
    requires 0 < n <= |ranges| && RangesInside(ranges, p) && |Gather(ranges, p, n - 1)| == 4 * words
    requires ranges[n - 1] == Range(part, inventory)
    ensures |Gather(ranges, p, n)| == 4 * (words + (part.end - part.begin))
    ensures Words(Gather(ranges, p, n)) == Words(Gather(ranges, p, n - 1)) + PartWords(part, inventory, p)
  {
    RangeWords(part, inventory, p);
    GatherWords(ranges, p, n, words);
  }

  lemma {:induction false} PartsGather(parts: seq<Part>, inventory: map<string, ObjectRow>, p: seq<byte>,
                                       ranges: seq<(int, int)>, n: nat)
    requires Placed(inventory, p) && PartsPlaced(parts, inventory) && n <= |parts|
    requires |ranges| == |parts| && forall i :: 0 <= i < |parts| ==> ranges[i] == Range(parts[i], inventory)
    requires RangesInside(ranges, p)
    ensures PartsPlaced(parts[..n], inventory)
    ensures |Gather(ranges, p, n)| == 4 * PartLengths(parts[..n])
    ensures Words(Gather(ranges, p, n)) == PartsWords(parts[..n], inventory, p)
    decreases n
  {
    if n > 0 {
      PartsGather(parts, inventory, p, ranges, n - 1);
      PartsStep(parts, inventory, p, n);
      PartGather(parts[n - 1], inventory, p, ranges, n, PartLengths(parts[..n - 1]));
    }
  }

  /** Reading a bound list's ranges yields exactly its words. */
  lemma {:induction false} BoundRanges(b: Binding, inventory: map<string, ObjectRow>, p: seq<byte>, rows: u64)
    requires Placed(inventory, p) && Bound(b, inventory, rows)
    ensures var ranges := Ranges(b, inventory);
            && RangesInside(ranges, p)
            && |Gather(ranges, p, |ranges|)| == 4 * rows
            && Words(Gather(ranges, p, |ranges|)) == TokenList(b, inventory, p, rows)
  {
    var ranges := Ranges(b, inventory);
    if b.Whole? {
      assert References(b)[0] == b.source;
      WordCount(inventory[b.source], p);
      var o := inventory[b.source];
      assert Gather(ranges, p, 1) == [] + p[o.offset..EndOf(o)] == p[o.offset..EndOf(o)];
    } else {
      BoundParts(b, inventory, rows);
      forall i | 0 <= i < |b.parts|
        ensures 0 <= ranges[i].0 && 0 < ranges[i].1 && ranges[i].0 + ranges[i].1 <= |p|
      {
        RangeWords(b.parts[i], inventory, p);
      }
      PartsGather(b.parts, inventory, p, ranges, |b.parts|);
      assert b.parts[..|b.parts|] == b.parts;
    }
  }

  lemma InjectionGrows(words: seq<int>, k: nat, vocab: u64)
    requires k < |words| && Injection(words[..k], vocab)
    ensures words[..k + 1] == words[..k] + [words[k]]
    ensures Injection(words[..k + 1], vocab) <==> 0 <= words[k] < vocab && words[k] !in words[..k]
  {
    assert words[..k + 1][k] == words[k];
    if words[k] in words[..k] {
      var i :| 0 <= i < k && words[..k][i] == words[k];
      assert words[..k + 1][i] == words[..k + 1][k];
    }
  }

  lemma InjectionRefused(words: seq<int>, k: nat, vocab: u64)
    requires k < |words| && !(0 <= words[k] < vocab && words[k] !in words[..k])
    ensures !Injection(words, vocab)
  {
    if words[k] in words[..k] {
      var i :| 0 <= i < k && words[..k][i] == words[k];
      assert words[i] == words[k];
    }
  }

  method TokensAdmitted(bytes: seq<byte>, vocab: u64) returns (ok: bool)
    ensures ok <==> Injection(Words(bytes), vocab)
  {
    var seen: set<int> := {};
    var k := 0;
    WordsLength(bytes);
    while 4 * k + 4 <= |bytes|
      invariant 0 <= 4 * k <= |bytes|
      invariant Injection(Words(bytes)[..k], vocab)
      invariant forall t :: t in seen <==> t in Words(bytes)[..k]
    {
      var token := FromI32Le(bytes[4 * k..4 * k + 4]);
      WordsSlice(bytes, k, k + 1);
      OneWord(bytes[4 * k..4 * k + 4]);
      assert Words(bytes)[k] == Words(bytes)[k..k + 1][0] == token;
      InjectionGrows(Words(bytes), k, vocab);
      if token < 0 || token >= vocab || token in seen {
        InjectionRefused(Words(bytes), k, vocab);
        return false;
      }
      seen := seen + {token};
      k := k + 1;
    }
    assert Words(bytes)[..k] == Words(bytes);
    return true;
  }

  /** Admission of an indexed proposal, given a directory that passed the file and object checks: it
      holds exactly when the directory binds `rows` int32 elements, the list fits the inspection
      limit, and the list is an injection from [0, rows) into [0, vocab). */
  method AdmitProposal(c: Payload.Container, files: seq<Payload.V3File>, objects: seq<ObjectRow>,
                       inventory: map<string, ObjectRow>, b: Binding, rows: u64, vocab: u64, ghost p: seq<byte>)
    returns (ok: bool)
    requires Payload.Spread(c, files, p)
    requires InventoryOk(objects, |p|) && inventory == Inventory(objects, |objects|)
    ensures Placed(inventory, p)
    ensures ok <==>
            && Bound(b, inventory, rows) && rows <= vocab && 4 * rows <= READ_LIMIT
            && Injection(TokenList(b, inventory, p, rows), vocab)
    ensures ok ==> |TokenList(b, inventory, p, rows)| == rows
  {
    AdmittedObjectsPlaced(objects, p);
    if !Bound(b, inventory, rows) || rows > vocab {
      return false;
    }
    TokenCount(b, inventory, p, rows);
    BoundRanges(b, inventory, p, rows);
    var bytes := ReadRanges(c, files, Ranges(b, inventory), READ_LIMIT, p);
    if bytes.None? {
      return false;
    }
    ok := TokensAdmitted(bytes.value, vocab);
  }

  /** End to end, from the bytes of the container: an indexed proposal passes exactly when the container is
      admissible and the list bound to it is an injection from [0, rows) into [0, vocab). */
  method InspectProposal(c: Payload.Container, files: seq<Payload.FileRow>, objects: seq<ObjectRow>,
                         b: Binding, rows: u64, vocab: u64)
    returns (ok: bool)
    ensures Admissible(c, files, objects) ==> Placed(Inventory(objects, |objects|), Carried(c, files, objects))
    ensures ok <==>
            && Admissible(c, files, objects)
            && var (p, inventory) := (Carried(c, files, objects), Inventory(objects, |objects|));
               && Placed(inventory, p) && Bound(b, inventory, rows) && rows <= vocab && 4 * rows <= READ_LIMIT
               && Injection(TokenList(b, inventory, p, rows), vocab)
  {
    var inspected := Inspect(c, files, objects);
    if inspected.None? {
      return false;
    }
    ok := AdmitProposal(
      c, inspected.value.0, objects, inspected.value.1, b, rows, vocab, Carried(c, files, objects));
  }

  lemma AdmittedObjectsPlaced(objects: seq<ObjectRow>, p: seq<byte>)
    requires |p| <= MAX_U64 && InventoryOk(objects, |p|)
    ensures Placed(Inventory(objects, |objects|), p)
  {
    var m := Inventory(objects, |objects|);
    forall name | name in m
      ensures ObjectPlaced(m[name], p)
    {
      var i := InventoryEntry(objects, |objects|, name);
      var o := objects[i];
      if o.kind.TensorKind? && o.kind.format == Geometry.Int32 {
        Int32Bytes(o);
      }
    }
  }
}
