/** The object inventory of a version 3 container: one ordered pass that admits byte ranges of the
    logical payload. */
module Objects {
  import opened Wrappers
  import opened CheckedU64
  import opened Bytes
  import Geometry
  import Payload

  const MAX_OBJECTS: nat := 100_000

  datatype Kind =
    | TensorKind(shape: seq<int>, format: Geometry.Format, layout: Geometry.Layout)
    | ResourceKind
    | OtherKind

  /** An offset or byte count outside u64 stands for any JSON value that is not such an integer. */
  datatype ObjectRow = ObjectRow(id: string, kind: Kind, offset: int, bytes: int)

  predicate IdOk(id: string) {
    id != "" && '\0' !in id
  }

  function AsTensor(o: ObjectRow): Geometry.Tensor
    requires o.kind.TensorKind? && 0 <= o.offset <= MAX_U64 && 0 <= o.bytes <= MAX_U64
  {
    Geometry.Tensor(o.kind.shape, o.kind.format, o.kind.layout, o.offset, o.bytes)
  }

  /** A row taken alone: identity, integers and, for tensors, native geometry. */
  predicate RowOk(o: ObjectRow) {
    && !o.kind.OtherKind? && IdOk(o.id)
    && 0 <= o.offset <= MAX_U64 && 0 < o.bytes <= MAX_U64 && o.offset + o.bytes <= MAX_U64
    && (o.kind.TensorKind? ==> Geometry.Admits(AsTensor(o)))
  }

  ghost predicate InventoryOk(rows: seq<ObjectRow>, payloadBytes: u64) {
    1 <= |rows| <= MAX_OBJECTS && PrefixOk(rows, payloadBytes, |rows|)
  }

  ghost predicate PrefixOk(rows: seq<ObjectRow>, payloadBytes: u64, n: nat)
    requires n <= |rows|
  {
    (forall i :: 0 <= i < n ==> RowOk(rows[i])) && RangesOk(rows, payloadBytes, n)
  }

  /** Ranges in order, disjoint and inside the payload, under distinct ids. */
  ghost predicate RangesOk(rows: seq<ObjectRow>, payloadBytes: int, n: nat)
    requires n <= |rows|
  {
    && (forall i :: 0 <= i < n ==> 0 <= rows[i].offset && 0 < rows[i].bytes && EndOf(rows[i]) <= payloadBytes)
    && (forall i, j :: 0 <= i < j < n ==> EndOf(rows[i]) <= rows[j].offset)
    && (forall i, j :: 0 <= i < j < n ==> rows[i].id != rows[j].id)
  }

  function EndOf(o: ObjectRow): int {
    o.offset + o.bytes
  }

  function Inventory(rows: seq<ObjectRow>, n: nat): map<string, ObjectRow>
    requires n <= |rows|
  {
    if n == 0 then map[] else Inventory(rows, n - 1)[rows[n - 1].id := rows[n - 1]]
  }

  lemma {:induction false} InventoryEntry(rows: seq<ObjectRow>, n: nat, id: string) returns (i: nat)
    requires n <= |rows| && id in Inventory(rows, n)
    ensures i < n && rows[i].id == id && Inventory(rows, n)[id] == rows[i]
    decreases n
  {
    if id == rows[n - 1].id {
      i := n - 1;
    } else {
      i := InventoryEntry(rows, n - 1, id);
    }
  }

  lemma {:induction false} InventoryHas(rows: seq<ObjectRow>, n: nat, i: nat)
    requires i < n <= |rows|
    ensures rows[i].id in Inventory(rows, n)
    decreases n
  {
    if i < n - 1 {
      InventoryHas(rows, n - 1, i);
    }
  }

  method AdmitObjects(rows: seq<ObjectRow>, payloadBytes: u64) returns (r: Option<map<string, ObjectRow>>)
    ensures r.Some? <==> InventoryOk(rows, payloadBytes)
    ensures r.Some? ==> r.value == Inventory(rows, |rows|)
  {
    if rows == [] || |rows| > MAX_OBJECTS {
      return None;
    }
    var inventory: map<string, ObjectRow> := map[];
    var end: u64 := 0;
    for k := 0 to |rows|
      invariant forall i :: 0 <= i < k ==> RowOk(rows[i])
      invariant RangesOk(rows, payloadBytes, k)
      invariant inventory == Inventory(rows, k)
      invariant end == if k == 0 then 0 else EndOf(rows[k - 1])
    {
      var o := rows[k];
      if !RowOk(o) {
        return None;
      }
      var next := Add(o.offset, o.bytes).value;
      RangesStep(rows, payloadBytes, k);
      if o.offset < end || next > payloadBytes || o.id in inventory {
        RangesNecessary(rows, payloadBytes, k);
        return None;
      }
      inventory := inventory[o.id := o];
      end := next;
    }
    return Some(inventory);
  }

  lemma RangesNecessary(rows: seq<ObjectRow>, payloadBytes: int, k: nat)
    requires k < |rows| && !RangesOk(rows, payloadBytes, k + 1)
    ensures !RangesOk(rows, payloadBytes, |rows|)
  {
  }

  /** Comparing with the last end and the ids seen so far is enough to keep every pair of rows apart. */
  lemma RangesStep(rows: seq<ObjectRow>, payloadBytes: int, k: nat)
    requires k < |rows| && RangesOk(rows, payloadBytes, k)
    requires 0 <= rows[k].offset && 0 < rows[k].bytes
    ensures var end := if k == 0 then 0 else EndOf(rows[k - 1]);
            rows[k].offset >= end && EndOf(rows[k]) <= payloadBytes && rows[k].id !in Inventory(rows, k)
            <==> RangesOk(rows, payloadBytes, k + 1)
  {
    if rows[k].id in Inventory(rows, k) {
      var i := InventoryEntry(rows, k, rows[k].id);
    } else if k > 0 && rows[k].offset >= EndOf(rows[k - 1]) {
      forall i | 0 <= i < k
        ensures rows[i].id != rows[k].id && EndOf(rows[i]) <= rows[k].offset
      {
        InventoryHas(rows, k, i);
        assert i < k - 1 ==> EndOf(rows[i]) <= rows[k - 1].offset;
      }
    }
  }

  predicate Covers(o: ObjectRow, at: int) {
    o.offset <= at < o.offset + o.bytes
  }

  /** Distinct admitted objects never share a byte of the logical payload. */
  lemma {:induction false} ObjectsNeverShareBytes(rows: seq<ObjectRow>, payloadBytes: u64, a: string, b: string)
    requires InventoryOk(rows, payloadBytes)
    requires a in Inventory(rows, |rows|) && b in Inventory(rows, |rows|) && a != b
    ensures var m := Inventory(rows, |rows|);
            && EndOf(m[a]) <= payloadBytes
            && forall at :: Covers(m[a], at) ==> !Covers(m[b], at)
  {
    var i := InventoryEntry(rows, |rows|, a);
    var j := InventoryEntry(rows, |rows|, b);
    assert if i < j then EndOf(rows[i]) <= rows[j].offset else EndOf(rows[j]) <= rows[i].offset;
  }

  /** Every admitted object can be read back from the files, and is its own slice of the payload. */
  method ReadObject(c: Payload.Container, files: seq<Payload.V3File>, rows: seq<ObjectRow>, m: map<string, ObjectRow>,
                    id: string, ghost p: seq<byte>)
    returns (bytes: seq<byte>)
    requires Payload.Spread(c, files, p) && InventoryOk(rows, |p|) && m == Inventory(rows, |rows|)
    requires id in m
    ensures 0 <= m[id].offset < EndOf(m[id]) <= |p| && bytes == p[m[id].offset..EndOf(m[id])]
  {
    ghost var i := InventoryEntry(rows, |rows|, id);
    assert RowOk(rows[i]);
    var r := Payload.ReadResource(c, files, m[id].offset, m[id].bytes, p);
    bytes := r.value;
  }

  // ----- The whole inspection, and reads after it

  /** What the header, the file table and the object directory must say. */
  ghost predicate Admissible(c: Payload.Container, files: seq<Payload.FileRow>, objects: seq<ObjectRow>) {
    && Payload.PayloadStart(c.entry).Some?
    && Payload.TableOk(c, Payload.PayloadStart(c.entry).value, files)
    && 0 <= Payload.Total(files) <= MAX_U64 && InventoryOk(objects, Payload.Total(files))
  }

  /** The payload an admissible container carries. */
  ghost function Carried(c: Payload.Container, files: seq<Payload.FileRow>, objects: seq<ObjectRow>): seq<byte>
    requires Admissible(c, files, objects)
  {
    Payload.LogicalPayload(c, Payload.PayloadStart(c.entry).value, files, |files|)
  }

  /** Header, files and objects in the order of the source. What passes is spread without gaps over the files,
      and every object lies inside it. */
  method Inspect(c: Payload.Container, files: seq<Payload.FileRow>, objects: seq<ObjectRow>)
    returns (r: Option<(seq<Payload.V3File>, map<string, ObjectRow>)>)
    ensures r.Some? <==> Admissible(c, files, objects)
    ensures r.Some? ==>
              && Payload.Spread(c, r.value.0, Carried(c, files, objects))
              && InventoryOk(objects, |Carried(c, files, objects)|)
              && r.value.1 == Inventory(objects, |objects|)
  {
    var start := Payload.PayloadStart(c.entry);
    if start.None? {
      return None;
    }
    var table := Payload.AdmitFiles(c, start.value, files);
    if table.None? {
      return None;
    }
    Payload.AdmittedTableSpreads(c, start.value, files, table.value.0);
    var inventory := AdmitObjects(objects, table.value.1);
    if inventory.None? {
      return None;
    }
    return Some((table.value.0, inventory.value));
  }

  /** End to end: whatever inspection admits can be read back, object by object, and nothing else is. */
  method InspectAndRead(c: Payload.Container, files: seq<Payload.FileRow>, objects: seq<ObjectRow>, id: string)
    returns (r: Option<seq<byte>>)
    ensures r.Some? <==> Admissible(c, files, objects) && id in Inventory(objects, |objects|)
    ensures r.Some? ==>
              var (p, o) := (Carried(c, files, objects), Inventory(objects, |objects|)[id]);
              0 <= o.offset < EndOf(o) <= |p| && r.value == p[o.offset..EndOf(o)]
  {
    var inspected := Inspect(c, files, objects);
    if inspected.None? || id !in inspected.value.1 {
      return None;
    }
    var bytes := ReadObject(c, inspected.value.0, objects, inspected.value.1, id, Carried(c, files, objects));
    return Some(bytes);
  }
}
