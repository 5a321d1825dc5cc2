/** The logical payload of a version 3 container, spread over an entry file and its sibling parts:
    admission of the file table, and reads by logical offset across file boundaries. */
module Payload {
  import opened Wrappers
  import opened CheckedU64
  import opened Bytes

  const PART_PAYLOAD: u64 := 4096
  const MAX_FILES: nat := 1024
  const PART_MAGIC: seq<byte> := [78, 73, 78, 80, 82, 84, 0, 3]

  /** The `path` member of a file row as parsed JSON. */
  datatype RowPath = Null | Text(name: string) | OtherJson

  /** A byte count outside u64, or zero, stands for any JSON value that is not a positive integer. */
  datatype FileRow = FileRow(path: RowPath, payloadBytes: int)

  /** File offsets are signed 64-bit integers on every platform: no file is longer, and no seek goes further. */
  const MAX_OFFSET: int := 0x7FFF_FFFF_FFFF_FFFF

  type Contents = s: seq<byte> | |s| <= MAX_OFFSET

  datatype PartFile = PartFile(bytes: Contents, symlink: bool)

  /** An entry file and the directory it lies in. */
  datatype Container = Container(entryName: string, entry: Contents, siblings: map<string, PartFile>)

  datatype V3File = V3File(name: Option<string>, begin: u64, start: u64)

  // ----- What an admissible file table is

  predicate SafeName(name: string) {
    && name != "" && '\0' !in name
    && name != "." && name != ".."
    && '/' !in name && '\\' !in name && ':' !in name
  }

  predicate CountOk(n: int) {
    0 < n <= MAX_U64
  }

  predicate PartOk(c: Container, name: string, index: nat, count: u64) {
    && name in c.siblings
    && var part := c.siblings[name];
    && !part.symlink
    && |part.bytes| >= 32
    && part.bytes[..8] == PART_MAGIC
    && FromLe(part.bytes[8..16]) == index
    && |c.entry| >= 32 && part.bytes[16..32] == c.entry[16..32]
    && Add(PART_PAYLOAD, count).Some?
    && |part.bytes| == PART_PAYLOAD + count
  }

  /** Row `i` taken alone. */
  ghost predicate RowOk(c: Container, payloadStart: u64, rows: seq<FileRow>, i: nat)
    requires i < |rows|
  {
    && CountOk(rows[i].payloadBytes)
    && if i == 0 then
         && rows[0].path == Null
         && |c.entry| == payloadStart + rows[0].payloadBytes <= MAX_U64
       else
         && rows[i].path.Text? && SafeName(rows[i].path.name) && rows[i].path.name != c.entryName
         && (forall j :: 0 < j < i ==> rows[j].path != rows[i].path)
         && PartOk(c, rows[i].path.name, i, rows[i].payloadBytes)
  }

  ghost function Total(rows: seq<FileRow>): int {
    if rows == [] then 0 else Total(rows[..|rows| - 1]) + rows[|rows| - 1].payloadBytes
  }

  ghost predicate PrefixOk(c: Container, payloadStart: u64, rows: seq<FileRow>, n: nat)
    requires n <= |rows|
  {
    && (forall i :: 0 <= i < n ==> RowOk(c, payloadStart, rows, i))
    && (forall i :: 0 <= i <= n ==> Total(rows[..i]) <= MAX_U64)
  }

  ghost predicate TableOk(c: Container, payloadStart: u64, rows: seq<FileRow>) {
    1 <= |rows| <= MAX_FILES && PrefixOk(c, payloadStart, rows, |rows|)
  }

  function NameText(row: FileRow): string {
    if row.path.Text? then row.path.name else ""
  }

  function RowName(row: FileRow): Option<string> {
    if row.path.Text? then Some(row.path.name) else None
  }

  function RowStart(payloadStart: u64, i: nat): u64 {
    if i == 0 then payloadStart else PART_PAYLOAD
  }

  ghost predicate IsTable(c: Container, payloadStart: u64, rows: seq<FileRow>, files: seq<V3File>, n: nat)
    requires n <= |rows| && PrefixOk(c, payloadStart, rows, n)
  {
    && |files| == n
    && forall i :: 0 <= i < n ==>
         && files[i].name == RowName(rows[i])
         && files[i].begin == Total(rows[..i])
         && files[i].start == RowStart(payloadStart, i)
  }

  /** The bytes file `i` contributes to the logical payload. */
  ghost function Region(c: Container, payloadStart: u64, rows: seq<FileRow>, i: nat): seq<byte>
    requires i < |rows| && RowOk(c, payloadStart, rows, i)
  {
    if i == 0 then c.entry[payloadStart..] else c.siblings[rows[i].path.name].bytes[PART_PAYLOAD..]
  }

  /** The concatenation of the first `n` files' payload regions. */
  ghost function LogicalPayload(c: Container, payloadStart: u64, rows: seq<FileRow>, n: nat): seq<byte>
    requires n <= |rows| && PrefixOk(c, payloadStart, rows, n)
  {
    if n == 0 then []
    else LogicalPayload(c, payloadStart, rows, n - 1) + Region(c, payloadStart, rows, n - 1)
  }

  // ----- Header and file table admission

  const MAX_DIRECTORY_BYTES: u64 := 16 * 1024 * 1024

  /** Where the entry file's payload starts, from its 32-byte header. */
  function PayloadStart(entry: seq<byte>): Option<u64> {
    if |entry| < 32 then None
    else
      var json := FromLe(entry[8..16]);
      if json == 0 || json > MAX_DIRECTORY_BYTES then None
      else
        var end :- Add(32, json);
        var start :- Align(end, 4096);
        if start > |entry| then None else Some(start)
  }

  /** The payload starts at the first 4096-byte boundary at or after the directory, and only if the file
      reaches it. */
  lemma PayloadStartExact(entry: seq<byte>, start: u64)
    requires |entry| >= 32
    ensures PayloadStart(entry) == Some(start) <==>
      && 1 <= FromLe(entry[8..16]) <= MAX_DIRECTORY_BYTES
      && start == RoundUp(32 + FromLe(entry[8..16]), 4096) <= |entry|
  {
    var json := FromLe(entry[8..16]);
    if 1 <= json <= MAX_DIRECTORY_BYTES {
      AlignExact(32 + json, 4096);
    }
  }

  function EarlierNames(c: Container, rows: seq<FileRow>, n: nat): set<string>
    requires n <= |rows|
  {
    if n <= 1 then {c.entryName} else EarlierNames(c, rows, n - 1) + {NameText(rows[n - 1])}
  }

  lemma {:induction false} EarlierNamesExact(c: Container, rows: seq<FileRow>, n: nat, name: string)
    requires n <= |rows|
    ensures name in EarlierNames(c, rows, n) <==>
            name == c.entryName || exists j :: 0 < j < n && NameText(rows[j]) == name
    decreases n
  {
    if n > 1 {
      EarlierNamesExact(c, rows, n - 1, name);
    }
  }

  predicate CheckRow(c: Container, payloadStart: u64, row: FileRow, index: nat, names: set<string>) {
    && CountOk(row.payloadBytes)
    && if index == 0 then
         row.path == Null && Add(payloadStart, row.payloadBytes) == Some(|c.entry|)
       else
         && row.path.Text? && SafeName(row.path.name) && row.path.name !in names
         && PartOk(c, row.path.name, index, row.payloadBytes)
  }

  lemma CheckRowExact(c: Container, payloadStart: u64, rows: seq<FileRow>, n: nat)
    requires n < |rows| && PrefixOk(c, payloadStart, rows, n)
    ensures CheckRow(c, payloadStart, rows[n], n, EarlierNames(c, rows, n)) <==> RowOk(c, payloadStart, rows, n)
  {
    if n > 0 && rows[n].path.Text? {
      var name := rows[n].path.name;
      EarlierNamesExact(c, rows, n, name);
      forall j | 0 < j < n
        ensures NameText(rows[j]) == name <==> rows[j].path == rows[n].path
      {
        assert RowOk(c, payloadStart, rows, j);
      }
    }
  }

  lemma PrefixStep(c: Container, payloadStart: u64, rows: seq<FileRow>, n: nat)
    requires n < |rows| && PrefixOk(c, payloadStart, rows, n)
    ensures PrefixOk(c, payloadStart, rows, n + 1) <==>
            RowOk(c, payloadStart, rows, n) && Total(rows[..n]) + rows[n].payloadBytes <= MAX_U64
  {
    TotalStep(rows, n);
  }

  lemma PrefixNecessary(c: Container, payloadStart: u64, rows: seq<FileRow>, n: nat)
    requires n < |rows| && PrefixOk(c, payloadStart, rows, n) && !PrefixOk(c, payloadStart, rows, n + 1)
    ensures !TableOk(c, payloadStart, rows)
  {
  }

  lemma TableGrows(c: Container, payloadStart: u64, rows: seq<FileRow>, files: seq<V3File>, n: nat)
    requires n < |rows| && PrefixOk(c, payloadStart, rows, n + 1) && IsTable(c, payloadStart, rows, files, n)
    requires 0 <= Total(rows[..n]) <= MAX_U64
    ensures IsTable(
      c, payloadStart, rows,
      files + [V3File(RowName(rows[n]), Total(rows[..n]), RowStart(payloadStart, n))], n + 1)
  {
  }

  method AdmitFiles(c: Container, payloadStart: u64, rows: seq<FileRow>) returns (r: Option<(seq<V3File>, u64)>)
    ensures r.Some? <==> TableOk(c, payloadStart, rows)
    ensures r.Some? ==> IsTable(c, payloadStart, rows, r.value.0, |rows|) && r.value.1 == Total(rows)
  {
    if rows == [] || |rows| > MAX_FILES {
      return None;
    }
    var names := {c.entryName};
    var payloadBytes: u64 := 0;
    var files: seq<V3File> := [];
    for index := 0 to |rows|
      invariant PrefixOk(c, payloadStart, rows, index)
      invariant IsTable(c, payloadStart, rows, files, index)
      invariant payloadBytes == Total(rows[..index])
      invariant names == EarlierNames(c, rows, index)
    {
      var row := rows[index];
      CheckRowExact(c, payloadStart, rows, index);
      PrefixStep(c, payloadStart, rows, index);
      if !CheckRow(c, payloadStart, row, index, names) {
        PrefixNecessary(c, payloadStart, rows, index);
        return None;
      }
      var next := Add(payloadBytes, row.payloadBytes);
      if next.None? {
        PrefixNecessary(c, payloadStart, rows, index);
        return None;
      }
      if index > 0 {
        names := names + {row.path.name};
      }
      TableGrows(c, payloadStart, rows, files, index);
      files := files + [V3File(RowName(row), payloadBytes, RowStart(payloadStart, index))];
      payloadBytes := next.value;
      TotalStep(rows, index);
    }
    assert rows[..|rows|] == rows;
    return Some((files, payloadBytes));
  }

  // ----- Lemmas about the logical payload

  lemma TotalStep(rows: seq<FileRow>, n: nat)
    requires n < |rows|
    ensures Total(rows[..n + 1]) == Total(rows[..n]) + rows[n].payloadBytes
  {
    assert rows[..n + 1][..n] == rows[..n];
  }

  lemma PayloadStep(c: Container, payloadStart: u64, rows: seq<FileRow>, i: nat)
    requires i < |rows| && PrefixOk(c, payloadStart, rows, i + 1)
    ensures LogicalPayload(c, payloadStart, rows, i + 1) ==
            LogicalPayload(c, payloadStart, rows, i) + Region(c, payloadStart, rows, i)
    ensures |Region(c, payloadStart, rows, i)| == rows[i].payloadBytes > 0
  {
    assert RowOk(c, payloadStart, rows, i);
  }

  lemma {:induction false} PayloadLength(c: Container, payloadStart: u64, rows: seq<FileRow>, n: nat)
    requires n <= |rows| && PrefixOk(c, payloadStart, rows, n)
    ensures |LogicalPayload(c, payloadStart, rows, n)| == Total(rows[..n])
    decreases n
  {
    if n > 0 {
      PayloadLength(c, payloadStart, rows, n - 1);
      PayloadStep(c, payloadStart, rows, n - 1);
      TotalStep(rows, n - 1);
    }
  }

  lemma {:induction false} TotalMonotone(rows: seq<FileRow>, m: nat, n: nat)
    requires m <= n <= |rows|
    requires forall i :: m <= i < n ==> rows[i].payloadBytes > 0
    ensures Total(rows[..m]) + (n - m) <= Total(rows[..n])
    decreases n - m
  {
    if m < n {
      TotalMonotone(rows, m, n - 1);
      TotalStep(rows, n - 1);
    }
  }

  lemma SliceStays(p: seq<byte>, q: seq<byte>, all: seq<byte>, a: nat, b: nat, r: seq<byte>)
    requires all == p + q && a <= b <= |p| && p[a..b] == r
    ensures b <= |all| && all[a..b] == r
  {
  }

  /** A region is a slice of the whole payload, at the sum of the counts before it. */
  lemma {:induction false} RegionStays(c: Container, payloadStart: u64, rows: seq<FileRow>, i: nat, n: nat)
    requires i < n < |rows| && PrefixOk(c, payloadStart, rows, n + 1)
    requires RegionAt(c, payloadStart, rows, i, n)
    ensures RegionAt(c, payloadStart, rows, i, n + 1)
  {
    PayloadStep(c, payloadStart, rows, n);
    SliceStays(
      LogicalPayload(c, payloadStart, rows, n), Region(c, payloadStart, rows, n),
      LogicalPayload(c, payloadStart, rows, n + 1), Total(rows[..i]), Total(rows[..i + 1]),
      Region(c, payloadStart, rows, i));
  }

  /** The region of file `i` stands in the payload of the first `n` files, at the sum of the counts before it. */
  ghost predicate RegionAt(c: Container, payloadStart: u64, rows: seq<FileRow>, i: nat, n: nat)
    requires i < n <= |rows| && PrefixOk(c, payloadStart, rows, n)
  {
    var p := LogicalPayload(c, payloadStart, rows, n);
    && 0 <= Total(rows[..i]) < Total(rows[..i + 1]) <= |p|
    && p[Total(rows[..i])..Total(rows[..i + 1])] == Region(c, payloadStart, rows, i)
  }

  lemma {:induction false} RegionInPayload(c: Container, payloadStart: u64, rows: seq<FileRow>, i: nat, n: nat)
    requires i < n <= |rows| && PrefixOk(c, payloadStart, rows, n)
    ensures RegionAt(c, payloadStart, rows, i, n)
    decreases n
  {
    if i < n - 1 {
      RegionInPayload(c, payloadStart, rows, i, n - 1);
      RegionStays(c, payloadStart, rows, i, n - 1);
    } else {
      LastRegion(c, payloadStart, rows, i);
    }
  }

  lemma SliceOfSuffix(p: seq<byte>, q: seq<byte>)
    ensures (p + q)[|p|..|p| + |q|] == q
  {
  }

  lemma {:induction false} LastRegion(c: Container, payloadStart: u64, rows: seq<FileRow>, i: nat)
    requires i < |rows| && PrefixOk(c, payloadStart, rows, i + 1)
    ensures var p := LogicalPayload(c, payloadStart, rows, i + 1);
            && 0 <= Total(rows[..i]) < Total(rows[..i + 1]) == |p|
            && p[Total(rows[..i])..Total(rows[..i + 1])] == Region(c, payloadStart, rows, i)
  {
    var q, r := LogicalPayload(c, payloadStart, rows, i), Region(c, payloadStart, rows, i);
    PayloadStep(c, payloadStart, rows, i);
    PayloadLength(c, payloadStart, rows, i);
    TotalStep(rows, i);
    SliceOfSuffix(q, r);
  }

  function FileBytes(c: Container, name: Option<string>): Option<Contents> {
    match name
    case None => Some(c.entry)
    case Some(n) => if n in c.siblings then Some(c.siblings[n].bytes) else None
  }

  // ----- Reads by logical offset

  function End(files: seq<V3File>, i: nat): u64
    requires i < |files|
  {
    if i + 1 < |files| then files[i + 1].begin else MAX_U64
  }

  /** File `i` carries exactly the bytes of `p` between its own begin and the next file's. */
  ghost predicate Carries(c: Container, files: seq<V3File>, p: seq<byte>, i: nat)
    requires i < |files|
  {
    var (begin, stop, f) := (files[i].begin, Stop(files, p, i), FileBytes(c, files[i].name));
    && begin < stop <= |p|
    && f.Some? && |f.value| == files[i].start + (stop - begin)
    && f.value[files[i].start..] == p[begin..stop]
  }

  ghost function Stop(files: seq<V3File>, p: seq<byte>, i: nat): int
    requires i < |files|
  {
    if i + 1 < |files| then files[i + 1].begin else |p|
  }

  /** The files spread the payload `p` without gaps or overlap. */
  ghost predicate Spread(c: Container, files: seq<V3File>, p: seq<byte>) {
    && files != [] && files[0].begin == 0 && |p| <= MAX_U64
    && forall i :: 0 <= i < |files| ==> Carries(c, files, p, i)
  }

  /** Every admitted table spreads its logical payload. */
  lemma AdmittedTableSpreads(c: Container, payloadStart: u64, rows: seq<FileRow>, files: seq<V3File>)
    requires TableOk(c, payloadStart, rows) && IsTable(c, payloadStart, rows, files, |rows|)
    ensures Spread(c, files, LogicalPayload(c, payloadStart, rows, |rows|))
    ensures |LogicalPayload(c, payloadStart, rows, |rows|)| == Total(rows)
  {
    var p := LogicalPayload(c, payloadStart, rows, |rows|);
    PayloadLength(c, payloadStart, rows, |rows|);
    assert rows[..|rows|] == rows;
    forall i | 0 <= i < |files|
      ensures Carries(c, files, p, i)
    {
      assert RowOk(c, payloadStart, rows, i);
      TotalStep(rows, i);
      RegionInPayload(c, payloadStart, rows, i, |rows|);
    }
  }

  lemma SliceOfDrop(f: seq<byte>, start: nat, a: nat, b: nat)
    requires a <= b && start + b <= |f|
    ensures f[start..][a..b] == f[start + a..start + b]
  {
  }

  lemma SliceOfSlice(p: seq<byte>, begin: nat, stop: nat, a: nat, b: nat)
    requires begin <= stop <= |p| && a <= b <= stop - begin
    ensures p[begin..stop][a..b] == p[begin + a..begin + b]
  {
    var (x, y) := (p[begin..stop][a..b], p[begin + a..begin + b]);
    forall k | 0 <= k < b - a
      ensures x[k] == y[k]
    {
      assert x[k] == p[begin..stop][a + k] == p[begin + (a + k)];
    }
    assert x == y;
  }

  lemma CarriedSlice(c: Container, files: seq<V3File>, p: seq<byte>, i: nat, lo: nat, hi: nat)
    requires i < |files| && Carries(c, files, p, i)
    requires files[i].begin <= lo <= hi <= Stop(files, p, i)
    ensures var (f, at) := (FileBytes(c, files[i].name).value, files[i].start + (lo - files[i].begin));
            at + (hi - lo) <= |f| && f[at..at + (hi - lo)] == p[lo..hi]
  {
    var f, start, begin := FileBytes(c, files[i].name).value, files[i].start, files[i].begin;
    SliceOfDrop(f, start, lo - begin, hi - begin);
    SliceOfSlice(p, begin, Stop(files, p, i), lo - begin, hi - begin);
  }

  lemma SlicesJoin(p: seq<byte>, a: nat, b: nat, d: nat)
    requires a <= b <= d <= |p|
    ensures p[a..b] + p[b..d] == p[a..d]
  {
  }

  lemma DeliveredPrefix(c: Container, files: seq<V3File>, p: seq<byte>, i: nat, offset: nat, at: nat, count: nat)
    requires i < |files| && Carries(c, files, p, i)
    requires files[i].begin <= at && at + count <= Stop(files, p, i) && offset <= at
    ensures var (f, from) := (FileBytes(c, files[i].name).value, files[i].start + (at - files[i].begin));
            from + count <= |f| && p[offset..at] + f[from..from + count] == p[offset..at + count]
  {
    CarriedSlice(c, files, p, i, at, at + count);
    SlicesJoin(p, offset, at, at + count);
  }

  /** Where a read of nothing at `offset` past the end of the payload makes the last file seek to. */
  function LastSeek(files: seq<V3File>, offset: int): int
    requires files != []
  {
    files[|files| - 1].start + (offset - files[|files| - 1].begin)
  }

  /** The ranges a read accepts: those inside the payload, and empty ranges past its end as long as the last
      file can seek that far. No file takes offset 2^64 - 1, so an empty range there is not even looked for. */
  predicate Readable(files: seq<V3File>, payloadBytes: nat, offset: int, bytes: int)
    requires files != []
  {
    || offset + bytes <= payloadBytes
    || (bytes == 0 && (offset == MAX_U64 || LastSeek(files, offset) <= MAX_OFFSET))
  }

  /** The source fills a zeroed buffer file by file. Over spread files the read succeeds exactly on the
      readable ranges, and then delivers that slice, whatever boundaries it crosses. */
  method ReadResource(c: Container, files: seq<V3File>, offset: u64, bytes: u64, ghost p: seq<byte>)
    returns (r: Option<seq<byte>>)
    requires Spread(c, files, p)
    ensures r.Some? <==> Readable(files, |p|, offset, bytes)
    ensures r.Some? ==> r.value == if bytes > 0 then p[offset..offset + bytes] else []
  {
    var content := new byte[bytes];
    var copied: u64 := 0;
    var i := 0;
    while i < |files|
      invariant 0 <= i <= |files| && copied <= bytes
      invariant copied > 0 ==> offset + copied <= |p| && content[..copied] == p[offset..offset + copied]
      invariant copied == bytes ==> bytes == 0
      invariant copied > 0 && i < |files| ==> offset + copied == files[i].begin
      invariant copied == 0 && i < |files| ==> offset >= files[i].begin
      invariant i == |files| && copied < bytes ==> offset + bytes > |p|
      invariant i == |files| && bytes == 0 ==> offset == MAX_U64
    {
      assert Carries(c, files, p, i);
      var position := Add(offset, copied);
      if position.None? {
        return None;
      }
      var at := position.value;
      if at < files[i].begin || at >= End(files, i) {
        i := i + 1;
        continue;
      }
      var count := if bytes - copied < End(files, i) - at then bytes - copied else End(files, i) - at;
      var ok := CopyFrom(c, files, i, p, offset, at, count, content, copied);
      if !ok {
        return None;
      }
      copied := copied + count;
      if copied == bytes {
        break;
      }
      i := i + 1;
    }
    if copied != bytes {
      return None;
    }
    return Some(content[..copied]);
  }

  /** So a range outside the payload is not always refused: over one file with one byte of payload an empty
      read at offset 2 succeeds, at 2^64 - 2 it fails on the seek, and at 2^64 - 1 it succeeds again. */
  lemma EmptyReadsPastTheEnd(c: Container, files: seq<V3File>, p: seq<byte>)
    requires c == Container("model", seq(4097, i => 0), map[])
    requires files == [V3File(None, 0, PART_PAYLOAD)] && p == [0]
    ensures Spread(c, files, p)
    ensures Readable(files, |p|, 2, 0) && !Readable(files, |p|, MAX_U64 - 1, 0) && Readable(files, |p|, MAX_U64, 0)
  {
    assert c.entry[PART_PAYLOAD..] == p[0..1];
  }

  /** One file's share of a read: it succeeds when the file has all the bytes asked of it. */
  method CopyFrom(
    c: Container, files: seq<V3File>, i: nat, ghost p: seq<byte>, ghost offset: nat,
    at: u64, count: nat, content: array<byte>, copied: nat)
    returns (ok: bool)
    requires i < |files| && Carries(c, files, p, i)
    requires files[i].begin <= at == offset + copied && copied + count <= content.Length
    requires copied > 0 ==> at <= |p| && content[..copied] == p[offset..at]
    modifies content
    ensures count > 0 ==> (ok <==> at + count <= Stop(files, p, i))
    ensures count > 0 && ok ==> at + count <= |p| && content[..copied + count] == p[offset..at + count]
    ensures count == 0 ==> (ok <==> files[i].start + (at - files[i].begin) <= MAX_OFFSET)
    ensures count == 0 && ok ==> content[..copied] == old(content[..copied])
  {
    ok := ReadFromFile(c, files[i], at, count, content, copied);
    if ok && count > 0 {
      DeliveredPrefix(c, files, p, i, offset, at, count);
    }
  }

  /** Open, seek and `read_exact` into a window of the buffer. A seek may go past the end of the file. */
  method ReadFromFile(c: Container, file: V3File, at: u64, count: nat, content: array<byte>, copied: nat)
    returns (ok: bool)
    requires FileBytes(c, file.name).Some?
    requires file.begin <= at && copied + count <= content.Length
    modifies content
    ensures var (f, from) := (FileBytes(c, file.name).value, file.start + (at - file.begin));
            && (ok <==> if count > 0 then from + count <= |f| else from <= MAX_OFFSET)
            && (ok && count > 0 ==> content[..copied + count] == old(content[..copied]) + f[from..from + count])
            && (ok && count == 0 ==> content[..copied] == old(content[..copied]))
  {
    var bytes := FileBytes(c, file.name).value;
    var seek := Add(file.start, at - file.begin);
    if seek.None? || seek.value > MAX_OFFSET || (count > 0 && seek.value + count > |bytes|) {
      return false;
    }
    forall k | 0 <= k < count {
      content[copied + k] := bytes[seek.value + k];
    }
    if count > 0 {
      assert content[copied..copied + count] == bytes[seek.value..seek.value + count];
      assert content[..copied + count] == content[..copied] + content[copied..copied + count];
    }
    return true;
  }
}
