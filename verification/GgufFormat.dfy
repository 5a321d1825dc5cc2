/** The encoding of GGUF metadata: typed values, possibly nested arrays, and the entries that hold them.
    The encoding is uniquely decodable. */
module GgufFormat {
  import opened Bytes
  import opened Sequences

  const MAX_METADATA_BYTES: nat := 128 * 1024 * 1024
  const MAX_METADATA_ENTRIES: nat := 1_000_000
  const MAX_STRING_BYTES: nat := 64 * 1024 * 1024
  const MAX_ARRAY_ITEMS: nat := 16_000_000
  const U32: nat := 0x1_0000_0000
  const U64: nat := 0x1_0000_0000_0000_0000
  const TEXT: nat := 8
  const ARRAY: nat := 9

  /** A metadata value as it is encoded; scalars stay uninterpreted bytes. */
  datatype Value =
    | Fixed(bytes: seq<byte>)
    | Text(bytes: seq<byte>)
    | Items(elementType: nat, values: seq<Value>)

  /** The width of a fixed-size type; zero for every other type. */
  function Width(t: nat): nat {
    if t in {0, 1, 7} then 1
    else if t in {2, 3} then 2
    else if t in {4, 5, 6} then 4
    else if t in {10, 11, 12} then 8
    else 0
  }

  predicate Between(b: byte, low: int, high: int) {
    low <= b <= high
  }

  /** The length of the well-formed UTF-8 sequence at the front; zero if there is none. */
  function Utf8Step(s: seq<byte>): (n: nat)
    ensures n <= |s|
  {
    if s == [] then 0
    else if s[0] < 0x80 then 1
    else if |s| >= 2 && Between(s[0], 0xC2, 0xDF) && Between(s[1], 0x80, 0xBF) then 2
    else if |s| >= 3 && Between(s[2], 0x80, 0xBF) &&
            ( (s[0] == 0xE0 && Between(s[1], 0xA0, 0xBF)) || (s[0] == 0xED && Between(s[1], 0x80, 0x9F))
              || (Between(s[0], 0xE1, 0xEF) && s[0] != 0xED && Between(s[1], 0x80, 0xBF))) then 3
    else if |s| >= 4 && Between(s[2], 0x80, 0xBF) && Between(s[3], 0x80, 0xBF) &&
            ( (s[0] == 0xF0 && Between(s[1], 0x90, 0xBF)) || (s[0] == 0xF4 && Between(s[1], 0x80, 0x8F))
              || (Between(s[0], 0xF1, 0xF3) && Between(s[1], 0x80, 0xBF))) then 4
    else 0
  }

  predicate Utf8(s: seq<byte>)
    decreases |s|
  {
    s == [] || (Utf8Step(s) > 0 && Utf8(s[Utf8Step(s)..]))
  }

  predicate StringOk(s: seq<byte>) {
    |s| <= MAX_STRING_BYTES && Utf8(s)
  }

  /** The value is one the reader accepts for a type. */
  ghost predicate Typed(v: Value, t: nat) {
    match v
    case Fixed(bytes) => Width(t) > 0 && |bytes| == Width(t)
    case Text(bytes) => t == TEXT && StringOk(bytes)
    case Items(e, values) =>
      && t == ARRAY && e < U32 && |values| <= MAX_ARRAY_ITEMS
      && forall i :: 0 <= i < |values| ==> Typed(values[i], e)
  }

  function EncodeString(s: seq<byte>): seq<byte> {
    ToLe(|s|, 8) + s
  }

  function ArrayHeader(elementType: nat, count: nat): (s: seq<byte>)
    ensures |s| == 12
  {
    ToLe(elementType, 4) + ToLe(count, 8)
  }

  function Encode(v: Value): seq<byte> {
    match v
    case Fixed(bytes) => bytes
    case Text(bytes) => EncodeString(bytes)
    case Items(e, values) => ArrayHeader(e, |values|) + EncodeAll(values)
  }

  function EncodeAll(values: seq<Value>): seq<byte> {
    if values == [] then [] else EncodeAll(values[..|values| - 1]) + Encode(values[|values| - 1])
  }

  /** One metadata entry. */
  datatype Entry = Entry(key: seq<byte>, kind: nat, value: Value)

  ghost predicate EntryOk(e: Entry) {
    StringOk(e.key) && e.kind < U32 && Typed(e.value, e.kind)
  }

  function EncodeEntry(e: Entry): seq<byte> {
    EncodeString(e.key) + (ToLe(e.kind, 4) + Encode(e.value))
  }

  function EncodeEntries(entries: seq<Entry>): seq<byte> {
    if entries == [] then []
    else EncodeEntries(entries[..|entries| - 1]) + EncodeEntry(entries[|entries| - 1])
  }

  // ----- Unique decodability

  lemma {:induction false} LeUnique(a: nat, b: nat, width: nat, x: seq<byte>, y: seq<byte>)
    requires a < Power256(width) && b < Power256(width) && ToLe(a, width) + x == ToLe(b, width) + y
    ensures a == b && x == y
  {
    var s, t := ToLe(a, width), ToLe(b, width);
    assert s == (s + x)[..width] && t == (t + y)[..width];
    assert x == (s + x)[width..] && y == (t + y)[width..];
    LeRoundTrip(a, width);
    LeRoundTrip(b, width);
  }

  lemma StringUnique(a: seq<byte>, b: seq<byte>, x: seq<byte>, y: seq<byte>)
    requires |a| < U64 && |b| < U64 && EncodeString(a) + x == EncodeString(b) + y
    ensures a == b && x == y
  {
    Widths();
    Associates(ToLe(|a|, 8), a, x);
    Associates(ToLe(|b|, 8), b, y);
    LeUnique(|a|, |b|, 8, a + x, b + y);
    FixedUnique(a, b, x, y);
  }

  lemma HeaderUnique(e: nat, m: nat, f: nat, n: nat, x: seq<byte>, y: seq<byte>)
    requires e < U32 && f < U32 && m < U64 && n < U64
    requires ArrayHeader(e, m) + x == ArrayHeader(f, n) + y
    ensures e == f && m == n && x == y
  {
    Widths();
    assert ArrayHeader(e, m) + x == ToLe(e, 4) + (ToLe(m, 8) + x);
    assert ArrayHeader(f, n) + y == ToLe(f, 4) + (ToLe(n, 8) + y);
    LeUnique(e, f, 4, ToLe(m, 8) + x, ToLe(n, 8) + y);
    LeUnique(m, n, 8, x, y);
  }

  lemma FixedUnique(a: seq<byte>, b: seq<byte>, x: seq<byte>, y: seq<byte>)
    requires |a| == |b| && a + x == b + y
    ensures a == b && x == y
  {
    assert a == (a + x)[..|a|] && b == (b + y)[..|a|];
    assert x == (a + x)[|a|..] && y == (b + y)[|a|..];
  }

  /** The encodings of a type form a prefix code: what follows never decides where a value ends. */
  lemma {:induction false} ValueUnique(v: Value, w: Value, t: nat, x: seq<byte>, y: seq<byte>)
    requires Typed(v, t) && Typed(w, t) && Encode(v) + x == Encode(w) + y
    ensures v == w && x == y
    decreases v, 1
  {
    if v.Fixed? {
      FixedUnique(v.bytes, w.bytes, x, y);
    } else if v.Text? {
      StringUnique(v.bytes, w.bytes, x, y);
    } else {
      ArrayUnique(v, w, x, y);
    }
  }

  lemma {:induction false} ArrayUnique(v: Value, w: Value, x: seq<byte>, y: seq<byte>)
    requires v.Items? && w.Items? && Typed(v, ARRAY) && Typed(w, ARRAY) && Encode(v) + x == Encode(w) + y
    ensures v == w && x == y
    decreases v, 0
  {
    var p, q := EncodeAll(v.values), EncodeAll(w.values);
    Associates(ArrayHeader(v.elementType, |v.values|), p, x);
    Associates(ArrayHeader(w.elementType, |w.values|), q, y);
    HeaderUnique(v.elementType, |v.values|, w.elementType, |w.values|, p + x, q + y);
    ValuesUnique(v.values, w.values, v.elementType, x, y);
  }

  /** Splitting an encoded list at its first element. */
  lemma {:induction false} EncodeAllFirst(values: seq<Value>)
    requires values != []
    ensures EncodeAll(values) == Encode(values[0]) + EncodeAll(values[1..])
  {
    if |values| == 1 {
      assert values[..0] == [] && values[1..] == [];
    } else {
      var front, last := values[..|values| - 1], values[|values| - 1];
      EncodeAllFirst(front);
      assert front[1..] == values[1..][..|values| - 2];
      Associates(Encode(values[0]), EncodeAll(front[1..]), Encode(last));
    }
  }

  lemma {:induction false} ValuesUnique(vs: seq<Value>, ws: seq<Value>, t: nat, x: seq<byte>, y: seq<byte>)
    requires |vs| == |ws| && EncodeAll(vs) + x == EncodeAll(ws) + y
    requires forall i :: 0 <= i < |vs| ==> Typed(vs[i], t) && Typed(ws[i], t)
    ensures vs == ws && x == y
    decreases vs
  {
    if vs != [] {
      EncodeAllFirst(vs);
      EncodeAllFirst(ws);
      var p, q := EncodeAll(vs[1..]), EncodeAll(ws[1..]);
      Associates(Encode(vs[0]), p, x);
      Associates(Encode(ws[0]), q, y);
      ValueUnique(vs[0], ws[0], t, p + x, q + y);
      ValuesUnique(vs[1..], ws[1..], t, x, y);
      assert vs == [vs[0]] + vs[1..] && ws == [ws[0]] + ws[1..];
    } else {
      assert EncodeAll(vs) + x == x && EncodeAll(ws) + y == y;
    }
  }

  lemma EntryUnique(e: Entry, f: Entry, x: seq<byte>, y: seq<byte>)
    requires EntryOk(e) && EntryOk(f) && EncodeEntry(e) + x == EncodeEntry(f) + y
    ensures e == f && x == y
  {
    Widths();
    var p, q := Encode(e.value) + x, Encode(f.value) + y;
    Associates(ToLe(e.kind, 4), Encode(e.value), x);
    Associates(EncodeString(e.key), ToLe(e.kind, 4) + Encode(e.value), x);
    Associates(ToLe(f.kind, 4), Encode(f.value), y);
    Associates(EncodeString(f.key), ToLe(f.kind, 4) + Encode(f.value), y);
    StringUnique(e.key, f.key, ToLe(e.kind, 4) + p, ToLe(f.kind, 4) + q);
    LeUnique(e.kind, f.kind, 4, p, q);
    ValueUnique(e.value, f.value, e.kind, x, y);
  }

  lemma {:induction false} EncodeEntriesFirst(entries: seq<Entry>)
    requires entries != []
    ensures EncodeEntries(entries) == EncodeEntry(entries[0]) + EncodeEntries(entries[1..])
  {
    if |entries| == 1 {
      assert entries[..0] == [] && entries[1..] == [];
    } else {
      var front, last := entries[..|entries| - 1], entries[|entries| - 1];
      EncodeEntriesFirst(front);
      assert front[1..] == entries[1..][..|entries| - 2];
      Associates(EncodeEntry(entries[0]), EncodeEntries(front[1..]), EncodeEntry(last));
    }
  }

  /** As many entries as announced are uniquely decodable, whatever follows them. */
  lemma {:induction false} CountedEntriesUnique(es: seq<Entry>, fs: seq<Entry>, x: seq<byte>, y: seq<byte>)
    requires |es| == |fs| && EncodeEntries(es) + x == EncodeEntries(fs) + y
    requires forall i :: 0 <= i < |es| ==> EntryOk(es[i]) && EntryOk(fs[i])
    ensures es == fs
    decreases |es|
  {
    if es != [] {
      FirstEntryUnique(es, fs, x, y);
      CountedEntriesUnique(es[1..], fs[1..], x, y);
      assert es == [es[0]] + es[1..] && fs == [fs[0]] + fs[1..];
    }
  }

  lemma {:induction false} FirstEntryUnique(es: seq<Entry>, fs: seq<Entry>, x: seq<byte>, y: seq<byte>)
    requires es != [] && fs != [] && EncodeEntries(es) + x == EncodeEntries(fs) + y
    requires EntryOk(es[0]) && EntryOk(fs[0])
    ensures es[0] == fs[0] && EncodeEntries(es[1..]) + x == EncodeEntries(fs[1..]) + y
  {
    EncodeEntriesFirst(es);
    EncodeEntriesFirst(fs);
    var p, q := EncodeEntries(es[1..]), EncodeEntries(fs[1..]);
    Associates(EncodeEntry(es[0]), p, x);
    Associates(EncodeEntry(fs[0]), q, y);
    EntryUnique(es[0], fs[0], p + x, q + y);
  }

  lemma OnlyEmptyEncodesEmpty(es: seq<Entry>)
    ensures EncodeEntries(es) == [] <==> es == []
  {
    if es != [] {
      EncodeEntriesFirst(es);
      assert |EncodeEntry(es[0])| >= 12;
    }
  }

  lemma {:induction false} FirstsUnique(es: seq<Entry>, fs: seq<Entry>)
    requires es != [] && fs != [] && EncodeEntries(es) == EncodeEntries(fs)
    requires EntryOk(es[0]) && EntryOk(fs[0])
    ensures es[0] == fs[0] && EncodeEntries(es[1..]) == EncodeEntries(fs[1..])
  {
    EncodeEntriesFirst(es);
    EncodeEntriesFirst(fs);
    EntryUnique(es[0], fs[0], EncodeEntries(es[1..]), EncodeEntries(fs[1..]));
  }

  /** A run of entries, with nothing between them and no count in front, is uniquely decodable: two
      different vocabularies never feed the same bytes to the digest. */
  lemma {:induction false} EntriesUnique(es: seq<Entry>, fs: seq<Entry>)
    requires forall i :: 0 <= i < |es| ==> EntryOk(es[i])
    requires forall i :: 0 <= i < |fs| ==> EntryOk(fs[i])
    requires EncodeEntries(es) == EncodeEntries(fs)
    ensures es == fs
    decreases |es|
  {
    OnlyEmptyEncodesEmpty(es);
    OnlyEmptyEncodesEmpty(fs);
    if es != [] {
      FirstsUnique(es, fs);
      EntriesUnique(es[1..], fs[1..]);
      assert es == [es[0]] + es[1..] && fs == [fs[0]] + fs[1..];
    }
  }
}
