/** Inspection of a GGUF header: which metadata is admitted, and what identity is read from it. */
module GgufMetadata {
  import opened Wrappers
  import opened Bytes
  import opened GgufFormat
  import opened GgufReader
  import opened Sequences

  /** Keys are compared as the ASCII bytes of their spellings. */
  function Ascii(s: string): seq<byte>
    requires forall i :: 0 <= i < |s| ==> s[i] as int < 128
  {
    seq(|s|, i requires 0 <= i < |s| => s[i] as int)
  }

  /** The names of the keys the inspection acts on. */
  datatype Names = Names(tokenizerPrefix: seq<byte>, architecture: seq<byte>, chatTemplate: seq<byte>)

  const NAMES := Names(Ascii("tokenizer.ggml."), Ascii("general.architecture"), Ascii("tokenizer.chat_template"))
  const MAGIC: seq<byte> := Ascii("GGUF")

  datatype Metadata = Metadata(version: nat, tensors: nat, entries: seq<Entry>)

  function Front(magic: seq<byte>, version: nat, tensors: nat, count: nat): seq<byte> {
    magic + (ToLe(version, 4) + (ToLe(tensors, 8) + ToLe(count, 8)))
  }

  function EncodeMetadata(magic: seq<byte>, m: Metadata): seq<byte> {
    Front(magic, m.version, m.tensors, |m.entries|) + EncodeEntries(m.entries)
  }

  /** The input starts with admissible metadata. */
  ghost predicate Stands(magic: seq<byte>, m: Metadata, input: seq<byte>) {
    && 2 <= m.version <= 3 && m.tensors < U64 && |m.entries| <= MAX_METADATA_ENTRIES
    && (forall i :: 0 <= i < |m.entries| ==> EntryOk(m.entries[i]))
    && Fits(EncodeMetadata(magic, m), input, 0)
  }

  predicate IsTokenizer(names: Names, e: Entry) {
    names.tokenizerPrefix <= e.key
  }

  function TokenizerEntries(names: Names, entries: seq<Entry>): seq<Entry> {
    if entries == [] then []
    else
      var last := entries[|entries| - 1];
      TokenizerEntries(names, entries[..|entries| - 1]) + if IsTokenizer(names, last) then [last] else []
  }

  /** The string the last entry of a key holds; tokenizer fields are never looked at. */
  function TextUnder(names: Names, entries: seq<Entry>, key: seq<byte>): Option<seq<byte>> {
    if entries == [] then None
    else
      var last := entries[|entries| - 1];
      if last.key == key && !IsTokenizer(names, last) then
        if last.value.Text? then Some(last.value.bytes) else None
      else TextUnder(names, entries[..|entries| - 1], key)
  }

  /** What the inspection reports; the digests are represented by the bytes they are taken of. */
  datatype Identity = Identity(
    version: nat, architecture: seq<byte>, chatTemplate: Option<seq<byte>>, tokenizer: Option<seq<byte>>)

  function Describe(names: Names, m: Metadata, architecture: seq<byte>): Identity {
    var fields := TokenizerEntries(names, m.entries);
    Identity(
      m.version, architecture, TextUnder(names, m.entries, names.chatTemplate),
      if fields == [] then None else Some(EncodeEntries(fields)))
  }

  // ----- One entry

  lemma EntryPieces(e: Entry, input: seq<byte>, at: nat)
    ensures Fits(EncodeEntry(e), input, at) <==>
            && Fits(EncodeString(e.key), input, at)
            && Fits(ToLe(e.kind, 4), input, at + |EncodeString(e.key)|)
            && Fits(Encode(e.value), input, at + |EncodeString(e.key)| + 4)
  {
    FitsPieces(EncodeString(e.key), ToLe(e.kind, 4) + Encode(e.value), input, at);
    FitsPieces(ToLe(e.kind, 4), Encode(e.value), input, at + |EncodeString(e.key)|);
  }

  ghost predicate EntryFits(e: Entry, input: seq<byte>, at: nat) {
    EntryOk(e) && Fits(EncodeEntry(e), input, at)
  }

  lemma NoKeyNoEntry(input: seq<byte>, at: nat)
    requires NoString(input, at)
    ensures forall e :: !EntryFits(e, input, at)
  {
    forall e
      ensures !EntryFits(e, input, at)
    {
      EntryPieces(e, input, at);
      assert EntryFits(e, input, at) ==> StringOk(e.key);
    }
  }

  lemma KeyDecides(key: seq<byte>, e: Entry, input: seq<byte>, at: nat)
    requires StringOk(key) && Fits(EncodeString(key), input, at) && EntryFits(e, input, at)
    ensures e.key == key && Fits(ToLe(e.kind, 4), input, at + |EncodeString(key)|)
    ensures ValueFits(e.value, e.kind, input, at + |EncodeString(key)| + 4)
  {
    EntryPieces(e, input, at);
    FitsTogether(EncodeString(key), EncodeString(e.key), input, at);
    StringUnique(key, e.key, input[at + |EncodeString(key)|..], input[at + |EncodeString(e.key)|..]);
  }

  lemma NoKindNoEntry(key: seq<byte>, input: seq<byte>, at: nat, next: nat)
    requires StringOk(key) && Fits(EncodeString(key), input, at) && next == at + |EncodeString(key)|
    requires next + 4 > |input| || next + 4 > MAX_METADATA_BYTES
    ensures forall e :: !EntryFits(e, input, at)
  {
    forall e
      ensures !EntryFits(e, input, at)
    {
      if EntryFits(e, input, at) {
        KeyDecides(key, e, input, at);
      }
    }
  }

  lemma {:induction false} NoValueNoEntry(key: seq<byte>, kind: nat, input: seq<byte>, at: nat, next: nat)
    requires StringOk(key) && Fits(EncodeString(key), input, at) && next == at + |EncodeString(key)| + 4
    requires kind < U32 && Fits(ToLe(kind, 4), input, at + |EncodeString(key)|)
    requires forall v :: !ValueFits(v, kind, input, next)
    ensures forall e :: !EntryFits(e, input, at)
  {
    forall e
      ensures !EntryFits(e, input, at)
    {
      if EntryFits(e, input, at) {
        KeyDecides(key, e, input, at);
        Widths();
        WordFits(kind, 4, input, at + |EncodeString(key)|);
        WordFits(e.kind, 4, input, at + |EncodeString(key)|);
      }
    }
  }

  lemma EntryFitsOnce(e: Entry, f: Entry, input: seq<byte>, at: nat)
    requires EntryFits(e, input, at) && EntryFits(f, input, at)
    ensures e == f
  {
    FitsTogether(EncodeEntry(e), EncodeEntry(f), input, at);
    EntryUnique(e, f, input[at + |EncodeEntry(e)|..], input[at + |EncodeEntry(f)|..]);
  }

  /** What an entry adds to the tokenizer digest. */
  function HashedPart(names: Names, e: Entry): seq<byte> {
    if IsTokenizer(names, e) then EncodeEntry(e) else []
  }

  /** The reader stands behind an entry that was read at `at`. */
  ghost predicate Behind(reader: Reader, bytes: seq<byte>, at: nat)
    reads reader`pos, reader`consumed
  {
    reader.Valid() && Fits(bytes, reader.input, at) && reader.pos == at + |bytes|
  }

  method ReadValue(names: Names, reader: Reader, key: seq<byte>, kind: nat)
    returns (ok: bool, captured: Option<Value>, ghost v: Value)
    requires reader.Valid()
    modifies reader`pos, reader`consumed, reader`digest, reader`calls
    ensures ok ==> ValueFits(v, kind, reader.input, old(reader.pos))
    ensures ok ==> Behind(reader, Encode(v), old(reader.pos))
    ensures ok ==> captured == if names.tokenizerPrefix <= key || v.Items? then None else Some(v)
    ensures ok ==> reader.digest == old(reader.digest) + HashedPart(names, Entry(key, kind, v))
    ensures !ok ==> forall w :: !ValueFits(w, kind, reader.input, old(reader.pos))
  {
    ghost var before := reader.digest;
    if names.tokenizerPrefix <= key {
      reader.digest := reader.digest + ToLe(|key|, 8);
      reader.digest := reader.digest + key;
      reader.digest := reader.digest + ToLe(kind, 4);
      ghost var front := reader.digest;
      ok, captured, v := reader.Value(kind, false, true);
      if ok {
        Associates(before, ToLe(|key|, 8), key);
        Associates(before + EncodeString(key), ToLe(kind, 4), Encode(v));
        Associates(before, EncodeString(key), ToLe(kind, 4) + Encode(v));
      }
    } else {
      ok, captured, v := reader.Value(kind, true, false);
    }
  }

  lemma EntryComplete(e: Entry, input: seq<byte>, at: nat)
    requires StringOk(e.key) && e.kind < U32 && Fits(EncodeString(e.key), input, at)
    requires Fits(ToLe(e.kind, 4), input, at + |EncodeString(e.key)|)
    requires ValueFits(e.value, e.kind, input, at + |EncodeString(e.key)| + 4)
    ensures EntryFits(e, input, at) && |EncodeEntry(e)| == |EncodeString(e.key)| + 4 + |Encode(e.value)|
  {
    EntryPieces(e, input, at);
  }

  method ReadEntry(names: Names, reader: Reader)
    returns (ok: bool, key: seq<byte>, captured: Option<Value>, ghost e: Entry)
    requires reader.Valid()
    modifies reader`pos, reader`consumed, reader`digest, reader`calls
    ensures ok ==> EntryFits(e, reader.input, old(reader.pos)) && e.key == key
    ensures ok ==> Behind(reader, EncodeEntry(e), old(reader.pos))
    ensures ok ==> captured == if IsTokenizer(names, e) || e.value.Items? then None else Some(e.value)
    ensures ok ==> reader.digest == old(reader.digest) + HashedPart(names, e)
    ensures !ok ==> forall w :: !EntryFits(w, reader.input, old(reader.pos))
  {
    ghost var start, input := reader.pos, reader.input;
    captured, key, e := None, [], Entry([], 0, Fixed([]));
    var name := reader.Str(false);
    if name.None? {
      NoKeyNoEntry(input, start);
      return false, key, captured, e;
    }
    key := name.value;
    ghost var next := reader.pos;
    Widths();
    var kind := reader.Word(4, false);
    if kind.None? {
      NoKindNoEntry(key, input, start, next);
      return false, key, captured, e;
    }
    ghost var v;
    ok, captured, v := ReadValue(names, reader, key, kind.value);
    if !ok {
      NoValueNoEntry(key, kind.value, input, start, next + 4);
      return;
    }
    e := Entry(key, kind.value, v);
    EntryComplete(e, input, start);
  }

  // ----- The whole metadata

  /** What all metadata that stands must start with, once the front and some entries have been read. */
  ghost predicate MetadataBegins(
    magic: seq<byte>, version: nat, tensors: nat, count: nat, read: seq<Entry>, input: seq<byte>) {
    forall m :: Stands(magic, m, input) ==>
      m.version == version && m.tensors == tensors && |m.entries| == count && read <= m.entries
  }

  lemma FrontUnique(magic: seq<byte>, v: nat, t: nat, n: nat, w: nat, u: nat, m: nat)
    requires v < U32 && w < U32 && t < U64 && u < U64 && n < U64 && m < U64
    requires Front(magic, v, t, n) == Front(magic, w, u, m)
    ensures v == w && t == u && n == m
  {
    Widths();
    var a, b := ToLe(t, 8) + ToLe(n, 8), ToLe(u, 8) + ToLe(m, 8);
    assert ToLe(v, 4) + a == Front(magic, v, t, n)[|magic|..];
    assert ToLe(w, 4) + b == Front(magic, w, u, m)[|magic|..];
    LeUnique(v, w, 4, a, b);
    LeUnique(t, u, 8, ToLe(n, 8), ToLe(m, 8));
    assert ToLe(n, 8) + [] == ToLe(n, 8) && ToLe(m, 8) + [] == ToLe(m, 8);
    LeUnique(n, m, 8, [], []);
  }

  lemma StandsFront(magic: seq<byte>, m: Metadata, input: seq<byte>)
    requires Stands(magic, m, input)
    ensures Fits(Front(magic, m.version, m.tensors, |m.entries|), input, 0)
    ensures Fits(magic, input, 0)
    ensures |magic| + 20 <= |input| && |magic| + 20 <= MAX_METADATA_BYTES
  {
    var f := Front(magic, m.version, m.tensors, |m.entries|);
    FitsPieces(f, EncodeEntries(m.entries), input, 0);
    FitsPieces(magic, ToLe(m.version, 4) + (ToLe(m.tensors, 8) + ToLe(|m.entries|, 8)), input, 0);
  }

  lemma MetadataStarts(magic: seq<byte>, version: nat, tensors: nat, count: nat, input: seq<byte>)
    requires version < U32 && tensors < U64 && count < U64
    requires Fits(Front(magic, version, tensors, count), input, 0)
    ensures MetadataBegins(magic, version, tensors, count, [], input)
  {
    forall m | Stands(magic, m, input)
      ensures m.version == version && m.tensors == tensors && |m.entries| == count
    {
      StandsFront(magic, m, input);
      FitsTogether(Front(magic, version, tensors, count), Front(magic, m.version, m.tensors, |m.entries|), input, 0);
      FrontUnique(magic, version, tensors, count, m.version, m.tensors, |m.entries|);
    }
  }

  lemma {:induction false} EncodeEntriesConcat(a: seq<Entry>, b: seq<Entry>)
    ensures EncodeEntries(a + b) == EncodeEntries(a) + EncodeEntries(b)
    decreases b
  {
    if b == [] {
      assert a + b == a;
    } else {
      var front := b[..|b| - 1];
      assert (a + b)[..|a + b| - 1] == a + front;
      EncodeEntriesConcat(a, front);
      Associates(EncodeEntries(a), EncodeEntries(front), EncodeEntry(b[|b| - 1]));
    }
  }

  lemma {:induction false} EntriesSplit(entries: seq<Entry>, k: nat)
    requires k < |entries|
    ensures EncodeEntries(entries)
            == EncodeEntries(entries[..k]) + (EncodeEntry(entries[k]) + EncodeEntries(entries[k + 1..]))
  {
    var rest := entries[k..];
    assert entries == entries[..k] + rest;
    EncodeEntriesConcat(entries[..k], rest);
    EncodeEntriesFirst(rest);
    assert rest[1..] == entries[k + 1..];
  }

  lemma MiddleFits(a: seq<byte>, b: seq<byte>, c: seq<byte>, d: seq<byte>, input: seq<byte>)
    requires Fits(a + (b + (c + d)), input, 0)
    ensures Fits(c, input, |a + b|)
  {
    FitsPieces(a, b + (c + d), input, 0);
    FitsPieces(b, c + d, input, |a|);
    FitsPieces(c, d, input, |a| + |b|);
  }

  lemma {:induction false} NextEntryFits(magic: seq<byte>, m: Metadata, read: seq<Entry>, input: seq<byte>, at: nat)
    requires Stands(magic, m, input) && read <= m.entries && |read| < |m.entries|
    requires at == |Front(magic, m.version, m.tensors, |m.entries|) + EncodeEntries(read)|
    ensures EntryFits(m.entries[|read|], input, at)
  {
    var f, k := Front(magic, m.version, m.tensors, |m.entries|), |read|;
    assert m.entries[..k] == read;
    EntriesSplit(m.entries, k);
    MiddleFits(f, EncodeEntries(read), EncodeEntry(m.entries[k]), EncodeEntries(m.entries[k + 1..]), input);
  }

  lemma NextEntryIs(magic: seq<byte>, m: Metadata, read: seq<Entry>, e: Entry, input: seq<byte>, at: nat)
    requires Stands(magic, m, input) && read <= m.entries && |read| < |m.entries|
    requires at == |Front(magic, m.version, m.tensors, |m.entries|) + EncodeEntries(read)| && EntryFits(e, input, at)
    ensures read + [e] <= m.entries
  {
    NextEntryFits(magic, m, read, input, at);
    EntryFitsOnce(e, m.entries[|read|], input, at);
    assert m.entries[..|read| + 1] == m.entries[..|read|] + [m.entries[|read|]];
  }

  lemma MetadataAdvances(
    magic: seq<byte>, version: nat, tensors: nat, count: nat, read: seq<Entry>, e: Entry,
    input: seq<byte>, at: nat)
    requires MetadataBegins(magic, version, tensors, count, read, input) && |read| < count
    requires at == |Front(magic, version, tensors, count) + EncodeEntries(read)| && EntryFits(e, input, at)
    ensures MetadataBegins(magic, version, tensors, count, read + [e], input)
  {
    forall m | Stands(magic, m, input)
      ensures read + [e] <= m.entries
    {
      NextEntryIs(magic, m, read, e, input, at);
    }
  }

  lemma MetadataFails(
    magic: seq<byte>, version: nat, tensors: nat, count: nat, read: seq<Entry>, input: seq<byte>, at: nat)
    requires MetadataBegins(magic, version, tensors, count, read, input) && |read| < count
    requires at == |Front(magic, version, tensors, count) + EncodeEntries(read)|
    requires forall e :: !EntryFits(e, input, at)
    ensures forall m :: !Stands(magic, m, input)
  {
    forall m
      ensures !Stands(magic, m, input)
    {
      if Stands(magic, m, input) {
        NextEntryFits(magic, m, read, input, at);
      }
    }
  }

  /** At most one metadata stands at the start of an input, so the identity read from it is determined. */
  lemma {:induction false} StandsOnce(magic: seq<byte>, m: Metadata, w: Metadata, input: seq<byte>)
    requires Stands(magic, m, input) && Stands(magic, w, input)
    ensures m == w
  {
    StandsFront(magic, m, input);
    StandsFront(magic, w, input);
    var f, g := Front(magic, m.version, m.tensors, |m.entries|), Front(magic, w.version, w.tensors, |w.entries|);
    FitsTogether(f, g, input, 0);
    FrontUnique(magic, m.version, m.tensors, |m.entries|, w.version, w.tensors, |w.entries|);
    FitsPieces(f, EncodeEntries(m.entries), input, 0);
    FitsPieces(f, EncodeEntries(w.entries), input, 0);
    EntriesFitOnce(m.entries, w.entries, input, |f|);
  }

  lemma {:induction false} EntriesFitOnce(es: seq<Entry>, fs: seq<Entry>, input: seq<byte>, at: nat)
    requires Fits(EncodeEntries(es), input, at) && Fits(EncodeEntries(fs), input, at) && |es| == |fs|
    requires forall i :: 0 <= i < |es| ==> EntryOk(es[i]) && EntryOk(fs[i])
    ensures es == fs
  {
    FitsTogether(EncodeEntries(es), EncodeEntries(fs), input, at);
    CountedEntriesUnique(es, fs, input[at + |EncodeEntries(es)|..], input[at + |EncodeEntries(fs)|..]);
  }

  /** The running state of the entry loop. */
  datatype Seen = Seen(architecture: Option<seq<byte>>, chatTemplate: Option<seq<byte>>, fields: nat)

  function AsText(captured: Option<Value>): Option<seq<byte>> {
    if captured.Some? && captured.value.Text? then Some(captured.value.bytes) else None
  }

  /** One turn of the entry loop, after the entry has been read. */
  function Look(names: Names, seen: Seen, key: seq<byte>, captured: Option<Value>): Seen {
    if names.tokenizerPrefix <= key then seen.(fields := seen.fields + 1)
    else if key == names.architecture then seen.(architecture := AsText(captured))
    else if key == names.chatTemplate then seen.(chatTemplate := AsText(captured))
    else seen
  }

  /** The loop state after some entries. */
  ghost predicate Knows(names: Names, seen: Seen, entries: seq<Entry>) {
    && seen.architecture == TextUnder(names, entries, names.architecture)
    && seen.chatTemplate == TextUnder(names, entries, names.chatTemplate)
    && seen.fields == |TokenizerEntries(names, entries)|
  }

  lemma LookKnows(names: Names, seen: Seen, read: seq<Entry>, e: Entry)
    requires Knows(names, seen, read) && names.architecture != names.chatTemplate
    ensures Knows(
      names, Look(names, seen, e.key, if IsTokenizer(names, e) || e.value.Items? then None else Some(e.value)),
      read + [e])
  {
    var all := read + [e];
    assert all[..|all| - 1] == read;
  }

  lemma {:induction false} HashedGrows(names: Names, read: seq<Entry>, e: Entry)
    ensures EncodeEntries(TokenizerEntries(names, read + [e]))
            == EncodeEntries(TokenizerEntries(names, read)) + HashedPart(names, e)
  {
    var all := read + [e];
    assert all[..|all| - 1] == read;
    var fields := TokenizerEntries(names, read);
    assert (fields + [e])[..|fields|] == fields;
    assert fields + [] == fields;
    assert EncodeEntries(fields) + [] == EncodeEntries(fields);
  }

  lemma {:induction false} EntryAppended(front: seq<byte>, read: seq<Entry>, e: Entry, input: seq<byte>)
    ensures front + EncodeEntries(read + [e]) == front + EncodeEntries(read) + EncodeEntry(e)
    ensures Fits(front + EncodeEntries(read + [e]), input, 0) <==>
            && Fits(front + EncodeEntries(read), input, 0)
            && Fits(EncodeEntry(e), input, |front + EncodeEntries(read)|)
  {
    assert (read + [e])[..|read|] == read;
    Associates(front, EncodeEntries(read), EncodeEntry(e));
    FitsPieces(front + EncodeEntries(read), EncodeEntry(e), input, 0);
  }

  method ReadEntries(
    names: Names, magic: seq<byte>, reader: Reader, count: nat,
    ghost version: nat, ghost tensors: nat)
    returns (ok: bool, seen: Seen, ghost read: seq<Entry>)
    requires reader.Valid() && names.architecture != names.chatTemplate && reader.digest == []
    requires Behind(reader, Front(magic, version, tensors, count), 0)
    requires MetadataBegins(magic, version, tensors, count, [], reader.input)
    modifies reader`pos, reader`consumed, reader`digest, reader`calls
    ensures ok ==> |read| == count && (forall i :: 0 <= i < count ==> EntryOk(read[i])) && Knows(names, seen, read)
    ensures ok ==> Fits(Front(magic, version, tensors, count) + EncodeEntries(read), reader.input, 0)
    ensures ok ==> MetadataBegins(magic, version, tensors, count, read, reader.input)
    ensures ok ==> reader.digest == EncodeEntries(TokenizerEntries(names, read))
    ensures !ok ==> forall m :: !Stands(magic, m, reader.input)
  {
    ghost var front, input := Front(magic, version, tensors, count), reader.input;
    seen, read := Seen(None, None, 0), [];
    assert front + EncodeEntries([]) == front;
    for i := 0 to count
      invariant |read| == i && (forall k :: 0 <= k < i ==> EntryOk(read[k])) && Knows(names, seen, read)
      invariant Behind(reader, front + EncodeEntries(read), 0)
      invariant MetadataBegins(magic, version, tensors, count, read, input)
      invariant reader.digest == EncodeEntries(TokenizerEntries(names, read))
    {
      ghost var at := reader.pos;
      var fine, key, captured;
      ghost var e;
      fine, key, captured, e := ReadEntry(names, reader);
      if !fine {
        MetadataFails(magic, version, tensors, count, read, input, at);
        return false, seen, read;
      }
      MetadataAdvances(magic, version, tensors, count, read, e, input, at);
      EntryAppended(front, read, e, input);
      LookKnows(names, seen, read, e);
      HashedGrows(names, read, e);
      seen := Look(names, seen, key, captured);
      read := read + [e];
    }
    return true, seen, read;
  }

  datatype Refusal = InvalidMagic | UnsupportedVersion(version: nat) | Malformed

  lemma TooShort(magic: seq<byte>, input: seq<byte>)
    requires |magic| + 20 > |input| || |magic| + 20 > MAX_METADATA_BYTES
    ensures forall m :: !Stands(magic, m, input)
  {
    forall m
      ensures !Stands(magic, m, input)
    {
      if Stands(magic, m, input) {
        StandsFront(magic, m, input);
      }
    }
  }

  lemma WrongMagic(magic: seq<byte>, found: seq<byte>, input: seq<byte>)
    requires Fits(found, input, 0) && |found| == |magic| && found != magic
    ensures forall m :: !Stands(magic, m, input)
  {
    forall m
      ensures !Stands(magic, m, input)
    {
      if Stands(magic, m, input) {
        StandsFront(magic, m, input);
      }
    }
  }

  lemma {:induction false} VersionOf(magic: seq<byte>, version: nat, m: Metadata, input: seq<byte>)
    requires version < U32 && Fits(ToLe(version, 4), input, |magic|) && Stands(magic, m, input)
    ensures m.version == version
  {
    Widths();
    StandsFront(magic, m, input);
    var rest := ToLe(m.tensors, 8) + ToLe(|m.entries|, 8);
    FitsPieces(magic, ToLe(m.version, 4) + rest, input, 0);
    FitsPieces(ToLe(m.version, 4), rest, input, |magic|);
    WordFits(version, 4, input, |magic|);
    WordFits(m.version, 4, input, |magic|);
  }

  lemma {:induction false} VersionDecides(magic: seq<byte>, version: nat, input: seq<byte>)
    requires version < U32 && Fits(magic + ToLe(version, 4), input, 0)
    ensures forall m :: Stands(magic, m, input) ==> m.version == version
  {
    FitsPieces(magic, ToLe(version, 4), input, 0);
    forall m | Stands(magic, m, input)
      ensures m.version == version
    {
      VersionOf(magic, version, m, input);
    }
  }

  lemma FrontFits(magic: seq<byte>, version: nat, tensors: nat, count: nat, input: seq<byte>)
    requires Fits(magic + ToLe(version, 4), input, 0)
    requires Fits(ToLe(tensors, 8), input, |magic| + 4) && Fits(ToLe(count, 8), input, |magic| + 12)
    ensures Fits(Front(magic, version, tensors, count), input, 0)
  {
    FitsPieces(ToLe(tensors, 8), ToLe(count, 8), input, |magic| + 4);
    FitsPieces(magic + ToLe(version, 4), ToLe(tensors, 8) + ToLe(count, 8), input, 0);
    Associates(magic, ToLe(version, 4), ToLe(tensors, 8) + ToLe(count, 8));
  }

  method ReadVersion(magic: seq<byte>, reader: Reader) returns (r: Result<nat, Refusal>)
    requires reader.Valid() && reader.pos == 0 && |magic| == 4
    modifies reader`pos, reader`consumed, reader`digest
    ensures reader.digest == old(reader.digest) || r.Err?
    ensures r.Ok? ==> 2 <= r.value <= 3 && Behind(reader, magic + ToLe(r.value, 4), 0)
    ensures r.Err? ==> forall m :: !Stands(magic, m, reader.input)
  {
    Widths();
    var found := reader.Raw(4, false);
    if found.None? {
      TooShort(magic, reader.input);
      return Err(Malformed);
    }
    if found.value != magic {
      WrongMagic(magic, found.value, reader.input);
      return Err(InvalidMagic);
    }
    var version := reader.Word(4, false);
    if version.None? {
      TooShort(magic, reader.input);
      return Err(Malformed);
    }
    FitsPieces(magic, ToLe(version.value, 4), reader.input, 0);
    VersionDecides(magic, version.value, reader.input);
    if version.value < 2 || version.value > 3 {
      return Err(UnsupportedVersion(version.value));
    }
    return Ok(version.value);
  }

  method ReadFront(magic: seq<byte>, reader: Reader) returns (r: Result<(nat, nat, nat), Refusal>)
    requires reader.Valid() && reader.pos == 0 && |magic| == 4
    modifies reader`pos, reader`consumed, reader`digest
    ensures reader.digest == old(reader.digest) || r.Err?
    ensures r.Ok? ==>
              && 2 <= r.value.0 <= 3 && r.value.1 < U64 && r.value.2 <= MAX_METADATA_ENTRIES
              && Behind(reader, Front(magic, r.value.0, r.value.1, r.value.2), 0)
    ensures r.Err? ==> forall m :: !Stands(magic, m, reader.input)
  {
    var version := ReadVersion(magic, reader);
    if version.Err? {
      return Err(version.error);
    }
    Widths();
    var tensors := reader.Word(8, false);
    if tensors.None? {
      TooShort(magic, reader.input);
      return Err(Malformed);
    }
    var count := reader.Word(8, false);
    if count.None? {
      TooShort(magic, reader.input);
      return Err(Malformed);
    }
    FrontFits(magic, version.value, tensors.value, count.value, reader.input);
    if count.value > MAX_METADATA_ENTRIES {
      MetadataStarts(magic, version.value, tensors.value, count.value, reader.input);
      return Err(Malformed);
    }
    return Ok((version.value, tensors.value, count.value));
  }

  /** Inspection succeeds exactly when admissible metadata with an architecture string stands at the start
      of the input; the tokenizer digest is then taken of the encoded tokenizer entries, in order, whatever
      other entries stand between them. */
  method Inspect(names: Names, magic: seq<byte>, input: seq<byte>)
    returns (r: Result<Identity, Refusal>, ghost m: Metadata)
    requires |magic| == 4 && names.architecture != names.chatTemplate
    ensures r.Ok? ==>
              && Stands(magic, m, input)
              && TextUnder(names, m.entries, names.architecture).Some?
              && r.value == Describe(names, m, TextUnder(names, m.entries, names.architecture).value)
    ensures r.Err? ==> forall w :: Stands(magic, w, input) ==>
              TextUnder(names, w.entries, names.architecture).None?
  {
    m := Metadata(0, 0, []);
    var reader := new Reader(input);
    var front := ReadFront(magic, reader);
    if front.Err? {
      return Err(front.error), m;
    }
    var (version, tensors, count) := front.value;
    MetadataStarts(magic, version, tensors, count, input);
    var ok, seen;
    ghost var read;
    ok, seen, read := ReadEntries(names, magic, reader, count, version, tensors);
    if !ok {
      return Err(Malformed), m;
    }
    m := Metadata(version, tensors, read);
    assert Stands(magic, m, input);
    if seen.architecture.None? {
      forall w | Stands(magic, w, input)
        ensures w == m
      {
        StandsOnce(magic, m, w, input);
      }
      return Err(Malformed), m;
    }
    r := Ok(Identity(
      version, seen.architecture.value, seen.chatTemplate,
      if seen.fields > 0 then Some(reader.digest) else None));
  }

  /** The inspection of the source, with its own magic and key names. */
  method InspectGguf(input: seq<byte>) returns (r: Result<Identity, Refusal>, ghost m: Metadata)
    ensures r.Ok? ==> Stands(MAGIC, m, input) && r.value == Describe(NAMES, m, r.value.architecture)
    ensures r.Ok? ==> TextUnder(NAMES, m.entries, NAMES.architecture) == Some(r.value.architecture)
    ensures r.Ok? <==> exists w :: Stands(MAGIC, w, input) && TextUnder(NAMES, w.entries, NAMES.architecture).Some?
  {
    assert |NAMES.architecture| == 20 && |NAMES.chatTemplate| == 23;
    r, m := Inspect(NAMES, MAGIC, input);
  }

  /** Interleaved metadata never reaches the digest: removing every entry that is not a tokenizer field
      leaves the digested bytes unchanged, and equal digested bytes mean equal tokenizer fields. */
  lemma {:induction false} DigestSeesTokenizerOnly(names: Names, a: seq<Entry>, b: seq<Entry>)
    requires forall i :: 0 <= i < |a| ==> EntryOk(a[i])
    requires forall i :: 0 <= i < |b| ==> EntryOk(b[i])
    ensures EncodeEntries(TokenizerEntries(names, a)) == EncodeEntries(TokenizerEntries(names, b))
            <==> TokenizerEntries(names, a) == TokenizerEntries(names, b)
  {
    TokenizerEntriesOk(names, a);
    TokenizerEntriesOk(names, b);
    if EncodeEntries(TokenizerEntries(names, a)) == EncodeEntries(TokenizerEntries(names, b)) {
      EntriesUnique(TokenizerEntries(names, a), TokenizerEntries(names, b));
    }
  }

  lemma {:induction false} TokenizerEntriesOk(names: Names, entries: seq<Entry>)
    requires forall i :: 0 <= i < |entries| ==> EntryOk(entries[i])
    ensures forall i :: 0 <= i < |TokenizerEntries(names, entries)| ==> EntryOk(TokenizerEntries(names, entries)[i])
  {
    if entries != [] {
      TokenizerEntriesOk(names, entries[..|entries| - 1]);
    }
  }
}
