/** The bounded reader of GGUF metadata. Arrays nest without limit; the remaining byte budget is what ends
    every read. */
module GgufReader {
  import opened Wrappers
  import opened Bytes
  import opened GgufFormat
  import opened Sequences

  /** The bytes stand at a position of the input, within the metadata budget. */
  predicate Fits(bytes: seq<byte>, input: seq<byte>, at: nat) {
    at + |bytes| <= |input| && at + |bytes| <= MAX_METADATA_BYTES && input[at..at + |bytes|] == bytes
  }

  lemma FitsPieces(a: seq<byte>, b: seq<byte>, input: seq<byte>, at: nat)
    ensures Fits(a + b, input, at) <==> Fits(a, input, at) && Fits(b, input, at + |a|)
  {
    if Fits(a + b, input, at) {
      var s := input[at..at + |a + b|];
      assert a == s[..|a|] && b == s[|a|..];
    }
    if Fits(a, input, at) && Fits(b, input, at + |a|) {
      assert input[at..at + |a + b|] == input[at..at + |a|] + input[at + |a|..at + |a + b|];
    }
  }

  /** Two fitting byte strings extend to the same input. */
  lemma FitsTogether(a: seq<byte>, b: seq<byte>, input: seq<byte>, at: nat)
    requires Fits(a, input, at) && Fits(b, input, at)
    ensures a + input[at + |a|..] == b + input[at + |b|..]
  {
    assert a + input[at + |a|..] == input[at..];
    assert b + input[at + |b|..] == input[at..];
  }

  lemma {:induction false} WordFits(n: nat, width: nat, input: seq<byte>, at: nat)
    requires n < Power256(width) && at + width <= |input|
    ensures Fits(ToLe(n, width), input, at) <==>
            at + width <= MAX_METADATA_BYTES && n == FromLe(input[at..at + width])
  {
    LeRoundTrip(n, width);
    ToLeInverse(input[at..at + width]);
  }

  /** The string of a given length that would have to stand after its length word. */
  predicate StringAfter(n: nat, input: seq<byte>, at: nat) {
    && n <= MAX_STRING_BYTES && at + 8 + n <= |input| && at + 8 + n <= MAX_METADATA_BYTES
    && Utf8(input[at + 8..at + 8 + n])
  }

  /** No acceptable string stands at this position. */
  ghost predicate NoString(input: seq<byte>, at: nat) {
    forall s :: StringOk(s) ==> !Fits(EncodeString(s), input, at)
  }

  lemma {:induction false} NoStringAfter(n: nat, input: seq<byte>, at: nat)
    requires n < U64 && Fits(ToLe(n, 8), input, at) && !StringAfter(n, input, at)
    ensures NoString(input, at)
  {
    Widths();
    forall s | StringOk(s)
      ensures !Fits(EncodeString(s), input, at)
    {
      if Fits(EncodeString(s), input, at) {
        FitsPieces(ToLe(|s|, 8), s, input, at);
        WordFits(|s|, 8, input, at);
        WordFits(n, 8, input, at);
      }
    }
  }

  lemma StringTooShort(input: seq<byte>, at: nat)
    requires at + 8 > |input| || at + 8 > MAX_METADATA_BYTES
    ensures NoString(input, at)
  {
    forall s | StringOk(s)
      ensures !Fits(EncodeString(s), input, at)
    {
      assert |EncodeString(s)| >= 8;
    }
  }

  ghost predicate ValueFits(v: Value, t: nat, input: seq<byte>, at: nat) {
    Typed(v, t) && Fits(Encode(v), input, at)
  }

  lemma ValueFitsOnce(v: Value, w: Value, t: nat, input: seq<byte>, at: nat)
    requires ValueFits(v, t, input, at) && ValueFits(w, t, input, at)
    ensures v == w
  {
    FitsTogether(Encode(v), Encode(w), input, at);
    ValueUnique(v, w, t, input[at + |Encode(v)|..], input[at + |Encode(w)|..]);
  }

  /** An array whose first elements have been read: the header and those elements. */
  function Partial(e: nat, count: nat, read: seq<Value>): seq<byte> {
    ArrayHeader(e, count) + EncodeAll(read)
  }

  lemma {:induction false} EncodeAllConcat(a: seq<Value>, b: seq<Value>)
    ensures EncodeAll(a + b) == EncodeAll(a) + EncodeAll(b)
    decreases b
  {
    if b == [] {
      assert a + b == a;
    } else {
      var front := b[..|b| - 1];
      assert (a + b)[..|a + b| - 1] == a + front;
      EncodeAllConcat(a, front);
      Associates(EncodeAll(a), EncodeAll(front), Encode(b[|b| - 1]));
    }
  }

  /** The next element of a fitting array stands right after what has been read of it. */
  lemma {:induction false} ArraySplits(w: Value, read: seq<Value>)
    requires w.Items? && read <= w.values && |read| < |w.values|
    ensures Encode(w) ==
            Partial(w.elementType, |w.values|, read)
            + (Encode(w.values[|read|]) + EncodeAll(w.values[|read| + 1..]))
  {
    var e, n, rest := w.elementType, |w.values|, w.values[|read|..];
    assert w.values == read + rest && rest[1..] == w.values[|read| + 1..];
    EncodeAllConcat(read, rest);
    EncodeAllFirst(rest);
    Associates(ArrayHeader(e, n), EncodeAll(read), EncodeAll(rest));
  }

  lemma {:induction false} NextElementFits(w: Value, read: seq<Value>, input: seq<byte>, at: nat)
    requires ValueFits(w, ARRAY, input, at) && read <= w.values && |read| < |w.values|
    ensures ValueFits(w.values[|read|], w.elementType, input, at + |Partial(w.elementType, |w.values|, read)|)
  {
    var front, next, more :=
      Partial(w.elementType, |w.values|, read), Encode(w.values[|read|]), EncodeAll(w.values[|read| + 1..]);
    ArraySplits(w, read);
    FitsPieces(front, next + more, input, at);
    FitsPieces(next, more, input, at + |front|);
  }

  ghost predicate AllTyped(read: seq<Value>, e: nat) {
    forall k :: 0 <= k < |read| ==> Typed(read[k], e)
  }

  /** What every array that fits must start with, once the header and some elements have been read. */
  ghost predicate ArraysBegin(e: nat, count: nat, read: seq<Value>, input: seq<byte>, at: nat) {
    forall w :: ValueFits(w, ARRAY, input, at) ==>
      w.elementType == e && |w.values| == count && read <= w.values
  }

  lemma ArraysStart(e: nat, count: nat, input: seq<byte>, at: nat)
    requires e < U32 && count < U64 && Fits(ArrayHeader(e, count), input, at)
    ensures ArraysBegin(e, count, [], input, at)
  {
    forall w | ValueFits(w, ARRAY, input, at)
      ensures w.elementType == e && |w.values| == count
    {
      var h := ArrayHeader(w.elementType, |w.values|);
      FitsPieces(h, EncodeAll(w.values), input, at);
      FitsTogether(ArrayHeader(e, count), h, input, at);
      HeaderUnique(e, count, w.elementType, |w.values|, input[at + 12..], input[at + 12..]);
    }
  }

  lemma ArraysAdvance(e: nat, count: nat, read: seq<Value>, v: Value, input: seq<byte>, at: nat)
    requires ArraysBegin(e, count, read, input, at) && |read| < count
    requires ValueFits(v, e, input, at + |Partial(e, count, read)|)
    ensures ArraysBegin(e, count, read + [v], input, at)
  {
    forall w | ValueFits(w, ARRAY, input, at)
      ensures read + [v] <= w.values
    {
      NextElementFits(w, read, input, at);
      ValueFitsOnce(v, w.values[|read|], e, input, at + |Partial(e, count, read)|);
    }
  }

  lemma ArraysFail(e: nat, count: nat, read: seq<Value>, input: seq<byte>, at: nat, next: nat)
    requires ArraysBegin(e, count, read, input, at) && |read| < count
    requires next == at + |Partial(e, count, read)| && forall v :: !ValueFits(v, e, input, next)
    ensures forall w :: !ValueFits(w, ARRAY, input, at)
  {
    forall w
      ensures !ValueFits(w, ARRAY, input, at)
    {
      if ValueFits(w, ARRAY, input, at) {
        NextElementFits(w, read, input, at);
      }
    }
  }

  lemma NoHeaderNoArray(input: seq<byte>, at: nat)
    requires at + 12 > |input| || at + 12 > MAX_METADATA_BYTES
    ensures forall w :: !ValueFits(w, ARRAY, input, at)
  {
    forall w
      ensures !ValueFits(w, ARRAY, input, at)
    {
      assert Typed(w, ARRAY) ==> |Encode(w)| >= 12;
    }
  }

  lemma PartialGrows(e: nat, count: nat, read: seq<Value>, v: Value, input: seq<byte>, at: nat)
    requires Fits(Partial(e, count, read), input, at)
    requires Fits(Encode(v), input, at + |Partial(e, count, read)|)
    ensures Fits(Partial(e, count, read + [v]), input, at)
    ensures Partial(e, count, read + [v]) == Partial(e, count, read) + Encode(v)
  {
    assert (read + [v])[..|read|] == read;
    Associates(ArrayHeader(e, count), EncodeAll(read), Encode(v));
    FitsPieces(Partial(e, count, read), Encode(v), input, at);
  }

  class Reader {
    const input: seq<byte>
    var pos: nat
    var consumed: nat
    /** The bytes fed to the tokenizer digest so far. */
    var digest: seq<byte>
    /** How often `Value` has been entered. */
    ghost var calls: nat

    constructor (input: seq<byte>)
      ensures Valid() && this.input == input && pos == 0 && digest == [] && calls == 0
    {
      this.input := input;
      pos, consumed, digest := 0, 0, [];
      calls := 0;
    }

    /** Between successful reads the count is exactly what has been read, and within the budget. */
    ghost predicate Valid()
      reads `pos, `consumed
    {
      consumed == pos && pos <= |input| && consumed <= MAX_METADATA_BYTES
    }

    /** The reader has read exactly these bytes from `start` on, and hashed them if asked to. */
    ghost predicate HasRead(bytes: seq<byte>, start: nat, hashedBefore: seq<byte>, hashed: bool)
      reads `pos, `consumed, `digest
    {
      && Valid() && Fits(bytes, input, start) && pos == start + |bytes|
      && digest == if hashed then hashedBefore + bytes else hashedBefore
    }

    lemma ReadMore(a: seq<byte>, b: seq<byte>, start: nat, before: seq<byte>, middle: seq<byte>, hashed: bool)
      requires Fits(a, input, start) && middle == (if hashed then before + a else before)
      requires HasRead(b, start + |a|, middle, hashed)
      ensures HasRead(a + b, start, before, hashed)
    {
      FitsPieces(a, b, input, start);
      Associates(before, a, b);
    }

    method Raw(n: nat, hashed: bool) returns (r: Option<seq<byte>>)
      requires Valid() && n <= MAX_STRING_BYTES
      modifies `pos, `consumed, `digest
      ensures r.Some? <==> old(pos) + n <= |input| && old(pos) + n <= MAX_METADATA_BYTES
      ensures r.Some? ==> |r.value| == n && HasRead(r.value, old(pos), old(digest), hashed)
      ensures consumed >= old(consumed)
    {
      consumed := consumed + n;
      if consumed > MAX_METADATA_BYTES || pos + n > |input| {
        return None;
      }
      var bytes := input[pos..pos + n];
      pos := pos + n;
      if hashed {
        digest := digest + bytes;
      }
      return Some(bytes);
    }

    /** A little-endian unsigned word of four or eight bytes. */
    method Word(width: nat, hashed: bool) returns (r: Option<nat>)
      requires Valid() && width <= 8
      modifies `pos, `consumed, `digest
      ensures r.Some? <==> old(pos) + width <= |input| && old(pos) + width <= MAX_METADATA_BYTES
      ensures r.Some? ==> r.value < Power256(width) && HasRead(ToLe(r.value, width), old(pos), old(digest), hashed)
      ensures consumed >= old(consumed)
    {
      var bytes := Raw(width, hashed);
      if bytes.None? {
        return None;
      }
      FromLeBound(bytes.value);
      ToLeInverse(bytes.value);
      return Some(FromLe(bytes.value));
    }

    /** A length-prefixed UTF-8 string: read exactly when an acceptable one stands here. */
    method Str(hashed: bool) returns (r: Option<seq<byte>>)
      requires Valid()
      modifies `pos, `consumed, `digest
      ensures r.Some? ==> StringOk(r.value) && HasRead(EncodeString(r.value), old(pos), old(digest), hashed)
      ensures r.None? ==> NoString(input, old(pos))
      ensures consumed >= old(consumed)
    {
      ghost var start, before := pos, digest;
      Widths();
      var length := Word(8, hashed);
      if length.None? {
        StringTooShort(input, start);
        return None;
      }
      ghost var n, middle := length.value, digest;
      var bytes := StringBytes(length.value, hashed);
      if bytes.None? {
        NoStringAfter(n, input, start);
        return None;
      }
      ReadMore(ToLe(n, 8), bytes.value, start, before, middle, hashed);
      return bytes;
    }

    /** The bytes of a string whose length has been read. */
    method StringBytes(n: nat, hashed: bool) returns (r: Option<seq<byte>>)
      requires Valid() && pos >= 8
      modifies `pos, `consumed, `digest
      ensures r.Some? <==> StringAfter(n, input, old(pos) - 8)
      ensures r.Some? ==> |r.value| == n && StringOk(r.value) && HasRead(r.value, old(pos), old(digest), hashed)
      ensures consumed >= old(consumed)
    {
      if n > MAX_STRING_BYTES {
        return None;
      }
      var bytes := Raw(n, hashed);
      if bytes.None? || !Utf8(bytes.value) {
        return None;
      }
      return bytes;
    }

    method Header(hashed: bool) returns (r: Option<(nat, nat)>)
      requires Valid()
      modifies `pos, `consumed, `digest
      ensures r.Some? <==> old(pos) + 12 <= |input| && old(pos) + 12 <= MAX_METADATA_BYTES
      ensures r.Some? ==>
                && r.value.0 < U32 && r.value.1 < U64
                && HasRead(ArrayHeader(r.value.0, r.value.1), old(pos), old(digest), hashed)
      ensures consumed >= old(consumed)
    {
      ghost var start, before := pos, digest;
      Widths();
      var elementType := Word(4, hashed);
      if elementType.None? {
        return None;
      }
      ghost var middle := digest;
      var count := Word(8, hashed);
      if count.None? {
        return None;
      }
      ReadMore(ToLe(elementType.value, 4), ToLe(count.value, 8), start, before, middle, hashed);
      return Some((elementType.value, count.value));
    }

    /** Reads a value of a type: succeeds exactly when an acceptable one stands here within the budget. Every
        successful call reads at least one byte, so the bytes consumed bound the calls. */
    method Value(t: nat, capture: bool, hashed: bool) returns (ok: bool, captured: Option<Value>, ghost v: Value)
      requires Valid()
      modifies `pos, `consumed, `digest, `calls
      ensures ok ==> Typed(v, t) && HasRead(Encode(v), old(pos), old(digest), hashed)
      ensures ok ==> captured == if capture && !v.Items? then Some(v) else None
      ensures !ok ==> forall w :: !ValueFits(w, t, input, old(pos))
      ensures consumed >= old(consumed)
      ensures calls > old(calls)
      ensures if ok then calls - old(calls) <= consumed - old(consumed)
              else calls - old(calls) <= consumed - old(consumed) + 1
      decreases MAX_METADATA_BYTES - consumed, 1
    {
      calls := calls + 1;
      captured, v := None, Fixed([]);
      if Width(t) > 0 {
        var bytes := Raw(Width(t), hashed);
        if bytes.None? {
          return false, captured, v;
        }
        v := Fixed(bytes.value);
        return true, if capture then Some(Fixed(bytes.value)) else None, v;
      } else if t == TEXT {
        var bytes := Str(hashed);
        if bytes.None? {
          return false, captured, v;
        }
        v := Text(bytes.value);
        return true, if capture then Some(Text(bytes.value)) else None, v;
      } else if t == ARRAY {
        ok, v := Array(hashed);
      } else {
        return false, captured, v;
      }
    }

    lemma ElementRead(
      e: nat, count: nat, read: seq<Value>, item: Value, start: nat,
      before: seq<byte>, middle: seq<byte>, hashed: bool)
      requires Fits(Partial(e, count, read), input, start) && ArraysBegin(e, count, read, input, start)
      requires |read| < count && Typed(item, e) && AllTyped(read, e)
      requires middle == if hashed then before + Partial(e, count, read) else before
      requires HasRead(Encode(item), start + |Partial(e, count, read)|, middle, hashed)
      ensures HasRead(Partial(e, count, read + [item]), start, before, hashed)
      ensures ArraysBegin(e, count, read + [item], input, start) && AllTyped(read + [item], e)
    {
      ArraysAdvance(e, count, read, item, input, start);
      PartialGrows(e, count, read, item, input, start);
      ReadMore(Partial(e, count, read), Encode(item), start, before, middle, hashed);
    }

    /** The array case of `Value`. */
    method Array(hashed: bool) returns (ok: bool, ghost v: Value)
      requires Valid()
      modifies `pos, `consumed, `digest, `calls
      ensures ok ==> Typed(v, ARRAY) && HasRead(Encode(v), old(pos), old(digest), hashed) && v.Items?
      ensures !ok ==> forall w :: !ValueFits(w, ARRAY, input, old(pos))
      ensures consumed >= old(consumed)
      ensures ok ==> calls - old(calls) + 12 <= consumed - old(consumed)
      ensures old(calls) <= calls <= old(calls) + consumed - old(consumed)
      decreases MAX_METADATA_BYTES - consumed, 0
    {
      ghost var start, before, enter := pos, digest, calls;
      v := Fixed([]);
      var header := Header(hashed);
      if header.None? {
        NoHeaderNoArray(input, start);
        return false, v;
      }
      var (e, count) := header.value;
      ArraysStart(e, count, input, start);
      if count > MAX_ARRAY_ITEMS {
        return false, v;
      }
      ghost var read: seq<Value> := [];
      assert Partial(e, count, read) == ArrayHeader(e, count);
      var i := 0;
      while i < count
        invariant i <= count && |read| == i && calls >= enter
        invariant AllTyped(read, e)
        invariant HasRead(Partial(e, count, read), start, before, hashed)
        invariant ArraysBegin(e, count, read, input, start)
        invariant calls - enter + 12 <= consumed - start
      {
        ghost var item, middle, here := Fixed([]), digest, pos;
        var fine, captured;
        fine, captured, item := Value(e, false, hashed);
        if !fine {
          ArraysFail(e, count, read, input, start, here);
          return false, v;
        }
        ElementRead(e, count, read, item, start, before, middle, hashed);
        read := read + [item];
        i := i + 1;
      }
      v := Items(e, read);
      return true, v;
    }
  }
}
