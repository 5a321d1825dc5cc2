/** Hexadecimal text of bytes, and a comparison that does not stop at the first difference. */
module Hex {
  import opened Wrappers

  type Bytes = seq<bv8>

  /** An entry of the lower-case digit table, as an ASCII byte. */
  function Digit(d: bv8): bv8 {
    if d < 10 then 0x30 + d else 0x57 + d
  }

  function Encoded(bytes: Bytes): (r: Bytes)
    ensures |r| == 2 * |bytes|
  {
    if bytes == [] then []
    else
      var last := bytes[|bytes| - 1];
      Encoded(bytes[..|bytes| - 1]) + [Digit(last >> 4), Digit(last & 0x0F)]
  }

  method EncodeHex(bytes: Bytes) returns (output: Bytes)
    ensures output == Encoded(bytes)
  {
    output := [];
    for i := 0 to |bytes|
      invariant output == Encoded(bytes[..i])
    {
      assert bytes[..i + 1][..i] == bytes[..i];
      output := output + [Digit(bytes[i] >> 4)];
      output := output + [Digit(bytes[i] & 0x0F)];
    }
    assert bytes[..|bytes|] == bytes;
  }

  predicate IsHex(c: bv8) {
    0x30 <= c <= 0x39 || 0x61 <= c <= 0x66 || 0x41 <= c <= 0x46
  }

  predicate AllHex(s: Bytes) {
    forall i :: 0 <= i < |s| ==> IsHex(s[i])
  }

  function Value(c: bv8): bv8
    requires IsHex(c)
  {
    if c <= 0x39 then c - 0x30 else if c >= 0x61 then c - 0x61 + 10 else c - 0x41 + 10
  }

  function Pair(high: bv8, low: bv8): bv8
    requires IsHex(high) && IsHex(low)
  {
    (Value(high) << 4) | Value(low)
  }

  function Decoded(s: Bytes): (r: Bytes)
    requires AllHex(s) && |s| % 2 == 0
    ensures |r| == |s| / 2
  {
    if s == [] then [] else Decoded(s[..|s| - 2]) + [Pair(s[|s| - 2], s[|s| - 1])]
  }

  function Sha256Of(s: Bytes): (r: Option<Bytes>)
    ensures r.Some? ==> |r.value| == 32
  {
    if |s| == 64 && AllHex(s) then Some(Decoded(s)) else None
  }

  /** Decoding fills a buffer of 32 bytes, two digits at a time. */
  method DecodeSha256(s: Bytes) returns (r: Option<array<bv8>>)
    ensures r.Some? <==> Sha256Of(s).Some?
    ensures r.Some? ==> fresh(r.value) && r.value.Length == 32 && Sha256Of(s) == Some(r.value[..])
  {
    if |s| != 64 || !AllHex(s) {
      return None;
    }
    var decoded := new bv8[32](_ => 0);
    for i := 0 to 32
      invariant decoded[..i] == Decoded(s[..2 * i])
    {
      DecodedNext(s, i);
      decoded[i] := (Value(s[2 * i]) << 4) | Value(s[2 * i + 1]);
      assert decoded[..i + 1] == decoded[..i] + [decoded[i]];
    }
    assert s[..64] == s && decoded[..32] == decoded[..];
    return Some(decoded);
  }

  lemma DecodedNext(s: Bytes, i: nat)
    requires AllHex(s) && 2 * i + 2 <= |s|
    ensures Decoded(s[..2 * (i + 1)]) == Decoded(s[..2 * i]) + [Pair(s[2 * i], s[2 * i + 1])]
  {
    assert s[..2 * i + 2][..2 * i] == s[..2 * i];
  }

  lemma DigitIsHex(d: bv8)
    requires d < 16
    ensures IsHex(Digit(d)) && Value(Digit(d)) == d
  {
  }

  lemma HalvesJoin(b: bv8)
    ensures b >> 4 < 16 && b & 0x0F < 16 && ((b >> 4) << 4) | (b & 0x0F) == b
  {
  }

  lemma EncodedPair(b: bv8)
    ensures IsHex(Digit(b >> 4)) && IsHex(Digit(b & 0x0F)) && Pair(Digit(b >> 4), Digit(b & 0x0F)) == b
  {
    HalvesJoin(b);
    DigitIsHex(b >> 4);
    DigitIsHex(b & 0x0F);
  }

  lemma EncodedSnoc(front: Bytes, last: bv8)
    ensures Encoded(front + [last]) == Encoded(front) + [Digit(last >> 4), Digit(last & 0x0F)]
  {
    assert (front + [last])[..|front|] == front;
  }

  lemma {:induction false} DecodedSnoc(front: Bytes, high: bv8, low: bv8)
    requires AllHex(front) && |front| % 2 == 0 && IsHex(high) && IsHex(low)
    ensures AllHex(front + [high, low]) && Decoded(front + [high, low]) == Decoded(front) + [Pair(high, low)]
  {
    DecodedEnds(front + [high, low], front, high, low);
  }

  lemma DecodedEnds(s: Bytes, front: Bytes, high: bv8, low: bv8)
    requires AllHex(front) && |front| % 2 == 0 && IsHex(high) && IsHex(low) && s == front + [high, low]
    ensures |s| % 2 == 0 && AllHex(s) && s[..|s| - 2] == front && s[|s| - 2] == high && s[|s| - 1] == low
  {
  }

  /** Decoding inverts encoding. */
  lemma {:induction false} DecodeEncoded(bytes: Bytes)
    ensures AllHex(Encoded(bytes)) && Decoded(Encoded(bytes)) == bytes
  {
    if bytes != [] {
      var front, last := bytes[..|bytes| - 1], bytes[|bytes| - 1];
      DecodeEncoded(front);
      EncodedPair(last);
      assert bytes == front + [last];
      EncodedSnoc(front, last);
      DecodedSnoc(Encoded(front), Digit(last >> 4), Digit(last & 0x0F));
    }
  }

  function Lower(c: bv8): bv8 {
    if 0x41 <= c <= 0x46 then c + 0x20 else c
  }

  function AllLower(s: Bytes): (r: Bytes)
    ensures |r| == |s| && forall i :: 0 <= i < |s| ==> r[i] == Lower(s[i])
  {
    seq(|s|, i requires 0 <= i < |s| => Lower(s[i]))
  }

  lemma PairSplits(high: bv8, low: bv8)
    requires IsHex(high) && IsHex(low)
    ensures Digit(Pair(high, low) >> 4) == Lower(high) && Digit(Pair(high, low) & 0x0F) == Lower(low)
  {
  }

  lemma LowerSnoc(front: Bytes, high: bv8, low: bv8)
    ensures AllLower(front + [high, low]) == AllLower(front) + [Lower(high), Lower(low)]
  {
  }

  /** Encoding what was decoded yields the same digits in lower case, so a digest has one stored value but up
      to letter case one spelling. */
  lemma {:induction false} EncodeDecoded(s: Bytes)
    requires AllHex(s) && |s| % 2 == 0
    ensures Encoded(Decoded(s)) == AllLower(s)
    decreases |s|
  {
    if s != [] {
      var front, high, low := s[..|s| - 2], s[|s| - 2], s[|s| - 1];
      EncodeDecoded(front);
      PairSplits(high, low);
      assert s == front + [high, low];
      DecodedSnoc(front, high, low);
      EncodedSnoc(Decoded(front), Pair(high, low));
      LowerSnoc(front, high, low);
    }
  }

  /** The comparison of digests: differences are accumulated over the whole length. */
  method ConstantTimeEqual(left: Bytes, right: Bytes) returns (equal: bool)
    requires |left| == |right|
    ensures equal <==> left == right
  {
    var difference: bv8 := 0;
    for i := 0 to |left|
      invariant difference == 0 <==> left[..i] == right[..i]
    {
      DifferenceGrows(difference, left[i], right[i]);
      assert left[..i + 1] == left[..i] + [left[i]] && right[..i + 1] == right[..i] + [right[i]];
      difference := difference | (left[i] ^ right[i]);
    }
    assert left[..|left|] == left && right[..|right|] == right;
    return difference == 0;
  }

  lemma DifferenceGrows(difference: bv8, a: bv8, b: bv8)
    ensures difference | (a ^ b) == 0 <==> difference == 0 && a == b
  {
  }
}
