/** Fixed-width integers as bytes, in the two byte orders the formats use. */
module Bytes {
  type byte = x: int | 0 <= x < 256

  /** Little-endian value of a byte string: the first byte is the least significant. */
  function FromLe(s: seq<byte>): (n: nat)
    decreases s
  {
    if s == [] then 0 else s[0] + 256 * FromLe(s[1..])
  }

  function ToLe(n: nat, width: nat): (s: seq<byte>)
    ensures |s| == width
    decreases width, n
  {
    if width == 0 then [] else [n % 256] + ToLe(n / 256, width - 1)
  }

  ghost function Power256(width: nat): (p: nat)
    ensures p >= 1
  {
    if width == 0 then 1 else 256 * Power256(width - 1)
  }

  lemma {:induction false} LeRoundTrip(n: nat, width: nat)
    requires n < Power256(width)
    ensures FromLe(ToLe(n, width)) == n
  {
    if width > 0 {
      LeRoundTrip(n / 256, width - 1);
      assert ToLe(n, width)[1..] == ToLe(n / 256, width - 1);
    }
  }

  lemma {:induction false} FromLeBound(s: seq<byte>)
    ensures FromLe(s) < Power256(|s|)
    decreases s
  {
    if s != [] {
      FromLeBound(s[1..]);
    }
  }

  lemma LowByte(low: byte, high: nat)
    ensures (low + 256 * high) % 256 == low && (low + 256 * high) / 256 == high
  {
  }

  lemma {:induction false} ToLeInverse(s: seq<byte>)
    ensures ToLe(FromLe(s), |s|) == s
    decreases s
  {
    if s != [] {
      var rest := s[1..];
      ToLeInverse(rest);
      LowByte(s[0], FromLe(rest));
      assert s == [s[0]] + rest;
    }
  }

  lemma Widths()
    ensures Power256(4) == 0x1_0000_0000
    ensures Power256(8) == 0x1_0000_0000_0000_0000
  {
    assert Power256(4) == 256 * (256 * (256 * 256));
    assert Power256(8) == 256 * (256 * (256 * (256 * Power256(4))));
  }

  /** Two's complement reading of four little-endian bytes. */
  function FromI32Le(s: seq<byte>): int
    requires |s| == 4
  {
    var n := FromLe(s);
    if n < 0x8000_0000 then n else n - 0x1_0000_0000
  }

  function Reverse(s: seq<byte>): (r: seq<byte>)
    ensures |r| == |s|
    decreases s
  {
    if s == [] then [] else Reverse(s[1..]) + [s[0]]
  }

  lemma {:induction false} ReverseSnoc(s: seq<byte>, x: byte)
    ensures Reverse(s + [x]) == [x] + Reverse(s)
    decreases s
  {
    if s == [] {
      assert [] + [x] == [x];
    } else {
      ReverseSnoc(s[1..], x);
      assert (s + [x])[1..] == s[1..] + [x];
    }
  }

  lemma {:induction false} ReverseTwice(s: seq<byte>)
    ensures Reverse(Reverse(s)) == s
    decreases s
  {
    if s != [] {
      ReverseTwice(s[1..]);
      ReverseSnoc(Reverse(s[1..]), s[0]);
    }
  }

  /** Big-endian u32, the length prefix of a protocol frame. */
  function ToU32Be(n: nat): (s: seq<byte>)
    ensures |s| == 4
  {
    Reverse(ToLe(n, 4))
  }

  function FromBe(s: seq<byte>): nat {
    FromLe(Reverse(s))
  }

  lemma U32BeRoundTrip(n: nat)
    requires n < 0x1_0000_0000
    ensures FromBe(ToU32Be(n)) == n
  {
    Widths();
    ReverseTwice(ToLe(n, 4));
    LeRoundTrip(n, 4);
  }
}
