/** Bytes and the little-endian integer layout that `struct` uses for its `<H` and `<i` codes. */
module Bytes {
  import Arith

  type Byte = b: int | 0 <= b < 256

  function Pow256(n: nat): (p: nat)
    ensures p >= 1
  {
    if n == 0 then 1 else 256 * Pow256(n - 1)
  }

  /** The unsigned integer whose little-endian encoding is `s`. */
  function UIntLe(s: seq<Byte>): (v: nat)
    ensures v < Pow256(|s|)
  {
    if s == [] then 0 else s[0] + 256 * UIntLe(s[1..])
  }

  /** Two little-endian bytes: the low byte plus 256 times the high byte. */
  lemma UIntLe2(lo: Byte, hi: Byte)
    ensures UIntLe([lo, hi]) == lo + 256 * hi as int
  {
    assert [lo, hi][1..] == [hi];
  }

  /** The `n`-byte little-endian encoding of `v`. */
  function EncodeUIntLe(v: nat, n: nat): (s: seq<Byte>)
    requires v < Pow256(n)
    ensures |s| == n
  {
    if n == 0 then [] else [v % 256] + EncodeUIntLe(v / 256, n - 1)
  }

  /** Encoding then decoding gives the value back. */
  lemma {:induction false} DecodeEncodeUIntLe(v: nat, n: nat)
    requires v < Pow256(n)
    ensures UIntLe(EncodeUIntLe(v, n)) == v
  {
    if n > 0 {
      DecodeEncodeUIntLe(v / 256, n - 1);
    }
  }

  /** Decoding then encoding gives the bytes back: the encoding is unique. */
  lemma {:induction false} EncodeDecodeUIntLe(s: seq<Byte>)
    ensures EncodeUIntLe(UIntLe(s), |s|) == s
  {
    if s != [] {
      var u := UIntLe(s[1..]);
      Arith.DivBracket(s[0] + 256 * u, 256, u);
      EncodeDecodeUIntLe(s[1..]);
      assert s == [s[0]] + s[1..];
    }
  }

  function Reverse<T>(s: seq<T>): (r: seq<T>)
    ensures |r| == |s|
    ensures forall i :: 0 <= i < |s| ==> r[i] == s[|s| - 1 - i]
  {
    if s == [] then [] else Reverse(s[1..]) + [s[0]]
  }
}
