/**
 * Floating-point data as the decoder sees them: a binary64 (binary32) datum is
 * identified with its 8-byte (4-byte) interchange encoding, IEEE 754-2008
 * section 3.4, written most significant byte first. Byte 0 holds the sign bit
 * and the high exponent bits. Decoding a payload chunk is then exact: a
 * big-endian chunk is the encoding itself, a little-endian one is its reverse.
 *
 * Only the operations the decoder and the geometry helpers apply to such data
 * are defined: negation, and Python's `==` between two binary64 data.
 */
module Ieee754 {
  import opened Bytes

  type Octets8 = s: seq<Byte> | |s| == 8 witness [0, 0, 0, 0, 0, 0, 0, 0]
  type Octets4 = s: seq<Byte> | |s| == 4 witness [0, 0, 0, 0]

  /** A binary64 datum (a Python `float`). */
  datatype F64 = F64(bits: Octets8)

  /** A binary32 datum, as `struct` reads it with the `f` code. */
  datatype F32 = F32(bits: Octets4)

  const PosZero: F64 := F64([0, 0, 0, 0, 0, 0, 0, 0])

  function SignBit(f: F64): nat { (f.bits[0] as int) / 128 }

  function BiasedExponent(f: F64): nat { ((f.bits[0] as int) % 128) * 16 + (f.bits[1] as int) / 16 }

  predicate FractionIsZero(f: F64) {
    (f.bits[1] as int) % 16 == 0 && forall k :: 2 <= k < 8 ==> f.bits[k] == 0
  }

  /** +0.0 or -0.0 (IEEE 754-2008 section 3.4: biased exponent 0 and trailing significand 0). */
  predicate IsZero(f: F64) { BiasedExponent(f) == 0 && FractionIsZero(f) }

  /** A NaN (biased exponent all ones, non-zero trailing significand). */
  predicate IsNaN(f: F64) { BiasedExponent(f) == 2047 && !FractionIsZero(f) }

  /**
   * Python's `a == b` on floats (IEEE 754-2008 section 5.11): NaN equals nothing, the two
   * zeros are equal, and otherwise the binary encodings are non-redundant, so
   * equal values have equal encodings.
   */
  predicate Equal(a: F64, b: F64) {
    !IsNaN(a) && !IsNaN(b) && (a == b || (IsZero(a) && IsZero(b)))
  }

  /** Python's unary `-x`: the IEEE negate operation, which flips the sign bit only (IEEE 754-2008 section 5.5.1). */
  function Neg(f: F64): (r: F64)
    ensures SignBit(r) == 1 - SignBit(f)
    ensures BiasedExponent(r) == BiasedExponent(f)
    ensures FractionIsZero(r) == FractionIsZero(f)
    ensures r.bits[1..] == f.bits[1..]
  {
    var top: Byte := ((f.bits[0] as int) + 128) % 256;
    var r := F64(f.bits[0 := top]);
    assert forall k :: 1 <= k < 8 ==> r.bits[k] == f.bits[k];
    r
  }

  function FromBigEndian(chunk: Octets8): F64 { F64(chunk) }

  function FromLittleEndian(chunk: Octets8): F64 { F64(Reverse(chunk)) }

  function FromLittleEndian32(chunk: Octets4): F32 { F32(Reverse(chunk)) }

  /** The IEEE abs operation: the sign bit cleared, every other bit kept (IEEE 754-2008 section 5.5.1). */
  function Abs(f: F64): (r: F64)
    ensures SignBit(r) == 0 && r.bits[1..] == f.bits[1..]
  {
    var top: Byte := ((f.bits[0] as int) % 128) as Byte;
    var r := F64(f.bits[0 := top]);
    assert forall k :: 1 <= k < 8 ==> r.bits[k] == f.bits[k];
    r
  }

  /** Negating does not change the magnitude. */
  lemma AbsNeg(f: F64)
    ensures Abs(Neg(f)) == Abs(f)
  {
    assert Abs(Neg(f)).bits == Abs(f).bits;
  }

  /** Negation is an involution. */
  lemma NegInvolutive(f: F64)
    ensures Neg(Neg(f)) == f
  {
    assert Neg(Neg(f)).bits == f.bits;
  }

  /** `x == -x` holds exactly for the two zeros (not for NaN, not for any other value). */
  lemma EqualNegIffZero(f: F64)
    ensures Equal(f, Neg(f)) <==> IsZero(f)
  {
    assert Neg(f).bits[0] != f.bits[0];
  }

  /** `x == 0.0` holds exactly for the two zeros. */
  lemma EqualPosZeroIffZero(f: F64)
    ensures Equal(f, PosZero) <==> IsZero(f)
  {
    assert IsZero(PosZero) && !IsNaN(PosZero);
  }

  /**
   * The little-endian reading of a chunk is the big-endian reading of the
   * reversed chunk. This holds by the definition of `FromLittleEndian`; the
   * lemma names the fact for the proofs that use it.
   */
  lemma LittleIsReversedBig(chunk: Octets8)
    ensures FromLittleEndian(chunk) == FromBigEndian(Reverse(chunk))
  {
  }
}
