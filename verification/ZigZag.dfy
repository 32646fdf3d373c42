/** Signed integers on the wire: two's complement words, nanopb's zigzag code and the exclusive-or
    form of the Objective-C runtime, shown to be the same bijection. */
module ZigZag {
  import opened Bits

  /** Values a signed word of `w` bits holds. */
  predicate InSigned(v: int, w: nat)
    requires w > 0
  {
    0 <= v + Pow2(w - 1) < 2 * Pow2(w - 1)
  }

  /** `(uintN_t)v` */
  function ToWord(v: int, w: nat): (u: nat)
    requires w > 0 && InSigned(v, w)
    ensures u < Pow2(w)
  {
    assert Pow2(w) == 2 * Pow2(w - 1);
    if v < 0 then v + Pow2(w) else v
  }

  /** `(intN_t)u` */
  function ToSigned(u: nat, w: nat): (v: int)
    requires w > 0 && u < Pow2(w)
    ensures InSigned(v, w)
  {
    assert Pow2(w) == 2 * Pow2(w - 1);
    if u < Pow2(w - 1) then u else u - Pow2(w)
  }

  /** The value both zigzag codes give to `v`. */
  function Interleaved(v: int): nat {
    if v < 0 then -2 * v - 1 else 2 * v
  }

  function Deinterleaved(u: nat): int {
    if u % 2 == 1 then -(u / 2) - 1 else u / 2
  }

  lemma {:induction false} InterleavedBijective(v: int, u: nat, w: nat)
    requires w > 0
    ensures Deinterleaved(Interleaved(v)) == v && Interleaved(Deinterleaved(u)) == u
    ensures InSigned(v, w) <==> Interleaved(v) < Pow2(w)
  {
    assert Pow2(w) == 2 * Pow2(w - 1);
  }

  /** nanopb: shift left, and complement a negative value. */
  function Encode(v: int): nat
    requires InSigned(v, 64)
  {
    var shifted := Shl(ToWord(v, 64), 1, 64);
    if v < 0 then Not(shifted, 64) else shifted
  }

  /** nanopb: shift right, and complement when the low bit was set. */
  function Decode(u: nat): int
    requires u < Pow2(64)
  {
    HalfFits(u, 64);
    if u % 2 == 1 then ToSigned(Not(u / 2, 64), 64) else ToSigned(u / 2, 64)
  }

  /** GPB: `((uintN_t)n << 1) ^ (uintN_t)(n >> (N-1))`, the right shift being arithmetic. */
  function GpbEncode(v: int, w: nat): nat
    requires w > 0 && InSigned(v, w)
  {
    SignShift(v, w);
    Xor(Shl(ToWord(v, w), 1, w), ToWord(v / Pow2(w - 1), w))
  }

  /** GPB: `LogicalRightShift(n, 1) ^ -(n & 1)`. */
  function GpbDecode(u: nat, w: nat): int
    requires w > 0 && u < Pow2(w)
  {
    HalfFits(u, w);
    XorBound(u / 2, ToWord(-(u % 2), w), w);
    ToSigned(Xor(u / 2, ToWord(-(u % 2), w)), w)
  }

  lemma {:induction false} HalfFits(u: nat, w: nat)
    requires w > 0 && u < Pow2(w)
    ensures u / 2 < Pow2(w - 1) && 0 <= Not(u / 2, w) < Pow2(w)
    ensures InSigned(-(u % 2), w)
  {
    assert Pow2(w) == 2 * Pow2(w - 1);
  }

  lemma {:induction false} SignShift(v: int, w: nat)
    requires w > 0 && InSigned(v, w)
    ensures v / Pow2(w - 1) == if v < 0 then -1 else 0
    ensures InSigned(v / Pow2(w - 1), w)
  {
    var m := Pow2(w - 1);
    if v < 0 {
      DivModUnique(v, m, -1, v + m);
    } else {
      DivModUnique(v, m, 0, v);
    }
  }

  lemma {:induction false} XorBound(a: nat, b: nat, w: nat)
    requires a < Pow2(w) && b < Pow2(w)
    ensures Xor(a, b) < Pow2(w)
    decreases w
  {
    if w > 0 {
      XorBound(a / 2, b / 2, w - 1);
    }
  }

  lemma {:induction false} Doubled(v: int, w: nat)
    requires w > 0 && InSigned(v, w)
    ensures Shl(ToWord(v, w), 1, w) == if v < 0 then Pow2(w) + 2 * v else 2 * v
  {
    var u, m := ToWord(v, w), Pow2(w);
    assert m == 2 * Pow2(w - 1);
    assert Shl(u, 1, w) == Shl(2 * u, 0, w) == Wrap(2 * u, m);
    assert v < 0 ==> Wrap(2 * u, m) == Wrap(2 * u - m, m);
  }

  /** nanopb's encoder interleaves non-negative and negative values. */
  lemma {:induction false} EncodeMeaning(v: int)
    requires InSigned(v, 64)
    ensures Encode(v) == Interleaved(v) < Pow2(64)
  {
    Doubled(v, 64);
    assert Pow2(64) == 2 * Pow2(63);
  }

  lemma {:induction false} DecodeMeaning(u: nat)
    requires u < Pow2(64)
    ensures Decode(u) == Deinterleaved(u) && InSigned(Decode(u), 64)
  {
    HalfFits(u, 64);
  }

  /** Both directions: decoding undoes encoding and encoding undoes decoding. */
  lemma {:induction false} EncodeBijective(v: int, u: nat)
    requires InSigned(v, 64) && u < Pow2(64)
    ensures Encode(v) < Pow2(64) && Decode(Encode(v)) == v
    ensures InSigned(Decode(u), 64) && Encode(Decode(u)) == u
  {
    InterleavedBijective(v, u, 64);
    EncodeMeaning(v);
    DecodeMeaning(Interleaved(v));
    DecodeMeaning(u);
    EncodeMeaning(Deinterleaved(u));
  }

  lemma {:induction false} GpbEncodeNegative(v: int, w: nat)
    requires w > 0 && InSigned(v, w) && v < 0
    ensures GpbEncode(v, w) == -2 * v - 1
  {
    var shifted := Shl(ToWord(v, w), 1, w);
    Doubled(v, w);
    SignShift(v, w);
    XorOnes(shifted, w);
    assert ToWord(-1, w) == Pow2(w) - 1;
  }

  lemma {:induction false} GpbEncodeNatural(v: int, w: nat)
    requires w > 0 && InSigned(v, w) && v >= 0
    ensures GpbEncode(v, w) == 2 * v
  {
    var shifted := Shl(ToWord(v, w), 1, w);
    Doubled(v, w);
    SignShift(v, w);
    XorZero(shifted);
  }

  /** The exclusive-or form computes the same code, at either width. */
  lemma {:induction false} GpbEncodeMeaning(v: int, w: nat)
    requires w > 0 && InSigned(v, w)
    ensures GpbEncode(v, w) == Interleaved(v) < Pow2(w)
  {
    InterleavedBijective(v, 0, w);
    if v < 0 {
      GpbEncodeNegative(v, w);
    } else {
      GpbEncodeNatural(v, w);
    }
  }

  lemma {:induction false} GpbDecodeOdd(u: nat, w: nat)
    requires w > 0 && u < Pow2(w) && u % 2 == 1
    ensures GpbDecode(u, w) == -(u / 2) - 1
  {
    HalfFits(u, w);
    XorOnes(u / 2, w);
    assert ToWord(-1, w) == Pow2(w) - 1;
  }

  lemma {:induction false} GpbDecodeEven(u: nat, w: nat)
    requires w > 0 && u < Pow2(w) && u % 2 == 0
    ensures GpbDecode(u, w) == u / 2
  {
    HalfFits(u, w);
    XorZero(u / 2);
    assert ToWord(0, w) == 0;
  }

  lemma {:induction false} GpbDecodeMeaning(u: nat, w: nat)
    requires w > 0 && u < Pow2(w)
    ensures GpbDecode(u, w) == Deinterleaved(u) && InSigned(GpbDecode(u, w), w)
  {
    if u % 2 == 1 {
      GpbDecodeOdd(u, w);
    } else {
      GpbDecodeEven(u, w);
    }
  }

  /** The exclusive-or form is a bijection between signed and unsigned words of any width. */
  lemma {:induction false} GpbBijective(v: int, u: nat, w: nat)
    requires w > 0 && InSigned(v, w) && u < Pow2(w)
    ensures GpbEncode(v, w) < Pow2(w) && GpbDecode(GpbEncode(v, w), w) == v
    ensures InSigned(GpbDecode(u, w), w) && GpbEncode(GpbDecode(u, w), w) == u
  {
    InterleavedBijective(v, u, w);
    GpbEncodeMeaning(v, w);
    GpbDecodeMeaning(Interleaved(v), w);
    GpbDecodeMeaning(u, w);
    GpbEncodeMeaning(Deinterleaved(u), w);
  }

  /** On 64-bit values the two implementations agree, in both directions. */
  lemma {:induction false} GpbAgreesWithNanopb(v: int, u: nat)
    requires InSigned(v, 64) && u < Pow2(64)
    ensures GpbEncode(v, 64) == Encode(v)
    ensures GpbDecode(u, 64) == Decode(u)
  {
    EncodeMeaning(v);
    GpbEncodeMeaning(v, 64);
    DecodeMeaning(u);
    GpbDecodeMeaning(u, 64);
  }
}
