/**
 The fixed-width signal codec of the UDP record: saturating, rounding encoders into two's
 complement or unsigned bit fields, and their decoders. Doubles are exact reals here; the
 64-bit integers of the encoders and decoders are not idealised.
 */
module SignalCodec {
  import opened Powers

  /** 2^63 */
  const TWO63: int := 0x8000_0000_0000_0000

  predicate InInt64(n: int) { -TWO63 <= n < TWO63 }

  /** `1LL << bit`: shifting into the sign bit gives the most negative value. */
  function ShiftedOne(bit: nat): int
    requires bit <= 63
  {
    if bit == 63 then -TWO63 else Pow2(bit)
  }

  /** Rounds half away from zero. */
  function RoundHalfAway(v: real): int {
    if v >= 0.0 then (v + 0.5).Floor else -(-v + 0.5).Floor
  }

  function Clamp(v: real, lo: real, hi: real): real
    requires lo <= hi
  {
    if v < lo then lo else if v > hi then hi else v
  }

  /** A 64-bit result that is out of range is undefined. */
  datatype Encoded = Code(bits: int) | Undefined
  /** The decoders reject a width outside 1..63 by an exception. */
  datatype Decoded = Value(n: int) | InvalidWidth | Overflow

  function SignedMin(bit: int): int
    requires 1 <= bit
  {
    -Pow2(bit - 1)
  }

  function SignedMax(bit: int): int
    requires 1 <= bit
  {
    Pow2(bit - 1) - 1
  }

  function ClampSigned(v: real, bit: int): real
    requires 1 <= bit
  {
    Clamp(v, SignedMin(bit) as real, SignedMax(bit) as real)
  }

  /** The rounded value: a negative value is first moved up by `1LL << bit`. */
  function RoundedSigned(c: real, bit: int): int
    requires 1 <= bit <= 63
  {
    RoundHalfAway(if c < 0.0 then ShiftedOne(bit) as real + c else c)
  }

  /** The low `bit` bits of a 64-bit integer, if it is one. */
  function Masked(n: int, bit: int): Encoded
    requires 1 <= bit <= 63
  {
    if InInt64(n) then Code(n % Pow2(bit)) else Undefined
  }

  function EncodeSigned(v: real, bit: int): Encoded
    requires 1 <= bit <= 63
  {
    Masked(RoundedSigned(ClampSigned(v, bit), bit), bit)
  }

  function DecodeSigned(value: int, bit: int): Decoded
    requires 0 <= value
  {
    if bit <= 0 || bit > 63 then InvalidWidth
    else
      var v := value % Pow2(bit);
      if (v / Pow2(bit - 1)) % 2 == 1 then
        if InInt64(v - ShiftedOne(bit)) then Value(v - ShiftedOne(bit)) else Overflow
      else Value(v)
  }

  function ClampUnsigned(v: real, bit: int): real
    requires 1 <= bit
  {
    Clamp(v, 0.0, (Pow2(bit) - 1) as real)
  }

  function EncodeUnsigned(v: real, bit: int): Encoded
    requires 1 <= bit <= 63
  {
    Masked(RoundHalfAway(ClampUnsigned(v, bit)), bit)
  }

  function DecodeUnsigned(value: int, bit: int): Decoded
    requires 0 <= value
  {
    if bit <= 0 || bit > 63 then InvalidWidth else Value(value % Pow2(bit))
  }

  // ---------- laws ----------

  /** The nearest integer, ties going up. */
  function Nearest(v: real): int { (v + 0.5).Floor }

  lemma Pow2At63()
    ensures Pow2(63) == TWO63
  {
    assert Pow2(7) == 128;
    Pow2Add(7, 7);
    Pow2Add(14, 7);
    Pow2Add(21, 21);
    Pow2Add(42, 21);
  }

  /** How the widths compare with 64-bit integers. */
  lemma {:induction false} Pow2AtMost63(bit: nat)
    requires bit <= 63
    ensures Pow2(bit) <= TWO63
    ensures bit < 63 ==> 2 * Pow2(bit) <= TWO63
    ensures bit == 63 ==> Pow2(bit) == TWO63
  {
    Pow2At63();
    Pow2Monotone(bit, 63);
    if bit < 63 {
      Pow2Monotone(bit + 1, 63);
    }
  }

  lemma FloorShift(v: real, k: int)
    ensures (v + k as real).Floor == v.Floor + k
  {
  }

  lemma ModShift(n: int, p: int)
    requires p >= 1
    ensures (n + p) % p == n % p
  {
    var q, r := n / p, n % p;
    assert n == q * p + r;
    assert (q + 1) * p == q * p + p;
    ModUnique(n + p, p, q + 1, r);
  }

  /** Values below half the range keep their sign under the mask. */
  lemma ModOfSigned(n: int, p: int)
    requires p >= 1 && -p <= n < p
    ensures n % p == if n < 0 then n + p else n
  {
    if n < 0 {
      ModUnique(n, p, -1, n + p);
    } else {
      ModUnique(n, p, 0, n);
    }
  }

  lemma ClampSignedBounds(v: real, bit: int)
    requires 1 <= bit <= 63
    ensures SignedMin(bit) as real <= ClampSigned(v, bit) <= SignedMax(bit) as real
    ensures SignedMin(bit) <= Nearest(ClampSigned(v, bit)) <= SignedMax(bit)
    ensures Pow2(bit) == 2 * Pow2(bit - 1)
  {
  }

  /** Below width 63 a negative value is rounded after it was moved up by 2^bit, which changes nothing modulo 2^bit. */
  lemma NegativeBelow63(c: real, p: int)
    requires -p as real <= c < 0.0 && 1 <= p
    ensures RoundHalfAway(p as real + c) == Nearest(c) + p
  {
    FloorShift(c + 0.5, p);
  }

  /** At width 63 the added constant is negative, and the sum rounds below the least 64-bit integer from -1/2 on. */
  lemma NegativeAt63(c: real, p: int)
    requires c < 0.0 && 1 <= p
    ensures RoundHalfAway(-p as real + c) == -(-c + 0.5).Floor - p
    ensures -(-c + 0.5).Floor >= 0 <==> c > -0.5
  {
    FloorShift(-c + 0.5, p);
  }

  lemma NearestOfNonnegative(c: real, p: int)
    requires 0.0 <= c <= (p - 1) as real
    ensures RoundHalfAway(c) == Nearest(c) && 0 <= Nearest(c) < p
  {
  }

  lemma NearestOfNegative(c: real, p: int)
    requires -p as real <= c < 0.0
    ensures -p <= Nearest(c) <= 0
  {
  }

  lemma SignedRange(bit: int)
    requires 1 <= bit <= 63
    ensures Pow2(bit) == 2 * Pow2(bit - 1) && -Pow2(bit) <= SignedMin(bit) < 0 <= SignedMax(bit) < Pow2(bit)
  {
  }

  /** A value that is not negative is rounded and fits. */
  lemma {:induction false} MaskedNonnegative(c: real, bit: int)
    requires 1 <= bit <= 63 && 0.0 <= c <= SignedMax(bit) as real
    ensures Masked(RoundedSigned(c, bit), bit) == Code(Nearest(c) % Pow2(bit))
  {
    SignedRange(bit);
    Pow2AtMost63(bit);
    NearestOfNonnegative(c, Pow2(bit - 1));
  }

  /** Below width 63 a negative value gives the code of its nearest integer. */
  lemma {:induction false} MaskedNegative(c: real, bit: int)
    requires 1 <= bit < 63 && SignedMin(bit) as real <= c < 0.0
    ensures Masked(RoundedSigned(c, bit), bit) == Code(Nearest(c) % Pow2(bit))
  {
    var p := Pow2(bit);
    SignedRange(bit);
    Pow2AtMost63(bit);
    NearestOfNegative(c, p / 2);
    NegativeBelow63(c, p);
    ModShift(Nearest(c), p);
  }

  /** At width 63 a negative value fits only above -1/2. */
  lemma MaskedWidest(c: real)
    requires c < 0.0
    ensures Masked(RoundedSigned(c, 63), 63) == if c > -0.5 then Code(Nearest(c) % Pow2(63)) else Undefined
  {
    Pow2At63();
    NegativeAt63(c, TWO63);
    MaskOfLeast(c);
  }

  lemma {:induction false} MaskedNearest(c: real, bit: int)
    requires 1 <= bit <= 63 && SignedMin(bit) as real <= c <= SignedMax(bit) as real
    ensures Masked(RoundedSigned(c, bit), bit) ==
            if bit < 63 || c > -0.5 then Code(Nearest(c) % Pow2(bit)) else Undefined
  {
    if c >= 0.0 {
      MaskedNonnegative(c, bit);
    } else if bit < 63 {
      MaskedNegative(c, bit);
    } else {
      MaskedWidest(c);
    }
  }

  lemma ClampKeepsSide(v: real, bit: int)
    requires 1 <= bit <= 63
    ensures ClampSigned(v, bit) > -0.5 <==> v > -0.5
  {
    SignedRange(bit);
  }

  /** The signed encoder is defined for every value and width, except values at most -1/2 at width 63. */
  lemma {:induction false} EncodeSignedDefined(v: real, bit: int)
    requires 1 <= bit <= 63
    ensures EncodeSigned(v, bit).Code? <==> bit < 63 || v > -0.5
    ensures EncodeSigned(v, bit).Code? ==> EncodeSigned(v, bit).bits == Nearest(ClampSigned(v, bit)) % Pow2(bit)
  {
    ClampSignedBounds(v, bit);
    ClampKeepsSide(v, bit);
    MaskedNearest(ClampSigned(v, bit), bit);
  }

  lemma MaskOfLeast(c: real)
    requires c < 0.0
    ensures (-TWO63) % TWO63 == 0
    ensures c > -0.5 ==> Nearest(c) % TWO63 == 0
  {
  }

  lemma {:induction false} DecodeOfSigned(n: int, bit: int)
    requires 1 <= bit <= 63 && SignedMin(bit) <= n <= SignedMax(bit) && (bit < 63 || n >= 0)
    ensures 0 <= n % Pow2(bit) < Pow2(bit) && DecodeSigned(n % Pow2(bit), bit) == Value(n)
  {
    var p, half := Pow2(bit), Pow2(bit - 1);
    ModOfSigned(n, p);
    var v := n % p;
    ModUnique(v, p, 0, v);
    Pow2AtMost63(bit);
    if n < 0 {
      ModUnique(v, half, 1, v - half);
    } else {
      ModUnique(v, half, 0, v);
    }
  }

  lemma NearestIsSigned(v: real, bit: int)
    requires 1 <= bit <= 63
    ensures SignedMin(bit) <= Nearest(ClampSigned(v, bit)) <= SignedMax(bit)
    ensures v > -0.5 ==> Nearest(ClampSigned(v, bit)) >= 0
  {
    ClampSignedBounds(v, bit);
  }

  /** Decoding an encoded value gives the nearest integer of the clamped value, wherever the encoder is defined. */
  lemma {:induction false} SignedRoundTrip(v: real, bit: int)
    requires 1 <= bit <= 63
    ensures EncodeSigned(v, bit).Code? <==> bit < 63 || v > -0.5
    ensures EncodeSigned(v, bit).Code? ==>
              && 0 <= EncodeSigned(v, bit).bits < Pow2(bit)
              && DecodeSigned(EncodeSigned(v, bit).bits, bit) == Value(Nearest(ClampSigned(v, bit)))
  {
    EncodeSignedDefined(v, bit);
    if bit < 63 || v > -0.5 {
      NearestIsSigned(v, bit);
      DecodeOfSigned(Nearest(ClampSigned(v, bit)), bit);
    }
  }

  /** A value in range comes back within half a unit, ties going up. */
  lemma SignedError(v: real, bit: int)
    requires 1 <= bit <= 63 && SignedMin(bit) as real <= v <= SignedMax(bit) as real
    requires EncodeSigned(v, bit).Code?
    ensures DecodeSigned(EncodeSigned(v, bit).bits, bit).Value?
    ensures -0.5 < DecodeSigned(EncodeSigned(v, bit).bits, bit).n as real - v <= 0.5
  {
    SignedRoundTrip(v, bit);
  }

  /** Encoding keeps the order of the values, and saturates outside the range. */
  lemma SignedMonotone(v: real, w: real, bit: int)
    requires 1 <= bit <= 63 && v <= w
    requires EncodeSigned(v, bit).Code? && EncodeSigned(w, bit).Code?
    ensures DecodeSigned(EncodeSigned(v, bit).bits, bit).Value? && DecodeSigned(EncodeSigned(w, bit).bits, bit).Value?
    ensures DecodeSigned(EncodeSigned(v, bit).bits, bit).n <= DecodeSigned(EncodeSigned(w, bit).bits, bit).n
  {
    SignedRoundTrip(v, bit);
    SignedRoundTrip(w, bit);
  }

  lemma NearestOfInt(n: int)
    ensures Nearest(n as real) == n
  {
  }

  /** What the signed decoder makes of a code word: at width 63 a set sign bit makes the subtraction overflow. */
  lemma DecodeOfCode(code: int, bit: int)
    requires 1 <= bit <= 63 && 0 <= code < Pow2(bit)
    ensures DecodeSigned(code, bit) ==
            if code < Pow2(bit - 1) then Value(code)
            else if bit < 63 then Value(code - Pow2(bit)) else Overflow
  {
    var half := Pow2(bit - 1);
    Pow2AtMost63(bit);
    ModUnique(code, Pow2(bit), 0, code);
    if code < half {
      ModUnique(code, half, 0, code);
    } else {
      ModUnique(code, half, 1, code - half);
    }
  }

  /** Integers of the signed range are encoded as themselves modulo 2^bit. */
  lemma {:induction false} EncodeOfInt(n: int, bit: int)
    requires 1 <= bit <= 63 && SignedMin(bit) <= n <= SignedMax(bit) && (bit < 63 || n >= 0)
    ensures EncodeSigned(n as real, bit) == Code(if n < 0 then n + Pow2(bit) else n)
  {
    SignedRange(bit);
    NearestOfInt(n);
    EncodeSignedDefined(n as real, bit);
    ModOfSigned(n, Pow2(bit));
  }

  lemma EncodeOfDecoded(code: int, bit: int)
    requires 1 <= bit <= 63 && 0 <= code < Pow2(bit) && (bit < 63 || code < Pow2(bit - 1))
    ensures var n := if code < Pow2(bit - 1) then code else code - Pow2(bit);
            && SignedMin(bit) <= n <= SignedMax(bit)
            && EncodeSigned(n as real, bit) == Code(code)
  {
    SignedRange(bit);
    EncodeOfInt(if code < Pow2(bit - 1) then code else code - Pow2(bit), bit);
  }

  /**
   In the other direction: every code word that decodes is the encoding of the integer that it
   decodes to. All code words decode at widths up to 62; at width 63 those below 2^62 do, and the
   subtraction of the decoder overflows on the others.
   */
  lemma SignedCodeRoundTrip(code: int, bit: int)
    requires 1 <= bit <= 63 && 0 <= code < Pow2(bit)
    ensures DecodeSigned(code, bit).Value? <==> bit < 63 || code < Pow2(bit - 1)
    ensures DecodeSigned(code, bit) == Overflow <==> bit == 63 && code >= Pow2(bit - 1)
    ensures DecodeSigned(code, bit).Value? ==>
              && SignedMin(bit) <= DecodeSigned(code, bit).n <= SignedMax(bit)
              && EncodeSigned(DecodeSigned(code, bit).n as real, bit) == Code(code)
  {
    DecodeOfCode(code, bit);
    if bit < 63 || code < Pow2(bit - 1) {
      EncodeOfDecoded(code, bit);
    }
  }

  /** At width 63 the encoder leaves the 64-bit integers on -1, and the decoder on the code that should stand for -1. */
  lemma WidestFails()
    ensures EncodeSigned(-1.0, 63) == Undefined
    ensures DecodeSigned(TWO63 - 1, 63) == Overflow
  {
    EncodeSignedDefined(-1.0, 63);
    Pow2At63();
    DecodeOfCode(TWO63 - 1, 63);
  }

  /** The unsigned encoder is defined at every width, and decoding gives the nearest integer of the clamped value. */
  lemma {:induction false} UnsignedRoundTrip(v: real, bit: int)
    requires 1 <= bit <= 63
    ensures EncodeUnsigned(v, bit).Code? && 0 <= EncodeUnsigned(v, bit).bits < Pow2(bit)
    ensures DecodeUnsigned(EncodeUnsigned(v, bit).bits, bit) == Value(Nearest(ClampUnsigned(v, bit)))
  {
    var n, p := Nearest(ClampUnsigned(v, bit)), Pow2(bit);
    Pow2AtMost63(bit);
    assert RoundHalfAway(ClampUnsigned(v, bit)) == n && 0 <= n < p;
    ModUnique(n, p, 0, n);
  }

  lemma {:induction false} UnsignedError(v: real, bit: int)
    requires 1 <= bit <= 63 && 0.0 <= v <= (Pow2(bit) - 1) as real
    ensures EncodeUnsigned(v, bit).Code? && DecodeUnsigned(EncodeUnsigned(v, bit).bits, bit).Value?
    ensures -0.5 < DecodeUnsigned(EncodeUnsigned(v, bit).bits, bit).n as real - v <= 0.5
  {
    UnsignedRoundTrip(v, bit);
  }

  lemma UnsignedMonotone(v: real, w: real, bit: int)
    requires 1 <= bit <= 63 && v <= w
    ensures EncodeUnsigned(v, bit).Code? && EncodeUnsigned(w, bit).Code?
    ensures EncodeUnsigned(v, bit).bits <= EncodeUnsigned(w, bit).bits
  {
    UnsignedRoundTrip(v, bit);
    UnsignedRoundTrip(w, bit);
    ModUnique(EncodeUnsigned(v, bit).bits, Pow2(bit), 0, EncodeUnsigned(v, bit).bits);
    ModUnique(EncodeUnsigned(w, bit).bits, Pow2(bit), 0, EncodeUnsigned(w, bit).bits);
  }

  // ---------- signals of the record ----------

  /** A 12-bit code is stored in two 6-bit fields. */
  datatype Halves = Halves(low: int, high: int)

  function Split(code: int): Halves {
    Halves(code % 64, (code / 64) % 64)
  }

  /** The camera range in steps of 0.1, as stored. */
  function StoredRange(range: real): Halves {
    match EncodeUnsigned(range / 0.1, 12)
    case Code(bits) => Split(bits)
    case Undefined => Halves(0, 0)
  }

  /** The two halves of a range reassemble to its code: within 0.05 of the range, up to saturation at 409.5. */
  lemma RangeReassembles(range: real)
    ensures var h := StoredRange(range);
            && 0 <= h.low < 64 && 0 <= h.high < 64
            && Code(h.low + 64 * h.high) == EncodeUnsigned(range / 0.1, 12)
            && (0.0 <= range <= 409.5 ==> -0.05 <= (h.low + 64 * h.high) as real * 0.1 - range <= 0.05)
  {
    CodeOfTwelveBits(range / 0.1);
    var code := EncodeUnsigned(range / 0.1, 12).bits;
    assert code == 64 * (code / 64) + code % 64;
    assert range / 0.1 == range * 10.0;
  }

  /** The unsigned code in 12 bits, and its error below saturation. */
  lemma CodeOfTwelveBits(v: real)
    ensures EncodeUnsigned(v, 12).Code? && 0 <= EncodeUnsigned(v, 12).bits < 4096
    ensures 0.0 <= v <= 4095.0 ==> -0.5 <= EncodeUnsigned(v, 12).bits as real - v <= 0.5
  {
    assert Pow2(12) == 4096 by {
      assert Pow2(6) == 64;
    }
    UnsignedRoundTrip(v, 12);
    var code := EncodeUnsigned(v, 12).bits;
    ModUnique(code, 4096, 0, code);
    if 0.0 <= v <= 4095.0 {
      UnsignedError(v, 12);
    }
  }

  /** An angle rate clamped to [-100, 100] and stored in 12 bits in steps of 0.05 comes back within 0.025. */
  lemma AngleRateError(rate: real)
    ensures var kept := Clamp(rate, -100.0, 100.0);
            var e := EncodeUnsigned((kept + 100.0) / 0.05, 12);
            && e.Code?
            && -0.025 <= e.bits as real * 0.05 - 100.0 - kept <= 0.025
  {
    var kept := Clamp(rate, -100.0, 100.0);
    var scaled := (kept + 100.0) / 0.05;
    assert scaled == (kept + 100.0) * 20.0;
    CodeOfTwelveBits(scaled);
  }
}
