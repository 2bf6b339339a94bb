/**
 Floats of 16, 32 and 64 bits, by the exact numbers their bits stand for
 (cbor.rs).
 */
module Floats {
  import opened Bytes
  import opened Arith

  /** What a float is: its magnitude is a whole number of 2^-1074, which the
      finite floats of all three sizes are. */
  datatype Number = NaN | Infinite(negative: bool) | Finite(negative: bool, magnitude: nat)

  function Pow2(n: nat): (r: nat)
    ensures r > 0
  {
    if n == 0 then 1 else 2 * Pow2(n - 1)
  }

  lemma {:induction false} Pow2Adds(a: nat, b: nat)
    ensures Pow2(a + b) == Pow2(a) * Pow2(b)
  {
    if a > 0 { Pow2Adds(a - 1, b); }
  }

  lemma {:induction false} Pow2Grows(a: nat, b: nat)
    requires a < b
    ensures 2 * Pow2(a) <= Pow2(b)
  {
    if a + 1 < b { Pow2Grows(a, b - 1); }
  }

  // ---------------------------------------------------------------------
  // What the bits stand for
  // ---------------------------------------------------------------------

  /** A float of `fraction` bits of fraction and the exponents below `top`,
      whose smallest number is 2^(`scale` - 1074). */
  function NumberOf(negative: bool, exponent: nat, fraction: nat, bits: nat, top: nat, scale: nat): Number {
    if exponent == top then (if fraction == 0 then Infinite(negative) else NaN)
    else Finite(negative, Magnitude(exponent, fraction, bits, scale))
  }

  function Magnitude(exponent: nat, fraction: nat, bits: nat, scale: nat): nat {
    if exponent == 0 then fraction * Pow2(scale)
    else (Pow2(bits) + fraction) * Pow2(exponent - 1 + scale)
  }

  const F16: nat := 0x1_0000
  const F32: nat := 0x1_0000_0000
  const F64: nat := 0x1_0000_0000_0000_0000

  /** The bits of a float of 64 bits. */
  type double = n: int | 0 <= n < F64

  /** `half`, whose sums and products of small numbers are exact. */
  function Half(bits: nat): Number
    requires bits < F16
  {
    NumberOf(bits / 0x8000 == 1, bits / 0x400 % 0x20, bits % 0x400, 10, 31, 1050)
  }

  function Single(bits: nat): Number
    requires bits < F32
  {
    NumberOf(bits / 0x8000_0000 == 1, bits / 0x80_0000 % 0x100, bits % 0x80_0000, 23, 255, 925)
  }

  function Double(bits: nat): Number
    requires bits < F64
  {
    NumberOf(bits / 0x8000_0000_0000_0000 == 1, bits / 0x10_0000_0000_0000 % 0x800, bits % 0x10_0000_0000_0000, 52,
        2047, 0)
  }

  // ---------------------------------------------------------------------
  // The shortest float
  // ---------------------------------------------------------------------

  /** The exponent and fraction, `drop` bits shorter, of the same number in a
      float whose exponents are `bias` less and below `top`: a normal number
      when the lost bits are zero, a subnormal one when the shifted significand
      loses nothing. */
  function Narrowed(exponent: nat, fraction: nat, bits: nat, drop: nat, bias: nat, top: nat): Option<(nat, nat)> {
    if bias < exponent < bias + top then
      if fraction % Pow2(drop) != 0 then None else Some((exponent - bias, fraction / Pow2(drop)))
    else if exponent <= bias < exponent + bits - drop then
      var significand := fraction + Pow2(bits);
      var shift := drop + 1 + bias - exponent;
      if significand % Pow2(shift) != 0 then None else Some((0, significand / Pow2(shift)))
    else None
  }

  /** `to_half`: the half that is exactly this float, when there is one. */
  function ToHalf(bits: nat): Option<nat>
    requires bits < F32 && Single(bits) != NaN
  {
    var sign := bits / 0x8000_0000 * 0x8000;
    var exponent := bits / 0x80_0000 % 0x100;
    var fraction := bits % 0x80_0000;
    if exponent == 0 && fraction == 0 then Some(sign)
    else if exponent == 255 then Some(sign + 0x7C00)
    else
      match Narrowed(exponent, fraction, 23, 13, 112, 31)
      case Some(half) => Some(sign + half.0 * 0x400 + half.1)
      case None => None
  }

  /** The single-precision bits of a float that one holds exactly: what the
      cast to one gives when the cast back gives the float again. */
  function ToSingle(bits: nat): Option<nat>
    requires bits < F64 && Double(bits) != NaN
  {
    var sign := bits / 0x8000_0000_0000_0000 * 0x8000_0000;
    var exponent := bits / 0x10_0000_0000_0000 % 0x800;
    var fraction := bits % 0x10_0000_0000_0000;
    if exponent == 0 && fraction == 0 then Some(sign)
    else if exponent == 2047 then Some(sign + 0x7F80_0000)
    else
      match Narrowed(exponent, fraction, 52, 29, 896, 255)
      case Some(single) => Some(sign + single.0 * 0x80_0000 + single.1)
      case None => None
  }

  // ---------------------------------------------------------------------
  // One size
  // ---------------------------------------------------------------------

  lemma Below(a: nat, b: nat, c: nat)
    requires a < b && c > 0
    ensures a * c < b * c
  {
  }

  lemma AtMost(a: nat, b: nat, c: nat)
    requires a <= b
    ensures a * c <= b * c
  {
  }

  lemma PowMonotone(a: nat, b: nat)
    requires a <= b
    ensures Pow2(a) <= Pow2(b)
  {
    if a < b { Pow2Grows(a, b); }
  }

  lemma PowOne()
    ensures Pow2(1) == 2
  {
  }

  /** Between which powers of two a magnitude is. */
  lemma MagnitudeRange(exponent: nat, fraction: nat, bits: nat, scale: nat)
    requires fraction < Pow2(bits)
    ensures exponent > 0 ==> Pow2(bits + exponent - 1 + scale) <= Magnitude(exponent, fraction, bits, scale)
    ensures Magnitude(exponent, fraction, bits, scale) < Pow2(bits + exponent + scale)
  {
    hide Pow2;
    if exponent > 0 {
      var unit := Pow2(exponent - 1 + scale);
      Pow2Adds(bits, exponent - 1 + scale);
      Pow2Adds(1, bits + (exponent - 1 + scale));
      PowOne();
      AtMost(Pow2(bits), Pow2(bits) + fraction, unit);
      Below(Pow2(bits) + fraction, 2 * Pow2(bits), unit);
      assert 2 * Pow2(bits) * unit == 2 * (Pow2(bits) * unit);
      assert 1 + (bits + (exponent - 1 + scale)) == bits + exponent + scale;
      assert bits + (exponent - 1 + scale) == bits + exponent - 1 + scale;
    } else {
      Pow2Adds(bits, scale);
      Below(fraction, Pow2(bits), Pow2(scale));
      assert bits + scale == bits + exponent + scale;
    }
  }

  /** A larger exponent, or the same and a larger fraction, is a larger
      number. */
  lemma MagnitudeGrows(e: nat, f: nat, e': nat, f': nat, bits: nat, scale: nat)
    requires f < Pow2(bits) && f' < Pow2(bits)
    requires e < e' || (e == e' && f < f')
    ensures Magnitude(e, f, bits, scale) < Magnitude(e', f', bits, scale)
  {
    hide Pow2;
    if e < e' {
      hide Magnitude;
      MagnitudeRange(e, f, bits, scale);
      MagnitudeRange(e', f', bits, scale);
      PowMonotone(bits + e + scale, bits + e' - 1 + scale);
    } else if e == 0 {
      Below(f, f', Pow2(scale));
    } else {
      Below(Pow2(bits) + f, Pow2(bits) + f', Pow2(e - 1 + scale));
    }
  }

  /** No two floats of a size are the same number, but for NaN. */
  lemma NumberDecides(n: bool, e: nat, f: nat, n': bool, e': nat, f': nat, bits: nat, top: nat, scale: nat)
    requires e <= top && e' <= top && f < Pow2(bits) && f' < Pow2(bits)
    requires NumberOf(n, e, f, bits, top, scale) == NumberOf(n', e', f', bits, top, scale) != NaN
    ensures n == n' && e == e' && f == f'
  {
    hide Magnitude, Pow2;
    if e < e' < top || (e == e' < top && f < f') { MagnitudeGrows(e, f, e', f', bits, scale); }
    if e' < e < top || (e == e' < top && f' < f) { MagnitudeGrows(e', f', e, f, bits, scale); }
  }

  // ---------------------------------------------------------------------
  // Two sizes
  // ---------------------------------------------------------------------

  /** A significand divided by a power of two, with the power in the scale. */
  lemma Rescaled(significand: nat, shift: nat, scale: nat)
    requires significand % Pow2(shift) == 0
    ensures significand / Pow2(shift) * Pow2(scale + shift) == significand * Pow2(scale)
  {
    hide Pow2;
    var q, p := significand / Pow2(shift), Pow2(scale);
    Pow2Adds(scale, shift);
    assert significand == q * Pow2(shift);
    assert q * (p * Pow2(shift)) == q * Pow2(shift) * p;
  }

  lemma Quotient(n: nat, k: nat, q: nat)
    requires k > 0 && n == q * k
    ensures n % k == 0 && n / k == q
  {
    Euclid(n, k, q, 0);
  }

  lemma QuotientBound(n: nat, shift: nat, bits: nat)
    requires n < Pow2(bits + shift)
    ensures n / Pow2(shift) < Pow2(bits)
  {
    hide Pow2;
    Pow2Adds(bits, shift);
    var q := n / Pow2(shift);
    if q >= Pow2(bits) { AtMost(Pow2(bits), q, Pow2(shift)); }
  }

  /** What narrowing gives is the same number of the other size. */
  lemma NarrowedIsEqual(e: nat, f: nat, bits: nat, drop: nat, bias: nat, top: nat, scale: nat)
    requires f < Pow2(bits) && drop < bits && bits - drop <= bias && 0 < top
    requires Narrowed(e, f, bits, drop, bias, top).Some?
    ensures var (e', f') := Narrowed(e, f, bits, drop, bias, top).value;
      e' < top && f' < Pow2(bits - drop)
      && Magnitude(e', f', bits - drop, scale + bias + drop) == Magnitude(e, f, bits, scale)
  {
    hide Pow2;
    if bias < e < bias + top {
      QuotientBound(f, drop, bits - drop);
      Pow2Adds(bits - drop, drop);
      Quotient(Pow2(bits), Pow2(drop), Pow2(bits - drop));
      var q := f / Pow2(drop);
      var unit := Pow2(e - 1 + scale);
      Pow2Adds(drop, e - 1 + scale);
      assert e - bias - 1 + (scale + bias + drop) == drop + (e - 1 + scale);
      assert f == q * Pow2(drop);
      SumTimes(Pow2(bits - drop), q, Pow2(drop), unit);
    } else {
      var significand := f + Pow2(bits);
      var shift := drop + 1 + bias - e;
      Pow2Adds(1, bits);
      PowOne();
      PowMonotone(1 + bits, bits - drop + shift);
      QuotientBound(significand, shift, bits - drop);
      Rescaled(significand, shift, e - 1 + scale);
      assert e - 1 + scale + shift == scale + bias + drop;
    }
  }

  lemma SumTimes(a: nat, b: nat, k: nat, unit: nat)
    ensures (a + b) * (k * unit) == (a * k + b * k) * unit
  {
    assert (a + b) * (k * unit) == (a + b) * k * unit;
  }

  /** Only an exponent and fraction that narrow are a number of the other
      size. */
  lemma EqualIsNarrowed(e: nat, f: nat, e': nat, f': nat, bits: nat, drop: nat, bias: nat, top: nat, scale: nat)
    requires f < Pow2(bits) && drop < bits && bits - drop <= bias
    requires (e, f) != (0, 0) && e' < top && f' < Pow2(bits - drop)
    requires Magnitude(e', f', bits - drop, scale + bias + drop) == Magnitude(e, f, bits, scale)
    ensures Narrowed(e, f, bits, drop, bias, top) == Some((e', f'))
  {
    hide Pow2, Magnitude, Narrowed;
    SameRange(e, f, e', f', bits, drop, bias, scale);
    if e' > 0 {
      NormalNarrows(e, f, e', f', bits, drop, bias, top, scale);
    } else {
      SubnormalNarrows(e, f, f', bits, drop, bias, top, scale);
    }
  }

  lemma MagnitudePositive(e: nat, f: nat, bits: nat, scale: nat)
    requires (e, f) != (0, 0)
    ensures Magnitude(e, f, bits, scale) >= Pow2(scale)
  {
    hide Pow2;
    if e == 0 {
      AtMost(1, f, Pow2(scale));
    } else {
      PowMonotone(scale, e - 1 + scale);
      AtMost(1, Pow2(bits) + f, Pow2(e - 1 + scale));
    }
  }

  lemma PowInjective(a: nat, b: nat)
    requires Pow2(a) < Pow2(b)
    ensures a < b
  {
    if b <= a { PowMonotone(b, a); }
  }

  /** Where the exponents of equal numbers are. */
  lemma SameRange(e: nat, f: nat, e': nat, f': nat, bits: nat, drop: nat, bias: nat, scale: nat)
    requires f < Pow2(bits) && drop < bits && bits - drop <= bias
    requires (e, f) != (0, 0) && f' < Pow2(bits - drop)
    requires Magnitude(e', f', bits - drop, scale + bias + drop) == Magnitude(e, f, bits, scale)
    ensures e > 0 && (e' > 0 ==> e == e' + bias)
    ensures e' == 0 ==> f' > 0 && e <= bias < e + bits - drop
  {
    hide Pow2;
    var m := Magnitude(e, f, bits, scale);
    MagnitudePositive(e, f, bits, scale);
    if e' > 0 || f' > 0 {
      hide Magnitude;
      MagnitudePositive(e', f', bits - drop, scale + bias + drop);
      MagnitudeRange(e, f, bits, scale);
      MagnitudeRange(e', f', bits - drop, scale + bias + drop);
      PowInjective(scale + bias + drop, bits + e + scale);
      if e' > 0 {
        PowInjective(bits - drop + e' - 1 + (scale + bias + drop), bits + e + scale);
      }
      if e > 0 {
        PowInjective(bits + e - 1 + scale, bits - drop + e' + (scale + bias + drop));
      }
    }
  }

  lemma NormalNarrows(e: nat, f: nat, e': nat, f': nat, bits: nat, drop: nat, bias: nat, top: nat, scale: nat)
    requires f < Pow2(bits) && drop < bits && 0 < e' < top && e == e' + bias && f' < Pow2(bits - drop)
    requires Magnitude(e', f', bits - drop, scale + bias + drop) == Magnitude(e, f, bits, scale)
    ensures Narrowed(e, f, bits, drop, bias, top) == Some((e', f'))
  {
    hide Pow2;
    var unit := Pow2(e - 1 + scale);
    Pow2Adds(drop, e - 1 + scale);
    assert e' - 1 + (scale + bias + drop) == drop + (e - 1 + scale);
    Pow2Adds(bits - drop, drop);
    SumTimes(Pow2(bits - drop), f', Pow2(drop), unit);
    Cancel(Pow2(bits) + f, Pow2(bits - drop) * Pow2(drop) + f' * Pow2(drop), unit);
    Quotient(f, Pow2(drop), f');
  }

  lemma SubnormalNarrows(e: nat, f: nat, f': nat, bits: nat, drop: nat, bias: nat, top: nat, scale: nat)
    requires f < Pow2(bits) && drop < bits && 0 < e <= bias < e + bits - drop
    requires Magnitude(0, f', bits - drop, scale + bias + drop) == Magnitude(e, f, bits, scale)
    ensures Narrowed(e, f, bits, drop, bias, top) == Some((0, f'))
  {
    hide Pow2, Narrowed;
    var shift := drop + 1 + bias - e;
    var unit := Pow2(e - 1 + scale);
    Pow2Adds(shift, e - 1 + scale);
    assert shift + (e - 1 + scale) == scale + bias + drop;
    Associate(f', Pow2(shift), unit);
    Cancel(Pow2(bits) + f, f' * Pow2(shift), unit);
    Shifted(e, f, f', bits, drop, bias, top);
  }

  lemma Associate(a: nat, b: nat, c: nat)
    ensures a * (b * c) == a * b * c
  {
  }

  lemma Shifted(e: nat, f: nat, f': nat, bits: nat, drop: nat, bias: nat, top: nat)
    requires drop < bits && e <= bias < e + bits - drop
    requires f + Pow2(bits) == f' * Pow2(drop + 1 + bias - e)
    ensures Narrowed(e, f, bits, drop, bias, top) == Some((0, f'))
  {
    hide Pow2;
    Quotient(f + Pow2(bits), Pow2(drop + 1 + bias - e), f');
  }

  lemma Cancel(a: nat, b: nat, unit: nat)
    requires unit > 0 && a * unit == b * unit
    ensures a == b
  {
    if a < b { Below(a, b, unit); }
    if b < a { Below(b, a, unit); }
  }

  // ---------------------------------------------------------------------
  // The three sizes
  // ---------------------------------------------------------------------

  lemma Powers()
    ensures Pow2(10) == 0x400 && Pow2(13) == 0x2000 && Pow2(23) == 0x80_0000
    ensures Pow2(29) == 0x2000_0000 && Pow2(52) == 0x10_0000_0000_0000
  {
    assert Pow2(10) == 0x400 && Pow2(20) == 0x400 * 0x400 by { Pow2Adds(10, 10); }
    Pow2Adds(10, 3);
    Pow2Adds(20, 3);
    Pow2Adds(20, 9);
    assert Pow2(9) == 0x200;
    Pow2Adds(23, 29);
  }

  /** No two 64-bit floats are the same number, but for NaN: one read back as
      its number is read back bit for bit. */
  lemma DoubleDecides(a: nat, b: nat)
    requires a < F64 && b < F64 && Double(a) == Double(b) != NaN
    ensures a == b
  {
    hide NumberOf, Pow2;
    Powers();
    DoubleParts(a);
    DoubleParts(b);
    NumberDecides(a / 0x8000_0000_0000_0000 == 1, a / 0x10_0000_0000_0000 % 0x800, a % 0x10_0000_0000_0000,
      b / 0x8000_0000_0000_0000 == 1, b / 0x10_0000_0000_0000 % 0x800, b % 0x10_0000_0000_0000, 52, 2047, 0);
  }

  lemma DoubleParts(b: nat)
    requires b < F64
    ensures b / 0x8000_0000_0000_0000 < 2
    ensures b == b / 0x8000_0000_0000_0000 * 0x8000_0000_0000_0000
      + b / 0x10_0000_0000_0000 % 0x800 * 0x10_0000_0000_0000 + b % 0x10_0000_0000_0000
  {
  }

  lemma SingleParts(b: nat)
    requires b < F32
    ensures b / 0x8000_0000 < 2
    ensures b == b / 0x8000_0000 * 0x8000_0000 + b / 0x80_0000 % 0x100 * 0x80_0000 + b % 0x80_0000
  {
  }

  lemma HalfParts(b: nat)
    requires b < F16
    ensures b / 0x8000 < 2
    ensures b == b / 0x8000 * 0x8000 + b / 0x400 % 0x20 * 0x400 + b % 0x400
  {
  }

  lemma Nothing(bits: nat, scale: nat)
    ensures Magnitude(0, 0, bits, scale) == 0
  {
  }

  lemma HalfOf(s: nat, e: nat, f: nat)
    requires s < 2 && e < 0x20 && f < 0x400
    ensures var b := s * 0x8000 + e * 0x400 + f;
      b < F16 && Half(b) == NumberOf(s == 1, e, f, 10, 31, 1050)
  {
    hide NumberOf;
    var b := s * 0x8000 + e * 0x400 + f;
    assert b / 0x8000 == s && b / 0x400 % 0x20 == e && b % 0x400 == f;
  }

  lemma SingleOf(s: nat, e: nat, f: nat)
    requires s < 2 && e < 0x100 && f < 0x80_0000
    ensures var b := s * 0x8000_0000 + e * 0x80_0000 + f;
      b < F32 && Single(b) == NumberOf(s == 1, e, f, 23, 255, 925)
  {
    hide NumberOf;
    var b := s * 0x8000_0000 + e * 0x80_0000 + f;
    assert b / 0x8000_0000 == s && b / 0x80_0000 % 0x100 == e && b % 0x80_0000 == f;
  }

  /** `to_half` answers with the half that is the float. */
  lemma ToHalfIsEqual(bits: nat)
    requires bits < F32 && Single(bits) != NaN && ToHalf(bits).Some?
    ensures ToHalf(bits).value < F16 && Half(ToHalf(bits).value) == Single(bits)
  {
    hide Narrowed, Pow2, Magnitude;
    Powers();
    SingleParts(bits);
    var s, e, f := bits / 0x8000_0000, bits / 0x80_0000 % 0x100, bits % 0x80_0000;
    if e == 0 && f == 0 {
      HalfOf(s, 0, 0);
      assert Magnitude(0, 0, 10, 1050) == 0 ==
          Magnitude(0, 0, 23, 925) by { Nothing(10, 1050); Nothing(23, 925); Nothing(52, 0); }
    } else if e == 255 {
      HalfOf(s, 31, 0);
    } else {
      NarrowedIsEqual(e, f, 23, 13, 112, 31, 925);
      var half := Narrowed(e, f, 23, 13, 112, 31).value;
      HalfOf(s, half.0, half.1);
    }
  }

  /** And answers whenever there is one. */
  lemma EqualIsToHalf(bits: nat, half: nat)
    requires bits < F32 && Single(bits) != NaN && half < F16 && Half(half) == Single(bits)
    ensures ToHalf(bits) == Some(half)
  {
    hide Narrowed, Pow2, Magnitude;
    Powers();
    SingleParts(bits);
    HalfParts(half);
    var e, f := bits / 0x80_0000 % 0x100, bits % 0x80_0000;
    var e', f' := half / 0x400 % 0x20, half % 0x400;
    if e == 0 && f == 0 {
      assert Magnitude(0, 0, 23, 925) == 0 by { Nothing(10, 1050); Nothing(23, 925); Nothing(52, 0); }
      if (e', f') != (0, 0) { MagnitudePositive(e', f', 10, 1050); }
    } else if e != 255 {
      EqualIsNarrowed(e, f, e', f', 23, 13, 112, 31, 925);
    }
  }

  /** The cast to 32 bits loses nothing exactly when one of those is the
      float. */
  lemma ToSingleIsEqual(bits: nat)
    requires bits < F64 && Double(bits) != NaN && ToSingle(bits).Some?
    ensures ToSingle(bits).value < F32 && Single(ToSingle(bits).value) == Double(bits)
  {
    hide Narrowed, Pow2, Magnitude;
    Powers();
    DoubleParts(bits);
    var s, e, f := bits / 0x8000_0000_0000_0000, bits / 0x10_0000_0000_0000 % 0x800, bits % 0x10_0000_0000_0000;
    if e == 0 && f == 0 {
      SingleOf(s, 0, 0);
      assert Magnitude(0, 0, 23, 925) == 0 ==
          Magnitude(0, 0, 52, 0) by { Nothing(10, 1050); Nothing(23, 925); Nothing(52, 0); }
    } else if e == 2047 {
      SingleOf(s, 255, 0);
    } else {
      NarrowedIsEqual(e, f, 52, 29, 896, 255, 0);
      var single := Narrowed(e, f, 52, 29, 896, 255).value;
      SingleOf(s, single.0, single.1);
    }
  }

  lemma EqualIsToSingle(bits: nat, single: nat)
    requires bits < F64 && Double(bits) != NaN && single < F32 && Single(single) == Double(bits)
    ensures ToSingle(bits) == Some(single)
  {
    hide Narrowed, Pow2, Magnitude;
    Powers();
    DoubleParts(bits);
    SingleParts(single);
    var e, f := bits / 0x10_0000_0000_0000 % 0x800, bits % 0x10_0000_0000_0000;
    var e', f' := single / 0x80_0000 % 0x100, single % 0x80_0000;
    if e == 0 && f == 0 {
      assert Magnitude(0, 0, 52, 0) == 0 by { Nothing(10, 1050); Nothing(23, 925); Nothing(52, 0); }
      if (e', f') != (0, 0) { MagnitudePositive(e', f', 23, 925); }
    } else if e != 2047 {
      EqualIsNarrowed(e, f, e', f', 52, 29, 896, 255, 0);
    }
  }
}
