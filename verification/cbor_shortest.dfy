/** The heads and floats the CBOR writer writes are the shortest there are
    (cbor.rs; RFC 8949, section 4.1). */
module CborShortest {
  import opened Bytes
  import opened Arith
  import opened Cbor
  import opened CborEncoding
  import opened CborReading
  import opened Floats
  import Wide

  /** No head that reads as the same argument is shorter. */
  lemma HeadIsShortest(input: Input, s: Decoding, info: nat, at: nat, major: nat)
    requires Within(input, s) && major < 8
    requires Argument(input, s, info, at).Ok? && Argument(input, s, info, at).value.0.Some?
    ensures var (argument, t) := Argument(input, s, info, at).value;
      |Head(major, argument.value)| <= 1 + (t.at - s.at)
  {
    hide Wide.Number, Wide.Pow256, Wide.Written;
    Pow256s();
    if 24 <= info <= 27 {
      Wide.NumberBound(input.bytes[s.at..s.at + Size(info)]);
    }
  }

  lemma Divisors(n: nat, a: nat, b: nat)
    requires b <= a && n % Pow2(a) == 0
    ensures n % Pow2(b) == 0
  {
    hide Pow2;
    Pow2Adds(a - b, b);
    var q := n / Pow2(a);
    Associate(q, Pow2(a - b), Pow2(b));
    Quotient(n, Pow2(b), q * Pow2(a - b));
  }

  /** A float that a half holds, a single holds. */
  lemma HalfIsSingle(e: nat, f: nat)
    requires f < Pow2(52) && Narrowed(e, f, 52, 42, 1008, 31).Some?
    ensures Narrowed(e, f, 52, 29, 896, 255).Some?
  {
    hide Pow2;
    if 1008 < e {
      Divisors(f, 42, 29);
    } else {
      Divisors(f + Pow2(52), 42 + 1 + 1008 - e, 29);
      Pow2Adds(23, 29);
      DropTerm(f, Pow2(23), Pow2(29));
    }
  }

  lemma DropTerm(f: nat, q: nat, k: nat)
    requires k > 0 && (f + q * k) % k == 0
    ensures f % k == 0
  {
    var p := (f + q * k) / k;
    assert f + q * k == p * k;
    assert p >= q by { if p < q { AtMost(p + 1, q, k); } }
    assert f == (p - q) * k;
    Quotient(f, k, p - q);
  }

  /** A half that is a float is one because a single is the float too. */
  lemma HalfHasSingle(bits: double, half: nat)
    requires half < F16 && Double(bits) != NaN && Half(half) == Double(bits)
    ensures ToSingle(bits).Some?
  {
    hide Narrowed, Pow2, Magnitude;
    Powers();
    DoubleParts(bits);
    HalfParts(half);
    var e, f := bits / 0x10_0000_0000_0000 % 0x800, bits % 0x10_0000_0000_0000;
    if (e, f) != (0, 0) && e != 2047 {
      EqualIsNarrowed(e, f, half / 0x400 % 0x20, half % 0x400, 52, 42, 1008, 31, 0);
      HalfIsSingle(e, f);
    }
  }

  /** No float of 2, 4 or 8 bytes that reads as the same number is shorter. */
  lemma FloatIsShortest(bits: double, size: nat, other: double)
    requires size == 2 || size == 4 || size == 8
    requires other < Wide.Pow256(size) && Double(bits) != NaN
    requires Sized(size, other) == Double(bits)
    ensures |FloatBytes(bits)| <= 1 + size
  {
    hide Double, Single, Half, ToSingle, ToHalf, Wide.Written;
    Pow256s();
    if size == 2 {
      HalfHasSingle(bits, other);
      ToSingleIsEqual(bits);
      EqualIsToHalf(ToSingle(bits).value, other);
    } else if size == 4 {
      EqualIsToSingle(bits, other);
      ToSingleIsEqual(bits);
    }
  }
}
