/** Decimal numerals, as the runtime prints and reads them. */
module Decimal {
  import opened Bytes

  /** The shortest numeral of `n`. */
  function Digits(n: nat): (s: bytes)
    ensures |s| >= 1 && AllDigits(s)
  {
    if n < 10 then [0x30 + n] else Digits(n / 10) + [0x30 + n % 10]
  }

  /** The number a run of digits writes; 0 for none. */
  function Value(s: bytes): nat
    requires AllDigits(s)
  {
    if s == [] then 0
    else
      var front := s[..|s| - 1];
      Value(front) * 10 + (s[|s| - 1] - 0x30)
  }

  function Zeros(n: nat): (s: bytes)
    ensures |s| == n && forall i :: 0 <= i < n ==> s[i] == 0x30
  {
    if n == 0 then [] else Zeros(n - 1) + [0x30]
  }

  /** `{n:0width}`: the numeral, with zeros before it up to `width`. */
  function Padded(n: nat, width: nat): bytes {
    var s := Digits(n);
    if |s| >= width then s else Zeros(width - |s|) + s
  }

  function Pow10(n: nat): nat { if n == 0 then 1 else 10 * Pow10(n - 1) }

  lemma {:induction false} DigitsValue(n: nat)
    ensures Value(Digits(n)) == n
  {
    if n >= 10 {
      DigitsValue(n / 10);
      assert Digits(n)[..|Digits(n)| - 1] == Digits(n / 10);
    }
  }

  lemma {:induction false} ZerosValue(k: nat, s: bytes)
    requires AllDigits(s)
    ensures Value(Zeros(k) + s) == Value(s)
  {
    var z := Zeros(k) + s;
    if s != [] {
      ZerosValue(k, s[..|s| - 1]);
      assert z[..|z| - 1] == Zeros(k) + s[..|s| - 1];
    } else {
      assert z == Zeros(k);
      if k > 0 {
        ZerosValue(k - 1, []);
        assert z[..|z| - 1] == Zeros(k - 1) + [];
      }
    }
  }

  lemma {:induction false} DigitsLength(n: nat, w: nat)
    requires w >= 1
    ensures |Digits(n)| <= w <==> n < Pow10(w)
  {
    if w == 1 {
      assert Pow10(1) == 10;
    } else if n >= 10 {
      DigitsLength(n / 10, w - 1);
    } else {
      DigitsLength(n, w - 1);
    }
  }

  /** A padded number that fits its width fills it exactly, and reads back. */
  lemma PaddedReads(n: nat, width: nat)
    requires width >= 1
    ensures AllDigits(Padded(n, width)) && Value(Padded(n, width)) == n
    ensures n < Pow10(width) ==> |Padded(n, width)| == width
    ensures n >= Pow10(width) ==> |Padded(n, width)| > width
  {
    hide Digits, Value, Pow10;
    DigitsValue(n);
    DigitsLength(n, width);
    if |Digits(n)| < width { ZerosValue(width - |Digits(n)|, Digits(n)); }
  }

  /** Only `n` itself, with zeros before it, reads as `n`. */
  lemma {:induction false} ValueUnique(s: bytes, t: bytes)
    requires AllDigits(s) && AllDigits(t) && |s| == |t| && Value(s) == Value(t)
    ensures s == t
  {
    if s != [] {
      var a, b := s[..|s| - 1], t[..|t| - 1];
      var x, y := s[|s| - 1] - 0x30, t[|t| - 1] - 0x30;
      assert Value(a) * 10 + x == Value(b) * 10 + y;
      assert Value(a) == Value(b);
      ValueUnique(a, b);
      assert s == a + [s[|s| - 1]] && t == b + [t[|t| - 1]];
    }
  }

  /** `trim_end_matches('0')`. */
  function TrimZeros(s: bytes): (r: bytes)
    ensures r <= s
  {
    if s != [] && s[|s| - 1] == 0x30 then TrimZeros(s[..|s| - 1]) else s
  }

  lemma {:induction false} TrimRestores(s: bytes)
    ensures var r := TrimZeros(s); r + Zeros(|s| - |r|) == s
  {
    if s != [] && s[|s| - 1] == 0x30 {
      var t := s[..|s| - 1];
      TrimRestores(t);
      var r := TrimZeros(t);
      assert Zeros(|s| - |r|) == Zeros(|t| - |r|) + [0x30];
      assert s == t + [0x30];
      assert r + (Zeros(|t| - |r|) + [0x30]) == (r + Zeros(|t| - |r|)) + [0x30];
    }
  }
}
