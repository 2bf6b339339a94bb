/** The text of an instant is short and ASCII (civil.rs). */
module InstantText {
  import opened Bytes
  import opened Civil
  import opened Decimal
  import opened Instants
  import Utf8

  predicate Ascii(s: bytes) { forall i :: 0 <= i < |s| ==> s[i] < 0x80 }

  lemma {:induction false} DigitsShort(n: nat)
    ensures |Digits(n)| <= n + 1
  {
    if n >= 10 { DigitsShort(n / 10); }
  }

  lemma PaddedShort(n: nat, width: nat)
    ensures |Padded(n, width)| <= n + 1 + width && Ascii(Padded(n, width))
  {
    hide Digits, Zeros;
    DigitsShort(n);
  }

  lemma YearBound(days: int)
    requires -5_000_000 <= days <= 5_000_000
    ensures -6_000_000 <= CivilFromDays(days).year <= 6_000_000
  {
  }

  lemma DaysBound(year: int, month: int, day: int)
    requires 0 <= year <= 9999 && 1 <= month <= 12 && 1 <= day <= 31
    ensures -4_900_000 <= DaysFromCivil(year, month, day) <= 4_900_000
  {
  }

  lemma NumberBound(text: bytes, from: nat, count: nat)
    ensures Number(text, from, count).Some? ==> Number(text, from, count).value < Pow10(count)
  {
    hide Pow10, Value;
    if Number(text, from, count).Some? { ValueBound(text[from..from + count]); }
  }

  lemma Numbers(text: bytes, from: nat)
    ensures Number(text, from, 2).Some? ==> Number(text, from, 2).value < 100
    ensures Number(text, from, 4).Some? ==> Number(text, from, 4).value < 10_000
  {
    NumberBound(text, from, 2);
    NumberBound(text, from, 4);
    assert Pow10(4) == 10_000 && Pow10(2) == 100;
  }

  lemma OffsetBound(text: bytes, at: nat)
    requires at <= |text| && OffsetAt(text, at).Some?
    ensures -400_000 <= OffsetAt(text, at).value <= 400_000
  {
    hide Number;
    Numbers(text, at + 1);
    Numbers(text, at + 4);
  }

  /** What a text names is within the years its digits can write. */
  lemma ParsedBound(text: bytes)
    requires Parsed(text).Some?
    ensures -432_000_000_000 <= Parsed(text).value.0 <= 432_000_000_000 && Parsed(text).value.1 < 1_000_000_000
  {
    hide DaysFromCivil, OffsetAt, Value, NanosOf, DigitsEnd;
    NanosBound(text);
    Numbers(text, 0);
    Numbers(text, 5);
    Numbers(text, 8);
    Numbers(text, 11);
    Numbers(text, 14);
    Numbers(text, 17);
    DaysBound(Number(text, 0, 4).value, Number(text, 5, 2).value, Number(text, 8, 2).value);
    if |text| != 10 { OffsetBound(text, NanosAt(text, 19).value.1); }
  }

  lemma FractionShort(nanos: nat)
    requires nanos < 1_000_000_000
    ensures |Fraction(nanos)| <= 1_000_000_100 && Ascii(Fraction(nanos))
  {
    hide Padded;
    PaddedShort(nanos, 9);
    var digits := TrimZeros(Padded(nanos, 9));
    assert forall i :: 0 <= i < |digits| ==> digits[i] == Padded(nanos, 9)[i];
  }

  lemma AsciiAdds(s: bytes, t: bytes)
    requires Ascii(s) && Ascii(t)
    ensures Ascii(s + t)
  {
  }

  lemma YearShort(year: int)
    requires -6_000_000 <= year <= 6_000_000
    ensures |YearText(year)| <= 6_000_010 && Ascii(YearText(year))
  {
    hide Padded;
    if year < 0 { PaddedShort(-year, 3); } else { PaddedShort(year, 4); }
  }

  lemma DateTimeShort(date: Date, rest: nat)
    requires Valid(date) && -6_000_000 <= date.year <= 6_000_000 && rest < 86_400
    ensures |DateTimeText(date, rest)| <= 7_000_000 && Ascii(DateTimeText(date, rest))
  {
    hide Padded, YearText, Valid;
    ValidBounds(date);
    YearShort(date.year);
    PaddedShort(date.month, 2);
    PaddedShort(date.day, 2);
    PaddedShort(rest / 3600, 2);
    PaddedShort(rest / 60 % 60, 2);
    PaddedShort(rest % 60, 2);
  }

  /** The text of an instant some text names is ASCII, and short enough that
      its length fits any head. */
  lemma FormatShort(text: bytes)
    requires Parsed(text).Some?
    ensures var (seconds, nanos) := Parsed(text).value;
      |Format(seconds, nanos)| < 0x1_0000_0000 && Utf8.Valid(Format(seconds, nanos))
  {
    hide Parsed, CivilFromDays, Valid, DateTimeText, Fraction;
    ParsedBound(text);
    var (seconds, nanos) := Parsed(text).value;
    DaysRoundTrip(seconds / 86_400);
    YearBound(seconds / 86_400);
    var head := DateTimeText(CivilFromDays(seconds / 86_400), seconds % 86_400);
    DateTimeShort(CivilFromDays(seconds / 86_400), seconds % 86_400);
    FractionShort(nanos);
    AsciiAdds(head, Fraction(nanos));
    AsciiAdds(head + Fraction(nanos), [0x5A]);
    Utf8.AsciiIsValid(Format(seconds, nanos));
  }
}
