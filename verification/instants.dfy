/**
 The RFC 3339 text of an instant, given as seconds and nanoseconds since the
 Unix epoch, and the instant of a text (civil.rs).
 */
module Instants {
  import opened Bytes
  import opened Civil
  import opened Decimal

  const DASH: byte := 0x2D
  const COLON: byte := 0x3A
  const DOT: byte := 0x2E
  const PLUS: byte := 0x2B

  /** `{year:04}`, which counts the sign of a negative year in the width. */
  function YearText(year: int): bytes {
    if year < 0 then [DASH] + Padded(-year, 3) else Padded(year, 4)
  }

  function Fraction(nanos: nat): bytes {
    if nanos > 0 then [DOT] + TrimZeros(Padded(nanos, 9)) else []
  }

  function DateTimeText(date: Date, rest: nat): bytes
    requires Valid(date)
  {
    YearText(date.year) + [DASH] + Padded(date.month, 2) + [DASH] + Padded(date.day, 2) + [0x54]
    + Padded(rest / 3600, 2) + [COLON] + Padded(rest / 60 % 60, 2) + [COLON] + Padded(rest % 60, 2)
  }

  function Format(seconds: int, nanos: nat): bytes {
    DaysRoundTrip(seconds / 86_400);
    DateTimeText(CivilFromDays(seconds / 86_400), seconds % 86_400) + Fraction(nanos) + [0x5A]
  }

  /** `count` digits from `from` on, as a number. */
  function Number(text: bytes, from: nat, count: nat): Option<nat> {
    if from + count <= |text| && AllDigits(text[from..from + count])
    then Some(Value(text[from..from + count]))
    else None
  }

  /** Where the digits from `at` on end. */
  function DigitsEnd(text: bytes, at: nat): (end: nat)
    requires at <= |text|
    ensures at <= end <= |text| && forall k :: at <= k < end ==> IsDigit(text[k])
    ensures end == |text| || !IsDigit(text[end])
    decreases |text| - at
  {
    if at < |text| && IsDigit(text[at]) then DigitsEnd(text, at + 1) else at
  }

  predicate At(text: bytes, at: nat, b: byte) { at < |text| && text[at] == b }

  /** The offset a text ends with, none for one that is UTC; `None` when what
      is left is neither. */
  function OffsetAt(text: bytes, at: nat): Option<int>
    requires at <= |text|
  {
    if at + 1 >= |text| && (at == |text| || text[at] == 0x5A || text[at] == 0x7A) then Some(0)
    else if at < |text| && (text[at] == PLUS || text[at] == DASH) && |text| == at + 6 && text[at + 3] == COLON then
      match (Number(text, at + 1, 2), Number(text, at + 4, 2))
      case (Some(hours), Some(minutes)) =>
        var offset: int := hours * 3600 + minutes * 60;
        Some(if text[at] == PLUS then offset else -offset)
      case _ => None
    else None
  }

  /** Up to nine digits of a fraction, as nanoseconds: `{digits:0<9}`. */
  function NanosOf(digits: bytes): nat
    requires AllDigits(digits) && |digits| <= 9
  {
    assert AllDigits(digits + Zeros(9 - |digits|));
    Value(digits + Zeros(9 - |digits|))
  }

  /** The fraction of a second at `at`: its nanoseconds and where it ends. */
  function NanosAt(text: bytes, at: nat): Option<(nat, nat)>
    requires at <= |text|
  {
    if At(text, at, DOT) then
      var end := DigitsEnd(text, at + 1);
      var digits := text[at + 1..end];
      if |digits| == 0 || |digits| > 9 then None
      else Some((NanosOf(digits), end))
    else Some((0, at))
  }

  /** The instant a text names: its date, the time after it, the fraction and
      the offset. */
  function Parsed(text: bytes): Option<(int, nat)> {
    match (Number(text, 0, 4), Number(text, 5, 2), Number(text, 8, 2))
    case (Some(year), Some(month), Some(day)) =>
      if !At(text, 4, DASH) || !At(text, 7, DASH) || !(1 <= month <= 12) || !(1 <= day <= 31) then None
      else
        var date := DaysFromCivil(year, month, day) * 86_400;
        if |text| == 10 then Some((date, 0))
        else if !(At(text, 10, 0x54) || At(text, 10, 0x74) || At(text, 10, 0x20)) || !At(text, 13, COLON)
            || !At(text, 16, COLON) then None
        else
          (match (Number(text, 11, 2), Number(text, 14, 2), Number(text, 17, 2))
           case (Some(hour), Some(minute), Some(second)) =>
             var seconds := date + hour * 3600 + minute * 60 + second;
             (match NanosAt(text, 19)
              case Some((nanos, at)) =>
                (match OffsetAt(text, at)
                 case Some(offset) => Some((seconds - offset, nanos))
                 case None => None)
              case None => None)
           case _ => None)
    case _ => None
  }

  /** The digits of a fraction, advanced over one at a time. */
  method SkipDigits(text: bytes, start: nat) returns (at: nat)
    requires start <= |text|
    ensures at == DigitsEnd(text, start)
  {
    at := start;
    while at < |text| && IsDigit(text[at])
      invariant start <= at <= |text|
      invariant DigitsEnd(text, at) == DigitsEnd(text, start)
    {
      at := at + 1;
    }
  }

  /** The reading as the runtime does it, advancing over the text. */
  method Parse(text: bytes) returns (r: Option<(int, nat)>)
    ensures r == Parsed(text)
  {
    hide DaysFromCivil, NanosOf, DigitsEnd;
    var year, month, day := Number(text, 0, 4), Number(text, 5, 2), Number(text, 8, 2);
    if year.None? || month.None? || day.None? { return None; }
    if !At(text, 4, DASH) || !At(text, 7, DASH) || !(1 <= month.value <= 12) || !(1 <= day.value <= 31) { return None; }
    var seconds := DaysFromCivil(year.value, month.value, day.value) * 86_400;
    if |text| == 10 { return Some((seconds, 0)); }
    if !(At(text, 10, 0x54) || At(text, 10, 0x74) || At(text, 10, 0x20)) || !At(text, 13, COLON)
        || !At(text, 16, COLON) {
      return None;
    }
    var hour, minute, second := Number(text, 11, 2), Number(text, 14, 2), Number(text, 17, 2);
    if hour.None? || minute.None? || second.None? { return None; }
    seconds := seconds + (hour.value * 3600 + minute.value * 60 + second.value);
    var at := 19;
    var nanos := 0;
    if At(text, at, DOT) {
      at := at + 1;
      var start := at;
      at := SkipDigits(text, start);
      var digits := text[start..at];
      if |digits| == 0 || |digits| > 9 { return None; }
      nanos := NanosOf(digits);
    }
    if at + 1 >= |text| && (at == |text| || text[at] == 0x5A || text[at] == 0x7A) {
    } else if at < |text| && (text[at] == PLUS || text[at] == DASH) && |text| == at + 6 && text[at + 3] == COLON {
      var hours, minutes := Number(text, at + 1, 2), Number(text, at + 4, 2);
      if hours.None? || minutes.None? { return None; }
      var offset: int := hours.value * 3600 + minutes.value * 60;
      seconds := seconds - (if text[at] == PLUS then offset else -offset);
    } else {
      return None;
    }
    return Some((seconds, nanos));
  }

  // ---------------------------------------------------------------------
  // Reading what was printed
  // ---------------------------------------------------------------------

  lemma Pow10Values()
    ensures Pow10(2) == 100 && Pow10(4) == 10_000 && Pow10(9) == 1_000_000_000
  {
    assert Pow10(5) == 100_000;
  }

  lemma DigitsRun(before: bytes, digits: bytes, after: bytes)
    requires AllDigits(digits) && (after == [] || !IsDigit(after[0]))
    ensures DigitsEnd(before + digits + after, |before|) == |before| + |digits|
  {
    var text := before + digits + after;
    var end, e := DigitsEnd(text, |before|), |before| + |digits|;
    assert forall k :: |before| <= k < e ==> text[k] == digits[k - |before|];
    assert after != [] ==> text[e] == after[0];
  }

  lemma NanosPrinted(nanos: nat)
    requires 0 < nanos < 1_000_000_000
    ensures var digits := TrimZeros(Padded(nanos, 9));
            AllDigits(digits) && 0 < |digits| <= 9 && NanosOf(digits) == nanos
  {
    hide Padded, TrimZeros;
    Pow10Values();
    var whole := Padded(nanos, 9);
    PaddedReads(nanos, 9);
    TrimRestores(whole);
    ZerosValue(9, []);
    assert Zeros(9) + [] == [] + Zeros(9);
  }

  /** The nanoseconds after the seconds, before the `Z` that ends the text. */
  lemma FractionReads(before: bytes, nanos: nat)
    requires nanos < 1_000_000_000
    ensures NanosAt(before + Fraction(nanos) + [0x5A], |before|) == Some((nanos, |before| + |Fraction(nanos)|))
  {
    hide Padded, TrimZeros, NanosOf, DigitsEnd;
    var text := before + Fraction(nanos) + [0x5A];
    if nanos > 0 {
      NanosPrinted(nanos);
      var digits := TrimZeros(Padded(nanos, 9));
      assert text == (before + [DOT]) + digits + [0x5A];
      DigitsRun(before + [DOT], digits, [0x5A]);
      assert text[|before| + 1..|before| + 1 + |digits|] == digits;
    }
  }

  /** The pieces of a printed date and time, where they are read. */
  lemma DateTimeReads(date: Date, rest: nat, after: bytes)
    requires Valid(date) && rest < 86_400 && 0 <= date.year <= 9999
    ensures var text := DateTimeText(date, rest) + after;
            && |DateTimeText(date, rest)| == 19
            && Number(text, 0, 4) == Some(date.year) && At(text, 4, DASH)
            && Number(text, 5, 2) == Some(date.month) && At(text, 7, DASH)
            && Number(text, 8, 2) == Some(date.day) && At(text, 10, 0x54)
            && Number(text, 11, 2) == Some(rest / 3600) && At(text, 13, COLON)
            && Number(text, 14, 2) == Some(rest / 60 % 60) && At(text, 16, COLON)
            && Number(text, 17, 2) == Some(rest % 60)
  {
    hide Padded, Value, Pow10;
    Pow10Values();
    PaddedReads(date.year, 4); PaddedReads(date.month, 2); PaddedReads(date.day, 2);
    PaddedReads(rest / 3600, 2); PaddedReads(rest / 60 % 60, 2); PaddedReads(rest % 60, 2);
    Slices(Padded(date.year, 4), Padded(date.month, 2), Padded(date.day, 2),
           Padded(rest / 3600, 2), Padded(rest / 60 % 60, 2), Padded(rest % 60, 2), after);
  }

  lemma Slices(year: bytes, month: bytes, day: bytes, h: bytes, m: bytes, s: bytes, after: bytes)
    requires |year| == 4 && |month| == |day| == |h| == |m| == |s| == 2
    ensures var text := year + [DASH] + month + [DASH] + day + [0x54] + h + [COLON] + m + [COLON] + s + after;
            && |text| == 19 + |after|
            && text[0..4] == year && text[4] == DASH && text[5..7] == month && text[7] == DASH && text[8..10] == day
            && text[10] == 0x54 && text[11..13] == h && text[13] == COLON && text[14..16] == m && text[16] == COLON
            && text[17..19] == s
  {
  }

  lemma RestOfDay(seconds: int)
    ensures var rest := seconds % 86_400;
            0 <= rest < 86_400
                && seconds == seconds / 86_400 * 86_400 + (rest / 3600) * 3600 + (rest / 60 % 60) * 60 + rest % 60
  {
  }

  /** Whether the UTC year of an instant has the four digits a text has. */
  predicate FourDigitYear(seconds: int) {
    0 <= CivilFromDays(seconds / 86_400).year <= 9999
  }

  lemma FormatReads(seconds: int, nanos: nat)
    requires nanos < 1_000_000_000 && FourDigitYear(seconds)
    ensures Parsed(Format(seconds, nanos)) == Some((seconds, nanos))
  {
    hide CivilFromDays, DaysFromCivil, Valid, Number, At, NanosAt, DateTimeText, Fraction;
    DaysRoundTrip(seconds / 86_400);
    var date := CivilFromDays(seconds / 86_400);
    ValidBounds(date);
    var rest := seconds % 86_400;
    var head := DateTimeText(date, rest);
    var text := Format(seconds, nanos);
    assert text == head + (Fraction(nanos) + [0x5A]);
    DateTimeReads(date, rest, Fraction(nanos) + [0x5A]);
    FractionReads(head, nanos);
    RestOfDay(seconds);
    var at := 19 + |Fraction(nanos)|;
    assert OffsetAt(text, at) == Some(0);
  }

  lemma ValidBounds(date: Date)
    requires Valid(date)
    ensures 1 <= date.month <= 12 && 1 <= date.day <= 31
  {
  }

  /** A year of other than four digits does not read back: the fifth
      character, or the first, is not where the text needs it. */
  lemma OtherYears(seconds: int, nanos: nat)
    requires !FourDigitYear(seconds)
    ensures Parsed(Format(seconds, nanos)) == None
  {
    hide CivilFromDays, Valid, Fraction;
    DaysRoundTrip(seconds / 86_400);
    var date := CivilFromDays(seconds / 86_400);
    var text := Format(seconds, nanos);
    Pow10Values();
    var year := YearText(date.year);
    assert forall i :: 0 <= i < |year| ==> text[i] == year[i];
    if date.year < 0 {
      assert text[0..4][0] == DASH;
    } else {
      PaddedReads(date.year, 4);
      assert IsDigit(text[4]);
    }
  }

  /** Printing then reading is the identity exactly on the instants whose UTC
      year is 0 to 9999; past them the printed text does not read at all. */
  lemma RoundTrip(seconds: int, nanos: nat)
    requires nanos < 1_000_000_000
    ensures Parsed(Format(seconds, nanos)) == (if FourDigitYear(seconds) then Some((seconds, nanos)) else None)
  {
    if FourDigitYear(seconds) { FormatReads(seconds, nanos); } else { OtherYears(seconds, nanos); }
  }

  /** A text is read to an instant that prints to a text that names the same
      instant, unless its offset takes it out of the years 0 to 9999. */
  lemma ReadingIsStable(text: bytes)
    ensures match Parsed(text)
            case Some((seconds, nanos)) => nanos < 1_000_000_000
                && (FourDigitYear(seconds) ==> Parsed(Format(seconds, nanos)) == Parsed(text))
            case None => true
  {
    match Parsed(text)
    case Some((seconds, nanos)) =>
      NanosBound(text);
      RoundTrip(seconds, nanos);
    case None =>
  }

  lemma NanosBound(text: bytes)
    requires Parsed(text).Some?
    ensures Parsed(text).value.1 < 1_000_000_000
  {
    if |text| != 10 && At(text, 19, DOT) {
      var end := DigitsEnd(text, 20);
      var digits := text[20..end];
      NineDigits(digits + Zeros(9 - |digits|));
    }
  }

  lemma NineDigits(s: bytes)
    requires |s| == 9 && AllDigits(s)
    ensures Value(s) < 1_000_000_000
  {
    ValueBound(s);
    Pow10Values();
  }

  lemma {:induction false} ValueBound(s: bytes)
    requires AllDigits(s)
    ensures Value(s) < Pow10(|s|)
  {
    if s != [] { ValueBound(s[..|s| - 1]); }
  }
}
