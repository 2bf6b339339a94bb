/**
 Every RFC 3339 text of an instant that is read, and what it is read as:
 fractions of any length up to nanoseconds, and offsets from UTC (civil.rs).
 */
module InstantForms {
  import opened Bytes
  import opened Civil
  import opened Decimal
  import opened Instants

  /** What a text ends with: nothing, a letter for UTC, or how far ahead of UTC
      it is, or behind. */
  datatype Zone = Unsaid | Utc(letter: byte) | Offset(ahead: bool, hours: bytes, minutes: bytes)

  datatype Time = Time(mark: byte, hour: bytes, minute: bytes, second: bytes, fraction: bytes, zone: Zone)

  /** A date, or a date and a time, as the digits they are written with. */
  datatype Form = Form(year: bytes, month: bytes, day: bytes, time: Option<Time>)

  predicate DigitsOf(s: bytes, count: nat) { |s| == count && AllDigits(s) }

  predicate ZoneOk(zone: Zone) {
    match zone
    case Unsaid => true
    case Utc(letter) => letter == 0x5A || letter == 0x7A
    case Offset(_, hours, minutes) => DigitsOf(hours, 2) && DigitsOf(minutes, 2)
  }

  predicate TimeOk(t: Time) {
    && (t.mark == 0x54 || t.mark == 0x74 || t.mark == 0x20)
    && DigitsOf(t.hour, 2) && DigitsOf(t.minute, 2) && DigitsOf(t.second, 2)
    && AllDigits(t.fraction) && |t.fraction| <= 9 && ZoneOk(t.zone)
  }

  /** The months are those of the year, the days those of the longest month. */
  predicate FormOk(f: Form) {
    && DigitsOf(f.year, 4) && DigitsOf(f.month, 2) && DigitsOf(f.day, 2)
    && 1 <= Value(f.month) <= 12 && 1 <= Value(f.day) <= 31
    && (f.time.Some? ==> TimeOk(f.time.value))
  }

  function ZoneText(zone: Zone): bytes {
    match zone
    case Unsaid => []
    case Utc(letter) => [letter]
    case Offset(ahead, hours, minutes) => [if ahead then PLUS else DASH] + hours + [COLON] + minutes
  }

  function FractionText(fraction: bytes): bytes { if fraction == [] then [] else [DOT] + fraction }

  function TimeText(t: Time): bytes {
    [t.mark] + t.hour + [COLON] + t.minute + [COLON] + t.second + FractionText(t.fraction) + ZoneText(t.zone)
  }

  function FormText(f: Form): bytes {
    f.year + [DASH] + f.month + [DASH] + f.day + (if f.time.Some? then TimeText(f.time.value) else [])
  }

  // ---------------------------------------------------------------------
  // The instant
  // ---------------------------------------------------------------------

  /** How many seconds the time of the zone is ahead of UTC. */
  function Ahead(zone: Zone): int
    requires ZoneOk(zone)
  {
    match zone
    case Offset(ahead, hours, minutes) =>
      var seconds: int := Value(hours) * 3600 + Value(minutes) * 60;
      if ahead then seconds else -seconds
    case _ => 0
  }

  /** The seconds since the epoch, and the nanoseconds after them. */
  function InstantOf(f: Form): (int, nat)
    requires FormOk(f)
  {
    var days := DaysFromCivil(Value(f.year), Value(f.month), Value(f.day));
    match f.time
    case None => (days * 86_400, 0)
    case Some(t) =>
      (days * 86_400 + Value(t.hour) * 3600 + Value(t.minute) * 60 + Value(t.second) - Ahead(t.zone),
       Value(t.fraction) * Pow10(9 - |t.fraction|))
  }

  lemma {:induction false} ZerosAfter(s: bytes, k: nat)
    requires AllDigits(s)
    ensures AllDigits(s + Zeros(k)) && Value(s + Zeros(k)) == Value(s) * Pow10(k)
  {
    var t := s + Zeros(k);
    assert AllDigits(t);
    if k == 0 {
      assert t == s;
    } else {
      ZerosAfter(s, k - 1);
      assert t[..|t| - 1] == s + Zeros(k - 1);
      assert Value(t) == Value(s + Zeros(k - 1)) * 10;
      Tens(Value(s), Pow10(k - 1));
    }
  }

  lemma Tens(a: nat, b: nat)
    ensures a * b * 10 == a * (10 * b)
  {
  }

  // ---------------------------------------------------------------------
  // Reading a form
  // ---------------------------------------------------------------------

  /** Where the parts of a text are. */
  lemma Places(f: Form)
    requires DigitsOf(f.year, 4) && DigitsOf(f.month, 2) && DigitsOf(f.day, 2)
    ensures var text := FormText(f);
            && |text| >= 10 && text[0..4] == f.year && text[4] == DASH && text[5..7] == f.month && text[7] == DASH
            && text[8..10] == f.day && text[10..] == (if f.time.Some? then TimeText(f.time.value) else [])
  {
  }

  lemma TimePlaces(t: Time)
    requires DigitsOf(t.hour, 2) && DigitsOf(t.minute, 2) && DigitsOf(t.second, 2)
    ensures var text := TimeText(t);
            && |text| >= 9 && text[0] == t.mark && text[1..3] == t.hour && text[3] == COLON && text[4..6] == t.minute
            && text[6] == COLON && text[7..9] == t.second && text[9..] == FractionText(t.fraction) + ZoneText(t.zone)
  {
  }

  lemma ZoneReads(text: bytes, at: nat, zone: Zone)
    requires ZoneOk(zone) && at <= |text| && text[at..] == ZoneText(zone)
    ensures OffsetAt(text, at) == Some(Ahead(zone))
  {
    hide Value;
    var rest := text[at..];
    assert forall k :: 0 <= k < |rest| ==> text[at + k] == rest[k];
    match zone
    case Offset(ahead, hours, minutes) =>
      assert rest[1..3] == hours && rest[4..6] == minutes;
      assert text[at + 1..at + 3] == rest[1..3] && text[at + 4..at + 6] == rest[4..6];
    case _ =>
  }

  lemma FractionReads(text: bytes, at: nat, fraction: bytes, zone: Zone)
    requires AllDigits(fraction) && |fraction| <= 9 && ZoneOk(zone)
    requires at <= |text| && text[at..] == FractionText(fraction) + ZoneText(zone)
    ensures NanosAt(text, at) == Some((Value(fraction) * Pow10(9 - |fraction|), at + |FractionText(fraction)|))
    ensures text[at + |FractionText(fraction)|..] == ZoneText(zone)
  {
    hide Value, Pow10, NanosAt, ZoneText, AllDigits;
    assert text[at + |FractionText(fraction)|..] == text[at..][|FractionText(fraction)|..];
    if fraction == [] {
      NoFraction(text, at, zone);
      NoValue();
    } else {
      SomeFraction(text, at, fraction, zone);
    }
  }

  lemma NoFraction(text: bytes, at: nat, zone: Zone)
    requires ZoneOk(zone) && at <= |text| && text[at..] == ZoneText(zone)
    ensures NanosAt(text, at) == Some((0, at))
  {
    ZoneStarts(zone);
    assert at < |text| ==> text[at] == text[at..][0];
  }

  lemma SomeFraction(text: bytes, at: nat, fraction: bytes, zone: Zone)
    requires AllDigits(fraction) && 0 < |fraction| <= 9 && ZoneOk(zone)
    requires at <= |text| && text[at..] == [DOT] + fraction + ZoneText(zone)
    ensures NanosAt(text, at) == Some((Value(fraction) * Pow10(9 - |fraction|), at + 1 + |fraction|))
  {
    hide NanosOf, DigitsEnd, Value, Pow10, ZoneText, AllDigits;
    var after := ZoneText(zone);
    ZoneStarts(zone);
    var before := text[..at] + [DOT];
    assert text == before + fraction + after;
    DigitsRun(before, fraction, after);
    assert text[at] == text[at..][0] && text[at + 1..at + 1 + |fraction|] == fraction;
    NanosAre(fraction);
  }

  lemma NoValue()
    ensures Value([]) == 0
  {
  }

  lemma ZoneStarts(zone: Zone)
    requires ZoneOk(zone)
    ensures ZoneText(zone) == [] || (!IsDigit(ZoneText(zone)[0]) && ZoneText(zone)[0] != DOT)
  {
  }

  lemma NanosAre(digits: bytes)
    requires AllDigits(digits) && |digits| <= 9
    ensures NanosOf(digits) == Value(digits) * Pow10(9 - |digits|)
  {
    hide Value, Pow10, Zeros, AllDigits;
    ZerosAfter(digits, 9 - |digits|);
  }

  lemma TimeReads(f: Form)
    requires FormOk(f) && f.time.Some?
    ensures Parsed(FormText(f)) == Some(InstantOf(f))
  {
    hide DaysFromCivil, Value, NanosAt, OffsetAt, Pow10, TimeText, FormText, FractionText, ZoneText, Ahead;
    var text, t := FormText(f), f.time.value;
    Places(f);
    TimePlaces(t);
    var rest := text[10..];
    assert forall k :: 0 <= k < |rest| ==> text[10 + k] == rest[k];
    assert text[11..13] == rest[1..3] && text[14..16] == rest[4..6] && text[17..19] == rest[7..9];
    assert text[19..] == rest[9..];
    FractionReads(text, 19, t.fraction, t.zone);
    ZoneReads(text, 19 + |FractionText(t.fraction)|, t.zone);
  }

  /** A text of any of the forms is read as the instant it is: the days of its
      date and the time after them, less what its zone is ahead of UTC. */
  lemma FormReads(f: Form)
    requires FormOk(f)
    ensures Parsed(FormText(f)) == Some(InstantOf(f))
  {
    hide DaysFromCivil, Value, TimeText;
    if f.time.Some? {
      TimeReads(f);
    } else {
      Places(f);
    }
  }

  // ---------------------------------------------------------------------
  // Nothing else is read
  // ---------------------------------------------------------------------

  lemma ZoneOf(text: bytes, at: nat) returns (zone: Zone)
    requires at <= |text| && OffsetAt(text, at).Some?
    ensures ZoneOk(zone) && ZoneText(zone) == text[at..]
  {
    hide Value;
    if at == |text| {
      zone := Unsaid;
    } else if at + 1 == |text| {
      zone := Utc(text[at]);
    } else {
      zone := Offset(text[at] == PLUS, text[at + 1..at + 3], text[at + 4..at + 6]);
    }
  }

  lemma FractionOf(text: bytes, at: nat) returns (fraction: bytes, end: nat)
    requires at <= |text| && NanosAt(text, at).Some?
    ensures end == NanosAt(text, at).value.1 && at <= end <= |text| && AllDigits(fraction) && |fraction| <= 9
    ensures text[at..end] == FractionText(fraction)
  {
    hide NanosOf;
    end := NanosAt(text, at).value.1;
    fraction := if At(text, at, DOT) then text[at + 1..end] else [];
  }

  lemma Parts(text: bytes)
    requires Parsed(text).Some? && |text| != 10
    ensures |text| >= 19 && (text[10] == 0x54 || text[10] == 0x74 || text[10] == 0x20) && text[13] == text[16] == COLON
    ensures AllDigits(text[11..13]) && AllDigits(text[14..16]) && AllDigits(text[17..19])
    ensures NanosAt(text, 19).Some? && OffsetAt(text, NanosAt(text, 19).value.1).Some?
  {
    hide DaysFromCivil, Value, NanosAt, OffsetAt, AllDigits;
  }

  lemma TimeOf(text: bytes) returns (t: Time)
    requires Parsed(text).Some? && |text| != 10
    ensures |text| > 10 && TimeOk(t) && TimeText(t) == text[10..]
  {
    hide Parsed, NanosAt, OffsetAt, AllDigits, ZoneOk, ZoneText, FractionText;
    Parts(text);
    var fraction, at := FractionOf(text, 19);
    var zone := ZoneOf(text, at);
    t := Time(text[10], text[11..13], text[14..16], text[17..19], fraction, zone);
    assert text[10..] == [text[10]] + text[11..13] + [COLON] + text[14..16] + [COLON] + text[17..19]
                         + text[19..at] + text[at..];
  }

  /** A text is read exactly when it has one of the forms. */
  lemma ReadsForms(text: bytes)
    ensures Parsed(text).Some? <==> exists f :: FormOk(f) && FormText(f) == text
  {
    hide DaysFromCivil, Value, NanosAt, OffsetAt, TimeText, TimeOk;
    if Parsed(text).Some? {
      var time := None;
      if |text| != 10 {
        var t := TimeOf(text);
        time := Some(t);
      }
      var f := Form(text[0..4], text[5..7], text[8..10], time);
      assert text == f.year + [DASH] + f.month + [DASH] + f.day + text[10..];
      assert FormOk(f) && FormText(f) == text;
    }
    forall f | FormOk(f) && FormText(f) == text
      ensures Parsed(text).Some?
    {
      FormReads(f);
    }
  }
}
