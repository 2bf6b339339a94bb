/** Each token of a JSON text is read back (json.rs). */
module JsonReading {
  import opened Bytes
  import opened Json
  import opened JsonText
  import opened Decimal
  import Utf8

  lemma WordParts(w: bytes, p: nat, a: bytes, b: bytes)
    ensures Word(w, p, a + b) <==> Word(w, p, a) && Word(w, p + |a|, b)
  {
    var n := |a| + |b|;
    if Word(w, p, a + b) {
      var all := w[p..p + n];
      assert all[..|a|] == a && all[|a|..] == b;
      assert all[..|a|] == w[p..p + |a|];
      assert all[|a|..] == w[p + |a|..p + n];
    }
    if Word(w, p, a) && Word(w, p + |a|, b) {
      assert w[p..p + n] == w[p..p + |a|] + w[p + |a|..p + n];
    }
  }

  lemma WordFirst(w: bytes, p: nat, word: bytes)
    requires Word(w, p, word) && word != []
    ensures p < |w| && w[p] == word[0]
  {
    assert w[p..p + |word|][0] == word[0];
  }

  // ---------------------------------------------------------------------
  // Strings
  // ---------------------------------------------------------------------

  lemma HexLowReads(n: nat)
    requires n < 16
    ensures HexDigit(HexLow(n)) == Some(n) && HexLow(n) != 0x2B
  {
  }

  lemma {:induction false} HexValueAdds(s: bytes, b: byte)
    requires HexValue(s).Some? && HexDigit(b).Some?
    ensures HexValue(s + [b]) == Some(HexValue(s).value * 16 + HexDigit(b).value)
  {
    assert (s + [b])[..|s|] == s;
  }

  lemma FourDigits(a: nat, b: nat, c: nat, d: nat)
    requires a < 16 && b < 16 && c < 16 && d < 16
    ensures Radix16([HexLow(a), HexLow(b), HexLow(c), HexLow(d)]) == Some(((a * 16 + b) * 16 + c) * 16 + d)
  {
    HexLowReads(a);
    HexLowReads(b);
    HexLowReads(c);
    HexLowReads(d);
    hide HexLow, HexDigit;
    var x, y, z, t := HexLow(a), HexLow(b), HexLow(c), HexLow(d);
    HexValueAdds([], x);
    assert [] + [x] == [x];
    HexValueAdds([x], y);
    assert [x] + [y] == [x, y];
    HexValueAdds([x, y], z);
    assert [x, y] + [z] == [x, y, z];
    HexValueAdds([x, y, z], t);
    assert [x, y, z] + [t] == [x, y, z, t];
  }

  lemma UnicodeReads(w: bytes, p: nat, code: nat)
    requires code < 0x1_0000 && !IsHigh(code) && !IsLow(code) && Word(w, p, UnicodeEscape(code))
    ensures EscapeAt(w, p + 1) == Got(Utf8.Encoded(code), p + 6) && At(w, p, BACKSLASH)
  {
    var s := UnicodeEscape(code);
    var all := w[p..p + 6];
    assert all == s;
    assert w[p] == all[0] && w[p + 1] == all[1];
    assert w[p + 2..p + 6] == all[2..] == [s[2], s[3], s[4], s[5]];
    FourDigits(code / 0x1000, code / 0x100 % 0x10, code / 0x10 % 0x10, code % 0x10);
    FourParts(code);
    hide HexLow, Radix16, Utf8.Encoded;
  }

  lemma FourParts(code: nat)
    requires code < 0x1_0000
    ensures ((code / 0x1000 * 16 + code / 0x100 % 0x10) * 16 + code / 0x10 % 0x10) * 16 + code % 0x10 == code
  {
  }

  lemma ShortReads(w: bytes, p: nat, letter: byte, c: byte)
    requires Word(w, p, [BACKSLASH, letter]) && Escaped(letter) == Some(c)
    ensures EscapeAt(w, p + 1) == Got([c], p + 2) && At(w, p, BACKSLASH)
  {
    assert w[p..p + 2][0] == w[p] && w[p..p + 2][1] == w[p + 1];
  }

  /** An escape is read as the bytes it stands for. */
  lemma EscapeReads(w: bytes, p: nat, s: bytes, html: bool)
    requires s != [] && EscapeOf(s, html).Some? && Word(w, p, EscapeOf(s, html).value.0)
    ensures var (escape, length) := EscapeOf(s, html).value;
      length <= |s| && At(w, p, BACKSLASH) && EscapeAt(w, p + 1) == Got(s[..length], p + |escape|)
  {
    hide EscapeAt, HexLow, Word;
    var b := s[0];
    EscapeLength(s, html);
    assert s[..1] == [b];
    if b == QUOTE { ShortReads(w, p, QUOTE, b); }
    else if b == BACKSLASH { ShortReads(w, p, BACKSLASH, b); }
    else if b == 0x0A { ShortReads(w, p, 0x6E, b); }
    else if b == 0x0D { ShortReads(w, p, 0x72, b); }
    else if b == 0x09 { ShortReads(w, p, 0x74, b); }
    else if b == 0x08 { ShortReads(w, p, 0x62, b); }
    else if b == 0x0C { ShortReads(w, p, 0x66, b); }
    else if b < 0x80 {
      UnicodeReads(w, p, b);
      assert Utf8.Encoded(b) == [b];
    } else {
      var code := if s[2] == 0xA8 then 0x2028 else 0x2029;
      UnicodeReads(w, p, code);
      Separators();
      assert Utf8.Encoded(code) == s[..3];
    }
  }

  // ---------------------------------------------------------------------
  // Escapes that other writers use
  // ---------------------------------------------------------------------

  /** A hexadecimal digit in either case. */
  predicate Digit(b: byte, n: nat)
    requires n < 16
  {
    b == HexLow(n) || (10 <= n && b == 0x41 + n - 10)
  }

  /** Four digits of a number of 16 bits. */
  predicate Spells(s: bytes, unit: nat)
    requires unit < 0x1_0000
  {
    && |s| == 4 && Digit(s[0], unit / 0x1000) && Digit(s[1], unit / 0x100 % 0x10)
    && Digit(s[2], unit / 0x10 % 0x10) && Digit(s[3], unit % 0x10)
  }

  /** A `u` escape for each code unit, one after another. */
  predicate SpellsUnits(s: bytes, units: seq<nat>)
    requires forall i :: 0 <= i < |units| ==> units[i] < 0x1_0000
  {
    if units == [] then s == []
    else |s| >= 6 && s[..2] == [BACKSLASH, 0x75] && Spells(s[2..6], units[0]) && SpellsUnits(s[6..], units[1..])
  }

  lemma DigitReads(b: byte, n: nat)
    requires n < 16 && Digit(b, n)
    ensures HexDigit(b) == Some(n) && b != 0x2B
  {
  }

  lemma SpelledReads(s: bytes, unit: nat)
    requires unit < 0x1_0000 && Spells(s, unit)
    ensures Radix16(s) == Some(unit)
  {
    DigitReads(s[0], unit / 0x1000);
    DigitReads(s[1], unit / 0x100 % 0x10);
    DigitReads(s[2], unit / 0x10 % 0x10);
    DigitReads(s[3], unit % 0x10);
    hide HexDigit, Digit;
    HexValueAdds([], s[0]);
    assert [] + [s[0]] == [s[0]];
    HexValueAdds([s[0]], s[1]);
    assert [s[0]] + [s[1]] == [s[0], s[1]];
    HexValueAdds([s[0], s[1]], s[2]);
    assert [s[0], s[1]] + [s[2]] == [s[0], s[1], s[2]];
    HexValueAdds([s[0], s[1], s[2]], s[3]);
    assert [s[0], s[1], s[2]] + [s[3]] == s;
    FourParts(unit);
  }

  lemma UnitReads(w: bytes, p: nat, unit: nat, text: bytes)
    requires unit < 0x1_0000 && |text| >= 6 && text[..2] == [BACKSLASH, 0x75] && Spells(text[2..6], unit)
    requires Word(w, p, text)
    ensures At(w, p, BACKSLASH) && At(w, p + 1, 0x75) && Hex4(w, p + 2) == Got(unit, p + 6)
    ensures Word(w, p + 6, text[6..])
  {
    hide Radix16, Spells;
    var all := w[p..p + |text|];
    assert w[p] == all[..2][0] && w[p + 1] == all[..2][1];
    assert all == text;
    assert forall i :: 0 <= i < |text| ==> w[p + i] == text[i];
    assert w[p + 2..p + 6] == text[2..6];
    assert w[p + 6..p + |text|] == all[6..];
    SpelledReads(text[2..6], unit);
  }

  /** Every character is read from the escapes of its UTF-16 code units, in
      digits of either case: one, or the two of a surrogate pair. */
  lemma EscapedUnitsRead(w: bytes, p: nat, code: nat, text: bytes)
    requires Utf8.IsScalar(code) && SpellsUnits(text, Utf8.Units(code)) && Word(w, p, text)
    ensures At(w, p, BACKSLASH) && EscapeAt(w, p + 1) == Got(Utf8.Encoded(code), p + |text|)
  {
    hide Spells, Hex4, Word, Utf8.Encoded;
    var units := Utf8.Units(code);
    UnitReads(w, p, units[0], text);
    if code < 0x1_0000 {
      assert SpellsUnits(text[6..], units[1..]) && units[1..] == [];
    } else {
      UnitReads(w, p + 6, units[1], text[6..]);
      assert SpellsUnits(text[6..][6..], units[1..][1..]) && units[1..][1..] == [];
    }
  }

  /** A character past U+FFFF, from the surrogate pair in the digits that every
      other writer has for it. */
  lemma PairReads()
    ensures StringFrom([0x5C, 0x75, 0x64, 0x38, 0x33, 0x64, 0x5C, 0x75, 0x44, 0x45, 0x30, 0x30, 0x22], 0, [])
            == Got([0xF0, 0x9F, 0x98, 0x80], 13)
  {
    hide EscapeAt, Digit;
    var w: bytes := [0x5C, 0x75, 0x64, 0x38, 0x33, 0x64, 0x5C, 0x75, 0x44, 0x45, 0x30, 0x30, 0x22];
    var text := w[..12];
    var code := 0x1_F600;
    assert Utf8.Units(code) == [0xD83D, 0xDE00] && Utf8.Encoded(code) == [0xF0, 0x9F, 0x98, 0x80];
    PairSpelled(text);
    EscapedUnitsRead(w, 0, code, text);
    var none: bytes := [];
    assert none + Utf8.Encoded(code) == Utf8.Encoded(code);
    assert StringFrom(w, 0, none) == StringFrom(w, 12, Utf8.Encoded(code));
  }

  lemma PairSpelled(text: bytes)
    requires text == [0x5C, 0x75, 0x64, 0x38, 0x33, 0x64, 0x5C, 0x75, 0x44, 0x45, 0x30, 0x30]
    ensures SpellsUnits(text, [0xD83D, 0xDE00])
  {
    hide Spells;
    var units: seq<nat> := [0xD83D, 0xDE00];
    var rest: bytes := [0x5C, 0x75, 0x44, 0x45, 0x30, 0x30];
    assert text[6..] == rest && rest[6..] == [] && text[..2] == rest[..2] == [BACKSLASH, 0x75];
    assert text[2..6] == [0x64, 0x38, 0x33, 0x64] && rest[2..6] == [0x44, 0x45, 0x30, 0x30];
    HalvesSpelled();
    assert SpellsUnits([], []);
    assert units[1..] == [0xDE00] && units[1..][1..] == [];
    assert SpellsUnits(rest, units[1..]);
  }

  lemma HalvesSpelled()
    ensures Spells([0x64, 0x38, 0x33, 0x64], 0xD83D) && Spells([0x44, 0x45, 0x30, 0x30], 0xDE00)
  {
  }

  /** The escapes of one letter: quote, backslash and slash as themselves, and
      the five controls; and no others but `u`. */
  lemma LettersRead(w: bytes, p: nat)
    requires p < |w| && w[p] != 0x75
    ensures EscapeAt(w, p) ==
            if w[p] in [QUOTE, BACKSLASH, 0x2F] then Got([w[p]], p + 1)
            else if w[p] == 'b' as int then Got([0x08], p + 1)
            else if w[p] == 'f' as int then Got([0x0C], p + 1)
            else if w[p] == 'n' as int then Got([0x0A], p + 1)
            else if w[p] == 'r' as int then Got([0x0D], p + 1)
            else if w[p] == 't' as int then Got([0x09], p + 1)
            else Bad(InvalidEscape, p + 1)
  {
  }

  /** Half of a surrogate pair is read only with the other. */
  lemma HalfIsUnpaired(w: bytes, p: nat, unit: nat, text: bytes)
    requires 0xD800 <= unit < 0xE000 && |text| == 6 && SpellsUnits(text, [unit]) && Word(w, p, text)
    requires unit < 0xDC00 ==> !(At(w, p + 6, BACKSLASH) && At(w, p + 7, 0x75))
    ensures EscapeAt(w, p + 1) == Bad(Unpaired, p + 6)
  {
    hide Spells, Hex4, Word;
    UnitReads(w, p, unit, text);
  }

  lemma Separators()
    ensures Utf8.Encoded(0x2028) == [0xE2, 0x80, 0xA8] && Utf8.Encoded(0x2029) == [0xE2, 0x80, 0xA9]
  {
  }

  lemma EscapeLength(s: bytes, html: bool)
    requires s != [] && EscapeOf(s, html).Some?
    ensures EscapeOf(s, html).value.1 <= |s|
  {
  }

  /** What was quoted is read back, whatever the text. */
  lemma {:induction false} BodyReads(w: bytes, p: nat, s: bytes, html: bool, out: bytes)
    requires Word(w, p, QuotedBody(s, html) + [QUOTE])
    ensures StringFrom(w, p, out) == Got(out + s, p + |QuotedBody(s, html)| + 1)
    decreases |s|
  {
    hide Word, EscapeOf, EscapeAt;
    WordFirst(w, p, QuotedBody(s, html) + [QUOTE]);
    if s == [] {
      assert out + s == out;
    } else {
      match EscapeOf(s, html)
      case Some((escape, length)) =>
        EscapeLength(s, html);
        var rest := QuotedBody(s[length..], html);
        assert escape + rest + [QUOTE] == escape + (rest + [QUOTE]);
        WordParts(w, p, escape, rest + [QUOTE]);
        EscapeReads(w, p, s, html);
        BodyReads(w, p + |escape|, s[length..], html, out + s[..length]);
        assert out + s[..length] + s[length..] == out + s;
      case None =>
        var rest := QuotedBody(s[1..], html);
        assert [s[0]] + rest + [QUOTE] == [s[0]] + (rest + [QUOTE]);
        WordParts(w, p, [s[0]], rest + [QUOTE]);
        PlainUnescaped(s, html);
        BodyReads(w, p + 1, s[1..], html, out + [s[0]]);
        assert out + [s[0]] + s[1..] == out + s;
    }
  }

  lemma PlainUnescaped(s: bytes, html: bool)
    requires s != [] && EscapeOf(s, html).None?
    ensures s[0] != QUOTE && s[0] != BACKSLASH && s[0] >= 0x20
  {
  }

  /** Quoting and reading is the identity on every text. */
  lemma QuotedReads(d: Document, p: nat, s: text, html: bool)
    requires Word(d.whole, p, Quoted(s, html))
    ensures At(d.whole, p, QUOTE) && StringAt(d, p) == Got(s, p + |Quoted(s, html)|)
  {
    hide Word, QuotedBody, StringFrom;
    assert Quoted(s, html) == [QUOTE] + (QuotedBody(s, html) + [QUOTE]);
    WordParts(d.whole, p, [QUOTE], QuotedBody(s, html) + [QUOTE]);
    WordFirst(d.whole, p, [QUOTE]);
    BodyReads(d.whole, p + 1, s, html, []);
    assert [] + s == s;
  }

  // ---------------------------------------------------------------------
  // Numbers
  // ---------------------------------------------------------------------

  /** A number ends here: the text does, or a container or item or line. */
  predicate Stops(w: bytes, p: nat) {
    p >= |w| || w[p] == COMMA || w[p] == CLOSE_BRACKET || w[p] == CLOSE_BRACE || w[p] == 0x0A
  }

  predicate DigitNext(w: bytes, p: nat) { p < |w| && IsDigit(w[p]) }

  lemma {:induction false} DigitsRead(w: bytes, p: nat, s: bytes)
    requires Word(w, p, s) && AllDigits(s) && !DigitNext(w, p + |s|)
    ensures DigitsEnd(w, p) == p + |s|
    decreases |s|
  {
    if s != [] {
      assert s == [s[0]] + s[1..];
      WordParts(w, p, [s[0]], s[1..]);
      WordFirst(w, p, [s[0]]);
      hide Word;
      DigitsRead(w, p + 1, s[1..]);
    }
  }

  lemma SignReads(w: bytes, p: nat, sign: bytes, digits: bytes)
    requires (sign == [] || sign == [0x2B] || sign == [MINUS]) && digits != [] && AllDigits(digits)
    requires Word(w, p, sign) && Word(w, p + |sign|, digits)
    ensures IsSign(w, p) <==> sign != []
  {
    WordFirst(w, p + |sign|, digits);
    if sign != [] { WordFirst(w, p, sign); }
  }

  lemma ExponentReads(w: bytes, p: nat, e: Option<Exponent>)
    requires (e.Some? ==> IsExponentPart(e.value)) && Word(w, p, ExponentText(e)) && Stops(w, p + |ExponentText(e)|)
    ensures ExponentEnd(w, p) == Got((), p + |ExponentText(e)|)
  {
    if e.Some? {
      hide Word, DigitsEnd, IsSign, Stops, ExponentEnd;
      var Exponent(mark, sign, digits) := e.value;
      var signed := sign != [];
      assert |sign| == if signed then 1 else 0;
      assert [mark] + sign + digits == [mark] + (sign + digits);
      WordParts(w, p, [mark], sign + digits);
      WordFirst(w, p, [mark]);
      WordParts(w, p + 1, sign, digits);
      SignReads(w, p + 1, sign, digits);
      StopsDigits(w, p + 1 + |sign| + |digits|);
      DigitsRead(w, p + 1 + |sign|, digits);
      ExponentFound(w, p, signed, |digits|);
    }
  }

  lemma StopsDigits(w: bytes, p: nat)
    requires Stops(w, p)
    ensures !DigitNext(w, p)
  {
  }

  lemma ExponentFound(w: bytes, p: nat, signed: bool, count: nat)
    requires p < |w| && (w[p] == 0x65 || w[p] == 0x45) && IsSign(w, p + 1) == signed && count > 0
    requires var q := p + 1 + (if signed then 1 else 0); q + count <= |w| && DigitsEnd(w, q) == q + count
    ensures ExponentEnd(w, p) == Got((), p + 1 + (if signed then 1 else 0) + count)
  {
    hide DigitsEnd, IsSign;
  }

  lemma FractionReads(w: bytes, p: nat, fraction: bytes, e: Option<Exponent>)
    requires AllDigits(fraction) && (e.Some? ==> IsExponentPart(e.value))
    requires Word(w, p, FractionText(fraction) + ExponentText(e))
             && Stops(w, p + |FractionText(fraction) + ExponentText(e)|)
    ensures FractionEnd(w, p) == Got((), p + |FractionText(fraction) + ExponentText(e)|)
  {
    hide Word, DigitsEnd, ExponentEnd;
    WordParts(w, p, FractionText(fraction), ExponentText(e));
    ExponentReads(w, p + |FractionText(fraction)|, e);
    if e.Some? { WordFirst(w, p + |FractionText(fraction)|, ExponentText(e)); }
    if fraction != [] {
      WordParts(w, p, [0x2E], fraction);
      WordFirst(w, p, [0x2E]);
      WordFirst(w, p + 1, fraction);
      DigitsRead(w, p + 1, fraction);
    }
  }

  lemma WholeReads(w: bytes, p: nat, negative: bool, digits: bytes)
    requires digits != [] && AllDigits(digits) && (digits[0] == 0x30 ==> |digits| == 1)
    requires Word(w, p, (if negative then [MINUS] else []) + digits)
             && !DigitNext(w, p + |(if negative then [MINUS] else []) + digits|)
    ensures WholeEnd(w, p) == Got((), p + |(if negative then [MINUS] else []) + digits|)
  {
    var sign: bytes := if negative then [MINUS] else [];
    WordParts(w, p, sign, digits);
    if negative { WordFirst(w, p, sign); }
    WordFirst(w, p + |sign|, digits);
    hide Word;
    DigitsRead(w, p + |sign|, digits);
  }

  /** What follows the whole part does not lengthen it. */
  lemma TailStops(w: bytes, p: nat, n: numeral)
    requires Word(w, p, FractionText(n.fraction) + ExponentText(n.exponent))
    requires Stops(w, p + |FractionText(n.fraction) + ExponentText(n.exponent)|)
    ensures !DigitNext(w, p)
  {
    var tail := FractionText(n.fraction) + ExponentText(n.exponent);
    if tail != [] { WordFirst(w, p, tail); }
  }

  /** A number token is read whole. */
  lemma NumeralReads(w: bytes, p: nat, n: numeral)
    requires Word(w, p, NumeralText(n)) && Stops(w, p + |NumeralText(n)|)
    ensures p < |w| && (w[p] == MINUS || IsDigit(w[p]))
    ensures NumberEnd(w, p) == Got((), p + |NumeralText(n)|)
  {
    hide WholeEnd, FractionEnd, Word, Stops, DigitNext, FractionText, ExponentText, IsExponentPart;
    var sign: bytes := if n.negative then [MINUS] else [];
    var head, tail := sign + n.whole, FractionText(n.fraction) + ExponentText(n.exponent);
    assert NumeralText(n) == head + tail;
    WordParts(w, p, head, tail);
    WordFirst(w, p, head);
    assert IsDigit(n.whole[0]);
    assert head[0] == if n.negative then MINUS else n.whole[0];
    TailStops(w, p + |head|, n);
    WholeReads(w, p, n.negative, n.whole);
    FractionReads(w, p + |head|, n.fraction, n.exponent);
  }

  /** The digits of an `Int` are a number token. */
  lemma IntIsNumeral(value: int)
    ensures var digits := Digits(if value < 0 then -value else value); IsNumeral(Numeral(value < 0, digits, [], None))
  {
    NoLeadingZero(if value < 0 then -value else value);
    OneZero();
  }

  lemma OneZero()
    ensures |Digits(0)| == 1
  {
  }

  /** It is read as that `Int`. */
  lemma IntReads(value: int)
    requires -0x8000_0000_0000_0000 <= value < 0x8000_0000_0000_0000
    ensures var digits := Digits(if value < 0 then -value else value);
      var n := Numeral(value < 0, digits, [], None);
      IsNumeral(n) && NumeralText(n) == (if value < 0 then [MINUS] + digits else digits)
      && Integral(NumeralText(n)) && AsInt(NumeralText(n)) == Some(value)
  {
    hide Digits, Decimal.Value;
    var magnitude: nat := if value < 0 then -value else value;
    var digits := Digits(magnitude);
    DigitsValue(magnitude);
    IntIsNumeral(value);
    assert [MINUS] + digits + [] + [] == [MINUS] + digits && [] + digits + [] + [] == digits;
    assert ([MINUS] + digits)[1..] == digits;
    assert IsDigit(digits[0]);
  }

  lemma {:induction false} NoLeadingZero(n: nat)
    ensures Digits(n)[0] == 0x30 ==> n == 0
  {
    if n >= 10 { NoLeadingZero(n / 10); }
  }
}
