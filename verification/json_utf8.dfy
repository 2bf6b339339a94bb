/**
 Reading UTF-8 text as JSON (json.rs): every string read is UTF-8, so a
 stream's check never fails on it, and every event ends between characters.
 */
module JsonUtf8 {
  import opened Bytes
  import opened Json
  import Utf8

  lemma HexIsAscii(s: bytes)
    requires s != [] && Radix16(s).Some?
    ensures s[|s| - 1] < 0x80
  {
    var digits := if s[0] == 0x2B then s[1..] else s;
    assert digits[|digits| - 1] == s[|s| - 1];
  }

  lemma {:induction false} HexValueIsAscii(s: bytes)
    requires HexValue(s).Some?
    ensures forall i :: 0 <= i < |s| ==> s[i] < 0x80
  {
    if s != [] { HexValueIsAscii(s[..|s| - 1]); }
  }

  /** Digits that are a number are valid text. */
  lemma RadixIsValid(s: bytes)
    requires Radix16(s).Some?
    ensures Utf8.Valid(s)
  {
    hide Utf8.Valid;
    var digits := if s[0] == 0x2B then s[1..] else s;
    HexValueIsAscii(digits);
    assert forall i :: 1 <= i < |s| ==> s[i] == s[1..][i - 1];
    Utf8.AsciiIsValid(s);
  }

  lemma Hex4IsAscii(w: bytes, p: nat)
    requires Hex4(w, p).Got?
    ensures w[p + 3] < 0x80
  {
    hide Radix16;
    HexIsAscii(w[p..p + 4]);
  }

  /** An escape is a whole character, and ends at an ASCII byte. */
  lemma EscapeIsCharacter(w: bytes, p: nat)
    requires EscapeAt(w, p).Got?
    ensures Utf8.Valid(EscapeAt(w, p).value)
    ensures w[EscapeAt(w, p).at - 1] < 0x80
  {
    hide Hex4, Utf8.Encoded, Utf8.Valid;
    if w[p] == 0x75 {
      var unicode := UnicodeAt(w, p + 1);
      Utf8.EncodedReads(unicode.value);
      var first := Hex4(w, p + 1);
      Hex4IsAscii(w, p + 1);
      if IsHigh(first.value) { Hex4IsAscii(w, first.at + 2); }
    } else {
      Utf8.AsciiIsValid(EscapeAt(w, p).value);
    }
  }

  /** The text of a string, with what follows it, stays valid as it grows. */
  lemma {:induction false} StringIsValid(w: bytes, p: nat, out: bytes)
    requires p <= |w| && Utf8.Valid(out + w[p..])
    ensures StringFrom(w, p, out).Got? ==> Utf8.Valid(StringFrom(w, p, out).value)
    decreases |w| - p
  {
    hide Utf8.Valid, EscapeAt;
    if p < |w| {
      var rest := w[p..];
      if w[p] == QUOTE {
        Utf8.ValidCuts(out, rest);
      } else if w[p] == BACKSLASH {
        Utf8.ValidCuts(out, rest);
        var escape := EscapeAt(w, p + 1);
        if escape.Got? {
          EscapeIsCharacter(w, p + 1);
          AfterAscii(w, p, escape.at);
          Utf8.ValidAppends(out, escape.value);
          Utf8.ValidAppends(out + escape.value, w[escape.at..]);
          StringIsValid(w, escape.at, out + escape.value);
        }
      } else if w[p] >= 0x20 {
        assert out + [w[p]] + w[p + 1..] == out + rest;
        StringIsValid(w, p + 1, out + [w[p]]);
      }
    }
  }

  lemma AfterAscii(w: bytes, p: nat, at: nat)
    requires p < at <= |w| && Utf8.Valid(w[p..]) && w[at - 1] < 0x80
    ensures Utf8.Valid(w[at..])
  {
    assert w[p..] == w[p..at] + w[at..];
    Utf8.ValidAfterAscii(w[p..at], w[at..]);
  }

  /** A string of valid text is valid. */
  lemma StringAtIsValid(d: Document, p: nat)
    requires Utf8.Valid(d.whole) && At(d.whole, p, QUOTE)
    ensures StringFrom(d.whole, p + 1, []).Got? ==> Utf8.Valid(StringFrom(d.whole, p + 1, []).value)
  {
    hide Utf8.Valid;
    assert d.whole[0..] == d.whole;
    AfterAscii(d.whole, 0, p + 1);
    assert [] + d.whole[p + 1..] == d.whole[p + 1..];
    StringIsValid(d.whole, p + 1, []);
  }

  lemma StringUnchecked(d: Document, p: nat, checked: bool)
    requires Utf8.Valid(d.whole) && At(d.whole, p, QUOTE)
    ensures StringAt(d.(checked := checked), p) == StringAt(d, p)
  {
    hide Utf8.Valid, StringFrom;
    StringAtIsValid(d, p);
  }

  lemma ValueUnchecked(d: Document, s: State, checked: bool)
    requires Utf8.Valid(d.whole)
    ensures ValueAt(d.(checked := checked), s) == ValueAt(d, s)
  {
    hide Utf8.Valid, StringAt, SpaceEnd, NumberEnd, AfterValue, AsInt;
    var p := SpaceEnd(d.whole, s.position);
    if At(d.whole, p, QUOTE) { StringUnchecked(d, p, checked); }
  }

  lemma KeyUnchecked(d: Document, s: State, checked: bool)
    requires Utf8.Valid(d.whole)
    requires s.frames != [] && s.frames[|s.frames| - 1].Object?
    ensures KeyNext(d.(checked := checked), s) == KeyNext(d, s)
  {
    hide Utf8.Valid, StringAt, SpaceEnd;
    if At(d.whole, s.position, QUOTE) { StringUnchecked(d, s.position, checked); }
  }

  lemma MemberUnchecked(d: Document, s: State, checked: bool)
    requires Utf8.Valid(d.whole)
    requires s.frames != [] && (s.frames[|s.frames| - 1].Object? ==> s.frames[|s.frames| - 1].expectKey)
    ensures MemberNext(d.(checked := checked), s) == MemberNext(d, s)
  {
    hide Utf8.Valid, KeyNext, ValueAt, SpaceEnd, AfterValue;
    var n := |s.frames| - 1;
    var t := if s.frames[n].started then s.(position := SpaceEnd(d.whole, s.position + 1)) else s;
    if s.frames[n].Array? {
      ValueUnchecked(d, t.(frames := t.frames[..n] + [Array(t.frames[n].index + 1, true)]), checked);
    } else {
      KeyUnchecked(d, t, checked);
    }
  }

  /** On UTF-8 text, checking the strings changes nothing. */
  lemma Unchecked(d: Document, s: State, checked: bool)
    requires Utf8.Valid(d.whole)
    ensures Next(d.(checked := checked), s) == Next(d, s)
  {
    hide Utf8.Valid, MemberNext, ValueAt, SpaceEnd;
    var t := s.(position := SpaceEnd(d.whole, s.position));
    if t.frames == [] {
      ValueUnchecked(d, t.(rootSeen := true), checked);
    } else {
      ValueUnchecked(d, t, checked);
      if t.frames[|t.frames| - 1].Object? ==> t.frames[|t.frames| - 1].expectKey { MemberUnchecked(d, t, checked); }
    }
  }

  lemma {:induction false} SkipUnchecked(d: Document, s: State, depth: nat, checked: bool)
    requires Utf8.Valid(d.whole) && s.position <= |d.whole|
    ensures SkipFrom(d.(checked := checked), s, depth) == SkipFrom(d, s, depth)
    decreases |d.whole| - s.position
  {
    hide Utf8.Valid, Next;
    Unchecked(d, s, checked);
    NextAdvances(d, s);
    var (event, t) := Next(d, s);
    if event != Error && event != End && !((event == EndArray || event == EndObject) && |t.frames| < depth) {
      SkipUnchecked(d, t, depth, checked);
    }
  }

  // ---------------------------------------------------------------------
  // Between characters
  // ---------------------------------------------------------------------

  /** Nothing has been read, or an ASCII byte last. */
  predicate Aligned(w: bytes, p: nat) {
    p <= |w| && (p == 0 || w[p - 1] < 0x80)
  }

  lemma AlignedIsValid(w: bytes, p: nat)
    requires Utf8.Valid(w) && Aligned(w, p)
    ensures Utf8.Valid(w[..p]) && Utf8.Valid(w[p..])
  {
    hide Utf8.Valid;
    assert w == w[..p] + w[p..];
    if p > 0 {
      Utf8.ValidAfterAscii(w[..p], w[p..]);
    } else {
      assert w[p..] == w;
      Utf8.AsciiIsValid(w[..p]);
    }
  }

  predicate AlignedState(d: Document, s: State) { Aligned(d.whole, s.position) && Aligned(d.whole, s.start) }

  lemma {:induction false} SpaceAligned(w: bytes, p: nat)
    requires Aligned(w, p)
    ensures Aligned(w, SpaceEnd(w, p))
    decreases |w| - p
  {
    if p < |w| && IsSpace(w[p]) { SpaceAligned(w, p + 1); }
  }

  lemma {:induction false} DigitsAligned(w: bytes, p: nat)
    requires Aligned(w, p)
    ensures Aligned(w, DigitsEnd(w, p))
    decreases |w| - p
  {
    if p < |w| && IsDigit(w[p]) { DigitsAligned(w, p + 1); }
  }

  lemma ExponentAligned(w: bytes, p: nat)
    requires Aligned(w, p) && ExponentEnd(w, p).Got?
    ensures Aligned(w, ExponentEnd(w, p).at)
  {
    hide DigitsEnd;
    if IsExponent(w, p) { DigitsAligned(w, if IsSign(w, p + 1) then p + 2 else p + 1); }
  }

  lemma FractionAligned(w: bytes, p: nat)
    requires Aligned(w, p) && FractionEnd(w, p).Got?
    ensures Aligned(w, FractionEnd(w, p).at)
  {
    hide DigitsEnd, ExponentEnd;
    if At(w, p, 0x2E) {
      DigitsAligned(w, p + 1);
      ExponentAligned(w, DigitsEnd(w, p + 1));
    } else {
      ExponentAligned(w, p);
    }
  }

  lemma NumberAligned(w: bytes, p: nat)
    requires Aligned(w, p) && NumberEnd(w, p).Got?
    ensures Aligned(w, NumberEnd(w, p).at)
  {
    hide DigitsEnd, FractionEnd;
    var first := if At(w, p, MINUS) then p + 1 else p;
    DigitsAligned(w, first);
    FractionAligned(w, if At(w, first, 0x30) then first + 1 else DigitsEnd(w, first));
  }

  lemma {:induction false} StringAligned(w: bytes, p: nat, out: bytes)
    requires p <= |w| && StringFrom(w, p, out).Got?
    ensures Aligned(w, StringFrom(w, p, out).at)
    decreases |w| - p
  {
    hide EscapeAt;
    if w[p] == BACKSLASH {
      var escape := EscapeAt(w, p + 1);
      StringAligned(w, escape.at, out + escape.value);
    } else if w[p] != QUOTE {
      StringAligned(w, p + 1, out + [w[p]]);
    }
  }

  lemma AfterValueAligned(d: Document, s: State, event: Event)
    ensures AlignedState(d, AfterValue(s, event).1) <==> AlignedState(d, s)
  {
  }

  lemma ValueAligned(d: Document, s: State)
    requires Aligned(d.whole, s.position) && ValueAt(d, s).0 != Error
    ensures AlignedState(d, ValueAt(d, s).1)
  {
    hide NumberEnd, AsInt, SpaceEnd, StringFrom, Aligned, AfterValue, Integral, Slice;
    var p := SpaceEnd(d.whole, s.position);
    SpaceAligned(d.whole, s.position);
    var t := s.(position := p, start := p);
    var b := d.whole[p];
    if b == QUOTE {
      StringAligned(d.whole, p + 1, []);
      var read := StringAt(d, p);
      AfterValueAligned(d, t.(position := read.at, text := read.value), String);
    } else if b == MINUS || IsDigit(b) {
      NumberAligned(d.whole, p);
      var at := NumberEnd(d.whole, p).at;
      var text := Slice(d.whole, p, at);
      AfterValueAligned(d, t.(position := at, text := text, integer := if Integral(text) then AsInt(text) else None),
          Number);
    } else {
      WordsAligned(d, t);
    }
  }

  lemma WordsAligned(d: Document, s: State)
    requires s.start == s.position < |d.whole| && Aligned(d.whole, s.position)
    ensures Word(d.whole, s.position, TRUE) ==> AlignedState(d, AfterValue(s.(position := s.position + 4), True).1)
    ensures Word(d.whole, s.position, FALSE) ==> AlignedState(d, AfterValue(s.(position := s.position + 5), False).1)
    ensures Word(d.whole, s.position, NULL) ==> AlignedState(d, AfterValue(s.(position := s.position + 4), Null).1)
    ensures d.whole[s.position] < 0x80 ==> Aligned(d.whole, s.position + 1)
  {
    hide AfterValue;
    AfterValueAligned(d, s.(position := s.position + 4), True);
    AfterValueAligned(d, s.(position := s.position + 5), False);
    AfterValueAligned(d, s.(position := s.position + 4), Null);
    var p := s.position;
    if p + 4 <= |d.whole| { assert d.whole[p..p + 4][3] == d.whole[p + 3]; }
    if p + 5 <= |d.whole| { assert d.whole[p..p + 5][4] == d.whole[p + 4]; }
  }

  lemma KeyAligned(d: Document, s: State)
    requires AlignedState(d, s) && s.frames != [] && s.frames[|s.frames| - 1].Object?
    requires KeyNext(d, s).0 != Error
    ensures AlignedState(d, KeyNext(d, s).1)
  {
    hide SpaceEnd, StringFrom;
    StringAligned(d.whole, s.position + 1, []);
    SpaceAligned(d.whole, StringAt(d, s.position).at);
  }

  lemma MemberAligned(d: Document, s: State)
    requires AlignedState(d, s)
    requires s.frames != [] && (s.frames[|s.frames| - 1].Object? ==> s.frames[|s.frames| - 1].expectKey)
    requires MemberNext(d, s).0 != Error
    ensures AlignedState(d, MemberNext(d, s).1)
  {
    hide KeyNext, ValueAt, SpaceEnd, AfterValue;
    var n := |s.frames| - 1;
    var last := s.frames[n];
    if At(d.whole, s.position, if last.Array? then CLOSE_BRACKET else CLOSE_BRACE) {
      AfterValueAligned(d, s.(position := s.position + 1, frames := s.frames[..n]),
          if last.Array? then EndArray else EndObject);
    } else {
      if last.started { SpaceAligned(d.whole, s.position + 1); }
      var t := if last.started then s.(position := SpaceEnd(d.whole, s.position + 1)) else s;
      if last.Array? {
        ValueAligned(d, t.(frames := t.frames[..n] + [Array(last.index + 1, true)]));
      } else {
        KeyAligned(d, t);
      }
    }
  }

  /** Every event ends between two characters, and so does what a value starts
      after. */
  lemma NextAligned(d: Document, s: State)
    requires AlignedState(d, s) && Next(d, s).0 != Error
    ensures AlignedState(d, Next(d, s).1)
  {
    hide MemberNext, ValueAt, SpaceEnd;
    SpaceAligned(d.whole, s.position);
    var t := s.(position := SpaceEnd(d.whole, s.position));
    if !s.done {
      if t.frames == [] {
        if !t.rootSeen { ValueAligned(d, t.(rootSeen := true)); }
      } else if t.frames[|t.frames| - 1].Object? ==> t.frames[|t.frames| - 1].expectKey {
        MemberAligned(d, t);
      } else {
        ValueAligned(d, t);
      }
    }
  }
}
