/** The JSON text of a value: compact, pretty or safe inside a page (json.rs). */
module JsonText {
  import opened Bytes
  import opened Json
  import opened Decimal
  import Utf8

  // ---------------------------------------------------------------------
  // Values
  // ---------------------------------------------------------------------

  datatype Exponent = Exponent(mark: byte, sign: bytes, digits: bytes)

  /** A number as RFC 8259, section 6, writes it. */
  datatype Numeral = Numeral(negative: bool, whole: bytes, fraction: bytes, exponent: Option<Exponent>)

  predicate IsNumeral(n: Numeral) {
    && n.whole != [] && AllDigits(n.whole) && (n.whole[0] == 0x30 ==> |n.whole| == 1)
    && AllDigits(n.fraction)
    && (n.exponent.Some? ==> IsExponentPart(n.exponent.value))
  }

  predicate IsExponentPart(e: Exponent) {
    && (e.mark == 0x65 || e.mark == 0x45)
    && (e.sign == [] || e.sign == [0x2B] || e.sign == [MINUS])
    && e.digits != [] && AllDigits(e.digits)
  }

  type numeral = n: Numeral | IsNumeral(n) witness Numeral(false, [0x30], [], None)

  type text = s: bytes | Utf8.Valid(s) witness []

  datatype Value =
    | NullValue
    | BoolValue(bool)
    | NumberValue(number: numeral)
    | TextValue(text: text)
    | ListValue(items: seq<Value>)
    | ObjectValue(members: seq<Member>)

  datatype Member = Member(key: text, value: Value)

  function NumeralText(n: numeral): bytes {
    (if n.negative then [MINUS] else []) + n.whole + FractionText(n.fraction) + ExponentText(n.exponent)
  }

  function FractionText(fraction: bytes): bytes { if fraction == [] then [] else [0x2E] + fraction }

  function ExponentText(exponent: Option<Exponent>): bytes {
    match exponent
    case None => []
    case Some(e) => [e.mark] + e.sign + e.digits
  }

  // ---------------------------------------------------------------------
  // Strings
  // ---------------------------------------------------------------------

  function HexLow(n: nat): byte
    requires n < 16
  {
    if n < 10 then 0x30 + n else 0x57 + n
  }

  /** An escape of four digits. */
  function UnicodeEscape(code: nat): bytes
    requires code < 0x1_0000
  {
    [BACKSLASH, 0x75, HexLow(code / 0x1000), HexLow(code / 0x100 % 0x10), HexLow(code / 0x10 % 0x10),
        HexLow(code % 0x10)]
  }

  /** The two separators that are line ends in JavaScript. */
  predicate LineSeparator(s: bytes) {
    |s| >= 3 && s[0] == 0xE2 && s[1] == 0x80 && (s[2] == 0xA8 || s[2] == 0xA9)
  }

  /** The escape that the start of a text needs, and of how many bytes; none
      for a byte that goes as it is. */
  function EscapeOf(s: bytes, html: bool): Option<(bytes, nat)>
    requires s != []
  {
    var b := s[0];
    if b == QUOTE then Some(([BACKSLASH, QUOTE], 1))
    else if b == BACKSLASH then Some(([BACKSLASH, BACKSLASH], 1))
    else if b == 0x0A then Some(([BACKSLASH, 0x6E], 1))
    else if b == 0x0D then Some(([BACKSLASH, 0x72], 1))
    else if b == 0x09 then Some(([BACKSLASH, 0x74], 1))
    else if b == 0x08 then Some(([BACKSLASH, 0x62], 1))
    else if b == 0x0C then Some(([BACKSLASH, 0x66], 1))
    else if b < 0x20 then Some((UnicodeEscape(b), 1))
    else if html && (b == 0x3C || b == 0x3E || b == 0x26) then Some((UnicodeEscape(b), 1))
    else if html && LineSeparator(s) then Some((UnicodeEscape(if s[2] == 0xA8 then 0x2028 else 0x2029), 3))
    else None
  }

  /** The inside of a string. */
  function QuotedBody(s: bytes, html: bool): bytes {
    if s == [] then []
    else
      match EscapeOf(s, html)
      case Some((escape, length)) => escape + QuotedBody(s[length..], html)
      case None => [s[0]] + QuotedBody(s[1..], html)
  }

  /** The string a text is written as; `html` escapes what a page could take for
      markup. */
  function Quoted(s: bytes, html: bool): bytes { [QUOTE] + QuotedBody(s, html) + [QUOTE] }

  // ---------------------------------------------------------------------
  // Texts of values
  // ---------------------------------------------------------------------

  datatype Style = Style(pretty: bool, html: bool)

  function Indent(depth: nat): (s: bytes)
    ensures |s| == 2 * depth && forall i :: 0 <= i < |s| ==> s[i] == 0x20
  {
    if depth == 0 then [] else Indent(depth - 1) + [0x20, 0x20]
  }

  /** A new line inside so many containers, when the text is pretty. */
  function Line(style: Style, depth: nat): bytes { if style.pretty then [0x0A] + Indent(depth) else [] }

  function Colon(style: Style): bytes { if style.pretty then [COLON, 0x20] else [COLON] }

  /** What comes before a member of a container: a comma but for the first, and
      a new line. */
  function Between(style: Style, depth: nat, first: bool): bytes {
    (if first then [] else [COMMA]) + Line(style, depth)
  }

  function TextOf(v: Value, style: Style, depth: nat): bytes {
    match v
    case NullValue => NULL
    case BoolValue(b) => if b then TRUE else FALSE
    case NumberValue(n) => NumeralText(n)
    case TextValue(s) => Quoted(s, style.html)
    case ListValue(items) =>
      [OPEN_BRACKET] + ItemsText(items, style, depth + 1, true) + (if items == [] then [] else Line(style, depth))
          + [CLOSE_BRACKET]
    case ObjectValue(members) =>
      [OPEN_BRACE] + MembersText(members, style, depth + 1, true)
          + (if members == [] then [] else Line(style, depth)) + [CLOSE_BRACE]
  }

  function ItemsText(items: seq<Value>, style: Style, depth: nat, first: bool): bytes {
    if items == [] then []
    else Between(style, depth, first) + TextOf(items[0], style, depth) + ItemsText(items[1..], style, depth, false)
  }

  function MembersText(members: seq<Member>, style: Style, depth: nat, first: bool): bytes {
    if members == [] then []
    else
      Between(style, depth, first) + MemberText(members[0], style, depth)
      + MembersText(members[1..], style, depth, false)
  }

  function MemberText(member: Member, style: Style, depth: nat): bytes {
    Quoted(member.key, style.html) + Colon(style) + TextOf(member.value, style, depth)
  }

  // ---------------------------------------------------------------------
  // Quoting in place
  // ---------------------------------------------------------------------

  /** Quotes a text: the runs that need no escape go in whole. */
  method Quote(out: bytes, s: bytes, html: bool) returns (grown: bytes)
    ensures grown == out + Quoted(s, html)
  {
    hide QuotedBody, EscapeOf;
    grown := out + [QUOTE];
    var run, at := 0, 0;
    assert s[0..] == s;
    while at < |s|
      invariant 0 <= run <= at <= |s|
      invariant grown + s[run..at] + QuotedBody(s[at..], html) == out + [QUOTE] + QuotedBody(s, html)
    {
      BodyStep(s, at, html);
      match EscapeOf(s[at..], html) {
        case None =>
          assert s[run..at + 1] == s[run..at] + [s[at]];
          Regroup(grown, s[run..at], [s[at]], QuotedBody(s[at + 1..], html));
          at := at + 1;
        case Some((escape, length)) =>
          Regroup(grown, s[run..at], escape, QuotedBody(s[at + length..], html));
          grown := grown + s[run..at] + escape;
          at := at + length;
          run := at;
          assert s[run..at] == [];
      }
    }
    Closing(grown, s, run, out, html);
    grown := grown + s[run..] + [QUOTE];
  }

  lemma BodyStep(s: bytes, at: nat, html: bool)
    requires at < |s|
    ensures match EscapeOf(s[at..], html)
      case Some((escape, length)) => at + length <= |s| && length > 0
          && QuotedBody(s[at..], html) == escape + QuotedBody(s[at + length..], html)
      case None => QuotedBody(s[at..], html) == [s[at]] + QuotedBody(s[at + 1..], html)
  {
    var rest := s[at..];
    match EscapeOf(rest, html)
    case Some((_, length)) => assert rest[length..] == s[at + length..];
    case None => assert rest[1..] == s[at + 1..];
  }

  lemma Closing(grown: bytes, s: bytes, run: nat, out: bytes, html: bool)
    requires run <= |s| && grown + s[run..|s|] + QuotedBody(s[|s|..], html) == out + [QUOTE] + QuotedBody(s, html)
    ensures grown + s[run..] + [QUOTE] == out + Quoted(s, html)
  {
    hide QuotedBody;
    assert QuotedBody(s[|s|..], html) == [] by { NoBody(s[|s|..], html); }
    assert grown + s[run..] == out + [QUOTE] + QuotedBody(s, html);
  }

  lemma NoBody(s: bytes, html: bool)
    requires s == []
    ensures QuotedBody(s, html) == []
  {
  }

  lemma Regroup(a: bytes, b: bytes, c: bytes, d: bytes)
    ensures a + b + (c + d) == a + (b + c) + d == (a + b + c) + [] + d
  {
  }

  /** The decimal digits of an `Int`, written from the end of a buffer. */
  method DecimalDigits(value: int) returns (digits: bytes)
    requires -0x8000_0000_0000_0000 <= value < 0x8000_0000_0000_0000
    ensures digits == if value < 0 then [MINUS] + Digits(-value) else Digits(value)
  {
    hide Digits;
    var buffer := new byte[20](_ => 0);
    var whole: nat := if value < 0 then -value else value;
    var magnitude := whole;
    FewDigits(whole);
    var at := 20;
    assert buffer[at..] == [];
    while true
      invariant 1 < at <= 20 && |Digits(magnitude)| < at
      invariant Digits(whole) == Digits(magnitude) + buffer[at..]
      decreases magnitude, at
    {
      at := at - 1;
      ghost var was := buffer[at + 1..];
      buffer[at] := 0x30 + magnitude % 10;
      assert buffer[at..] == [0x30 + magnitude % 10] + was;
      LastDigit(magnitude, was);
      magnitude := magnitude / 10;
      if magnitude == 0 { break; }
    }
    if value < 0 {
      at := at - 1;
      ghost var was := buffer[at + 1..];
      buffer[at] := MINUS;
      assert buffer[at..] == [MINUS] + was;
    }
    digits := buffer[at..];
  }

  lemma LastDigit(n: nat, rest: bytes)
    ensures Digits(n) + rest == (if n < 10 then [] else Digits(n / 10)) + ([0x30 + n % 10] + rest)
    ensures |Digits(n)| == 1 + if n < 10 then 0 else |Digits(n / 10)|
  {
    if n >= 10 { assert Digits(n / 10) + [0x30 + n % 10] + rest == Digits(n / 10) + ([0x30 + n % 10] + rest); }
  }

  /** No magnitude of an `Int` has more than 19 digits. */
  lemma FewDigits(n: nat)
    requires n <= 0x8000_0000_0000_0000
    ensures |Digits(n)| <= 19
  {
    assert Pow10(6) == 1_000_000;
    assert Pow10(12) == 1_000_000_000_000;
    assert Pow10(16) == 10_000_000_000_000_000;
    assert Pow10(19) == 10_000_000_000_000_000_000;
    DigitsLength(n, 19);
  }
}
