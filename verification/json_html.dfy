/**
 JSON that is safe inside a page (json.rs): what `htmlSafe` escapes, and that
 nothing of it is left in what is written.
 */
module JsonHtml {
  import opened Bytes
  import opened Json
  import opened JsonText
  import opened JsonValues
  import opened JsonWriter

  /** `<`, `>` and `&`. */
  predicate Markup(b: byte) { b == 0x3C || b == 0x3E || b == 0x26 }

  /** Whether U+2028 or U+2029 is at `i`. */
  predicate SeparatorAt(s: bytes, i: nat) {
    i + 2 < |s| && s[i] == 0xE2 && s[i + 1] == 0x80 && (s[i + 2] == 0xA8 || s[i + 2] == 0xA9)
  }

  /** No markup and no line separator anywhere. */
  ghost predicate Safe(s: bytes) {
    && (forall i :: 0 <= i < |s| ==> !Markup(s[i]))
    && (forall i :: 0 <= i < |s| ==> !SeparatorAt(s, i))
  }

  predicate AsciiFirst(s: bytes) { s == [] || s[0] < 0x80 }

  /** Safe texts are safe together when the second begins with an ASCII byte. */
  lemma SafeAppends(a: bytes, b: bytes)
    requires Safe(a) && Safe(b) && AsciiFirst(b)
    ensures Safe(a + b)
  {
    var s := a + b;
    forall i | 0 <= i < |s|
      ensures !SeparatorAt(s, i)
    {
      if i < |a| {
        assert !SeparatorAt(a, i);
      } else {
        assert !SeparatorAt(b, i - |a|);
      }
    }
  }

  lemma SafeAscii(s: bytes)
    requires forall i :: 0 <= i < |s| ==> s[i] < 0x80 && !Markup(s[i])
    ensures Safe(s) && AsciiFirst(s)
  {
  }

  // ---------------------------------------------------------------------
  // Strings
  // ---------------------------------------------------------------------

  lemma EscapeIsSafe(s: bytes, html: bool)
    requires s != [] && EscapeOf(s, html).Some?
    ensures var escape := EscapeOf(s, html).value.0;
            Safe(escape) && escape != [] && escape[0] == BACKSLASH && forall i :: 0 <= i < |escape| ==> escape[i] < 0x80
  {
    var escape := EscapeOf(s, html).value.0;
    SafeAscii(escape);
  }

  /** A byte goes as it is unless a string must not have it, or it is markup or
      begins a line separator and the page is to be safe from it. */
  lemma EscapedExactly(s: bytes, html: bool)
    requires s != []
    ensures EscapeOf(s, html).Some? <==>
            s[0] < 0x20 || s[0] == QUOTE || s[0] == BACKSLASH || (html && (Markup(s[0]) || SeparatorAt(s, 0)))
    ensures EscapeOf(s, html) == None ==> QuotedBody(s, html) == [s[0]] + QuotedBody(s[1..], html)
  {
  }

  /** What begins a quoted text was at its start, or is a backslash. */
  lemma BodyStarts(s: bytes)
    requires QuotedBody(s, true) != []
    ensures var body := QuotedBody(s, true);
            s != [] && (body[0] == BACKSLASH || (body[0] == s[0] && body[1..] == QuotedBody(s[1..], true)))
  {
    if EscapeOf(s, true).Some? { EscapeIsSafe(s, true); }
  }

  lemma {:induction false} BodyIsSafe(s: bytes)
    ensures Safe(QuotedBody(s, true))
    decreases |s|
  {
    hide EscapeOf, Safe;
    if s == [] {
      SafeAscii([]);
    } else if EscapeOf(s, true).Some? {
      var (escape, length) := EscapeOf(s, true).value;
      EscapedLength(s);
      EscapeIsSafe(s, true);
      BodyIsSafe(s[length..]);
      EscapeFirst(escape, s[length..]);
    } else {
      BodyIsSafe(s[1..]);
      PlainFirst(s);
    }
  }

  lemma EscapedLength(s: bytes)
    requires s != [] && EscapeOf(s, true).Some?
    ensures 0 < EscapeOf(s, true).value.1 <= |s|
  {
  }

  /** After an escape nothing joins what follows into a separator. */
  lemma EscapeFirst(escape: bytes, rest: bytes)
    requires Safe(escape) && Safe(QuotedBody(rest, true)) && forall i :: 0 <= i < |escape| ==> escape[i] < 0x80
    ensures Safe(escape + QuotedBody(rest, true))
  {
    hide QuotedBody;
    var body := QuotedBody(rest, true);
    var s := escape + body;
    forall i | 0 <= i < |s|
      ensures !SeparatorAt(s, i)
    {
      if i >= |escape| { assert !SeparatorAt(body, i - |escape|); }
    }
  }

  /** A byte that goes as it is does not begin a separator. */
  lemma PlainFirst(s: bytes)
    requires s != [] && EscapeOf(s, true) == None && Safe(QuotedBody(s[1..], true))
    ensures Safe([s[0]] + QuotedBody(s[1..], true))
  {
    hide QuotedBody;
    EscapedExactly(s, true);
    var body := QuotedBody(s[1..], true);
    var t := [s[0]] + body;
    if SeparatorAt(t, 0) {
      BodyStarts(s[1..]);
      BodyStarts(s[2..]);
    }
    forall i | 0 <= i < |t|
      ensures !SeparatorAt(t, i)
    {
      if i > 0 { assert !SeparatorAt(body, i - 1); }
    }
  }

  lemma QuotedIsSafe(s: bytes)
    ensures Safe(Quoted(s, true)) && AsciiFirst(Quoted(s, true))
  {
    hide QuotedBody, Safe;
    BodyIsSafe(s);
    SafeAscii([QUOTE]);
    EscapeFirst([QUOTE], s);
    assert [QUOTE] + QuotedBody(s, true) + [QUOTE] == ([QUOTE] + QuotedBody(s, true)) + [QUOTE];
    SafeAppends([QUOTE] + QuotedBody(s, true), [QUOTE]);
  }

  // ---------------------------------------------------------------------
  // Values
  // ---------------------------------------------------------------------

  lemma NumeralIsSafe(n: numeral)
    ensures Safe(NumeralText(n)) && AsciiFirst(NumeralText(n)) && NumeralText(n) != []
  {
    SafeAscii(NumeralText(n));
  }

  lemma BetweenIsSafe(style: Style, depth: nat, first: bool)
    ensures Safe(Between(style, depth, first)) && AsciiFirst(Between(style, depth, first))
    ensures Safe(Line(style, depth)) && AsciiFirst(Line(style, depth))
    ensures Safe(Colon(style)) && AsciiFirst(Colon(style))
  {
    hide Safe;
    SafeAscii(Between(style, depth, first));
    SafeAscii(Line(style, depth));
    SafeAscii(Colon(style));
  }

  lemma ThreeSafe(a: bytes, b: bytes, c: bytes)
    requires Safe(a) && Safe(b) && Safe(c) && AsciiFirst(a) && AsciiFirst(b) && AsciiFirst(c)
    ensures Safe(a + b + c) && AsciiFirst(a + b + c)
  {
    hide Safe;
    SafeAppends(a, b);
    SafeAppends(a + b, c);
  }

  /** The text of any value, at any depth, is safe inside a page. */
  lemma {:induction false} TextIsSafe(v: Value, style: Style, depth: nat)
    requires style.html
    ensures Safe(TextOf(v, style, depth)) && AsciiFirst(TextOf(v, style, depth))
    decreases v, 1
  {
    hide Safe, Quoted, NumeralText, Between, Line, AsciiFirst, TextOf;
    WordsAreSafe(style, depth);
    match v
    case NullValue => ScalarText(v, style, depth);
    case BoolValue(_) => ScalarText(v, style, depth);
    case NumberValue(n) =>
      ScalarText(v, style, depth);
      NumeralIsSafe(n);
    case TextValue(s) =>
      ScalarText(v, style, depth);
      QuotedIsSafe(s);
    case ListValue(items) => ListIsSafe(items, style, depth);
    case ObjectValue(members) => ObjectIsSafe(members, style, depth);
  }

  lemma ScalarText(v: Value, style: Style, depth: nat)
    requires style.html && !v.ListValue? && !v.ObjectValue?
    ensures TextOf(v, style, depth) ==
            match v
            case NullValue => NULL
            case BoolValue(b) => if b then TRUE else FALSE
            case NumberValue(n) => NumeralText(n)
            case TextValue(s) => Quoted(s, true)
            case _ => []
  {
  }

  lemma WordsAreSafe(style: Style, depth: nat)
    ensures Safe(NULL) && Safe(TRUE) && Safe(FALSE) && AsciiFirst(NULL) && AsciiFirst(TRUE) && AsciiFirst(FALSE)
    ensures Safe([OPEN_BRACKET]) && Safe([CLOSE_BRACKET]) && Safe([OPEN_BRACE]) && Safe([CLOSE_BRACE]) && Safe([])
    ensures AsciiFirst([OPEN_BRACKET]) && AsciiFirst([CLOSE_BRACKET]) && AsciiFirst([OPEN_BRACE])
    ensures AsciiFirst([CLOSE_BRACE]) && AsciiFirst([])
  {
  }

  lemma {:induction false} ListIsSafe(items: seq<Value>, style: Style, depth: nat)
    requires style.html
    ensures Safe(TextOf(ListValue(items), style, depth)) && AsciiFirst(TextOf(ListValue(items), style, depth))
    decreases items, 1
  {
    hide Safe, Line, AsciiFirst, ItemsText;
    ItemsAreSafe(items, style, depth + 1, true);
    WordsAreSafe(style, depth);
    BetweenIsSafe(style, depth, true);
    var line := if items == [] then [] else Line(style, depth);
    ThreeSafe([OPEN_BRACKET], ItemsText(items, style, depth + 1, true), line);
    ThreeSafe([OPEN_BRACKET] + ItemsText(items, style, depth + 1, true) + line, [CLOSE_BRACKET], []);
    assert [OPEN_BRACKET] + ItemsText(items, style, depth + 1, true) + line + [CLOSE_BRACKET] + []
      == [OPEN_BRACKET] + ItemsText(items, style, depth + 1, true) + line + [CLOSE_BRACKET];
  }

  lemma {:induction false} ItemsAreSafe(items: seq<Value>, style: Style, depth: nat, first: bool)
    requires style.html
    ensures Safe(ItemsText(items, style, depth, first)) && AsciiFirst(ItemsText(items, style, depth, first))
    decreases items, 0
  {
    hide Safe, Between, AsciiFirst, TextOf;
    if items == [] {
      WordsAreSafe(style, depth);
    } else {
      BetweenIsSafe(style, depth, first);
      TextIsSafe(items[0], style, depth);
      ItemsAreSafe(items[1..], style, depth, false);
      ThreeSafe(Between(style, depth, first), TextOf(items[0], style, depth),
          ItemsText(items[1..], style, depth, false));
    }
  }

  lemma {:induction false} ObjectIsSafe(members: seq<Member>, style: Style, depth: nat)
    requires style.html
    ensures Safe(TextOf(ObjectValue(members), style, depth)) && AsciiFirst(TextOf(ObjectValue(members), style, depth))
    decreases members, 1
  {
    hide Safe, Line, AsciiFirst, MembersText;
    MembersAreSafe(members, style, depth + 1, true);
    WordsAreSafe(style, depth);
    BetweenIsSafe(style, depth, true);
    var line := if members == [] then [] else Line(style, depth);
    ThreeSafe([OPEN_BRACE], MembersText(members, style, depth + 1, true), line);
    ThreeSafe([OPEN_BRACE] + MembersText(members, style, depth + 1, true) + line, [CLOSE_BRACE], []);
    assert [OPEN_BRACE] + MembersText(members, style, depth + 1, true) + line + [CLOSE_BRACE] + []
      == [OPEN_BRACE] + MembersText(members, style, depth + 1, true) + line + [CLOSE_BRACE];
  }

  lemma {:induction false} MembersAreSafe(members: seq<Member>, style: Style, depth: nat, first: bool)
    requires style.html
    ensures Safe(MembersText(members, style, depth, first)) && AsciiFirst(MembersText(members, style, depth, first))
    decreases members, 0
  {
    hide Safe, Between, AsciiFirst, TextOf, Quoted, Colon;
    if members == [] {
      WordsAreSafe(style, depth);
    } else {
      var member := members[0];
      assert member.value < member;
      BetweenIsSafe(style, depth, first);
      QuotedIsSafe(member.key);
      TextIsSafe(member.value, style, depth);
      MembersAreSafe(members[1..], style, depth, false);
      ThreeSafe(Quoted(member.key, true), Colon(style), TextOf(member.value, style, depth));
      ThreeSafe(Between(style, depth, first), MemberText(member, style, depth),
                MembersText(members[1..], style, depth, false));
    }
  }

  /** Whatever a writer that is to be safe inside a page puts out is. */
  lemma WrittenIsSafe(mode: Mode, v: Value)
    requires mode.style.html && !mode.canonical
    ensures Safe(Finished(Run(mode, FRESH, Ops(v))))
  {
    hide Run, Safe, TextOf;
    Written(mode, v);
    TextIsSafe(v, mode.style, 0);
  }

  /** Without it, markup and line separators go as they are. */
  lemma MarkupGoesAsItIs(s: bytes)
    requires s != [] && (Markup(s[0]) || s[0] >= 0x80)
    ensures QuotedBody(s, false) == [s[0]] + QuotedBody(s[1..], false)
  {
    EscapedExactly(s, false);
  }
}
