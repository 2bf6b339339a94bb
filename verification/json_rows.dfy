/**
 Pretty JSON as its rows (json.rs): one for each value and each bracket of a
 container that is not empty, those inside a container one level deeper.
 */
module JsonRows {
  import opened Bytes
  import opened Json
  import opened JsonText
  import opened JsonValues
  import opened JsonWriter

  /** A line of a text, without the spaces it begins with. */
  datatype Row = Row(depth: nat, text: bytes)

  type rows = r: seq<Row> | r != [] witness [Row(0, [])]

  // ---------------------------------------------------------------------
  // The rows of a value
  // ---------------------------------------------------------------------

  /** The same rows with a comma after the last. */
  function Commaed(r: rows): rows {
    var n := |r| - 1;
    r[..n] + [Row(r[n].depth, r[n].text + [COMMA])]
  }

  /** And with a key before the first. */
  function Keyed(key: bytes, r: rows): rows { [Row(r[0].depth, key + [COLON, 0x20] + r[0].text)] + r[1..] }

  function RowsOf(v: Value, html: bool, depth: nat): rows {
    match v
    case ListValue(items) =>
      if items == [] then [Row(depth, [OPEN_BRACKET, CLOSE_BRACKET])]
      else [Row(depth, [OPEN_BRACKET])] + ItemRows(items, html, depth + 1) + [Row(depth, [CLOSE_BRACKET])]
    case ObjectValue(members) =>
      if members == [] then [Row(depth, [OPEN_BRACE, CLOSE_BRACE])]
      else [Row(depth, [OPEN_BRACE])] + MemberRows(members, html, depth + 1) + [Row(depth, [CLOSE_BRACE])]
    case _ => [Row(depth, TextOf(v, Style(false, html), 0))]
  }

  function ItemRows(items: seq<Value>, html: bool, depth: nat): rows
    requires items != []
  {
    var first := RowsOf(items[0], html, depth);
    if |items| == 1 then first else Commaed(first) + ItemRows(items[1..], html, depth)
  }

  function MemberRows(members: seq<Member>, html: bool, depth: nat): rows
    requires members != []
  {
    assert members[0].value < members[0];
    var first := Keyed(Quoted(members[0].key, html), RowsOf(members[0].value, html, depth));
    if |members| == 1 then first else Commaed(first) + MemberRows(members[1..], html, depth)
  }

  // ---------------------------------------------------------------------
  // Rows as text
  // ---------------------------------------------------------------------

  function NewLine(depth: nat): bytes { [0x0A] + Indent(depth) }

  /** The rows on lines of their own, each but the first after the spaces of
      its level, two for each. */
  function Render(r: rows): bytes {
    var n := |r| - 1;
    if n == 0 then r[0].text else Render(r[..n]) + (NewLine(r[n].depth) + r[n].text)
  }

  lemma {:induction false} RenderAdds(a: rows, b: rows)
    ensures Render(a + b) == Render(a) + (NewLine(b[0].depth) + Render(b))
    decreases |b|
  {
    hide Indent;
    var n := |b| - 1;
    assert (a + b)[..|a| + n] == a + b[..n] && (a + b)[|a| + n] == b[n];
    if n == 0 {
      assert a + b[..n] == a;
    } else {
      RenderAdds(a, b[..n]);
      Associates4(Render(a), NewLine(b[0].depth), Render(b[..n]), NewLine(b[n].depth) + b[n].text);
    }
  }

  lemma Associates4(a: bytes, b: bytes, c: bytes, d: bytes)
    ensures a + (b + c) + d == a + (b + (c + d))
  {
  }

  lemma RenderCommaed(r: rows)
    ensures Render(Commaed(r)) == Render(r) + [COMMA] && Commaed(r)[0].depth == r[0].depth
  {
    hide Indent;
    var n := |r| - 1;
    var c := Commaed(r);
    assert c[..n] == r[..n];
    if n > 0 {
      var line, text := NewLine(r[n].depth), r[n].text;
      assert Render(r[..n]) + (line + (text + [COMMA])) == Render(r[..n]) + (line + text) + [COMMA];
    }
  }

  lemma {:induction false} RenderKeyed(key: bytes, r: rows)
    ensures Render(Keyed(key, r)) == key + [COLON, 0x20] + Render(r) && Keyed(key, r)[0].depth == r[0].depth
    decreases |r|
  {
    hide NewLine;
    var n := |r| - 1;
    if n > 0 {
      hide Render;
      RenderKeyed(key, r[..n]);
      KeyedFront(key, r);
      RenderLast(Keyed(key, r));
      RenderLast(r);
      Regroup(key + [COLON, 0x20], Render(r[..n]), NewLine(r[n].depth) + r[n].text);
    }
  }

  lemma KeyedFront(key: bytes, r: rows)
    requires |r| > 1
    ensures var n := |r| - 1;
            |Keyed(key, r)| == |r| && Keyed(key, r)[..n] == Keyed(key, r[..n]) && Keyed(key, r)[n] == r[n]
  {
  }

  lemma RenderLast(r: rows)
    requires |r| > 1
    ensures var n := |r| - 1; Render(r) == Render(r[..n]) + (NewLine(r[n].depth) + r[n].text)
  {
  }

  lemma Regroup(a: bytes, b: bytes, c: bytes)
    ensures (a + b) + c == a + (b + c)
  {
  }

  // ---------------------------------------------------------------------
  // The pretty text is its rows
  // ---------------------------------------------------------------------

  function Pretty(html: bool): Style { Style(true, html) }

  lemma RowsFirst(v: Value, html: bool, depth: nat)
    ensures RowsOf(v, html, depth)[0].depth == depth
  {
  }

  /** The pretty text of a value is its rows. */
  lemma {:induction false} PrettyIsRows(v: Value, html: bool, depth: nat)
    ensures TextOf(v, Pretty(html), depth) == Render(RowsOf(v, html, depth))
    decreases v, 2
  {
    match v
    case ListValue(items) => ListIsRows(items, html, depth);
    case ObjectValue(members) => ObjectIsRows(members, html, depth);
    case _ =>
  }

  lemma {:induction false} ListIsRows(items: seq<Value>, html: bool, depth: nat)
    ensures TextOf(ListValue(items), Pretty(html), depth) == Render(RowsOf(ListValue(items), html, depth))
    decreases items, 1
  {
    hide Indent, ItemsText, ItemRows, Render;
    OneRow(depth, [OPEN_BRACKET]);
    OneRow(depth, [CLOSE_BRACKET]);
    OneRow(depth, [OPEN_BRACKET, CLOSE_BRACKET]);
    if items == [] {
      NoText(Pretty(html), depth);
    } else {
      ItemsAreRows(items, html, depth + 1, true);
      Surrounded(depth, [OPEN_BRACKET], ItemRows(items, html, depth + 1), [CLOSE_BRACKET]);
    }
  }

  lemma OneRow(depth: nat, text: bytes)
    ensures Render([Row(depth, text)]) == text
  {
  }

  lemma NoText(style: Style, depth: nat)
    ensures ItemsText([], style, depth + 1, true) == [] && MembersText([], style, depth + 1, true) == []
  {
  }

  lemma Surrounded(depth: nat, open: bytes, inside: rows, close: bytes)
    ensures Render([Row(depth, open)] + inside + [Row(depth, close)])
      == open + (NewLine(inside[0].depth) + Render(inside)) + NewLine(depth) + close
  {
    hide Indent, Render;
    var first, last := [Row(depth, open)], [Row(depth, close)];
    OneRow(depth, open);
    OneRow(depth, close);
    RenderAdds(first, inside);
    RenderAdds(first + inside, last);
  }

  lemma ItemsFirstRow(items: seq<Value>, html: bool, depth: nat)
    requires items != []
    ensures ItemRows(items, html, depth)[0].depth == depth
  {
    RowsFirst(items[0], html, depth);
  }

  lemma {:induction false} ItemsAreRows(items: seq<Value>, html: bool, depth: nat, first: bool)
    requires items != []
    ensures ItemRows(items, html, depth)[0].depth == depth
    ensures ItemsText(items, Pretty(html), depth, first)
      == (if first then [] else [COMMA]) + (NewLine(depth) + Render(ItemRows(items, html, depth)))
    decreases items, 0
  {
    hide Indent, TextOf, RowsOf, Render, NewLine, ItemsText, ItemRows, Between, Commaed;
    ItemsFirstRow(items, html, depth);
    PrettyIsRows(items[0], html, depth);
    BetweenIs(html, depth, first);
    var head := RowsOf(items[0], html, depth);
    ItemsUnfold(items, html, depth, first);
    if |items| == 1 {
      LastItem(if first then [] else [COMMA], NewLine(depth), Render(head));
    } else {
      var rest := ItemRows(items[1..], html, depth);
      ItemsAreRows(items[1..], html, depth, false);
      RenderCommaed(head);
      RenderAdds(Commaed(head), rest);
      MoreItems(if first then [] else [COMMA], NewLine(depth), Render(head), NewLine(depth) + Render(rest));
    }
  }

  lemma BetweenIs(html: bool, depth: nat, first: bool)
    ensures Between(Pretty(html), depth, first) == (if first then [] else [COMMA]) + NewLine(depth)
  {
  }

  lemma ItemsUnfold(items: seq<Value>, html: bool, depth: nat, first: bool)
    requires items != []
    ensures ItemsText(items, Pretty(html), depth, first) == Between(Pretty(html), depth, first)
            + TextOf(items[0], Pretty(html), depth) + ItemsText(items[1..], Pretty(html), depth, false)
    ensures |items| == 1 ==> ItemsText(items[1..], Pretty(html), depth, false) == []
    ensures ItemRows(items, html, depth) ==
            if |items| == 1 then RowsOf(items[0], html, depth)
            else Commaed(RowsOf(items[0], html, depth)) + ItemRows(items[1..], html, depth)
  {
    hide TextOf, RowsOf, Between, Commaed;
  }

  lemma LastItem(comma: bytes, line: bytes, text: bytes)
    ensures comma + line + text + [] == comma + (line + text)
  {
  }

  lemma MoreItems(comma: bytes, line: bytes, text: bytes, more: bytes)
    ensures comma + line + text + ([COMMA] + more) == comma + (line + (text + [COMMA] + more))
  {
  }

  lemma {:induction false} ObjectIsRows(members: seq<Member>, html: bool, depth: nat)
    ensures TextOf(ObjectValue(members), Pretty(html), depth) == Render(RowsOf(ObjectValue(members), html, depth))
    decreases members, 1
  {
    hide Indent, MembersText, MemberRows, Render;
    OneRow(depth, [OPEN_BRACE]);
    OneRow(depth, [CLOSE_BRACE]);
    OneRow(depth, [OPEN_BRACE, CLOSE_BRACE]);
    if members == [] {
      NoText(Pretty(html), depth);
    } else {
      MembersAreRows(members, html, depth + 1, true);
      Surrounded(depth, [OPEN_BRACE], MemberRows(members, html, depth + 1), [CLOSE_BRACE]);
    }
  }

  lemma MembersFirstRow(members: seq<Member>, html: bool, depth: nat)
    requires members != []
    ensures MemberRows(members, html, depth)[0].depth == depth
  {
    hide Quoted;
    RowsFirst(members[0].value, html, depth);
  }

  lemma {:induction false} MembersAreRows(members: seq<Member>, html: bool, depth: nat, first: bool)
    requires members != []
    ensures MemberRows(members, html, depth)[0].depth == depth
    ensures MembersText(members, Pretty(html), depth, first)
      == (if first then [] else [COMMA]) + (NewLine(depth) + Render(MemberRows(members, html, depth)))
    decreases members, 0
  {
    hide Indent, TextOf, RowsOf, Render, NewLine, MembersText, MemberRows, MemberText, Between, Commaed, Keyed;
    MembersFirstRow(members, html, depth);
    assert members[0].value < members[0];
    PrettyIsRows(members[0].value, html, depth);
    BetweenIs(html, depth, first);
    var head := KeyedRows(members[0], html, depth);
    MemberIsRows(members[0], html, depth);
    MembersUnfold(members, html, depth, first);
    if |members| == 1 {
      LastItem(if first then [] else [COMMA], NewLine(depth), Render(head));
    } else {
      var rest := MemberRows(members[1..], html, depth);
      MembersAreRows(members[1..], html, depth, false);
      RenderCommaed(head);
      RenderAdds(Commaed(head), rest);
      MoreItems(if first then [] else [COMMA], NewLine(depth), Render(head), NewLine(depth) + Render(rest));
    }
  }

  function KeyedRows(member: Member, html: bool, depth: nat): rows {
    Keyed(Quoted(member.key, html), RowsOf(member.value, html, depth))
  }

  lemma MemberIsRows(member: Member, html: bool, depth: nat)
    requires TextOf(member.value, Pretty(html), depth) == Render(RowsOf(member.value, html, depth))
    ensures MemberText(member, Pretty(html), depth) == Render(KeyedRows(member, html, depth))
  {
    hide TextOf, RowsOf, Render, Quoted, Keyed;
    RenderKeyed(Quoted(member.key, html), RowsOf(member.value, html, depth));
  }

  lemma MembersUnfold(members: seq<Member>, html: bool, depth: nat, first: bool)
    requires members != []
    ensures MembersText(members, Pretty(html), depth, first) == Between(Pretty(html), depth, first)
            + MemberText(members[0], Pretty(html), depth) + MembersText(members[1..], Pretty(html), depth, false)
    ensures |members| == 1 ==> MembersText(members[1..], Pretty(html), depth, false) == []
    ensures MemberRows(members, html, depth) ==
            if |members| == 1 then KeyedRows(members[0], html, depth)
            else Commaed(KeyedRows(members[0], html, depth)) + MemberRows(members[1..], html, depth)
  {
    hide MemberText, RowsOf, Between, Commaed, Keyed, Quoted;
  }

  /** A pretty writer puts out the rows of the value. */
  lemma WrittenInRows(mode: Mode, v: Value)
    requires mode.style.pretty && !mode.canonical
    ensures Finished(Run(mode, FRESH, Ops(v))) == Render(RowsOf(v, mode.style.html, 0))
  {
    hide Run, TextOf, RowsOf, Render;
    Written(mode, v);
    PrettyIsRows(v, mode.style.html, 0);
  }
}
