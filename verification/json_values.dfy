/**
 A value written with the writer's operations is its text, or canonical a tree
 that is written as the text of its canonical form (json.rs).
 */
module JsonValues {
  import opened Bytes
  import opened Json
  import opened JsonText
  import opened JsonWriter

  function Ops(v: Value): seq<Op> {
    match v
    case NullValue => [WriteWord(NULL)]
    case BoolValue(b) => [WriteWord(if b then TRUE else FALSE)]
    case NumberValue(n) => [WriteNumber(n)]
    case TextValue(s) => [WriteString(s)]
    case ListValue(items) => [WriteBegin(false)] + ItemOps(items) + [WriteEnd(false)]
    case ObjectValue(members) => [WriteBegin(true)] + MemberOps(members) + [WriteEnd(true)]
  }

  function ItemOps(items: seq<Value>): seq<Op> {
    if items == [] then [] else Ops(items[0]) + ItemOps(items[1..])
  }

  function MemberOps(members: seq<Member>): seq<Op> {
    if members == [] then [] else OneMemberOps(members[0]) + MemberOps(members[1..])
  }

  function OneMemberOps(member: Member): seq<Op> { [WriteKey(member.key)] + Ops(member.value) }

  function Run(mode: Mode, w: Writing, ops: seq<Op>): Writing
    decreases ops
  {
    if ops == [] then w else Run(mode, Applied(mode, w, ops[0]), ops[1..])
  }

  lemma {:induction false} RunsAdd(mode: Mode, w: Writing, a: seq<Op>, b: seq<Op>)
    ensures Run(mode, w, a + b) == Run(mode, Run(mode, w, a), b)
    decreases a
  {
    hide Applied;
    if a == [] {
      assert a + b == b;
    } else {
      RunsAdd(mode, Applied(mode, w, a[0]), a[1..], b);
      assert (a + b)[1..] == a[1..] + b;
    }
  }

  lemma RunsOne(mode: Mode, w: Writing, op: Op)
    ensures Run(mode, w, [op]) == Applied(mode, w, op)
  {
    hide Applied;
    assert Run(mode, Applied(mode, w, op), []) == Applied(mode, w, op);
    assert [op][1..] == [];
  }

  /** An operation, more, and another. */
  lemma RunsAround(mode: Mode, w: Writing, first: Op, ops: seq<Op>, last: Op)
    ensures Run(mode, w, [first] + ops + [last]) == Applied(mode, Run(mode, Applied(mode, w, first), ops), last)
  {
    hide Applied, Run;
    RunsAdd(mode, w, [first] + ops, [last]);
    RunsAdd(mode, w, [first], ops);
    RunsOne(mode, w, first);
    RunsOne(mode, Run(mode, Applied(mode, w, first), ops), last);
  }

  // ---------------------------------------------------------------------
  // Output as it comes
  // ---------------------------------------------------------------------

  /** Where a value may be: in a container, or nowhere. */
  predicate Inside(w: Writing) { w.open != [] && !w.open[|w.open| - 1].keyed }

  lemma {:induction false} ValueWrites(mode: Mode, w: Writing, v: Value)
    requires !mode.canonical
    ensures Run(mode, w, Ops(v)) == Put(Separated(mode, w), TextOf(v, mode.style, |w.open|))
    decreases v, 1
  {
    hide Run, Applied, Separated, Put;
    match v {
      case ListValue(items) => ListWrites(mode, w, items);
      case ObjectValue(members) => ObjectWrites(mode, w, members);
      case _ =>
        RunsOne(mode, w, Ops(v)[0]);
        ScalarWrites(mode, w, v);
    }
  }

  lemma ScalarWrites(mode: Mode, w: Writing, v: Value)
    requires !mode.canonical && !v.ListValue? && !v.ObjectValue?
    ensures Applied(mode, w, Ops(v)[0]) == Put(Separated(mode, w), TextOf(v, mode.style, |w.open|))
  {
    hide Separated, Put, Quoted, NumeralText;
  }

  /** What a container's state is after members have been written in it. */
  function Filled(w: Writing, text: bytes, members: bool): Writing
    requires w.open != []
  {
    var n := |w.open| - 1;
    Writing(w.out + text, w.open[..n] + [Open(w.open[n].members || members, false)], w.stack, w.root, w.pendingKey)
  }

  lemma FilledTwice(w: Writing, a: bytes, b: bytes, more: bool)
    requires w.open != []
    ensures Filled(Filled(w, a, true), b, more) == Filled(w, a + b, true)
  {
    assert w.out + a + b == w.out + (a + b);
  }

  lemma SeparatedFills(mode: Mode, w: Writing, text: bytes)
    requires Inside(w)
    ensures Put(Separated(mode, w), text) ==
            Filled(w, Between(mode.style, |w.open|, !w.open[|w.open| - 1].members) + text, true)
  {
    hide Between;
    assert w.out + Between(mode.style, |w.open|, !w.open[|w.open| - 1].members) + text
      == w.out + (Between(mode.style, |w.open|, !w.open[|w.open| - 1].members) + text);
  }

  lemma {:induction false} ItemsWrite(mode: Mode, w: Writing, items: seq<Value>)
    requires !mode.canonical && Inside(w)
    ensures Run(mode, w, ItemOps(items))
      == Filled(w, ItemsText(items, mode.style, |w.open|, !w.open[|w.open| - 1].members), items != [])
    decreases items, 0
  {
    hide Applied, Ops, TextOf, Between, Separated;
    var first := !w.open[|w.open| - 1].members;
    if items == [] {
      assert w.out + [] == w.out;
      assert w.open == w.open[..|w.open| - 1] + [w.open[|w.open| - 1]];
    } else {
      var text := TextOf(items[0], mode.style, |w.open|);
      RunsAdd(mode, w, Ops(items[0]), ItemOps(items[1..]));
      hide Run;
      ValueWrites(mode, w, items[0]);
      SeparatedFills(mode, w, text);
      var next := Filled(w, Between(mode.style, |w.open|, first) + text, true);
      ItemsWrite(mode, next, items[1..]);
      FilledTwice(w, Between(mode.style, |w.open|, first) + text, ItemsText(items[1..], mode.style, |w.open|, false),
          items[1..] != []);
    }
  }

  lemma {:induction false} MembersWrite(mode: Mode, w: Writing, members: seq<Member>)
    requires !mode.canonical && Inside(w)
    ensures Run(mode, w, MemberOps(members))
      == Filled(w, MembersText(members, mode.style, |w.open|, !w.open[|w.open| - 1].members), members != [])
    decreases members, 0
  {
    hide Applied, OneMemberOps, MemberText, Between, Separated;
    var first := !w.open[|w.open| - 1].members;
    if members == [] {
      assert w.out + [] == w.out;
      assert w.open == w.open[..|w.open| - 1] + [w.open[|w.open| - 1]];
    } else {
      var text := MemberText(members[0], mode.style, |w.open|);
      RunsAdd(mode, w, OneMemberOps(members[0]), MemberOps(members[1..]));
      hide Run;
      OneMemberWrites(mode, w, members[0]);
      var next := Filled(w, Between(mode.style, |w.open|, first) + text, true);
      MembersWrite(mode, next, members[1..]);
      FilledTwice(w, Between(mode.style, |w.open|, first) + text,
          MembersText(members[1..], mode.style, |w.open|, false), members[1..] != []);
    }
  }

  lemma {:induction false} OneMemberWrites(mode: Mode, w: Writing, member: Member)
    requires !mode.canonical && Inside(w)
    ensures Run(mode, w, OneMemberOps(member))
      == Filled(w, Between(mode.style, |w.open|, !w.open[|w.open| - 1].members) + MemberText(member, mode.style,
          |w.open|), true)
    decreases member
  {
    hide Ops, TextOf, Between, Quoted, Colon, Run;
    var between := Between(mode.style, |w.open|, !w.open[|w.open| - 1].members);
    var key := Quoted(member.key, mode.style.html) + Colon(mode.style);
    var text := TextOf(member.value, mode.style, |w.open|);
    RunsAdd(mode, w, [WriteKey(member.key)], Ops(member.value));
    RunsOne(mode, w, WriteKey(member.key));
    var keyed := Applied(mode, w, WriteKey(member.key));
    assert |keyed.open| == |w.open|;
    ValueWrites(mode, keyed, member.value);
    assert w.out + between + key + text == w.out + (between + (key + text));
  }

  lemma {:induction false} ListWrites(mode: Mode, w: Writing, items: seq<Value>)
    requires !mode.canonical
    ensures Run(mode, w, Ops(ListValue(items))) ==
            Put(Separated(mode, w), TextOf(ListValue(items), mode.style, |w.open|))
    decreases items, 1
  {
    hide Run, ItemsText, Line;
    RunsAround(mode, w, WriteBegin(false), ItemOps(items), WriteEnd(false));
    var begun := Begun(mode, w, false);
    ItemsWrite(mode, begun, items);
    ContainerCloses(mode, w, ItemsText(items, mode.style, |w.open| + 1, true), items != [], false);
  }

  /** A container closes after its members, if it has any. */
  lemma ContainerCloses(mode: Mode, w: Writing, inside: bytes, some: bool, isObject: bool)
    requires !mode.canonical
    ensures Begun(mode, w, isObject).open != []
    ensures Ended(mode, Filled(Begun(mode, w, isObject), inside, some), isObject)
      == Put(Separated(mode, w),
        [if isObject then OPEN_BRACE else OPEN_BRACKET] + inside + (if some then Line(mode.style, |w.open|) else [])
        + [if isObject then CLOSE_BRACE else CLOSE_BRACKET])
  {
    hide Line, Separated;
    ContainerClosesTo(mode, Separated(mode, w), inside, some, isObject);
    SameOpen(mode, w);
  }

  lemma SameOpen(mode: Mode, w: Writing)
    ensures |Separated(mode, w).open| == |w.open|
  {
    hide JsonText.Between;
  }

  lemma ContainerClosesTo(mode: Mode, s: Writing, inside: bytes, some: bool, isObject: bool)
    requires !mode.canonical
    ensures var open: bytes := [if isObject then OPEN_BRACE else OPEN_BRACKET];
            var begun := Put(s, open).(open := s.open + [Open(false, false)]);
            Ended(mode, Filled(begun, inside, some), isObject)
              == Put(s, open + inside + (if some then Line(mode.style, |s.open|) else [])
                        + [if isObject then CLOSE_BRACE else CLOSE_BRACKET])
  {
    hide Line;
    var open: bytes := [if isObject then OPEN_BRACE else OPEN_BRACKET];
    var line := if some then Line(mode.style, |s.open|) else [];
    var close: bytes := [if isObject then CLOSE_BRACE else CLOSE_BRACKET];
    var begun := s.open + [Open(false, false)];
    assert begun[..|begun| - 1] == s.open;
    var full := s.open + [Open(some, false)];
    assert full[..|full| - 1] == s.open;
    assert s.out + open + inside + (line + close) == s.out + (open + inside + line + close);
  }

  lemma {:induction false} ObjectWrites(mode: Mode, w: Writing, members: seq<Member>)
    requires !mode.canonical
    ensures Run(mode, w, Ops(ObjectValue(members))) ==
            Put(Separated(mode, w), TextOf(ObjectValue(members), mode.style, |w.open|))
    decreases members, 1
  {
    hide Run, MembersText, Line;
    RunsAround(mode, w, WriteBegin(true), MemberOps(members), WriteEnd(true));
    var begun := Begun(mode, w, true);
    MembersWrite(mode, begun, members);
    ContainerCloses(mode, w, MembersText(members, mode.style, |w.open| + 1, true), members != [], true);
  }

  /** Written as it comes, a value is its text. */
  lemma Written(mode: Mode, v: Value)
    requires !mode.canonical
    ensures Finished(Run(mode, FRESH, Ops(v))) == TextOf(v, mode.style, 0)
  {
    hide Run, TextOf;
    ValueWrites(mode, FRESH, v);
    assert [] + TextOf(v, mode.style, 0) + [] == TextOf(v, mode.style, 0);
  }
}
