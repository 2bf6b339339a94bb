/**
 Canonical JSON does not depend on the order members came in (json.rs; RFC
 8785, section 3.2.3).
 */
module JsonCanonical {
  import opened Bytes
  import opened Json
  import opened JsonText
  import opened JsonValues
  import opened JsonWriter
  import opened Order
  import Utf8

  const PLAIN := Style(false, false)

  function MemberUnits(member: JsonText.Member): seq<nat> { Utf8.Utf16(member.key) }

  /** The same value with numbers as doubles and members in the order of their
      keys' UTF-16 code units. */
  function Canonical(mode: Mode, v: Value): Value {
    match v
    case NumberValue(n) => (match mode.double(n) case Some(m) => NumberValue(m) case None => NullValue)
    case ListValue(items) => ListValue(CanonicalItems(mode, items))
    case ObjectValue(members) => ObjectValue(Sort(MemberUnits, CanonicalMembers(mode, members)))
    case _ => v
  }

  function CanonicalItems(mode: Mode, items: seq<Value>): (r: seq<Value>)
    ensures |r| == |items| && forall i :: 0 <= i < |items| ==> r[i] == Canonical(mode, items[i])
  {
    if items == [] then [] else [Canonical(mode, items[0])] + CanonicalItems(mode, items[1..])
  }

  function CanonicalMembers(mode: Mode, members: seq<JsonText.Member>): (r: seq<JsonText.Member>)
    ensures |r| == |members| && forall i :: 0 <= i < |members| ==> r[i] == CanonicalMember(mode, members[i])
  {
    if members == [] then [] else [CanonicalMember(mode, members[0])] + CanonicalMembers(mode, members[1..])
  }

  function CanonicalMember(mode: Mode, member: JsonText.Member): JsonText.Member {
    JsonText.Member(member.key, Canonical(mode, member.value))
  }

  // ---------------------------------------------------------------------
  // The tree of a value
  // ---------------------------------------------------------------------

  function TreeOf(mode: Mode, v: Value): Tree {
    match v
    case NullValue => Leaf(NULL)
    case BoolValue(b) => Leaf(if b then TRUE else FALSE)
    case NumberValue(n) => Leaf(NumberText(mode, n))
    case TextValue(s) => Leaf(Quoted(s, false))
    case ListValue(items) => ArrayTree(TreesOf(mode, items))
    case ObjectValue(members) => ObjectTree(BranchesOf(mode, members))
  }

  function TreesOf(mode: Mode, items: seq<Value>): seq<Tree> {
    if items == [] then [] else [TreeOf(mode, items[0])] + TreesOf(mode, items[1..])
  }

  function BranchesOf(mode: Mode, members: seq<JsonText.Member>): (r: seq<Branch>)
    ensures |r| == |members|
  {
    if members == [] then [] else [BranchOf(mode, members[0])] + BranchesOf(mode, members[1..])
  }

  function BranchOf(mode: Mode, member: JsonText.Member): Branch { Branch(member.key, TreeOf(mode, member.value)) }

  /** The container being built has gathered more. */
  function WithTree(w: Writing, tree: Tree): Writing
    requires w.stack != []
  {
    var n := |w.stack| - 1;
    w.(stack := w.stack[..n] + [w.stack[n].(tree := tree)])
  }

  lemma WithTreeTwice(w: Writing, a: Tree, b: Tree)
    requires w.stack != []
    ensures WithTree(w, a).stack != [] && WithTree(WithTree(w, a), b) == WithTree(w, b)
  {
  }

  lemma {:induction false} ValueGrows(mode: Mode, w: Writing, v: Value)
    requires mode.canonical
    ensures Run(mode, w, Ops(v)) == TreeAdded(w, TreeOf(mode, v))
    decreases v, 1
  {
    hide Run, TreeAdded;
    match v {
      case ListValue(items) => ListGrows(mode, w, items);
      case ObjectValue(members) => ObjectGrows(mode, w, members);
      case _ =>
        hide Quoted, NumberText;
        RunsOne(mode, w, Ops(v)[0]);
    }
  }

  lemma {:induction false} ListGrows(mode: Mode, w: Writing, items: seq<Value>)
    requires mode.canonical
    ensures Run(mode, w, Ops(ListValue(items))) == TreeAdded(w, TreeOf(mode, ListValue(items)))
    decreases items, 1
  {
    hide Run, TreesOf, TreeAdded;
    RunsAround(mode, w, WriteBegin(false), ItemOps(items), WriteEnd(false));
    var begun := Begun(mode, w, false);
    ItemsGrow(mode, begun, [], items);
    assert [] + TreesOf(mode, items) == TreesOf(mode, items);
    Closes(mode, w, false, ArrayTree(TreesOf(mode, items)));
  }

  /** A container built goes where it belongs. */
  lemma Closes(mode: Mode, w: Writing, isObject: bool, tree: Tree)
    requires mode.canonical
    ensures Begun(mode, w, isObject).stack != []
    ensures Ended(mode, WithTree(Begun(mode, w, isObject), tree), isObject) == TreeAdded(w, tree)
  {
    hide TreeAdded;
    var full := WithTree(Begun(mode, w, isObject), tree);
    assert full.stack[..|full.stack| - 1] == w.stack;
    assert full.(stack := w.stack, pendingKey := w.pendingKey) == w;
  }

  lemma {:induction false} ItemsGrow(mode: Mode, w: Writing, before: seq<Tree>, items: seq<Value>)
    requires mode.canonical && w.stack != [] && w.pendingKey == None
    requires w.stack[|w.stack| - 1].tree == ArrayTree(before)
    ensures Run(mode, w, ItemOps(items)) == WithTree(w, ArrayTree(before + TreesOf(mode, items)))
    decreases items, 0
  {
    hide Applied, Ops, TreeOf;
    if items == [] {
      assert before + [] == before;
      assert w.stack == w.stack[..|w.stack| - 1] + [w.stack[|w.stack| - 1]];
    } else {
      var tree := TreeOf(mode, items[0]);
      RunsAdd(mode, w, Ops(items[0]), ItemOps(items[1..]));
      hide Run;
      ValueGrows(mode, w, items[0]);
      var next := WithTree(w, ArrayTree(before + [tree]));
      assert TreeAdded(w, tree) == next;
      ItemsGrow(mode, next, before + [tree], items[1..]);
      assert before + [tree] + TreesOf(mode, items[1..]) == before + ([tree] + TreesOf(mode, items[1..]));
      WithTreeTwice(w, ArrayTree(before + [tree]), ArrayTree(before + TreesOf(mode, items)));
    }
  }

  lemma {:induction false} ObjectGrows(mode: Mode, w: Writing, members: seq<JsonText.Member>)
    requires mode.canonical
    ensures Run(mode, w, Ops(ObjectValue(members))) == TreeAdded(w, TreeOf(mode, ObjectValue(members)))
    decreases members, 1
  {
    hide Run, BranchesOf, TreeAdded;
    RunsAround(mode, w, WriteBegin(true), MemberOps(members), WriteEnd(true));
    var begun := Begun(mode, w, true);
    MembersGrow(mode, begun, [], members);
    assert [] + BranchesOf(mode, members) == BranchesOf(mode, members);
    Closes(mode, w, true, ObjectTree(BranchesOf(mode, members)));
  }

  lemma {:induction false} MemberGrows(mode: Mode, w: Writing, before: seq<Branch>, member: JsonText.Member)
    requires mode.canonical && w.stack != [] && w.pendingKey == None
    requires w.stack[|w.stack| - 1].tree == ObjectTree(before)
    ensures Run(mode, w, OneMemberOps(member)) == WithTree(w, ObjectTree(before + [BranchOf(mode, member)]))
    decreases member
  {
    hide Ops, TreeOf, Run;
    RunsAdd(mode, w, [WriteKey(member.key)], Ops(member.value));
    RunsOne(mode, w, WriteKey(member.key));
    ValueGrows(mode, w.(pendingKey := Some(member.key)), member.value);
  }

  lemma {:induction false} MembersGrow(mode: Mode, w: Writing, before: seq<Branch>, members: seq<JsonText.Member>)
    requires mode.canonical && w.stack != [] && w.pendingKey == None
    requires w.stack[|w.stack| - 1].tree == ObjectTree(before)
    ensures Run(mode, w, MemberOps(members)) == WithTree(w, ObjectTree(before + BranchesOf(mode, members)))
    decreases members, 0
  {
    hide Applied, OneMemberOps, BranchOf;
    if members == [] {
      assert before + [] == before;
      assert w.stack == w.stack[..|w.stack| - 1] + [w.stack[|w.stack| - 1]];
    } else {
      var branch := BranchOf(mode, members[0]);
      RunsAdd(mode, w, OneMemberOps(members[0]), MemberOps(members[1..]));
      hide Run;
      MemberGrows(mode, w, before, members[0]);
      var next := WithTree(w, ObjectTree(before + [branch]));
      MembersGrow(mode, next, before + [branch], members[1..]);
      assert before + [branch] + BranchesOf(mode, members[1..]) == before + ([branch] + BranchesOf(mode, members[1..]));
      WithTreeTwice(w, ObjectTree(before + [branch]), ObjectTree(before + BranchesOf(mode, members)));
    }
  }

  // ---------------------------------------------------------------------
  // Its text
  // ---------------------------------------------------------------------

  /** A compact text is the same at any depth. */
  lemma {:induction false} PlainDepth(v: Value, depth: nat)
    ensures TextOf(v, PLAIN, depth) == TextOf(v, PLAIN, 0)
    decreases v, 1
  {
    hide Quoted, NumeralText;
    match v {
      case ListValue(items) =>
        PlainItems(items, depth + 1, true);
        PlainItems(items, 1, true);
      case ObjectValue(members) =>
        PlainMembers(members, depth + 1, true);
        PlainMembers(members, 1, true);
      case _ =>
    }
  }

  lemma {:induction false} PlainItems(items: seq<Value>, depth: nat, first: bool)
    ensures ItemsText(items, PLAIN, depth, first) == ItemsText(items, PLAIN, 0, first)
    decreases items, 0
  {
    hide TextOf;
    if items != [] {
      PlainDepth(items[0], depth);
      PlainItems(items[1..], depth, false);
    }
  }

  lemma {:induction false} PlainMembers(members: seq<JsonText.Member>, depth: nat, first: bool)
    ensures MembersText(members, PLAIN, depth, first) == MembersText(members, PLAIN, 0, first)
    decreases members, 0
  {
    hide TextOf, Quoted;
    if members != [] {
      assert members[0].value < members[0];
      PlainDepth(members[0].value, depth);
      PlainMembers(members[1..], depth, false);
    }
  }

  function MemberEntry(member: JsonText.Member): Entry { Entry(member.key, TextOf(member.value, PLAIN, 0)) }

  lemma {:induction false} EntriesJoin(members: seq<JsonText.Member>, first: bool)
    ensures MembersText(members, PLAIN, 0, first) == Joined(Mapped(MemberEntry, members), first)
  {
    hide TextOf, Quoted;
    if members != [] {
      EntriesJoin(members[1..], false);
      assert Mapped(MemberEntry, members)[1..] == Mapped(MemberEntry, members[1..]);
      var comma := Comma(first);
      assert comma + [] == comma;
    }
  }

  /** A tree is written as the text of the canonical value. */
  lemma {:induction false} TreeText(mode: Mode, v: Value)
    requires mode.canonical
    ensures Emitted(TreeOf(mode, v)) == TextOf(Canonical(mode, v), PLAIN, 0)
    decreases v, 1
  {
    hide Quoted, NumeralText, Sort, Joined, EmittedItems, ItemsText, MembersText;
    match v {
      case ListValue(items) =>
        ItemsEmit(mode, items, true);
        PlainItems(CanonicalItems(mode, items), 1, true);
        var text := ItemsText(CanonicalItems(mode, items), PLAIN, 0, true);
        assert [OPEN_BRACKET] + text + [] == [OPEN_BRACKET] + text;
      case ObjectValue(members) =>
        var sorted := Sort(MemberUnits, CanonicalMembers(mode, members));
        MembersEmit(mode, members);
        SortedEmit(CanonicalMembers(mode, members));
        EntriesJoin(sorted, true);
        PlainMembers(sorted, 1, true);
        var text := MembersText(sorted, PLAIN, 0, true);
        assert [OPEN_BRACE] + text + [] == [OPEN_BRACE] + text;
      case _ =>
    }
  }

  lemma {:induction false} ItemsEmit(mode: Mode, items: seq<Value>, first: bool)
    requires mode.canonical
    ensures EmittedItems(TreesOf(mode, items), first) == ItemsText(CanonicalItems(mode, items), PLAIN, 0, first)
    decreases items, 0
  {
    hide Emitted, TreeOf, TextOf, Canonical;
    if items != [] {
      TreeText(mode, items[0]);
      ItemsEmit(mode, items[1..], false);
      assert TreesOf(mode, items)[1..] == TreesOf(mode, items[1..]);
      assert CanonicalItems(mode, items)[1..] == CanonicalItems(mode, items[1..]);
      assert Comma(first) + [] == Comma(first);
    }
  }

  lemma {:induction false} MembersEmit(mode: Mode, members: seq<JsonText.Member>)
    requires mode.canonical
    ensures Entries(BranchesOf(mode, members)) == Mapped(MemberEntry, CanonicalMembers(mode, members))
    decreases members, 0
  {
    hide Emitted, TreeOf, TextOf, Canonical;
    if members != [] {
      assert members[0].value < members[0];
      TreeText(mode, members[0].value);
      MembersEmit(mode, members[1..]);
      assert BranchesOf(mode, members)[1..] == BranchesOf(mode, members[1..]);
      assert CanonicalMembers(mode, members)[1..] == CanonicalMembers(mode, members[1..]);
    }
  }

  lemma SortedEmit(members: seq<JsonText.Member>)
    ensures Sort(EntryUnits, Mapped(MemberEntry, members)) == Mapped(MemberEntry, Sort(MemberUnits, members))
  {
    hide Sort, TextOf, Utf8.Utf16;
    SortMaps(MemberUnits, EntryUnits, MemberEntry, members);
  }

  /** Canonical output is the compact text of the canonical value. */
  lemma CanonicalWritten(mode: Mode, v: Value)
    requires mode.canonical
    ensures Finished(Run(mode, FRESH, Ops(v))) == TextOf(Canonical(mode, v), PLAIN, 0)
  {
    hide Run, TreeOf, Emitted, TextOf, Canonical;
    ValueGrows(mode, FRESH, v);
    TreeText(mode, v);
    assert [] + Emitted(TreeOf(mode, v)) == Emitted(TreeOf(mode, v));
  }
}
