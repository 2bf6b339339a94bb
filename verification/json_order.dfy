/**
 Canonical JSON of the same members in another order is the same bytes, and what
 the writer wrote is read back (json.rs; RFC 8785, section 3.2.3).
 */
module JsonOrder {
  import opened Bytes
  import opened Json
  import opened JsonCanonical
  import opened JsonRoundTrip
  import opened JsonText
  import opened JsonValues
  import opened JsonWriter
  import opened Order
  import Utf8

  /** Whether no object in a value has the same key twice. */
  predicate DistinctKeys(v: Value) {
    match v
    case ListValue(items) => forall i :: 0 <= i < |items| ==> DistinctKeys(items[i])
    case ObjectValue(members) =>
      Distinct(MemberUnits, members) && forall i :: 0 <= i < |members| ==> MemberDistinct(members[i])
    case _ => true
  }

  predicate MemberDistinct(member: JsonText.Member) { DistinctKeys(member.value) }

  /** Whether the keys of every object in a value strictly increase, as UTF-16
      code units. */
  predicate Ordered(v: Value) {
    match v
    case ListValue(items) => forall i :: 0 <= i < |items| ==> Ordered(items[i])
    case ObjectValue(members) => Strictly(MemberUnits, members) && forall i :: 0 <= i < |members| ==>
        MemberOrdered(members[i])
    case _ => true
  }

  predicate MemberOrdered(member: JsonText.Member) { Ordered(member.value) }

  /** The same value, but for the order of members at any depth. */
  predicate Reordered(v: Value, w: Value) {
    match (v, w)
    case (ListValue(a), ListValue(b)) => |a| == |b| && forall i :: 0 <= i < |a| ==> Reordered(a[i], b[i])
    case (ObjectValue(a), ObjectValue(b)) => SameMembers(a, b)
    case _ => v == w
  }

  /** Every member of each is one of the other. */
  predicate SameMembers(a: seq<JsonText.Member>, b: seq<JsonText.Member>) {
    && (forall i :: 0 <= i < |a| ==> Among(a[i], b))
    && (forall j :: 0 <= j < |b| ==> Source(a, b[j]))
  }

  predicate Among(m: JsonText.Member, b: seq<JsonText.Member>) { exists j :: 0 <= j < |b| && MemberReordered(m, b[j]) }

  predicate Source(a: seq<JsonText.Member>, n: JsonText.Member) { exists i :: 0 <= i < |a| && MemberReordered(a[i], n) }

  predicate MemberReordered(m: JsonText.Member, n: JsonText.Member) { m.key == n.key && Reordered(m.value, n.value) }

  // ---------------------------------------------------------------------
  // Any order
  // ---------------------------------------------------------------------

  lemma {:induction false} ReorderedCanonical(mode: Mode, v: Value, w: Value)
    requires Reordered(v, w) && DistinctKeys(v) && DistinctKeys(w)
    ensures Canonical(mode, v) == Canonical(mode, w)
    decreases v, 1
  {
    hide SameMembers, Sort, Distinct;
    match (v, w) {
      case (ListValue(a), ListValue(b)) => ReorderedItems(mode, a, b);
      case (ObjectValue(a), ObjectValue(b)) => ReorderedMembers(mode, a, b);
      case _ =>
    }
  }

  lemma {:induction false} ReorderedItems(mode: Mode, a: seq<Value>, b: seq<Value>)
    requires |a| == |b| && forall i :: 0 <= i < |a| ==> Reordered(a[i], b[i])
    requires forall i :: 0 <= i < |a| ==> DistinctKeys(a[i])
    requires forall i :: 0 <= i < |b| ==> DistinctKeys(b[i])
    ensures CanonicalItems(mode, a) == CanonicalItems(mode, b)
    decreases a, 0
  {
    hide Reordered, DistinctKeys, Canonical;
    if a != [] {
      ReorderedCanonical(mode, a[0], b[0]);
      ReorderedItems(mode, a[1..], b[1..]);
    }
  }

  lemma {:induction false} MemberCanonical(mode: Mode, m: JsonText.Member, n: JsonText.Member)
    requires MemberReordered(m, n) && MemberDistinct(m) && MemberDistinct(n)
    ensures CanonicalMember(mode, m) == CanonicalMember(mode, n)
    decreases m, 0
  {
    hide Canonical;
    ReorderedCanonical(mode, m.value, n.value);
  }

  lemma {:induction false} AmongCanonical(mode: Mode, m: JsonText.Member, b: seq<JsonText.Member>)
    requires Among(m, b) && MemberDistinct(m) && forall j :: 0 <= j < |b| ==> MemberDistinct(b[j])
    ensures CanonicalMember(mode, m) in CanonicalMembers(mode, b)
    decreases m, 1
  {
    hide MemberReordered, MemberDistinct, CanonicalMember;
    var j :| 0 <= j < |b| && MemberReordered(m, b[j]);
    MemberCanonical(mode, m, b[j]);
    assert CanonicalMembers(mode, b)[j] == CanonicalMember(mode, m);
  }

  lemma {:induction false} SourceCanonical(mode: Mode, a: seq<JsonText.Member>, n: JsonText.Member)
    requires Source(a, n) && MemberDistinct(n) && forall i :: 0 <= i < |a| ==> MemberDistinct(a[i])
    ensures CanonicalMember(mode, n) in CanonicalMembers(mode, a)
    decreases a, 0
  {
    hide MemberReordered, MemberDistinct, CanonicalMember;
    var i :| 0 <= i < |a| && MemberReordered(a[i], n);
    MemberCanonical(mode, a[i], n);
    assert CanonicalMembers(mode, a)[i] == CanonicalMember(mode, n);
  }

  lemma {:induction false} ReorderedMembers(mode: Mode, a: seq<JsonText.Member>, b: seq<JsonText.Member>)
    requires SameMembers(a, b) && Distinct(MemberUnits, a) && Distinct(MemberUnits, b)
    requires forall i :: 0 <= i < |a| ==> MemberDistinct(a[i])
    requires forall j :: 0 <= j < |b| ==> MemberDistinct(b[j])
    ensures Sort(MemberUnits, CanonicalMembers(mode, a)) == Sort(MemberUnits, CanonicalMembers(mode, b))
    decreases a, 1
  {
    var ca, cb := CanonicalMembers(mode, a), CanonicalMembers(mode, b);
    hide Sort, CanonicalMembers, CanonicalMember, Among, Source, MemberDistinct, Distinct;
    forall i | 0 <= i < |ca| ensures ca[i] in cb {
      AmongCanonical(mode, a[i], b);
    }
    forall j | 0 <= j < |cb| ensures cb[j] in ca {
      SourceCanonical(mode, a, b[j]);
    }
    CanonicalDistinct(mode, a);
    CanonicalDistinct(mode, b);
    SortForgets(MemberUnits, ca, cb);
  }

  lemma CanonicalDistinct(mode: Mode, members: seq<JsonText.Member>)
    requires Distinct(MemberUnits, members)
    ensures Distinct(MemberUnits, CanonicalMembers(mode, members))
  {
    hide Utf8.Utf16;
    var c := CanonicalMembers(mode, members);
    assert forall i :: 0 <= i < |c| ==> MemberUnits(c[i]) == MemberUnits(members[i]);
  }

  /** Canonical keys strictly increase at every depth. */
  lemma {:induction false} CanonicalOrdered(mode: Mode, v: Value)
    requires DistinctKeys(v)
    ensures Ordered(Canonical(mode, v))
    decreases v, 1
  {
    hide Sort, Distinct, Strictly;
    match v {
      case ListValue(items) =>
        forall i | 0 <= i < |items| ensures Ordered(Canonical(mode, items[i])) {
          CanonicalOrdered(mode, items[i]);
        }
      case ObjectValue(members) => MembersOrdered(mode, members);
      case _ =>
    }
  }

  lemma {:induction false} MembersOrdered(mode: Mode, members: seq<JsonText.Member>)
    requires Distinct(MemberUnits, members) && forall i :: 0 <= i < |members| ==> MemberDistinct(members[i])
    ensures Ordered(ObjectValue(Sort(MemberUnits, CanonicalMembers(mode, members))))
    decreases members, 0
  {
    hide Sort, Distinct, Strictly, Canonical;
    var c := CanonicalMembers(mode, members);
    var sorted := Sort(MemberUnits, c);
    CanonicalDistinct(mode, members);
    SortStrictly(MemberUnits, c);
    forall k | 0 <= k < |sorted| ensures MemberOrdered(sorted[k]) {
      Order.Member(sorted, c, sorted[k]);
      var i :| 0 <= i < |c| && c[i] == sorted[k];
      assert members[i].value < members[i];
      CanonicalOrdered(mode, members[i].value);
    }
  }

  /** Distinct keys are distinct code units. */
  lemma UnitsDistinct(members: seq<JsonText.Member>)
    ensures Distinct(MemberUnits, members) <==> forall i, j :: 0 <= i < j < |members| ==>
            members[i].key != members[j].key
  {
    hide Utf8.Utf16, Utf8.Valid;
    forall i, j | 0 <= i < j < |members| && MemberUnits(members[i]) == MemberUnits(members[j])
      ensures members[i].key == members[j].key
    {
      Utf8.Utf16Decides(members[i].key, members[j].key);
    }
  }

  /** Written canonically, a value gives the same bytes whatever order its
      members are written in, the keys of every object strictly increasing. */
  lemma OrderLeavesNoTrace(mode: Mode, v: Value, w: Value)
    requires mode.canonical && DistinctKeys(v) && DistinctKeys(w) && Reordered(v, w)
    ensures Finished(Run(mode, FRESH, Ops(v))) == Finished(Run(mode, FRESH, Ops(w))) ==
            TextOf(Canonical(mode, v), PLAIN, 0)
    ensures Ordered(Canonical(mode, v))
  {
    hide Run, TextOf, Canonical, Reordered, DistinctKeys;
    CanonicalWritten(mode, v);
    CanonicalWritten(mode, w);
    ReorderedCanonical(mode, v, w);
    CanonicalOrdered(mode, v);
  }

  // ---------------------------------------------------------------------
  // The round trip
  // ---------------------------------------------------------------------

  /** The value that the text written has. */
  function Shown(mode: Mode, v: Value): Value { if mode.canonical then Canonical(mode, v) else v }

  /** Reading what was written gives back the events of what was written and
      the end, exactly when it nests no more than 128 deep and repeats no key
      that may not be; otherwise the reading fails. */
  lemma RoundTrip(mode: Mode, v: Value, duplicates: bool, checked: bool)
    ensures var d := Document(Finished(Run(mode, FRESH, Ops(v))), duplicates, checked);
      var shown := Shown(mode, v);
      var (said, t) := Calls(d, START, |Says(shown)| + 1);
      if Readable(shown, MAX_DEPTH, duplicates) then said == Says(shown) + [Said(End, [])] && t.done && t.error.None?
      else t.error.Some?
  {
    hide Run, TextOf, Canonical, Calls, Readable, Says;
    if mode.canonical {
      CanonicalWritten(mode, v);
      TextReads(Canonical(mode, v), PLAIN, duplicates, checked);
    } else {
      Written(mode, v);
      TextReads(v, mode.style, duplicates, checked);
    }
  }

  /** A value of distinct keys is read whenever it is not too deep. */
  lemma {:induction false} DistinctReadable(v: Value, room: nat, duplicates: bool)
    requires DistinctKeys(v)
    ensures Readable(v, room, duplicates) <==> Shallow(v, room)
    decreases v, 1
  {
    hide Distinct;
    match v {
      case ListValue(items) => if room > 0 { ItemsShallow(items, room - 1, duplicates); }
      case ObjectValue(members) =>
        UnitsDistinct(members);
        DistinctRepeatsNone(members, []);
        if room > 0 {
          MembersReadableAre(members, room - 1, duplicates, []);
          forall i | 0 <= i < |members|
            ensures MemberReadable(members[i], room - 1, duplicates) <==> MemberShallow(members[i], room - 1)
          {
            assert members[i].value < members[i];
            DistinctReadable(members[i].value, room - 1, duplicates);
          }
        }
      case _ =>
    }
  }

  lemma {:induction false} ItemsShallow(items: seq<Value>, room: nat, duplicates: bool)
    requires forall i :: 0 <= i < |items| ==> DistinctKeys(items[i])
    ensures ItemsReadable(items, room, duplicates) <==> forall i :: 0 <= i < |items| ==> Shallow(items[i], room)
    decreases items, 0
  {
    hide DistinctKeys, Readable, Shallow;
    if items != [] {
      DistinctReadable(items[0], room, duplicates);
      ItemsShallow(items[1..], room, duplicates);
    }
  }

  /** Whether a value nests no deeper than there is room. */
  predicate Shallow(v: Value, room: nat) {
    match v
    case ListValue(items) => room > 0 && forall i :: 0 <= i < |items| ==> Shallow(items[i], room - 1)
    case ObjectValue(members) => room > 0 && MembersShallow(members, room - 1)
    case _ => true
  }

  predicate MembersShallow(members: seq<JsonText.Member>, room: nat) {
    forall i :: 0 <= i < |members| ==> MemberShallow(members[i], room)
  }

  predicate MemberShallow(member: JsonText.Member, room: nat) { Shallow(member.value, room) }

  lemma {:induction false} OrderedDistinct(v: Value)
    requires Ordered(v)
    ensures DistinctKeys(v)
    decreases v
  {
    hide Utf8.Utf16;
    match v {
      case ListValue(items) =>
        forall i | 0 <= i < |items| ensures DistinctKeys(items[i]) { OrderedDistinct(items[i]); }
      case ObjectValue(members) =>
        forall i | 0 <= i < |members| ensures MemberDistinct(members[i]) {
          assert MemberOrdered(members[i]) && members[i].value < members[i];
          OrderedDistinct(members[i].value);
        }
        forall i, j | 0 <= i < j < |members| ensures MemberUnits(members[i]) != MemberUnits(members[j]) {
          LessIsStrict(MemberUnits(members[i]), MemberUnits(members[j]));
        }
      case _ =>
    }
  }

  lemma {:induction false} CanonicalShallow(mode: Mode, v: Value, room: nat)
    ensures Shallow(Canonical(mode, v), room) <==> Shallow(v, room)
    decreases v, 1
  {
    hide Sort;
    match v {
      case ListValue(items) =>
        if room > 0 {
          forall i | 0 <= i < |items|
            ensures Shallow(Canonical(mode, items[i]), room - 1) <==> Shallow(items[i], room - 1)
          {
            CanonicalShallow(mode, items[i], room - 1);
          }
        }
      case ObjectValue(members) => if room > 0 { CanonicalMembersShallow(mode, members, room - 1); }
      case _ =>
    }
  }

  lemma {:induction false} CanonicalMembersShallow(mode: Mode, members: seq<JsonText.Member>, room: nat)
    ensures MembersShallow(Sort(MemberUnits, CanonicalMembers(mode, members)), room) <==> MembersShallow(members, room)
    decreases members, 0
  {
    hide Sort, Canonical, Shallow;
    var c := CanonicalMembers(mode, members);
    forall i | 0 <= i < |members| ensures MemberShallow(c[i], room) <==> MemberShallow(members[i], room) {
      assert members[i].value < members[i];
      CanonicalShallow(mode, members[i].value, room);
    }
    SortKeeps(MemberUnits, c);
    SameShallow(c, Sort(MemberUnits, c), room);
  }

  lemma SameShallow(c: seq<JsonText.Member>, sorted: seq<JsonText.Member>, room: nat)
    requires multiset(sorted) == multiset(c)
    ensures MembersShallow(sorted, room) <==> MembersShallow(c, room)
  {
    hide MemberShallow;
    forall x ensures x in sorted <==> x in c {
      Order.Member(sorted, c, x);
    }
    if MembersShallow(sorted, room) {
      forall i | 0 <= i < |c| ensures MemberShallow(c[i], room) { assert c[i] in sorted; }
    }
    if MembersShallow(c, room) {
      forall k | 0 <= k < |sorted| ensures MemberShallow(sorted[k], room) { assert sorted[k] in c; }
    }
  }

  /** With distinct keys, what was written is read back exactly when it nests no
      more than 128 deep. */
  lemma DistinctRoundTrip(mode: Mode, v: Value, duplicates: bool, checked: bool)
    requires DistinctKeys(v)
    ensures var d := Document(Finished(Run(mode, FRESH, Ops(v))), duplicates, checked);
      var shown := Shown(mode, v);
      var (said, t) := Calls(d, START, |Says(shown)| + 1);
      if Shallow(v, MAX_DEPTH) then said == Says(shown) + [Said(End, [])] && t.done && t.error.None?
      else t.error.Some?
  {
    hide Run, Canonical, Calls, Readable, Says, DistinctKeys, Shallow, Finished, Ordered;
    RoundTrip(mode, v, duplicates, checked);
    if mode.canonical {
      CanonicalOrdered(mode, v);
      OrderedDistinct(Canonical(mode, v));
      CanonicalShallow(mode, v, MAX_DEPTH);
    }
    DistinctReadable(Shown(mode, v), MAX_DEPTH, duplicates);
  }
}
