/** A value written with the writer's operations is its encoding (cbor.rs). */
module CborValues {
  import opened Bytes
  import opened CborEncoding
  import opened CborWriter
  import opened Decimal
  import opened Order
  import Instants

  /** What the operations can write: integers of 128 bits, and dates and times
      that are some instant's. */
  predicate Writable(v: Value) {
    match v
    case Integer(n) => Abs(n) < U128
    case DateTimeValue(text) => Instants.Parsed(text).Some?
    case ListValue(items) => forall i :: 0 <= i < |items| ==> Writable(items[i])
    case MapValue(members) => forall i :: 0 <= i < |members| ==> MemberWritable(members[i])
    case _ => true
  }

  predicate MemberWritable(member: Member) { Writable(member.value) }

  function MemberKey(member: Member): seq<nat> { TextBytes(member.key) }

  /** Whether no map in a value has the same key twice. */
  predicate DistinctKeys(v: Value) {
    match v
    case ListValue(items) => AllDistinct(items)
    case MapValue(members) => Distinct(MemberKey, members) && MembersDistinct(members)
    case _ => true
  }

  predicate AllDistinct(items: seq<Value>) {
    items == [] || (DistinctKeys(items[0]) && AllDistinct(items[1..]))
  }

  predicate MembersDistinct(members: seq<Member>) {
    members == [] || (MemberDistinct(members[0]) && MembersDistinct(members[1..]))
  }

  predicate MemberDistinct(member: Member) { DistinctKeys(member.value) }

  // ---------------------------------------------------------------------
  // The operations of a value
  // ---------------------------------------------------------------------

  function Ops(v: Value): seq<Op> {
    match v
    case NullValue => [WriteNull]
    case BoolValue(b) => [WriteBool(b)]
    case Integer(n) =>
      [if -0x8000_0000_0000_0000 <= n < 0x8000_0000_0000_0000 then WriteInt(n)
       else WriteNumber(if n < 0 then [0x2D] + Digits(-n) else Digits(n), 0)]
    case FloatValue(bits) => [WriteFloat(bits)]
    case TextValue(text) => [WriteText(text)]
    case BytesValue(content) => [WriteBytes(content)]
    case DateTimeValue(text) => [WriteDateTime(text)]
    case ListValue(items) => [WriteOpen(false, |items|)] + ItemOps(items) + [WriteClose]
    case MapValue(members) => [WriteOpen(true, |members|)] + MemberOps(members) + [WriteClose]
  }

  function ItemOps(items: seq<Value>): seq<Op> {
    if items == [] then [] else Ops(items[0]) + ItemOps(items[1..])
  }

  function MemberOps(members: seq<Member>): seq<Op> {
    if members == [] then [] else OneMemberOps(members[0]) + MemberOps(members[1..])
  }

  function OneMemberOps(member: Member): seq<Op> { [WriteKey(member.key)] + Ops(member.value) }

  function Run(w: Writing, ops: seq<Op>): Writing
    decreases ops
  {
    if ops == [] then w else Run(Applied(w, ops[0]), ops[1..])
  }

  lemma {:induction false} RunsAdd(w: Writing, a: seq<Op>, b: seq<Op>)
    ensures Run(w, a + b) == Run(Run(w, a), b)
    decreases a
  {
    hide Applied;
    if a == [] {
      assert a + b == b;
    } else {
      RunsAdd(Applied(w, a[0]), a[1..], b);
      assert (a + b)[1..] == a[1..] + b;
    }
  }

  lemma RunsOne(w: Writing, op: Op)
    ensures Run(w, [op]) == Applied(w, op)
  {
    assert Run(Applied(w, op), []) == Applied(w, op);
    assert [op][1..] == [];
  }

  // ---------------------------------------------------------------------
  // What they write
  // ---------------------------------------------------------------------

  /** A value may come: not where a map waits for a key. */
  predicate Ready(w: Writing) {
    w.open != [] && w.open[|w.open| - 1].isMap ==> w.open[|w.open| - 1].key.Some?
  }

  function Spoiled(w: Writing, bad: bool): Writing { if bad then Noted(w, SameKey) else w }

  /** The container opened last has gathered more items. */
  function Gathered(w: Writing, entries: seq<Entry>): Writing
    requires w.open != []
  {
    var n := |w.open| - 1;
    w.(open := w.open[..n] + [w.open[n].(items := w.open[n].items + entries)])
  }

  predicate InList(w: Writing) {
    w.open != [] && !w.open[|w.open| - 1].isMap
  }

  predicate InMap(w: Writing) {
    w.open != [] && w.open[|w.open| - 1].isMap && w.open[|w.open| - 1].key.None?
  }

  lemma {:induction false} ValueWrites(w: Writing, v: Value)
    requires Ready(w) && Writable(v)
    ensures Run(w, Ops(v)) == Spoiled(Added(w, Encoded(v, w.deterministic)), w.deterministic && !DistinctKeys(v))
    decreases v, 1
  {
    hide Added, Run, Applied;
    match v {
      case ListValue(items) => ListWrites(w, items);
      case MapValue(members) => MapWrites(w, members);
      case _ =>
        hide Instants.Parsed;
        RunsOne(w, Ops(v)[0]);
        ScalarWrites(w, v);
    }
  }

  lemma ScalarWrites(w: Writing, v: Value)
    requires Writable(v) && !v.ListValue? && !v.MapValue?
    ensures Applied(w, Ops(v)[0]) == Added(w, Encoded(v, w.deterministic))
  {
    hide Added, IntegerBytes, IntBytes, FloatBytes, TextBytes, Instants.Parsed, Instants.Format, IntegerDigits, Digits;
    match v {
      case Integer(n) =>
        DigitsAreInteger(n);
        if -0x8000_0000_0000_0000 <= n < 0x8000_0000_0000_0000 { IntIsInteger(n); }
      case _ =>
    }
  }

  lemma {:induction false} ListWrites(w: Writing, items: seq<Value>)
    requires Ready(w) && Writable(ListValue(items))
    ensures Run(w, Ops(ListValue(items)))
      == Spoiled(Added(w, Encoded(ListValue(items), w.deterministic)), w.deterministic && !AllDistinct(items))
    decreases items, 1
  {
    hide Added, Run, Head, Joined, Items, Applied, Gathered, AllDistinct;
    var open := WriteOpen(false, |items|);
    RunsAdd(w, [open] + ItemOps(items), [WriteClose]);
    RunsAdd(w, [open], ItemOps(items));
    RunsOne(w, open);
    Opens(w, false, |items|);
    var begun := Begun(w, false, |items|);
    ItemsWrite(begun, items);
    var bad := w.deterministic && !AllDistinct(items);
    var full := Spoiled(Gathered(begun, Items(items, w.deterministic)), bad);
    RunsOne(full, WriteClose);
    Closes(full);
    ListCloses(w, Items(items, w.deterministic), bad);
  }

  lemma Opens(w: Writing, isMap: bool, count: nat)
    ensures Applied(w, WriteOpen(isMap, count)) == Begun(w, isMap, count)
  {
  }

  lemma Closes(w: Writing)
    ensures Applied(w, WriteClose) == ContainerClosed(w)
  {
  }

  lemma BegunGathers(w: Writing, isMap: bool, count: nat, entries: seq<Entry>)
    ensures Gathered(Begun(w, isMap, count), entries) == w.(open := w.open + [Open(isMap, count, entries, None)])
  {
    var open := w.open + [Open(isMap, count, [], None)];
    assert open[..|open| - 1] == w.open;
    assert [] + entries == entries;
  }

  lemma ListCloses(w: Writing, entries: seq<Entry>, bad: bool)
    requires Ready(w)
    ensures ContainerClosed(Spoiled(Gathered(Begun(w, false, |entries|), entries), bad)) ==
            Spoiled(Added(w, Head(4, |entries|) + Joined(entries)), bad)
  {
    hide Added, Head, Joined, ContainerClosed, Gathered;
    BegunGathers(w, false, |entries|, entries);
    ListClosesTo(Spoiled(Gathered(Begun(w, false, |entries|), entries), bad), Spoiled(w, bad), entries);
    SpoiledAdds(w, Head(4, |entries|) + Joined(entries), bad);
  }

  lemma ListClosesTo(full: Writing, rest: Writing, entries: seq<Entry>)
    requires full.open == rest.open + [Open(false, |entries|, entries, None)] && rest == full.(open := rest.open)
    ensures ContainerClosed(full) == Added(rest, Head(4, |entries|) + Joined(entries))
  {
    hide Added, Head, Joined, Sort, Distinct;
    assert full.open[..|full.open| - 1] == rest.open;
  }

  lemma SpoiledAdds(w: Writing, encoded: bytes, bad: bool)
    requires Ready(w)
    ensures Added(Spoiled(w, bad), encoded) == Spoiled(Added(w, encoded), bad)
  {
  }

  lemma {:induction false} ItemsWrite(w: Writing, items: seq<Value>)
    requires InList(w) && forall i :: 0 <= i < |items| ==> Writable(items[i])
    ensures Run(w, ItemOps(items)) == Spoiled(Gathered(w, Items(items, w.deterministic)),
            w.deterministic && !AllDistinct(items))
    decreases items, 0
  {
    hide Encoded, Ops, Writable, DistinctKeys;
    if items == [] {
      var n := |w.open| - 1;
      assert w.open[n].items + [] == w.open[n].items;
      assert w.open == w.open[..n] + [w.open[n]];
    } else {
      var deterministic := w.deterministic;
      RunsAdd(w, Ops(items[0]), ItemOps(items[1..]));
      ValueWrites(w, items[0]);
      var next := Spoiled(Added(w, Encoded(items[0], deterministic)), deterministic && !DistinctKeys(items[0]));
      ItemsWrite(next, items[1..]);
      hide Run;
      GatheredMore(w, Entry([], Encoded(items[0], deterministic)), Items(items[1..], deterministic));
    }
  }

  lemma GatheredMore(w: Writing, entry: Entry, rest: seq<Entry>)
    requires w.open != []
    ensures Gathered(Gathered(w, [entry]), rest) == Gathered(w, [entry] + rest)
  {
    var items := w.open[|w.open| - 1].items;
    assert items + [entry] + rest == items + ([entry] + rest);
  }

  lemma {:induction false} MapWrites(w: Writing, members: seq<Member>)
    requires Ready(w) && Writable(MapValue(members))
    ensures Run(w, Ops(MapValue(members)))
      == Spoiled(Added(w, Encoded(MapValue(members), w.deterministic)),
          w.deterministic && !DistinctKeys(MapValue(members)))
    decreases members, 1
  {
    hide Added, Run, Head, Joined, Pairs, Sort, Distinct, Applied, Gathered, MembersDistinct;
    var open := WriteOpen(true, |members|);
    RunsAdd(w, [open] + MemberOps(members), [WriteClose]);
    RunsAdd(w, [open], MemberOps(members));
    RunsOne(w, open);
    Opens(w, true, |members|);
    var begun := Begun(w, true, |members|);
    MembersWrite(begun, members);
    var pairs := Pairs(members, w.deterministic);
    var bad := w.deterministic && !MembersDistinct(members);
    var full := Spoiled(Gathered(begun, pairs), bad);
    RunsOne(full, WriteClose);
    Closes(full);
    PairsDistinct(members, w.deterministic);
    MapCloses(w, pairs, bad);
  }

  lemma MapCloses(w: Writing, entries: seq<Entry>, bad: bool)
    requires Ready(w) && (bad ==> w.deterministic)
    ensures ContainerClosed(Spoiled(Gathered(Begun(w, true, |entries|), entries), bad))
      == Spoiled(Added(w, Head(5, |entries|) + Joined(InOrder(entries, w.deterministic))),
        w.deterministic && (bad || !Distinct(EntryKey, entries)))
  {
    hide Added, Head, Joined, Sort, Distinct, ContainerClosed, Gathered;
    BegunGathers(w, true, |entries|, entries);
    var spoiled := w.deterministic && !Distinct(EntryKey, entries);
    MapClosesTo(Spoiled(Gathered(Begun(w, true, |entries|), entries), bad), Spoiled(w, bad), entries);
    SpoiledTwice(w, bad, spoiled);
    SpoiledAdds(w, Head(5, |entries|) + Joined(InOrder(entries, w.deterministic)), bad || spoiled);
  }

  lemma MapClosesTo(full: Writing, rest: Writing, entries: seq<Entry>)
    requires full.open == rest.open + [Open(true, |entries|, entries, None)] && rest == full.(open := rest.open)
    ensures ContainerClosed(full) == Added(Spoiled(rest, full.deterministic && !Distinct(EntryKey, entries)),
                                           Head(5, |entries|) + Joined(InOrder(entries, full.deterministic)))
  {
    hide Added, Head, Joined, Sort, Distinct;
    assert full.open[..|full.open| - 1] == rest.open;
  }

  lemma SpoiledTwice(w: Writing, a: bool, b: bool)
    requires Ready(w)
    ensures Spoiled(Spoiled(w, a), b) == Spoiled(w, a || b)
  {
  }

  lemma {:induction false} MembersWrite(w: Writing, members: seq<Member>)
    requires InMap(w) && forall i :: 0 <= i < |members| ==> MemberWritable(members[i])
    ensures Run(w, MemberOps(members))
      == Spoiled(Gathered(w, Pairs(members, w.deterministic)), w.deterministic && !MembersDistinct(members))
    decreases members, 0
  {
    hide Encoded, Ops, Writable, DistinctKeys, TextBytes;
    if members == [] {
      var n := |w.open| - 1;
      assert w.open[n].items + [] == w.open[n].items;
      assert w.open == w.open[..n] + [w.open[n]];
    } else {
      var deterministic := w.deterministic;
      var Member(key, value) := members[0];
      RunsAdd(w, OneMemberOps(members[0]), MemberOps(members[1..]));
      OneMemberWrites(w, members[0]);
      var next := Spoiled(Gathered(w, [Entry(TextBytes(key), Encoded(value, deterministic))]),
          deterministic && !DistinctKeys(value));
      MembersWrite(next, members[1..]);
      hide Run, OneMemberOps;
      GatheredMore(w, Entry(TextBytes(key), Encoded(value, deterministic)), Pairs(members[1..], deterministic));
    }
  }

  lemma {:induction false} OneMemberWrites(w: Writing, member: Member)
    requires InMap(w) && MemberWritable(member)
    ensures Run(w, OneMemberOps(member))
      == Spoiled(Gathered(w, [Entry(TextBytes(member.key), Encoded(member.value, w.deterministic))]),
        w.deterministic && !DistinctKeys(member.value))
    decreases member
  {
    hide Encoded, Ops, Writable, DistinctKeys, TextBytes, Run;
    RunsAdd(w, [WriteKey(member.key)], Ops(member.value));
    RunsOne(w, WriteKey(member.key));
    ValueWrites(Applied(w, WriteKey(member.key)), member.value);
  }

  /** Encoded keys are the same when the keys are. */
  lemma {:induction false} PairsDistinct(members: seq<Member>, deterministic: bool)
    ensures Distinct(EntryKey, Pairs(members, deterministic)) <==> Distinct(MemberKey, members)
  {
    PairsAre(members, deterministic);
    var pairs := Pairs(members, deterministic);
    assert forall i :: 0 <= i < |members| ==> EntryKey(pairs[i]) == MemberKey(members[i]);
  }

  lemma {:induction false} PairsAre(members: seq<Member>, deterministic: bool)
    ensures forall i :: 0 <= i < |members| ==>
      Pairs(members, deterministic)[i] == Entry(TextBytes(members[i].key), Encoded(members[i].value, deterministic))
  {
    hide Encoded, TextBytes;
    if members != [] { PairsAre(members[1..], deterministic); }
  }

  lemma HeadGrows(major: nat, a: nat, b: nat)
    requires major < 8 && a <= b
    ensures |Head(major, a)| <= |Head(major, b)|
  {
  }

  /** Distinct texts have distinct encodings. */
  lemma TextBytesDecide(a: bytes, b: bytes)
    requires TextBytes(a) == TextBytes(b)
    ensures a == b
  {
    if |a| <= |b| { HeadGrows(3, |a|, |b|); } else { HeadGrows(3, |b|, |a|); }
    assert a == TextBytes(a)[|Head(3, |a|)|..];
    assert b == TextBytes(b)[|Head(3, |b|)|..];
  }

  /** Keys have the same encoding only when they are the same text. */
  lemma KeysDistinct(members: seq<Member>)
    ensures Distinct(MemberKey, members) <==> forall i, j :: 0 <= i < j < |members| ==> members[i].key != members[j].key
  {
    forall i, j | 0 <= i < j < |members| && MemberKey(members[i]) == MemberKey(members[j])
      ensures members[i].key == members[j].key
    {
      TextBytesDecide(members[i].key, members[j].key);
    }
  }

  /** Writing a value gives its encoding; deterministic, nothing when a map has
      the same key twice. */
  lemma Written(v: Value, deterministic: bool)
    requires Writable(v)
    ensures Finish(Run(Fresh(deterministic), Ops(v)))
      == if deterministic && !DistinctKeys(v) then [] else Encoded(v, deterministic)
  {
    hide Encoded, Run, DistinctKeys;
    ValueWrites(Fresh(deterministic), v);
  }
}
