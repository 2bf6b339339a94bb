/**
 What the CBOR writer wrote is read back as the events of the value written
 (cbor.rs).
 */
module CborRoundTrip {
  import opened Bytes
  import opened Cbor
  import opened CborCanonical
  import opened CborEncoding
  import opened CborReading
  import opened CborValues
  import opened CborWriter
  import opened Floats
  import opened Order
  import Arith
  import Civil
  import Decimal
  import Instants
  import Utf8

  // ---------------------------------------------------------------------
  // The events of a value
  // ---------------------------------------------------------------------

  function WhatOfInteger(n: int): What {
    if -0x8000_0000_0000_0000 <= n < 0x8000_0000_0000_0000 then Int(n) else What.Number(IntText(n))
  }

  function Events(v: Value, path: bytes): seq<Event> {
    match v
    case NullValue => [Event(Null, path)]
    case BoolValue(b) => [Event(Bool(b), path)]
    case Integer(n) => [Event(WhatOfInteger(n), path)]
    case FloatValue(bits) => [Event(Float(Double(bits)), path)]
    case TextValue(text) => [Event(What.Text(text), path)]
    case BytesValue(content) => [Event(Bytes(content), path)]
    case DateTimeValue(text) => [Event(DateTime(Shown(text)), path)]
    case ListValue(items) => [Event(BeginList, path)] + ItemEvents(items, 0, path) + [Event(EndList, path)]
    case MapValue(members) => [Event(BeginMap, path)] + MemberEvents(members, [], path) + [Event(EndMap, path)]
  }

  function ItemEvents(items: seq<Value>, index: nat, path: bytes): seq<Event> {
    if items == [] then []
    else Events(items[0], path + IndexStep(index)) + ItemEvents(items[1..], index + 1, path)
  }

  /** A key's event has the path of the key before it. */
  function MemberEvents(members: seq<Member>, before: bytes, path: bytes): seq<Event> {
    if members == [] then []
    else
      [Event(Key(members[0].key), path + KeyStep(before))] + OneMemberEvents(members[0], path)
      + MemberEvents(members[1..], members[0].key, path)
  }

  function OneMemberEvents(member: Member, path: bytes): seq<Event> { Events(member.value, path + KeyStep(member.key)) }

  // ---------------------------------------------------------------------
  // Which values are read back
  // ---------------------------------------------------------------------

  /** What any program can hold: texts are UTF-8, and lengths fit 64 bits. */
  predicate Storable(v: Value) {
    match v
    case Integer(n) => Abs(n) < U128
    case TextValue(text) => Utf8.Valid(text) && |text| < U64
    case BytesValue(content) => |content| < U64
    case DateTimeValue(text) => Instants.Parsed(text).Some?
    case ListValue(items) => |items| < U64 && ItemsStorable(items)
    case MapValue(members) => |members| < U64 && MembersStorable(members)
    case _ => true
  }

  predicate ItemsStorable(items: seq<Value>) {
    items == [] || (Storable(items[0]) && ItemsStorable(items[1..]))
  }

  predicate MembersStorable(members: seq<Member>) {
    members == [] || (MemberStorable(members[0]) && MembersStorable(members[1..]))
  }

  predicate MemberStorable(member: Member) {
    Utf8.Valid(member.key) && |member.key| < U64 && Storable(member.value)
  }

  /** What a decoder with room for so many containers reads: no more of them
      inside each other, and dates and times of the UTC years 0 to 9999. */
  predicate Readable(v: Value, room: nat) {
    match v
    case DateTimeValue(text) => Instants.Parsed(text).Some? && Instants.FourDigitYear(Instants.Parsed(text).value.0)
    case ListValue(items) => room > 0 && ItemsReadable(items, room - 1)
    case MapValue(members) => room > 0 && MembersReadable(members, room - 1)
    case _ => true
  }

  predicate ItemsReadable(items: seq<Value>, room: nat) {
    items == [] || (Readable(items[0], room) && ItemsReadable(items[1..], room))
  }

  predicate MembersReadable(members: seq<Member>, room: nat) {
    members == [] || (MemberReadable(members[0], room) && MembersReadable(members[1..], room))
  }

  predicate MemberReadable(member: Member, room: nat) { Readable(member.value, room) }

  // ---------------------------------------------------------------------
  // Reading on
  // ---------------------------------------------------------------------

  type Reading = Result<Decoding, Failure>

  /** Reading stops when no more than `depth` containers are open. */
  function Onward(input: Input, s: Decoding, depth: nat): Reading
    requires Within(input, s)
  {
    if |s.frames| <= depth then Ok(s) else Values(input, s, depth)
  }

  /** One item read and placed, then on. */
  function Stepped(input: Input, s: Decoding, depth: nat): Reading
    requires Within(input, s)
  {
    var item :- ItemAt(input, s);
    var placed :- Placed(item.1, item.0, s.at);
    Onward(input, placed, depth)
  }

  lemma OneItem(input: Input, s: Decoding, depth: nat)
    requires Within(input, s)
    ensures Values(input, s, depth) == Stepped(input, s, depth)
  {
    hide ItemAt, Placed;
  }

  /** The state after a value of so many bytes has been read. */
  function After(s: Decoding, v: Value, length: nat): Decoding {
    Finished(Decoding(s.at + length, s.frames, s.events + Events(v, PathOf(s.frames))))
  }

  /** A reading goes on after the value, or fails when the value cannot be
      read. */
  ghost predicate ReadsOn(input: Input, s: Decoding, depth: nat, v: Value) {
    && Within(input, s)
    && var length := |Encoded(v, false)|;
    if |s.frames| <= DEPTH && Readable(v, DEPTH - |s.frames|) then
      s.at + length <= |input.bytes| && Values(input, s, depth) == Onward(input, After(s, v, length), depth)
    else Values(input, s, depth).Err?
  }

  /** The scalar a value is read as. */
  function ScalarItem(v: Value): Item
    requires !v.ListValue? && !v.MapValue? && !v.DateTimeValue?
  {
    match v
    case NullValue => NullItem
    case BoolValue(b) => BoolItem(b)
    case Integer(n) => IntegerItem(n)
    case FloatValue(bits) => FloatItem(Double(bits))
    case TextValue(text) => TextItem(text)
    case BytesValue(content) => BytesItem(content)
  }

  lemma ScalarItemReads(input: Input, s: Decoding, v: Value)
    requires Storable(v) && !v.ListValue? && !v.MapValue? && !v.DateTimeValue?
    requires Holds(input, s.at, Encoded(v, false))
    ensures Within(input, s) && s.at + |Encoded(v, false)| <= |input.bytes|
    ensures ItemAt(input, s) == Ok((Some(ScalarItem(v)), Moved(s, |Encoded(v, false)|)))
  {
    hide ItemAt, Holds, Head, TextBytes, IntegerBytes, FloatBytes, Utf8.Valid, IntegerItem;
    HoldsWithin(input, s, Encoded(v, false));
    match v {
      case NullValue => SimpleReads(input, s, 0xF6);
      case BoolValue(b) => SimpleReads(input, s, if b then 0xF5 else 0xF4);
      case Integer(n) => IntegerItemReads(input, s, n);
      case FloatValue(bits) => FloatItemReads(input, s, bits);
      case TextValue(text) => TextItemReads(input, s, text);
      case BytesValue(content) => BytesItemReads(input, s, content);
      case _ =>
    }
  }

  lemma ScalarEvents(v: Value, path: bytes)
    requires !v.ListValue? && !v.MapValue? && !v.DateTimeValue?
    ensures Events(v, path) == [Event(WhatOf(ScalarItem(v)), path)]
  {
    hide IntText;
  }

  lemma ScalarReads(input: Input, s: Decoding, depth: nat, v: Value)
    requires Storable(v) && !v.ListValue? && !v.MapValue? && !v.DateTimeValue?
    requires Holds(input, s.at, Encoded(v, false)) && !AtKey(s) && |s.frames| <= DEPTH
    ensures ReadsOn(input, s, depth, v)
  {
    hide ItemAt, Holds, Encoded, Events, Finished, ScalarItem, PathOf, WhatOf, Values;
    ScalarItemReads(input, s, v);
    OneItem(input, s, depth);
    ScalarEvents(v, PathOf(s.frames));
  }

  lemma DateTimeValueReads(input: Input, s: Decoding, depth: nat, text: bytes)
    requires Instants.Parsed(text).Some?
    requires Holds(input, s.at, DateTimeBytes(Shown(text))) && !AtKey(s) && |s.frames| <= DEPTH
    ensures ReadsOn(input, s, depth, DateTimeValue(text))
  {
    hide ItemAt, Holds, Finished, PathOf, Values, DateTimeBytes, Shown, Instants.Parsed, Instants.FourDigitYear;
    DateTimeReads(input, s, text);
    HoldsWithin(input, s, DateTimeBytes(Shown(text)));
    OneItem(input, s, depth);
  }

  // ---------------------------------------------------------------------
  // Containers
  // ---------------------------------------------------------------------

  /** Inside an array with so many items left. */
  function InArray(base: Decoding, left: positive, index: nat): Decoding {
    base.(frames := base.frames + [Frame(false, Some(left), false, index, [])])
  }

  /** Inside a map, before a key or before the value of the current one. */
  function InMembers(base: Decoding, left: positive, index: nat, key: bool, current: bytes): Decoding {
    base.(frames := base.frames + [Frame(true, Some(left), key, index, current)])
  }

  function Grown(s: Decoding, count: nat, events: seq<Event>): Decoding {
    Decoding(s.at + count, s.frames, s.events + events)
  }

  lemma Last(frames: seq<Frame>, frame: Frame)
    ensures var all := frames + [frame]; all[..|all| - 1] == frames && all[|all| - 1] == frame
  {
  }

  lemma PathInside(frames: seq<Frame>, frame: Frame)
    ensures PathOf(frames + [frame]) == PathOf(frames) + Step(frame)
  {
    Last(frames, frame);
  }

  lemma ArrayCounts(base: Decoding, left: positive, index: nat)
    ensures Finished(InArray(base, left, index))
      == if left == 1 then Finished(Push(base, EndList)) else InArray(base, left - 1, index + 1)
  {
    hide PathOf;
    Last(base.frames, Frame(false, Some(left), false, index, []));
  }

  lemma MembersCount(base: Decoding, left: positive, index: nat, current: bytes)
    ensures Finished(InMembers(base, left, index, false, current))
      == if left == 1 then Finished(Push(base, EndMap)) else InMembers(base, left - 1, index + 1, true, current)
  {
    hide PathOf;
    Last(base.frames, Frame(true, Some(left), false, index, current));
  }

  /** A container of no items, or the state inside it. */
  function Entered(s: Decoding, isMap: bool, count: nat): Decoding {
    var begun := Push(s, if isMap then BeginMap else BeginList);
    if count == 0 then Finished(Push(begun, if isMap then EndMap else EndList))
    else if isMap then InMembers(begun, count, 0, true, [])
    else InArray(begun, count, 0)
  }

  lemma ContainerReads(input: Input, s: Decoding, depth: nat, isMap: bool, count: nat)
    requires count < U64 && Holds(input, s.at, Head(if isMap then 5 else 4, count)) && !AtKey(s)
    ensures Within(input, s) && Within(input, Moved(s, |Head(if isMap then 5 else 4, count)|))
    ensures if |s.frames| >= DEPTH then Values(input, s, depth).Err?
      else Values(input, s, depth) == Onward(input,
          Entered(Moved(s, |Head(if isMap then 5 else 4, count)|), isMap, count), depth)
  {
    hide Holds, Head, ItemAt, Finished, PathOf, Values;
    HeadItem(input, s, if isMap then 5 else 4, count);
    OneItem(input, s, depth);
  }

  lemma KeyReads(input: Input, base: Decoding, depth: nat, left: positive, index: nat, before: bytes, key: bytes)
    requires Utf8.Valid(key) && |key| < U64 && Holds(input, base.at, TextBytes(key)) && depth <= |base.frames|
    ensures Within(input, base) && Within(input, Grown(base, |TextBytes(key)|, []))
    ensures Values(input, InMembers(base, left, index, true, before), depth)
      == Values(input, InMembers(Grown(base, |TextBytes(key)|,
          [Event(Key(key), PathOf(base.frames) + KeyStep(before))]),
        left, index, false, key), depth)
  {
    hide Holds, ItemAt, Values, PathOf, TextBytes, Utf8.Valid;
    var s := InMembers(base, left, index, true, before);
    HoldsWithin(input, base, TextBytes(key));
    TextItemReads(input, s, key);
    OneItem(input, s, depth);
    Last(base.frames, Frame(true, Some(left), true, index, before));
    PathInside(base.frames, Frame(true, Some(left), true, index, before));
  }

  /** The items of an array, from the one at `index` on. */
  ghost predicate ItemsReadOn(input: Input, base: Decoding, depth: nat, items: seq<Value>, index: nat)
    requires items != []
  {
    && Within(input, base)
    && var length := |Joined(Items(items, false))|;
    if |base.frames| < DEPTH && ItemsReadable(items, DEPTH - |base.frames| - 1) then
      base.at + length <= |input.bytes|
      && Values(input, InArray(base, |items|, index), depth)
        == Onward(input, Finished(Push(Grown(base, length, ItemEvents(items, index, PathOf(base.frames))), EndList)),
            depth)
    else Values(input, InArray(base, |items|, index), depth).Err?
  }

  ghost predicate MembersReadOn(input: Input, base: Decoding, depth: nat, members: seq<Member>, index: nat,
                                before: bytes)
    requires members != []
  {
    && Within(input, base)
    && var length := |Joined(Pairs(members, false))|;
    if |base.frames| < DEPTH && MembersReadable(members, DEPTH - |base.frames| - 1) then
      base.at + length <= |input.bytes|
      && Values(input, InMembers(base, |members|, index, true, before), depth)
        == Onward(input, Finished(Push(Grown(base, length, MemberEvents(members, before, PathOf(base.frames))),
            EndMap)), depth)
    else Values(input, InMembers(base, |members|, index, true, before), depth).Err?
  }

  lemma JoinedItems(items: seq<Value>)
    requires items != []
    ensures Joined(Items(items, false)) == Encoded(items[0], false) + Joined(Items(items[1..], false))
  {
    hide Encoded;
    var e := Encoded(items[0], false);
    assert [] + e == e;
    assert Items(items, false)[1..] == Items(items[1..], false);
  }

  lemma JoinedPairs(members: seq<Member>)
    requires members != []
    ensures Joined(Pairs(members, false))
      == TextBytes(members[0].key) + (Encoded(members[0].value, false) + Joined(Pairs(members[1..], false)))
  {
    hide Encoded, TextBytes;
    assert Pairs(members, false)[1..] == Pairs(members[1..], false);
    var a, b, c := TextBytes(members[0].key), Encoded(members[0].value, false), Joined(Pairs(members[1..], false));
    assert a + b + c == a + (b + c);
  }

  lemma GrownTwice(s: Decoding, a: nat, x: seq<Event>, b: nat, y: seq<Event>)
    ensures Grown(Grown(s, a, x), b, y) == Grown(s, a + b, x + y)
  {
    assert s.events + x + y == s.events + (x + y);
  }

  /** After the first item of an array. */
  lemma ItemStep(input: Input, base: Decoding, depth: nat, items: seq<Value>, index: nat)
    requires items != [] && depth <= |base.frames| < DEPTH
    requires ReadsOn(input, InArray(base, |items|, index), depth, items[0])
    requires Readable(items[0], DEPTH - |base.frames| - 1)
    ensures var length := |Encoded(items[0], false)|;
      var next := Grown(base, length, Events(items[0], PathOf(base.frames) + IndexStep(index)));
      Within(input, next) && Values(input, InArray(base, |items|, index), depth)
        == (if |items| == 1 then Onward(input, Finished(Push(next, EndList)), depth)
            else Values(input, InArray(next, |items| - 1, index + 1), depth))
  {
    hide Encoded, Events, Readable, Values, PathOf, Finished, IndexStep;
    var frame := Frame(false, Some(|items|), false, index, []);
    PathInside(base.frames, frame);
    var next := Grown(base, |Encoded(items[0], false)|, Events(items[0], PathOf(base.frames) + IndexStep(index)));
    ArrayCounts(next, |items|, index);
    assert PathOf(InArray(base, |items|, index).frames) == PathOf(base.frames) + IndexStep(index);
    assert After(InArray(base, |items|, index), items[0], |Encoded(items[0], false)|) ==
        Finished(InArray(next, |items|, index));
  }

  lemma {:induction false} ItemsRead(input: Input, base: Decoding, depth: nat, items: seq<Value>, index: nat)
    requires items != [] && ItemsStorable(items) && Holds(input, base.at, Joined(Items(items, false)))
    requires depth <= |base.frames| < DEPTH
    ensures ItemsReadOn(input, base, depth, items, index)
    decreases items, 0
  {
    hide Encoded, Events, Readable, Storable, Values, PathOf, Finished, Holds, Joined, Items, IndexStep;
    var e, rest := Encoded(items[0], false), items[1..];
    JoinedItems(items);
    HoldsParts(input, base.at, e, Joined(Items(rest, false)));
    ArrayNotKey(base, |items|, index);
    ValueReads(input, InArray(base, |items|, index), depth, items[0]);
    if Readable(items[0], DEPTH - |base.frames| - 1) {
      ItemStep(input, base, depth, items, index);
      var next := Grown(base, |e|, Events(items[0], PathOf(base.frames) + IndexStep(index)));
      if rest == [] {
        NothingJoined();
        assert |Joined(Items(items, false))| == |e|;
        assert ItemEvents(items, index, PathOf(base.frames)) ==
            Events(items[0], PathOf(base.frames) + IndexStep(index)) + [];
        assert next == Grown(base, |e|, ItemEvents(items, index, PathOf(base.frames)));
        assert ItemsReadable(rest, DEPTH - |base.frames| - 1);
      } else {
        ItemsRead(input, next, depth, rest, index + 1);
        GrownTwice(base, |e|, Events(items[0], PathOf(base.frames) + IndexStep(index)),
          |Joined(Items(rest, false))|, ItemEvents(rest, index + 1, PathOf(base.frames)));
      }
    }
  }

  lemma NothingJoined()
    ensures Joined(Items([], false)) == [] && Joined(Pairs([], false)) == []
  {
  }

  lemma ArrayNotKey(base: Decoding, left: positive, index: nat)
    ensures !AtKey(InArray(base, left, index))
  {
  }

  lemma {:induction false} ValueReads(input: Input, s: Decoding, depth: nat, v: Value)
    requires Storable(v) && Holds(input, s.at, Encoded(v, false)) && !AtKey(s) && depth <= |s.frames| <= DEPTH
    ensures ReadsOn(input, s, depth, v)
    decreases v, 2
  {
    hide ReadsOn, Holds, Instants.Parsed;
    match v {
      case DateTimeValue(text) => DateTimeValueReads(input, s, depth, text);
      case ListValue(items) => ListReads(input, s, depth, items);
      case MapValue(members) => MapReads(input, s, depth, members);
      case _ => ScalarReads(input, s, depth, v);
    }
  }

  lemma {:induction false} ListReads(input: Input, s: Decoding, depth: nat, items: seq<Value>)
    requires |items| < U64 && ItemsStorable(items) && Holds(input, s.at, Encoded(ListValue(items), false))
    requires !AtKey(s) && depth <= |s.frames| <= DEPTH
    ensures ReadsOn(input, s, depth, ListValue(items))
    decreases items, 1
  {
    hide Values, PathOf, Finished, Holds, Joined, Items, Head, ItemsStorable, ItemEvents;
    var head := Head(4, |items|);
    HoldsParts(input, s.at, head, Joined(Items(items, false)));
    ContainerReads(input, s, depth, false, |items|);
    if |s.frames| < DEPTH {
      var path := PathOf(s.frames);
      var begin: seq<Event> := [Event(BeginList, path)];
      var end: seq<Event> := [Event(EndList, path)];
      var base := Push(Moved(s, |head|), BeginList);
      var gathered := ItemEvents(items, 0, path);
      assert s.events + begin + gathered + end == s.events + (begin + gathered + end);
      if items == [] {
        NoItemEvents(path);
        NothingJoined();
        NothingReadable(DEPTH - |s.frames| - 1);
        assert |Encoded(ListValue(items), false)| == |head|;
        assert Push(base, EndList).events == s.events + (begin + gathered + end);
        assert Push(base, EndList) == Grown(s, |head|, begin + gathered + end);
      } else {
        ItemsRead(input, base, depth, items, 0);
      }
    }
  }

  lemma NothingReadable(room: nat)
    ensures ItemsReadable([], room) && MembersReadable([], room)
  {
  }

  lemma NoItemEvents(path: bytes)
    ensures ItemEvents([], 0, path) == [] && MemberEvents([], [], path) == []
  {
  }

  /** After the first member of a map. */
  lemma MemberStep(input: Input, base: Decoding, depth: nat, members: seq<Member>, index: nat)
    requires members != [] && depth <= |base.frames| < DEPTH
    requires ReadsOn(input, InMembers(base, |members|, index, false, members[0].key), depth, members[0].value)
    requires MemberReadable(members[0], DEPTH - |base.frames| - 1)
    ensures var length := |Encoded(members[0].value, false)|;
      var next := Grown(base, length, OneMemberEvents(members[0], PathOf(base.frames)));
      Within(input, next) && Values(input, InMembers(base, |members|, index, false, members[0].key), depth)
        == (if |members| == 1 then Onward(input, Finished(Push(next, EndMap)), depth)
            else Values(input, InMembers(next, |members| - 1, index + 1, true, members[0].key), depth))
  {
    hide Encoded, Events, Readable, Values, PathOf, Finished, KeyStep;
    var frame := Frame(true, Some(|members|), false, index, members[0].key);
    PathInside(base.frames, frame);
    var s := InMembers(base, |members|, index, false, members[0].key);
    var next := Grown(base, |Encoded(members[0].value, false)|, OneMemberEvents(members[0], PathOf(base.frames)));
    MembersCount(next, |members|, index, members[0].key);
    assert After(s, members[0].value, |Encoded(members[0].value, false)|) ==
        Finished(InMembers(next, |members|, index, false, members[0].key));
  }

  lemma MemberNotKey(base: Decoding, left: positive, index: nat, current: bytes)
    ensures !AtKey(InMembers(base, left, index, false, current))
  {
  }

  lemma {:induction false} MembersRead(input: Input, base: Decoding, depth: nat, members: seq<Member>, index: nat,
                                       before: bytes)
    requires members != [] && MembersStorable(members) && Holds(input, base.at, Joined(Pairs(members, false)))
    requires depth <= |base.frames| < DEPTH
    ensures MembersReadOn(input, base, depth, members, index, before)
    decreases members, 0
  {
    hide Encoded, OneMemberEvents, Readable, Storable, Values, PathOf, Finished, Holds, Joined, Pairs, KeyStep,
         TextBytes, Utf8.Valid;
    var path := PathOf(base.frames);
    var key, value, rest := members[0].key, members[0].value, members[1..];
    var k, e := TextBytes(key), Encoded(value, false);
    var told: seq<Event> := [Event(Key(key), path + KeyStep(before))];
    JoinedPairs(members);
    HoldsParts(input, base.at, k, e + Joined(Pairs(rest, false)));
    HoldsParts(input, base.at + |k|, e, Joined(Pairs(rest, false)));
    KeyReads(input, base, depth, |members|, index, before, key);
    var keyed := Grown(base, |k|, told);
    MemberNotKey(keyed, |members|, index, key);
    assert value < members[0];
    ValueReads(input, InMembers(keyed, |members|, index, false, key), depth, value);
    if MemberReadable(members[0], DEPTH - |base.frames| - 1) {
      MemberStep(input, keyed, depth, members, index);
      var events := OneMemberEvents(members[0], path);
      var next := Grown(keyed, |e|, events);
      GrownTwice(base, |k|, told, |e|, events);
      if rest == [] {
        NothingJoined();
        assert |Joined(Pairs(members, false))| == |k| + |e|;
        assert MemberEvents(members, before, path) == told + events + [];
        assert next == Grown(base, |k| + |e|, MemberEvents(members, before, path));
        assert MembersReadable(rest, DEPTH - |base.frames| - 1);
      } else {
        MembersRead(input, next, depth, rest, index + 1, key);
        GrownTwice(base, |k| + |e|, told + events, |Joined(Pairs(rest, false))|, MemberEvents(rest, key, path));
      }
    }
  }

  lemma {:induction false} MapReads(input: Input, s: Decoding, depth: nat, members: seq<Member>)
    requires |members| < U64 && MembersStorable(members) && Holds(input, s.at, Encoded(MapValue(members), false))
    requires !AtKey(s) && depth <= |s.frames| <= DEPTH
    ensures ReadsOn(input, s, depth, MapValue(members))
    decreases members, 1
  {
    hide Values, PathOf, Finished, Holds, Joined, Pairs, Head, MembersStorable, MemberEvents;
    var head := Head(5, |members|);
    HoldsParts(input, s.at, head, Joined(Pairs(members, false)));
    ContainerReads(input, s, depth, true, |members|);
    if |s.frames| < DEPTH {
      var path := PathOf(s.frames);
      var begin: seq<Event> := [Event(BeginMap, path)];
      var end: seq<Event> := [Event(EndMap, path)];
      var base := Push(Moved(s, |head|), BeginMap);
      var gathered := MemberEvents(members, [], path);
      assert s.events + begin + gathered + end == s.events + (begin + gathered + end);
      if members == [] {
        NoItemEvents(path);
        NothingJoined();
        NothingReadable(DEPTH - |s.frames| - 1);
        assert |Encoded(MapValue(members), false)| == |head|;
        assert Push(base, EndMap).events == s.events + (begin + gathered + end);
        assert Push(base, EndMap) == Grown(s, |head|, begin + gathered + end);
      } else {
        MembersRead(input, base, depth, members, 0, []);
      }
    }
  }

  // ---------------------------------------------------------------------
  // The round trip
  // ---------------------------------------------------------------------

  lemma EncodedSome(v: Value)
    ensures Encoded(v, false) != []
  {
  }

  /** The encoding of a value is read back as its events exactly when it nests
      no more than 512 deep and its dates and times have UTC years of four
      digits; otherwise reading fails. */
  lemma EncodingReads(v: Value, floatTime: Floats.Number -> bytes)
    requires Storable(v)
    ensures Cbor.Parsed(Input(Encoded(v, false), floatTime)).Ok? <==> Readable(v, DEPTH)
    ensures Readable(v, DEPTH) ==> Cbor.Parsed(Input(Encoded(v, false), floatTime)) == Ok(Events(v, PathOf([])))
  {
    hide Encoded, Values, Events, Readable, Storable;
    var input := Input(Encoded(v, false), floatTime);
    EncodedSome(v);
    assert input.bytes[0..0 + |input.bytes|] == input.bytes;
    ValueReads(input, START, 0, v);
    assert [] + Events(v, PathOf([])) == Events(v, PathOf([]));
  }

  /** What any program can hold can be written. */
  lemma {:induction false} StorableWritable(v: Value)
    requires Storable(v)
    ensures Writable(v)
    decreases v, 1
  {
    match v {
      case ListValue(items) =>
        forall i | 0 <= i < |items| ensures Writable(items[i]) {
          StorableItem(items, i);
          StorableWritable(items[i]);
        }
      case MapValue(members) =>
        forall i | 0 <= i < |members| ensures MemberWritable(members[i]) {
          StorableMember(members, i);
          assert members[i].value < members[i];
          StorableWritable(members[i].value);
        }
      case _ =>
    }
  }

  lemma {:induction false} StorableItem(items: seq<Value>, i: nat)
    requires i < |items| && ItemsStorable(items)
    ensures Storable(items[i])
  {
    hide Storable;
    if i > 0 { StorableItem(items[1..], i - 1); }
  }

  lemma {:induction false} StorableMember(members: seq<Member>, i: nat)
    requires i < |members| && MembersStorable(members)
    ensures MemberStorable(members[i])
  {
    hide MemberStorable;
    if i > 0 { StorableMember(members[1..], i - 1); }
  }

  lemma {:induction false} AllItemsStorable(items: seq<Value>)
    requires forall i :: 0 <= i < |items| ==> Storable(items[i])
    ensures ItemsStorable(items)
  {
    hide Storable;
    if items != [] { AllItemsStorable(items[1..]); }
  }

  lemma {:induction false} AllMembersStorable(members: seq<Member>)
    requires forall i :: 0 <= i < |members| ==> MemberStorable(members[i])
    ensures MembersStorable(members)
  {
    hide MemberStorable;
    if members != [] { AllMembersStorable(members[1..]); }
  }

  /** Every member of a canonical map is a member's canonical form. */
  lemma SortedMember(members: seq<Member>, k: nat) returns (i: nat)
    requires k < |Sort(MemberKey, CanonicalMembers(members))|
    ensures i < |members| && Sort(MemberKey, CanonicalMembers(members))[k] == CanonicalMember(members[i])
  {
    hide Sort, CanonicalMember, TextBytes;
    var c := CanonicalMembers(members);
    var sorted := Sort(MemberKey, c);
    SortKeeps(MemberKey, c);
    Order.Member(sorted, c, sorted[k]);
    i :| 0 <= i < |c| && c[i] == sorted[k];
  }

  /** And every member's canonical form is there. */
  lemma MemberSorted(members: seq<Member>, i: nat) returns (k: nat)
    requires i < |members|
    ensures k < |Sort(MemberKey, CanonicalMembers(members))|
    ensures Sort(MemberKey, CanonicalMembers(members))[k] == CanonicalMember(members[i])
  {
    hide Sort, CanonicalMember, TextBytes;
    var c := CanonicalMembers(members);
    var sorted := Sort(MemberKey, c);
    SortKeeps(MemberKey, c);
    assert c[i] in c;
    Order.Member(sorted, c, c[i]);
    k :| 0 <= k < |sorted| && sorted[k] == c[i];
  }

  lemma {:induction false} CanonicalStorable(v: Value)
    requires Storable(v)
    ensures Storable(Canonical(v))
    decreases v, 1
  {
    hide Sort, TextBytes, Utf8.Valid;
    match v {
      case ListValue(items) =>
        forall i | 0 <= i < |items| ensures Storable(Canonical(items[i])) {
          StorableItem(items, i);
          CanonicalStorable(items[i]);
        }
        AllItemsStorable(CanonicalItems(items));
      case MapValue(members) => CanonicalMapStorable(members);
      case _ =>
    }
  }

  lemma {:induction false} CanonicalMapStorable(members: seq<Member>)
    requires MembersStorable(members)
    ensures var sorted := Sort(MemberKey, CanonicalMembers(members)); MembersStorable(sorted) && |sorted| == |members|
    decreases members, 0
  {
    hide Sort, TextBytes, Utf8.Valid, Storable, Canonical;
    var sorted := Sort(MemberKey, CanonicalMembers(members));
    SortKeeps(MemberKey, CanonicalMembers(members));
    forall k | 0 <= k < |sorted| ensures MemberStorable(sorted[k]) {
      var i := SortedMember(members, k);
      StorableMember(members, i);
      assert members[i].value < members[i];
      CanonicalStorable(members[i].value);
    }
    AllMembersStorable(sorted);
  }

  lemma {:induction false} ItemsReadableAll(items: seq<Value>, room: nat)
    ensures ItemsReadable(items, room) <==> forall i :: 0 <= i < |items| ==> Readable(items[i], room)
  {
    hide Readable;
    if items != [] { ItemsReadableAll(items[1..], room); }
  }

  lemma {:induction false} MembersReadableAll(members: seq<Member>, room: nat)
    ensures MembersReadable(members, room) <==> forall i :: 0 <= i < |members| ==> MemberReadable(members[i], room)
  {
    hide MemberReadable;
    if members != [] { MembersReadableAll(members[1..], room); }
  }

  /** Sorting changes nothing about what can be read. */
  lemma {:induction false} CanonicalReadable(v: Value, room: nat)
    ensures Readable(Canonical(v), room) <==> Readable(v, room)
    decreases v, 1
  {
    hide Sort, Instants.Parsed;
    match v {
      case ListValue(items) =>
        if room > 0 {
          ItemsReadableAll(items, room - 1);
          ItemsReadableAll(CanonicalItems(items), room - 1);
          forall i | 0 <= i < |items|
            ensures Readable(Canonical(items[i]), room - 1) <==> Readable(items[i], room - 1)
          {
            CanonicalReadable(items[i], room - 1);
          }
        }
      case MapValue(members) => if room > 0 { CanonicalMapReadable(members, room - 1); }
      case _ =>
    }
  }

  lemma {:induction false} CanonicalMapReadable(members: seq<Member>, room: nat)
    ensures MembersReadable(Sort(MemberKey, CanonicalMembers(members)), room) <==> MembersReadable(members, room)
    decreases members, 0
  {
    hide Sort, Canonical, Readable, TextBytes;
    var sorted := Sort(MemberKey, CanonicalMembers(members));
    MembersReadableAll(members, room);
    MembersReadableAll(sorted, room);
    if MembersReadable(members, room) {
      forall k | 0 <= k < |sorted| ensures MemberReadable(sorted[k], room) {
        var i := SortedMember(members, k);
        assert members[i].value < members[i];
        CanonicalReadable(members[i].value, room);
      }
    }
    if MembersReadable(sorted, room) {
      forall i | 0 <= i < |members| ensures MemberReadable(members[i], room) {
        var k := MemberSorted(members, i);
        assert MemberReadable(sorted[k], room);
        assert members[i].value < members[i];
        CanonicalReadable(members[i].value, room);
      }
    }
  }

  /** Written and read back, a value gives its events, deterministic those of
      its canonical form, exactly when it nests no more than 512 deep and its
      dates and times have UTC years of four digits. */
  lemma RoundTrip(v: Value, deterministic: bool, floatTime: Floats.Number -> bytes)
    requires Storable(v) && (deterministic ==> DistinctKeys(v))
    ensures var parsed := Cbor.Parsed(Input(Finish(Run(Fresh(deterministic), Ops(v))), floatTime));
      && (parsed.Ok? <==> Readable(v, DEPTH))
      && (Readable(v, DEPTH) ==> parsed == Ok(Events(if deterministic then Canonical(v) else v, PathOf([]))))
  {
    hide Encoded, Readable, Storable, Writable, DistinctKeys, Canonical, Run, Cbor.Parsed, Events;
    StorableWritable(v);
    Written(v, deterministic);
    if deterministic {
      CanonicalEncodes(v);
      CanonicalStorable(v);
      CanonicalReadable(v, DEPTH);
      EncodingReads(Canonical(v), floatTime);
    } else {
      EncodingReads(v, floatTime);
    }
  }

  /** `0000-01-01T00:00:00+01:00`: an hour before the year 0 in UTC. */
  const EARLY: bytes := [
    0x30, 0x30, 0x30, 0x30, 0x2D, 0x30, 0x31, 0x2D, 0x30, 0x31, 0x54,
    0x30, 0x30, 0x3A, 0x30, 0x30, 0x3A, 0x30, 0x30, 0x2B, 0x30, 0x31, 0x3A, 0x30, 0x30]

  lemma EarlyParsed()
    ensures Instants.Parsed(EARLY) == Some((-62_167_222_800, 0))
  {
    hide Civil.DaysFromCivil, Decimal.Value;
    EarlyNumbers();
    assert Civil.DaysFromCivil(0, 1, 1) == -719_528 by { YearZero(); }
  }

  lemma YearZero()
    ensures Civil.DaysFromCivil(0, 1, 1) == -719_528
    ensures Civil.CivilFromDays(-62_167_222_800 / 86_400).year == -1
  {
    hide Civil.CivilFromDays;
    DayOf(0, 1, 1, -1, 399, 306);
    DayOf(-1, 12, 31, -1, 399, 305);
    Civil.DateRoundTrip(Civil.Date(-1, 12, 31));
    assert -62_167_222_800 / 86_400 == -719_529;
  }

  lemma DayOf(year: int, month: int, day: int, era: int, ofEra: int, ofYear: int)
    requires 1 <= month <= 12 && 0 <= ofEra < 400
    requires (if month <= 2 then year - 1 else year) == era * 400 + ofEra
    requires ofYear == (153 * (month + if month > 2 then -3 else 9) + 2) / 5 + day - 1
    ensures Civil.DaysFromCivil(year, month, day) == era * 146_097 + ofEra * 365 + ofEra / 4 - ofEra / 100
            + ofYear - 719_468
  {
    Arith.Euclid(if month <= 2 then year - 1 else year, 400, era, ofEra);
  }

  lemma EarlyNumbers()
    ensures Instants.Number(EARLY, 0, 4) == Some(0) && Instants.Number(EARLY, 5, 2) == Some(1)
            && Instants.Number(EARLY, 8, 2) == Some(1)
    ensures Instants.Number(EARLY, 11, 2) == Some(0) && Instants.Number(EARLY, 14, 2) == Some(0)
            && Instants.Number(EARLY, 17, 2) == Some(0)
    ensures Instants.Number(EARLY, 20, 2) == Some(1) && Instants.Number(EARLY, 23, 2) == Some(0)
  {
    Zero2();
    assert EARLY[0..4] == [0x30, 0x30, 0x30, 0x30];
    assert EARLY[5..7] == [0x30, 0x31] == EARLY[8..10] == EARLY[20..22];
    assert EARLY[11..13] == [0x30, 0x30] == EARLY[14..16] == EARLY[17..19] == EARLY[23..25];
  }

  lemma Zero2()
    ensures Decimal.Value([0x30, 0x30]) == 0 && Decimal.Value([0x30, 0x31]) == 1
            && Decimal.Value([0x30, 0x30, 0x30, 0x30]) == 0
  {
    var a: bytes, b: bytes, c: bytes := [0x30, 0x30], [0x30, 0x31], [0x30, 0x30, 0x30, 0x30];
    assert a[..1] == [0x30] == b[..1] && [0x30][..0] == [];
    assert c[..3][..2] == a;
  }

  /** A date and time the writer takes and writes, and the decoder refuses. */
  lemma EarlyIsRefused(floatTime: Floats.Number -> bytes)
    ensures Storable(DateTimeValue(EARLY))
    ensures Finish(Run(Fresh(false), Ops(DateTimeValue(EARLY)))) != []
    ensures Cbor.Parsed(Input(Finish(Run(Fresh(false), Ops(DateTimeValue(EARLY)))), floatTime)).Err?
  {
    hide Instants.Parsed, Civil.CivilFromDays, Cbor.Parsed, Run, Encoded;
    EarlyParsed();
    YearZero();
    var v := DateTimeValue(EARLY);
    Written(v, false);
    EncodedSome(v);
    RoundTrip(v, false, floatTime);
  }

  /** In a map of two keys, the event of the second has the path of the
      first. */
  lemma SecondKeyHasFirstPath(a: bytes, b: bytes, floatTime: Floats.Number -> bytes)
    requires Utf8.Valid(a) && Utf8.Valid(b) && |a| < U64 && |b| < U64
    ensures var v := MapValue([Member(a, NullValue), Member(b, NullValue)]);
            var parsed := Cbor.Parsed(Input(Encoded(v, false), floatTime));
            && parsed.Ok? && |parsed.value| == 6
            && parsed.value[2] == Event(Null, PathOf([]) + KeyStep(a))
            && parsed.value[3] == Event(Key(b), PathOf([]) + KeyStep(a))
            && parsed.value[4] == Event(Null, PathOf([]) + KeyStep(b))
  {
    hide Encoded, Cbor.Parsed, Utf8.Valid, KeyStep;
    var last := [Member(b, NullValue)];
    var members := [Member(a, NullValue)] + last;
    assert members == [Member(a, NullValue), Member(b, NullValue)] && members[1..] == last && last[1..] == [];
    assert MembersStorable(last[1..]) && MembersReadable(last[1..], DEPTH - 1);
    assert Storable(NullValue) && Readable(NullValue, DEPTH - 1);
    assert MemberStorable(members[0]) && MemberStorable(last[0]);
    assert MembersStorable(last) && MembersReadable(last, DEPTH - 1);
    assert MembersStorable(members) && MembersReadable(members, DEPTH - 1);
    EncodingReads(MapValue(members), floatTime);
    var path := PathOf([]);
    assert MemberEvents(last[1..], b, path) == [];
    assert forall member: Member :: member.value == NullValue ==>
        OneMemberEvents(member, path) == [Event(Null, path + KeyStep(member.key))];
    assert MemberEvents(last, a, path) == [Event(Key(b), path + KeyStep(a)), Event(Null, path + KeyStep(b))];
  }
}
