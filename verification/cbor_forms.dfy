/**
 The forms of CBOR data that the decoder reads and the writer does not write
 (cbor.rs; RFC 8949, section 3.2): strings in chunks, and arrays and maps of
 indefinite length, in one another in any way. They are read as the values
 they stand for.
 */
module CborForms {
  import opened Bytes
  import opened Cbor
  import opened CborEncoding
  import opened CborReading
  import opened CborRoundTrip
  import Floats
  import Instants
  import Utf8
  import Wide

  /** A string, in one piece or `open`, in chunks. */
  datatype Str = Str(open: bool, chunks: seq<bytes>)

  /** A value as it is written: as the writer does, or a string, an array or a
      map, of which the open ones end with a break. */
  datatype Form =
    | Plain(value: Value)
    | TextForm(str: Str)
    | BytesForm(str: Str)
    | ListForm(open: bool, items: seq<Form>)
    | MapForm(open: bool, members: seq<FormMember>)

  datatype FormMember = FormMember(key: Str, value: Form)

  const BREAK: bytes := [0xFF]

  // ---------------------------------------------------------------------
  // How a form is written, and what it stands for
  // ---------------------------------------------------------------------

  /** Each chunk with its head. */
  function Chunked(major: nat, chunks: seq<bytes>): bytes
    requires major < 7
  {
    if chunks == [] then [] else Head(major, |chunks[0]|) + chunks[0] + Chunked(major, chunks[1..])
  }

  function StrBytes(major: nat, str: Str): bytes
    requires major < 7
  {
    if str.open then [major * 32 + 31] + (Chunked(major, str.chunks) + BREAK)
    else Head(major, |Flat(str.chunks)|) + Flat(str.chunks)
  }

  /** The head of an array or a map of so many items. */
  function ContainerHead(isMap: bool, open: bool, count: nat): bytes {
    var major := if isMap then 5 else 4;
    if open then [major * 32 + 31] else Head(major, count)
  }

  function Ending(open: bool): bytes { if open then BREAK else [] }

  function Spelled(f: Form): bytes {
    match f
    case Plain(v) => Encoded(v, false)
    case TextForm(str) => StrBytes(3, str)
    case BytesForm(str) => StrBytes(2, str)
    case ListForm(open, items) => ContainerHead(false, open, |items|) + (SpelledItems(items) + Ending(open))
    case MapForm(open, members) => ContainerHead(true, open, |members|) + (SpelledMembers(members) + Ending(open))
  }

  function SpelledItems(items: seq<Form>): bytes {
    if items == [] then [] else Spelled(items[0]) + SpelledItems(items[1..])
  }

  function SpelledMembers(members: seq<FormMember>): bytes {
    if members == [] then []
    else
      assert members[0].value < members[0];
      StrBytes(3, members[0].key) + (Spelled(members[0].value) + SpelledMembers(members[1..]))
  }

  function Meaning(f: Form): Value {
    match f
    case Plain(v) => v
    case TextForm(str) => TextValue(Flat(str.chunks))
    case BytesForm(str) => BytesValue(Flat(str.chunks))
    case ListForm(_, items) => ListValue(ItemsMeaning(items))
    case MapForm(_, members) => MapValue(MembersMeaning(members))
  }

  function ItemsMeaning(items: seq<Form>): (r: seq<Value>)
    ensures |r| == |items|
  {
    if items == [] then [] else [Meaning(items[0])] + ItemsMeaning(items[1..])
  }

  function MembersMeaning(members: seq<FormMember>): (r: seq<Member>)
    ensures |r| == |members|
  {
    if members == [] then []
    else
      assert members[0].value < members[0];
      [Member(Flat(members[0].key.chunks), Meaning(members[0].value))] + MembersMeaning(members[1..])
  }

  /** Lengths fit 64 bits, and texts are UTF-8 as a whole. */
  predicate StrStorable(str: Str, isText: bool) {
    && (isText ==> Utf8.Valid(Flat(str.chunks))) && |Flat(str.chunks)| < U64
    && forall i :: 0 <= i < |str.chunks| ==> |str.chunks[i]| < U64
  }

  predicate FormStorable(f: Form) {
    match f
    case Plain(v) => Storable(v)
    case TextForm(str) => StrStorable(str, true)
    case BytesForm(str) => StrStorable(str, false)
    case ListForm(_, items) => |items| < U64 && ItemsFit(items)
    case MapForm(_, members) => |members| < U64 && MembersFit(members)
  }

  predicate ItemsFit(items: seq<Form>) { items == [] || (FormStorable(items[0]) && ItemsFit(items[1..])) }

  predicate MembersFit(members: seq<FormMember>) {
    members == [] || (MemberFits(members[0]) && MembersFit(members[1..]))
  }

  predicate MemberFits(member: FormMember) { StrStorable(member.key, true) && FormStorable(member.value) }

  // ---------------------------------------------------------------------
  // Strings in chunks
  // ---------------------------------------------------------------------

  /** Where a head stands matters only to its failures. */
  lemma ArgumentAnywhere(input: Input, s: Decoding, info: nat, at: nat, other: nat)
    requires Within(input, s) && info < 28
    ensures Argument(input, s, info, at) == Argument(input, s, info, other)
  {
  }

  /** One chunk, and then the others. */
  lemma ChunkReads(input: Input, s: Decoding, major: nat, at: nat, chunk: bytes)
    requires (major == 2 || major == 3) && |chunk| < U64 && Holds(input, s.at, Head(major, |chunk|) + chunk)
    ensures Within(input, s) && Within(input, Moved(s, |Head(major, |chunk|)| + |chunk|))
    ensures ChunksFrom(input, s, major, at)
      == Prefixed(chunk, ChunksFrom(input, Moved(s, |Head(major, |chunk|)| + |chunk|), major, at))
  {
    hide Holds, Head, Take, Argument;
    var head := Head(major, |chunk|);
    HoldsParts(input, s.at, head, chunk);
    HoldsWithin(input, s, head + chunk);
    HeadReads(input, s, major, |chunk|);
    InfoSmall(|chunk|);
    HeadParts(major, Info(|chunk|));
    ArgumentAnywhere(input, Moved(s, 1), Info(|chunk|), s.at, at);
    TakeReads(input, Moved(s, |head|), chunk);
  }

  lemma NoChunkReads(input: Input, s: Decoding, major: nat, at: nat)
    requires Holds(input, s.at, BREAK)
    ensures Within(input, s) && ChunksFrom(input, s, major, at) == Ok(([], Moved(s, 1)))
  {
    hide Holds;
    HoldsWithin(input, s, BREAK);
    TakeReads(input, s, BREAK);
  }

  lemma {:induction false} ChunksRead(input: Input, s: Decoding, major: nat, at: nat, chunks: seq<bytes>)
    requires (major == 2 || major == 3) && (forall i :: 0 <= i < |chunks| ==> |chunks[i]| < U64)
    requires Holds(input, s.at, Chunked(major, chunks) + BREAK)
    ensures Within(input, s)
    ensures ChunksFrom(input, s, major, at) == Ok((Flat(chunks), Moved(s, |Chunked(major, chunks)| + 1)))
    decreases |chunks|
  {
    hide Holds, Head, ChunksFrom;
    if chunks == [] {
      assert [] + BREAK == BREAK;
      NoChunkReads(input, s, major, at);
    } else {
      var first, rest := Head(major, |chunks[0]|) + chunks[0], Chunked(major, chunks[1..]);
      assert Chunked(major, chunks) + BREAK == first + (rest + BREAK);
      HoldsParts(input, s.at, first, rest + BREAK);
      ChunkReads(input, s, major, at, chunks[0]);
      ChunksRead(input, Moved(s, |first|), major, at, chunks[1..]);
    }
  }

  /** A string is read as its chunks one after another. */
  lemma StrReads(input: Input, s: Decoding, isText: bool, str: Str)
    requires StrStorable(str, isText) && Holds(input, s.at, StrBytes(if isText then 3 else 2, str))
    ensures var content := Flat(str.chunks);
            && Within(input, s) && Within(input, Moved(s, |StrBytes(if isText then 3 else 2, str)|))
            && ItemAt(input, s) == Ok((Some(if isText then TextItem(content) else BytesItem(content)),
                                       Moved(s, |StrBytes(if isText then 3 else 2, str)|)))
  {
    hide Holds, Head, Flat, Utf8.Valid, Chunked, ItemAt, ItemOf, ChunksFrom;
    var major := if isText then 3 else 2;
    HoldsWithin(input, s, StrBytes(major, str));
    if str.open {
      var rest := Chunked(major, str.chunks) + BREAK;
      OpenHead(input, s, major, rest);
      ChunksRead(input, Moved(s, 1), major, s.at, str.chunks);
      OpenStr(input, Moved(s, 1), isText, s.at);
      assert |StrBytes(major, str)| == 1 + |rest|;
    } else if isText {
      TextItemReads(input, s, Flat(str.chunks));
    } else {
      BytesItemReads(input, s, Flat(str.chunks));
    }
  }

  /** A head of indefinite length. */
  lemma OpenHead(input: Input, s: Decoding, major: nat, rest: bytes)
    requires 2 <= major < 6 && Holds(input, s.at, [major * 32 + 31] + rest)
    ensures Within(input, s) && Within(input, Moved(s, 1)) && Holds(input, s.at + 1, rest)
    ensures ItemAt(input, s) == ItemOf(input, Moved(s, 1), major, None, s.at)
  {
    hide Holds, ItemOf, Break, Simple, Take;
    var head: bytes := [major * 32 + 31];
    HoldsParts(input, s.at, head, rest);
    TakeReads(input, s, head);
    HoldsWithin(input, s, head);
  }

  lemma OpenStr(input: Input, s: Decoding, isText: bool, at: nat)
    requires Within(input, s) && ChunksFrom(input, s, if isText then 3 else 2, at).Ok?
    requires isText ==> Utf8.Valid(ChunksFrom(input, s, 3, at).value.0)
    ensures var (content, t) := ChunksFrom(input, s, if isText then 3 else 2, at).value;
            ItemOf(input, s, if isText then 3 else 2, None, at)
              == Ok((Some(if isText then TextItem(content) else BytesItem(content)), t))
  {
    hide ChunksFrom;
  }

  // ---------------------------------------------------------------------
  // Containers
  // ---------------------------------------------------------------------

  /** How many items are left of a container that is not open. */
  function LeftOf(open: bool, count: nat): Option<positive>
    requires open || count > 0
  {
    if open then None else Some(count)
  }

  function InList(base: Decoding, open: bool, count: nat, index: nat): Decoding
    requires open || count > 0
  {
    base.(frames := base.frames + [Frame(false, LeftOf(open, count), false, index, [])])
  }

  /** In a map, before a key or before the value of the current one. */
  function InMap(base: Decoding, open: bool, count: nat, index: nat, key: bool, current: bytes): Decoding
    requires open || count > 0
  {
    base.(frames := base.frames + [Frame(true, LeftOf(open, count), key, index, current)])
  }

  lemma ListCounts(base: Decoding, open: bool, count: nat, index: nat)
    requires count > 0
    ensures Finished(InList(base, open, count, index))
      == if !open && count == 1 then Finished(Push(base, EndList)) else InList(base, open, count - 1, index + 1)
  {
    hide PathOf;
    Last(base.frames, Frame(false, LeftOf(open, count), false, index, []));
  }

  lemma MapCounts(base: Decoding, open: bool, count: nat, index: nat, current: bytes)
    requires count > 0
    ensures Finished(InMap(base, open, count, index, false, current))
      == if !open && count == 1 then Finished(Push(base, EndMap))
          else InMap(base, open, count - 1, index + 1, true, current)
  {
    hide PathOf;
    Last(base.frames, Frame(true, LeftOf(open, count), false, index, current));
  }

  /** A break ends the innermost container. */
  lemma BreakReads(input: Input, s: Decoding, depth: nat)
    requires Holds(input, s.at, BREAK) && s.frames != []
    requires var last := s.frames[|s.frames| - 1]; last.left.None? && (!last.isMap || last.key)
    ensures Within(input, s) && Within(input, Moved(s, 1))
    ensures Values(input, s, depth) == Onward(input, Closed(Moved(s, 1)), depth)
  {
    hide Holds, Values, Closed;
    HoldsWithin(input, s, BREAK);
    TakeReads(input, s, BREAK);
    OneItem(input, s, depth);
  }

  /** A container of no items that is not open, or the state inside it. */
  function EnteredForm(s: Decoding, isMap: bool, open: bool, count: nat): Decoding {
    var begun := Push(s, if isMap then BeginMap else BeginList);
    if !open && count == 0 then Finished(Push(begun, if isMap then EndMap else EndList))
    else if isMap then InMap(begun, open, count, 0, true, [])
    else InList(begun, open, count, 0)
  }

  lemma FormHeadReads(input: Input, s: Decoding, depth: nat, isMap: bool, open: bool, count: nat, rest: bytes)
    requires count < U64 && Holds(input, s.at, ContainerHead(isMap, open, count) + rest) && !AtKey(s)
    ensures var n := |ContainerHead(isMap, open, count)|;
            && Within(input, s) && Within(input, Moved(s, n)) && Holds(input, s.at + n, rest)
            && (if |s.frames| >= DEPTH then Values(input, s, depth).Err?
                else Values(input, s, depth) == Onward(input, EnteredForm(Moved(s, n), isMap, open, count), depth))
  {
    hide Holds, Head, ItemAt, Finished, PathOf, Values;
    var head := ContainerHead(isMap, open, count);
    HoldsParts(input, s.at, head, rest);
    HoldsWithin(input, s, head);
    OneItem(input, s, depth);
    if open {
      OpenHead(input, s, if isMap then 5 else 4, rest);
    } else {
      HeadItem(input, s, if isMap then 5 else 4, count);
    }
  }

  // ---------------------------------------------------------------------
  // Reading a form
  // ---------------------------------------------------------------------

  /** The form is read as the value it stands for, or fails when that cannot
      be read. */
  ghost predicate FormReadsOn(input: Input, s: Decoding, depth: nat, f: Form) {
    && Within(input, s)
    && var length := |Spelled(f)|;
    if |s.frames| <= DEPTH && Readable(Meaning(f), DEPTH - |s.frames|) then
      s.at + length <= |input.bytes| && Values(input, s, depth) == Onward(input, After(s, Meaning(f), length), depth)
    else Values(input, s, depth).Err?
  }

  /** The items of an array, from the one at `index` on, and its break. */
  ghost predicate FormsReadOn(input: Input, base: Decoding, depth: nat, open: bool, items: seq<Form>, index: nat)
    requires open || items != []
  {
    && Within(input, base)
    && var length := |SpelledItems(items) + Ending(open)|;
    var path := PathOf(base.frames);
    if |base.frames| < DEPTH && ItemsReadable(ItemsMeaning(items), DEPTH - |base.frames| - 1) then
      base.at + length <= |input.bytes|
      && Values(input, InList(base, open, |items|, index), depth)
        == Onward(input, Finished(Push(Grown(base, length, ItemEvents(ItemsMeaning(items), index, path)), EndList)),
            depth)
    else Values(input, InList(base, open, |items|, index), depth).Err?
  }

  ghost predicate FormMembersReadOn(input: Input, base: Decoding, depth: nat, open: bool, members: seq<FormMember>,
                                    index: nat, before: bytes)
    requires open || members != []
  {
    && Within(input, base)
    && var length := |SpelledMembers(members) + Ending(open)|;
    var path := PathOf(base.frames);
    if |base.frames| < DEPTH && MembersReadable(MembersMeaning(members), DEPTH - |base.frames| - 1) then
      base.at + length <= |input.bytes|
      && Values(input, InMap(base, open, |members|, index, true, before), depth)
        == Onward(input, Finished(Push(Grown(base, length, MemberEvents(MembersMeaning(members), before, path)),
            EndMap)),
            depth)
    else Values(input, InMap(base, open, |members|, index, true, before), depth).Err?
  }

  lemma {:induction false} FormReads(input: Input, s: Decoding, depth: nat, f: Form)
    requires FormStorable(f) && Holds(input, s.at, Spelled(f)) && !AtKey(s) && depth <= |s.frames| <= DEPTH
    ensures FormReadsOn(input, s, depth, f)
    decreases f, 2
  {
    hide Holds, Encoded, ReadsOn, After, Values, StrBytes, Readable;
    match f
    case Plain(v) =>
      ValueReads(input, s, depth, v);
      PlainReadsOn(input, s, depth, v);
    case TextForm(str) => StrFormReads(input, s, depth, true, str);
    case BytesForm(str) => StrFormReads(input, s, depth, false, str);
    case ListForm(open, items) =>
      if !open && items == [] {
        EmptyReads(input, s, depth, false);
      } else {
        ListFormReads(input, s, depth, open, items);
      }
    case MapForm(open, members) =>
      if !open && members == [] {
        EmptyReads(input, s, depth, true);
      } else {
        MapFormReads(input, s, depth, open, members);
      }
  }

  /** A definite container of nothing is as the writer writes it. */
  lemma EmptyReads(input: Input, s: Decoding, depth: nat, isMap: bool)
    requires Holds(input, s.at, Spelled(if isMap then MapForm(false, []) else ListForm(false, [])))
    requires !AtKey(s) && depth <= |s.frames| <= DEPTH
    ensures FormReadsOn(input, s, depth, if isMap then MapForm(false, []) else ListForm(false, []))
  {
    hide Holds, ReadsOn, Values, After, Readable, Head;
    NoneSpelled();
    NothingJoined();
    var f := if isMap then MapForm(false, []) else ListForm(false, []);
    var v := if isMap then MapValue([]) else ListValue([]);
    assert Spelled(f) == Encoded(v, false) && Meaning(f) == v;
    ValueReads(input, s, depth, v);
    PlainReadsOn(input, s, depth, v);
  }

  lemma PlainReadsOn(input: Input, s: Decoding, depth: nat, v: Value)
    requires ReadsOn(input, s, depth, v)
    ensures FormReadsOn(input, s, depth, Plain(v))
  {
    hide Encoded, After, Values, Readable;
  }

  lemma StrFormReads(input: Input, s: Decoding, depth: nat, isText: bool, str: Str)
    requires StrStorable(str, isText) && Holds(input, s.at, StrBytes(if isText then 3 else 2, str))
    requires !AtKey(s) && |s.frames| <= DEPTH
    ensures FormReadsOn(input, s, depth, if isText then TextForm(str) else BytesForm(str))
  {
    hide Holds, ItemAt, StrBytes, StrStorable, Values, PathOf, Finished;
    StrReads(input, s, isText, str);
    OneItem(input, s, depth);
  }

  lemma NoEvents(index: nat, before: bytes, path: bytes)
    ensures ItemEvents([], index, path) == [] && MemberEvents([], before, path) == []
  {
  }

  /** What is left when an open array has no more items. */
  lemma EndReads(input: Input, base: Decoding, depth: nat, index: nat)
    requires Holds(input, base.at, BREAK) && depth <= |base.frames| < DEPTH
    ensures FormsReadOn(input, base, depth, true, [], index)
  {
    hide Holds, Values, Finished, PathOf;
    var s := InList(base, true, 0, index);
    Last(base.frames, Frame(false, None, false, index, []));
    BreakReads(input, s, depth);
    NoEvents(index, [], PathOf(base.frames));
    NothingReadable(DEPTH - |base.frames| - 1);
    assert [] + BREAK == BREAK && base.events + [] == base.events;
    HoldsWithin(input, base, BREAK);
  }

  /** After the first item of an array. */
  lemma FormStep(input: Input, base: Decoding, depth: nat, open: bool, items: seq<Form>, index: nat)
    requires items != [] && depth <= |base.frames| < DEPTH
    requires FormReadsOn(input, InList(base, open, |items|, index), depth, items[0])
    requires Readable(Meaning(items[0]), DEPTH - |base.frames| - 1)
    ensures var next := Grown(base, |Spelled(items[0])|,
            Events(Meaning(items[0]), PathOf(base.frames) + IndexStep(index)));
      Within(input, next) && Values(input, InList(base, open, |items|, index), depth)
        == (if !open && |items| == 1 then Onward(input, Finished(Push(next, EndList)), depth)
            else Values(input, InList(next, open, |items| - 1, index + 1), depth))
  {
    hide Spelled, Meaning, Events, Readable, Values, PathOf, Finished, IndexStep;
    PathInside(base.frames, Frame(false, LeftOf(open, |items|), false, index, []));
    var next := Grown(base, |Spelled(items[0])|, Events(Meaning(items[0]), PathOf(base.frames) + IndexStep(index)));
    ListCounts(next, open, |items|, index);
    assert PathOf(InList(base, open, |items|, index).frames) == PathOf(base.frames) + IndexStep(index);
    assert After(InList(base, open, |items|, index), Meaning(items[0]), |Spelled(items[0])|) ==
        Finished(InList(next, open, |items|, index));
  }

  lemma {:induction false} FormsRead(input: Input, base: Decoding, depth: nat, open: bool, items: seq<Form>, index: nat)
    requires (open || items != []) && ItemsFit(items) && Holds(input, base.at, SpelledItems(items) + Ending(open))
    requires depth <= |base.frames| < DEPTH
    ensures FormsReadOn(input, base, depth, open, items, index)
    decreases items, 0
  {
    hide Spelled, Meaning, Events, Readable, FormStorable, Values, PathOf, Finished, Holds, IndexStep, FormReadsOn;
    if items == [] {
      assert [] + BREAK == BREAK;
      EndReads(input, base, depth, index);
    } else {
      var e, rest, end := Spelled(items[0]), items[1..], SpelledItems(items[1..]) + Ending(open);
      assert SpelledItems(items) + Ending(open) == e + end;
      HoldsParts(input, base.at, e, end);
      ListNotKey(base, open, |items|, index);
      FormReads(input, InList(base, open, |items|, index), depth, items[0]);
      ReadsOrFails(input, InList(base, open, |items|, index), depth, items[0]);
      ItemsFirst(items, index, PathOf(base.frames), DEPTH - |base.frames| - 1);
      if Readable(Meaning(items[0]), DEPTH - |base.frames| - 1) {
        FormStep(input, base, depth, open, items, index);
        var told := Events(Meaning(items[0]), PathOf(base.frames) + IndexStep(index));
        var next := Grown(base, |e|, told);
        if !open && rest == [] {
          NoEvents(index + 1, [], PathOf(base.frames));
          NothingReadable(DEPTH - |base.frames| - 1);
          NoneSpelled();
          assert end == [] && told + [] == told;
        } else {
          FormsRead(input, next, depth, open, rest, index + 1);
          GrownTwice(base, |e|, told, |end|, ItemEvents(ItemsMeaning(rest), index + 1, PathOf(base.frames)));
        }
      }
    }
  }

  /** The first item of an array and the others. */
  lemma ItemsFirst(items: seq<Form>, index: nat, path: bytes, room: nat)
    requires items != []
    ensures var meaning := ItemsMeaning(items);
            && meaning != [] && meaning[1..] == ItemsMeaning(items[1..])
            && (ItemsReadable(meaning, room) <==>
                  Readable(Meaning(items[0]), room) && ItemsReadable(ItemsMeaning(items[1..]), room))
            && ItemEvents(meaning, index, path)
               == Events(Meaning(items[0]), path + IndexStep(index))
                   + ItemEvents(ItemsMeaning(items[1..]), index + 1, path)
  {
    hide Meaning, Events, Readable, IndexStep;
  }

  lemma ListNotKey(base: Decoding, open: bool, count: nat, index: nat)
    requires open || count > 0
    ensures !AtKey(InList(base, open, count, index))
  {
  }

  lemma ReadsOrFails(input: Input, s: Decoding, depth: nat, f: Form)
    requires FormReadsOn(input, s, depth, f) && |s.frames| <= DEPTH
    ensures Within(input, s) && (!Readable(Meaning(f), DEPTH - |s.frames|) ==> Values(input, s, depth).Err?)
    ensures Readable(Meaning(f), DEPTH - |s.frames|) ==> s.at + |Spelled(f)| <= |input.bytes|
  {
    hide Spelled, Meaning, Readable, Values;
  }

  lemma {:induction false} ListFormReads(input: Input, s: Decoding, depth: nat, open: bool, items: seq<Form>)
    requires (open || items != []) && |items| < U64 && ItemsFit(items)
    requires Holds(input, s.at, Spelled(ListForm(open, items)))
    requires !AtKey(s) && depth <= |s.frames| <= DEPTH
    ensures FormReadsOn(input, s, depth, ListForm(open, items))
    decreases items, 1
  {
    hide Values, PathOf, Finished, Holds, SpelledItems, ContainerHead, ItemsFit, ItemEvents, ItemsMeaning;
    var head, end := ContainerHead(false, open, |items|), SpelledItems(items) + Ending(open);
    FormHeadReads(input, s, depth, false, open, |items|, end);
    if |s.frames| < DEPTH {
      var path := PathOf(s.frames);
      var begin: seq<Event> := [Event(BeginList, path)];
      var close: seq<Event> := [Event(EndList, path)];
      var base := Push(Moved(s, |head|), BeginList);
      var gathered := ItemEvents(ItemsMeaning(items), 0, path);
      assert s.events + begin + gathered + close == s.events + (begin + gathered + close);
      FormsRead(input, base, depth, open, items, 0);
    }
  }

  lemma NoneSpelled()
    ensures SpelledItems([]) == [] && SpelledMembers([]) == [] && ItemsMeaning([]) == [] && MembersMeaning([]) == []
  {
  }

  // ---------------------------------------------------------------------
  // Maps
  // ---------------------------------------------------------------------

  lemma KeyFormReads(input: Input, base: Decoding, depth: nat, open: bool, count: nat, index: nat, before: bytes,
                     key: Str)
    requires count > 0 && depth <= |base.frames|
    requires StrStorable(key, true) && Holds(input, base.at, StrBytes(3, key))
    ensures Within(input, base) && Within(input, Grown(base, |StrBytes(3, key)|, []))
    ensures Values(input, InMap(base, open, count, index, true, before), depth)
      == Values(input, InMap(Grown(base, |StrBytes(3, key)|,
          [Event(Key(Flat(key.chunks)), PathOf(base.frames) + KeyStep(before))]),
                             open, count, index, false, Flat(key.chunks)), depth)
  {
    hide Holds, ItemAt, Values, PathOf, StrBytes, StrStorable, Flat, KeyStep, Placed;
    var s := InMap(base, open, count, index, true, before);
    HoldsWithin(input, base, StrBytes(3, key));
    StrReads(input, s, true, key);
    OneItem(input, s, depth);
    KeyPlaced(Moved(base, |StrBytes(3, key)|), open, count, index, before, Flat(key.chunks), s.at);
  }

  /** A text where a map waits for a key is the key. */
  lemma KeyPlaced(base: Decoding, open: bool, count: nat, index: nat, before: bytes, key: bytes, at: nat)
    requires count > 0
    ensures Placed(InMap(base, open, count, index, true, before), Some(TextItem(key)), at)
      == Ok(InMap(Grown(base, 0, [Event(Key(key), PathOf(base.frames) + KeyStep(before))]), open, count, index,
          false, key))
  {
    hide PathOf, KeyStep;
    Last(base.frames, Frame(true, LeftOf(open, count), true, index, before));
    PathInside(base.frames, Frame(true, LeftOf(open, count), true, index, before));
  }

  lemma MapEndReads(input: Input, base: Decoding, depth: nat, index: nat, before: bytes)
    requires Holds(input, base.at, BREAK) && depth <= |base.frames| < DEPTH
    ensures FormMembersReadOn(input, base, depth, true, [], index, before)
  {
    hide Holds, Values, Finished, PathOf;
    var s := InMap(base, true, 0, index, true, before);
    Last(base.frames, Frame(true, None, true, index, before));
    BreakReads(input, s, depth);
    NoEvents(index, before, PathOf(base.frames));
    NothingReadable(DEPTH - |base.frames| - 1);
    assert [] + BREAK == BREAK && base.events + [] == base.events;
    HoldsWithin(input, base, BREAK);
  }

  /** After the value of the first member of a map. */
  lemma FormMemberStep(input: Input, base: Decoding, depth: nat, open: bool, count: nat, index: nat, key: bytes,
                       f: Form)
    requires count > 0 && depth <= |base.frames| < DEPTH
    requires FormReadsOn(input, InMap(base, open, count, index, false, key), depth, f)
    requires Readable(Meaning(f), DEPTH - |base.frames| - 1)
    ensures var next := Grown(base, |Spelled(f)|, Events(Meaning(f), PathOf(base.frames) + KeyStep(key)));
      Within(input, next) && Values(input, InMap(base, open, count, index, false, key), depth)
        == (if !open && count == 1 then Onward(input, Finished(Push(next, EndMap)), depth)
            else Values(input, InMap(next, open, count - 1, index + 1, true, key), depth))
  {
    hide Spelled, Meaning, Events, Readable, Values, PathOf, Finished, KeyStep;
    PathInside(base.frames, Frame(true, LeftOf(open, count), false, index, key));
    var s := InMap(base, open, count, index, false, key);
    var next := Grown(base, |Spelled(f)|, Events(Meaning(f), PathOf(base.frames) + KeyStep(key)));
    MapCounts(next, open, count, index, key);
    assert PathOf(s.frames) == PathOf(base.frames) + KeyStep(key);
    assert After(s, Meaning(f), |Spelled(f)|) == Finished(InMap(next, open, count, index, false, key));
  }

  lemma MapNotKey(base: Decoding, open: bool, count: nat, index: nat, current: bytes)
    requires open || count > 0
    ensures !AtKey(InMap(base, open, count, index, false, current))
  {
  }

  lemma {:induction false} FormMembersRead(input: Input, base: Decoding, depth: nat, open: bool,
                                           members: seq<FormMember>,
                                           index: nat, before: bytes)
    requires (open || members != []) && MembersFit(members)
    requires Holds(input, base.at, SpelledMembers(members) + Ending(open)) && depth <= |base.frames| < DEPTH
    ensures FormMembersReadOn(input, base, depth, open, members, index, before)
    decreases members, 0
  {
    hide Spelled, Meaning, Events, Readable, FormStorable, StrStorable, Values, PathOf, Finished, Holds, KeyStep,
         FormReadsOn, StrBytes, Flat;
    if members == [] {
      assert [] + BREAK == BREAK;
      MapEndReads(input, base, depth, index, before);
    } else {
      var key, f, rest := members[0].key, members[0].value, members[1..];
      assert f < members[0];
      var k, e, end := StrBytes(3, key), Spelled(f), SpelledMembers(rest) + Ending(open);
      assert SpelledMembers(members) + Ending(open) == k + (e + end);
      HoldsParts(input, base.at, k, e + end);
      HoldsParts(input, base.at + |k|, e, end);
      KeyFormReads(input, base, depth, open, |members|, index, before, key);
      var path, name := PathOf(base.frames), Flat(key.chunks);
      var told: seq<Event> := [Event(Key(name), path + KeyStep(before))];
      var keyed := Grown(base, |k|, told);
      MapNotKey(keyed, open, |members|, index, name);
      FormReads(input, InMap(keyed, open, |members|, index, false, name), depth, f);
      ReadsOrFails(input, InMap(keyed, open, |members|, index, false, name), depth, f);
      MembersFirst(members, before, path, DEPTH - |base.frames| - 1);
      if Readable(Meaning(f), DEPTH - |base.frames| - 1) {
        FormMemberStep(input, keyed, depth, open, |members|, index, name, f);
        var events := Events(Meaning(f), path + KeyStep(name));
        var next := Grown(keyed, |e|, events);
        GrownTwice(base, |k|, told, |e|, events);
        if !open && rest == [] {
          NoEvents(index + 1, name, path);
          NothingReadable(DEPTH - |base.frames| - 1);
          NoneSpelled();
          assert end == [] && told + events + [] == told + events;
        } else {
          FormMembersRead(input, next, depth, open, rest, index + 1, name);
          GrownTwice(base, |k| + |e|, told + events, |end|, MemberEvents(MembersMeaning(rest), name, path));
        }
      }
    }
  }

  /** The first member of a map and the others. */
  lemma MembersFirst(members: seq<FormMember>, before: bytes, path: bytes, room: nat)
    requires members != []
    ensures var name := Flat(members[0].key.chunks);
            var meaning := MembersMeaning(members);
            && meaning != [] && meaning[1..] == MembersMeaning(members[1..])
            && (MembersReadable(meaning, room) <==>
                  Readable(Meaning(members[0].value), room) && MembersReadable(MembersMeaning(members[1..]), room))
            && MemberEvents(meaning, before, path)
               == [Event(Key(name), path + KeyStep(before))] + Events(Meaning(members[0].value), path + KeyStep(name))
                  + MemberEvents(MembersMeaning(members[1..]), name, path)
  {
    hide Meaning, Events, Readable, Flat, KeyStep;
  }

  lemma {:induction false} MapFormReads(input: Input, s: Decoding, depth: nat, open: bool, members: seq<FormMember>)
    requires (open || members != []) && |members| < U64 && MembersFit(members)
    requires Holds(input, s.at, Spelled(MapForm(open, members)))
    requires !AtKey(s) && depth <= |s.frames| <= DEPTH
    ensures FormReadsOn(input, s, depth, MapForm(open, members))
    decreases members, 1
  {
    hide Values, PathOf, Finished, Holds, SpelledMembers, ContainerHead, MembersFit, MemberEvents, MembersMeaning;
    var head, end := ContainerHead(true, open, |members|), SpelledMembers(members) + Ending(open);
    FormHeadReads(input, s, depth, true, open, |members|, end);
    if |s.frames| < DEPTH {
      var path := PathOf(s.frames);
      var begin: seq<Event> := [Event(BeginMap, path)];
      var close: seq<Event> := [Event(EndMap, path)];
      var base := Push(Moved(s, |head|), BeginMap);
      var gathered := MemberEvents(MembersMeaning(members), [], path);
      assert s.events + begin + gathered + close == s.events + (begin + gathered + close);
      FormMembersRead(input, base, depth, open, members, 0, []);
    }
  }

  // ---------------------------------------------------------------------
  // Heads and tags
  // ---------------------------------------------------------------------

  /** A head may be longer than its argument needs. */
  lemma LongHeadItem(input: Input, s: Decoding, major: nat, info: nat, argument: nat)
    requires major < 7 && 24 <= info <= 27 && argument < Wide.Pow256(Size(info))
    requires Holds(input, s.at, [major * 32 + info] + Wide.Written(argument, Size(info)))
    ensures Within(input, s) && Within(input, Moved(s, 1 + Size(info)))
    ensures ItemAt(input, s) == ItemOf(input, Moved(s, 1 + Size(info)), major, Some(argument), s.at)
  {
    hide Holds, Take, NumberAt, Break, Simple, ItemOf, Wide.Written, Wide.Pow256;
    HoldsParts(input, s.at, [major * 32 + info], Wide.Written(argument, Size(info)));
    HoldsWithin(input, s, [major * 32 + info] + Wide.Written(argument, Size(info)));
    TakeReads(input, s, [major * 32 + info]);
    NumberReads(input, Moved(s, 1), argument, Size(info));
    HeadParts(major, info);
  }

  /** A tag that says nothing more is skipped. */
  lemma OtherTagReads(input: Input, s: Decoding, tag: nat)
    requires 3 < tag < U64 && Holds(input, s.at, Head(6, tag))
    ensures Within(input, s) && Within(input, Moved(s, |Head(6, tag)|))
    ensures ItemAt(input, s) == ItemAt(input, Moved(s, |Head(6, tag)|))
  {
    hide Holds, Head, ItemAt;
    HeadItem(input, s, 6, tag);
  }

  /** Tag 1 and an `Int` are the date and time so many seconds after 1970, whose
      text reads as that instant in the years 0 to 9999. */
  lemma TimeReads(input: Input, s: Decoding, seconds: int)
    requires -0x8000_0000_0000_0000 <= seconds < 0x8000_0000_0000_0000
    requires Holds(input, s.at, Head(6, 1) + IntBytes(seconds))
    ensures var n := |Head(6, 1) + IntBytes(seconds)|;
            && Within(input, s) && Within(input, Moved(s, n))
            && ItemAt(input, s) == Ok((None, Dated(Moved(s, n), Instants.Format(seconds, 0))))
    ensures Instants.FourDigitYear(seconds) ==> Instants.Parsed(Instants.Format(seconds, 0)) == Some((seconds, 0))
  {
    hide Holds, Head, ItemAt, Instants.Format, Instants.FourDigitYear, Instants.Parsed, Dated, IntBytes, IntegerBytes;
    HoldsParts(input, s.at, Head(6, 1), IntBytes(seconds));
    HoldsWithin(input, s, Head(6, 1) + IntBytes(seconds));
    HeadItem(input, s, 6, 1);
    IntIsInteger(seconds);
    IntegerItemReads(input, Moved(s, |Head(6, 1)|), seconds);
    Instants.RoundTrip(seconds, 0);
  }

  // ---------------------------------------------------------------------
  // Whole inputs
  // ---------------------------------------------------------------------

  lemma SpelledSome(f: Form)
    ensures Spelled(f) != []
  {
    match f
    case Plain(v) => EncodedSome(v);
    case _ =>
  }

  /** Data in any of the forms is decoded to the events of the value it stands
      for, exactly when that can be read. */
  lemma FormDecodes(f: Form, floatTime: Floats.Number -> bytes)
    requires FormStorable(f)
    ensures var parsed := Cbor.Parsed(Input(Spelled(f), floatTime));
      && (parsed.Ok? <==> Readable(Meaning(f), DEPTH))
      && (Readable(Meaning(f), DEPTH) ==> parsed == Ok(Events(Meaning(f), PathOf([]))))
  {
    hide Spelled, Meaning, Values, Events, Readable, FormStorable;
    var input := Input(Spelled(f), floatTime);
    SpelledSome(f);
    assert input.bytes[0..0 + |input.bytes|] == input.bytes;
    FormReads(input, START, 0, f);
    assert [] + Events(Meaning(f), PathOf([])) == Events(Meaning(f), PathOf([]));
  }

  /** A string in chunks is one event with all of them. */
  lemma ChunksDecode(chunks: seq<bytes>, floatTime: Floats.Number -> bytes)
    requires forall i :: 0 <= i < |chunks| ==> |chunks[i]| < U64
    requires |Flat(chunks)| < U64
    ensures Cbor.Parsed(Input([0x5F] + (Chunked(2, chunks) + [0xFF]), floatTime))
            == Ok([Event(Bytes(Flat(chunks)), PathOf([]))])
    ensures Utf8.Valid(Flat(chunks)) ==>
            Cbor.Parsed(Input([0x7F] + (Chunked(3, chunks) + [0xFF]), floatTime))
            == Ok([Event(What.Text(Flat(chunks)), PathOf([]))])
  {
    hide Cbor.Parsed, Chunked, Flat, Utf8.Valid;
    FormDecodes(BytesForm(Str(true, chunks)), floatTime);
    if Utf8.Valid(Flat(chunks)) { FormDecodes(TextForm(Str(true, chunks)), floatTime); }
  }

  /** An array or a map of indefinite length gives the events, and the paths,
      of the definite one. */
  lemma OpenDecodesAsClosed(items: seq<Form>, members: seq<FormMember>, floatTime: Floats.Number -> bytes)
    requires |items| < U64 && ItemsFit(items) && |members| < U64 && MembersFit(members)
    ensures var open := Cbor.Parsed(Input(Spelled(ListForm(true, items)), floatTime));
            var closed := Cbor.Parsed(Input(Spelled(ListForm(false, items)), floatTime));
            open.Ok? == closed.Ok? && (open.Ok? ==> open == closed)
    ensures var open := Cbor.Parsed(Input(Spelled(MapForm(true, members)), floatTime));
            var closed := Cbor.Parsed(Input(Spelled(MapForm(false, members)), floatTime));
            open.Ok? == closed.Ok? && (open.Ok? ==> open == closed)
  {
    hide Cbor.Parsed, Spelled, Events, Readable;
    FormDecodes(ListForm(true, items), floatTime);
    FormDecodes(ListForm(false, items), floatTime);
    FormDecodes(MapForm(true, members), floatTime);
    FormDecodes(MapForm(false, members), floatTime);
  }
}
