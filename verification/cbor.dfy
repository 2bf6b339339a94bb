/**
 What CBOR data items read as (cbor.rs): the events of an item, each with the
 path it comes from, or the first failure. The functions follow the decoder
 step by step; `CborDecoder` does the same in place.
 */
module Cbor {
  import opened Bytes
  import opened Decimal
  import opened Floats
  import Instants
  import Utf8
  import Wide

  // ---------------------------------------------------------------------
  // Events
  // ---------------------------------------------------------------------

  datatype What =
    | Null
    | Bool(bool)
    | Int(int)
    | Float(Floats.Number)
    | Text(bytes)
    | Number(bytes)
    | BeginList
    | EndList
    | BeginMap
    | EndMap
    | Key(bytes)
    | Bytes(bytes)
    | DateTime(bytes)

  datatype Event = Event(what: What, path: bytes)

  type positive = n: int | n > 0 witness 1

  /** An open container: the items it still waits for, if their number is known;
      whether a key comes next, in a map, and which key the value at hand is
      under. */
  datatype Frame = Frame(isMap: bool, left: Option<positive>, key: bool, index: nat, current: bytes)

  datatype Decoding = Decoding(at: nat, frames: seq<Frame>, events: seq<Event>)

  /** `$`, then `.key` or `[index]` for every container open. */
  function PathOf(frames: seq<Frame>): bytes {
    if frames == [] then [0x24]
    else PathOf(frames[..|frames| - 1]) + Step(frames[|frames| - 1])
  }

  function Step(frame: Frame): bytes {
    if frame.isMap then KeyStep(frame.current) else IndexStep(frame.index)
  }

  function KeyStep(key: bytes): bytes { [0x2E] + key }

  function IndexStep(index: nat): bytes { [0x5B] + Digits(index) + [0x5D] }

  datatype Fault =
    | Empty
    | Trailing(at: nat)
    | InputEnds(at: nat)
    | Reserved(info: nat, at: nat)
    | OtherChunk(at: nat)
    | StrayBreak(at: nat)
    | Indefinite(at: nat)
    | NotUtf8(at: nat)
    | BadKey(at: nat)
    | TooDeep(at: nat)
    | UnknownSimple(info: nat, at: nat)
    | NotDateTime(at: nat)
    | NotTime(at: nat)
    | NotBytes(tag: nat, at: nat)
    | TooLarge(tag: nat, at: nat)

  datatype Failure = Failure(fault: Fault, path: bytes)

  function Fail<T>(s: Decoding, fault: Fault): Result<T, Failure> { Err(Failure(fault, PathOf(s.frames))) }

  /** The deepest nesting read. */
  const DEPTH: nat := 512

  /** A scalar of a data item: `Negative(n)` is the integer -1 - n. */
  datatype Item =
    | IntItem(value: int)
    | Big(nat)
    | Negative(nat)
    | FloatItem(number: Floats.Number)
    | TextItem(text: bytes)
    | BytesItem(content: bytes)
    | BoolItem(bool)
    | NullItem

  /** The bytes read, and the text of a time given as a float, whose rounding
      is not part of this model. */
  datatype Input = Input(bytes: bytes, floatTime: Floats.Number -> bytes)

  const I64: nat := 0x8000_0000_0000_0000

  function IntText(n: int): bytes { if n < 0 then [0x2D] + Digits(-n) else Digits(n) }

  function AsInt(n: nat): Item { if n < I64 then IntItem(n) else Big(n) }

  function AsNegative(n: nat): Item { if n < I64 then IntItem(-1 - n) else Negative(n) }

  // ---------------------------------------------------------------------
  // Bytes and heads
  // ---------------------------------------------------------------------

  predicate Within(input: Input, s: Decoding) { s.at <= |input.bytes| }

  /** `s` is further on in the same input than `t`. */
  predicate Past(input: Input, t: Decoding, s: Decoding) { t.at < s.at <= |input.bytes| }

  function Take(input: Input, s: Decoding, count: nat): (r: Content)
    requires Within(input, s)
    ensures r.Ok? ==> r.value.1 == s.(at := s.at + count) && Within(input, r.value.1) && |r.value.0| == count
  {
    if |input.bytes| - s.at < count then Fail(s, InputEnds(s.at))
    else Ok((input.bytes[s.at..s.at + count], s.(at := s.at + count)))
  }

  /** 1, 2, 4 or 8 bytes. */
  function Size(info: nat): nat {
    if info == 24 then 1 else if info == 25 then 2 else if info == 26 then 4 else 8
  }

  function NumberAt(input: Input, s: Decoding, size: nat): (r: Result<(nat, Decoding), Failure>)
    requires Within(input, s)
    ensures r.Ok? ==> r.value.1 == s.(at := s.at + size) && Within(input, r.value.1)
  {
    var taken :- Take(input, s, size);
    Ok((Wide.Number(taken.0), taken.1))
  }

  /** The argument of a head that started at `at`; `None` for an indefinite
      length. */
  function Argument(input: Input, s: Decoding, info: nat, at: nat): (r: Result<(Option<nat>, Decoding), Failure>)
    requires Within(input, s)
    ensures r.Ok? ==> s.at <= r.value.1.at && r.value.1 == s.(at := r.value.1.at) && Within(input, r.value.1)
  {
    if info <= 23 then Ok((Some(info), s))
    else if info <= 27 then
      var number :- NumberAt(input, s, Size(info));
      Ok((Some(number.0), number.1))
    else if info == 31 then Ok((None, s))
    else Fail(s, Reserved(info, at))
  }

  type Content = Result<(bytes, Decoding), Failure>

  function Prefixed(content: bytes, rest: Content): Content {
    var read :- rest;
    Ok((content + read.0, read.1))
  }

  /** The chunks of an indefinite string, up to its break. */
  function ChunksFrom(input: Input, s: Decoding, major: nat, at: nat): (r: Content)
    requires Within(input, s)
    ensures r.Ok? ==> Past(input, s, r.value.1) && r.value.1 == s.(at := r.value.1.at)
    decreases |input.bytes| - s.at
  {
    var taken :- Take(input, s, 1);
    var head: nat := taken.0[0];
    if head == 0xFF then Ok(([], taken.1))
    else if head / 32 != major || head % 32 == 31 then Fail(taken.1, OtherChunk(at))
    else
      var length :- Argument(input, taken.1, head % 32, at);
      var chunk :- Take(input, length.1, if length.0.Some? then length.0.value else 0);
      Prefixed(chunk.0, ChunksFrom(input, chunk.1, major, at))
  }

  function Chunks(input: Input, s: Decoding, major: nat, length: Option<nat>, at: nat): (r: Content)
    requires Within(input, s)
    ensures r.Ok? ==> s.at <= r.value.1.at && r.value.1 == s.(at := r.value.1.at) && Within(input, r.value.1)
  {
    match length
    case Some(count) => Take(input, s, count)
    case None => ChunksFrom(input, s, major, at)
  }

  // ---------------------------------------------------------------------
  // Containers
  // ---------------------------------------------------------------------

  function Push(s: Decoding, what: What): Decoding { s.(events := s.events + [Event(what, PathOf(s.frames))]) }

  predicate AtKey(s: Decoding) {
    s.frames != [] && s.frames[|s.frames| - 1].isMap && s.frames[|s.frames| - 1].key
  }

  function WithLast(s: Decoding, frame: Frame): Decoding
    requires s.frames != []
  {
    s.(frames := s.frames[..|s.frames| - 1] + [frame])
  }

  /** One item more in the innermost container, which ends with its last. */
  function Finished(s: Decoding): (r: Decoding)
    ensures r.at == s.at && |r.frames| <= |s.frames|
    decreases |s.frames|, 1
  {
    if s.frames == [] then s
    else
      var last := s.frames[|s.frames| - 1];
      if last.isMap && last.key then s
      else
        var counted := last.(key := last.isMap || last.key, index := last.index + 1);
        match last.left
        case None => WithLast(s, counted)
        case Some(left) =>
          if left == 1 then Closed(s) else WithLast(s, counted.(left := Some(left - 1)))
  }

  function Closed(s: Decoding): (r: Decoding)
    requires s.frames != []
    ensures r.at == s.at && |r.frames| < |s.frames|
    decreases |s.frames|, 0
  {
    var n := |s.frames| - 1;
    Finished(Push(s.(frames := s.frames[..n]), if s.frames[n].isMap then EndMap else EndList))
  }

  /** A container begins, and ends at once when it is empty. */
  function Opened(s: Decoding, isMap: bool, length: Option<nat>): (r: Decoding)
    ensures r.at == s.at && |r.frames| <= |s.frames| + 1
  {
    var begun := Push(s, if isMap then BeginMap else BeginList);
    match length
    case None => begun.(frames := begun.frames + [Frame(isMap, None, isMap, 0, [])])
    case Some(count) =>
      if count == 0 then Finished(Push(begun, if isMap then EndMap else EndList))
      else begun.(frames := begun.frames + [Frame(isMap, Some(count), isMap, 0, [])])
  }

  /** A key: its event still has the path of the one before it. */
  function Keyed(s: Decoding, key: bytes): Decoding
    requires s.frames != []
  {
    var last := s.frames[|s.frames| - 1];
    WithLast(Push(s, Key(key)), last.(key := false, current := key))
  }

  function Scalar(s: Decoding, what: What): Decoding { Finished(Push(s, what)) }

  /** A date and time, which may be a key. */
  function Dated(s: Decoding, text: bytes): (r: Decoding)
    ensures r.at == s.at && |r.frames| <= |s.frames|
  {
    if AtKey(s) then Keyed(s, text) else Scalar(s, DateTime(text))
  }

  // ---------------------------------------------------------------------
  // Items
  // ---------------------------------------------------------------------

  type Read = Result<(Option<Item>, Decoding), Failure>

  predicate Advances(input: Input, s: Decoding, r: Read) {
    r.Ok? ==> Past(input, s, r.value.1)
  }

  function Text(s: Decoding, text: bytes, at: nat): Read {
    if Utf8.Valid(text) then Ok((Some(TextItem(text)), s)) else Fail(s, NotUtf8(at))
  }

  function Simple(input: Input, s: Decoding, info: nat, at: nat): (r: Read)
    requires Within(input, s)
    ensures r.Ok? ==> s.at <= r.value.1.at && r.value.1 == s.(at := r.value.1.at) && Within(input, r.value.1)
  {
    match info
    case 20 => Ok((Some(BoolItem(false)), s))
    case 21 => Ok((Some(BoolItem(true)), s))
    case 22 => Ok((Some(NullItem), s))
    case 23 => Ok((Some(NullItem), s))
    case 25 =>
      var half :- NumberAt(input, s, 2);
      Ok((Some(FloatItem(Half(half.0 % F16))), half.1))
    case 26 =>
      var single :- NumberAt(input, s, 4);
      Ok((Some(FloatItem(Single(single.0 % F32))), single.1))
    case 27 =>
      var double :- NumberAt(input, s, 8);
      Ok((Some(FloatItem(Double(double.0 % F64))), double.1))
    case _ => Fail(s, UnknownSimple(info, at))
  }

  function Container(s: Decoding, isMap: bool, length: Option<nat>, at: nat): (r: Read)
    ensures r.Ok? ==> r.value.1.at == s.at
  {
    if AtKey(s) then Fail(s, BadKey(at))
    else if |s.frames| >= DEPTH then Fail(s, TooDeep(at))
    else Ok((None, Opened(s, isMap, length)))
  }

  function Break(s: Decoding, at: nat): (r: Read)
    ensures r.Ok? ==> r.value.1.at == s.at
  {
    if s.frames == [] then Fail(s, StrayBreak(at))
    else
      var last := s.frames[|s.frames| - 1];
      if last.left.None? && (!last.isMap || last.key) then Ok((None, Closed(s))) else Fail(s, StrayBreak(at))
  }

  /** The next scalar, or none when a container opened or closed instead. */
  function ItemAt(input: Input, s: Decoding): (r: Read)
    requires Within(input, s)
    ensures Advances(input, s, r)
    decreases |input.bytes| - s.at, 0
  {
    var at := s.at;
    var taken :- Take(input, s, 1);
    var head: nat := taken.0[0];
    var major, info := head / 32, head % 32;
    if head == 0xFF then Break(taken.1, at)
    else if major == 7 then Simple(input, taken.1, info, at)
    else
      var argument :- Argument(input, taken.1, info, at);
      ItemOf(input, argument.1, major, argument.0, at)
  }

  /** The item a head announces, whose argument has been read. */
  function ItemOf(input: Input, s: Decoding, major: nat, argument: Option<nat>, at: nat): (r: Read)
    requires Within(input, s)
    ensures r.Ok? ==> s.at <= r.value.1.at <= |input.bytes|
    decreases |input.bytes| - s.at, 2
  {
    if major == 2 then
      var content :- Chunks(input, s, 2, argument, at);
      Ok((Some(BytesItem(content.0)), content.1))
    else if major == 3 then
      var content :- Chunks(input, s, 3, argument, at);
      Text(content.1, content.0, at)
    else if major == 4 || major == 5 then Container(s, major == 5, argument, at)
    else
      match argument
      case None => Fail(s, Indefinite(at))
      case Some(value) =>
        if major == 0 then Ok((Some(AsInt(value)), s))
        else if major == 1 then Ok((Some(AsNegative(value)), s))
        else Tagged(input, s, value, at)
  }

  /** A tagged item: a date and time, a time, an integer in bytes, or the item. */
  function Tagged(input: Input, s: Decoding, tag: nat, at: nat): (r: Read)
    requires Within(input, s)
    ensures Advances(input, s, r)
    decreases |input.bytes| - s.at, 1
  {
    var item :- ItemAt(input, s);
    if tag == 0 then DateTimeOf(item.0, item.1, at)
    else if tag == 1 then TimeOf(input, item.0, item.1, at)
    else if tag == 2 || tag == 3 then IntegerOf(item.0, item.1, tag, at)
    else Ok(item)
  }

  function DateTimeOf(item: Option<Item>, s: Decoding, at: nat): (r: Read)
    ensures r.Ok? ==> r.value.1.at == s.at
  {
    match item
    case Some(TextItem(text)) =>
      if Instants.Parsed(text).Some? then Ok((None, Dated(s, text))) else Fail(s, NotDateTime(at))
    case _ => Fail(s, NotDateTime(at))
  }

  function TimeOf(input: Input, item: Option<Item>, s: Decoding, at: nat): (r: Read)
    ensures r.Ok? ==> r.value.1.at == s.at
  {
    match item
    case Some(IntItem(seconds)) => Ok((None, Dated(s, Instants.Format(seconds, 0))))
    case Some(FloatItem(number)) =>
      if number.Finite? then Ok((None, Dated(s, input.floatTime(number)))) else Fail(s, NotTime(at))
    case _ => Fail(s, NotTime(at))
  }

  function IntegerOf(item: Option<Item>, s: Decoding, tag: nat, at: nat): (r: Read)
    ensures r.Ok? ==> r.value.1.at == s.at
  {
    match item
    case Some(BytesItem(content)) =>
      var significant := Wide.Significant(content);
      if |significant| > 16 then Fail(s, TooLarge(tag, at))
      else
        var value := Wide.Number(significant);
        Ok((Some(if tag == 2 then AsInt(value) else AsNegative(value)), s))
    case _ => Fail(s, NotBytes(tag, at))
  }

  // ---------------------------------------------------------------------
  // Values
  // ---------------------------------------------------------------------

  /** The text a key reads as: itself, or an integer's digits. */
  function KeyText(item: Item): Option<bytes> {
    match item
    case TextItem(text) => Some(text)
    case IntItem(n) => Some(IntText(n))
    case Big(n) => Some(IntText(n))
    case Negative(n) => Some(IntText(-1 - n))
    case _ => None
  }

  function WhatOf(item: Item): What {
    match item
    case IntItem(n) => Int(n)
    case Big(n) => Number(IntText(n))
    case Negative(n) => Number(IntText(-1 - n))
    case FloatItem(number) => Float(number)
    case TextItem(text) => What.Text(text)
    case BytesItem(content) => Bytes(content)
    case BoolItem(b) => Bool(b)
    case NullItem => Null
  }

  /** A scalar placed: as the key a map waits for, or as a value. */
  function Placed(s: Decoding, item: Option<Item>, at: nat): (r: Result<Decoding, Failure>)
    ensures r.Ok? ==> r.value.at == s.at && |r.value.frames| <= |s.frames|
  {
    match item
    case None => Ok(s)
    case Some(scalar) =>
      if AtKey(s) then
        match KeyText(scalar)
        case Some(key) => Ok(Keyed(s, key))
        case None => Fail(s, BadKey(at))
      else Ok(Scalar(s, WhatOf(scalar)))
  }

  /** Reads on until no more than `depth` containers are open. */
  function Values(input: Input, s: Decoding, depth: nat): (r: Result<Decoding, Failure>)
    requires Within(input, s)
    ensures r.Ok? ==> |r.value.frames| <= depth && Past(input, s, r.value)
    decreases |input.bytes| - s.at
  {
    var item :- ItemAt(input, s);
    var placed :- Placed(item.1, item.0, s.at);
    if |placed.frames| <= depth then Ok(placed) else Values(input, placed, depth)
  }

  const START := Decoding(0, [], [])

  /** The events of the one data item the input is. */
  function Parsed(input: Input): Result<seq<Event>, Failure> {
    if input.bytes == [] then Err(Failure(Empty, PathOf([])))
    else
      var end :- Values(input, START, 0);
      if end.at < |input.bytes| then Err(Failure(Trailing(end.at), PathOf([]))) else Ok(end.events)
  }

  // ---------------------------------------------------------------------
  // The paths of keys
  // ---------------------------------------------------------------------

  /** The event of a key has the path of the key before it in its map, `$.`
      and so on before the first: its own path only when they are the same. */
  lemma KeyHasPathBefore(s: Decoding, key: bytes)
    requires s.frames != [] && s.frames[|s.frames| - 1].isMap
    ensures var t := Keyed(s, key);
            var outer, last := PathOf(s.frames[..|s.frames| - 1]), s.frames[|s.frames| - 1];
            && t.events == s.events + [Event(Key(key), outer + KeyStep(last.current))]
            && PathOf(t.frames) == outer + KeyStep(key)
            && (t.events[|s.events|].path == PathOf(t.frames) <==> last.current == key)
  {
    hide PathOf, KeyStep;
    var t := Keyed(s, key);
    var n := |s.frames| - 1;
    LastStep(s.frames);
    LastStep(t.frames);
    assert t.frames[..n] == s.frames[..n];
    KeyStepsDecide(PathOf(s.frames[..n]), s.frames[n].current, key);
  }

  lemma LastStep(frames: seq<Frame>)
    requires frames != [] && frames[|frames| - 1].isMap
    ensures PathOf(frames) == PathOf(frames[..|frames| - 1]) + KeyStep(frames[|frames| - 1].current)
  {
  }

  lemma KeyStepsDecide(path: bytes, a: bytes, b: bytes)
    ensures path + KeyStep(a) == path + KeyStep(b) <==> a == b
  {
    var s, t := path + KeyStep(a), path + KeyStep(b);
    assert s[|path| + 1..] == a && t[|path| + 1..] == b;
  }
}
