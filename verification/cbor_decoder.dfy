/** The decoder, which advances over its input in place (cbor.rs). */
module CborDecoder {
  import opened Bytes
  import opened Cbor
  import opened Decimal
  import opened Floats
  import Instants
  import Utf8
  import Wide

  class Decoder {
    const input: Input
    var at: nat
    var frames: seq<Frame>
    var events: seq<Event>

    constructor (input: Input)
      ensures this.input == input && State() == START
    {
      this.input := input;
      at, frames, events := 0, [], [];
    }

    function State(): Decoding
      reads this
    {
      Decoding(at, frames, events)
    }

    predicate Inside()
      reads this
    {
      at <= |input.bytes|
    }

    function Fault<T>(fault: Cbor.Fault): Result<T, Failure>
      reads this
    {
      Err(Failure(fault, PathOf(frames)))
    }

    method Take(count: nat) returns (r: Result<bytes, Failure>)
      requires Inside()
      modifies this`at
      ensures Inside()
      ensures match Cbor.Take(input, old(State()), count)
        case Ok((taken, t)) => r == Ok(taken) && State() == t
        case Err(failure) => r == Err(failure) && State() == old(State())
    {
      if |input.bytes| - at < count { return Fault(InputEnds(at)); }
      var taken := input.bytes[at..at + count];
      at := at + count;
      return Ok(taken);
    }

    /** A number of `size` bytes, folded from the first to the last. */
    method NumberAt(size: nat) returns (r: Result<nat, Failure>)
      requires Inside()
      modifies this`at
      ensures Inside()
      ensures match Cbor.NumberAt(input, old(State()), size)
        case Ok((value, t)) => r == Ok(value) && State() == t
        case Err(failure) => r == Err(failure) && State() == old(State())
    {
      var taken :- Take(size);
      var value := Fold(taken);
      return Ok(value);
    }

    method Argument(info: nat, from: nat) returns (r: Result<Option<nat>, Failure>)
      requires Inside()
      modifies this`at
      ensures Inside()
      ensures match Cbor.Argument(input, old(State()), info, from)
        case Ok((length, t)) => r == Ok(length) && State() == t
        case Err(failure) => r == Err(failure) && State() == old(State())
    {
      if info <= 23 { return Ok(Some(info)); }
      if info <= 27 {
        var number :- NumberAt(Size(info));
        return Ok(Some(number));
      }
      if info == 31 { return Ok(None); }
      return Fault(Reserved(info, from));
    }

    method Push(what: What)
      modifies this`events
      ensures State() == Cbor.Push(old(State()), what)
    {
      events := events + [Event(what, PathOf(frames))];
    }

    /** One item more in the innermost container, which ends with its last. */
    method Done()
      modifies this`frames, this`events
      ensures State() == Finished(old(State()))
      decreases |frames|, 1
    {
      if frames == [] { return; }
      var n := |frames| - 1;
      var frame := frames[n];
      if frame.isMap && !frame.key {
        frame := frame.(key := true);
      } else if frame.isMap {
        return;
      }
      frame := frame.(index := frame.index + 1);
      match frame.left {
        case None => frames := frames[..n] + [frame];
        case Some(left) =>
          if left == 1 {
            Close();
          } else {
            frames := frames[..n] + [frame.(left := Some(left - 1))];
          }
      }
    }

    method Close()
      requires frames != []
      modifies this`frames, this`events
      ensures State() == Closed(old(State()))
      decreases |frames|, 0
    {
      var frame := frames[|frames| - 1];
      frames := frames[..|frames| - 1];
      Push(if frame.isMap then EndMap else EndList);
      Done();
    }

    method Chunks(major: nat, length: Option<nat>, from: nat) returns (r: Result<bytes, Failure>)
      requires Inside()
      modifies this`at
      ensures Inside()
      ensures match Cbor.Chunks(input, old(State()), major, length, from)
        case Ok((content, t)) => r == Ok(content) && State() == t
        case Err(failure) => r == Err(failure)
    {
      if length.Some? {
        var taken :- Take(length.value);
        return Ok(taken);
      }
      var content: bytes := [];
      PrefixedNone(ChunksFrom(input, State(), major, from));
      while true
        invariant Inside()
        invariant frames == old(frames) && events == old(events)
        invariant Prefixed(content, ChunksFrom(input, State(), major, from)) ==
                  ChunksFrom(input, old(State()), major, from)
        decreases |input.bytes| - at
      {
        var head :- Take(1);
        if head[0] == 0xFF {
          assert content + [] == content;
          return Ok(content);
        }
        if head[0] / 32 != major || head[0] % 32 == 31 { return Fault(OtherChunk(from)); }
        var length :- Argument(head[0] % 32, from);
        var chunk :- Take(if length.Some? then length.value else 0);
        PrefixedTwice(content, chunk, ChunksFrom(input, State(), major, from));
        content := content + chunk;
      }
    }

    /** Whether an integer or tag has a length. */
    method Definite(argument: Option<nat>, from: nat) returns (r: Result<nat, Failure>)
      ensures r == match argument case Some(value) => Ok(value) case None => Fault(Indefinite(from))
    {
      match argument {
        case Some(value) => return Ok(value);
        case None => return Fault(Indefinite(from));
      }
    }

    method Simple(info: nat, from: nat) returns (r: Result<Option<Item>, Failure>)
      requires Inside()
      modifies this`at
      ensures Inside()
      ensures Agrees(r, Cbor.Simple(input, old(State()), info, from), State())
    {
      match info {
        case 20 => return Ok(Some(BoolItem(false)));
        case 21 => return Ok(Some(BoolItem(true)));
        case 22 | 23 => return Ok(Some(NullItem));
        case 25 =>
          var half :- NumberAt(2);
          return Ok(Some(FloatItem(Half(half % F16))));
        case 26 =>
          var single :- NumberAt(4);
          return Ok(Some(FloatItem(Single(single % F32))));
        case 27 =>
          var double :- NumberAt(8);
          return Ok(Some(FloatItem(Double(double % F64))));
        case _ => return Fault(UnknownSimple(info, from));
      }
    }

    /** A container opened: an array or a map. */
    method Open(isMap: bool, length: Option<nat>, from: nat) returns (r: Result<Option<Item>, Failure>)
      modifies this`frames, this`events
      ensures Agrees(r, Container(old(State()), isMap, length, from), State())
    {
      if AtKey(State()) { return Fault(BadKey(from)); }
      if |frames| >= DEPTH { return Fault(TooDeep(from)); }
      Push(if isMap then BeginMap else BeginList);
      if length == Some(0) {
        Push(if isMap then EndMap else EndList);
        Done();
      } else {
        var left: Option<positive> := match length case Some(count) => Some(count) case None => None;
        frames := frames + [Frame(isMap, left, isMap, 0, [])];
      }
      return Ok(None);
    }

    method Break(from: nat) returns (r: Result<Option<Item>, Failure>)
      modifies this`frames, this`events
      ensures Agrees(r, Cbor.Break(old(State()), from), State())
    {
      if frames != [] {
        var frame := frames[|frames| - 1];
        if frame.left.None? && (!frame.isMap || frame.key) {
          Close();
          return Ok(None);
        }
      }
      return Fault(StrayBreak(from));
    }

    /** One item, in place: a scalar, or `None` when what was read began or ended
        a container. */
    method ReadItem() returns (r: Result<Option<Item>, Failure>)
      requires Inside()
      modifies this
      ensures Inside()
      ensures Agrees(r, ItemAt(input, old(State())), State())
      decreases |input.bytes| - at, 0
    {
      hide Cbor.Break, Cbor.Simple, Cbor.Argument, Cbor.Chunks, Container, Cbor.Tagged, Utf8.Valid;
      var from := at;
      var taken :- Take(1);
      var head: nat := taken[0];
      var major, info := head / 32, head % 32;
      if head == 0xFF {
        r := Break(from);
        return;
      }
      if major == 7 {
        r := Simple(info, from);
        return;
      }
      var argument :- Argument(info, from);
      match major {
        case 0 =>
          var value :- Definite(argument, from);
          return Ok(Some(AsInt(value)));
        case 1 =>
          var value :- Definite(argument, from);
          return Ok(Some(AsNegative(value)));
        case 2 =>
          var content :- Chunks(2, argument, from);
          return Ok(Some(BytesItem(content)));
        case 3 =>
          var content :- Chunks(3, argument, from);
          if Utf8.Valid(content) { return Ok(Some(TextItem(content))); }
          return Fault(NotUtf8(from));
        case 4 | 5 => r := Open(major == 5, argument, from);
        case _ =>
          var tag :- Definite(argument, from);
          r := ReadTagged(tag, from);
      }
    }

    method ReadTagged(tag: nat, from: nat) returns (r: Result<Option<Item>, Failure>)
      requires Inside()
      modifies this
      ensures Inside()
      ensures Agrees(r, Tagged(input, old(State()), tag, from), State())
      decreases |input.bytes| - at, 1
    {
      hide ItemAt, Dated, Instants.Parsed, Instants.Format, Wide.Number, Wide.Significant;
      var item :- ReadItem();
      match tag {
        case 0 =>
          match item {
            case Some(TextItem(text)) =>
              var parsed := Instants.Parse(text);
              if parsed.Some? {
                ScalarDateTime(text);
                return Ok(None);
              }
            case _ =>
          }
          return Fault(NotDateTime(from));
        case 1 =>
          match item {
            case Some(IntItem(seconds)) =>
              ScalarDateTime(Instants.Format(seconds, 0));
              return Ok(None);
            case Some(FloatItem(number)) =>
              if number.Finite? {
                ScalarDateTime(input.floatTime(number));
                return Ok(None);
              }
            case _ =>
          }
          return Fault(NotTime(from));
        case 2 | 3 =>
          match item {
            case Some(BytesItem(content)) =>
              var significant := Wide.Significant(content);
              if |significant| > 16 { return Fault(TooLarge(tag, from)); }
              var value := Fold(significant);
              return Ok(Some(if tag == 2 then AsInt(value) else AsNegative(value)));
            case _ => return Fault(NotBytes(tag, from));
          }
        case _ => return Ok(item);
      }
    }

    method ScalarDateTime(text: bytes)
      modifies this`frames, this`events
      ensures State() == Dated(old(State()), text)
    {
      if AtKey(State()) {
        Push(Key(text));
        SetKey(text);
      } else {
        Push(DateTime(text));
        Done();
      }
    }

    method SetKey(key: bytes)
      modifies this`frames
      ensures frames == if old(frames) == [] then []
              else WithLast(old(State()), old(frames)[|old(frames)| - 1].(key := false, current := key)).frames
    {
      if frames != [] {
        var n := |frames| - 1;
        frames := frames[..n] + [frames[n].(key := false, current := key)];
      }
    }

    /** Reads until everything opened by the first item is closed again. */
    method Value() returns (r: Result<(), Failure>)
      requires Inside()
      modifies this
      ensures Inside()
      ensures match Values(input, old(State()), |old(frames)|)
        case Ok(t) => r == Ok(()) && State() == t
        case Err(failure) => r == Err(failure)
    {
      hide ItemAt, Finished, KeyText, WhatOf;
      var depth := |frames|;
      while true
        invariant Inside()
        invariant Values(input, State(), depth) == Values(input, old(State()), depth)
        decreases |input.bytes| - at
      {
        var from := at;
        var item :- ReadItem();
        if item.Some? {
          if AtKey(State()) {
            var key := KeyText(item.value);
            if key.None? { return Fault(BadKey(from)); }
            Push(Key(key.value));
            SetKey(key.value);
          } else {
            Push(WhatOf(item.value));
            Done();
          }
        }
        if |frames| <= depth { return Ok(()); }
      }
    }
  }

  /** A step in place gave what the function says, and its state. */
  ghost predicate Agrees(r: Result<Option<Item>, Failure>, read: Read, state: Decoding) {
    match read
    case Ok((item, t)) => r == Ok(item) && state == t
    case Err(failure) => r == Err(failure)
  }

  /** The events of one data item, or the first failure. */
  method Parse(input: Input) returns (r: Result<seq<Event>, Failure>)
    ensures r == Parsed(input)
  {
    hide Values;
    if input.bytes == [] { return Err(Failure(Empty, PathOf([]))); }
    var decoder := new Decoder(input);
    var _ :- decoder.Value();
    if decoder.at < |input.bytes| { return Err(Failure(Trailing(decoder.at), PathOf([]))); }
    return Ok(decoder.events);
  }

  lemma PrefixedNone(rest: Content)
    ensures Prefixed([], rest) == rest
  {
    assert rest.Ok? ==> [] + rest.value.0 == rest.value.0;
  }

  lemma PrefixedTwice(a: bytes, b: bytes, rest: Content)
    ensures Prefixed(a, Prefixed(b, rest)) == Prefixed(a + b, rest)
  {
    assert rest.Ok? ==> a + (b + rest.value.0) == a + b + rest.value.0;
  }

  /** `fold(0, |value, byte| value << 8 | byte)`. */
  method Fold(s: bytes) returns (value: nat)
    ensures value == Wide.Number(s)
  {
    value := 0;
    for i := 0 to |s|
      invariant value == Wide.Number(s[..i])
    {
      var b: int := s[i];
      assert s[..i + 1][..i] == s[..i];
      value := 256 * value + b;
    }
    assert s[..|s|] == s;
  }
}
