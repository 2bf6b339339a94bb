/**
 How the events of a data item nest (cbor.rs): containers close in order and
 never stand more than 512 deep, so skipping from one's first event finds its
 end.
 */
module CborNesting {
  import opened Bytes
  import opened Cbor
  import Instants

  function Turn(what: What): int {
    match what
    case BeginList => 1
    case BeginMap => 1
    case EndList => -1
    case EndMap => -1
    case _ => 0
  }

  /** How many containers the events open and do not close. */
  function Opens(events: seq<Event>): int {
    if events == [] then 0
    else Opens(events[..|events| - 1]) + Turn(events[|events| - 1].what)
  }

  /** No container closes that did not open. */
  predicate Nests(events: seq<Event>) {
    forall k :: 0 <= k <= |events| ==> Opens(events[..k]) >= 0
  }

  /** What every step of the decoder keeps. */
  predicate Sound(s: Decoding) {
    Nests(s.events) && Opens(s.events) == |s.frames| <= DEPTH
  }

  lemma PushNests(events: seq<Event>, event: Event)
    requires Nests(events) && Opens(events) + Turn(event.what) >= 0
    ensures Nests(events + [event]) && Opens(events + [event]) == Opens(events) + Turn(event.what)
  {
    var all := events + [event];
    assert all[..|events|] == events;
    forall k | 0 <= k <= |all| ensures Opens(all[..k]) >= 0 {
      if k <= |events| { assert all[..k] == events[..k]; } else { assert all[..k] == all; }
    }
  }

  lemma PushKeeps(s: Decoding, what: What)
    requires Nests(s.events) && Opens(s.events) + Turn(what) >= 0
    ensures Nests(Push(s, what).events) && Opens(Push(s, what).events) == Opens(s.events) + Turn(what)
  {
    hide Opens, Nests, PathOf;
    PushNests(s.events, Event(what, PathOf(s.frames)));
  }

  lemma {:induction false} FinishedKeeps(s: Decoding)
    requires Sound(s)
    ensures Sound(Finished(s))
    decreases |s.frames|, 1
  {
    hide Opens, Nests;
    if s.frames != [] { ClosedKeeps(s); }
  }

  lemma {:induction false} ClosedKeeps(s: Decoding)
    requires Sound(s) && s.frames != []
    ensures Sound(Closed(s))
    decreases |s.frames|, 0
  {
    hide Opens, Nests, Finished, PathOf;
    var n := |s.frames| - 1;
    var t := s.(frames := s.frames[..n]);
    var what := if s.frames[n].isMap then EndMap else EndList;
    PushKeeps(t, what);
    FinishedKeeps(Push(t, what));
  }

  lemma OpenedKeeps(s: Decoding, isMap: bool, length: Option<nat>)
    requires Sound(s) && |s.frames| < DEPTH
    ensures Sound(Opened(s, isMap, length))
  {
    hide Opens, Nests, Finished;
    var begin, end := if isMap then BeginMap else BeginList, if isMap then EndMap else EndList;
    PushKeeps(s, begin);
    if length == Some(0) {
      PushKeeps(Push(s, begin), end);
      FinishedKeeps(Push(Push(s, begin), end));
    }
  }

  lemma PlainKeeps(s: Decoding, what: What)
    requires Sound(s) && Turn(what) == 0
    ensures Sound(Scalar(s, what))
  {
    hide Opens, Nests, Finished;
    PushKeeps(s, what);
    FinishedKeeps(Push(s, what));
  }

  lemma KeyedKeeps(s: Decoding, key: bytes)
    requires Sound(s) && s.frames != []
    ensures Sound(Keyed(s, key))
  {
    hide Opens, Nests;
    PushKeeps(s, Key(key));
  }

  lemma DatedKeeps(s: Decoding, text: bytes)
    requires Sound(s)
    ensures Sound(Dated(s, text))
  {
    hide Sound, Keyed, Scalar;
    if AtKey(s) { KeyedKeeps(s, text); } else { PlainKeeps(s, DateTime(text)); }
  }

  /** A state further on in the input nests as before. */
  lemma MovedKeeps(s: Decoding, at: nat)
    ensures Sound(s.(at := at)) == Sound(s)
  {
  }

  lemma {:induction false} ItemKeeps(input: Input, s: Decoding)
    requires Within(input, s) && Sound(s) && ItemAt(input, s).Ok?
    ensures Sound(ItemAt(input, s).value.1)
    decreases |input.bytes| - s.at, 0
  {
    hide Sound, Closed, ItemOf, Finished;
    var t := ItemAt(input, s).value.1;
    MovedKeeps(s, t.at);
    var head: nat := input.bytes[s.at];
    if head == 0xFF {
      MovedKeeps(s, s.at + 1);
      ClosedKeeps(s.(at := s.at + 1));
    } else if head / 32 != 7 {
      var argument := Argument(input, s.(at := s.at + 1), head % 32, s.at).value;
      MovedKeeps(s, argument.1.at);
      AnnouncedKeeps(input, argument.1, head / 32, argument.0, s.at);
    }
  }

  lemma {:induction false} AnnouncedKeeps(input: Input, s: Decoding, major: nat, argument: Option<nat>, at: nat)
    requires Within(input, s) && Sound(s) && ItemOf(input, s, major, argument, at).Ok?
    ensures Sound(ItemOf(input, s, major, argument, at).value.1)
    decreases |input.bytes| - s.at, 2
  {
    hide Sound, Opened, Tagged;
    MovedKeeps(s, ItemOf(input, s, major, argument, at).value.1.at);
    if major == 4 || major == 5 {
      OpenedKeeps(s, major == 5, argument);
    } else if major != 2 && major != 3 && argument.Some? && major > 1 {
      TaggedKeeps(input, s, argument.value, at);
    }
  }

  lemma {:induction false} TaggedKeeps(input: Input, s: Decoding, tag: nat, at: nat)
    requires Within(input, s) && Sound(s) && Tagged(input, s, tag, at).Ok?
    ensures Sound(Tagged(input, s, tag, at).value.1)
    decreases |input.bytes| - s.at, 1
  {
    hide Sound, ItemAt, Dated;
    ItemKeeps(input, s);
    var item := ItemAt(input, s).value;
    match item.0
    case Some(TextItem(text)) => DatedKeeps(item.1, text);
    case Some(IntItem(seconds)) => DatedKeeps(item.1, Instants.Format(seconds, 0));
    case Some(FloatItem(number)) => DatedKeeps(item.1, input.floatTime(number));
    case _ =>
  }

  lemma PlacedKeeps(s: Decoding, item: Option<Item>, at: nat)
    requires Sound(s) && Placed(s, item, at).Ok?
    ensures Sound(Placed(s, item, at).value)
  {
    hide Sound, Keyed, Scalar, IntText;
    if item.Some? {
      if AtKey(s) { KeyedKeeps(s, KeyText(item.value).value); } else { PlainKeeps(s, WhatOf(item.value)); }
    }
  }

  lemma {:induction false} ValuesKeep(input: Input, s: Decoding, depth: nat)
    requires Within(input, s) && Sound(s) && Values(input, s, depth).Ok?
    ensures Sound(Values(input, s, depth).value)
    decreases |input.bytes| - s.at
  {
    hide Sound, ItemAt, Placed;
    ItemKeeps(input, s);
    var item := ItemAt(input, s).value;
    PlacedKeeps(item.1, item.0, s.at);
    var placed := Placed(item.1, item.0, s.at).value;
    if |placed.frames| > depth { ValuesKeep(input, placed, depth); }
  }

  /** Every container of an item read closes, and none closes twice. */
  lemma ParsedNests(input: Input)
    requires Parsed(input).Ok?
    ensures Nests(Parsed(input).value) && Opens(Parsed(input).value) == 0
  {
    hide Values;
    assert Sound(START);
    ValuesKeep(input, START, 0);
  }

  // ---------------------------------------------------------------------
  // Skipping
  // ---------------------------------------------------------------------

  /** The events of an item being given out one by one. */
  class Reader {
    const events: seq<Event>
    var read: nat

    constructor (events: seq<Event>)
      ensures this.events == events && read == 0
    {
      this.events := events;
      read := 0;
    }

    /** Goes past the rest of a container whose first event was given out last;
        whether its end was found. */
    method Skip() returns (found: bool)
      requires read <= |events|
      modifies this`read
      ensures found ==> EndsAt(events, old(read), read)
      ensures !found ==> forall k :: old(read) <= k <= |events| ==> !EndsAt(events, old(read), k)
      ensures read <= |events|
    {
      hide Opens;
      var depth := 1;
      OpensNothing(events, read);
      while depth > 0 && read < |events|
        invariant old(read) <= read <= |events| && depth >= 0
        invariant depth == 1 + Opens(events[old(read)..read])
        invariant forall k :: old(read) <= k < read ==> 1 + Opens(events[old(read)..k]) > 0
        decreases |events| - read
      {
        OpensMore(events, old(read), read);
        depth := depth + Turn(events[read].what);
        read := read + 1;
      }
      found := depth == 0;
    }
  }

  /** The container that begins just before `from` ends just before `to`: no
      earlier is all that it opened closed. */
  predicate EndsAt(events: seq<Event>, from: nat, to: nat)
    requires from <= |events|
  {
    && from <= to <= |events|
    && Opens(events[from..to]) == -1
    && forall k :: from <= k < to ==> Opens(events[from..k]) >= 0
  }

  lemma {:induction false} OpensAdd(a: seq<Event>, b: seq<Event>)
    ensures Opens(a + b) == Opens(a) + Opens(b)
  {
    if b == [] {
      assert a + b == a;
    } else {
      var front := b[..|b| - 1];
      OpensAdd(a, front);
      assert (a + b)[..|a + b| - 1] == a + front;
    }
  }

  lemma OpensMore(events: seq<Event>, from: nat, to: nat)
    requires from <= to < |events|
    ensures Opens(events[from..to + 1]) == Opens(events[from..to]) + Turn(events[to].what)
  {
    assert events[from..to + 1][..to - from] == events[from..to];
  }

  lemma OpensNothing(events: seq<Event>, from: nat)
    requires from <= |events|
    ensures Opens(events[from..from]) == 0
  {
  }

  /** The first place where what was opened is closed. */
  lemma {:induction false} FirstDrop(events: seq<Event>, from: nat, limit: nat) returns (end: nat)
    requires from <= limit <= |events| && Opens(events[from..limit]) < 0
    ensures EndsAt(events, from, end)
    decreases limit
  {
    hide Opens;
    if exists k :: from <= k < limit && Opens(events[from..k]) < 0 {
      var k :| from <= k < limit && Opens(events[from..k]) < 0;
      end := FirstDrop(events, from, k);
    } else {
      OpensNothing(events, from);
      OpensMore(events, from, limit - 1);
      end := limit;
    }
  }

  /** In what was read without failure every container has its end: skipping
      one never fails. */
  lemma SkipFinds(input: Input, from: nat)
    requires Parsed(input).Ok? && 0 < from <= |Parsed(input).value|
    requires Turn(Parsed(input).value[from - 1].what) == 1
    ensures exists end :: EndsAt(Parsed(input).value, from, end)
  {
    hide Parsed, Opens;
    ParsedNests(input);
    var events := Parsed(input).value;
    var front, back := events[..from], events[from..];
    assert events == front + back;
    OpensAdd(front, back);
    assert events[0..from] == front && events[0..from - 1] == events[..from - 1];
    OpensMore(events, 0, from - 1);
    assert events[from..|events|] == back;
    var end := FirstDrop(events, from, |events|);
  }
}
