/**
 The CBOR writer (cbor.rs): operations one after another, and a value written
 by them.
 */
module CborWriter {
  import opened Bytes
  import opened CborEncoding
  import opened Decimal
  import opened Floats
  import opened Order
  import Instants

  // ---------------------------------------------------------------------
  // Operations
  // ---------------------------------------------------------------------

  datatype Trouble =
    | NoKey
    | StrayKey
    | OtherCount(isMap: bool, declared: nat, has: nat)
    | SameKey
    | NotDateTime(text: bytes)

  /** A container not closed yet: what it holds so far, how much it was said to
      hold, and the key waiting for its value. */
  datatype Open = Open(isMap: bool, declared: nat, items: seq<Entry>, key: Option<bytes>)

  datatype Writing = Writing(out: bytes, open: seq<Open>, deterministic: bool, error: Option<Trouble>)

  /** The first failure is kept. */
  function Noted(w: Writing, trouble: Trouble): Writing {
    if w.error.Some? then w else w.(error := Some(trouble))
  }

  /** Places the encoding of a finished item. */
  function Added(w: Writing, encoded: bytes): Writing {
    if w.open == [] then w.(out := w.out + encoded)
    else
      var n := |w.open| - 1;
      var last := w.open[n];
      if !last.isMap then w.(open := w.open[..n] + [last.(items := last.items + [Entry([], encoded)])])
      else
        match last.key
        case Some(key) => w.(open := w.open[..n] + [last.(items := last.items + [Entry(key, encoded)], key := None)])
        case None => Noted(w, NoKey)
  }

  function KeyWritten(w: Writing, key: bytes): Writing {
    var n := |w.open| - 1;
    if n >= 0 && w.open[n].isMap && w.open[n].key.None? then
      w.(open := w.open[..n] + [w.open[n].(key := Some(TextBytes(key)))])
    else Noted(w, StrayKey)
  }

  /** The encoding of a container's items, in the order they are written. */
  function ClosedBytes(last: Open, deterministic: bool): bytes {
    Head(if last.isMap then 5 else 4, |last.items|) + Joined(InOrder(last.items, last.isMap && deterministic))
  }

  function SameKeys(last: Open): bool { last.isMap && !Distinct(EntryKey, last.items) }

  function CountNoted(w: Writing, last: Open): Writing {
    if |last.items| == last.declared then w else Noted(w, OtherCount(last.isMap, last.declared, |last.items|))
  }

  /** The container opened last closes with a definite length. */
  function ContainerClosed(w: Writing): Writing {
    if w.open == [] then w
    else
      var last := w.open[|w.open| - 1];
      var popped := CountNoted(w.(open := w.open[..|w.open| - 1]), last);
      Added(if w.deterministic && SameKeys(last) then Noted(popped, SameKey) else popped,
          ClosedBytes(last, w.deterministic))
  }

  function Begun(w: Writing, isMap: bool, declared: nat): Writing {
    w.(open := w.open + [Open(isMap, declared, [], None)])
  }

  datatype Op =
    | WriteNull
    | WriteBool(bool)
    | WriteInt(int)
    | WriteNumber(text: bytes, parsed: double)
    | WriteFloat(double)
    | WriteText(bytes)
    | WriteBytes(bytes)
    | WriteDateTime(bytes)
    | WriteKey(bytes)
    | WriteOpen(isMap: bool, count: int)
    | WriteClose

  /** The bytes of a number's digits: an integer's, or the float's they are
      parsed as, which is given. */
  function NumberBytes(text: bytes, parsed: double): bytes {
    match IntegerDigits(text)
    case Some((negative, magnitude)) => IntegerBytes(negative, magnitude)
    case None => FloatBytes(parsed)
  }

  function Applied(w: Writing, op: Op): Writing {
    match op
    case WriteNull => Added(w, [0xF6])
    case WriteBool(b) => Added(w, [if b then 0xF5 else 0xF4])
    case WriteInt(n) => Added(w, IntBytes(n))
    case WriteNumber(text, parsed) => Added(w, NumberBytes(text, parsed))
    case WriteFloat(bits) => Added(w, FloatBytes(bits))
    case WriteText(text) => Added(w, TextBytes(text))
    case WriteBytes(content) => Added(w, Head(2, |content|) + content)
    case WriteDateTime(text) =>
      if Instants.Parsed(text).None? then Noted(w, NotDateTime(text)) else Added(w, DateTimeBytes(Shown(text)))
    case WriteKey(key) => KeyWritten(w, key)
    case WriteOpen(isMap, count) => Begun(w, isMap, if count < 0 then 0 else count)
    case WriteClose => ContainerClosed(w)
  }

  function Fresh(deterministic: bool): Writing { Writing([], [], deterministic, None) }

  /** The bytes written, or none after a failure. */
  function Finish(w: Writing): bytes { if w.error.None? then w.out else [] }

  // ---------------------------------------------------------------------
  // In place
  // ---------------------------------------------------------------------

  class Writer {
    var out: bytes
    var open: seq<Open>
    const deterministic: bool
    var error: Option<Trouble>

    constructor (deterministic: bool)
      ensures State() == Fresh(deterministic)
    {
      this.deterministic := deterministic;
      out, open, error := [], [], None;
    }

    function State(): Writing
      reads this
    {
      Writing(out, open, deterministic, error)
    }

    method Fail(trouble: Trouble)
      modifies this`error
      ensures State() == Noted(old(State()), trouble)
    {
      if error.None? { error := Some(trouble); }
    }

    method Add(encoded: bytes)
      modifies this
      ensures State() == Added(old(State()), encoded)
    {
      if open == [] {
        out := out + encoded;
        return;
      }
      var n := |open| - 1;
      var last := open[n];
      if last.isMap {
        match last.key {
          case Some(key) => open := open[..n] + [last.(items := last.items + [Entry(key, encoded)], key := None)];
          case None => Fail(NoKey);
        }
      } else {
        open := open[..n] + [last.(items := last.items + [Entry([], encoded)])];
      }
    }

    method Key(key: bytes)
      modifies this
      ensures State() == KeyWritten(old(State()), key)
    {
      var n := |open| - 1;
      if n >= 0 && open[n].isMap && open[n].key.None? {
        open := open[..n] + [open[n].(key := Some(TextBytes(key)))];
      } else {
        Fail(StrayKey);
      }
    }

    method Close()
      modifies this
      ensures State() == ContainerClosed(old(State()))
    {
      hide Added, Head, Sort, Distinct;
      if open == [] { return; }
      var last := open[|open| - 1];
      open := open[..|open| - 1];
      if |last.items| != last.declared { Fail(OtherCount(last.isMap, last.declared, |last.items|)); }
      var items := last.items;
      if last.isMap && deterministic {
        items := Sort(EntryKey, items);
        var repeated := Repeats(items);
        SortedTells(last.items);
        if repeated { Fail(SameKey); }
      }
      var joined := Join(items);
      SortKeeps(EntryKey, last.items);
      Add(Head(if last.isMap then 5 else 4, |items|) + joined);
    }

    method Write(op: Op)
      modifies this
      ensures State() == Applied(old(State()), op)
    {
      hide Added, KeyWritten, ContainerClosed, NumberBytes, FloatBytes, TextBytes, Instants.Parsed, Instants.Format;
      match op {
        case WriteNull => Add([0xF6]);
        case WriteBool(b) => Add([if b then 0xF5 else 0xF4]);
        case WriteInt(n) => Add(if n >= 0 then Head(0, n) else Head(1, -1 - n));
        case WriteNumber(text, parsed) => Add(NumberBytes(text, parsed));
        case WriteFloat(bits) => Add(FloatBytes(bits));
        case WriteText(text) => Add(TextBytes(text));
        case WriteBytes(content) => Add(Head(2, |content|) + content);
        case WriteDateTime(text) =>
          var instant := Instants.Parse(text);
          match instant {
            case None => Fail(NotDateTime(text));
            case Some((seconds, nanos)) => Add(DateTimeBytes(Instants.Format(seconds, nanos)));
          }
        case WriteKey(key) => Key(key);
        case WriteOpen(isMap, count) => open := open + [Open(isMap, if count < 0 then 0 else count, [], None)];
        case WriteClose => Close();
      }
    }
  }

  /** Whether two neighbours have the same key: `windows(2).any`. */
  method Repeats(items: seq<Entry>) returns (repeated: bool)
    ensures repeated <==> exists i: nat :: Repeated(EntryKey, items, i)
  {
    repeated := false;
    var i := 0;
    while i + 1 < |items| && !repeated
      invariant 0 <= i
      invariant repeated ==> exists k: nat :: Repeated(EntryKey, items, k)
      invariant !repeated ==> forall k: nat :: k < i ==> !Repeated(EntryKey, items, k)
    {
      if items[i].key == items[i + 1].key {
        assert Repeated(EntryKey, items, i);
        repeated := true;
      }
      i := i + 1;
    }
  }

  method Join(items: seq<Entry>) returns (joined: bytes)
    ensures joined == Joined(items)
  {
    joined := [];
    for i := 0 to |items|
      invariant joined + Joined(items[i..]) == Joined(items)
    {
      assert items[i..][1..] == items[i + 1..];
      assert joined + (items[i].key + items[i].value + Joined(items[i + 1..]))
        == joined + items[i].key + items[i].value + Joined(items[i + 1..]);
      joined := joined + items[i].key + items[i].value;
    }
    assert items[|items|..] == [];
    assert joined + [] == joined;
  }

  /** Equal neighbours after sorting are the keys written twice. */
  lemma SortedTells(items: seq<Entry>)
    ensures var sorted := Sort(EntryKey, items);
      Distinct(EntryKey, items) <==> !exists i: nat :: Repeated(EntryKey, sorted, i)
  {
    hide Sort, Strictly, Distinct, Ascends, Repeated;
    SortStrictly(EntryKey, items);
    SortAscends(EntryKey, items);
    AscendsStrictly(EntryKey, Sort(EntryKey, items));
    NeighboursTell(EntryKey, Sort(EntryKey, items));
  }
}
