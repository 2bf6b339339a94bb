/**
 The lines and columns of text that is let go piece by piece, and the keys of
 open objects kept one after another (json.rs).
 */
module JsonInput {
  import opened Bytes
  import opened Json
  import Utf8

  // ---------------------------------------------------------------------
  // Lines and columns
  // ---------------------------------------------------------------------

  lemma {:induction false} LinesAdd(a: bytes, b: bytes)
    ensures Lines(a + b) == Lines(a) + Lines(b)
  {
    if b == [] {
      assert a + b == a;
    } else {
      LinesAdd(a, b[..|b| - 1]);
      assert (a + b)[..|a + b| - 1] == a + b[..|b| - 1];
    }
  }

  lemma LastLineEnds(s: bytes, last: byte)
    ensures LastLine(s + [last]) == if last == NEWLINE then [] else LastLine(s) + [last]
  {
    assert (s + [last])[..|s|] == s;
  }

  lemma {:induction false} LastLineAdds(a: bytes, b: bytes)
    ensures LastLine(a + b) == if NEWLINE in b then LastLine(b) else LastLine(a) + b
  {
    hide LastLine;
    if b == [] {
      assert a + b == a && LastLine(a) + [] == LastLine(a);
    } else {
      var front, last := b[..|b| - 1], b[|b| - 1];
      LastLineAdds(a, front);
      LastLineEnds(a + front, last);
      LastLineEnds(front, last);
      assert a + b == (a + front) + [last] && b == front + [last];
      if NEWLINE !in b { assert LastLine(a) + b == (LastLine(a) + front) + [last]; }
    }
  }

  /** Counting the line ends. */
  method CountLines(s: bytes) returns (lines: nat)
    ensures lines == Lines(s)
  {
    lines := 0;
    for i := 0 to |s|
      invariant lines == Lines(s[..i])
    {
      assert s[..i + 1][..i] == s[..i];
      if s[i] == NEWLINE { lines := lines + 1; }
    }
    assert s[..|s|] == s;
  }

  /** Where the last line end is: `rposition`. */
  method LastNewline(s: bytes) returns (last: Option<nat>)
    ensures last.Some? ==> last.value < |s| && s[last.value] == NEWLINE && LastLine(s) == s[last.value + 1..]
    ensures last.None? ==> NEWLINE !in s && LastLine(s) == s
  {
    var i := |s|;
    while i > 0
      invariant 0 <= i <= |s|
      invariant NEWLINE !in s[i..]
    {
      i := i - 1;
      if s[i] == NEWLINE {
        NewlineEnds(s, i);
        return Some(i);
      }
    }
    assert s[0..] == s;
    LastLineAdds([], s);
    assert [] + s == s;
    return None;
  }

  lemma NewlineEnds(s: bytes, i: nat)
    requires i < |s| && s[i] == NEWLINE && NEWLINE !in s[i + 1..]
    ensures LastLine(s) == s[i + 1..]
  {
    LastLineAdds(s[..i + 1], s[i + 1..]);
    assert s == s[..i + 1] + s[i + 1..];
    assert LastLine(s[..i + 1]) == [];
  }

  /** The last line of valid text is valid. */
  lemma {:induction false} LastLineIsValid(s: bytes)
    requires Utf8.Valid(s)
    ensures Utf8.Valid(LastLine(s))
  {
    if NEWLINE in s {
      var i :| 0 <= i < |s| && s[i] == NEWLINE;
      assert s == s[..i + 1] + s[i + 1..];
      Utf8.ValidAfterAscii(s[..i + 1], s[i + 1..]);
      LastLineAdds(s[..i + 1], s[i + 1..]);
      if NEWLINE in s[i + 1..] {
        LastLineIsValid(s[i + 1..]);
      } else {
        assert LastLine(s[..i + 1]) == [];
        assert [] + s[i + 1..] == s[i + 1..];
      }
    } else {
      LastLineAdds([], s);
      assert [] + s == s;
    }
  }

  /** The characters since the last line end, counted in two pieces. */
  lemma ColumnAdds(gone: bytes, piece: bytes)
    requires Utf8.Valid(gone)
    ensures Utf8.Chars(LastLine(gone + piece))
      == if NEWLINE in piece then Utf8.Chars(LastLine(piece)) else Utf8.Chars(LastLine(gone)) + Utf8.Chars(piece)
  {
    hide Utf8.Valid, Utf8.Chars, LastLine;
    LastLineAdds(gone, piece);
    if NEWLINE !in piece {
      LastLineIsValid(gone);
      Utf8.CharsAdd(LastLine(gone), piece);
    }
  }

  // ---------------------------------------------------------------------
  // Keys
  // ---------------------------------------------------------------------

  /** The place inside a container, as the reader keeps it: where an object's
      keys start among those of all objects open, and past a few keys also a
      set of them, and a bit for each. */
  datatype Place =
    | ArrayPlace(index: nat, started: bool)
    | ObjectPlace(first: nat, known: Option<set<bytes>>, bits: bv64, expectKey: bool, started: bool)

  /** How many keys an object has before they are looked up in a set. */
  const FEW_KEYS: nat := 16

  /** The hash of a key, in 32 bits. */
  function Hash(key: bytes, h: bv32): bv32 {
    if key == [] then h else Hash(key[1..], (h * 31) ^ (key[0] as bv32))
  }

  function Shifted(h: bv32): bv64 { 1 << ((h % 64) as bv64) }

  /** The bit of a key. */
  function BitOf(key: bytes): bv64 {
    Shifted(Hash(key, (|key| % 0x1_0000_0000) as bv32))
  }

  predicate HasBit(bits: bv64, key: bytes) { bits & BitOf(key) != 0 }

  function WithBit(bits: bv64, key: bytes): bv64 { bits | BitOf(key) }

  lemma BitKept(bits: bv64, more: bv64, bit: bv64)
    requires bits & bit != 0
    ensures (bits | more) & bit != 0
  {
  }

  lemma ShiftedBit(n: bv32)
    ensures Shifted(n) != 0
  {
  }

  lemma Absorbs(bits: bv64, bit: bv64)
    ensures (bits | bit) & bit == bit
  {
  }

  lemma BitSet(bits: bv64, key: bytes)
    ensures HasBit(WithBit(bits, key), key)
  {
    hide Shifted, Hash;
    ShiftedBit(Hash(key, (|key| % 0x1_0000_0000) as bv32));
    Absorbs(bits, BitOf(key));
  }

  /** What an object remembers of its keys: a bit set for each, and the set of
      them when it is there. */
  ghost predicate Remembers(known: Option<set<bytes>>, bits: bv64, own: seq<bytes>) {
    && (forall key :: key in own ==> HasBit(bits, key))
    && (known.Some? ==> known.value == KeySet(own) && |own| > FEW_KEYS)
  }

  function KeySet(own: seq<bytes>): set<bytes> { set key | key in own }

  lemma RemembersMore(known: Option<set<bytes>>, bits: bv64, own: seq<bytes>, key: bytes)
    requires Remembers(known, bits, own)
    ensures forall k :: k in own + [key] ==> HasBit(WithBit(bits, key), k)
    ensures KeySet(own + [key]) == KeySet(own) + {key}
  {
    hide HasBit, BitOf, WithBit;
    BitSet(bits, key);
    forall k | k in own + [key] ensures HasBit(WithBit(bits, key), k) {
      if k in own { KeptBit(bits, key, k); }
    }
    assert KeySet(own + [key]) == KeySet(own) + {key};
  }

  lemma KeptBit(bits: bv64, more: bytes, key: bytes)
    requires HasBit(bits, key)
    ensures HasBit(WithBit(bits, more), key)
  {
    hide BitOf;
    BitKept(bits, BitOf(more), BitOf(key));
  }

  /** The places of the containers open, with the keys of all of them: each
      object's keys are the last ones, before those of the objects in it. */
  ghost predicate PlacesOk(places: seq<Place>, names: seq<bytes>) {
    if places == [] then names == []
    else
      match places[|places| - 1]
      case ArrayPlace(_, _) => PlacesOk(places[..|places| - 1], names)
      case ObjectPlace(first, known, bits, _, _) =>
        first <= |names| && Remembers(known, bits, names[first..]) && PlacesOk(places[..|places| - 1], names[..first])
  }

  function FrameOf(place: Place, own: seq<bytes>): Frame {
    match place
    case ArrayPlace(index, started) => Array(index, started)
    case ObjectPlace(_, _, _, expectKey, started) => Object(own, expectKey, started)
  }

  ghost function FramesOf(places: seq<Place>, names: seq<bytes>): (frames: seq<Frame>)
    requires PlacesOk(places, names)
    ensures |frames| == |places|
  {
    if places == [] then []
    else
      match places[|places| - 1]
      case ArrayPlace(_, _) => FramesOf(places[..|places| - 1], names) + [FrameOf(places[|places| - 1], [])]
      case ObjectPlace(first, _, _, _, _) =>
        FramesOf(places[..|places| - 1], names[..first]) + [FrameOf(places[|places| - 1], names[first..])]
  }

  /** The keys below an object's own, and its own. */
  function Under(place: Place, names: seq<bytes>): seq<bytes> {
    if place.ObjectPlace? && place.first <= |names| then names[..place.first] else names
  }

  function Own(place: Place, names: seq<bytes>): seq<bytes> {
    if place.ObjectPlace? && place.first <= |names| then names[place.first..] else []
  }

  ghost predicate PlaceOk(place: Place, names: seq<bytes>) {
    place.ObjectPlace? ==> place.first <= |names| && Remembers(place.known, place.bits, names[place.first..])
  }

  /** The innermost place, and those around it. */
  lemma Innermost(places: seq<Place>, names: seq<bytes>)
    requires PlacesOk(places, names) && places != []
    ensures var n := |places| - 1; var last := places[n];
      && PlaceOk(last, names) && PlacesOk(places[..n], Under(last, names))
      && FramesOf(places, names) == FramesOf(places[..n], Under(last, names)) + [FrameOf(last, Own(last, names))]
  {
    hide Remembers;
  }

  /** A place put around by others. */
  lemma Placed(places: seq<Place>, names: seq<bytes>, place: Place)
    requires PlaceOk(place, names) && PlacesOk(places, Under(place, names))
    ensures PlacesOk(places + [place], names)
    ensures FramesOf(places + [place], names) == FramesOf(places, Under(place, names))
            + [FrameOf(place, Own(place, names))]
  {
    hide Remembers;
    assert (places + [place])[..|places|] == places;
  }

  /** A new place, which has no keys yet. */
  lemma Pushed(places: seq<Place>, names: seq<bytes>, place: Place)
    requires PlacesOk(places, names)
    requires place.ObjectPlace? ==> place.first == |names| && place.known == None
    ensures PlacesOk(places + [place], names)
    ensures FramesOf(places + [place], names) == FramesOf(places, names) + [FrameOf(place, [])]
  {
    assert names[..|names|] == names;
    assert names[|names|..] == [];
    Placed(places, names, place);
  }

  /** Where the keys of each object start. */
  function Firsts(places: seq<Place>): seq<nat> {
    if places == [] then []
    else (if places[0].ObjectPlace? then [places[0].first] else []) + Firsts(places[1..])
  }

  lemma {:induction false} FirstsAdd(a: seq<Place>, b: seq<Place>)
    ensures Firsts(a + b) == Firsts(a) + Firsts(b)
    decreases |a|
  {
    if a == [] {
      assert a + b == b;
    } else {
      FirstsAdd(a[1..], b);
      assert (a + b)[1..] == a[1..] + b;
    }
  }

  lemma FirstsOne(place: Place)
    ensures Firsts([place]) == if place.ObjectPlace? then [place.first] else []
  {
    assert [place][1..] == [];
  }

  /** Where the keys of the next object open start, or all keys end. */
  function KeysEnd(places: seq<Place>, i: nat, total: nat): nat
    requires i < |places|
  {
    var later := Firsts(places[i + 1..]);
    if later == [] then total else later[0]
  }

  lemma KeysEndInside(places: seq<Place>, i: nat, last: Place, total: nat)
    requires i < |places|
    ensures KeysEnd(places + [last], i, total) == KeysEnd(places, i, if last.ObjectPlace? then last.first else total)
  {
    assert (places + [last])[i + 1..] == places[i + 1..] + [last];
    FirstsAdd(places[i + 1..], [last]);
    FirstsOne(last);
  }

  lemma NoFirsts(places: seq<Place>)
    requires places == []
    ensures Firsts(places) == []
  {
  }

  /** The keys of one open object are followed by those of the object inside it. */
  lemma {:induction false} KeysBetween(places: seq<Place>, names: seq<bytes>, i: nat)
    requires PlacesOk(places, names) && i < |places|
    ensures places[i].ObjectPlace? ==> places[i].first <= KeysEnd(places, i, |names|) <= |names|
    ensures FramesOf(places, names)[i]
      == FrameOf(places[i], if places[i].ObjectPlace? then names[places[i].first..KeysEnd(places, i, |names|)] else [])
    decreases |places|
  {
    var n := |places| - 1;
    var front, last := places[..n], places[n];
    assert places == front + [last];
    Innermost(places, names);
    hide PlacesOk, FramesOf, Remembers, FrameOf;
    if i == n {
      NoFirsts(places[i + 1..]);
    } else {
      KeysBetween(front, Under(last, names), i);
      KeysOutside(front, last, names, i);
      assert FramesOf(places, names)[i] == FramesOf(front, Under(last, names))[i];
    }
  }

  /** The keys of an object around another end where they did. */
  lemma KeysOutside(front: seq<Place>, last: Place, names: seq<bytes>, i: nat)
    requires i < |front| && PlaceOk(last, names)
    requires var under := Under(last, names);
             front[i].ObjectPlace? ==> front[i].first <= KeysEnd(front, i, |under|) <= |under|
    ensures var under, end := Under(last, names), KeysEnd(front + [last], i, |names|);
            && end == KeysEnd(front, i, |under|)
            && (front[i].ObjectPlace? ==>
                  front[i].first <= end <= |names| && names[front[i].first..end] == under[front[i].first..end])
  {
    hide Firsts, KeysEnd, Remembers;
    KeysEndInside(front, i, last, |names|);
    var under, end := Under(last, names), KeysEnd(front + [last], i, |names|);
    assert under == names[..|under|] && |under| == if last.ObjectPlace? then last.first else |names|;
    if front[i].ObjectPlace? { SliceOfFront(names, |under|, front[i].first, end); }
  }

  lemma SliceOfFront(names: seq<bytes>, k: nat, a: nat, b: nat)
    requires a <= b <= k <= |names|
    ensures names[..k][a..b] == names[a..b]
  {
  }

  // ---------------------------------------------------------------------
  // The buffer of keys
  // ---------------------------------------------------------------------

  /** Each key ends where the ends say, in one buffer. */
  ghost predicate BufferOk(keys: bytes, ends: seq<nat>, names: seq<bytes>) {
    && keys == Flat(names)
    && |ends| == |names|
    && forall i :: 0 <= i < |names| ==> ends[i] == |Flat(names[..i + 1])|
  }

  function KeyStart(ends: seq<nat>, at: nat): nat
    requires at <= |ends|
  {
    if at == 0 then 0 else ends[at - 1]
  }

  lemma FlatParts(names: seq<bytes>, at: nat)
    requires at <= |names|
    ensures Flat(names) == Flat(names[..at]) + Flat(names[at..])
  {
    assert names == names[..at] + names[at..];
    FlatAdds(names[..at], names[at..]);
  }

  lemma StartIs(keys: bytes, ends: seq<nat>, names: seq<bytes>, at: nat)
    requires BufferOk(keys, ends, names) && at <= |names|
    ensures KeyStart(ends, at) == |Flat(names[..at])| <= |keys| && keys[..KeyStart(ends, at)] == Flat(names[..at])
  {
    hide Flat;
    FlatParts(names, at);
    if at == 0 { NoFlat(names[..0]); } else { assert names[..at - 1 + 1] == names[..at]; }
  }

  lemma NoFlat(names: seq<bytes>)
    requires names == []
    ensures Flat(names) == []
  {
  }

  /** The key at an index is cut out of the buffer. */
  lemma KeyIs(keys: bytes, ends: seq<nat>, names: seq<bytes>, at: nat)
    requires BufferOk(keys, ends, names) && at < |names|
    ensures KeyStart(ends, at) <= ends[at] <= |keys| && keys[KeyStart(ends, at)..ends[at]] == names[at]
  {
    hide Flat;
    StartIs(keys, ends, names, at);
    StartIs(keys, ends, names, at + 1);
    var upto := names[..at + 1];
    FlatParts(upto, at);
    assert upto[..at] == names[..at] && upto[at..] == [names[at]];
    FlatOne(names[at]);
    assert keys[KeyStart(ends, at)..ends[at]] == keys[..ends[at]][KeyStart(ends, at)..];
  }

  lemma BufferGrows(keys: bytes, ends: seq<nat>, names: seq<bytes>, key: bytes)
    requires BufferOk(keys, ends, names)
    ensures BufferOk(keys + key, ends + [|keys + key|], names + [key])
  {
    hide Flat;
    FlatAdds(names, [key]);
    FlatOne(key);
    var all := names + [key];
    assert all[..|names| + 1] == all;
    forall i | 0 <= i < |names| ensures (ends + [|keys + key|])[i] == |Flat(all[..i + 1])| {
      assert all[..i + 1] == names[..i + 1];
    }
  }

  lemma BufferShrinks(keys: bytes, ends: seq<nat>, names: seq<bytes>, first: nat)
    requires BufferOk(keys, ends, names) && first <= |names|
    ensures KeyStart(ends, first) <= |keys|
    ensures BufferOk(keys[..KeyStart(ends, first)], ends[..first], names[..first])
  {
    hide Flat;
    StartIs(keys, ends, names, first);
    forall i | 0 <= i < first ensures ends[..first][i] == |Flat(names[..first][..i + 1])| {
      assert names[..first][..i + 1] == names[..i + 1];
    }
  }
}
