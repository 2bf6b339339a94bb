/** How a stream is cut leaves no trace in what is read from it (json.rs). */
module JsonPieces {
  import opened Bytes
  import opened Json
  import opened JsonInput
  import opened JsonReader
  import opened JsonUtf8
  import Utf8

  /** What a caller does: reads on, skips the rest of the value just begun or
      takes its text, or records a failure. */
  datatype Call = CallNext | CallSkip | CallRaw | CallFail(message: bytes)

  /** Two readers of the same text, one of a stream of it. */
  ghost predicate Alike(stream: Reader, text: Reader, last: Event)
    reads stream, text
  {
    && stream.Valid() && text.Valid() && stream != text
    && stream.whole == text.whole && stream.duplicates == text.duplicates && stream.streamed && !text.streamed
    && stream.pinned.None? && text.pinned.None?
    && (BeginsValue(last) ==>
        stream.offset <= stream.start && text.offset <= text.start && stream.error.None? && text.error.None?)
    && (Utf8.Valid(text.whole) ==> stream.State() == text.State())
  }

  /** The next events of both, and whether they are the same. */
  method NextOfBoth(stream: Reader, text: Reader) returns (same: bool, last: Event)
    requires Alike(stream, text, End)
    modifies stream, text
    ensures Alike(stream, text, last) && (Utf8.Valid(text.whole) ==> same)
  {
    hide Utf8.Valid, Json.Next, FramesOf, PlacesOk, Reader.InputOk, Reader.KeysOk, Reader.CarryOk, Reader.PinnedOk,
         AlignedState;
    ghost var d := text.Doc();
    text.Within();
    stream.Within();
    if Utf8.Valid(text.whole) { Unchecked(d, text.State(), true); }
    EventFails(d, text.State());
    EventFails(stream.Doc(), stream.State());
    last := stream.Next();
    var event := text.Next();
    same := last == event && stream.text == text.text && stream.integer == text.integer;
    if last != event { last := End; }
  }

  /** No value begins with a failure. */
  lemma EventFails(d: Document, s: State)
    requires s.position <= |d.whole|
    ensures Json.Next(d, s).1.error.Some? ==> !BeginsValue(Json.Next(d, s).0)
  {
    hide Json.Next;
    NextAdvances(d, s);
  }

  method SkipInBoth(stream: Reader, text: Reader, event: Event) returns (same: bool)
    requires Alike(stream, text, End)
    modifies stream, text
    ensures Alike(stream, text, End) && (Utf8.Valid(text.whole) ==> same)
  {
    hide Utf8.Valid, SkipFrom, FramesOf, PlacesOk, Reader.InputOk, Reader.KeysOk, Reader.CarryOk, Reader.PinnedOk,
         AlignedState;
    text.Within();
    if Utf8.Valid(text.whole) { SkipUnchecked(text.Doc(), text.State(), |text.places|, true); }
    var a := stream.Skip(event);
    var b := text.Skip(event);
    same := a == b;
  }

  method RawOfBoth(stream: Reader, text: Reader, event: Event) returns (same: bool)
    requires Alike(stream, text, event) && BeginsValue(event)
    modifies stream, text
    ensures Alike(stream, text, End) && (Utf8.Valid(text.whole) ==> same)
  {
    hide Utf8.Valid, SkipFrom, FramesOf, PlacesOk, Reader.InputOk, Reader.KeysOk, Reader.CarryOk, Reader.PinnedOk,
         AlignedState;
    text.Within();
    if Utf8.Valid(text.whole) { SkipUnchecked(text.Doc(), text.State(), |text.places|, true); }
    var a := stream.Raw(event);
    var b := text.Raw(event);
    same := a == b;
  }

  /** Where both are: the paths, lines and columns. */
  method PlacesOfBoth(stream: Reader, text: Reader, shown: bytes -> bytes) returns (same: bool)
    requires Alike(stream, text, End)
    ensures Utf8.Valid(text.whole) ==> same
  {
    hide Utf8.Valid, LineColumn, PathOf, FramesOf, PlacesOk, Reader.InputOk, Reader.KeysOk, Reader.CarryOk,
         Reader.PinnedOk, AlignedState;
    var line, column := stream.Where();
    var otherLine, otherColumn := text.Where();
    var path := stream.Path(shown);
    var otherPath := text.Path(shown);
    same := line == otherLine && column == otherColumn && path == otherPath;
  }

  method TellBoth(stream: Reader, text: Reader, message: bytes)
    requires Alike(stream, text, End)
    modifies stream, text
    ensures Alike(stream, text, End)
  {
    hide Utf8.Valid, FramesOf, PlacesOk, Reader.InputOk, Reader.KeysOk, Reader.CarryOk, Reader.PinnedOk, AlignedState;
    stream.Tell(message);
    text.Tell(message);
  }

  lemma AlikeStill(stream: Reader, text: Reader, last: Event)
    requires Alike(stream, text, last)
    ensures Alike(stream, text, End)
  {
    hide Utf8.Valid, FramesOf, PlacesOk, Reader.Valid, AlignedState;
  }

  /** One call of both. */
  method CallBoth(stream: Reader, text: Reader, call: Call, last: Event) returns (same: bool, next: Event)
    requires Alike(stream, text, last)
    modifies stream, text
    ensures Alike(stream, text, next) && (Utf8.Valid(text.whole) ==> same)
  {
    hide Utf8.Valid, Alike;
    AlikeStill(stream, text, last);
    same, next := true, End;
    match call {
      case CallNext => same, next := NextOfBoth(stream, text);
      case CallSkip => if BeginsValue(last) { same := SkipInBoth(stream, text, last); }
      case CallRaw => if BeginsValue(last) { same := RawOfBoth(stream, text, last); }
      case CallFail(message) => TellBoth(stream, text, message);
    }
  }

  /** Reads a UTF-8 stream in the pieces it comes in, and its whole text at
      once; whether every event, text, number, raw text, path, line and column
      was the same. */
  method Compare(pieces: seq<bytes>, duplicates: bool, calls: seq<Call>, shown: bytes -> bytes) returns (same: bool)
    requires forall i :: 0 <= i < |pieces| ==> pieces[i] != []
    ensures Utf8.Valid(Flat(pieces)) ==> same
  {
    hide Utf8.Valid, FramesOf, PlacesOk, Reader.Valid, AlignedState;
    var stream := new Reader.FromStream(pieces, duplicates);
    var text := new Reader(Flat(pieces), duplicates);
    assert Alike(stream, text, End) by { ValueEvents(); }
    hide Alike;
    same := true;
    var last := End;
    for i := 0 to |calls|
      invariant Alike(stream, text, last) && fresh(stream) && fresh(text)
      invariant text.whole == Flat(pieces)
      invariant Utf8.Valid(Flat(pieces)) ==> same
    {
      var agree: bool;
      agree, last := CallBoth(stream, text, calls[i], last);
      AlikeStill(stream, text, last);
      var placed := PlacesOfBoth(stream, text, shown);
      same := same && agree && placed;
    }
  }
}
