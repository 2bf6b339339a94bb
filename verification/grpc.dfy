/**
 The framing of gRPC messages and its incremental readers, over bytes and
 over the Base64 text of gRPC-Web (grpc.rs).
 */
module Grpc {
  import opened Bytes
  import Base64

  const U32: nat := 0x1_0000_0000

  function BigEndian32(n: nat): (r: bytes)
    ensures |r| == 4
  {
    [n / 0x100_0000 % 0x100, n / 0x1_0000 % 0x100, n / 0x100 % 0x100, n % 0x100]
  }

  function ReadBigEndian32(s: bytes): (n: nat)
    requires |s| >= 4
    ensures n < U32
  {
    var a: nat, b: nat, c: nat, d: nat := s[0], s[1], s[2], s[3];
    ((a * 0x100 + b) * 0x100 + c) * 0x100 + d
  }

  lemma BigEndianReads(n: nat, rest: bytes)
    requires n < U32
    ensures ReadBigEndian32(BigEndian32(n) + rest) == n
  {
    var x := n / 0x100;
    var y := x / 0x100;
    assert n / 0x1_0000 == y && n / 0x100_0000 == y / 0x100 < 0x100;
    var s := BigEndian32(n) + rest;
    assert s[0] == y / 0x100 && s[1] == y % 0x100 && s[2] == x % 0x100 && s[3] == n % 0x100;
  }

  /** The frame of a message, or of what it was packed into. The length has
      32 bits: a longer message's is cut. */
  function Framed(message: bytes, compressed: bool): bytes {
    [if compressed then 1 else 0] + BigEndian32(|message| % U32) + message
  }

  predicate HasFrame(s: bytes) { |s| >= 5 && |s| >= 5 + ReadBigEndian32(s[1..]) }

  function FrameEnd(s: bytes): (end: nat)
    requires HasFrame(s)
    ensures 5 <= end <= |s|
  {
    5 + ReadBigEndian32(s[1..])
  }

  /** What decompressing gives: the message, or why there is none. */
  datatype Unpacked = Plain(message: bytes) | TooLarge | NotGzip

  /** What the next read of a body gives, and what is left of it. */
  datatype Read = Message(message: bytes, rest: bytes) | End | Broken(code: int, rest: bytes)

  function Next(body: bytes, gzip: bool, gunzip: bytes -> Unpacked): Read {
    if HasFrame(body) then
      var message, rest := body[5..FrameEnd(body)], body[FrameEnd(body)..];
      if body[0] == 0 then Message(message, rest)
      else if !gzip then Broken(-2, rest)
      else match gunzip(message)
           case Plain(unpacked) => Message(unpacked, rest)
           case TooLarge => Broken(-3, rest)
           case NotGzip => Broken(-1, rest)
    else if body == [] then End
    else Broken(-1, body)
  }

  function Code(r: Read): int {
    match r
    case Message(_, _) => 1
    case End => 0
    case Broken(code, _) => code
  }

  // ---------------------------------------------------------------------
  // Base64 text in groups of four characters
  // ---------------------------------------------------------------------

  predicate GroupOk(group: bytes)
  {
    Base64.Decoded(group, false).Ok?
  }

  /** Whether each whole group is Base64, padded or not. */
  predicate GroupsOk(text: bytes) {
    |text| < 4 || (GroupOk(text[..4]) && GroupsOk(text[4..]))
  }

  /** The bytes of the groups, up to the first that is not Base64. */
  function Content(text: bytes): bytes {
    if |text| < 4 || !GroupOk(text[..4]) then []
    else Base64.Decoded(text[..4], false).value + Content(text[4..])
  }

  lemma {:induction false} GroupsAppend(a: bytes, b: bytes)
    requires |a| % 4 == 0
    ensures GroupsOk(a + b) <==> GroupsOk(a) && GroupsOk(b)
    ensures Content(a + b) == Content(a) + (if GroupsOk(a) then Content(b) else [])
  {
    hide Base64.Decoded, GroupOk;
    if a == [] {
      assert a + b == b;
    } else {
      assert (a + b)[..4] == a[..4] && (a + b)[4..] == a[4..] + b;
      GroupsAppend(a[4..], b);
    }
  }

  /** No group but the last ends in `=`. */
  predicate OneSegment(text: bytes) {
    |text| % 4 == 0 && |text| > 0 && forall i :: 0 <= i < |text| - 4 && i % 4 == 3 ==> text[i] != Base64.PAD
  }

  lemma EndOf(s: bytes, k: nat)
    requires k <= |s| && (forall i :: k <= i < |s| ==> s[i] == Base64.PAD) && (k > 0 ==> s[k - 1] != Base64.PAD)
    ensures Base64.End(s) == k
  {
  }

  lemma DecodedWhen(s: bytes)
    ensures var end := Base64.End(s);
            && (Base64.Decoded(s, false).Ok? <==>
                |s| - end <= 2 && (|s| > end ==> |s| % 4 == 0) && end % 4 != 1 && Base64.Alphabetic(s[..end], false))
            && (Base64.Decoded(s, false).Ok? ==> Base64.Decoded(s, false).value == Base64.Content(s[..end], false))
  {
    hide Base64.Content, Base64.Position;
    var end := Base64.End(s);
    if Base64.Alphabetic(s[..end], false) {
      assert s[..end][..end] == s[..end];
      Base64.StopsAt(s[..end], false, end);
    }
  }

  lemma EndAfterGroup(group: bytes, rest: bytes)
    requires |group| == 4 && group[3] != Base64.PAD
    ensures Base64.End(group) == 4
    ensures Base64.End(group + rest) == 4 + Base64.End(rest)
  {
    hide Base64.End;
    EndOf(group, 4);
    var end := Base64.End(rest);
    assert forall i :: 4 <= i < 4 + |rest| ==> (group + rest)[i] == rest[i - 4];
    EndOf(group + rest, 4 + end);
  }

  lemma LettersAfterGroup(group: bytes, letters: bytes)
    requires |group| == 4 && Base64.Alphabetic(group, false) && Base64.Alphabetic(letters, false) && |letters| % 4 != 1
    ensures Base64.Alphabetic(group + letters, false)
    ensures Base64.Content(group + letters, false) == Base64.Content(group, false) + Base64.Content(letters, false)
  {
    hide Base64.Content, Base64.Position;
    Base64.ContentEnds(group, letters, false);
  }

  /** A group that does not end in `=` and what follows decode each on its own. */
  lemma GroupFirst(group: bytes, rest: bytes)
    requires |group| == 4 && group[3] != Base64.PAD && |rest| > 0 && |rest| % 4 == 0
    ensures Base64.Decoded(group + rest, false).Ok? <==> GroupOk(group) && Base64.Decoded(rest, false).Ok?
    ensures Base64.Decoded(group + rest, false).Ok? ==>
              Base64.Decoded(group + rest, false).value ==
                  Base64.Decoded(group, false).value + Base64.Decoded(rest, false).value
  {
    hide Base64.Decoded, Base64.Content, Base64.Alphabetic, Base64.End;
    var end := Base64.End(rest);
    EndAfterGroup(group, rest);
    DecodedWhen(group);
    DecodedWhen(rest);
    DecodedWhen(group + rest);
    assert group[..4] == group;
    var letters := rest[..end];
    assert (group + rest)[..4 + end] == group + letters;
    BothAlphabetic(group, letters);
    assert (4 + end) % 4 == end % 4 == |letters| % 4;
    if Base64.Alphabetic(group, false) && Base64.Alphabetic(letters, false) && end % 4 != 1 {
      LettersAfterGroup(group, letters);
    }
  }

  lemma BothAlphabetic(a: bytes, b: bytes)
    ensures Base64.Alphabetic(a + b, false) <==> Base64.Alphabetic(a, false) && Base64.Alphabetic(b, false)
  {
    hide Base64.Position;
    var s := a + b;
    assert forall i :: 0 <= i < |a| ==> s[i] == a[i];
    assert forall i :: 0 <= i < |b| ==> s[|a| + i] == b[i];
    assert forall i :: |a| <= i < |s| ==> s[i] == b[i - |a|];
  }

  /** A segment decodes at once exactly when its groups do one by one. */
  lemma {:induction false} SegmentDecodes(text: bytes)
    requires OneSegment(text)
    ensures Base64.Decoded(text, false).Ok? <==> GroupsOk(text)
    ensures GroupsOk(text) ==> Base64.Decoded(text, false).value == Content(text)
  {
    hide Base64.Decoded;
    var group, rest := text[..4], text[4..];
    assert text == group + rest;
    if rest == [] {
      assert group == text;
      assert Content(rest) == [] && GroupsOk(rest);
    } else {
      assert group[3] == text[3];
      assert forall i :: 0 <= i < |rest| ==> rest[i] == text[i + 4];
      GroupFirst(group, rest);
      SegmentDecodes(rest);
    }
  }

  /** The bytes of the whole groups of a text, decoded a segment at a time,
      and what is left of the text. */
  method Decoded(text: bytes) returns (r: Result<bytes, nat>, rest: bytes)
    ensures var whole := text[..|text| / 4 * 4];
            && (r.Ok? <==> GroupsOk(whole))
            && (r.Ok? ==> r.value == Content(whole) && rest == text[|text| / 4 * 4..])
            && (r.Err? ==> rest == text)
  {
    hide Base64.Decoded, Content, GroupsOk, OneSegment;
    var whole := |text| / 4 * 4;
    var decoded: bytes := [];
    var start, group := 0, 0;
    NoGroups();
    assert text[..0] == [];
    while group < whole
      invariant start <= group <= whole && start % 4 == 0 && group % 4 == 0
      invariant group == whole ==> start == whole
      invariant forall i :: start <= i < group && i % 4 == 3 ==> text[i] != Base64.PAD
      invariant GroupsOk(text[..start]) && decoded == Content(text[..start])
    {
      if text[group + 3] == Base64.PAD || group + 4 == whole {
        var segment := text[start..group + 4];
        SegmentAfter(text, start, group + 4, whole);
        var part := Base64.Decoded(segment, false);
        if part.Err? {
          return Err(start + part.error), text;
        }
        decoded := decoded + part.value;
        start := group + 4;
      }
      group := group + 4;
    }
    return Ok(decoded), text[whole..];
  }

  lemma SegmentIs(text: bytes, start: nat, end: nat)
    requires start < end <= |text| && start % 4 == 0 && end % 4 == 0
    requires forall i :: start <= i < end - 4 && i % 4 == 3 ==> text[i] != Base64.PAD
    ensures OneSegment(text[start..end])
  {
    assert forall i :: 0 <= i < end - start - 4 && i % 4 == 3 ==> (start + i) % 4 == 3;
  }

  /** What one more segment adds to the groups decoded before it. */
  lemma SegmentAfter(text: bytes, start: nat, end: nat, whole: nat)
    requires start < end <= whole <= |text| && start % 4 == 0 && end % 4 == 0
    requires forall i :: start <= i < end - 4 && i % 4 == 3 ==> text[i] != Base64.PAD
    requires GroupsOk(text[..start])
    ensures Base64.Decoded(text[start..end], false).Ok? <==> GroupsOk(text[..end])
    ensures GroupsOk(text[..end]) ==>
            Content(text[..end]) == Content(text[..start]) + Base64.Decoded(text[start..end], false).value
    ensures !GroupsOk(text[..end]) ==> !GroupsOk(text[..whole])
  {
    hide Base64.Decoded, Content, GroupsOk, OneSegment;
    var segment := text[start..end];
    SegmentIs(text, start, end);
    SegmentDecodes(segment);
    GroupsAppend(text[..start], segment);
    assert text[..start] + segment == text[..end];
    GroupsAppend(text[..end], text[end..whole]);
    assert text[..end] + text[end..whole] == text[..whole];
  }

  lemma NoGroups()
    ensures GroupsOk([]) && Content([]) == []
  {
  }

  // ---------------------------------------------------------------------
  // The reader of a request's frames
  // ---------------------------------------------------------------------

  class Frames {
    /** The pieces the source has yet to give. */
    var source: seq<bytes>
    var buffer: bytes
    var message: bytes
    /** The text not yet decoded of a body sent as text. */
    var text: Option<bytes>
    const gzip: bool
    const gunzip: bytes -> Unpacked

    constructor (source: seq<bytes>, buffer: bytes, text: bool, gzip: bool, gunzip: bytes -> Unpacked)
      ensures this.source == source && this.buffer == buffer && this.text == (if text then Some([]) else None)
      ensures this.gzip == gzip && this.gunzip == gunzip && Ok()
      ensures Body() == buffer + (if text then Content(Flat(source)) else Flat(source))
      ensures Sound() <==> !text || SoundText(Flat(source))
    {
      this.source, this.buffer, this.message := source, buffer, [];
      this.text := if text then Some([]) else None;
      this.gzip, this.gunzip := gzip, gunzip;
      new;
      NoText();
      assert [] + Flat(source) == Flat(source);
    }

    /** The text a body sent as text has yet to decode, read or not. */
    function Text(): bytes
      reads this
    {
      match text
      case Some(undecoded) => undecoded + Flat(source)
      case None => []
    }

    /** The bytes of the body from here on, whatever pieces they come in. */
    function Body(): bytes
      reads this
    {
      buffer + (if text.Some? then Content(Text()) else Flat(source))
    }

    /** Whether a body sent as text is Base64, in whole groups. */
    predicate Sound()
      reads this
    {
      SoundText(Text())
    }

    /** Takes a frame off the buffer, if it holds a whole one. */
    method Take() returns (code: int)
      modifies this
      ensures source == old(source) && text == old(text)
      ensures !HasFrame(old(buffer)) ==> code == 0 && buffer == old(buffer) && message == old(message)
      ensures HasFrame(old(buffer)) ==>
                var next := Next(old(buffer), gzip, gunzip);
                && code == Code(next) && buffer == next.rest && (next.Message? ==> message == next.message)
    {
      if |buffer| < 5 { return 0; }
      var length := ReadBigEndian32(buffer[1..]);
      if |buffer| < 5 + length { return 0; }
      var compressed := buffer[0] != 0;
      var payload := buffer[5..5 + length];
      buffer := buffer[5 + length..];
      if !compressed {
        message := payload;
        return 1;
      }
      if !gzip { return -2; }
      match gunzip(payload) {
        case Plain(unpacked) => message := unpacked; return 1;
        case TooLarge => return -3;
        case NotGzip => return -1;
      }
    }

    /** Text is decoded as far as its whole groups go. */
    predicate Ok()
      reads this
    {
      text.Some? ==> |text.value| < 4
    }

    /** Reads the next piece of the source; false when its text is wrong. */
    method Pull() returns (ok: bool)
      requires Ok() && source != []
      modifies this
      ensures Ok() && source == old(source)[1..]
      ensures ok ==> Body() == old(Body()) && (Sound() <==> old(Sound()))
      ensures !ok ==> !old(Sound())
    {
      hide GroupsOk, Content;
      var chunk, after := source[0], source[1..];
      if text == None {
        assert buffer + (chunk + Flat(after)) == (buffer + chunk) + Flat(after);
        buffer, source := buffer + chunk, after;
        return true;
      }
      var gathered := text.value + chunk;
      var n := |gathered| / 4 * 4;
      assert Text() == gathered[..n] + (gathered[n..] + Flat(after));
      GroupsAppend(gathered[..n], gathered[n..] + Flat(after));
      var r, rest := Decoded(gathered);
      source := after;
      if r.Err? { return false; }
      text := Some(rest);
      assert buffer + (r.value + Content(Text())) == (buffer + r.value) + Content(Text());
      buffer := buffer + r.value;
      return true;
    }

    /** With nothing more to come, the body is what the buffer holds, and text
        that is left is not sound. */
    lemma AtEnd()
      requires Ok() && source == []
      ensures text.None? || text == Some([]) ==> Body() == buffer && Sound()
      ensures text.Some? && text.value != [] ==> !Sound()
    {
      NoGroups();
      assert text.Some? ==> Text() == text.value;
    }

    /** The next message of the body, however it came in pieces. A body sent
        as text that is not sound gives the messages of the groups before the
        one that is wrong, but never an end. */
    method ReadFrame() returns (code: int)
      requires Ok()
      modifies this
      ensures Ok()
      ensures var next := Next(old(Body()), gzip, gunzip);
              && (if old(Sound()) then code == Code(next)
                  else code == -1 || (HasFrame(old(Body())) && code == Code(next)))
              && (code == 1 ==> message == next.message && Body() == next.rest && (Sound() <==> old(Sound())))
              && (code == 0 ==> Body() == [])
    {
      hide SoundText, Content, HasFrame, Flat;
      ghost var body, sound := Body(), Sound();
      while true
        invariant Ok() && Body() == body && (Sound() <==> sound)
        decreases |source|
      {
        if HasFrame(buffer) {
          ghost var more := if text.Some? then Content(Text()) else Flat(source);
          assert body == buffer + more;
          TakesFirst(buffer, more, gzip, gunzip);
          code := Take();
          return;
        }
        if source == [] {
          AtEnd();
          if text.Some? && text.value != [] { return -1; }
          if buffer == [] { Ends(gzip, gunzip); return 0; }
          return -1;
        }
        var ok := Pull();
        if !ok { return -1; }
      }
    }
  }

  lemma Ends(gzip: bool, gunzip: bytes -> Unpacked)
    ensures Next([], gzip, gunzip) == End
  {
  }

  /** A frame at the front is the same with more after it. */
  lemma TakesFirst(buffer: bytes, more: bytes, gzip: bool, gunzip: bytes -> Unpacked)
    requires HasFrame(buffer)
    ensures HasFrame(buffer + more)
    ensures var a, b := Next(buffer, gzip, gunzip), Next(buffer + more, gzip, gunzip);
            && a.End? == b.End? == false && a.Message? == b.Message? && Code(a) == Code(b)
            && b.rest == a.rest + more && (a.Message? ==> a.message == b.message)
  {
    assert (buffer + more)[1..] == buffer[1..] + more;
    var end := FrameEnd(buffer);
    assert (buffer + more)[5..end] == buffer[5..end] && (buffer + more)[end..] == buffer[end..] + more;
  }

  // ---------------------------------------------------------------------
  // Whole bodies
  // ---------------------------------------------------------------------

  /** The reads of a body one after another, up to its end or a failure. */
  function Reads(body: bytes, gzip: bool, gunzip: bytes -> Unpacked): (seq<bytes>, Read)
    decreases |body|
  {
    match Next(body, gzip, gunzip)
    case Message(message, rest) =>
      var (messages, last) := Reads(rest, gzip, gunzip);
      ([message] + messages, last)
    case last => ([], last)
  }

  /** Uncompressed frames, one after another. */
  function AllFramed(messages: seq<bytes>): bytes {
    if messages == [] then [] else Framed(messages[0], false) + AllFramed(messages[1..])
  }

  lemma FramedReads(message: bytes, rest: bytes, gzip: bool, gunzip: bytes -> Unpacked)
    requires |message| < U32
    ensures Next(Framed(message, false) + rest, gzip, gunzip) == Message(message, rest)
  {
    hide BigEndian32, ReadBigEndian32;
    var body := Framed(message, false) + rest;
    BigEndianReads(|message|, message + rest);
    assert body[1..] == BigEndian32(|message|) + (message + rest);
    assert FrameEnd(body) == 5 + |message|;
    assert body[5..5 + |message|] == message && body[5 + |message|..] == rest;
  }

  /** What a message was packed into is unpacked again, by a reader that knows
      how; another reports it and goes on after it. */
  lemma PackedReads(message: bytes, packed: bytes, rest: bytes, gzip: bool, gunzip: bytes -> Unpacked)
    requires |packed| < U32 && gunzip(packed) == Plain(message)
    ensures Next(Framed(packed, true) + rest, gzip, gunzip) == if gzip then Message(message, rest) else Broken(-2, rest)
  {
    hide BigEndian32, ReadBigEndian32;
    var body := Framed(packed, true) + rest;
    BigEndianReads(|packed|, packed + rest);
    assert body[1..] == BigEndian32(|packed|) + (packed + rest);
    assert FrameEnd(body) == 5 + |packed|;
    assert body[5..5 + |packed|] == packed && body[5 + |packed|..] == rest;
  }

  /** Messages framed one after another are read back, each unchanged, and
      then the body ends. */
  lemma {:induction false} BodyReads(messages: seq<bytes>, gzip: bool, gunzip: bytes -> Unpacked)
    requires forall i :: 0 <= i < |messages| ==> |messages[i]| < U32
    ensures Reads(AllFramed(messages), gzip, gunzip) == (messages, End)
  {
    hide Next;
    if messages == [] {
      Ends(gzip, gunzip);
    } else {
      FramedReads(messages[0], AllFramed(messages[1..]), gzip, gunzip);
      BodyReads(messages[1..], gzip, gunzip);
      assert [messages[0]] + messages[1..] == messages;
    }
  }

  /** A length past 32 bits does not read back: its frame is cut short. */
  lemma LongMessageIsCut(message: bytes, gzip: bool, gunzip: bytes -> Unpacked)
    requires |message| >= U32
    ensures Next(Framed(message, false), gzip, gunzip).Message?
    ensures Next(Framed(message, false), gzip, gunzip).message != message
  {
    hide BigEndian32, ReadBigEndian32;
    var body := Framed(message, false);
    var n := |message| % U32;
    BigEndianReads(n, message);
    assert body[1..] == BigEndian32(n) + message;
    assert FrameEnd(body) == 5 + n;
    assert |body[5..5 + n]| == n < |message|;
  }

  /** Pieces of a text, each encoded with its own padding. */
  function EncodedPieces(pieces: seq<bytes>): bytes {
    if pieces == [] then [] else Base64.Encoded(pieces[0], false) + EncodedPieces(pieces[1..])
  }

  lemma EncodedLength(data: bytes)
    ensures |Base64.Encoded(data, false)| % 4 == 0
  {
    hide Base64.Encoded, Base64.Unpadded;
    Base64.EncodedParts(data, false);
    Base64.UnpaddedLength(data, false);
  }

  /** An encoding is whole groups that decode one by one to its data. */
  lemma EncodedGroups(data: bytes)
    ensures |Base64.Encoded(data, false)| % 4 == 0
    ensures GroupsOk(Base64.Encoded(data, false)) && Content(Base64.Encoded(data, false)) == data
  {
    hide Base64.Encoded, Base64.Decoded, GroupsOk, Content, Base64.Unpadded;
    EncodedLength(data);
    var text := Base64.Encoded(data, false);
    Base64.RoundTrip(data, false);
    if text == [] {
      NoGroups();
      Base64.DecodesNothing(false);
    } else {
      Base64.EncodedParts(data, false);
      Base64.ContentOfUnpadded(data, false);
      assert forall i :: 0 <= i < |text| - 4 ==> text[i] != Base64.PAD by {
        forall i | 0 <= i < |text| - 4 ensures text[i] != Base64.PAD {
          assert text[i] == Base64.Unpadded(data, false)[i];
          assert Base64.Position(false, text[i]).Some?;
        }
      }
      SegmentDecodes(text);
    }
  }

  /** However a body is cut into pieces to be encoded, its text is sound and
      its content is the body: frames sent as Base64 text read as frames. */
  lemma {:induction false} TextReads(pieces: seq<bytes>)
    ensures |EncodedPieces(pieces)| % 4 == 0 && GroupsOk(EncodedPieces(pieces))
    ensures Content(EncodedPieces(pieces)) == Flat(pieces)
  {
    hide Base64.Encoded, GroupsOk, Content;
    if pieces == [] {
      NoGroups();
    } else {
      EncodedGroups(pieces[0]);
      TextReads(pieces[1..]);
      GroupsAppend(Base64.Encoded(pieces[0], false), EncodedPieces(pieces[1..]));
    }
  }

  /** What the next read has to do with all of them. */
  lemma ReadsNext(body: bytes, gzip: bool, gunzip: bytes -> Unpacked)
    ensures var next := Next(body, gzip, gunzip);
            && (Code(next) == 1 <==> next.Message?) && (HasFrame(body) ==> Code(next) != 0)
            && if next.Message? then
                 var (more, last) := Reads(next.rest, gzip, gunzip);
                 Reads(body, gzip, gunzip) == ([next.message] + more, last) && |next.rest| < |body|
               else Reads(body, gzip, gunzip) == ([], next)
  {
    hide HasFrame;
    if HasFrame(body) { Shrinks(body, gzip, gunzip); }
  }

  predicate SoundText(text: bytes) { GroupsOk(text) && |text| % 4 == 0 }

  lemma NoText()
    ensures SoundText([])
  {
  }

  /** Reads a body, whatever pieces it comes in, to its end or a failure. One
      sent as text that is not sound gives some of its messages, and never an
      end. */
  method ReadAll(source: seq<bytes>, text: bool, gzip: bool, gunzip: bytes -> Unpacked)
      returns (read: seq<bytes>, code: int)
    ensures var (messages, last) := Reads(if text then Content(Flat(source)) else Flat(source), gzip, gunzip);
            if !text || SoundText(Flat(source)) then read == messages && code == Code(last)
            else read <= messages && code != 0
    ensures code != 1
  {
    hide Next, HasFrame, SoundText, Content, Code, Reads, Frames.Body, Frames.Sound, Frames.Ok;
    var frames := new Frames(source, [], text, gzip, gunzip);
    assert [] + Flat(source) == Flat(source) && [] + Content(Flat(source)) == Content(Flat(source));
    ghost var body := frames.Body();
    ghost var sound := frames.Sound();
    read := [];
    assert read + Reads(body, gzip, gunzip).0 == Reads(body, gzip, gunzip).0;
    while true
      invariant fresh(frames) && frames.Ok() && frames.Sound() == sound
      invariant frames.gzip == gzip && frames.gunzip == gunzip
      invariant var (more, last) := Reads(frames.Body(), gzip, gunzip); Reads(body, gzip, gunzip) == (read + more, last)
      decreases |frames.Body()|
    {
      ghost var left := frames.Body();
      ReadsNext(left, gzip, gunzip);
      code := frames.ReadFrame();
      if code != 1 {
        assert read + [] == read;
        return;
      }
      ghost var (more, last) := Reads(frames.Body(), gzip, gunzip);
      assert read + ([frames.message] + more) == (read + [frames.message]) + more;
      read := read + [frames.message];
    }
  }

  /** Messages framed uncompressed, in any chunks, or as the text of pieces
      each encoded with its own padding, cut anywhere: all are read, unchanged
      and in order, and then the end. */
  method ReadMessages(source: seq<bytes>, text: bool, gzip: bool, gunzip: bytes -> Unpacked,
                      ghost messages: seq<bytes>, ghost pieces: seq<bytes>)
    returns (read: seq<bytes>, code: int)
    requires forall i :: 0 <= i < |messages| ==> |messages[i]| < U32
    requires Flat(pieces) == AllFramed(messages)
    requires Flat(source) == if text then EncodedPieces(pieces) else Flat(pieces)
    ensures read == messages && code == 0
  {
    hide Content, GroupsOk, Reads;
    TextReads(pieces);
    BodyReads(messages, gzip, gunzip);
    read, code := ReadAll(source, text, gzip, gunzip);
  }

  // ---------------------------------------------------------------------
  // The reader of a reply's frames
  // ---------------------------------------------------------------------

  /** The messages at the front of a body that are whole, and what is left. */
  function Whole(body: bytes, gzip: bool, gunzip: bytes -> Unpacked): (seq<bytes>, bytes, Option<int>)
    decreases |body|
  {
    if !HasFrame(body) then ([], body, None)
    else
      match Next(body, gzip, gunzip)
      case Message(message, rest) =>
        var (messages, left, failed) := Whole(rest, gzip, gunzip);
        ([message] + messages, left, failed)
      case next => ([], next.rest, Some(Code(next)))
  }

  lemma {:induction false} WholeAppends(body: bytes, more: bytes, gzip: bool, gunzip: bytes -> Unpacked)
    ensures var (messages, left, failed) := Whole(body, gzip, gunzip);
            var (messages', left', failed') := Whole(body + more, gzip, gunzip);
            if failed.Some? then messages' == messages && failed' == failed && left' == left + more
            else var (m, l, f) := Whole(left + more, gzip, gunzip);
                 messages' == messages + m && left' == l && failed' == f
    decreases |body|
  {
    hide HasFrame, Next;
    if HasFrame(body) {
      TakesFirst(body, more, gzip, gunzip);
      var next := Next(body, gzip, gunzip);
      Shrinks(body, gzip, gunzip);
      if next.Message? {
        WholeAppends(next.rest, more, gzip, gunzip);
        var (messages, left, failed) := Whole(next.rest, gzip, gunzip);
        var (m, l, f) := Whole(left + more, gzip, gunzip);
        assert [next.message] + (messages + m) == ([next.message] + messages) + m;
      }
    } else {
      var (m, l, f) := Whole(body + more, gzip, gunzip);
      assert [] + m == m;
    }
  }

  lemma Shrinks(body: bytes, gzip: bool, gunzip: bytes -> Unpacked)
    requires HasFrame(body)
    ensures var next := Next(body, gzip, gunzip); !next.End? && |next.rest| < |body|
  {
  }

  /** The frames of a reply as its data comes: each piece is added to the
      buffer, and every message then whole is sent on. */
  method Exchange(pieces: seq<bytes>, gzip: bool, gunzip: bytes -> Unpacked)
      returns (events: seq<bytes>, left: bytes, failed: Option<int>)
    ensures (events, left, failed).0 == Whole(Flat(pieces), gzip, gunzip).0
    ensures failed == Whole(Flat(pieces), gzip, gunzip).2
    ensures failed == None ==> left == Whole(Flat(pieces), gzip, gunzip).1
  {
    hide HasFrame, Next, Whole;
    events, left, failed := [], [], None;
    var at := 0;
    ghost var all := Flat(pieces);
    assert pieces[0..] == pieces;
    NoFrame();
    WholeNone([], gzip, gunzip);
    assert [] + Flat(pieces) == Flat(pieces) && [] + Whole(all, gzip, gunzip).0 == Whole(all, gzip, gunzip).0;
    while at < |pieces|
      invariant at <= |pieces| && failed == None && !HasFrame(left)
      invariant var (m, l, f) := Whole(left + Flat(pieces[at..]), gzip, gunzip);
                Whole(all, gzip, gunzip) == (events + m, l, f)
    {
      assert pieces[at..][1..] == pieces[at + 1..];
      assert left + (pieces[at] + Flat(pieces[at + 1..])) == (left + pieces[at]) + Flat(pieces[at + 1..]);
      left := left + pieces[at];
      at := at + 1;
      ghost var more := Flat(pieces[at..]);
      while HasFrame(left)
        invariant failed == None
        invariant var (m, l, f) := Whole(left + more, gzip, gunzip);
                  Whole(all, gzip, gunzip) == (events + m, l, f)
        decreases |left|
      {
        TakesFirst(left, more, gzip, gunzip);
        Shrinks(left, gzip, gunzip);
        WholeFirst(left + more, gzip, gunzip);
        var next := Next(left, gzip, gunzip);
        left := next.rest;
        if !next.Message? {
          assert events + [] == events;
          return events, left, Some(Code(next));
        }
        ghost var (m, l, f) := Whole(left + more, gzip, gunzip);
        assert events + ([next.message] + m) == (events + [next.message]) + m;
        events := events + [next.message];
      }
    }
    WholeNone(left, gzip, gunzip);
    assert left + Flat(pieces[at..]) == left && events + [] == events;
  }

  lemma NoFrame()
    ensures !HasFrame([])
  {
  }

  lemma WholeNone(body: bytes, gzip: bool, gunzip: bytes -> Unpacked)
    requires !HasFrame(body)
    ensures Whole(body, gzip, gunzip) == ([], body, None)
  {
  }

  lemma WholeFirst(body: bytes, gzip: bool, gunzip: bytes -> Unpacked)
    requires HasFrame(body)
    ensures var next := Next(body, gzip, gunzip);
            if next.Message? then
              var (m, l, f) := Whole(next.rest, gzip, gunzip);
              Whole(body, gzip, gunzip) == ([next.message] + m, l, f)
            else Whole(body, gzip, gunzip) == ([], next.rest, Some(Code(next)))
  {
    hide Next, HasFrame;
    Shrinks(body, gzip, gunzip);
  }
}
