# The Tondo runtime, modelled and proved

This project models the parts of the Tondo language runtime
(`crates/tondo-runtime`) whose logic stands on its own, and proves with Dafny
4.11 what those parts promise. `dafny verify dfyconfig.toml` checks all of it.

Code that the runtime writes as objects changed in place is modelled by classes
with the same fields and loops, proved against functions that say what each call
does; what the runtime promises is then proved about those functions. Code that
threads interleave is modelled by its atomic steps, one for each time a lock is
held, and proved over every run.

| Files | Runtime source | What they hold |
|---|---|---|
| `json.dfy`, `json_input.dfy`, `json_reader.dfy`, `json_utf8.dfy`, `json_pieces.dfy` | `json.rs` | reading JSON, from a text or a stream in pieces |
| `json_text.dfy`, `json_reading.dfy`, `json_roundtrip.dfy`, `json_html.dfy`, `json_rows.dfy` | `json.rs` | the text of a value, its rows and escapes, and reading it back |
| `json_writer.dfy`, `json_values.dfy`, `json_canonical.dfy`, `json_order.dfy` | `json.rs` | the writer, and canonical output |
| `cbor.dfy`, `cbor_decoder.dfy`, `cbor_nesting.dfy` | `cbor.rs` | decoding CBOR |
| `cbor_encoding.dfy`, `cbor_writer.dfy`, `cbor_values.dfy`, `cbor_canonical.dfy`, `cbor_shortest.dfy` | `cbor.rs` | the writer, deterministic and shortest encodings |
| `cbor_reading.dfy`, `cbor_roundtrip.dfy`, `cbor_forms.dfy`, `floats.dfy`, `wide.dfy` | `cbor.rs` | the round trip, and data in other forms |
| `heap.dfy`, `cycles.dfy`, `release.dfy` | `cycles.rs` | the cycle collector |
| `clock.dfy`, `clock_runs.dfy` | `clock.rs` | the virtual clock |
| `streams.dfy` | `io.rs` | buffered streams |
| `contexts.dfy`, `computed.dfy` | `contexts.rs` | context tables and computed fields |
| `civil.dfy`, `instants.dfy`, `instant_text.dfy`, `instant_forms.dfy` | `civil.rs` | the calendar, and the text of instants |
| `grpc.dfy`, `base64.dfy`, `paths.dfy` | `grpc.rs`, `codec.rs` | message framing, Base64, path text |
| `labels.dfy` | `labels.rs` | the table of label sets |
| `bytes.dfy`, `arith.dfy`, `decimal.dfy`, `utf8.dfy`, `order.dfy` | | bytes and sequences, division, numerals, UTF-8, sorting |

## What does not hold everywhere

Some promises hold only under a condition. Each is stated with the condition
under which the code meets it, and what happens otherwise.

- An instant whose UTC year is not 0 to 9999 prints a text that does not read
  (`Instants.RoundTrip`). So the CBOR writer accepts a date and time near
  either end of the four-digit years, with an offset that takes it past, and
  writes what its own decoder refuses (`CborReading.DateTimeReads`,
  `CborRoundTrip.EarlyIsRefused`).
- The reader of instants takes days up to 31 in every month and any two digits
  for hours, minutes and seconds (`InstantForms.ReadsForms`), and counts on from
  there (`InstantForms.FormReads`).
- A failed write of a buffered stream drops what the host did not take of the
  bytes gathered. So an operation that fails may be retried if and only if the
  host took all that was gathered (`Streams.Stream.Flush`, `Streams.Do`), as it
  does unless its writes fail; on a full disk it does not
  (`Streams.FullDiskLoses`).
- The collector frees all its garbage exactly when every cycle of it passes
  through a cell it can clear; and then it frees nothing else exactly when what
  is not garbage keeps itself (`Releases.Collect`), which only an object flagged
  as held may fail to do (`Releases.FlaggedDecide`). One that only garbage
  refers to is freed (`Releases.FreesFlagged`).
- The virtual clock goes back when an `advance` gets to wait after the clock is
  past its target (`ClockRuns.LateGoesBack`). That does not happen to tasks of
  the domain (`ClockRuns.AloneIsTimely`), and does to a task whose clock is the
  host's and that holds the domain's clock (`ClockRuns.OtherGoesBack`). No drive
  is lost even then (`ClockRuns.EveryRunIsSafe`).
- A gRPC message of 2^32 bytes or more is cut when it is read back
  (`Grpc.LongMessageIsCut`).
- The comment on the JSON reader calls it strict; its escapes of four digits
  also take a plus sign and three digits, and nothing else (`Json.Hex4`,
  `Json.PlusIsRead`).
- The CBOR writer refuses repeated keys only when it is deterministic
  (`CborValues.Written`), and the decoder does not refuse them.
- The event of a CBOR map's key has the path of the key before it
  (`CborRoundTrip.SecondKeyHasFirstPath`), which is its own exactly when the two
  are the same key (`Cbor.KeyHasPathBefore`).

## Model

| member | source | states |
|---|---|---|
| `Json.Hex4` | crates/tondo-runtime/src/json.rs:455-462 | Four characters of an escape give a number below 2^16 and move the reader past them exactly when they are hexadecimal digits, or a plus sign and three: the radix parse takes a sign. Otherwise nothing moves and the escape is invalid. |
| `Json.PlusIsRead` | crates/tondo-runtime/src/json.rs:455-530 | An escape with a plus sign and three digits, which RFC 8259 does not have, is read as the letter they are the code of. |
| `Json.UnicodeAt` | crates/tondo-runtime/src/json.rs:507-525 | A `u` escape, or the two of a surrogate pair, gives a Unicode scalar value; an unpaired half is a failure. Which one is `JsonReading.EscapedUnitsRead`. |
| `Json.NextAdvances` | crates/tondo-runtime/src/json.rs:244-351 | Every call of `next` stays inside the text, and one that gives an event moves forward; a call fails exactly when a failure is recorded, and the first failure is at the position then reached. |
| `JsonReader.Reader.Ensure` | crates/tondo-runtime/src/json.rs:153-171 | After refilling, the bytes held are those of the whole text at the same place, and the answer is whether the whole text has as many more, however it was cut. |
| `JsonReader.Reader.Peek` | crates/tondo-runtime/src/json.rs:146-151 | The next byte is the whole text's at the position, and none only at its end. |
| `JsonReader.Reader.SkipSpace` | crates/tondo-runtime/src/json.rs:140-144 | Space is skipped up to where it ends in the whole text. |
| `JsonReader.Reader.ReadNumber` | crates/tondo-runtime/src/json.rs:416-453 | A number ends, or fails, where it does in the whole text, and its text is that part of it. |
| `JsonReader.Reader.ReadHex4` | crates/tondo-runtime/src/json.rs:455-462 | The four digits are those of the whole text, even cut between two chunks. |
| `JsonReader.Reader.ReadUnicode` | crates/tondo-runtime/src/json.rs:507-525 | A `u` escape is read in place as in the whole text, surrogate pairs and the place of each failure included. |
| `JsonReader.Reader.ReadEscape` | crates/tondo-runtime/src/json.rs:495-530 | An escape is read as its character's bytes. |
| `JsonReader.Reader.TakeRun` | crates/tondo-runtime/src/json.rs:486-490 | The run copied at once is plain bytes of the whole text, from the position on. |
| `JsonReader.Reader.StringInto` | crates/tondo-runtime/src/json.rs:483-535 | Copying runs and escapes in turn gives what reading byte by byte gives: the same content, or the same failure at the same place. |
| `JsonReader.Reader.ReadString` | crates/tondo-runtime/src/json.rs:465-481 | A string read into `text`, checked for UTF-8 when it comes from a stream, and emptied on a failure. |
| `JsonReader.Reader.Value` | crates/tondo-runtime/src/json.rs:361-413 | The value at the position gives the event and state that it gives in the whole text. |
| `JsonReader.Reader.AfterValue` | crates/tondo-runtime/src/json.rs:353-359 | After a member value the object expects a key again; nothing else changes. |
| `JsonReader.Reader.KeyAt` | crates/tondo-runtime/src/json.rs:192-196 | The key cut out of the shared buffer is the one that was put there. |
| `JsonReader.Reader.LookUp` | crates/tondo-runtime/src/json.rs:315-335 | With the filter of 64 bits, the scan of few keys and the set, a key is reported exactly when repeated keys are refused and it is one of the object's own; what is remembered then covers it too. |
| `JsonReader.Reader.Remember` | crates/tondo-runtime/src/json.rs:312-335 | The innermost object remembers the key and nothing else about the open containers changes. |
| `JsonReader.Reader.AddKey` | crates/tondo-runtime/src/json.rs:312-346 | The key joins those of its object alone, the object then expects a value, and a repeated key is the failure that the whole text gives. |
| `JsonReader.Reader.CloseContainer` | crates/tondo-runtime/src/json.rs:279-286 | The container closes and exactly its keys leave the shared buffer. |
| `JsonReader.Reader.Member` | crates/tondo-runtime/src/json.rs:277-346 | Ends, separators, items and keys are read as in the whole text. |
| `JsonReader.Reader.Carry` | crates/tondo-runtime/src/json.rs:179-186 | The lines and characters let go stay counted: lines always, characters for UTF-8 text. |
| `JsonReader.Reader.Compact` | crates/tondo-runtime/src/json.rs:173-190 | Letting input go keeps the position in the whole text, and nothing from a pinned value on goes. |
| `JsonReader.Reader.LineColumnOf` | crates/tondo-runtime/src/json.rs:233-242 | The line of an offset is that of the whole text, and for UTF-8 text so is the column. |
| `JsonReader.Reader.Next` | crates/tondo-runtime/src/json.rs:244-351 | Each call gives the event, text, number, error offset and state that reading the whole text gives, whatever the chunks and whatever was let go. |
| `JsonReader.Reader.Skip` | crates/tondo-runtime/src/json.rs:537-551 | Skipping a value ends where it ends in the whole text, or fails as there. |
| `JsonReader.Reader.Raw` | crates/tondo-runtime/src/json.rs:664-675 | The raw text of a value is that slice of the whole text, although input is let go while it is read past; also after a failure. The value's start has to be held when it is called, as it is after `next` began the value; the source slices from there without a check. |
| `JsonReader.Reader.Tell` | crates/tondo-runtime/src/json.rs:677-682 | A caller's failure is recorded at the current position, unless there is one already. |
| `JsonReader.Reader.Where` | crates/tondo-runtime/src/json.rs:684-698 | The line and column reported are those of the failure, or of the position, in the whole text. |
| `JsonReader.Reader.Path` | crates/tondo-runtime/src/json.rs:198-231 | The path found with the places where objects' keys start is that of the open containers, each object showing its own last key. |
| `Json.PositionIs` | crates/tondo-runtime/src/json.rs:233-242 | A line is one more than the line ends before it, and a column one more than the characters since the last of them. |
| `Utf8.CharsStart` | crates/tondo-runtime/src/json.rs:238-240 | The characters of UTF-8 text are as many as the bytes that begin one. |
| `Json.ItemIsNumbered` | crates/tondo-runtime/src/json.rs:198-231 | While an item of an array is read the path ends in its number, counted from 0. |
| `Json.KeyIsShown` | crates/tondo-runtime/src/json.rs:198-231 | Once a key is read the path ends in it, as it is shown. |
| `JsonInput.KeysBetween` | crates/tondo-runtime/src/json.rs:201-216 | An object's keys are one segment of the shared buffer, ending where those of the next open object start. |
| `JsonInput.ColumnAdds` | crates/tondo-runtime/src/json.rs:178-186 | The characters since the last line end may be counted in pieces cut between characters. |
| `JsonUtf8.StringAtIsValid` | crates/tondo-runtime/src/json.rs:469-479 | A string of UTF-8 text is UTF-8: runs end at ASCII bytes and escapes add whole characters. |
| `JsonUtf8.Unchecked` | crates/tondo-runtime/src/json.rs:471-474 | On UTF-8 input the stream reader's check never fails, so it changes no call. |
| `JsonUtf8.NextAligned` | crates/tondo-runtime/src/json.rs:173-190 | After every event the reader stands between two characters, and so does the start of the last value; letting input go there cuts no character. |
| `JsonPieces.Compare` | crates/tondo-runtime/src/json.rs:146-190 | For every way of cutting UTF-8 text into chunks that are not empty, and every series of calls, a stream reader and the reader of the whole text agree on all events, texts, numbers, raw texts, paths, lines and columns. |
| `JsonText.Quote` | crates/tondo-runtime/src/json.rs:751-792 | Quoting in place, with whole runs between escapes, gives the escapes of each character in turn; which those are is `JsonHtml.EscapedExactly`. |
| `JsonHtml.EscapedExactly` | crates/tondo-runtime/src/json.rs:758-781 | A byte is escaped exactly when a string must not have it as it is, or when the text is to be safe inside a page and the byte is `<`, `>`, `&` or begins U+2028 or U+2029. |
| `JsonHtml.BodyIsSafe` | crates/tondo-runtime/src/json.rs:766-773 | No `<`, `>`, `&`, U+2028 or U+2029 is left in any text so quoted. |
| `JsonHtml.WrittenIsSafe` | crates/tondo-runtime/src/json.rs:751-902 | Nor in what a writer with `htmlSafe` puts out for any value, compact or pretty. |
| `JsonHtml.MarkupGoesAsItIs` | crates/tondo-runtime/src/json.rs:758-781 | Without `htmlSafe` they go as they are. |
| `JsonRows.WrittenInRows` | crates/tondo-runtime/src/json.rs:816-889 | A pretty writer puts out the rows of the value, one for each value, key with its value and bracket, those inside a container one level deeper and each indented by two spaces for each level. |
| `JsonText.DecimalDigits` | crates/tondo-runtime/src/json.rs:1047-1064 | The digits written from the end of the 20-byte buffer are the shortest numeral of the `Int`, signed, and always fit. |
| `JsonReading.EscapeReads` | crates/tondo-runtime/src/json.rs:760-775 | Every escape that quoting writes is read back as the bytes it replaced. |
| `JsonReading.EscapedUnitsRead` | crates/tondo-runtime/src/json.rs:507-525 | Every character is read from the escapes of its UTF-16 code units, in digits of either case: one, or the two of a surrogate pair; reading goes on just past them. |
| `JsonReading.PairReads` | crates/tondo-runtime/src/json.rs:507-520 | A concrete surrogate pair is read as its character, in UTF-8. |
| `JsonReading.HalfIsUnpaired` | crates/tondo-runtime/src/json.rs:511-522 | Half of a surrogate pair without the other is a failure. |
| `JsonReading.LettersRead` | crates/tondo-runtime/src/json.rs:495-506 | The escapes of one letter are the eight of RFC 8259, section 7, each for its character, and no others. |
| `JsonReading.QuotedReads` | crates/tondo-runtime/src/json.rs:752-792 | Quoting a text and reading it as a string is the identity, with or without the escapes for pages. |
| `JsonReading.NumeralReads` | crates/tondo-runtime/src/json.rs:416-453 | Every number token of RFC 8259, section 6, is read whole before what ends it. |
| `JsonReading.IntReads` | crates/tondo-runtime/src/json.rs:1041-1064 | The digits of an `Int` are a number token and are read as that `Int`. |
| `JsonRoundTrip.TextReads` | crates/tondo-runtime/src/json.rs:244-535 | The text of any value, compact, pretty or safe for pages, is read back as its events and the end exactly when it nests at most 128 deep and repeats no key that may not be; otherwise reading fails. |
| `JsonRoundTrip.MembersReadableAre` | crates/tondo-runtime/src/json.rs:320-345 | Members can be read exactly when each value can and, unless repeats are allowed, no key comes twice. |
| `JsonWriter.Writer.Separator` | crates/tondo-runtime/src/json.rs:816-832 | A comma before all members but the first, and a new line with its indent when pretty; nothing after a key. |
| `JsonWriter.Writer.Add` | crates/tondo-runtime/src/json.rs:852-859 | A finished value goes into the container being built, under the pending key in an object, or is the root. |
| `JsonWriter.Writer.LeafText` | crates/tondo-runtime/src/json.rs:834-850 | A scalar goes out after its separator or, canonical, into the tree. |
| `JsonWriter.Writer.Begin` | crates/tondo-runtime/src/json.rs:861-871 | A container begins in the output or, canonical, on the stack with the key it goes under. |
| `JsonWriter.Writer.End` | crates/tondo-runtime/src/json.rs:873-889 | A container ends: its bracket, on a line of its own after members when pretty, or its tree goes where it belongs. |
| `JsonWriter.Writer.Key` | crates/tondo-runtime/src/json.rs:891-902 | A key is written quoted with its colon or, canonical, kept for the value that comes. |
| `JsonWriter.Writer.Deliver` | crates/tondo-runtime/src/json.rs:904-916 | What the stream got is always the front of what was put out, and all of it at the end unless a write failed; after a failure nothing more goes. |
| `JsonWriter.Writer.Write` | crates/tondo-runtime/src/json.rs:1034-1137 | Each operation changes the state as its specification says, whether or not output goes to a stream on the way. |
| `JsonWriter.Writer.Finish` | crates/tondo-runtime/src/json.rs:918-962 | The output of a writer without a stream, or all that a stream got unless it failed, is what was put out and the canonical tree. |
| `JsonWriter.Emit` | crates/tondo-runtime/src/json.rs:920-949 | Writing a tree, sorting the members of each object first, gives the joined members in the order of their keys' UTF-16 code units. |
| `JsonValues.Written` | crates/tondo-runtime/src/json.rs:815-902 | The operations of any value, from a new writer, put out exactly its text in the writer's style. |
| `JsonCanonical.CanonicalWritten` | crates/tondo-runtime/src/json.rs:918-951 | Canonical output of any value is the compact text of the value with numbers as doubles and members sorted at every depth. |
| `JsonOrder.UnitsDistinct` | crates/tondo-runtime/src/json.rs:934-936 | Keys are distinct exactly when their UTF-16 code units are, so the sort leaves no tie. |
| `JsonOrder.CanonicalOrdered` | crates/tondo-runtime/src/json.rs:934-936 | With distinct keys, the keys of every object in canonical output strictly increase (RFC 8785, section 3.2.3). |
| `JsonOrder.OrderLeavesNoTrace` | crates/tondo-runtime/src/json.rs:852-951 | Values that differ in the order of members, at any depth, have the same canonical bytes. |
| `JsonOrder.RoundTrip` | crates/tondo-runtime/src/json.rs:815-962 | Reading what was written, in any mode, gives the events of what was written and the end exactly when it can be read; otherwise reading fails. |
| `JsonOrder.DistinctRoundTrip` | crates/tondo-runtime/src/json.rs:815-962 | With distinct keys, what was written is read back exactly when it nests at most 128 deep. |
| `CborDecoder.Decoder.Take` | crates/tondo-runtime/src/cbor.rs:110-118 | Takes the next bytes, or fails without moving when the input ends first. |
| `CborDecoder.Decoder.NumberAt` | crates/tondo-runtime/src/cbor.rs:120-122 | Folding the bytes with shifts gives the number they write. |
| `CborDecoder.Decoder.Argument` | crates/tondo-runtime/src/cbor.rs:124-133 | The argument of a head: in the head, in 1, 2, 4 or 8 bytes, none, or reserved. |
| `CborDecoder.Decoder.Chunks` | crates/tondo-runtime/src/cbor.rs:168-186 | The chunks of an indefinite string, gathered in the loop, are those of the specification up to the break, with the same failures; that they are all of them in turn is `CborForms.ChunksDecode`. |
| `CborDecoder.Decoder.Done` | crates/tondo-runtime/src/cbor.rs:145-160 | An item is counted by its container, which closes, and is counted in turn, when full. |
| `CborDecoder.Decoder.Close` | crates/tondo-runtime/src/cbor.rs:162-166 | The innermost container closes with its end event, at the path outside it. |
| `CborDecoder.Decoder.ReadItem` | crates/tondo-runtime/src/cbor.rs:188-250 | Reading an item in place gives the item, events, open containers and failure that the specification gives. |
| `CborDecoder.Decoder.ReadTagged` | crates/tondo-runtime/src/cbor.rs:252-291 | Tags 0 to 3 read as dates, times and integers of 128 bits; others as the item they hold. |
| `CborDecoder.Decoder.ScalarDateTime` | crates/tondo-runtime/src/cbor.rs:293-301 | A date and time is a key where the map waits for one, and else a value. |
| `CborDecoder.Decoder.Value` | crates/tondo-runtime/src/cbor.rs:310-348 | Reads one item and all it opens, or gives the first failure with its path. |
| `CborDecoder.Parse` | crates/tondo-runtime/src/cbor.rs:367-383 | The events of the one item the input is, or the failure: empty, inside the item, or after it. |
| `CborNesting.ItemKeeps` | crates/tondo-runtime/src/cbor.rs:188-250 | Whatever the input, every item keeps the containers opened and not closed as many as the open frames, never more than 512, and none closes that did not open. |
| `CborNesting.ParsedNests` | crates/tondo-runtime/src/cbor.rs:366-383 | In what was read without failure every container closes once. |
| `CborNesting.Reader.Skip` | crates/tondo-runtime/src/cbor.rs:422-438 | Skipping stops just past the event where the container last given out ends, and fails only if it has no end. |
| `CborNesting.SkipFinds` | crates/tondo-runtime/src/cbor.rs:422-438 | In what was read without failure every container has its end, so skipping one never fails. |
| `Cbor.KeyHasPathBefore` | crates/tondo-runtime/src/cbor.rs:317-328 | The event of a map's key has the path of the key before it, and its own path if and only if the two keys are the same. |
| `CborReading.HeadReads` | crates/tondo-runtime/src/cbor.rs:495-513 | The shortest head written is read as its major type and argument, for every argument of 64 bits. |
| `CborReading.IntegerItemReads` | crates/tondo-runtime/src/cbor.rs:468-493 | Every integer of 128 bits written is read back as it, from a head or from tag 2 or 3. |
| `CborReading.FloatItemReads` | crates/tondo-runtime/src/cbor.rs:515-531 | Every float written is read back as the same number, whichever of the three sizes it was written in. |
| `CborReading.DateTimeReads` | crates/tondo-runtime/src/cbor.rs:660-676 | A date and time written is read back exactly when its UTC year has four digits; otherwise it is refused. |
| `CborShortest.HeadIsShortest` | crates/tondo-runtime/src/cbor.rs:495-513 | No head that reads as the same argument is shorter. |
| `CborShortest.FloatIsShortest` | crates/tondo-runtime/src/cbor.rs:515-531 | No float of 2, 4 or 8 bytes that reads as the same number is shorter. |
| `Floats.ToHalfIsEqual` | crates/tondo-runtime/src/cbor.rs:533-562 | The half that `to_half` answers with is the same number as the single. |
| `Floats.EqualIsToHalf` | crates/tondo-runtime/src/cbor.rs:533-562 | `to_half` answers whenever some half is the same number, with that half. |
| `Floats.ToSingleIsEqual` | crates/tondo-runtime/src/cbor.rs:520-524 | A double that survives the cast to a single is that single's number. |
| `Floats.EqualIsToSingle` | crates/tondo-runtime/src/cbor.rs:520-524 | And every double that is some single's number survives the cast. |
| `Floats.DoubleDecides` | crates/tondo-runtime/src/cbor.rs:350-360 | No two doubles but NaNs are the same number, so a float read back as its number is read back bit for bit. |
| `CborEncoding.IntIsInteger` | crates/tondo-runtime/src/cbor.rs:626-635 | An `Int` is written as its digits would be. |
| `CborEncoding.DigitsAreInteger` | crates/tondo-runtime/src/cbor.rs:468-493 | The digits of an integer of 128 bits are read as its sign and magnitude. |
| `CborWriter.Writer.Add` | crates/tondo-runtime/src/cbor.rs:586-596 | A finished item goes to the output, the array, or the map under its key; a value without its key is a failure. |
| `CborWriter.Writer.Key` | crates/tondo-runtime/src/cbor.rs:678-689 | A key goes where a map waits for one, and is a failure anywhere else. |
| `CborWriter.Writer.Close` | crates/tondo-runtime/src/cbor.rs:699-722 | The container closes with its definite length, its members sorted when deterministic; a wrong count or, deterministic, a repeated key is a failure. |
| `CborWriter.Writer.Write` | crates/tondo-runtime/src/cbor.rs:616-722 | Each operation changes the writer as its specification says. |
| `CborWriter.SortedTells` | crates/tondo-runtime/src/cbor.rs:709-713 | Comparing neighbours after the sort finds exactly the keys written twice. |
| `CborValues.KeysDistinct` | crates/tondo-runtime/src/cbor.rs:711-716 | Keys are the same by their encodings exactly when their texts are, so a map is refused only for a key given twice. |
| `CborValues.Written` | crates/tondo-runtime/src/cbor.rs:616-729 | The operations of any value give exactly its encoding; deterministic, nothing when some map has the same key twice. |
| `CborCanonical.CanonicalOrdered` | crates/tondo-runtime/src/cbor.rs:709-713 | Deterministic maps have strictly increasing encoded keys at every depth (RFC 8949, section 4.2.1). |
| `CborCanonical.OrderLeavesNoTrace` | crates/tondo-runtime/src/cbor.rs:699-722 | Values that differ in the order of members, at any depth, have the same deterministic bytes. |
| `CborRoundTrip.EncodingReads` | crates/tondo-runtime/src/cbor.rs:310-383 | An encoding is read back as the value's events exactly when it nests at most 512 deep and its dates and times have UTC years of four digits; otherwise reading fails. |
| `CborRoundTrip.RoundTrip` | crates/tondo-runtime/src/cbor.rs:310-729 | The same for what the writer wrote, deterministic or not: written and read back, a value gives its events, or those of its sorted form. |
| `CborRoundTrip.EarlyIsRefused` | crates/tondo-runtime/src/cbor.rs:660-676 | A date and time that the writer takes and the decoder then refuses: midnight of the first day of the year 0, an hour east of UTC. |
| `CborRoundTrip.SecondKeyHasFirstPath` | crates/tondo-runtime/src/cbor.rs:317-328 | Decoding a map of two keys gives the event of the second with the path of the first. |
| `CborForms.FormDecodes` | crates/tondo-runtime/src/cbor.rs:173-361 | Data with strings in chunks and arrays and maps of indefinite length, in one another in any way, decodes to the events and paths of the value it stands for, exactly when that can be read. |
| `CborForms.ChunksDecode` | crates/tondo-runtime/src/cbor.rs:170-187 | For any chunks, each with its head, an indefinite string is one event with all of them joined. |
| `CborForms.OpenDecodesAsClosed` | crates/tondo-runtime/src/cbor.rs:189-242 | An array or map of indefinite length decodes to the events and paths of the definite one, or fails as it does. |
| `CborForms.LongHeadItem` | crates/tondo-runtime/src/cbor.rs:126-133 | A head longer than its argument needs is read as the same argument. |
| `CborForms.OtherTagReads` | crates/tondo-runtime/src/cbor.rs:289-291 | An item under any other tag is the item. |
| `CborForms.TimeReads` | crates/tondo-runtime/src/cbor.rs:262-272 | Tag 1 and an `Int` are the date and time so many seconds after 1970, whose text reads as that instant in four-digit years. |
| `Order.SortForgets` | crates/tondo-runtime/src/cbor.rs:709-711 | Sorting members with distinct keys gives the same sequence whatever order they came in. |
| `Order.SortKeeps` | crates/tondo-runtime/src/cbor.rs:709-711 | Sorting loses, adds and repeats nothing. |
| `Cycles.Visitor.Add` | crates/tondo-runtime/src/cycles.rs:254-262 | A new node is put last, with its place in the index. |
| `Cycles.Visitor.Edge` | crates/tondo-runtime/src/cycles.rs:239-252 | A reference to an object that counts its references adds an edge, and a node the first time; one to a constant or to nothing changes nothing. |
| `Cycles.Visitor.Visit` | crates/tondo-runtime/src/cycles.rs:363-374 | Visiting a node records all its references as one range of the edges, right after those of the node before. |
| `Cycles.Visitor.Discover` | crates/tondo-runtime/src/cycles.rs:357-374 | The nodes found are exactly the objects reached from the registered cells, each once, with the ranges of their edges partitioning all edges. |
| `Cycles.Visitor.CountInternal` | crates/tondo-runtime/src/cycles.rs:375-377 | Each node's internal count is the number of edges into it. |
| `Cycles.Visitor.MarkLive` | crates/tondo-runtime/src/cycles.rs:378-387 | The worklist, which may hold a node twice, ends with exactly the nodes that a walk from a held one reaches marked live. |
| `Cycles.CountAndMark` | crates/tondo-runtime/src/cycles.rs:347-388 | The collector's dead nodes are exactly the garbage: objects discovered and not reachable from one that is flagged, being freed, or counted more often than the discovered objects refer to it. |
| `Cycles.CountedExactly` | crates/tondo-runtime/src/cycles.rs:375-377 | The edges into a node are the references to it from the objects discovered. |
| `Cycles.MarkedExactly` | crates/tondo-runtime/src/cycles.rs:378-387 | A node is left unmarked exactly when its object is garbage. |
| `Releases.GarbageIsUnheld` | crates/tondo-runtime/src/cycles.rs:1-16 | Nothing outside holds garbage: no count from outside, and no reference from an object that is not garbage. |
| `Releases.GarbageIsUnreachable` | crates/tondo-runtime/src/cycles.rs:1-16 | No chain of references leads from what the program holds to garbage. |
| `Releases.Store.Release` | crates/tondo-runtime/src/cycles.rs:299-313 | Dropping a reference decrements a count, and the last one frees the object and drops its references in turn; counts stay right. |
| `Releases.Take` | crates/tondo-runtime/src/cycles.rs:299-325 | Taking a cell's state leaves the cell empty, and its references are owed. |
| `Releases.TakeAll` | crates/tondo-runtime/src/cycles.rs:408-414 | The states of all clearable garbage cells are taken, and nothing else changes. |
| `Releases.ComesRound` | crates/tondo-runtime/src/cycles.rs:1-16 | What keeps itself without outside references holds a cycle. |
| `Releases.AllFreed` | crates/tondo-runtime/src/cycles.rs:1-16 | If every cycle of garbage passes through a cell that gave up its state, no garbage is left. |
| `Releases.LeftIsLasting` | crates/tondo-runtime/src/cycles.rs:299-313 | After everything owed is released, the objects left are exactly the members of the sets that keep themselves. |
| `Releases.FlaggedDecide` | crates/tondo-runtime/src/cycles.rs:378-387 | The objects that are not garbage keep themselves exactly when each that is flagged as held has a count from outside or is referred to by another of them. |
| `Releases.Collect` | crates/tondo-runtime/src/cycles.rs:347-418 | A whole collection: counts end equal to the references left, and what stays is exactly what keeps itself. The garbage is all freed if and only if each of its cycles passes through a cleared cell; and then the rest stays if and only if it keeps itself. |
| `Releases.FlaggedIsUnkept` | crates/tondo-runtime/src/cycles.rs:378-387 | A heap with right counts in which an object flagged as held, with its one reference from garbage, does not keep itself. |
| `Releases.FreesFlagged` | crates/tondo-runtime/src/cycles.rs:347-418 | Collecting that heap frees the flagged object with the garbage. |
| `Clock.DriveBegin` | crates/tondo-runtime/src/clock.rs:146-184 | The first locked part of `drive`: when it goes on, what it claims, and what becomes of the clock, timers and waiter; what it wakes is `Clock.LookWakes`. |
| `Clock.LookWakes` | crates/tondo-runtime/src/clock.rs:150-189 | A look claims the wait of every timer that goes and of the `settle` or `advance` that ends, unless one was claimed before; and it wakes exactly the tasks of the waits it claims, once for each. |
| `Clock.FiredWakes` | crates/tondo-runtime/src/clock.rs:178-183 | So do timers due together: each wait is claimed after, and the tasks woken are those of the waits claimed meanwhile. |
| `Clock.Locked.AddTimer` | crates/tondo-runtime/src/clock.rs:85-95 | A timer joins the others in its order, due after a delay that saturates. |
| `Clock.Locked.Look` | crates/tondo-runtime/src/clock.rs:140-184 | The locked part in place, with its loop over the due timers, is the specified step. |
| `Clock.Locked.PopDue` | crates/tondo-runtime/src/clock.rs:178-183 | Exactly the timers due at the new time are taken, in their order, and each wait not yet claimed is claimed and woken. |
| `ClockRuns.NoDriveLostKept` | crates/tondo-runtime/src/clock.rs:98-132 | Whenever no task of the domain runs and the host is done, some thread is inside `drive` or about to call it, also when others returned because one was inside. |
| `ClockRuns.NoWakeLostKept` | crates/tondo-runtime/src/clock.rs:187-189 | A task whose wait was claimed comes to see it: it runs and is about to look, its next park returns at once, or whoever claimed the wait, `drive` or another, has yet to notify it. |
| `ClockRuns.OneDrivesKept` | crates/tondo-runtime/src/clock.rs:140-197 | At most one thread is inside `drive`. |
| `ClockRuns.CountsKept` | crates/tondo-runtime/src/clock.rs:98-115 | `active` counts the tasks of the domain that run, and those stopped but not yet counted out. |
| `ClockRuns.TimersOrderedKept` | crates/tondo-runtime/src/clock.rs:38-43 | While no waiter has a target behind the clock: timers fire in strictly increasing order of deadline and sequence, none pends with a deadline before now, and now does not decrease. |
| `ClockRuns.WaitsKeptKept` | crates/tondo-runtime/src/clock.rs:292-303 | Whoever calls the clock, the waiter is a wait for `settle` or for its target, and no timer ends either. |
| `ClockRuns.MovesWhenIdle` | crates/tondo-runtime/src/clock.rs:150-184 | The clock moves only inside `drive`, with every task waiting and the host done. |
| `ClockRuns.FiresAtDeadline` | crates/tondo-runtime/src/clock.rs:175-183 | The timers that go off are pending ones, exactly at their deadline, and none is lost. |
| `ClockRuns.AdvanceReachesTarget` | crates/tondo-runtime/src/clock.rs:159-166 | An `advance` that is not cancelled wakes with the clock at its target and every deadline up to it visited. |
| `ClockRuns.SettleEndsQuiet` | crates/tondo-runtime/src/clock.rs:152-158 | `settle` ends with every other task waiting and the clock where it was. |
| `ClockRuns.DeadlockIsReal` | crates/tondo-runtime/src/clock.rs:167-172 | A deadlock is reported only with no task running, no host work, no waiter and no timer. |
| `ClockRuns.InvKept` | crates/tondo-runtime/src/clock.rs:85-303 | Every step keeps all of these, if an `advance` that gets to wait has a target that is not behind the clock. |
| `ClockRuns.SafeKept` | crates/tondo-runtime/src/clock.rs:85-303 | Every step of every task and thread, of the domain or not, keeps the counts, the one drive, that no drive and no wake is lost, and what the waits are for. |
| `ClockRuns.InsideIsTimely` | crates/tondo-runtime/src/clock.rs:283-303 | An `advance` of a task of the domain never has a target behind the clock. |
| `ClockRuns.EveryRunIsSafe` | crates/tondo-runtime/src/clock.rs:85-303 | What a step keeps holds after every run, whoever calls the clock. |
| `ClockRuns.EveryRun` | crates/tondo-runtime/src/clock.rs:85-303 | All of it holds after every run in which each `advance` waits before the clock is past its target, and now never decreases over it. |
| `ClockRuns.AloneIsTimely` | crates/tondo-runtime/src/clock.rs:283-303 | Every run in which only tasks of the domain call the clock is one. |
| `ClockRuns.FromTheStart` | crates/tondo-runtime/src/clock.rs:85-303 | From the start of a domain, over every run and whoever calls the clock: no drive is lost, a task parked on a claimed wait is still to be notified, and `active` counts the tasks that run or are stopping. If each `advance` is timely, as it is when only tasks of the domain call the clock, timers fired in strictly increasing order or still pend, none before now. |
| `ClockRuns.LateGoesBack` | crates/tondo-runtime/src/clock.rs:159-166 | With every task waiting and a thread about to drive, an `advance` that gets to wait can make the clock go back if and only if its target is behind the clock. |
| `ClockRuns.OtherGoesBack` | crates/tondo-runtime/src/clock.rs:271-303 | A run from the start in which a task whose clock is the host's reads 0 to advance to 5, the clock goes to 10 by itself, and then back to 5. |
| `Streams.Stream.Flush` | crates/tondo-runtime/src/io.rs:497-504 | The gathered writes reach the host and nothing changes in the plain file. After a failure the file has of them what the host took, so it is unchanged if and only if the host took all. |
| `Streams.Stream.Unread` | crates/tondo-runtime/src/io.rs:506-515 | Seeking back over the bytes read ahead changes nothing in the plain file. |
| `Streams.Stream.Fill` | crates/tondo-runtime/src/io.rs:517-534 | More bytes read ahead, or the end of the data; the plain file and its cursor stay, and after a failure if and only if the host took all that was gathered. |
| `Streams.Stream.ReadLine` | crates/tondo-runtime/src/io.rs:536-555 | The next line of the plain file without its end, with the cursor past it; none at the end. After a failure the file is as before if and only if the host took all that was gathered. |
| `Streams.LineIs` | crates/tondo-runtime/src/io.rs:536-547 | A line is what comes before the first newline, without one return before it; the last may have no newline, and is then as it is. |
| `Streams.Stream.Read` | crates/tondo-runtime/src/io.rs:557-565 | Some of the next bytes of the plain file, at most as many as asked; none only at its end. After a failure the file is as before if and only if the host took all that was gathered. |
| `Streams.Stream.ReadRest` | crates/tondo-runtime/src/io.rs:567-575 | All the rest of the plain file. After a failure the file is as before if and only if the host took all that was gathered. |
| `Streams.Stream.Write` | crates/tondo-runtime/src/io.rs:577-588 | The bytes go over the plain file at its cursor, whether they are gathered or written at once. After a failure the file has of them, and of what was gathered, what the host took. |
| `Streams.Stream.Close` | crates/tondo-runtime/src/io.rs:590-602 | Closing flushes, asks the host for its trailer once and lets it go, unless the flush would block; without an error the file closed is the plain file. |
| `Streams.Do` | crates/tondo-runtime/src/io.rs:497-602 | Every operation gives what the plain file allows; one that fails leaves what the host took, and changes nothing if and only if that is all that was gathered. |
| `Streams.RunAll` | crates/tondo-runtime/src/io.rs:497-602 | Over any series of operations, each that does not fail gives what the plain file then allows, also each that fails on a host whose writes do not; and a flush at the end leaves that file. |
| `Streams.RunsAgree` | crates/tondo-runtime/src/io.rs:517-575 | Two runs without a failure, however few bytes the host gives at a time, give the same lines, rests and files. |
| `Streams.FullDiskLoses` | crates/tondo-runtime/src/io.rs:497-504 | On a full disk a byte gathered is lost with the read that fails, and the next read gives the byte it was to replace. |
| `Streams.RunReady` | crates/tondo-runtime/src/io.rs:652-675 | Retrying an operation on a stream that gathers no writes until it does not block gives what one try on the plain file gives; a read that fails in the end changed nothing. |
| `Civil.DaysRoundTrip` | crates/tondo-runtime/src/civil.rs:5-26 | Every count of days is a valid date's, and that date's count is it. |
| `Civil.DateRoundTrip` | crates/tondo-runtime/src/civil.rs:5-26 | Every valid date, of any year, comes back from its count of days. |
| `Civil.NextCounts` | crates/tondo-runtime/src/civil.rs:5-13 | The next date of the calendar counts one day more. |
| `Civil.IsTheCalendar` | crates/tondo-runtime/src/civil.rs:15-26 | Day 0 is 1970-01-01 and each day is followed by the calendar's next date, leap years included. |
| `Instants.Parse` | crates/tondo-runtime/src/civil.rs:43-92 | The text is advanced over in place as its specification reads it; what that reads is `InstantForms.ReadsForms`. |
| `InstantForms.FormReads` | crates/tondo-runtime/src/civil.rs:43-92 | For every date, time of day and fraction of up to nine digits, the text is read as the days of the date and the time, less the offset when it is ahead of UTC and plus it when behind; without one, with `Z` and with `z` it is UTC. |
| `InstantForms.ReadsForms` | crates/tondo-runtime/src/civil.rs:43-92 | A text is read exactly when it has one of those forms. |
| `Instants.RoundTrip` | crates/tondo-runtime/src/civil.rs:30-92 | Printing and reading is the identity exactly on the instants of the UTC years 0 to 9999; the text of any other does not read at all. |
| `Instants.ReadingIsStable` | crates/tondo-runtime/src/civil.rs:43-92 | A text names an instant below 10^9 nanoseconds whose own text names the same instant, if its UTC year has four digits. |
| `InstantText.FormatShort` | crates/tondo-runtime/src/civil.rs:30-41 | The text of an instant that some text names is ASCII and short. |
| `Contexts.Contexts.Get` | crates/tondo-runtime/src/contexts.rs:398-401 | The value read is the innermost setting of the plain environment, and is referred to. |
| `Contexts.Contexts.Set` | crates/tondo-runtime/src/contexts.rs:422-450 | A `with` that sets a context gives the task a new environment and keeps the old one for the block's end; all counts stay right. |
| `Contexts.Contexts.Capture` | crates/tondo-runtime/src/contexts.rs:473-478 | A capture has the task's environment of the moment, and is one holder more. |
| `Contexts.Contexts.Spawn` | crates/tondo-runtime/src/contexts.rs:387-395 | A task that another spawns starts with its environment. |
| `Contexts.Contexts.Activate` | crates/tondo-runtime/src/contexts.rs:481-492 | A `with` of a capture gives the task the captured environment. |
| `Contexts.Contexts.Restore` | crates/tondo-runtime/src/contexts.rs:454-462 | The end of a block brings the environment before it back. |
| `Contexts.Contexts.Release` | crates/tondo-runtime/src/contexts.rs:574-583 | A table is freed exactly with its last holder, and its slots' references with it. |
| `Contexts.Contexts.Drop` | crates/tondo-runtime/src/contexts.rs:151-159 | A task that ended or a capture let go is a holder less. |
| `Contexts.TableMade` | crates/tondo-runtime/src/contexts.rs:432-446 | A new table's slots are each referred to once more, and every slot's count still covers each table that has it. |
| `Contexts.TableFreed` | crates/tondo-runtime/src/contexts.rs:585-590 | A table that goes owes the references of its slots. |
| `Contexts.RefReleased` | crates/tondo-runtime/src/contexts.rs:585-590 | Dropping one owed reference keeps the counts right, and frees the value only when nothing refers to it. |
| `Contexts.BlocksNest` | crates/tondo-runtime/src/contexts.rs:422-492 | In a block begun by a setting or by activating a capture a task reads what was set or captured, and whatever tasks do meanwhile, the block ends with the environment it began with. |
| `ComputedField.InvKept` | crates/tondo-runtime/src/contexts.rs:47-56 | The field is being computed exactly while one task computes it, and a task sleeps only while it is. |
| `ComputedField.OneComputes` | crates/tondo-runtime/src/contexts.rs:73-115 | In every interleaving, at most one task computes a field. |
| `ComputedField.DoneStays` | crates/tondo-runtime/src/contexts.rs:61-71 | In every interleaving, a field once done never changes. |
| `ComputedField.MakingEnds` | crates/tondo-runtime/src/contexts.rs:95-113 | Whenever the computing ends, in every interleaving, the field is done, or pending again after a failure, every reader that waited is woken, and the next read gets the value or computes it. |
| `ComputedField.AllReadTheSame` | crates/tondo-runtime/src/contexts.rs:73-115 | In every run all tasks that got a value got the same one. |
| `Grpc.BodyReads` | crates/tondo-runtime/src/grpc.rs:743-758 | Messages framed uncompressed, each below 2^32 bytes, are read back unchanged, in order and with nothing after them. |
| `Grpc.PackedReads` | crates/tondo-runtime/src/grpc.rs:1099-1117 | A compressed frame gives what its content unpacks to, or is reported by a reader that does not unpack. |
| `Grpc.LongMessageIsCut` | crates/tondo-runtime/src/grpc.rs:743-758 | A message of 2^32 bytes or more is read back as another: its length has only 32 bits. |
| `Grpc.Frames.Take` | crates/tondo-runtime/src/grpc.rs:1090-1120 | A whole frame at the front of the buffer is taken, or nothing. |
| `Grpc.Frames.Pull` | crates/tondo-runtime/src/grpc.rs:1121-1139 | One more chunk joins the buffer, as Base64 when the body is text; the body to come is unchanged. |
| `Grpc.Frames.ReadFrame` | crates/tondo-runtime/src/grpc.rs:1087-1155 | Each read gives what the whole body's next frame gives, for every chunking of it. |
| `Grpc.Decoded` | crates/tondo-runtime/src/grpc.rs:1068-1083 | The whole groups of the text are decoded, segment by padded segment, and what is left waits; a bad group is reported. |
| `Grpc.SegmentDecodes` | crates/tondo-runtime/src/grpc.rs:1068-1083 | A segment decodes at once exactly when its groups of four do one by one, to the same bytes. |
| `Grpc.GroupsAppend` | crates/tondo-runtime/src/grpc.rs:1068-1083 | Text cut between groups decodes in pieces as it does whole. |
| `Grpc.TextReads` | crates/tondo-runtime/src/grpc.rs:1068-1083 | However a body is cut into pieces, each encoded with its own padding, the text decodes to the body. |
| `Grpc.ReadAll` | crates/tondo-runtime/src/grpc.rs:1087-1155 | Reading frame after frame gives the messages of the whole body and how it ends, for every chunking; text that is not Base64 in whole groups never comes to an end without an error. |
| `Grpc.ReadMessages` | crates/tondo-runtime/src/grpc.rs:743-1155 | Messages framed uncompressed, each below 2^32 bytes, come out of the reader unchanged and in order and then the end, for every chunking, and also as the text of pieces each padded on its own, cut anywhere. |
| `Grpc.Exchange` | crates/tondo-runtime/src/grpc.rs:603-648 | The frames taken from a reply as its data comes are those of the whole reply, whatever its pieces, up to the first that fails. |
| `Base64.Encode` | crates/tondo-runtime/src/codec.rs:30-44 | The groups encoded in the loop are the specified encoding, in either alphabet. |
| `Base64.Decode` | crates/tondo-runtime/src/codec.rs:48-72 | The loop over six-bit groups gives the specified bytes or the offset of the first bad character. |
| `Base64.RoundTrip` | crates/tondo-runtime/src/codec.rs:30-72 | Decoding what was encoded gives it back, with its padding or without. |
| `Base64.Accepts` | crates/tondo-runtime/src/codec.rs:48-72 | Exactly the texts decode that are letters of the alphabet, not one past a group, with nothing after them or one or two `=` that fill a group. |
| `Base64.ContentEnds` | crates/tondo-runtime/src/codec.rs:48-72 | Text that ends on a group decodes to bytes that what follows only adds to. |
| `Paths.Steps` | crates/tondo-runtime/src/codec.rs:378-420 | The loop over a path gives its specified steps, or none for a path that is not valid. |
| `Paths.EscapedFirst` | crates/tondo-runtime/src/codec.rs:423-431 | Escaping the backslashes and then the quotes escapes each character on its own. |
| `Paths.KeyReads` | crates/tondo-runtime/src/codec.rs:378-431 | The path of a key under a valid parent is read as the parent's steps and then the key, for every key. |
| `Paths.PathOfReads` | crates/tondo-runtime/src/codec.rs:378-431 | Any list of keys written one under another is read back unchanged. |
| `Paths.StepsRead` | crates/tondo-runtime/src/codec.rs:378-431 | Any steps, keys and indices below 2^64, written as a path are read back unchanged. |
| `Labels.Table.Intern` | crates/tondo-runtime/src/labels.rs:29-51 | The table changes, and the number given is, as specified. |
| `Labels.Table.Get` | crates/tondo-runtime/src/labels.rs:54-61 | A number gives its slot's set when the generation is the same, and otherwise none. |
| `Labels.InternedValid` | crates/tondo-runtime/src/labels.rs:29-51 | Interning keeps the map and the slots in agreement both ways, and the number given names the set. |
| `Labels.NumberLives` | crates/tondo-runtime/src/labels.rs:29-61 | A new set's number names it until 4095 other new sets came, and from then on gives none until the 20-bit generation of its slot comes round. |
| `Labels.KeepsFew` | crates/tondo-runtime/src/labels.rs:29-51 | At most 4095 sets are kept. |

## Left out

- Sockets, files, threads, signals, processes, memory layout and the C interface: hosts are byte sequences with failures chosen freely, and locks are atomic steps.
- Other modules of the runtime: `tasks.rs` gives only that the first claim of a wait wins and that notifying a parked task of the domain makes it active.
- JSON: values one after another in one stream, failures of the stream read, and `field`, which is `next` and `skip` with a comparison of names.
- JSON and CBOR: printing and parsing floats as decimals. Number texts are their tokens, canonical JSON takes the double's text as given, and CBOR floats are their bits.
- JSON: which characters a path shows without quotes; how a key is shown is given.
- CBOR: the text of a time given as a float with tag 1, whose rounding is that of the processor, is given; so is the float that digits which are no integer are parsed as.
- CBOR: recursion as deep as tags are nested is not bounded by the runtime, and the model has no stack to exhaust.
- CborRoundTrip.RoundTrip: all NaNs are one number in the model, as the writer makes them one.
- CborRoundTrip.RoundTrip: lengths are taken to fit 64 bits, as they do in memory.
- Cycles and Releases: finalizers, and collections that other threads run meanwhile; a collection runs with the program stopped.
- Streams: locking files, pipes whose other end is gone, the console, and what a host that compresses writes as its trailer.
- Contexts: the labels and origins kept beside settings, and the table of initial values being made on first use.
- Clock: ending the domain, and what the deadlock report prints.
- gRPC: channels, balancing, deadlines and headers; decompression is given as a function.
- Codec: hexadecimal, HTML, URL and CSV forms, digests and random numbers, which are not needed here.
- HTTP, compression, cryptography, images and the debugger.
