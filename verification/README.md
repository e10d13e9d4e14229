# UEFIpp: a verified model of its text, I/O, container and symbol code

This project models the algorithmic core of UEFIpp in Dafny and proves what its parts promise each
other. Each module follows one source component and keeps its form: objects whose methods change
fields are classes, buffers are arrays, loops are loops. Next to each program stands the simple
function or relation it is proved against, and the laws of that function. The modules named last in each
group state what comes out without the functions the programs are proved against.

* **Text.** `Unicode` holds the batch meaning of UTF-8 and UTF-16 (RFC 3629, RFC 2781). `Utf` is the
  incremental decoder, the encoders and converters; `Terminal` the keyboard's surrogate machine;
  `StringStorage` and `LineEditor` the byte-level line editor, which simulates an editor over code
  points; `Console`, `Sinks` and `ConsoleStack` the output stack `BufferedSink<NewlineSink<ConsoleSink>>`.
  `LineSessions` says what whole key sequences submit, `LineEnds` what newline translation does to lines.
* **Input.** `Sources` is the buffered source as a refinement of a plain byte stream, `TextReading`
  code points, tokens and lines, `Extraction` transactional scanning, `TextLines` what reading gives of
  joined lines and separated words.
* **Formatting.** `Digits`, `Integers` and `GuidText` are numbers and GUIDs to text and back,
  `FormatSpecs` and `Template` format specifications, the compile-time checker and the walkers. `NumberLayout`,
  `NumberTexts`, `GuidLayout`, `SpecTexts` and `Printing` describe the texts themselves, character by character
  or as grammars.
* **Data.** `Vector` tracks the lifetime of every slot and sorts in place, `Sorting` says what sorting
  computes and is the shared binary search, `SymbolTables` and `SymbolDatabase` the symbol indices, `Msf` the
  block container, `SymbolMatcher` greedy symbol recovery, `Path` path normalisation. `VectorLaws` tells the
  vector's operations by element, `MsfImages` writes container files for `Msf` to read, and `MatchingPasses`
  tells exports and passes by scores and thresholds.

`dafny verify dfyconfig.toml` checks everything.

## Where the code falls short of what one would expect

These are properties of the code that turned out to need a condition. Each is proved as an
if-and-only-if or has a lemma with a concrete input.

* Erasing an empty range inside a `Vector` constructs over live objects and destroys them, and one
  whose end wraps around 64 bits destroys past the end (`Vector.Vector.EraseRange`, `Vector.Run`).
* Inserting or appending an element of the vector itself takes a wrong or destroyed one unless there is
  room and it stands in front of the index (`Vector.Vector.InsertOwn`, `Vector.Vector.PushBackOwn`).
* A failed extraction from a source that does not break off restores the reader if and only if the
  source was wrapped at offset 0 or has been repositioned through the buffer (`Extraction.Extract`).
* The line editor's newline tests the size limit for equality (`LineEditor.GrowthRespectsLimit`).
* `FunctionContainingRva` gives up behind a far function and so can lose functions of 0x100002 bytes
  and more (`SymbolTables.OnlyBigFunctionsHidden`, `SymbolTables.FunctionIsLost`).
* Types added after `Finalize` leave the table out of order.  While all lower indices still stand in
  front, `TypeByIndex` gives the first type under an index if and only if no higher index stands in front
  of that type (`SymbolTables.FoundIsFirst`); otherwise it can go either way
  (`SymbolTables.FoundBehindHigher`, `SymbolTables.LostThoughHighest`).
* Octal text is read as decimal when the base is detected, so it parses back if and only if the
  magnitude is below 8 (`Integers.DetectedUnlessOctal`; `Integers.OctalIsNotDetected` shows 8).
  `Integers.ParsingUndoesFormatting` has the condition for every base and sign, and for padding with
  zeros behind the prefix or with characters that are no part of a number; `Integers.ZeroFillReads` has it
  for a fill of zeros in front.
* GUID text written with `#` never parses back (`GuidText.GuidRoundTrip`); an unsigned parser refuses
  `-0` (`Integers.MinusZeroIsRefused`).
* A width or precision of 18446744073709551610 or more is an overflow although up to
  18446744073709551615 would fit (`FormatSpecs.ReadNumber`).
* Normalising a relative path cancels pairs of leading `..`, and a path that starts with `/` is taken
  for a relative one (`Path.NormalisingKeepsThePlace`, `Path.NormalisingLosesLevels`).
* `BasicString::Erase` copies through a null pointer, even with nothing to erase, if and only if the
  string was never allocated and the position is 0 (`StringStorage.BasicString.Erase`,
  `StringStorage.EraseFromNew`).

## Model

| member | source | states |
|---|---|---|
| `Unicode.AcceptsExactlyTheGrammar` | UEFIpp/Include/UEFIpp/IO/Text/Utf.hpp:29-97 | A byte string decodes without a malformed piece if and only if it is a UTF8-octets string of section 4 of RFC 3629 |
| `Unicode.AssembleIffGrammar` | UEFIpp/Include/UEFIpp/IO/Text/Utf.hpp:83-96 | A lead byte with the continuation bytes it announces stands for a code point exactly when it is a UTF8-char of the grammar: overlong forms, surrogates and values past U+10FFFF are refused |
| `Unicode.AssembleIsEncoding` | UEFIpp/Include/UEFIpp/IO/Text/Utf.hpp:83-96 | Bytes that stand for a code point are that code point's one encoding |
| `Unicode.Utf8OfAssembles` | UEFIpp/Include/UEFIpp/IO/Text/Utf.hpp:126-154 | The encoding of every code point is gathered and assembled back to it |
| `Unicode.Utf8OfDigits` | UEFIpp/Include/UEFIpp/IO/Text/Utf.hpp:126-154 | Which bits of a code point each of its one to four bytes carries |
| `Unicode.Utf16OfHalves` | UEFIpp/Include/UEFIpp/IO/Text/Utf.hpp:156-171 | A surrogate pair carries the upper and then the lower ten bits of what is above U+FFFF, and is read as such |
| `Unicode.KnownEncodings` | UEFIpp/Include/UEFIpp/IO/Text/Utf.hpp:126-171 | Examples of section 7 of RFC 3629 and section 5 of RFC 2781 |
| `Unicode.DecodeEncodeUtf8` | UEFIpp/Include/UEFIpp/IO/Text/Utf.hpp:126-154 | Decoding undoes UTF-8 encoding for every sequence of code points |
| `Unicode.EncodeDecodeUtf8` | UEFIpp/Include/UEFIpp/IO/Text/Utf.hpp:29-97 | Encoding undoes UTF-8 decoding on every string the Reject policy accepts |
| `Unicode.DecodeEncodeUtf16` | UEFIpp/Include/UEFIpp/IO/Text/Utf.hpp:156-171 | Decoding undoes UTF-16 encoding (RFC 2781 sections 2.1 and 2.2) for every sequence of code points |
| `Unicode.EncodeDecodeUtf16` | UEFIpp/Include/UEFIpp/IO/Text/Utf.hpp:194-218 | Encoding undoes UTF-16 decoding on every unit string without a lone surrogate |
| `Unicode.ConversionsAreInverse` | UEFIpp/Include/UEFIpp/IO/Text/Utf.hpp:185-278 | On well-formed text the two conversions are mutual inverses, and each yields well-formed text of the other form |
| `Unicode.Utf16NoLonger` | UEFIpp/Include/UEFIpp/IO/Text/Utf.hpp:237-241 | Under Replace the UTF-16 form never has more units than the input has bytes, so the initial reservation suffices |
| `Utf.FeedAtBoundary` | UEFIpp/Include/UEFIpp/IO/Text/Utf.hpp:33-66 | One byte at a character boundary is a character, a malformed piece, or the start of an incomplete character, whatever follows |
| `Utf.FeedInterrupts` | UEFIpp/Include/UEFIpp/IO/Text/Utf.hpp:68-77 | A byte that is no continuation byte makes the incomplete character one malformed piece and is looked at again |
| `Utf.FeedContinues` | UEFIpp/Include/UEFIpp/IO/Text/Utf.hpp:79-96 | A continuation byte extends an incomplete character or completes it with the value the batch decoding gives |
| `Utf.PayloadBound` | UEFIpp/Include/UEFIpp/IO/Text/Utf.hpp:79-80 | The 32-bit accumulator never wraps |
| `Utf.Utf8Decoder.Feed` | UEFIpp/Include/UEFIpp/IO/Text/Utf.hpp:29-97 | One byte at a time reports exactly what the batch decoding says, for every continuation of the input; under Reject it fails exactly on a malformed piece |
| `Utf.Utf8Decoder.Finish` | UEFIpp/Include/UEFIpp/IO/Text/Utf.hpp:99-111 | An incomplete character at the end of input is one malformed piece; nothing is pending afterwards |
| `Utf.Utf8Decoder.Complete` | UEFIpp/Include/UEFIpp/IO/Text/Utf.hpp:19-21 | Nothing is pending exactly when no continuation byte is awaited |
| `Utf.Utf8Decoder.Reset` | UEFIpp/Include/UEFIpp/IO/Text/Utf.hpp:23-27 | A reset decoder stands at a character boundary |
| `Utf.EncodeUtf8Into` | UEFIpp/Include/UEFIpp/IO/Text/Utf.hpp:126-154 | Fills the array with the UTF-8 form of a code point; fails exactly on values that are none |
| `Utf.EncodeUtf16Into` | UEFIpp/Include/UEFIpp/IO/Text/Utf.hpp:156-171 | Fills the array with the UTF-16 form of a code point; fails exactly on values that are none |
| `Utf.Utf16ToUtf8` | UEFIpp/Include/UEFIpp/IO/Text/Utf.hpp:185-231 | The result is the UTF-8 encoding of the decoded text; under Reject it fails exactly on lone surrogates |
| `Utf.Utf8ToUtf16` | UEFIpp/Include/UEFIpp/IO/Text/Utf.hpp:233-278 | The result is the UTF-16 encoding of the decoded text; under Reject it fails exactly on malformed input |
| `Utf.Utf8ToUtf16Meaning` | UEFIpp/Include/UEFIpp/IO/Text/Utf.hpp:233-278 | Under Replace conversion always yields well-formed UTF-16 no longer than its input; under Reject it succeeds exactly on the strings of RFC 3629 |
| `Utf.ConvertByte` | UEFIpp/Include/UEFIpp/IO/Text/Utf.hpp:255-269 | The inner loop over one byte appends what that byte settles and consumes the byte |
| `Terminal.NextUnit` | UEFIpp/Source/IO/Terminal/Terminal.cpp:230-260 | One more unit settles the pending high surrogate or becomes it, in step with the batch UTF-16 decoding for every continuation |
| `Terminal.Terminal.Convert` | UEFIpp/Source/IO/Terminal/Terminal.cpp:230-260 | One key stroke yields an event whose character is a valid code point, and queues a second one only when it exposes a lone high surrogate |
| `Terminal.Terminal.PollKey` | UEFIpp/Source/IO/Terminal/Terminal.cpp:53-77 | The queued event, of which there is at most one, is delivered before another key is read; every event carries a valid code point |
| `Terminal.PollAll` | UEFIpp/Source/IO/Terminal/Terminal.cpp:53-77 | Polling a keyboard dry gives the characters of the batch Replace decoding of all its units, up to one pending trailing high surrogate |
| `Terminal.SettledAtEnd` | UEFIpp/Source/IO/Terminal/Terminal.cpp:230-260 | The pending high surrogate is all that separates the characters delivered from the batch decoding |
| `Terminal.ScanCodes` | UEFIpp/Source/IO/Terminal/Terminal.cpp:9-37 | Which key each scan code names, 0 to 20 and 23, one after the other; all others are unknown |
| `Console.UpToNulOf` | UEFIpp/Source/IO/Transport/Console.cpp:152-163 | A NUL-terminated buffer shows exactly the units in front of its terminator |
| `Console.WideTextAppend` | UEFIpp/Source/IO/Transport/Console.cpp:131-150 | Appending a whole code point to units without a split pair leaves no split pair |
| `Console.ConsoleSink.FlushWide` | UEFIpp/Source/IO/Transport/Console.cpp:152-163 | The held units become one string shown; nothing is held afterwards |
| `Console.ConsoleSink.Append` | UEFIpp/Source/IO/Transport/Console.cpp:131-150 | A code point is held whole: no string shown ever exceeds 128 units, and as long as there is no NUL its units never straddle two strings |
| `Console.ConsoleSink.AcceptByte` | UEFIpp/Source/IO/Transport/Console.cpp:9-36 | One byte is fed until the decoder consumes it, and everything it settles is appended |
| `Console.ConsoleSink.WriteSome` | UEFIpp/Source/IO/Transport/Console.cpp:4-40 | All bytes are accepted; what has been shown and is held is the UTF-16 of the replace-decoding so far |
| `Console.ConsoleSink.Flush` | UEFIpp/Source/IO/Transport/Console.cpp:42-54 | An incomplete character is settled as U+FFFD and everything held is shown |
| `Sinks.SentAppend` | UEFIpp/Include/UEFIpp/IO/Adapter/Newline.hpp:17-71 | Under every policy the translation of an input grows with it byte by byte |
| `Sinks.LfUndoesCrLf` | UEFIpp/Include/UEFIpp/IO/Adapter/Newline.hpp:35-57 | A text and its CR LF translation have the same LF translation |
| `Sinks.SentLfHasNoCr` | UEFIpp/Include/UEFIpp/IO/Adapter/Newline.hpp:35-57 | The LF policy sends no carriage return |
| `LineEnds.CrLfOfLines` | UEFIpp/Include/UEFIpp/IO/Adapter/Newline.hpp:17-71 | Told by lines: under CR LF every lone LF becomes CR LF, and CR, CR LF and all other bytes stay as they are |
| `LineEnds.LfOfLines` | UEFIpp/Include/UEFIpp/IO/Adapter/Newline.hpp:35-57 | Told by lines: under LF every CR, LF and CR LF becomes one LF, and all other bytes stay as they are |
| `LineEnds.EveryTextIsLines` | UEFIpp/Include/UEFIpp/IO/Adapter/Newline.hpp:17-71 | Every byte string consists of such lines and an unterminated rest, so the two results are about all texts |
| `Sinks.NewlineSink.PassLf` | UEFIpp/Include/UEFIpp/IO/Adapter/Newline.hpp:35-57 | A carriage return is held back and becomes one line feed together with a line feed behind it |
| `Sinks.NewlineSink.WriteByte` | UEFIpp/Include/UEFIpp/IO/Adapter/Newline.hpp:19-66 | One byte is translated under the policy of the sink, which remembers only whether it was a carriage return |
| `Sinks.NewlineSink.WriteSome` | UEFIpp/Include/UEFIpp/IO/Adapter/Newline.hpp:17-71 | However the input is split into writes, the console receives the translation of all of it, under each of the three policies |
| `Sinks.NewlineSink.Flush` | UEFIpp/Include/UEFIpp/IO/Adapter/Newline.hpp:73-85 | A carriage return still held back is sent as a line feed, which completes the translation; then the console is flushed |
| `Sinks.Sink.WriteSome` | UEFIpp/Include/UEFIpp/IO/Adapter/Utility.hpp:39-50 | The transfer contract: a prefix is accepted, or nothing and an error |
| `Sinks.BufferedSink.FlushBuffer` | UEFIpp/Include/UEFIpp/IO/Adapter/Buffered.hpp:91-124 | Under short and failing transfers nothing is lost or reordered; success empties the buffer |
| `Sinks.BufferedSink.Hold` | UEFIpp/Include/UEFIpp/IO/Adapter/Buffered.hpp:60-70 | Bytes are buffered behind those already held |
| `Sinks.BufferedSink.Compact` | UEFIpp/Include/UEFIpp/IO/Adapter/Buffered.hpp:98-117 | After a broken-off flush exactly the bytes the sink has not taken remain, in order |
| `Sinks.BufferedSink.WriteSome` | UEFIpp/Include/UEFIpp/IO/Adapter/Buffered.hpp:44-72 | Received bytes followed by buffered bytes always equal all bytes accepted; a failure accepts nothing |
| `Sinks.BufferedSink.Flush` | UEFIpp/Include/UEFIpp/IO/Adapter/Buffered.hpp:74-80 | A successful flush leaves the buffer empty, everything accepted received, and the sink flushed |
| `Sinks.WriteAll` | UEFIpp/Include/UEFIpp/IO/Core/Operations.hpp:6-29 | Accepts all bytes, or stops at an error with a prefix accepted |
| `ConsoleStack.ToCrLfFollows` | UEFIpp/Include/UEFIpp/IO/Adapter/Newline.hpp:17-71 | In translated text every line feed follows a carriage return |
| `ConsoleStack.UnitsFollow` | UEFIpp/Source/IO/Transport/Console.cpp:9-36 | Decoding and re-encoding keeps every line feed behind a carriage return, malformed input included |
| `ConsoleStack.UnitsNulFree` | UEFIpp/Source/IO/Transport/Console.cpp:9-36 | Text without NUL bytes shows no NUL unit |
| `ConsoleStack.Transcript` | UEFIpp/Source/IO/Transport/Console.cpp:4-54 | For NUL-free bytes split into writes in any way and flushed once, the strings shown concatenate to the UTF-16 of the replace-decoding of the CR LF translation; every LF follows a CR, no string exceeds 128 units, no surrogate pair is split |
| `StringStorage.BasicString.Resize` | UEFIpp/Include/UEFIpp/Library/String/BasicString.hpp:259-278 | Cuts the text or extends it by the given unit, and stays NUL-terminated |
| `StringStorage.BasicString.Clear` | UEFIpp/Include/UEFIpp/Library/String/BasicString.hpp:280-289 | The text becomes empty, allocated or not |
| `StringStorage.BasicString.Assign` | UEFIpp/Include/UEFIpp/Library/String/BasicString.hpp:291-307 | The text becomes the view |
| `StringStorage.BasicString.Append` | UEFIpp/Include/UEFIpp/Library/String/BasicString.hpp:309-333 | The view goes behind the text |
| `StringStorage.BasicString.PushBack` | UEFIpp/Include/UEFIpp/Library/String/BasicString.hpp:335-354 | The unit goes behind the text |
| `StringStorage.BasicString.PopBack` | UEFIpp/Include/UEFIpp/Library/String/BasicString.hpp:413-423 | The last unit goes, if there is one |
| `StringStorage.BasicString.OpenGap` | UEFIpp/Include/UEFIpp/Library/String/BasicString.hpp:373-376 | The backward shifting loop moves the tail and its terminator without overwriting what it still needs |
| `StringStorage.BasicString.Insert` | UEFIpp/Include/UEFIpp/Library/String/BasicString.hpp:356-385 | Puts the view at the position, in the middle included; refuses positions past the end and then changes nothing |
| `StringStorage.BasicString.CloseGap` | UEFIpp/Include/UEFIpp/Library/String/BasicString.hpp:403-406 | The forward shifting loop moves the tail and its terminator down; it leaves the storage exactly when there is none |
| `StringStorage.BasicString.Erase` | UEFIpp/Include/UEFIpp/Library/String/BasicString.hpp:392-411 | Takes out the range, clipped to the text; refuses positions past the end and then changes nothing; reads through the null storage pointer if and only if nothing was ever allocated and the position is 0 |
| `StringStorage.EraseFromNew` | UEFIpp/Include/UEFIpp/Library/String/BasicString.hpp:392-411 | Erasing at the front of a new string reads through the null storage pointer, whatever the count |
| `LineEditor.OffsetIsBoundary` | UEFIpp/Source/IO/Terminal/LineEditor.cpp:141-164 | The byte offset of a code point is a boundary, with nothing but continuation bytes up to the next one |
| `LineEditor.PreviousBoundary` | UEFIpp/Source/IO/Terminal/LineEditor.cpp:141-152 | Stops at the first byte before the position that is no continuation byte, or at 0 |
| `LineEditor.NextBoundary` | UEFIpp/Source/IO/Terminal/LineEditor.cpp:154-164 | Stops at the first byte behind the position that is no continuation byte, or at the end |
| `LineEditor.PreviousOffset` | UEFIpp/Source/IO/Terminal/LineEditor.cpp:141-152 | From a code point's offset, moving left reaches exactly the code point before it |
| `LineEditor.NextOffset` | UEFIpp/Source/IO/Terminal/LineEditor.cpp:154-164 | From a code point's offset, moving right reaches exactly the code point behind it |
| `LineEditor.InsertedEncodes` | UEFIpp/Source/IO/Terminal/LineEditor.cpp:112-129 | Inserting the bytes of a code point at an offset is inserting the code point |
| `LineEditor.ErasedEncodes` | UEFIpp/Source/IO/Terminal/LineEditor.cpp:41-46 | Erasing the bytes between two neighbouring offsets is erasing the code point |
| `LineEditor.EraseForward` | UEFIpp/Source/IO/Terminal/LineEditor.cpp:41-46 | Delete removes exactly one code point, or nothing at the end |
| `LineEditor.EraseBackward` | UEFIpp/Source/IO/Terminal/LineEditor.cpp:95-101 | Backspace removes exactly one code point, or nothing at the start |
| `LineEditor.InsertCodePoint` | UEFIpp/Source/IO/Terminal/LineEditor.cpp:112-129 | A typed code point is inserted whole in front of the cursor |
| `LineEditor.LineEditor.HandleCharacter` | UEFIpp/Source/IO/Terminal/LineEditor.cpp:68-131 | Each character key acts on the byte line as the editor over code points says, error exits included |
| `LineEditor.LineEditor.HandleKey` | UEFIpp/Source/IO/Terminal/LineEditor.cpp:22-134 | Each key keeps the byte line the encoding of the editor's text with the cursor on a code-point boundary |
| `LineEditor.LineEditor.ReadLine` | UEFIpp/Source/IO/Terminal/LineEditor.cpp:4-139 | For every key sequence a session has the outcome of the editor over code points, which `LineSessions` describes; what is submitted is well-formed UTF-8, announced, and remembered when asked for |
| `LineEditor.GrowthRespectsLimit` | UEFIpp/Source/IO/Terminal/LineEditor.cpp:70-78 | The line grows past the byte limit in exactly one case: a newline typed into a line that is already over it, since the source tests the size for equality |
| `LineEditor.OverlongLineTakesNewline` | UEFIpp/Source/IO/Terminal/LineEditor.cpp:70-78 | A concrete line over the limit that still takes a newline |
| `LineEditor.SessionWithinLimit` | UEFIpp/Source/IO/Terminal/LineEditor.cpp:4-139 | With a history within the limit no session submits a line over it |
| `LineEditor.RecallSubmits` | UEFIpp/Source/IO/Terminal/LineEditor.cpp:47-67 | Pressing Up often enough and Enter submits any chosen history line |
| `LineEditor.LimitHoldsIffHistoryRespectsIt` | UEFIpp/Source/IO/Terminal/LineEditor.cpp:4-139 | Every submitted line respects the byte limit if and only if every line already in the history does |
| `LineSessions.TypingFitsOrFails` | UEFIpp/Source/IO/Terminal/LineEditor.cpp:112-138 | Typing a text and Enter submits that text if its UTF-8 form fits the limit, and overflows if not |
| `LineSessions.HomePutsInFront` | UEFIpp/Source/IO/Terminal/LineEditor.cpp:35-40 | Typing t, Home, typing s and Enter submits s and then t |
| `LineSessions.EndPutsBehind` | UEFIpp/Source/IO/Terminal/LineEditor.cpp:35-40 | Typing t, Home, End, typing s and Enter submits t and then s |
| `LineSessions.MovingPutsBetween` | UEFIpp/Source/IO/Terminal/LineEditor.cpp:29-34 | After any number of Left and then of Right, what is typed stands that many code points from the end, the ends of the line being as far as it goes |
| `LineSessions.DeletingTakesAway` | UEFIpp/Source/IO/Terminal/LineEditor.cpp:41-46 | After any number of Left, Backspaces take away the code points in front of the cursor and Deletes those behind it, so Left and Delete is Backspace |
| `LineSessions.RecallingWalks` | UEFIpp/Source/IO/Terminal/LineEditor.cpp:47-67 | Up goes back in the history and stops at its first line, Down comes forward to the empty line behind the last |
| `LineSessions.RecalledIsEdited` | UEFIpp/Source/IO/Terminal/LineEditor.cpp:47-67 | What is typed into a recalled line stands behind it |
| `LineSessions.ShiftEnterBreaksTheLine` | UEFIpp/Source/IO/Terminal/LineEditor.cpp:70-94 | Shift and Enter put a newline into the line where that is allowed, and submit it where it is not |
| `LineSessions.TabCompletes` | UEFIpp/Source/IO/Terminal/LineEditor.cpp:102-111 | Tab replaces the line by its completion, and what is typed next stands behind it |
| `LineSessions.OnlyEnterSubmits` | UEFIpp/Source/IO/Terminal/LineEditor.cpp:4-26 | Escape cancels whatever comes next, and without Enter nothing is submitted |
| `Sources.Source.ReadSome` | UEFIpp/Include/UEFIpp/IO/Adapter/Utility.hpp:99-109 | The in-memory source transfers as much as fits and reports the end exactly when it is reached; any other source transfers some prefix or fails |
| `Sources.Source.Seek` | UEFIpp/Include/UEFIpp/IO/Adapter/Utility.hpp:111-119 | The in-memory source moves to positions up to the end and refuses others; any other source may fail too, and a failure moves nothing |
| `Sources.ReadExact` | UEFIpp/Include/UEFIpp/IO/Core/Operations.hpp:31-59 | Fills the destination with the next bytes or says why not; from memory it fails only for want of bytes |
| `Sources.ReadAll` | UEFIpp/Include/UEFIpp/IO/Text/Reader.hpp:183-211 | Success returns exactly the remaining bytes; from memory it succeeds exactly when they fit the maximum |
| `Sources.BufferedSource.Fill` | UEFIpp/Include/UEFIpp/IO/Adapter/Buffered.hpp:274-293 | Refilling an emptied buffer changes nothing observable |
| `Sources.BufferedSource.ReadSome` | UEFIpp/Include/UEFIpp/IO/Adapter/Buffered.hpp:170-193 | Takes a non-empty prefix of the remaining bytes unless nothing is left or asked for; the end is reported only at the end |
| `Sources.BufferedSource.Compact` | UEFIpp/Include/UEFIpp/IO/Adapter/Buffered.hpp:198-206 | Moving the unread bytes to the front changes nothing observable |
| `Sources.BufferedSource.Extend` | UEFIpp/Include/UEFIpp/IO/Adapter/Buffered.hpp:214-225 | Reading behind the buffered bytes changes nothing observable |
| `Sources.BufferedSource.Peek` | UEFIpp/Include/UEFIpp/IO/Adapter/Buffered.hpp:195-228 | Any lookahead leaves remaining bytes and position alone and answers as a plain stream with a window of the capacity: the byte, the end, or unsupported |
| `Sources.BufferedSource.Consume` | UEFIpp/Include/UEFIpp/IO/Adapter/Buffered.hpp:230-240 | Skips exactly the count, or all there is before reporting why |
| `Sources.BufferedSource.Seek` | UEFIpp/Include/UEFIpp/IO/Adapter/Buffered.hpp:258-271 | Repositions source and buffer together, after which the reported position is the true one; a failure of the source leaves bytes and position as they were |
| `TextReading.DecodeInFrontOf` | UEFIpp/Include/UEFIpp/IO/Text/Reader.hpp:29-52 | Bytes in front of anything but a continuation byte decode on their own |
| `TextReading.TextReader.ReadCodePoint` | UEFIpp/Include/UEFIpp/IO/Text/Reader.hpp:29-52 | Takes exactly the first item of the batch decoding off the remaining bytes, and fails exactly at the end, on a malformed piece under Reject, or on an interrupted transfer; after a rejected piece reading stands at the byte the decoder stumbled over |
| `TextReading.StumblesAt` | UEFIpp/Include/UEFIpp/IO/Text/Reader.hpp:43-47 | The byte the decoder refuses is the first one if it starts nothing, otherwise the one that does not continue the character or completes none |
| `TextReading.TextReader.AppendCodePoint` | UEFIpp/Include/UEFIpp/IO/Text/Reader.hpp:87-106 | One turn of the reading loops reads the next item of the piece in front, with the size limit checked before and after |
| `TextReading.TextReader.ReadToken` | UEFIpp/Include/UEFIpp/IO/Text/Reader.hpp:110-151 | White space is skipped and the word behind it returned; the bytes left start right behind it, and each failure is the first fault of that word |
| `TextReading.TextReader.ReadLine` | UEFIpp/Include/UEFIpp/IO/Text/Reader.hpp:54-108 | Reads up to CR, LF or CR LF and over it; an unterminated last line counts, an empty one does not; a source that breaks off between CR and LF leaves just the LF behind |
| `TextReading.TextReader.Save` | UEFIpp/Include/UEFIpp/IO/Text/Reader.hpp:153-157 | A checkpoint lies within the data, and names the reader's place if and only if the reported position is the true one |
| `TextReading.TextReader.Restore` | UEFIpp/Include/UEFIpp/IO/Text/Reader.hpp:159-165 | Going back to a checkpoint puts the reader at that absolute position of the source; if the source cannot go there nothing changes |
| `TextReading.PieceIsLossless` | UEFIpp/Include/UEFIpp/IO/Text/Reader.hpp:110-151 | Under Reject the text of a piece and the bytes left make up the input |
| `TextReading.TokensAreLossless` | UEFIpp/Include/UEFIpp/IO/Text/Reader.hpp:110-151 | White space, token and rest make up the input; the token is a non-empty word and the rest starts with white space |
| `TextReading.LinesAreLossless` | UEFIpp/Include/UEFIpp/IO/Text/Reader.hpp:54-108 | A line kept with its terminator and the rest make up the input, so reading lines loses nothing and always advances |
| `TextLines.ReadJoined` | UEFIpp/Include/UEFIpp/IO/Text/Reader.hpp:54-108 | Texts joined by CR, LF or CR LF in any mixture come back exactly, line by line, then the unterminated rest, then the end of the file |
| `TextLines.LineInFront` | UEFIpp/Include/UEFIpp/IO/Text/Reader.hpp:54-108 | A line in front of its end is read whole, with or without the end, and the end is gone as one |
| `TextLines.CrLfStaysTogether` | UEFIpp/Include/UEFIpp/IO/Text/Reader.hpp:74-83 | After a kept line that ends in CR no LF stands in front |
| `TextLines.WordInFront` | UEFIpp/Include/UEFIpp/IO/Text/Reader.hpp:110-151 | The six white-space bytes are skipped and the word behind them comes back whole |
| `TextLines.NoWordLeft` | UEFIpp/Include/UEFIpp/IO/Text/Reader.hpp:110-120 | White space alone is the end of the file |
| `TextLines.TooLong` | UEFIpp/Include/UEFIpp/IO/Text/Reader.hpp:87-106 | A valid text past the limit overflows, and so does a text that fills the limit with anything behind it, malformed bytes included |
| `Extraction.ScanSplits` | UEFIpp/Include/UEFIpp/IO/Text/Scan.hpp:312-327 | Extracting values in one go or in two gives the same values and leaves the same bytes |
| `TextLines.ValuesInFront` | UEFIpp/Include/UEFIpp/IO/Text/Scan.hpp:312-327 | As many words as there are parsers are read from separated words, each by its parser, up to the first error, and the rest is left |
| `TextLines.WordLimit` | UEFIpp/Include/UEFIpp/IO/Text/Scan.hpp:302-308 | A word of more than 65536 bytes overflows, and every other is read |
| `Extraction.CommittedAt` | UEFIpp/Include/UEFIpp/IO/Text/Operators.hpp:233-242 | Distinct destinations each get their own value and nothing else changes |
| `Extraction.Scan` | UEFIpp/Include/UEFIpp/IO/Text/Scan.hpp:302-308 | One value takes exactly one token |
| `Extraction.ScanInto` | UEFIpp/Include/UEFIpp/IO/Text/Scan.hpp:312-327 | Values take the successive tokens in order; the first failure ends it |
| `Extraction.Extract` | UEFIpp/Include/UEFIpp/IO/Text/Operators.hpp:170-195 | Success takes exactly the tokens of the values; a failed extraction that goes back is where it started if and only if the reported position was the true one; only a source that breaks off can keep it from going back, and that is the error then |
| `Extraction.CommitInto` | UEFIpp/Include/UEFIpp/IO/Text/Operators.hpp:233-242 | Destinations are written in order |
| `Extraction.ExtractInto` | UEFIpp/Include/UEFIpp/IO/Text/Operators.hpp:245-265 | All destinations are written or none; a failure leaves every destination as before, whether or not the reader could go back |
| `Extraction.ExtractFromMemory` | UEFIpp/Include/UEFIpp/IO/Text/Scan.hpp:329-356 | For text in memory wrapped at an offset: success exactly when every token parses, and a failed extraction leaves the remaining bytes as before if and only if the offset is 0 |
| `Digits.ValueOfNumeral` | UEFIpp/Include/UEFIpp/IO/Text/Format.hpp:246-286 | Reading a numeral in its base gives the number back |
| `Digits.NumeralLength` | UEFIpp/Include/UEFIpp/IO/Text/Format.hpp:279-286 | A number below base^n has at most n digits |
| `Integers.CollectDigits` | UEFIpp/Include/UEFIpp/IO/Text/Format.hpp:279-286 | The digit loop fills the 65-unit array from the back of the numeral and never runs out of room |
| `Integers.FormatUnsigned` | UEFIpp/Include/UEFIpp/IO/Text/Format.hpp:255-352 | Writes, for every 64-bit value and every specification, the text that `NumberLayout` describes |
| `NumberLayout.FormattedIsLaidOut` | UEFIpp/Include/UEFIpp/IO/Text/Format.hpp:246-352 | The formatter writes the one text laid out as asked: sign, base prefix, digits in capitals exactly for X, B or an uppercase spec, worth the number and without a zero that could be left out, padded on the right side to the width |
| `NumberLayout.PaddingIsAround` | UEFIpp/Include/UEFIpp/IO/Text/Format.hpp:310-350 | Without zero padding the text is the unpadded one behind the fill for right and default alignment, in front of it for left, and between halves of it, the smaller in front, for centred |
| `NumberLayout.DefaultIsRight` | UEFIpp/Include/UEFIpp/IO/Text/Format.hpp:311-312 | Default alignment prints the same text as right alignment |
| `NumberLayout.WidthIsKept` | UEFIpp/Include/UEFIpp/IO/Text/Format.hpp:308-309 | The text is as wide as asked, or as the unpadded text if that is wider |
| `NumberLayout.FortyTwoInFive` | UEFIpp/Include/UEFIpp/IO/Text/Format.hpp:310-350 | Three concrete texts: 42 in five places with blanks and with zeros, and -42 in hexadecimal with prefix and zeros |
| `Integers.FormatInteger` | UEFIpp/Include/UEFIpp/IO/Text/Format.hpp:616-630 | The magnitude of the most negative value included; refused presentations are an error |
| `Integers.OverflowTest` | UEFIpp/Include/UEFIpp/IO/Text/Scan.hpp:91-95 | The overflow test of the digit loop is exact |
| `Integers.ScanDigits` | UEFIpp/Include/UEFIpp/IO/Text/Scan.hpp:69-100 | A run of digits with single separators between them gives its value when that fits 64 bits, and an overflow otherwise |
| `Integers.ParseInteger` | UEFIpp/Include/UEFIpp/IO/Text/Scan.hpp:32-123 | For every text and option, parsing succeeds exactly when the text denotes a number the type holds, and returns it; a well-formed number that does not fit is an overflow |
| `NumberTexts.NumbersAreWords` | UEFIpp/Include/UEFIpp/IO/Text/Scan.hpp:32-123 | The numbers the parser sees are those of a grammar: an allowed sign, the prefix of the base asked for or of any base if none is, digits of either case in groups with single underscores where those are allowed, and a tail that goes on with neither |
| `Integers.ParsingUndoesFormatting` | UEFIpp/Include/UEFIpp/IO/Text/Format.hpp:255-352 | For every fixed-width value, every option and every specification whose fill, if any shows, is no part of a number, formatted text parses back if and only if the reader takes the sign, takes the base or gets the number all the same, and meets no fill character where it matters |
| `Integers.ZeroFillReads` | UEFIpp/Include/UEFIpp/IO/Text/Format.hpp:324-350 | With a fill of zeros in front, text without sign and base letter reads back as if unpadded, and any other only if the value is zero and reading may stop behind the zeros |
| `Integers.ReadInBase` | UEFIpp/Include/UEFIpp/IO/Text/Scan.hpp:69-100 | Digits written in one base and read in another keep their value if and only if the bases agree or the value is a digit of both |
| `Integers.LowerBase` | UEFIpp/Include/UEFIpp/IO/Text/Scan.hpp:69-100 | Digits read in a lower base never give a greater number, and give the same one only if it is a digit of that base |
| `Integers.DetectedUnlessOctal` | UEFIpp/Include/UEFIpp/IO/Text/Format.hpp:301-302 | When the base is detected, decimal and prefixed binary and hexadecimal text always parses back, and octal text if and only if the magnitude is below 8 |
| `Integers.TrailingFill` | UEFIpp/Include/UEFIpp/IO/Text/Scan.hpp:80-84 | What stands behind a number and is no part of it is an error if the whole token is required, and ignored otherwise |
| `Integers.OctalIsNotDetected` | UEFIpp/Include/UEFIpp/IO/Text/Format.hpp:301-302 | A concrete octal text with its 0 prefix, 010 for 8, that is read as 10 when the base is detected |
| `Integers.MinusZeroIsRefused` | UEFIpp/Include/UEFIpp/IO/Text/Scan.hpp:118-121 | An unsigned parser refuses -0, although 0 fits |
| `GuidText.FormatGuid` | UEFIpp/Include/UEFIpp/IO/Text/Format.hpp:886-922 | The text is the eleven groups with hyphens in front of the second, third, fourth and sixth |
| `GuidText.Hex` | UEFIpp/Include/UEFIpp/IO/Text/Scan.hpp:233-245 | A group reads as its hexadecimal value, or fails exactly on a character that is no such digit |
| `GuidText.ParseGuid` | UEFIpp/Include/UEFIpp/IO/Text/Scan.hpp:226-266 | Accepts exactly 36 characters with four hyphens and hexadecimal groups, and returns their values |
| `GuidText.FillingKeepsValue` | UEFIpp/Include/UEFIpp/IO/Text/Format.hpp:324-350 | Fill characters leave a group's value alone exactly when they are leading zeros, or zeros around a zero |
| `GuidText.GroupReads` | UEFIpp/Include/UEFIpp/IO/Text/Format.hpp:891-897 | A group without sign and prefix has its width, and reads back exactly when its padding is harmless |
| `GuidText.GuidRoundTrip` | UEFIpp/Include/UEFIpp/IO/Text/Format.hpp:886-922 | GUID text (RFC 9562 section 4) parses back if and only if no base prefix and no sign was asked for and explicit alignment did no harm; # never parses back |
| `GuidLayout.ReadsCanonical` | UEFIpp/Include/UEFIpp/IO/Text/Scan.hpp:226-266 | A text parses as a GUID if and only if it is, in capital or small letters, the text whose 36 characters are the hexadecimal digits of its fields and four hyphens in their places |
| `GuidLayout.WritesCanonical` | UEFIpp/Include/UEFIpp/IO/Text/Format.hpp:886-922 | Without prefix, sign or alignment the formatter writes that text, in capitals for an uppercase spec and in small letters otherwise |
| `FormatSpecs.SplitSpells` | UEFIpp/Include/UEFIpp/IO/Text/Format.hpp:531-593 | Splitting a specification into its parts loses nothing |
| `FormatSpecs.SpellSplits` | UEFIpp/Include/UEFIpp/IO/Text/Format.hpp:531-593 | Parts written down are split into the same parts again |
| `FormatSpecs.ValidateSpec` | UEFIpp/Include/UEFIpp/IO/Text/Format.hpp:77-107 | The compile-time check accepts exactly a specification whose rest is empty or one known presentation letter |
| `FormatSpecs.ReadNumber` | UEFIpp/Include/UEFIpp/IO/Text/Format.hpp:566-571 | Width and precision are read exactly up to 18446744073709551609, beyond which they overflow |
| `FormatSpecs.ParseFormatSpec` | UEFIpp/Include/UEFIpp/IO/Text/Format.hpp:531-593 | Every part of the specification reaches its field; overflow is reported before trailing text |
| `FormatSpecs.CheckerAgreesWithRuntime` | UEFIpp/Include/UEFIpp/IO/Text/Format.hpp:77-107 | A corollary of the shared split: whatever the compile-time check takes, the runtime refuses only for an overflow; the runtime also takes a single letter it does not know |
| `FormatSpecs.SpecRoundTrip` | UEFIpp/Include/UEFIpp/IO/Text/Format.hpp:531-593 | Every writable spec can be written down, passes the compile-time check, and is read back unchanged |
| `FormatSpecs.AcceptedIsWritable` | UEFIpp/Include/UEFIpp/IO/Text/Format.hpp:531-593 | Whatever spec an accepted text is read as is writable, so the writable specs are exactly those texts express |
| `SpecTexts.ReadAsWritten` | UEFIpp/Include/UEFIpp/IO/Text/Format.hpp:531-593 | The texts both readers take, and the spec each is read as, are exactly those of a grammar: fill and alignment, sign, #, 0, width, precision and letter, each with the field it stands for |
| `Template.FieldEnd` | UEFIpp/Include/UEFIpp/IO/Text/Format.hpp:44-52 | A field ends at its first closing brace, and must hold no opening one |
| `Template.CheckTemplate` | UEFIpp/Include/UEFIpp/IO/Text/Format.hpp:33-70 | The compile-time check counts the fields and compares them with the arguments |
| `Template.AcceptsExactlySpelledTemplates` | UEFIpp/Include/UEFIpp/IO/Text/Format.hpp:33-70 | Accepted templates are exactly those spelled from literals, doubled braces and well-formed fields, with as many fields as arguments |
| `Template.Walk` | UEFIpp/Include/UEFIpp/IO/Text/Format.hpp:1336-1398 | For every template and every arguments, the walker succeeds with the rendering or fails with its first error; the counted form is the one over an argument list |
| `Template.FormatField` | UEFIpp/Include/UEFIpp/IO/Text/Format.hpp:1374-1393 | What a field's text makes of the next argument, in the order the two walkers check it |
| `Template.SpelledRenders` | UEFIpp/Include/UEFIpp/IO/Text/Format.hpp:1275-1325 | An accepted template is rendered piece by piece, by either walker |
| `Template.AcceptedTemplatesPrint` | UEFIpp/Include/UEFIpp/IO/Text/Format.hpp:1336-1398 | An accepted template prints without template error: braces are undoubled and each argument's text stands once in the place of its field, in order |
| `Template.OnlyOverflowOrArgumentsFail` | UEFIpp/Include/UEFIpp/IO/Text/Format.hpp:1336-1398 | Printing an accepted template fails if and only if a field does, with the error of the first one: its own specification holds an overflowing number, or its own argument fails under that specification |
| `Printing.PrintsExactlyPieces` | UEFIpp/Include/UEFIpp/IO/Text/Format.hpp:1336-1398 | For every template, accepted by the check or not, and every arguments, the walker succeeds exactly when the template consists of characters, doubled braces and fields that the arguments fill one after the other, all of them in the counted form, and prints just these |
| `Printing.FaultsAreNamed` | UEFIpp/Include/UEFIpp/IO/Text/Format.hpp:1336-1398 | Every other template fails as an invalid format, as a number too great, or with the error of an argument |
| `Vector.Vector.Reallocate` | UEFIpp/Include/UEFIpp/Library/Containers/Vector.hpp:738-762 | Every element moves to new storage, one relocation each; the old slots are dead |
| `Vector.Vector.EnsureCapacityForOneMore` | UEFIpp/Include/UEFIpp/Library/Containers/Vector.hpp:727-736 | Room for one more: 8 slots first, then twice as many |
| `Vector.Vector.PushBack` | UEFIpp/Include/UEFIpp/Library/Containers/Vector.hpp:361-372 | The value goes behind the contents, constructed in a dead slot |
| `Vector.Vector.PushBackOwn` | UEFIpp/Include/UEFIpp/Library/Containers/Vector.hpp:361-372 | Appending an element of the vector itself reads a destroyed object if and only if there is no room |
| `Vector.Vector.PopBack` | UEFIpp/Include/UEFIpp/Library/Containers/Vector.hpp:402-413 | The last element goes, if there is one |
| `Vector.Vector.Resize` | UEFIpp/Include/UEFIpp/Library/Containers/Vector.hpp:338-359 | Cuts the contents or extends them with copies |
| `Vector.Vector.Assign` | UEFIpp/Include/UEFIpp/Library/Containers/Vector.hpp:415-431 | The contents become the values |
| `Vector.Vector.Append` | UEFIpp/Include/UEFIpp/Library/Containers/Vector.hpp:433-447 | The values go behind the contents |
| `Vector.Vector.Insert` | UEFIpp/Include/UEFIpp/Library/Containers/Vector.hpp:449-471 | The value goes in at the index; elements are relocated only into dead slots; an index past the end changes nothing |
| `Vector.Vector.InsertOwn` | UEFIpp/Include/UEFIpp/Library/Containers/Vector.hpp:449-471 | Inserting an element of the vector itself reads a destroyed object if and only if there is no room or the element stands at the index; behind the index, the element before it is inserted instead |
| `Vector.Vector.Erase` | UEFIpp/Include/UEFIpp/Library/Containers/Vector.hpp:473-491 | The element at the index goes; an index past the end changes nothing |
| `Vector.Vector.EraseRange` | UEFIpp/Include/UEFIpp/Library/Containers/Vector.hpp:493-518 | The clipped range goes; slots are misused, and the vector broken, exactly when the index is inside and the count is 0 or the end wraps around 64 bits |
| `Vector.Vector.RemoveIf` | UEFIpp/Include/UEFIpp/Library/Containers/Vector.hpp:564-590 | Exactly the elements the predicate spares remain, in order, by assignments between live objects |
| `Vector.Vector.ShrinkToFit` | UEFIpp/Include/UEFIpp/Library/Containers/Vector.hpp:548-562 | Capacity becomes the size |
| `Vector.Vector.Clear` | UEFIpp/Include/UEFIpp/Library/Containers/Vector.hpp:278-282 | All elements are destroyed once |
| `Vector.Perform` | UEFIpp/Include/UEFIpp/Library/Containers/Vector.hpp:305-626 | Each operation means its operation on sequences |
| `Vector.Run` | UEFIpp/Include/UEFIpp/Library/Containers/Vector.hpp:305-626 | Over every run from an empty vector slots are constructed only when dead and destroyed only when live, and the contents follow the sequence operations, if and only if the run never erases an empty range, or one whose end wraps around, from the inside |
| `VectorLaws.MeaningByElement` | UEFIpp/Include/UEFIpp/Library/Containers/Vector.hpp:305-626 | What an operation means is the one sequence with the right elements in the right places |
| `VectorLaws.RemovalByElement` | UEFIpp/Include/UEFIpp/Library/Containers/Vector.hpp:305-626 | Removing keeps the elements that are not to be dropped, in order |
| `VectorLaws.WhatGoesInComesOut` | UEFIpp/Include/UEFIpp/Library/Containers/Vector.hpp:305-626 | Popping undoes pushing, erasing undoes inserting, and inserting at the end is pushing |
| `Vector.PushAll` | UEFIpp/Include/UEFIpp/Library/Containers/Vector.hpp:727-762 | Appending n elements one by one relocates fewer than 2n and at most doubles the room |
| `Vector.Vector.InsertSorted` | UEFIpp/Include/UEFIpp/Library/Containers/Vector.hpp:613-624 | One round shifts the elements above the key up, by assignments between live objects, and puts the key in its place |
| `Vector.Vector.Sort` | UEFIpp/Include/UEFIpp/Library/Containers/Vector.hpp:610-626 | The in-place insertion sort leaves the stable sort of the contents and misuses no slot |
| `Sorting.SortedPermutes` | UEFIpp/Include/UEFIpp/Library/Containers/Vector.hpp:610-626 | Sorting permutes |
| `Sorting.SortedOrders` | UEFIpp/Include/UEFIpp/Library/Containers/Vector.hpp:610-626 | Sorting by a strict weak order leaves nothing out of order |
| `Sorting.SortedIsStable` | UEFIpp/Include/UEFIpp/Library/Containers/Vector.hpp:610-626 | Elements the order cannot tell apart keep their relative order |
| `Sorting.LowerBound` | UEFIpp/Source/Reverse/SymbolDatabase.cpp:454-461 | The binary search ends where halving the range ends on any list; that is where a property that holds on a prefix stops, and otherwise still a place where it stops |
| `SymbolDatabase.SymbolDatabase.Intern` | UEFIpp/Source/Reverse/SymbolDatabase.cpp:181-199 | Equal strings get the same id, and no id ever changes its string |
| `SymbolDatabase.SymbolDatabase.AddSymbol` | UEFIpp/Source/Reverse/SymbolDatabase.cpp:211-218 | A symbol's id is its position |
| `SymbolDatabase.SymbolDatabase.AddInlineSite` | UEFIpp/Source/Reverse/SymbolDatabase.cpp:282-290 | A site is kept behind the others and carries its position as its id |
| `SymbolDatabase.SymbolDatabase.AddType` | UEFIpp/Source/Reverse/SymbolDatabase.cpp:220-229 | Types are kept in the order added; the invalid index is refused |
| `SymbolDatabase.SymbolDatabase.IndexNames` | UEFIpp/Source/Reverse/SymbolDatabase.cpp:339-350 | Each distinct non-empty name of a symbol gets an entry, and nothing else does |
| `SymbolDatabase.SymbolDatabase.Finalize` | UEFIpp/Source/Reverse/SymbolDatabase.cpp:309-429 | Builds current, ordered indices, and sorts types and sites without changing what any type index means |
| `SymbolDatabase.SymbolDatabase.CollectedIsScan` | UEFIpp/Source/Reverse/SymbolDatabase.cpp:463-472 | What stands between the bounds of a hash is what a linear scan finds |
| `SymbolDatabase.SymbolDatabase.FindExact` | UEFIpp/Source/Reverse/SymbolDatabase.cpp:443-473 | Exactly the symbols a linear scan finds under that name, ascending and without duplicates, for any hash function |
| `SymbolTables.FoundUnderItsNames` | UEFIpp/Source/Reverse/SymbolDatabase.cpp:339-350 | The scan finds a symbol under each of its four names, and under no other |
| `SymbolDatabase.SymbolDatabase.FindFirstExact` | UEFIpp/Source/Reverse/SymbolDatabase.cpp:475-482 | The least symbol a linear scan finds |
| `SymbolDatabase.SymbolDatabase.TypeByIndex` | UEFIpp/Source/Reverse/SymbolDatabase.cpp:148-179 | Before finalizing the first type added under the index, afterwards what the binary search makes of the table; while the lower indices stand in front of it, that is the first type added if and only if no higher index stands in front of that type |
| `SymbolTables.FoundIsFirst` | UEFIpp/Source/Reverse/SymbolDatabase.cpp:148-179 | Where the lower indices stand in front, the search gives the first type under an index exactly when no higher index stands in front of it, whatever number of types came late |
| `SymbolTables.OneLateType` | UEFIpp/Source/Reverse/SymbolDatabase.cpp:148-179 | A single type added late under a new index is found exactly when its index is above all others |
| `SymbolTables.LateAtOrAbove` | UEFIpp/Source/Reverse/SymbolDatabase.cpp:148-179 | Types added late at or above an index that is there, duplicates included, change nothing under it |
| `SymbolTables.FoundBehindHigher` | UEFIpp/Source/Reverse/SymbolDatabase.cpp:148-179 | With lower indices further back, a type can be found although a higher index stands in front of it |
| `SymbolTables.LostThoughHighest` | UEFIpp/Source/Reverse/SymbolDatabase.cpp:148-179 | With lower indices further back, a type can be lost although its index is above all others |
| `SymbolTables.SortingKeepsFirstType` | UEFIpp/Source/Reverse/SymbolDatabase.cpp:399-400 | Sorting the types keeps every lookup's answer, even for indices added twice |
| `SymbolDatabase.SymbolDatabase.SymbolAtOrBeforeRva` | UEFIpp/Source/Reverse/SymbolDatabase.cpp:580-599 | Finds a symbol at or before the address exactly when there is one: the latest start, then the smallest size, then the kind listed last |
| `SymbolDatabase.SymbolDatabase.FunctionContainingRva` | UEFIpp/Source/Reverse/SymbolDatabase.cpp:601-639 | Only functions that contain the address; the greatest start and then the smallest size, except that the early break loses exactly the candidates it hides |
| `SymbolTables.OnlyBigFunctionsHidden` | UEFIpp/Source/Reverse/SymbolDatabase.cpp:634-636 | Only a function of at least 0x100002 bytes can be hidden |
| `SymbolTables.FunctionIsLost` | UEFIpp/Source/Reverse/SymbolDatabase.cpp:634-636 | A concrete function of that size that contains the address and that the early break loses |
| `SymbolTables.ContainsIsRange` | UEFIpp/Source/Reverse/SymbolDatabase.cpp:626-633 | A function reaches from its start over its size; one without a size is its start alone |
| `SymbolTables.KindsInOrder` | UEFIpp/Source/Reverse/SymbolDatabase.cpp:8-12 | Which kinds are functions, and in which order kinds at one address are listed |
| `SymbolTables.NothingIsLost` | UEFIpp/Source/Reverse/SymbolDatabase.cpp:601-639 | When no function is that large, the lookup finds a function exactly when a linear scan does |
| `SymbolDatabase.SymbolDatabase.InlineStack` | UEFIpp/Source/Reverse/SymbolDatabase.cpp:704-727 | The covering sites, widest first |
| `SymbolTables.FramesAreCoveringSites` | UEFIpp/Source/Reverse/SymbolDatabase.cpp:704-727 | The stack is exactly the sites that cover the address, with multiplicity |
| `SymbolTables.FramesNest` | UEFIpp/Source/Reverse/SymbolDatabase.cpp:704-727 | When ranges are nested or disjoint, each frame encloses every later one, open-ended sites included |
| `Msf.CheckedMul` | UEFIpp/Source/Reverse/Pdb.cpp:213-218 | Multiplies, or reports that 64 bits do not hold the product |
| `Msf.BlocksForIsCeiling` | UEFIpp/Source/Reverse/Pdb.cpp:202-205 | Aligning up and dividing gives the least number of blocks that hold the size |
| `Msf.JoinedAt` | UEFIpp/Source/Reverse/Pdb.cpp:971-974 | Where each byte of a block stands in the joined contents |
| `Msf.CheckSuperBlock` | UEFIpp/Source/Reverse/Pdb.cpp:963-965 | Accepts exactly the super blocks that describe blocks inside the file |
| `Msf.ReadDirectory` | UEFIpp/Source/Reverse/Pdb.cpp:966 | The gathered directory is the joined directory blocks cut to its size, exactly when the block map is in range |
| `Msf.ParseDirectory` | UEFIpp/Source/Reverse/Pdb.cpp:967 | Accepts exactly the directories that list a size for every stream and an existing block for each of its blocks; descriptors then tile the block list |
| `Msf.MsfFile.Open` | UEFIpp/Source/Reverse/Pdb.cpp:963-969 | Accepts exactly the files whose super block, block map and directory are in order, and then reflects them; a failed open leaves the file invalid |
| `Msf.MsfFile.LayoutTiles` | UEFIpp/Source/Reverse/Pdb.cpp:967 | Descriptors read from a good directory tile the block list with enough in-range blocks each |
| `Msf.MsfFile.CopyPiece` | UEFIpp/Source/Reverse/Pdb.cpp:973 | One step of the copy loop copies the next piece of the stream; its error exits are never taken |
| `Msf.MsfFile.ReadStream` | UEFIpp/Source/Reverse/Pdb.cpp:971-974 | Every in-range request returns exactly that range of the stream's joined blocks, every other fails and writes nothing |
| `Msf.MsfFile.ReadAll` | UEFIpp/Source/Reverse/Pdb.cpp:980 | The whole stream |
| `MsfImages.ReadsBack` | UEFIpp/Source/Reverse/Pdb.cpp:226-232 | Reading four bytes gives a number exactly when they are its digits in base 256, least significant first |
| `MsfImages.StoredIsMsf` | UEFIpp/Source/Reverse/Pdb.cpp:963-969 | Every file that stores streams, wherever their blocks are, is accepted: header numbers at 32, 40, 44 and 52, block map, directory of count, sizes and block numbers, and streams are given by a writer |
| `MsfImages.ReadBack` | UEFIpp/Source/Reverse/Pdb.cpp:963-980 | Opening such a file succeeds, and reading stream i in full gives stream i; a deleted or missing stream is refused |
| `MsfImages.AcceptedIffStored` | UEFIpp/Source/Reverse/Pdb.cpp:963-969 | Conversely, every accepted file stores streams, so the accepted files are exactly the stored ones |
| `MsfImages.RoundTrip` | UEFIpp/Source/Reverse/Pdb.cpp:963-980 | Every list of streams of admissible size is written one part after the other, opened, and read back, deleted ones included |
| `SymbolMatcher.Add` | UEFIpp/Source/Reverse/SymbolMatcher.cpp:195-207 | One more proposal: each eligible address is listed once, with the first size given for it |
| `SymbolMatcher.FillSizes` | UEFIpp/Source/Reverse/SymbolMatcher.cpp:282-291 | An unsized function reaches to the next one or the end of the image, and every size is positive |
| `SymbolMatcher.DiscoverBoundaries` | UEFIpp/Source/Reverse/SymbolMatcher.cpp:191-293 | Lists every eligible start once, in rising order, with a positive size; fails exactly when there is none |
| `SymbolMatcher.EligibleAreListed` | UEFIpp/Source/Reverse/SymbolMatcher.cpp:191-207 | A start inside the image and in executable code is never left out |
| `SymbolMatcher.UnsizedReachTheNext` | UEFIpp/Source/Reverse/SymbolMatcher.cpp:282-291 | A listed function has the first size given for it; without one it ends where the next starts, or where the image ends |
| `SymbolMatcher.FingerprintOld` | UEFIpp/Source/Reverse/SymbolMatcher.cpp:642-668 | Exactly the fingerprints of the old functions, in address order, each at its own address |
| `SymbolMatcher.OldAreFirstBuilt` | UEFIpp/Source/Reverse/SymbolMatcher.cpp:642-657 | Fingerprinted are exactly, at every address, the first sized function whose fingerprint can be built |
| `SymbolMatcher.FingerprintNew` | UEFIpp/Source/Reverse/SymbolMatcher.cpp:658-663 | Exactly the fingerprints of the new functions, in order |
| `SymbolMatcher.NewAreBuilt` | UEFIpp/Source/Reverse/SymbolMatcher.cpp:658-663 | Candidates are exactly the new functions whose fingerprint can be built, at distinct addresses |
| `SymbolMatcher.Recovery.AddAnchor` | UEFIpp/Source/Reverse/SymbolMatcher.cpp:758-768 | A semantic id keeps the first address recorded for it; anchors are never removed |
| `SymbolMatcher.Recovery.ClaimExport` | UEFIpp/Source/Reverse/SymbolMatcher.cpp:672-705 | A known export records its own address for its semantic id unless there is one, and claims the candidate at its address |
| `MatchingPasses.ClaimedCandidates` | UEFIpp/Source/Reverse/SymbolMatcher.cpp:672-705 | The exports claim exactly the candidates at the address of a named, unforwarded export of a symbol with a semantic id |
| `MatchingPasses.ClaimedMatches` | UEFIpp/Source/Reverse/SymbolMatcher.cpp:672-705 | Each such export with a candidate makes its own exact match, and there are no others |
| `MatchingPasses.ClaimedAnchors` | UEFIpp/Source/Reverse/SymbolMatcher.cpp:672-705 | The first such export for a semantic id gives that id its address |
| `SymbolMatcher.Recovery.FindBest` | UEFIpp/Source/Reverse/SymbolMatcher.cpp:716-733 | The best free candidate, the earliest of equals, and the best of the others |
| `SymbolMatcher.RanksAreUnique` | UEFIpp/Source/Reverse/SymbolMatcher.cpp:716-733 | Scores and free candidates determine the choice |
| `SymbolMatcher.Recovery.Consider` | UEFIpp/Source/Reverse/SymbolMatcher.cpp:707-770 | An old function is matched exactly when it is not yet and the verdict on its best free candidate is good enough for the pass |
| `MatchingPasses.TurnMatches` | UEFIpp/Source/Reverse/SymbolMatcher.cpp:706-770 | An unmatched old function is matched exactly when its best free candidate has the same code, scores 0.999, or scores the certain threshold, in the last pass the probable one, with the lead asked for; what the match says, and whom it anchors |
| `MatchingPasses.DeservingIsMatched` | UEFIpp/Source/Reverse/SymbolMatcher.cpp:706-770 | In every pass, whoever deserves it at its turn is matched when the pass ends |
| `SymbolMatcher.AcceptedIsUnambiguous` | UEFIpp/Source/Reverse/SymbolMatcher.cpp:429-444 | A match by score has no rival within the ambiguity margin unless its score is near perfect |
| `SymbolMatcher.AssignmentInAnyOrder` | UEFIpp/Source/Reverse/SymbolMatcher.cpp:772-774 | Sorting the matches keeps them an assignment |
| `SymbolMatcher.TurnIsDetermined` | UEFIpp/Source/Reverse/SymbolMatcher.cpp:707-770 | What considering one old function does is determined by the scores and what is free |
| `SymbolMatcher.PassIsDetermined` | UEFIpp/Source/Reverse/SymbolMatcher.cpp:707-770 | A pass over the old functions can only end in one place |
| `SymbolMatcher.RunPass` | UEFIpp/Source/Reverse/SymbolMatcher.cpp:707-770 | A pass considers the old functions one after the other, in order, and only adds matches and anchors |
| `SymbolMatcher.RunPasses` | UEFIpp/Source/Reverse/SymbolMatcher.cpp:706-771 | Exactly three passes over the old functions, one after the other; `MatchingPasses` says what each can add |
| `MatchingPasses.OnlyTheLastTakesProbable` | UEFIpp/Source/Reverse/SymbolMatcher.cpp:746-747 | What the first two passes add is Exact or Certain; Probable matches appear only in the third, and each says what its score is |
| `MatchingPasses.RecoveredAreGood` | UEFIpp/Source/Reverse/SymbolMatcher.cpp:627-776 | Every match of the whole answer is an export or Exact, Certain or Probable as its score says |
| `SymbolMatcher.RecoverAll` | UEFIpp/Source/Reverse/SymbolMatcher.cpp:627-776 | For any score the answer is where the three passes lead from what the exports claim, listed by confidence; matches by similarity share no symbol and no address with any other match; there is no candidate exactly when nothing on one side can be fingerprinted |
| `SymbolMatcher.RecoveryIsDetermined` | UEFIpp/Source/Reverse/SymbolMatcher.cpp:706-776 | Symbols, exports, boundaries, fingerprints and scores determine the whole answer |
| `Path.Components` | UEFIpp/Source/FileSystem/Path.cpp:16-45 | The names between backslashes; repeated and outer separators count for nothing |
| `Path.PartsMeet` | UEFIpp/Source/FileSystem/Path.cpp:47-116 | Texts that meet at a separator split separately |
| `Path.PushKeeps` | UEFIpp/Source/FileSystem/Path.cpp:79-92 | The component stack holds the names of the place walked to, under at most one .. |
| `Path.Normalized` | UEFIpp/Source/FileSystem/Path.cpp:47-116 | The normal form names the place the walk ends, up to lost levels |
| `Path.NormalFormShape` | UEFIpp/Source/FileSystem/Path.cpp:47-116 | A normal form has no slash and no empty or . component, and .. only once, in front of a relative path |
| `Path.NormalFormMeans` | UEFIpp/Source/FileSystem/Path.cpp:47-116 | Normalising keeps absoluteness, and the place except for pairs of leading levels up |
| `Path.NormalisingKeepsThePlace` | UEFIpp/Source/FileSystem/Path.cpp:79-92 | Normalising keeps the place a path denotes if and only if it never climbs more than one level above its start; absolute paths never do |
| `Path.NormalisingIsIdempotent` | UEFIpp/Source/FileSystem/Path.cpp:47-116 | Normalising twice changes nothing more |
| `Path.NormalisingLosesLevels` | UEFIpp/Source/FileSystem/Path.cpp:47-116 | Two levels up normalise to none, and a path with a leading slash counts as relative |
| `Path.Join` | UEFIpp/Source/FileSystem/Path.cpp:120-147 | An empty side gives the other unchanged; otherwise the glued text is normalised |
| `Path.JoiningIsWalkingOn` | UEFIpp/Source/FileSystem/Path.cpp:149-171 | Joining non-empty paths is walking the one and then the other, under the same condition; from an absolute path always |
| `Path.DownAndUp` | UEFIpp/Source/FileSystem/Path.cpp:79-92 | A further name leads one level down, .. behind it up again, . nowhere, and .. above everything one level up, or nowhere from the root |
| `Path.FirstStep` | UEFIpp/Source/FileSystem/Path.cpp:47-116 | A first name is one level below the start behind either separator or none |

## Left out

- Error details: the `Offset`, `Transferred` and `Operation` fields of errors; only codes are modelled.
- Out-of-memory results and 64-bit size overflow, except where a contract names them.
- StringStorage.BasicString.Erase: what a call that reads through a null pointer does afterwards is not stated.
- StringStorage.BasicString.Insert: views into the string's own storage are left out, as in `Append` and `Assign`.
- Console.ConsoleSink.WriteSome: only the Replace policy and a console that neither fails nor is detached, because a failing one may lose a decoded byte.
- Console.ConsoleSink.AcceptByte: the Replace policy only, as in `WriteSome`.
- Console.ConsoleSink.Append: the console does not fail, as in `WriteSome`.
- Console.ConsoleSink.FlushWide: the console does not fail, as in `WriteSome`.
- Console.ConsoleSink.Flush: the Replace policy and a console that does not fail, as in `WriteSome`.
- Sinks.NewlineSink.WriteSome: the console does not fail, because a carriage return may be gone when a failure is reported.
- Sinks.NewlineSink.WriteByte: the console does not fail, as in `WriteSome`.
- Sinks.NewlineSink.PassLf: the console does not fail, as in `WriteSome`.
- Sinks.NewlineSink.Flush: the console does not fail, as in `WriteSome`.
- Sinks.Sink.WriteSome: stands for any sink; how much one of fixed size takes, and its overflow error, are not stated.
- ConsoleStack.Transcript: bytes without NUL only, since `OutputString` stops at a NUL.
- Terminal.Terminal.PollKey: firmware errors, a closed terminal and waiting are left out; the keyboard is the sequence of keys to come.
- LineEditor.LineEditor.ReadLine: echo, redraw and masking are left out, as is the terminal geometry; keys carry valid code points, history and completions are well formed.
- Sources.ReadExact: how much a failed read has transferred is stated, the error's own count is not.
- Sources.Source.Seek: a file that lets itself be positioned past its end is left out.
- Extraction.Extract: one method stands for the single-value and the tuple form; sources that cannot seek, which are not restored, are left out.
- Extraction.ExtractInto: destinations are places of one array, all values of one type.
- Template.Walk: what has been written when it fails is not stated; sinks that fail are left out.
- Integers.FormatUnsigned: the writer is a string that never fails.
- Integers.ParsingUndoesFormatting: fill characters that are letters, digits, signs or separators can spell another number; of these only zeros in front are decided, by `Integers.ZeroFillReads`.
- Vector.Vector.Insert: the inserted value stands outside the vector; `InsertOwn` is the other case.
- Vector.Vector.Sort: an object that has been moved from counts as live with its old value, which the sort never looks at.
- SymbolDatabase.SymbolDatabase.TypeByIndex: on a finalized table with lower indices behind the index, the answer is only given as that of the search, `SymbolTables.TypeFound`.
- SymbolDatabase.SymbolDatabase.Finalize: semantic ids, the type-name index, source lines and address maps are left out; tables are held as sequences.
- SymbolTables.FramesNest: addresses fit 64 bits, as they do in the source.
- Msf.MsfFile.Open: which error a refused file gets is stated only for the block map.
- SymbolMatcher.DiscoverBoundaries: the proposals are inputs; the exception-table filter and the scan for call targets that make them are left out.
- SymbolMatcher.RecoverAll: scores are reals, so NaN is left out; image parsing, the instruction decoder and the fingerprint contents are parameters.
- Path.NormalFormMeans: for relative paths the levels above the start are kept only modulo two, as in the source.
- The default-constructed `SymbolDatabase`, which lacks the reserved empty string.
- `FormatFloat` and `ParseFloating`: rounding, with no exact law.
- Formatters of text, errors, ranges and hex dumps, and quoting: one-branch output.
- `Path` parent, file name, stem, extension and `RelativeTo`.
- Code that is plumbing around unseen firmware: files, serial ports, protocols, events, coroutines and timers.
- CodeView records, PE headers, `FindFunction` scoring, `FindType` and source lookup.
