# xID3 decoding core in Dafny

This project models the ID3v2.3 decoding pipeline of the Swift library xID3
and proves properties of it. The pipeline has four stages:

- The tag header decoder (`ID3Identifier`) checks the "ID3" magic and major
  version 3, then reads the flag byte and the tag size. The size has 28 bits
  when every size byte is below 0x80. The decoder does not mask the bytes,
  so other bytes give sizes up to 538984575.
- The raw frame splitter (`ID3Content`) reads `(id, size, flags, content)`
  records while a counter stays below the declared size. It stops on a zero
  frame size.
- The processor registry (`FrameProcessorRegistry`) picks the first processor
  that supports a frame id. It falls back to a handler that decodes nothing.
- Four frame decoders handle text information frames, COMM, APIC and CHAP.
  A CHAP frame hands its embedded sub-frame back to the registry.

The extractor and the `Frames` container sit on top of these stages.

Modules, one per source file:

- `ID3Utils`: `id3_utils.dfy`.
- `ID3Tag`: `id3_tag.dfy`.
- `ID3Frame`: `id3_frame.dfy`, the decoded frame kinds.
- `TextInformationFrame`, `CommentFrame`, `AttachedPictureFrame` and
  `ChapterFrame`: one file each.
- `FrameProcessing`: `frames.dfy`.

How the model represents the source:

- The byte source is an `InputStream` class over an in-memory byte sequence
  with a read position. Like the Swift code, each read fills a zero-filled
  buffer as far as the data allows, so reads past the end give zeros.
- Loops that work on mutable slices and buffers are Dafny methods. Each one
  is proved equal to a specification function, and the properties are proved
  about those functions.
- The decoders' byte layouts have encoders as partners. Each decoder is
  proved to read back what its encoder lays out.

The model follows the code as written, including where it departs from the
ID3v2.3.0 informal standard:

- The extended-header flag is computed as `flag & 0x40 == 1`, which never
  holds, so a header always takes exactly ten bytes. The extended-header
  block, which would read its size from the tag size bytes, is modelled but
  unreachable.
- `tagSize` does not mask the high bit of each byte. The standard expects
  7-bit bytes; the bound and the round trip are proved for those, and the
  plain sum is used otherwise.
- A `ChapterFrame` always gets its start time as its end time.
- The CHAP sub-frame content is every remaining byte, not the declared
  sub-frame size.
- APIC image data starts with the zero byte that ends the description.

Inputs on which the Swift code traps become preconditions:

- COMM and APIC content must be non-empty.
- CHAP content needs 24 bytes after the element id's terminator.
- The CHAP sub-frame id must decode as UTF-8.
- `frameSize` needs four bytes.
- The splitter's `UInt32` counter must not overflow. `SplitSafe` and
  `ReadSafe` state this, and the splitter and `read` require it.

## Model

| member | source | states |
|---|---|---|
| ID3Utils.ToString | Source/ID3Utils.swift:40-46 | one character per byte, in order, so the length is the byte count |
| ID3Utils.AsStringInjective | Source/ID3Utils.swift:40-46 | different byte sequences give different strings |
| ID3Utils.TagSize | Source/ID3Utils.swift:68-76 | nil unless there are exactly four bytes; otherwise b0·2^21 + b1·2^14 + b2·2^7 + b3, within UInt32 |
| ID3Utils.TagSizeShifts | Source/ID3Utils.swift:68-76 | the value equals the sum of the shifted bytes as the source writes it |
| ID3Utils.TagSizeOf | Source/ID3Utils.swift:58-60 | the four-argument form gives the same weighted sum as the array form |
| ID3Utils.TagSizeBound | Source/ID3Utils.swift:68-76 | with every byte below 0x80 the size is below 2^28 |
| ID3Utils.SynchsafeRoundTrip | Source/ID3Utils.swift:58-76 | writing n < 2^28 as four 7-bit groups and decoding gives back n |
| ID3Utils.TagSizeInjective | Source/ID3Utils.swift:68-76 | on 7-bit bytes, re-encoding the size gives the bytes back, so the size is injective |
| ID3Utils.ShiftLeftByte | Source/ID3Utils.swift:73-74 | shifting a byte by 7, 8, 14, 16, 21 or 24 bits loses nothing |
| ID3Utils.FrameSize | Source/ID3Utils.swift:100-105 | needs four bytes (fewer trap); b0·2^24 + b1·2^16 + b2·2^8 + b3, never over UInt32 |
| ID3Utils.FrameSizeShifts | Source/ID3Utils.swift:100-105 | the value equals the sum of the shifted bytes as the source writes it |
| ID3Utils.FrameSizeOf | Source/ID3Utils.swift:87-89 | the four-argument form agrees with the array form |
| ID3Utils.FrameSizeReadsFourBytes | Source/ID3Utils.swift:100-105 | only the first four bytes count |
| ID3Utils.FrameSizeRoundTrip | Source/ID3Utils.swift:100-105 | the four big-endian bytes of n decode to n |
| ID3Utils.FrameSizeZero | Source/ID3Utils.swift:100-105 | the size is zero exactly when the four bytes are zero |
| ID3Utils.EncodingFrom | Source/ID3Utils.swift:115-127 | 0 gives Latin-1, 3 gives UTF-8, every other byte UTF-16, each as an if-and-only-if |
| ID3Utils.NextBytes | Source/ID3Utils.swift:136-144 | returns the first min(n, \|c\|) bytes, and those bytes followed by the rest are the input |
| ID3Utils.LeadingZeros | Source/ID3Utils.swift:150-154 | the length of the maximal leading run of zero bytes |
| ID3Utils.SkipZeroBytes | Source/ID3Utils.swift:150-154 | removes exactly the leading zero run; the rest is empty or starts with a non-zero byte |
| ID3Utils.SkipZeroBytesIdempotent | Source/ID3Utils.swift:150-154 | a second skip removes nothing |
| ID3Utils.ZeroFreeRun | Source/CommentFrame.swift:65-67 | the length of the maximal leading run of non-zero bytes |
| ID3Utils.PopUntilZero | Source/CommentFrame.swift:64-67 | moves exactly that run into the buffer, in order, and leaves the rest |
| ID3Tag.WindowAt | Source/ID3Tag.swift:51-53 | a read of n bytes into a zero-filled buffer holds the data's bytes while there are any, then zeros |
| ID3Tag.WindowConcat | Source/ID3Tag.swift:103-119 | two reads in a row see what one read of both lengths sees |
| ID3Tag.InputStream.Read | Source/ID3Tag.swift:51-53 | the buffer is the window at the old position, and the position advances past the bytes available |
| ID3Tag.MaskExtendedHeader | Source/ID3Tag.swift:69 | the flag masked with 0x40 is 0 or 0x40 |
| ID3Tag.ExtendedHeaderFlag | Source/ID3Tag.swift:69 | the extended-header flag is false for every flag byte |
| ID3Tag.ExtendedHeaderEnd | Source/ID3Tag.swift:75-82 | the skip stays within the data and skips nothing when the flag is false |
| ID3Tag.SkipExtendedHeader | Source/ID3Tag.swift:75-82 | the stream ends up at ExtendedHeaderEnd |
| ID3Tag.MagicString | Source/ID3Tag.swift:55 | the identifier string is "ID3" exactly when the bytes are 'I', 'D', '3' |
| ID3Tag.ParseIdentifier | Source/ID3Tag.swift:49-83 | the header decoder never moves back and stays within the data |
| ID3Tag.ParseIdentifierSpec | Source/ID3Tag.swift:49-83 | a header exactly when the magic is there and major version is 3; version bytes 3-4, size from bytes 6-9, flag false, ten bytes consumed |
| ID3Tag.ReadIdentifier | Source/ID3Tag.swift:49-83 | the method returns ParseIdentifier's result and leaves the stream where it says |
| ID3Tag.ReadFrame | Source/ID3Tag.swift:103-121 | one splitter step stays within the data and stores only frames with a 4-char id, size ≥ 1, size content bytes and 2 flag bytes |
| ID3Tag.ReadFrameSpec | Source/ID3Tag.swift:103-121 | the step stops exactly on a zero size in bytes 4-7; otherwise id, size, flags and content come from the windows in order |
| ID3Tag.SplitStep | Source/ID3Tag.swift:102-126 | the loop keeps frames read so far plus the split of the rest unchanged |
| ID3Tag.ConsumedConcat | Source/ID3Tag.swift:125 | the counter adds up over consecutive runs of frames |
| ID3Tag.ConsumedFirst | Source/ID3Tag.swift:125 | the counter over some frames is the first frame's length plus the counter over the rest |
| ID3Tag.SplitWellFormed | Source/ID3Tag.swift:118-123 | every stored frame's content length equals its size, which is at least 1 |
| ID3Tag.StartsBelowCounter | Source/ID3Tag.swift:102-125 | the frame-by-frame counter condition equals the sum-of-lengths condition |
| ID3Tag.SplitCounterBelow | Source/ID3Tag.swift:102-125 | every stored frame started while i plus the lengths (10 + size) of the frames before it was below the size |
| ID3Tag.SplitEnds | Source/ID3Tag.swift:102-113 | splitting yields nothing once the counter reaches the size or a step finds a zero frame size |
| ID3Tag.StepOnZeros | Source/ID3Tag.swift:111-113 | a zero frame size gives no frame |
| ID3Tag.SplitStopsOnZeroSize | Source/ID3Tag.swift:111-113 | a zero frame size ends splitting at once, even below the declared size |
| ID3Tag.SplitExhausted | Source/ID3Tag.swift:107-113 | an exhausted stream reads as zeros, so splitting stops |
| ID3Tag.SplitPadding | Source/ID3Tag.swift:107-113 | all-zero data after the position ends splitting |
| ID3Tag.EncodeFrame | Source/ID3Tag.swift:103-121 | a frame laid out as id, big-endian size, flags and content takes 10 + size bytes |
| ID3Tag.ReadEncodedFrame | Source/ID3Tag.swift:103-121 | one step over a laid-out frame reads that frame back and moves past it |
| ID3Tag.EncodedReadsFrames | Source/ID3Tag.swift:103-123 | steps over laid-out frames and zero padding read exactly those frames, in order |
| ID3Tag.SplitReadsFrames | Source/ID3Tag.swift:102-126 | while each frame starts below the size, the splitter returns the frames the steps read |
| ID3Tag.SplitEncodeFrames | Source/ID3Tag.swift:99-127 | splitting laid-out frames and zero padding gives the frames back, in stream order |
| ID3Tag.SafeReadsFrames | Source/ID3Tag.swift:125 | over the frames the steps read, no `i += 10 + frameSize` overflows exactly when the final counter is below 2^32 |
| ID3Tag.EncodedFramesSafe | Source/ID3Tag.swift:99-127 | splitting laid-out frames and zero padding traps exactly when their total length reaches 2^32 |
| ID3Tag.StopEndValue | Source/ID3Tag.swift:103-113 | a step that finds a zero frame size leaves the stream 8 bytes on, past the id and the size, or at the end of the data |
| ID3Tag.SplitEndStep | Source/ID3Tag.swift:99-127 | below the size, the split ends where a zero-size step stops, or where the split from after the frame read ends |
| ID3Tag.SplitEndRead | Source/ID3Tag.swift:103-125 | below the size, a step that reads a frame leaves the split's end unchanged |
| ID3Tag.SplitEndStop | Source/ID3Tag.swift:107-113 | below the size, a step on a zero frame size ends the split past the id and the size |
| ID3Tag.LaidOutStepsOver | Source/ID3Tag.swift:103-121 | over laid-out frames each step reads the next frame and moves on by exactly its length |
| ID3Tag.LaidOutPadding | Source/ID3Tag.swift:103-121 | the padding starts right after the laid-out frames, within the data |
| ID3Tag.StepsOverSplitEnd | Source/ID3Tag.swift:99-127 | over frames read step by step the split ends right after the last one once the counter reaches the size, otherwise past the zero size that follows |
| ID3Tag.EncodedSplitEnd | Source/ID3Tag.swift:99-127 | splitting laid-out frames and zero padding ends right after the frames when their lengths reach the size, otherwise 8 bytes later or at the end of the data |
| ID3Tag.ReadNextFrame | Source/ID3Tag.swift:103-121 | the loop body returns ReadFrame's frame and moves past it, or returns none for the zero-size break and stops past the id and the size |
| ID3Tag.LoopEnd | Source/ID3Tag.swift:102-126 | one loop turn keeps the split's end ahead of the stream, and on the break the stream is there |
| ID3Tag.SplitFrames | Source/ID3Tag.swift:99-127 | on input where no counter addition overflows, the loop returns the specified split and leaves the stream at its end, SplitEnd |
| ID3Tag.ID3Content.constructor | Source/ID3Tag.swift:99-127 | the new content holds the specified split of the stream, and the stream is left at the split's end, on input where the counter does not overflow |
| ID3Tag.ID3Content.RawFrames | Source/ID3Tag.swift:132-134 | returns the stored frames |
| ID3Tag.ReadTagAt | Source/ID3Tag.swift:183-191 | a tag exactly when the header decoder accepts; every frame of the tag is well formed |
| ID3Tag.ReadEnd | Source/ID3Tag.swift:183-191 | reading a tag never moves the stream back or past the data |
| ID3Tag.Read | Source/ID3Tag.swift:183-191 | on input where the splitter does not trap, the method returns ReadTagAt of the stream, keeps it valid and leaves it at ReadEnd: after the header bytes read when the header is rejected, at the split's end otherwise |
| ID3Tag.ReadTagAtSpec | Source/ID3Tag.swift:183-191 | a tag exactly when the header is accepted; the body is split from byte 10 with the declared size |
| ID3Tag.EmptyInputNoTag | Tests/xID3Tests/ID3TagTests.swift:27-30 | empty input gives no tag |
| ID3Tag.ParseEncodedHeader | Source/ID3Tag.swift:49-83 | an encoded version 2.3 header is read back, whatever the flag byte |
| ID3Tag.ReadTagFromParts | Source/ID3Tag.swift:183-191 | `read` assembles the identifier and the split body |
| ID3Tag.ReadEndFromParts | Source/ID3Tag.swift:183-191 | when the header is accepted, `read` ends where splitting the body ends |
| ID3Tag.EncodedTagParts | Source/ID3Tag.swift:49-83 | an encoded version 2.3 header parses, and the body starts at byte 10 |
| ID3Tag.ReadTagRoundTrip | Source/ID3Tag.swift:49-191 | header, laid-out frames and zero padding read back as that tag with exactly those frames; reading traps exactly when the frames' total length reaches 2^32 |
| ID3Tag.ReadEndRoundTrip | Source/ID3Tag.swift:49-191 | reading header, laid-out frames and zero padding ends right after the frames when their lengths reach the size, otherwise 8 bytes later or at the end of the data |
| ID3Tag.OneFrameTag | Tests/xID3Tests/ID3TagTests.swift:51-72 | one TIT2 frame under an overstated size: the stream runs out, exactly that frame comes back, nothing traps, and the stream ends at the end of the data |
| ID3Tag.TwoFrameTag | Tests/xID3Tests/ID3TagTests.swift:75-106 | TIT2 then XXXX come back in order with their contents, nothing traps, and the stream ends at the end of the data |
| ID3Tag.CounterOverflow | Source/ID3Tag.swift:125 | a frame with size field 0xFFFFFFFF under declared size 1: the model reads the frame, but the counter addition overflows |
| TextInformationFrame.Supports | Source/TextInformationFrame.swift:36-40 | every supported id is a four-character id starting with 'T' |
| TextInformationFrame.From | Source/TextInformationFrame.swift:42-56 | nil exactly when the content has fewer than 2 bytes; otherwise a text frame with the raw id |
| TextInformationFrame.FromEncoded | Source/TextInformationFrame.swift:49-56 | an encoding byte and text decode to that text in the selected encoding |
| TextInformationFrame.FromUndecodable | Source/TextInformationFrame.swift:46-55 | with 2 or more bytes a frame comes back even when the text does not decode |
| TextInformationFrame.FromIgnoresSizeAndFlags | Source/TextInformationFrame.swift:42-56 | size and flags play no part |
| TextInformationFrame.HelloFrame | Tests/xID3Tests/TextInformationFrameTest.swift:27-37 | TIT2 with the UTF-8 indicator and "Hello" decodes to that text |
| TextInformationFrame.TooFewData | Tests/xID3Tests/TextInformationFrameTest.swift:40-45 | the indicator alone gives nil |
| CommentFrame.Supports | Source/CommentFrame.swift:43-45 | true exactly for "COMM" |
| CommentFrame.Split | Source/CommentFrame.swift:47-78 | the encoding is the first byte; the five pieces' lengths add up to the content length (SplitJoin and JoinSplit state the order and uniqueness) |
| CommentFrame.CommentOf | Source/CommentFrame.swift:47-78 | always a comment frame; CommentOfJoin states which texts it holds |
| CommentFrame.SplitJoin | Source/CommentFrame.swift:48-58 | encoding byte, language, short comment, zero separator and comment partition the content, in order |
| CommentFrame.SplitLanguage | Source/CommentFrame.swift:52 | the language is three bytes unless the content ends inside it |
| CommentFrame.SplitShortComment | Source/CommentFrame.swift:63-67 | the short comment holds no zero byte |
| CommentFrame.SplitSeparator | Source/CommentFrame.swift:56-68 | the separator is zero bytes, present whenever a comment is; the comment does not start with a zero |
| CommentFrame.SplitWellFormed | Source/CommentFrame.swift:47-61 | the decoder's pieces have the shape of a COMM layout |
| CommentFrame.JoinSplit | Source/CommentFrame.swift:47-61 | cutting well-formed laid-out pieces gives them back, so the cut is the unique well-formed partition |
| CommentFrame.CommentOfJoin | Source/CommentFrame.swift:47-61 | laid-out pieces decode to language (UTF-8) and short comment and comment in the selected encoding |
| CommentFrame.ShortComment | Source/CommentFrame.swift:63-70 | decodes the zero-free run and drops one terminator |
| CommentFrame.CommentText | Source/CommentFrame.swift:72-78 | decodes every remaining byte and leaves nothing |
| CommentFrame.From | Source/CommentFrame.swift:47-61 | never nil for non-empty content; equals the specified decoding |
| AttachedPictureFrame.Supports | Source/AttachedPictureFrame.swift:75-77 | true exactly for "APIC" |
| AttachedPictureFrame.Split | Source/AttachedPictureFrame.swift:47-73 | the encoding is the first byte; the six pieces' lengths add up to the content length (SplitJoin and JoinSplit state the order and uniqueness) |
| AttachedPictureFrame.PictureOf | Source/AttachedPictureFrame.swift:47-73 | always an attached-picture frame; PictureOfJoin states which fields it holds |
| AttachedPictureFrame.SplitJoin | Source/AttachedPictureFrame.swift:49-70 | encoding, MIME type, terminator, picture type, description and image data partition the content |
| AttachedPictureFrame.SplitMimetype | Source/AttachedPictureFrame.swift:53-59 | the MIME type holds no zero, and at most one zero byte follows it |
| AttachedPictureFrame.SplitPresence | Source/AttachedPictureFrame.swift:59-61 | the picture type is absent only when the content is exhausted, and then nothing follows |
| AttachedPictureFrame.SplitDescription | Source/AttachedPictureFrame.swift:63-70 | the description holds no zero; the image data is empty or starts with the description's terminator |
| AttachedPictureFrame.SplitWellFormed | Source/AttachedPictureFrame.swift:47-73 | the decoder's pieces have the shape of an APIC layout |
| AttachedPictureFrame.JoinSplit | Source/AttachedPictureFrame.swift:47-73 | cutting well-formed laid-out pieces gives them back |
| AttachedPictureFrame.PictureOfJoin | Source/AttachedPictureFrame.swift:47-73 | laid-out pieces decode to the MIME type (UTF-8), picture type, description in the selected encoding and image data |
| AttachedPictureFrame.First | Source/AttachedPictureFrame.swift:61 | `popFirst`: nil exactly on empty content, else the first byte |
| ID3Utils.CopyBytes | Source/AttachedPictureFrame.swift:69-70 | the `forEach` copy keeps every byte in order (also Source/ChapterFrame.swift:77-78) |
| AttachedPictureFrame.From | Source/AttachedPictureFrame.swift:47-73 | never nil for non-empty content; equals the specified decoding |
| ChapterFrame.Supports | Source/ChapterFrame.swift:53-55 | true exactly for "CHAP" |
| ChapterFrame.NewChapterFrame | Source/ChapterFrame.swift:31-37 | end time is the start time; offsets and sub-frame as given |
| ChapterFrame.AfterElementId | Source/ChapterFrame.swift:60-64 | the length left after the zero-free element id and one dropped byte |
| ChapterFrame.AfterElementIdSlice | Source/ChapterFrame.swift:60-64 | the bytes are the content from just after the element id's terminator, or nothing when there is no terminator |
| ChapterFrame.WordValue | Source/ChapterFrame.swift:66-70 | a word is b0·2^24 + b1·2^16 + b2·2^8 + b3 of its first four bytes |
| ChapterFrame.ReadLayout | Source/ChapterFrame.swift:58-78 | the sub-frame content is at least 25 bytes shorter than the content, and the sub id has 4 bytes |
| ChapterFrame.LayoutNumbers | Source/ChapterFrame.swift:66-73 | after the terminator, the four positions are the words at offsets 0, 4, 8 and 12, and the sub size the word at 20 |
| ChapterFrame.LayoutBytes | Source/ChapterFrame.swift:60-78 | the element id is the zero-free run; the sub id is bytes 16-19 after the terminator and the sub content runs from 26 |
| ChapterFrame.ReadWord | Source/ChapterFrame.swift:66-70 | reads one big-endian int off the front |
| ChapterFrame.ReadFields | Source/ChapterFrame.swift:58-78 | the method's walk equals ReadLayout |
| ChapterFrame.ReadLayoutEncode | Source/ChapterFrame.swift:58-78 | a CHAP layout is read back field by field; the sub content is all bytes after the two flag bytes |
| FrameProcessing.Supports | Source/Frames.swift:163-165 | the fallback supports every id; COMM, APIC and CHAP processors support only ids among "COMM", "APIC", "CHAP" |
| FrameProcessing.FirstSupporting | Source/Frames.swift:72-77 | the index of the first supporting processor: it supports the id, and no earlier one does |
| FrameProcessing.Lookup | Source/Frames.swift:72-79 | the chosen processor supports the id |
| FrameProcessing.FirstSupportingAppend | Source/Frames.swift:63-77 | appending moves the first supporting index only when no earlier processor supports the id |
| FrameProcessing.LookupAppend | Source/Frames.swift:63-79 | `add` never changes the answer for an id an earlier processor supports |
| FrameProcessing.LookupBuiltIn | Source/Frames.swift:49-79 | the built-in order gives CHAP, the text ids, COMM, APIC, and the fallback for any other id |
| FrameProcessing.CanDecode | Source/Frames.swift:28-35 | the cases where a processor's `from` does not trap (the bodies are DefaultFrameHandler's, Source/Frames.swift:157-161, and those of TextInformationFrame.From, CommentFrame.From, AttachedPictureFrame.From and the CHAP `from`, each with its own row): always for text and the fallback; for COMM and APIC exactly on non-empty content; for CHAP only on content with 24 bytes after the terminator |
| FrameProcessing.SubFrame | Source/ChapterFrame.swift:84-88 | the sub-frame carries the decoded id, the read size and the remaining content |
| FrameProcessing.Decode | Source/Frames.swift:28-35 | dispatches to the processor's `from` (the fallback's at Source/Frames.swift:157-161; the others as in TextInformationFrame.From, CommentFrame.From, AttachedPictureFrame.From and FrameProcessing.DecodeChapter): fallback gives nil; text is nil only below 2 bytes; COMM, APIC and CHAP always give their frame kind, CHAP with end time = start time |
| FrameProcessing.DecodeFrame | Source/Frames.swift:145 | a frame comes back only from a processor other than the fallback that supports the id |
| FrameProcessing.UnsupportedNotDecoded | Source/Frames.swift:157-161 | an id no registered processor supports decodes to nil |
| FrameProcessing.DecodeChapter | Source/ChapterFrame.swift:57-96 | a laid-out CHAP frame gives start time twice, the offsets and the registry's decoding of the remaining bytes, whatever end time it carries |
| FrameProcessing.FrameProcessorRegistry.constructor | Source/Frames.swift:48-55 | starts with the four built-in processors in order |
| FrameProcessing.FrameProcessorRegistry.Add | Source/Frames.swift:63-65 | appends the processor |
| FrameProcessing.FrameProcessorRegistry.ForFrameId | Source/Frames.swift:72-79 | the loop returns Lookup |
| FrameProcessing.FrameProcessorRegistry.From | Source/Frames.swift:145 | dispatching to a processor's `from` gives Decode |
| FrameProcessing.FrameProcessorRegistry.ChapterFrom | Source/ChapterFrame.swift:57-96 | the CHAP `from`, re-entering the registry, gives Decode |
| FrameProcessing.Filtered | Source/Frames.swift:102-110 | never longer than the input; FilteredMembers, FilteredConcat and FilteredIdempotent state what it keeps |
| FrameProcessing.FilteredMembers | Source/Frames.swift:102-110 | a frame is kept exactly when present and accepted |
| FrameProcessing.FilteredConcat | Source/Frames.swift:102-110 | filtering keeps relative order |
| FrameProcessing.FilteredIdempotent | Source/Frames.swift:102-110 | filtering twice is filtering once |
| FrameProcessing.Frames.constructor | Source/Frames.swift:86 | a new container is empty |
| FrameProcessing.Frames.Add | Source/Frames.swift:92-94 | appends the frame |
| FrameProcessing.Frames.Filter | Source/Frames.swift:102-110 | a fresh container with Filtered of the frames; the source container is not modified |
| FrameProcessing.Frames.AvailableFrames | Source/Frames.swift:115-117 | returns the frames |
| FrameProcessing.Outcomes | Source/Frames.swift:144-145 | one outcome per raw frame, each the dispatched decoding |
| FrameProcessing.Partition | Source/Frames.swift:144-151 | extracted plus not-extracted count equals the input count |
| FrameProcessing.SuccessesMembers | Source/Frames.swift:145-146 | a frame is extracted exactly when it is some outcome |
| FrameProcessing.FailuresMembers | Source/Frames.swift:147-149 | a raw frame is reported exactly when one of its occurrences has no outcome |
| FrameProcessing.SuccessesConcat | Source/Frames.swift:144-151 | extracted frames keep input order |
| FrameProcessing.FailuresConcat | Source/Frames.swift:144-151 | not-extracted frames keep input order |
| FrameProcessing.Extracted | Source/Frames.swift:140-153 | no more frames than raw frames; ExtractedMembers and ExtractPartition state which |
| FrameProcessing.NotExtracted | Source/Frames.swift:140-153 | no more frames than raw frames; NotExtractedMembers and ExtractPartition state which |
| FrameProcessing.ExtractPartition | Source/Frames.swift:140-153 | \|extracted\| + \|nonExtracted\| = \|frames\| |
| FrameProcessing.NotExtractedMembers | Source/Frames.swift:145-150 | a raw frame is not extracted exactly when its dispatched `from` gives nil |
| FrameProcessing.ExtractedMembers | Source/Frames.swift:145-146 | a frame is extracted exactly when some raw frame decodes to it |
| FrameProcessing.ExtractWithFailures | Source/Frames.swift:140-153 | the loop's two outputs are the specified extracted and not-extracted sequences |
| FrameProcessing.Extract | Source/Frames.swift:129-131 | equals the extracted part of extractWithFailures |
| FrameProcessing.ExtractTitle | Source/Frames.swift:129-153 | a TIT2 frame with a UTF-8 indicator is extracted as its text frame, and nothing is reported |

## Left out

- Source/main.swift is not part of this model. It handles command-line arguments, file I/O, console output and descriptions.
- The real `InputStream` and file access are left out. The model reads from an in-memory byte sequence.
- Foundation text decoding (`String(bytes:encoding:)`, `String(data:encoding:)`) is left out.
  - It is the parameter `dec`, and every result is stated in terms of it.
  - Whether a given byte sequence decodes, and to what, is outside the model.
- The diagnostic `print` in `extractWithFailures` is left out; it has no effect on the data.
- The registry singleton `FrameProcessorRegistry.instance` is passed explicitly.
  - The registry is a parameter of the extractor.
  - Its list of processors is a parameter of the CHAP decoding.
- `ID3Frame` and `FrameProcessor` are open protocols in Swift. The model closes them.
  - Processors are the four built-in kinds plus the fallback.
  - `add` can register only these kinds.
- The CHAP processor's re-entry into the registry is in module FrameProcessing. Module ChapterFrame reads the fixed fields. This avoids a module cycle.
- ID3Tag.SplitFrames: the model does not follow the splitter past the overflow trap of `i += 10 + frameSize`.
  - Swift's checked `UInt32` addition traps there.
  - The splitter and `read` require `SplitSafe` and `ReadSafe` instead.
  - ID3Tag.Split, ID3Tag.ReadTagAt and the round-trip lemmas are defined on every input, including ones on which Swift traps.
  - ReadTagRoundTrip and CounterOverflow state when such a trap happens.
- Swift strings are modelled as sequences of Unicode scalars.
  - `String.count` in Swift counts grapheme clusters. It differs from the scalar count only where a CR is followed by an LF, which counts once.
  - ID3Utils.ToString and the frame ids built from bytes are therefore stated as scalar sequences, one per byte.
- ID3Tag.ExtendedHeaderEnd: the extended-header skip is modelled as written. It is unreachable, because the flag is never set.
- The `CustomStringConvertible` descriptions of the frame types are presentation only.
- TextInformationFrame.Supports: its contract states only that a supported id has four characters and starts with 'T'. Which nine ids are supported is stated by FrameProcessing.LookupBuiltIn.
