/**
 * CHAP frames, from the ID3v2 Chapter Frame Addendum (Source/ChapterFrame.swift):
 * an element id ended by a zero byte, four big-endian 32-bit positions, then
 * one embedded sub-frame given as a four-byte id, a big-endian size, two flag
 * bytes and its content.
 *
 * This module reads the fixed part of the layout. Handing the embedded
 * sub-frame back to the processor registry is part of module FrameProcessing,
 * which imports this one.
 */
module ChapterFrame {
  import opened Wrappers
  import opened ID3Utils
  import opened ID3Tag
  import opened ID3Frame

  /** Bytes per position, and per sub-frame id and size. */
  const LEN_POSITIONS: nat := 4

  function Supports(frameId: string): (b: bool)
    ensures b <==> frameId == "CHAP"
  {
    frameId == "CHAP"
  }

  /**
   * `ChapterFrame.init`: every field is stored as given, except that the end
   * time is set to the start time.
   */
  function NewChapterFrame(startTime: UInt32, endTime: UInt32, startOffset: UInt32, endOffset: UInt32,
                           subFrame: Option<Frame>): (f: Frame)
    ensures f.Chapter? && f.endTime == f.startTime == startTime
    ensures f.startOffset == startOffset && f.endOffset == endOffset && f.subFrame == subFrame
  {
    Chapter(startTime, startTime, startOffset, endOffset, subFrame)
  }

  /** What the processor reads from a CHAP frame before it turns to the sub-frame. */
  datatype Layout = Layout(elementId: seq<Byte>, startTime: UInt32, endTime: UInt32,
                           startOffset: UInt32, endOffset: UInt32, subFrameId: seq<Byte>,
                           subFrameSize: UInt32, subFrameContent: seq<Byte>)

  /** The bytes after the element id and the one byte dropped after it. */
  function AfterElementId(content: seq<Byte>): (r: seq<Byte>)
    ensures |r| == if ZeroFreeRun(content) < |content| then |content| - ZeroFreeRun(content) - 1 else 0
  {
    DropFirst(content[ZeroFreeRun(content)..])
  }

  /** What follows the element id is the content from just after its terminator on (nothing if there is none). */
  lemma AfterElementIdSlice(content: seq<Byte>)
    ensures AfterElementId(content) == content[Min(ZeroFreeRun(content) + 1, |content|)..]
  {
    var z := ZeroFreeRun(content);
    if z < |content| {
      assert content[z..][1..] == content[z + 1..];
    }
  }

  /**
   * Each of the five size reads needs four bytes (fewer make `frameSize`
   * index out of range), so the content must go on for at least 24 bytes
   * after the element id's terminator.
   */
  predicate Readable(content: seq<Byte>)
  {
    |AfterElementId(content)| >= 6 * LEN_POSITIONS
  }

  /** The four bytes at the front, read as a big-endian number. */
  function Word(r: seq<Byte>): (w: UInt32)
    requires |r| >= LEN_POSITIONS
  {
    FrameSize(r[..LEN_POSITIONS])
  }

  /** A word is the first four bytes read most significant first. */
  lemma WordValue(r: seq<Byte>)
    requires |r| >= LEN_POSITIONS
    ensures Word(r) == r[0] as int * 0x100_0000 + r[1] as int * 0x1_0000 + r[2] as int * 0x100 + r[3] as int
  {
  }

  /**
   * The processor's walk over the content: the zero-free run is the element
   * id, one byte is dropped, four numbers are read, then the sub-frame id and
   * size; two bytes (the sub-frame flags) are dropped and every byte left is
   * the sub-frame content.
   */
  function ReadLayout(content: seq<Byte>): (l: Layout)
    requires Readable(content)
    ensures |l.subFrameContent| + 6 * LEN_POSITIONS + 1 <= |content|
    ensures |l.subFrameId| == LEN_POSITIONS
  {
    var r0 := AfterElementId(content);
    var r1 := r0[LEN_POSITIONS..];
    var r2 := r1[LEN_POSITIONS..];
    var r3 := r2[LEN_POSITIONS..];
    var r4 := r3[LEN_POSITIONS..];
    var r5 := r4[LEN_POSITIONS..];
    var r6 := r5[LEN_POSITIONS..];
    Layout(content[..ZeroFreeRun(content)], Word(r0), Word(r1), Word(r2), Word(r3),
           r4[..LEN_POSITIONS], Word(r5), DropFirst(DropFirst(r6)))
  }

  /** Reading four bytes at a time from r, the k-th read starts at offset 4 * k of r. */
  lemma WordAt(r: seq<Byte>, k: nat)
    requires |r| >= LEN_POSITIONS * (k + 1)
    ensures r[LEN_POSITIONS * k..][..LEN_POSITIONS] == r[LEN_POSITIONS * k..LEN_POSITIONS * (k + 1)]
  {
  }

  /**
   * The numbers sit at fixed offsets after the element id's terminator: the
   * four positions at 0, 4, 8 and 12 and the sub-frame size at 20..24.
   */
  lemma LayoutNumbers(content: seq<Byte>)
    requires Readable(content)
    ensures var r := AfterElementId(content);
            var l := ReadLayout(content);
            && l.startTime == Word(r) && l.endTime == Word(r[4..])
            && l.startOffset == Word(r[8..]) && l.endOffset == Word(r[12..])
            && l.subFrameSize == Word(r[20..])
  {
    var r := AfterElementId(content);
    DropDrop(r, 4, 4);
    DropDrop(r, 8, 4);
    DropDrop(r, 12, 4);
    DropDrop(r, 16, 4);
  }

  /**
   * The byte runs: the element id is the zero-free run, the sub-frame id sits
   * at 16..20 after its terminator and the sub-frame content runs from 26 on
   * (nothing when fewer bytes remain).
   */
  lemma LayoutBytes(content: seq<Byte>)
    requires Readable(content)
    ensures var r := AfterElementId(content);
            var l := ReadLayout(content);
            && l.elementId == content[..ZeroFreeRun(content)]
            && l.subFrameId == r[16..20]
            && l.subFrameContent == r[Min(26, |r|)..]
  {
    var r := AfterElementId(content);
    DropDrop(r, 4, 4);
    DropDrop(r, 8, 4);
    DropDrop(r, 12, 4);
    DropDrop(r, 16, 4);
    DropDrop(r, 20, 4);
    DropDrop(r, 24, Min(1, |r| - 24));
    DropDrop(r, 24 + Min(1, |r| - 24), Min(1, |r| - 24 - Min(1, |r| - 24)));
    WordAt(r, 4);
  }

  /** `frameSize(nextBytes(&content, 4))!`: reads one big-endian number. */
  method ReadWord(content: seq<Byte>) returns (w: UInt32, rest: seq<Byte>)
    requires |content| >= LEN_POSITIONS
    ensures w == Word(content) && rest == content[LEN_POSITIONS..]
  {
    var bytes;
    bytes, rest := NextBytes(content, LEN_POSITIONS);
    w := FrameSize(bytes);
  }

  /**
   * The first part of the processor's `from`, up to the collection of the
   * sub-frame content. Content that is too short traps in the source.
   */
  method ReadFields(content: seq<Byte>) returns (l: Layout)
    requires Readable(content)
    ensures l == ReadLayout(content)
  {
    var elementIdBuffer, rest := PopUntilZero(content);
    rest := DropFirst(rest);
    var startTime, endTime, startOffset, endOffset, subFrameSize;
    startTime, rest := ReadWord(rest);
    endTime, rest := ReadWord(rest);
    startOffset, rest := ReadWord(rest);
    endOffset, rest := ReadWord(rest);
    var subFrameId;
    subFrameId, rest := NextBytes(rest, LEN_POSITIONS);
    subFrameSize, rest := ReadWord(rest);
    rest := DropFirst(DropFirst(rest));
    var subFrameContent := CopyBytes(rest);
    l := Layout(elementIdBuffer, startTime, endTime, startOffset, endOffset, subFrameId, subFrameSize, subFrameContent);
  }

  // ---------------------------------------------------------------------
  // The layout the processor reads
  // ---------------------------------------------------------------------

  /** A CHAP frame's content as the addendum lays it out. */
  function Encode(elementId: seq<Byte>, startTime: UInt32, endTime: UInt32, startOffset: UInt32,
                  endOffset: UInt32, subFrameId: seq<Byte>, subFrameSize: UInt32,
                  subFrameFlags: seq<Byte>, subFrameContent: seq<Byte>): (content: seq<Byte>)
  {
    elementId + ([0] + (BigEndian(startTime) + (BigEndian(endTime) + (BigEndian(startOffset) +
      (BigEndian(endOffset) + (subFrameId + (BigEndian(subFrameSize) + (subFrameFlags + subFrameContent))))))))
  }

  /** A number written big-endian in front of more bytes is read back, and the bytes after it are left. */
  lemma WordOf(n: UInt32, rest: seq<Byte>)
    ensures Word(BigEndian(n) + rest) == n
    ensures (BigEndian(n) + rest)[LEN_POSITIONS..] == rest
  {
    assert (BigEndian(n) + rest)[..LEN_POSITIONS] == BigEndian(n);
    FrameSizeRoundTrip(n);
  }

  /** The element id and its terminator are cut off as the processor does. */
  lemma ElementIdOf(elementId: seq<Byte>, rest: seq<Byte>)
    requires forall i :: 0 <= i < |elementId| ==> elementId[i] != 0
    ensures ZeroFreeRun(elementId + ([0] + rest)) == |elementId|
    ensures (elementId + ([0] + rest))[..|elementId|] == elementId
    ensures AfterElementId(elementId + ([0] + rest)) == rest
  {
    ZeroFreeRunOf(elementId, [0] + rest);
    CutAt(elementId, [0] + rest);
  }

  /** Two flag bytes in front of the sub-frame content are dropped. */
  lemma FlagsOf(flags: seq<Byte>, rest: seq<Byte>)
    requires |flags| == 2
    ensures DropFirst(DropFirst(flags + rest)) == rest
  {
    assert DropFirst(flags + rest) == flags[1..] + rest;
  }

  /**
   * A CHAP frame laid out with an element id free of zero bytes, a four-byte
   * sub-frame id and two flag bytes is read back field by field.
   */
  lemma ReadLayoutEncode(elementId: seq<Byte>, startTime: UInt32, endTime: UInt32, startOffset: UInt32,
                         endOffset: UInt32, subFrameId: seq<Byte>, subFrameSize: UInt32,
                         subFrameFlags: seq<Byte>, subFrameContent: seq<Byte>)
    requires forall i :: 0 <= i < |elementId| ==> elementId[i] != 0
    requires |subFrameId| == LEN_POSITIONS && |subFrameFlags| == 2
    ensures var content := Encode(elementId, startTime, endTime, startOffset, endOffset, subFrameId,
                                  subFrameSize, subFrameFlags, subFrameContent);
            Readable(content) &&
            ReadLayout(content) == Layout(elementId, startTime, endTime, startOffset, endOffset,
                                          subFrameId, subFrameSize, subFrameContent)
  {
    var r6 := subFrameFlags + subFrameContent;
    var r5 := BigEndian(subFrameSize) + r6;
    var r4 := subFrameId + r5;
    var r3 := BigEndian(endOffset) + r4;
    var r2 := BigEndian(startOffset) + r3;
    var r1 := BigEndian(endTime) + r2;
    var r0 := BigEndian(startTime) + r1;
    ElementIdOf(elementId, r0);
    WordOf(startTime, r1);
    WordOf(endTime, r2);
    WordOf(startOffset, r3);
    WordOf(endOffset, r4);
    CutAt(subFrameId, r5);
    WordOf(subFrameSize, r6);
    FlagsOf(subFrameFlags, subFrameContent);
  }
}
