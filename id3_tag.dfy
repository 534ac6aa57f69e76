/**
 * The ID3v2.3 tag header decoder and the raw frame splitter
 * (Source/ID3Tag.swift).
 *
 * The byte source is an in-memory byte sequence with a read cursor. Like the
 * Swift code, which allocates a zero-filled buffer and lets `read` fill what
 * it can, a read past the end of the data yields zero bytes.
 */
module ID3Tag {
  import opened Wrappers
  import opened ID3Utils

  /** `ID3TagFrame`: one undecoded frame of the tag body. */
  datatype RawFrame = RawFrame(id: string, size: UInt32, content: seq<Byte>, flags: seq<Byte>)

  /** `ID3Version`. */
  datatype Version = Version(major: Byte, minor: Byte)

  /** `ID3Identifier`: the decoded tag header. */
  datatype Identifier = Identifier(version: Version, size: UInt32, extendedHeader: bool)

  /** `ID3Tag`: the header together with the raw frames of the body. */
  datatype Tag = Tag(identifier: Identifier, rawFrames: seq<RawFrame>)

  const ID3_MAGIC: string := "ID3"
  const V3: Byte := 3

  // Field lengths of the tag header.
  const LEN_ID: nat := 3
  const LEN_VERSION: nat := 2
  const LEN_FLAGS: nat := 1
  const LEN_SIZE: nat := 4
  const LEN_EXTENDED_HEADER: nat := 4

  // Field lengths of a frame header.
  const LEN_FRAME_ID: nat := 4
  const LEN_FRAME_SIZE: nat := 4
  const LEN_FRAME_FLAGS: nat := 2

  /** The bytes of "ID3". */
  const MAGIC_BYTES: seq<Byte> := [0x49, 0x44, 0x33]

  // ---------------------------------------------------------------------
  // The byte source
  // ---------------------------------------------------------------------

  function Zeros(n: nat): (z: seq<Byte>)
    ensures |z| == n
    ensures forall k :: 0 <= k < n ==> z[k] == 0
  {
    if n == 0 then [] else [0] + Zeros(n - 1)
  }

  /**
   * What a zero-filled buffer of n bytes holds after `read(&buffer, n)` at
   * position pos: the data's bytes from pos while there are any, then the
   * buffer's initial zeros.
   */
  function Window(data: seq<Byte>, pos: nat, n: nat): (w: seq<Byte>)
    ensures |w| == n
  {
    if pos + n <= |data| then data[pos..pos + n]
    else if pos <= |data| then data[pos..] + Zeros(pos + n - |data|)
    else Zeros(n)
  }

  /** The read position after reading n bytes at pos. */
  function Advance(data: seq<Byte>, pos: nat, n: nat): (p: nat)
    requires pos <= |data|
    ensures pos <= p <= |data|
  {
    Min(pos + n, |data|)
  }

  /** Byte k of a read holds the data's byte, or zero past the end. */
  lemma WindowAt(data: seq<Byte>, pos: nat, n: nat)
    ensures forall k :: 0 <= k < n ==>
      Window(data, pos, n)[k] == if pos + k < |data| then data[pos + k] else 0
  {
  }

  /** Two reads in a row see the same bytes as one read of both lengths. */
  lemma WindowConcat(data: seq<Byte>, pos: nat, a: nat, b: nat)
    requires pos <= |data|
    ensures Window(data, pos, a + b) == Window(data, pos, a) + Window(data, Advance(data, pos, a), b)
    ensures Advance(data, Advance(data, pos, a), b) == Advance(data, pos, a + b)
  {
    var p := Advance(data, pos, a);
    WindowAt(data, pos, a + b);
    WindowAt(data, pos, a);
    WindowAt(data, p, b);
    forall k | 0 <= k < b
      ensures Window(data, pos, a + b)[a + k] == Window(data, p, b)[k]
    {
    }
  }

  /** A read-once byte source: the data and the position of the next read. */
  class InputStream {
    const data: seq<Byte>
    var pos: nat

    ghost predicate Valid()
      reads this
    {
      pos <= |data|
    }

    constructor (data: seq<Byte>)
      ensures Valid() && this.data == data && pos == 0
    {
      this.data := data;
      pos := 0;
    }

    /** Reads n bytes into a fresh zero-filled buffer. */
    method Read(n: nat) returns (buffer: seq<Byte>)
      requires Valid()
      modifies this
      ensures Valid()
      ensures buffer == Window(data, old(pos), n)
      ensures pos == Advance(data, old(pos), n)
    {
      buffer := Window(data, pos, n);
      pos := Min(pos + n, |data|);
    }
  }

  // ---------------------------------------------------------------------
  // The tag header (ID3Identifier.init?)
  // ---------------------------------------------------------------------

  /** `flag & 0b0100_0000`: either 0x40 or 0. */
  function MaskExtendedHeader(flag: Byte): (m: Byte)
    ensures m == 0 || m == 0x40
  {
    if (flag / 0x40) % 2 == 1 then 0x40 else 0
  }

  /**
   * The test the source writes: the masked flag compared with 1. The mask
   * gives 0 or 0x40, so the flag never holds, whatever the flag byte.
   */
  function ExtendedHeaderFlag(flag: Byte): (b: bool)
    ensures !b
  {
    MaskExtendedHeader(flag) == 1
  }

  /**
   * The position after the extended header, when present is true. The
   * source reads four bytes into a buffer it then ignores, takes the
   * extended header's size from the tag size bytes instead, and skips that
   * size minus four bytes; a size below four would trap when the skip buffer
   * is allocated.
   */
  function ExtendedHeaderEnd(data: seq<Byte>, pos: nat, present: bool, sizeBytes: seq<Byte>): (p: nat)
    requires pos <= |data| && |sizeBytes| == 4
    requires present ==> TagSize(sizeBytes).value >= LEN_EXTENDED_HEADER
    ensures pos <= p <= |data|
    ensures !present ==> p == pos
  {
    if !present then pos
    else
      var p1 := Advance(data, pos, LEN_EXTENDED_HEADER);
      var extendedHeaderSize := TagSizeOf(sizeBytes[0], sizeBytes[1], sizeBytes[2], sizeBytes[3]);
      Advance(data, p1, extendedHeaderSize - LEN_EXTENDED_HEADER)
  }

  /** What the header decoder returns, and where it leaves the stream. */
  datatype HeaderRead = HeaderRead(identifier: Option<Identifier>, next: nat)

  /** The specification of `ID3Identifier.init?`. */
  function ParseIdentifier(data: seq<Byte>, pos: nat): (h: HeaderRead)
    requires pos <= |data|
    ensures pos <= h.next <= |data|
  {
    var id := Window(data, pos, LEN_ID);
    var p1 := Advance(data, pos, LEN_ID);
    if AsString(id) != ID3_MAGIC then HeaderRead(None, p1)
    else
      var version := Window(data, p1, LEN_VERSION);
      var p2 := Advance(data, p1, LEN_VERSION);
      if version[0] != V3 then HeaderRead(None, p2)
      else
        var flag := Window(data, p2, LEN_FLAGS);
        var p3 := Advance(data, p2, LEN_FLAGS);
        var extendedHeader := ExtendedHeaderFlag(flag[0]);
        var size := Window(data, p3, LEN_SIZE);
        var p4 := Advance(data, p3, LEN_SIZE);
        var tagSize := TagSizeOf(size[0], size[1], size[2], size[3]);
        var p5 := ExtendedHeaderEnd(data, p4, extendedHeader, size);
        HeaderRead(Some(Identifier(Version(version[0], version[1]), tagSize, extendedHeader)), p5)
  }

  /** "ID3" is the string of exactly the magic bytes. */
  lemma MagicString(id: seq<Byte>)
    ensures AsString(id) == ID3_MAGIC <==> id == MAGIC_BYTES
  {
    assert AsString(MAGIC_BYTES) == ID3_MAGIC;
    if AsString(id) == ID3_MAGIC {
      AsStringInjective(id, MAGIC_BYTES);
    }
  }

  /**
   * The header decoder in terms of the ten bytes h that zero-filled buffers
   * see at pos: a header comes back exactly when h starts with "ID3" and
   * major version 3. It then holds the version h[3], h[4] and the tag size of
   * h[6..10]; the extended-header flag is false whatever the flag byte h[5]
   * is, so exactly the ten header bytes (or what is left of the data) are
   * consumed.
   */
  lemma ParseIdentifierSpec(data: seq<Byte>, pos: nat)
    requires pos <= |data|
    ensures var h := Window(data, pos, 10);
            var r := ParseIdentifier(data, pos);
            (r.identifier.Some? <==> h[..3] == MAGIC_BYTES && h[3] == V3) &&
            (r.identifier.Some? ==>
               r.identifier.value == Identifier(Version(h[3], h[4]), TagSizeOf(h[6], h[7], h[8], h[9]), false) &&
               r.next == Advance(data, pos, 10))
  {
    var p1 := Advance(data, pos, LEN_ID);
    var p2 := Advance(data, p1, LEN_VERSION);
    var p3 := Advance(data, p2, LEN_FLAGS);
    WindowConcat(data, pos, 3, 7);
    WindowConcat(data, p1, 2, 5);
    WindowConcat(data, p2, 1, 4);
    MagicString(Window(data, pos, LEN_ID));
  }

  /**
   * The `if extendedHeader { … }` block of the header decoder, with the
   * flag passed in.
   */
  method SkipExtendedHeader(stream: InputStream, present: bool, size: seq<Byte>)
    requires stream.Valid() && |size| == 4
    requires present ==> TagSize(size).value >= LEN_EXTENDED_HEADER
    modifies stream
    ensures stream.Valid()
    ensures stream.pos == ExtendedHeaderEnd(stream.data, old(stream.pos), present, size)
  {
    if present {
      var extendedHeaderSizeBuffer := stream.Read(LEN_EXTENDED_HEADER);
      var extendedHeaderSize := TagSizeOf(size[0], size[1], size[2], size[3]);
      var dump := stream.Read(extendedHeaderSize - LEN_EXTENDED_HEADER);
    }
  }

  /** `ID3Identifier.init?`: reads the 10-byte header off the stream. */
  method ReadIdentifier(stream: InputStream) returns (r: Option<Identifier>)
    requires stream.Valid()
    modifies stream
    ensures stream.Valid()
    ensures HeaderRead(r, stream.pos) == ParseIdentifier(stream.data, old(stream.pos))
  {
    var identifier := stream.Read(LEN_ID);
    var idString := ToString(identifier);
    if ID3_MAGIC != idString {
      return None;
    }

    var version := stream.Read(LEN_VERSION);
    if version[0] != V3 {
      return None;
    }

    var flag := stream.Read(LEN_FLAGS);
    var extendedHeader := ExtendedHeaderFlag(flag[0]);

    var size := stream.Read(LEN_SIZE);
    var tagSize := TagSizeOf(size[0], size[1], size[2], size[3]);

    SkipExtendedHeader(stream, extendedHeader, size);
    r := Some(Identifier(Version(version[0], version[1]), tagSize, extendedHeader));
  }

  // ---------------------------------------------------------------------
  // The raw frame splitter (ID3Content.init)
  // ---------------------------------------------------------------------

  /** The bytes a frame header and its content occupy. */
  function FrameLength(f: RawFrame): (n: nat)
  {
    LEN_FRAME_ID + LEN_FRAME_SIZE + LEN_FRAME_FLAGS + f.size
  }

  /** The splitter's counter after reading the given frames. */
  function Consumed(frames: seq<RawFrame>): (n: nat)
  {
    if frames == [] then 0 else Consumed(frames[..|frames| - 1]) + FrameLength(frames[|frames| - 1])
  }

  /** A frame header and content read at pos, and the position after them. */
  datatype FrameRead = FrameRead(frame: RawFrame, next: nat)

  /**
   * One pass of the splitter loop body at position pos: the frame id, the
   * plain frame size, then (unless that size is zero, which ends splitting)
   * the two flag bytes and the content.
   */
  function ReadFrame(data: seq<Byte>, pos: nat): (r: Option<FrameRead>)
    requires pos <= |data|
    ensures r.Some? ==> pos <= r.value.next <= |data|
    ensures r.Some? ==> WellFormedFrame(r.value.frame)
  {
    var idBytes := Window(data, pos, LEN_FRAME_ID);
    var p1 := Advance(data, pos, LEN_FRAME_ID);
    var sizeBytes := Window(data, p1, LEN_FRAME_SIZE);
    var p2 := Advance(data, p1, LEN_FRAME_SIZE);
    var frameSize := FrameSizeOf(sizeBytes[0], sizeBytes[1], sizeBytes[2], sizeBytes[3]);
    if frameSize == 0 then None
    else
      var flags := Window(data, p2, LEN_FRAME_FLAGS);
      var p3 := Advance(data, p2, LEN_FRAME_FLAGS);
      var content := Window(data, p3, frameSize);
      Some(FrameRead(RawFrame(AsString(idBytes), frameSize, content, flags), Advance(data, p3, frameSize)))
  }

  /**
   * One splitter step in terms of the ten header bytes h that zero-filled
   * buffers see at pos: it stops exactly when the plain frame size in
   * h[4..8] is zero; otherwise the frame has the id h[0..4], that size, the
   * flags h[8..10] and the size bytes after the header as content, and the
   * next step starts after them.
   */
  lemma ReadFrameSpec(data: seq<Byte>, pos: nat)
    requires pos <= |data|
    ensures var h := Window(data, pos, 10);
            var size := FrameSizeOf(h[4], h[5], h[6], h[7]);
            (ReadFrame(data, pos).None? <==> size == 0) &&
            (size != 0 ==>
               var body := Advance(data, pos, 10);
               ReadFrame(data, pos)
               == Some(FrameRead(RawFrame(AsString(h[..4]), size, Window(data, body, size), h[8..]), Advance(data, body, size))))
  {
    var p1 := Advance(data, pos, LEN_FRAME_ID);
    var p2 := Advance(data, p1, LEN_FRAME_SIZE);
    WindowConcat(data, pos, 4, 6);
    WindowConcat(data, p1, 4, 2);
    var h := Window(data, pos, 10);
    assert h[..4] == Window(data, pos, LEN_FRAME_ID);
    assert h[4..8] == Window(data, p1, LEN_FRAME_SIZE);
    assert h[8..] == Window(data, p2, LEN_FRAME_FLAGS);
    assert Advance(data, pos, 10) == Advance(data, p2, LEN_FRAME_FLAGS);
  }

  /**
   * The specification of the splitter loop: the frames read from position
   * pos while the counter i is below the declared size, stopping at the
   * first zero frame size.
   */
  function Split(data: seq<Byte>, pos: nat, size: UInt32, i: nat): (frames: seq<RawFrame>)
    requires pos <= |data|
    decreases size - i, 1
  {
    if i >= size then [] else SplitAfter(data, size, i, ReadFrame(data, pos))
  }

  function SplitAfter(data: seq<Byte>, size: UInt32, i: nat, read: Option<FrameRead>): (frames: seq<RawFrame>)
    requires i < size
    requires read.Some? ==> read.value.next <= |data|
    decreases size - i, 0
  {
    match read
    case None => []
    case Some(r) => [r.frame] + Split(data, r.next, size, i + FrameLength(r.frame))
  }

  /**
   * The splitter's counter is a UInt32, so `i += 10 + frameSize` traps once
   * the sum passes 2^32 - 1, whatever the declared size. SplitSafe holds
   * when no step of the split from pos, with the counter at i, traps.
   */
  predicate SplitSafe(data: seq<Byte>, pos: nat, size: UInt32, i: nat)
    requires pos <= |data|
    decreases size - i, 1
  {
    i >= size || SafeAfter(data, size, i, ReadFrame(data, pos))
  }

  predicate SafeAfter(data: seq<Byte>, size: UInt32, i: nat, read: Option<FrameRead>)
    requires i < size
    requires read.Some? ==> read.value.next <= |data|
    decreases size - i, 0
  {
    match read
    case None => true
    case Some(r) =>
      && i + FrameLength(r.frame) < UINT32_MODULUS
      && SplitSafe(data, r.next, size, i + FrameLength(r.frame))
  }

  /** Where a step that finds a zero frame size leaves the stream: past the id and the size. */
  function StopEnd(data: seq<Byte>, pos: nat): (end: nat)
    requires pos <= |data|
    ensures pos <= end <= |data|
  {
    Advance(data, Advance(data, pos, LEN_FRAME_ID), LEN_FRAME_SIZE)
  }

  /** The stop moves the stream eight bytes on, or to the end of the data when fewer are left. */
  lemma StopEndValue(data: seq<Byte>, pos: nat)
    requires pos <= |data|
    ensures StopEnd(data, pos) == if pos + 8 <= |data| then pos + 8 else |data|
  {
  }

  /**
   * Where splitting from pos, with the counter at i, leaves the stream: at
   * pos once the counter reaches the size, past the id and size of a step
   * that finds a zero frame size, and otherwise where the rest of the split
   * leaves it after the frame read.
   */
  function SplitEnd(data: seq<Byte>, pos: nat, size: UInt32, i: nat): (end: nat)
    requires pos <= |data|
    ensures pos <= end <= |data|
    decreases size - i, 1
  {
    if i >= size then pos else SplitEndAfter(data, pos, size, i, ReadFrame(data, pos))
  }

  function SplitEndAfter(data: seq<Byte>, pos: nat, size: UInt32, i: nat, read: Option<FrameRead>): (end: nat)
    requires pos <= |data| && i < size
    requires read.Some? ==> pos <= read.value.next <= |data|
    ensures pos <= end <= |data|
    decreases size - i, 0
  {
    match read
    case None => StopEnd(data, pos)
    case Some(r) => SplitEnd(data, r.next, size, i + FrameLength(r.frame))
  }

  /** One step of SplitEnd below the size: a zero frame size stops it, a frame read moves it on. */
  lemma SplitEndStep(data: seq<Byte>, pos: nat, size: UInt32, i: nat)
    requires pos <= |data| && i < size
    ensures match ReadFrame(data, pos)
            case None => SplitEnd(data, pos, size, i) == StopEnd(data, pos)
            case Some(r) => SplitEnd(data, pos, size, i) == SplitEnd(data, r.next, size, i + FrameLength(r.frame))
  {
  }

  /** The splitter loop keeps `frames + Split(rest of the stream)` unchanged. */
  lemma SplitStep(data: seq<Byte>, pos: nat, size: UInt32, i: nat, frames: seq<RawFrame>, r: FrameRead)
    requires pos <= |data| && i < size && ReadFrame(data, pos) == Some(r)
    ensures (frames + [r.frame]) + Split(data, r.next, size, i + FrameLength(r.frame))
         == frames + Split(data, pos, size, i)
  {
    var rest := Split(data, r.next, size, i + FrameLength(r.frame));
    assert SplitAfter(data, size, i, Some(r)) == [r.frame] + rest;
    assert (frames + [r.frame]) + rest == frames + ([r.frame] + rest);
  }

  /** Splitting stops once the counter reaches the size or a step reads nothing. */
  lemma SplitEnds(data: seq<Byte>, pos: nat, size: UInt32, i: nat)
    requires pos <= |data|
    requires i >= size || ReadFrame(data, pos).None?
    ensures Split(data, pos, size, i) == []
  {
  }

  /** The splitter's counter is additive over consecutive runs of frames. */
  lemma {:induction false} ConsumedConcat(a: seq<RawFrame>, b: seq<RawFrame>)
    ensures Consumed(a + b) == Consumed(a) + Consumed(b)
    decreases |b|
  {
    if b == [] {
      assert a + b == a;
    } else {
      assert (a + b)[..|a + b| - 1] == a + b[..|b| - 1];
      ConsumedConcat(a, b[..|b| - 1]);
    }
  }

  /** The counter after some frames is the first frame's length plus the counter after the others. */
  lemma ConsumedFirst(frames: seq<RawFrame>)
    requires frames != []
    ensures Consumed(frames) == FrameLength(frames[0]) + Consumed(frames[1..])
  {
    assert frames == [frames[0]] + frames[1..];
    assert [frames[0]][..0] == [];
    ConsumedConcat([frames[0]], frames[1..]);
  }

  /** The shape every frame of a split has. */
  predicate WellFormedFrame(f: RawFrame)
  {
    |f.id| == LEN_FRAME_ID && f.size >= 1 && |f.content| == f.size && |f.flags| == LEN_FRAME_FLAGS
  }

  /**
   * Every frame the splitter stores has a four-character id, two flag
   * bytes and exactly `size` content bytes, and that size is at least one.
   */
  lemma {:induction false} SplitWellFormed(data: seq<Byte>, pos: nat, size: UInt32, i: nat)
    requires pos <= |data|
    ensures forall f :: f in Split(data, pos, size, i) ==> WellFormedFrame(f)
    decreases size - i
  {
    if i < size {
      match ReadFrame(data, pos)
      case None =>
      case Some(r) =>
        SplitWellFormed(data, r.next, size, i + FrameLength(r.frame));
    }
  }

  /**
   * The counter condition on a run of frames that starts with f: f starts
   * below the size, and so does every later frame once f's length is added.
   */
  lemma CounterStep(f: RawFrame, rest: seq<RawFrame>, i: nat, size: nat)
    ensures (forall k :: 0 <= k < |[f] + rest| ==> i + Consumed(([f] + rest)[..k]) < size)
        <==> (i < size && forall k :: 0 <= k < |rest| ==> i + FrameLength(f) + Consumed(rest[..k]) < size)
  {
    var frames := [f] + rest;
    assert frames[..0] == [];
    assert Consumed([f]) == FrameLength(f) by {
      assert [f][..0] == [];
    }
    forall k | 0 <= k < |rest|
      ensures Consumed(frames[..k + 1]) == FrameLength(f) + Consumed(rest[..k])
    {
      assert frames[..k + 1] == [f] + rest[..k];
      ConsumedConcat([f], rest[..k]);
    }
    if i < size && forall k :: 0 <= k < |rest| ==> i + FrameLength(f) + Consumed(rest[..k]) < size {
      forall k | 0 < k < |frames|
        ensures i + Consumed(frames[..k]) < size
      {
        assert Consumed(frames[..(k - 1) + 1]) == FrameLength(f) + Consumed(rest[..k - 1]);
      }
    }
  }

  /**
   * The frames, read from counter value i on, each start while the counter
   * is below size.
   */
  predicate StartsBelow(frames: seq<RawFrame>, i: nat, size: nat)
  {
    frames == [] || (i < size && StartsBelow(frames[1..], i + FrameLength(frames[0]), size))
  }

  /** StartsBelow is the counter condition frame by frame. */
  lemma {:induction false} StartsBelowCounter(frames: seq<RawFrame>, i: nat, size: nat)
    ensures StartsBelow(frames, i, size)
        <==> forall k :: 0 <= k < |frames| ==> i + Consumed(frames[..k]) < size
    decreases |frames|
  {
    if frames != [] {
      var f := frames[0];
      var rest := frames[1..];
      assert frames == [f] + rest;
      StartsBelowCounter(rest, i + FrameLength(f), size);
      CounterStep(f, rest, i, size);
    }
  }

  /**
   * Every stored frame was read while the counter, the starting value i plus
   * the lengths of the frames before it, was below the declared size.
   */
  lemma {:induction false} SplitCounterBelow(data: seq<Byte>, pos: nat, size: UInt32, i: nat)
    requires pos <= |data|
    ensures forall k :: 0 <= k < |Split(data, pos, size, i)| ==> i + Consumed(Split(data, pos, size, i)[..k]) < size
    decreases size - i
  {
    if i < size {
      match ReadFrame(data, pos)
      case None =>
      case Some(r) =>
        var i' := i + FrameLength(r.frame);
        var rest := Split(data, r.next, size, i');
        SplitCounterBelow(data, r.next, size, i');
        assert Split(data, pos, size, i) == [r.frame] + rest;
        CounterStep(r.frame, rest, i, size);
    }
  }

  /** A step that finds a zero frame size returns nothing. */
  lemma StepOnZeros(data: seq<Byte>, pos: nat)
    requires pos <= |data|
    requires Window(data, pos, 10)[4..8] == [0, 0, 0, 0]
    ensures ReadFrame(data, pos) == None
  {
    var p1 := Advance(data, pos, LEN_FRAME_ID);
    WindowConcat(data, pos, 4, 6);
    WindowConcat(data, p1, 4, 2);
    assert Window(data, p1, LEN_FRAME_SIZE) == [0, 0, 0, 0];
  }

  /** A zero frame size ends splitting at once, even below the declared size. */
  lemma SplitStopsOnZeroSize(data: seq<Byte>, pos: nat, size: UInt32, i: nat)
    requires pos <= |data|
    requires Window(data, pos, 10)[4..8] == [0, 0, 0, 0]
    ensures Split(data, pos, size, i) == []
  {
    StepOnZeros(data, pos);
  }

  /** An exhausted stream reads as zeros, so splitting stops there. */
  lemma SplitExhausted(data: seq<Byte>, size: UInt32, i: nat)
    ensures Split(data, |data|, size, i) == []
  {
    SplitPadding(data, |data|, size, i);
  }

  // ---------------------------------------------------------------------
  // The layout the splitter reads
  // ---------------------------------------------------------------------

  /** A frame that can be written out: well formed, with one-byte characters. */
  predicate Encodable(f: RawFrame)
  {
    WellFormedFrame(f) && forall k :: 0 <= k < |f.id| ==> f.id[k] as int < 256
  }

  /** The bytes of a string of one-byte characters. */
  function IdBytes(id: string): (b: seq<Byte>)
    requires forall k :: 0 <= k < |id| ==> id[k] as int < 256
    ensures AsString(b) == id
  {
    seq(|id|, k requires 0 <= k < |id| => id[k] as int)
  }

  /** A frame as it is laid out in a tag: id, big-endian size, flags, content. */
  function EncodeFrame(f: RawFrame): (b: seq<Byte>)
    requires Encodable(f)
    ensures |b| == FrameLength(f)
  {
    IdBytes(f.id) + BigEndian(f.size) + f.flags + f.content
  }

  function EncodeFrames(frames: seq<RawFrame>): (b: seq<Byte>)
    requires forall f :: f in frames ==> Encodable(f)
  {
    if frames == [] then [] else EncodeFrame(frames[0]) + EncodeFrames(frames[1..])
  }

  /** Splitting stops on zero padding, and on an exhausted stream. */
  lemma SplitPadding(data: seq<Byte>, pos: nat, size: UInt32, i: nat)
    requires pos <= |data|
    requires forall j :: pos <= j < |data| ==> data[j] == 0
    ensures Split(data, pos, size, i) == []
  {
    WindowAt(data, pos, 10);
    assert Window(data, pos, 10)[4..8] == [0, 0, 0, 0];
    SplitStopsOnZeroSize(data, pos, size, i);
  }

  /** What follows a prefix of the unread data. */
  lemma SliceAfter(data: seq<Byte>, pos: nat, a: seq<Byte>, b: seq<Byte>)
    requires pos <= |data| && data[pos..] == a + b
    ensures pos + |a| <= |data| && data[pos + |a|..] == b
  {
    assert data[pos + |a|..] == data[pos..][|a|..];
  }

  /** One splitter step over a laid-out frame reads that frame back. */
  lemma ReadEncodedFrame(data: seq<Byte>, pos: nat, f: RawFrame)
    requires Encodable(f) && pos + FrameLength(f) <= |data|
    requires data[pos..pos + FrameLength(f)] == EncodeFrame(f)
    ensures ReadFrame(data, pos) == Some(FrameRead(f, pos + FrameLength(f)))
  {
    var e := EncodeFrame(f);
    var h := Window(data, pos, 10);
    assert h == e[..10];
    assert h[..4] == IdBytes(f.id);
    assert h[4..8] == BigEndian(f.size);
    assert h[8..] == f.flags;
    FrameSizeRoundTrip(f.size);
    ReadFrameSpec(data, pos);
    assert Window(data, pos + 10, f.size) == f.content;
  }

  /** Several laid-out frames start with the first of them. */
  lemma LaidOutHead(frames: seq<RawFrame>, padding: seq<Byte>)
    requires frames != [] && forall f :: f in frames ==> Encodable(f)
    ensures EncodeFrames(frames) + padding == EncodeFrame(frames[0]) + (EncodeFrames(frames[1..]) + padding)
  {
  }

  /** The frames laid out one after the other from pos, then the padding. */
  predicate LaidOut(data: seq<Byte>, pos: nat, frames: seq<RawFrame>, padding: seq<Byte>)
    decreases |frames|
  {
    if frames == [] then pos <= |data| && data[pos..] == padding
    else
      var f := frames[0];
      Encodable(f) && pos + FrameLength(f) <= |data| && data[pos..pos + FrameLength(f)] == EncodeFrame(f)
      && LaidOut(data, pos + FrameLength(f), frames[1..], padding)
  }

  lemma {:induction false} LaidOutFrames(data: seq<Byte>, pos: nat, frames: seq<RawFrame>, padding: seq<Byte>)
    requires pos <= |data|
    requires forall f :: f in frames ==> Encodable(f)
    requires data[pos..] == EncodeFrames(frames) + padding
    ensures LaidOut(data, pos, frames, padding)
    decreases |frames|
  {
    if frames != [] {
      var f := frames[0];
      var tail := EncodeFrames(frames[1..]) + padding;
      LaidOutHead(frames, padding);
      SliceAfter(data, pos, EncodeFrame(f), tail);
      assert data[pos..pos + FrameLength(f)] == data[pos..][..FrameLength(f)];
      LaidOutFrames(data, pos + FrameLength(f), frames[1..], padding);
    }
  }

  /**
   * The frames that consecutive splitter steps from pos return, the step
   * after the last one finding a zero frame size.
   */
  predicate ReadsFrames(data: seq<Byte>, pos: nat, frames: seq<RawFrame>)
    requires pos <= |data|
    decreases |frames|
  {
    match ReadFrame(data, pos)
    case None => frames == []
    case Some(r) => frames != [] && r.frame == frames[0] && ReadsFrames(data, r.next, frames[1..])
  }

  /** A step that reads f, followed by steps that read rest, reads f then rest. */
  lemma ReadsFramesCons(data: seq<Byte>, pos: nat, f: RawFrame, next: nat, rest: seq<RawFrame>)
    requires pos <= |data| && next <= |data|
    requires ReadFrame(data, pos) == Some(FrameRead(f, next)) && ReadsFrames(data, next, rest)
    ensures ReadsFrames(data, pos, [f] + rest)
  {
    assert ([f] + rest)[1..] == rest;
  }

  /** While every frame starts below the size, the splitter returns the frames the steps read. */
  lemma {:induction false} SplitReadsFrames(data: seq<Byte>, pos: nat, size: UInt32, i: nat, frames: seq<RawFrame>)
    requires pos <= |data|
    requires ReadsFrames(data, pos, frames) && StartsBelow(frames, i, size)
    ensures Split(data, pos, size, i) == frames
    decreases |frames|
  {
    match ReadFrame(data, pos)
    case None =>
    case Some(r) =>
      SplitReadsFrames(data, r.next, size, i + FrameLength(r.frame), frames[1..]);
      assert frames == [r.frame] + frames[1..];
  }

  /** A step over zero padding alone reads nothing. */
  lemma PaddingReadsNothing(data: seq<Byte>, pos: nat, padding: seq<Byte>)
    requires pos <= |data| && LaidOut(data, pos, [], padding)
    requires forall j :: 0 <= j < |padding| ==> padding[j] == 0
    ensures ReadFrame(data, pos).None?
  {
    assert forall j :: pos <= j < |data| ==> data[j] == padding[j - pos];
    WindowAt(data, pos, 10);
    StepOnZeros(data, pos);
  }

  /** The splitter steps over laid-out frames and zero padding read exactly those frames. */
  lemma {:induction false} EncodedReadsFrames(data: seq<Byte>, pos: nat, frames: seq<RawFrame>, padding: seq<Byte>)
    requires pos <= |data| && LaidOut(data, pos, frames, padding)
    requires forall j :: 0 <= j < |padding| ==> padding[j] == 0
    ensures ReadsFrames(data, pos, frames)
    decreases |frames|
  {
    if frames == [] {
      PaddingReadsNothing(data, pos, padding);
    } else {
      var next := pos + FrameLength(frames[0]);
      ReadEncodedFrame(data, pos, frames[0]);
      EncodedReadsFrames(data, next, frames[1..], padding);
      ReadsFramesCons(data, pos, frames[0], next, frames[1..]);
      assert frames == [frames[0]] + frames[1..];
    }
  }
  /**
   * Splitting a body of laid-out frames followed by zero padding (possibly
   * none) gives the frames back, provided each frame starts while the
   * counter is below the declared size.
   */
  lemma SplitEncodeFrames(data: seq<Byte>, pos: nat, size: UInt32, i: nat,
                          frames: seq<RawFrame>, padding: seq<Byte>)
    requires pos <= |data|
    requires forall f :: f in frames ==> Encodable(f)
    requires data[pos..] == EncodeFrames(frames) + padding
    requires forall j :: 0 <= j < |padding| ==> padding[j] == 0
    requires StartsBelow(frames, i, size)
    ensures Split(data, pos, size, i) == frames
  {
    LaidOutFrames(data, pos, frames, padding);
    EncodedReadsFrames(data, pos, frames, padding);
    SplitReadsFrames(data, pos, size, i, frames);
  }

  /**
   * Over frames the steps read, each starting below the size, no counter
   * addition traps exactly when the final counter fits in a UInt32.
   */
  lemma {:induction false} SafeReadsFrames(data: seq<Byte>, pos: nat, size: UInt32, i: nat, frames: seq<RawFrame>)
    requires pos <= |data| && i < UINT32_MODULUS
    requires ReadsFrames(data, pos, frames) && StartsBelow(frames, i, size)
    ensures SplitSafe(data, pos, size, i) <==> i + Consumed(frames) < UINT32_MODULUS
    decreases |frames|
  {
    match ReadFrame(data, pos)
    case None =>
    case Some(r) =>
      var f := frames[0];
      var rest := frames[1..];
      assert frames == [f] + rest;
      assert [f][..0] == [];
      ConsumedConcat([f], rest);
      if i + FrameLength(f) < UINT32_MODULUS {
        SafeReadsFrames(data, r.next, size, i + FrameLength(f), rest);
      }
  }

  /** Splitting laid-out frames and zero padding traps exactly when the frames' total length passes the UInt32 range. */
  lemma EncodedFramesSafe(data: seq<Byte>, pos: nat, size: UInt32, i: nat,
                          frames: seq<RawFrame>, padding: seq<Byte>)
    requires pos <= |data| && i < UINT32_MODULUS
    requires forall f :: f in frames ==> Encodable(f)
    requires data[pos..] == EncodeFrames(frames) + padding
    requires forall j :: 0 <= j < |padding| ==> padding[j] == 0
    requires StartsBelow(frames, i, size)
    ensures SplitSafe(data, pos, size, i) <==> i + Consumed(frames) < UINT32_MODULUS
  {
    LaidOutFrames(data, pos, frames, padding);
    EncodedReadsFrames(data, pos, frames, padding);
    SafeReadsFrames(data, pos, size, i, frames);
  }

  /** Below the size, a step that reads f and moves to next leaves the split's end unchanged. */
  lemma SplitEndRead(data: seq<Byte>, pos: nat, size: UInt32, i: nat, f: RawFrame, next: nat)
    requires pos <= |data| && i < size
    requires ReadFrame(data, pos) == Some(FrameRead(f, next))
    ensures next <= |data|
    ensures SplitEnd(data, pos, size, i) == SplitEnd(data, next, size, i + FrameLength(f))
  {
    SplitEndStep(data, pos, size, i);
  }

  /** Below the size, a step that finds a zero frame size ends the split past the id and the size. */
  lemma SplitEndStop(data: seq<Byte>, pos: nat, size: UInt32, i: nat)
    requires pos <= |data| && i < size
    requires ReadFrame(data, pos).None?
    ensures SplitEnd(data, pos, size, i) == StopEnd(data, pos)
  {
    SplitEndStep(data, pos, size, i);
  }

  /**
   * Where the split ends once it has read all the frames and stands at p:
   * there if the counter has reached the size, otherwise past the zero
   * frame size it finds next.
   */
  function BodyEnd(data: seq<Byte>, p: nat, reached: bool): (end: nat)
    requires p <= |data|
    ensures p <= end <= |data|
    ensures reached ==> end == p
  {
    if reached then p else StopEnd(data, p)
  }

  /**
   * Consecutive splitter steps from pos read the frames one after the other,
   * each step moving on by exactly the frame's length.
   */
  predicate StepsOver(data: seq<Byte>, pos: nat, frames: seq<RawFrame>)
    requires pos <= |data|
    decreases |frames|
  {
    frames == []
    || (pos + FrameLength(frames[0]) <= |data|
        && ReadFrame(data, pos) == Some(FrameRead(frames[0], pos + FrameLength(frames[0])))
        && StepsOver(data, pos + FrameLength(frames[0]), frames[1..]))
  }

  /** The splitter steps over laid-out frames move on frame by frame. */
  lemma {:induction false} LaidOutStepsOver(data: seq<Byte>, pos: nat, frames: seq<RawFrame>, padding: seq<Byte>)
    requires pos <= |data| && LaidOut(data, pos, frames, padding)
    ensures StepsOver(data, pos, frames)
    decreases |frames|
  {
    if frames != [] {
      ReadEncodedFrame(data, pos, frames[0]);
      LaidOutStepsOver(data, pos + FrameLength(frames[0]), frames[1..], padding);
    }
  }

  /** After laid-out frames come their padding bytes, at end. */
  lemma {:induction false} LaidOutPadding(data: seq<Byte>, pos: nat, frames: seq<RawFrame>, padding: seq<Byte>, end: nat)
    requires pos <= |data| && LaidOut(data, pos, frames, padding)
    requires end == pos + Consumed(frames)
    ensures end <= |data| && LaidOut(data, end, [], padding)
    decreases |frames|
  {
    if frames == [] {
      assert Consumed(frames) == 0;
    } else {
      ConsumedFirst(frames);
      LaidOutPadding(data, pos + FrameLength(frames[0]), frames[1..], padding, end);
    }
  }

  /**
   * Over frames read step by step, each starting below the size, the
   * splitter stops at end, right after the last frame, when the counter has
   * reached the size, and otherwise past the zero frame size that follows.
   */
  lemma {:induction false} StepsOverSplitEnd(data: seq<Byte>, pos: nat, size: UInt32, i: nat, frames: seq<RawFrame>,
                                            end: nat, reached: bool)
    requires pos <= |data| && end <= |data|
    requires end == pos + Consumed(frames) && reached == (i + Consumed(frames) >= size)
    requires StepsOver(data, pos, frames) && StartsBelow(frames, i, size)
    requires !reached ==> ReadFrame(data, end).None?
    ensures SplitEnd(data, pos, size, i) == BodyEnd(data, end, reached)
    decreases |frames|
  {
    if frames == [] {
      assert Consumed(frames) == 0;
      if i < size {
        SplitEndStop(data, end, size, i);
      }
    } else {
      var f := frames[0];
      ConsumedFirst(frames);
      SplitEndRead(data, pos, size, i, f, pos + FrameLength(f));
      StepsOverSplitEnd(data, pos + FrameLength(f), size, i + FrameLength(f), frames[1..], end, reached);
    }
  }

  /**
   * Over a body of laid-out frames and zero padding the splitter stops
   * right after the last frame when the counter has reached the size, and
   * otherwise eight bytes further on (or at the end of the data), past the
   * zero frame size.
   */
  lemma EncodedSplitEnd(data: seq<Byte>, pos: nat, size: UInt32, i: nat,
                        frames: seq<RawFrame>, padding: seq<Byte>, end: nat, reached: bool)
    requires pos <= |data|
    requires forall f :: f in frames ==> Encodable(f)
    requires data[pos..] == EncodeFrames(frames) + padding
    requires forall j :: 0 <= j < |padding| ==> padding[j] == 0
    requires StartsBelow(frames, i, size)
    requires end == pos + Consumed(frames) && reached == (i + Consumed(frames) >= size)
    ensures end <= |data|
    ensures SplitEnd(data, pos, size, i) == BodyEnd(data, end, reached)
  {
    LaidOutFrames(data, pos, frames, padding);
    LaidOutStepsOver(data, pos, frames, padding);
    LaidOutPadding(data, pos, frames, padding, end);
    PaddingReadsNothing(data, end, padding);
    StepsOverSplitEnd(data, pos, size, i, frames, end, reached);
  }


  /**
   * The body of the splitter loop: reads a frame id and size and, unless the
   * size is zero, the flags and the content. None stands for the `break` on
   * a zero frame size.
   */
  method ReadNextFrame(stream: InputStream) returns (frame: Option<RawFrame>)
    requires stream.Valid()
    modifies stream
    ensures stream.Valid()
    ensures match ReadFrame(stream.data, old(stream.pos))
            case None => frame == None && stream.pos == StopEnd(stream.data, old(stream.pos))
            case Some(r) => frame == Some(r.frame) && stream.pos == r.next
  {
    var frameIdBuffer := stream.Read(LEN_FRAME_ID);
    var frameId := ToString(frameIdBuffer);

    var sizeBuffer := stream.Read(LEN_FRAME_SIZE);
    var frameSize := FrameSizeOf(sizeBuffer[0], sizeBuffer[1], sizeBuffer[2], sizeBuffer[3]);

    if frameSize == 0 {
      return None;
    }

    var flagBuffer := stream.Read(LEN_FRAME_FLAGS);
    var contentBuffer := stream.Read(frameSize);

    frame := Some(RawFrame(frameId, frameSize, contentBuffer, flagBuffer));
  }

  /**
   * One turn of the splitter loop keeps `frames + Split(rest)` equal to the
   * whole split: a step that reads nothing ends it, a step that reads a
   * frame moves that frame from the split to the frames read so far.
   */
  lemma LoopStep(data: seq<Byte>, start: nat, size: UInt32, i: nat, frames: seq<RawFrame>,
                 all: seq<RawFrame>, next: Option<RawFrame>, pos: nat)
    requires start <= |data| && i < size && frames + Split(data, start, size, i) == all
    requires SplitSafe(data, start, size, i)
    requires match ReadFrame(data, start)
             case None => next == None
             case Some(r) => next == Some(r.frame) && pos == r.next
    ensures next.None? ==> frames == all
    ensures next.Some? ==> pos <= |data|
    ensures next.Some? ==> i + FrameLength(next.value) < UINT32_MODULUS
    ensures next.Some? ==> SplitSafe(data, pos, size, i + FrameLength(next.value))
    ensures next.Some? ==> (frames + [next.value]) + Split(data, pos, size, i + FrameLength(next.value)) == all
    ensures next.Some? ==> Consumed(frames + [next.value]) == Consumed(frames) + FrameLength(next.value)
  {
    match ReadFrame(data, start)
    case None =>
      SplitEnds(data, start, size, i);
      assert frames + [] == frames;
    case Some(r) =>
      SplitStep(data, start, size, i, frames, r);
      assert (frames + [r.frame])[..|frames|] == frames;
  }

  /**
   * One turn of the splitter loop keeps the split's end where it was: a step
   * that reads nothing has stopped there, a step that reads a frame leaves
   * the same end ahead.
   */
  lemma LoopEnd(data: seq<Byte>, start: nat, size: UInt32, i: nat, end: nat, next: Option<RawFrame>, pos: nat)
    requires start <= |data| && i < size && SplitEnd(data, start, size, i) == end
    requires match ReadFrame(data, start)
             case None => next == None && pos == StopEnd(data, start)
             case Some(r) => next == Some(r.frame) && pos == r.next
    ensures pos <= |data|
    ensures next.None? ==> pos == end
    ensures next.Some? ==> SplitEnd(data, pos, size, i + FrameLength(next.value)) == end
  {
    SplitEndStep(data, start, size, i);
  }

  /**
   * The `while i < size` loop of `ID3Content.init`: reads frames off the
   * stream until the counter reaches the declared size or a frame size is
   * zero. The counter is the sum of the lengths of the frames read; its
   * UInt32 addition traps unless SplitSafe holds.
   */
  method SplitFrames(stream: InputStream, size: UInt32) returns (frames: seq<RawFrame>)
    requires stream.Valid()
    requires SplitSafe(stream.data, stream.pos, size, 0)
    modifies stream
    ensures stream.Valid()
    ensures frames == Split(stream.data, old(stream.pos), size, 0)
    ensures stream.pos == SplitEnd(stream.data, old(stream.pos), size, 0)
  {
    ghost var all := Split(stream.data, stream.pos, size, 0);
    ghost var end := SplitEnd(stream.data, stream.pos, size, 0);
    frames := [];
    var i: UInt32 := 0;
    while i < size
      invariant stream.Valid()
      invariant i == Consumed(frames)
      invariant SplitSafe(stream.data, stream.pos, size, i)
      invariant frames + Split(stream.data, stream.pos, size, i) == all
      invariant SplitEnd(stream.data, stream.pos, size, i) == end
      decreases size - i
    {
      ghost var start := stream.pos;
      var next := ReadNextFrame(stream);
      LoopStep(stream.data, start, size, i, frames, all, next, stream.pos);
      LoopEnd(stream.data, start, size, i, end, next, stream.pos);
      if next.None? {
        break;
      }
      var frame := next.value;
      frames := frames + [frame];
      i := i + LEN_FRAME_ID + LEN_FRAME_SIZE + LEN_FRAME_FLAGS + frame.size;
    }
    if i >= size {
      SplitEnds(stream.data, stream.pos, size, i);
      assert frames + [] == frames;
    }
  }

  /** `ID3Content`: the raw frames of a tag body. */
  class ID3Content {
    var availableFrames: seq<RawFrame>

    /** Splits the body of the given declared size off the stream. */
    constructor (stream: InputStream, size: UInt32)
      requires stream.Valid()
      requires SplitSafe(stream.data, stream.pos, size, 0)
      modifies stream
      ensures stream.Valid()
      ensures availableFrames == Split(stream.data, old(stream.pos), size, 0)
      ensures stream.pos == SplitEnd(stream.data, old(stream.pos), size, 0)
    {
      var frames := SplitFrames(stream, size);
      availableFrames := frames;
    }

    /** `rawFrames`: the frames the splitter stored. */
    function RawFrames(): (frames: seq<RawFrame>)
      reads this
      ensures frames == availableFrames
    {
      availableFrames
    }
  }

  // ---------------------------------------------------------------------
  // ID3Reader.read
  // ---------------------------------------------------------------------

  /** The specification of `ID3Reader.read`. */
  function ReadTagAt(data: seq<Byte>, pos: nat): (t: Option<Tag>)
    requires pos <= |data|
    ensures t.Some? <==> ParseIdentifier(data, pos).identifier.Some?
    ensures t.Some? ==> forall f :: f in t.value.rawFrames ==> WellFormedFrame(f)
  {
    var h := ParseIdentifier(data, pos);
    match h.identifier
    case None => None
    case Some(identifier) =>
      SplitWellFormed(data, h.next, identifier.size, 0);
      Some(Tag(identifier, Split(data, h.next, identifier.size, 0)))
  }

  /** `read` does not trap: when the header is accepted, no counter addition of the splitter overflows. */
  predicate ReadSafe(data: seq<Byte>, pos: nat)
    requires pos <= |data|
  {
    var h := ParseIdentifier(data, pos);
    h.identifier.Some? ==> SplitSafe(data, h.next, h.identifier.value.size, 0)
  }

  /** Where `read` leaves the stream: where the header decoder stopped, or where splitting the body stopped. */
  function ReadEnd(data: seq<Byte>, pos: nat): (end: nat)
    requires pos <= |data|
    ensures pos <= end <= |data|
  {
    var h := ParseIdentifier(data, pos);
    match h.identifier
    case None => h.next
    case Some(identifier) => SplitEnd(data, h.next, identifier.size, 0)
  }

  /** `ID3Reader.read`: the header, then the frames of the declared body size. */
  method Read(stream: InputStream) returns (tag: Option<Tag>)
    requires stream.Valid() && ReadSafe(stream.data, stream.pos)
    modifies stream
    ensures stream.Valid()
    ensures tag == ReadTagAt(stream.data, old(stream.pos))
    ensures stream.pos == ReadEnd(stream.data, old(stream.pos))
  {
    var id := ReadIdentifier(stream);
    if id.None? {
      return None;
    }
    var identifier := id.value;
    var content := new ID3Content(stream, identifier.size);
    tag := Some(Tag(identifier, content.RawFrames()));
  }

  /**
   * `read` returns a tag exactly when the header bytes h start with "ID3"
   * and major version 3 (so a stream that does not, including an empty one,
   * gives nil); the tag's body is split with the tag size of h[6..10] as the
   * declared size, right after the ten header bytes.
   */
  lemma ReadTagAtSpec(data: seq<Byte>, pos: nat)
    requires pos <= |data|
    ensures var h := Window(data, pos, 10);
            var t := ReadTagAt(data, pos);
            (t.Some? <==> h[..3] == MAGIC_BYTES && h[3] == V3) &&
            (t.Some? ==>
               var size := TagSizeOf(h[6], h[7], h[8], h[9]);
               t.value == Tag(Identifier(Version(h[3], h[4]), size, false), Split(data, Advance(data, pos, 10), size, 0)))
  {
    ParseIdentifierSpec(data, pos);
  }

  /** An empty stream holds no tag. */
  lemma EmptyInputNoTag()
    ensures ReadTagAt([], 0) == None
  {
    ReadTagAtSpec([], 0);
    assert Window([], 0, 10)[0] == 0;
  }

  /** A version 2.3 header with the given minor version, flag byte and declared size. */
  function EncodeHeader(minor: Byte, flags: Byte, size: nat): (b: seq<Byte>)
    requires size < 0x1000_0000
    ensures |b| == 10
  {
    MAGIC_BYTES + [V3, minor, flags] + Synchsafe(size)
  }

  /** The header decoder reads an encoded header back, flag byte ignored. */
  lemma ParseEncodedHeader(data: seq<Byte>, minor: Byte, flags: Byte, size: nat)
    requires size < 0x1000_0000
    requires |data| >= 10 && data[..10] == EncodeHeader(minor, flags, size)
    ensures ParseIdentifier(data, 0) == HeaderRead(Some(Identifier(Version(V3, minor), size, false)), 10)
  {
    var header := EncodeHeader(minor, flags, size);
    assert Window(data, 0, 10) == header;
    assert header[..3] == MAGIC_BYTES;
    SynchsafeRoundTrip(size);
    assert TagSizeOf(header[6], header[7], header[8], header[9]) == size;
    ParseIdentifierSpec(data, 0);
  }

  /** `read` assembles the header and the split body. */
  lemma ReadTagFromParts(data: seq<Byte>, identifier: Identifier, next: nat, frames: seq<RawFrame>)
    requires ParseIdentifier(data, 0) == HeaderRead(Some(identifier), next)
    requires next <= |data| && Split(data, next, identifier.size, 0) == frames
    ensures ReadTagAt(data, 0) == Some(Tag(identifier, frames))
  {
  }

  /** Reading a tag whose header parses ends where splitting its frames ends. */
  lemma ReadEndFromParts(data: seq<Byte>, identifier: Identifier, next: nat, end: nat)
    requires ParseIdentifier(data, 0) == HeaderRead(Some(identifier), next)
    requires next <= |data| && SplitEnd(data, next, identifier.size, 0) == end
    ensures ReadEnd(data, 0) == end
  {
  }

  /**
   * A header followed by laid-out frames and zero padding reads back as the
   * tag with that version and size and exactly those frames, whatever the
   * flag byte says, provided each frame starts below the declared size;
   * reading it does not trap exactly when the frames' total length fits in
   * a UInt32.
   */
  lemma ReadTagRoundTrip(minor: Byte, flags: Byte, size: nat, frames: seq<RawFrame>, padding: seq<Byte>)
    requires size < 0x1000_0000
    requires forall f :: f in frames ==> Encodable(f)
    requires forall j :: 0 <= j < |padding| ==> padding[j] == 0
    requires StartsBelow(frames, 0, size)
    ensures ReadTagAt(EncodeHeader(minor, flags, size) + EncodeFrames(frames) + padding, 0)
         == Some(Tag(Identifier(Version(V3, minor), size, false), frames))
    ensures ReadSafe(EncodeHeader(minor, flags, size) + EncodeFrames(frames) + padding, 0)
        <==> Consumed(frames) < UINT32_MODULUS
  {
    var header := EncodeHeader(minor, flags, size);
    var body := EncodeFrames(frames);
    var data := header + body + padding;
    assert data == header + (body + padding);
    assert data[..10] == header;
    ParseEncodedHeader(data, minor, flags, size);
    assert data[10..] == body + padding;
    SplitEncodeFrames(data, 10, size, 0, frames, padding);
    EncodedFramesSafe(data, 10, size, 0, frames, padding);
    ReadTagFromParts(data, Identifier(Version(V3, minor), size, false), 10, frames);
  }

  /** A header followed by a body: the header parses, and the body follows it. */
  lemma EncodedTagParts(minor: Byte, flags: Byte, size: nat, frames: seq<RawFrame>, padding: seq<Byte>, data: seq<Byte>)
    requires size < 0x1000_0000
    requires forall f :: f in frames ==> Encodable(f)
    requires data == EncodeHeader(minor, flags, size) + EncodeFrames(frames) + padding
    ensures |data| >= 10
    ensures ParseIdentifier(data, 0) == HeaderRead(Some(Identifier(Version(V3, minor), size, false)), 10)
    ensures data[10..] == EncodeFrames(frames) + padding
  {
    var header := EncodeHeader(minor, flags, size);
    var body := EncodeFrames(frames);
    assert data == header + (body + padding);
    assert data[..10] == header;
    ParseEncodedHeader(data, minor, flags, size);
    assert data[10..] == body + padding;
  }

  /**
   * Reading a header, laid-out frames and zero padding leaves the stream
   * right after the frames when their lengths reach the declared size, and
   * otherwise past the zero frame size that follows them.
   */
  lemma ReadEndRoundTrip(minor: Byte, flags: Byte, size: nat, frames: seq<RawFrame>, padding: seq<Byte>, data: seq<Byte>)
    requires size < 0x1000_0000
    requires forall f :: f in frames ==> Encodable(f)
    requires forall j :: 0 <= j < |padding| ==> padding[j] == 0
    requires StartsBelow(frames, 0, size)
    requires data == EncodeHeader(minor, flags, size) + EncodeFrames(frames) + padding
    ensures 10 + Consumed(frames) <= |data|
    ensures ReadEnd(data, 0) == BodyEnd(data, 10 + Consumed(frames), Consumed(frames) >= size)
  {
    EncodedTagParts(minor, flags, size, frames, padding, data);
    EncodedSplitEnd(data, 10, size, 0, frames, padding, 10 + Consumed(frames), Consumed(frames) >= size);
    ReadEndFromParts(data, Identifier(Version(V3, minor), size, false), 10,
                     BodyEnd(data, 10 + Consumed(frames), Consumed(frames) >= size));
  }

  // ---------------------------------------------------------------------
  // The tag layouts of the test suite
  // ---------------------------------------------------------------------

  /** "Hello" followed by the UTF-8 indicator, as the test helper lays it out. */
  const HELLO_CONTENT: seq<Byte> := [0x48, 0x65, 0x6C, 0x6C, 0x6F, 3]

  /** "World" followed by the UTF-8 indicator. */
  const WORLD_CONTENT: seq<Byte> := [0x57, 0x6F, 0x72, 0x6C, 0x64, 3]

  /** The layout of a test header: version 2.3.0, no flags, a small size. */
  lemma TestHeaderLayout(size: nat)
    requires size < 0x80
    ensures EncodeHeader(0, 0, size) == MAGIC_BYTES + [3, 0, 0] + [0, 0, 0, size]
  {
  }

  /** The layout of a test frame: a four-letter id, size 6, no flags. */
  lemma TestFrameLayout(id: string, content: seq<Byte>)
    requires |id| == 4 && |content| == 6
    requires forall k :: 0 <= k < 4 ==> id[k] as int < 256
    ensures Encodable(RawFrame(id, 6, content, [0, 0]))
    ensures EncodeFrame(RawFrame(id, 6, content, [0, 0])) == IdBytes(id) + [0, 0, 0, 6] + [0, 0] + content
  {
    assert BigEndian(6) == [0, 0, 0, 6];
  }

  /**
   * One TIT2 frame of 16 bytes under a declared size of 22, which overstates
   * the body: the stream runs out, reads as zeros, and splitting stops after
   * the one frame.
   */
  lemma OneFrameTag(data: seq<Byte>)
    requires data == (MAGIC_BYTES + [3, 0, 0] + [0, 0, 0, 22])
                     + ([0x54, 0x49, 0x54, 0x32] + [0, 0, 0, 6] + [0, 0] + HELLO_CONTENT)
    ensures ReadTagAt(data, 0)
         == Some(Tag(Identifier(Version(3, 0), 22, false), [RawFrame("TIT2", 6, HELLO_CONTENT, [0, 0])]))
    ensures ReadSafe(data, 0)
    ensures ReadEnd(data, 0) == |data|
  {
    var f := RawFrame("TIT2", 6, HELLO_CONTENT, [0, 0]);
    TestHeaderLayout(22);
    TestFrameLayout("TIT2", HELLO_CONTENT);
    assert IdBytes("TIT2") == [0x54, 0x49, 0x54, 0x32];
    assert [f][1..] == [];
    assert EncodeFrames([f]) == EncodeFrame(f);
    assert StartsBelow([f], 0, 22);
    var header := EncodeHeader(0, 0, 22);
    var body := EncodeFrames([f]);
    assert data == header + body + [];
    assert [f][..0] == [];
    ReadTagRoundTrip(0, 0, 22, [f], []);
    ReadEndRoundTrip(0, 0, 22, [f], [], data);
  }

  /** The body of the two-frame test. */
  lemma TwoFrameLayout(f1: RawFrame, f2: RawFrame)
    requires f1 == RawFrame("TIT2", 6, HELLO_CONTENT, [0, 0])
    requires f2 == RawFrame("XXXX", 6, WORLD_CONTENT, [0, 0])
    ensures Encodable(f1) && Encodable(f2)
    ensures EncodeFrames([f1, f2])
         == [0x54, 0x49, 0x54, 0x32] + [0, 0, 0, 6] + [0, 0] + HELLO_CONTENT
          + ([0x58, 0x58, 0x58, 0x58] + [0, 0, 0, 6] + [0, 0] + WORLD_CONTENT)
    ensures StartsBelow([f1, f2], 0, 44)
  {
    TestFrameLayout("TIT2", HELLO_CONTENT);
    TestFrameLayout("XXXX", WORLD_CONTENT);
    assert IdBytes("TIT2") == [0x54, 0x49, 0x54, 0x32];
    assert IdBytes("XXXX") == [0x58, 0x58, 0x58, 0x58];
    var frames := [f1, f2];
    assert frames[1..] == [f2] && [f2][1..] == [];
    assert EncodeFrames([f2]) == EncodeFrame(f2);
    assert StartsBelow([f2], 16, 44);
  }

  /** Two frames, TIT2 then XXXX, under a declared size of 44: both come back in order. */
  lemma TwoFrameTag(data: seq<Byte>)
    requires data == (MAGIC_BYTES + [3, 0, 0] + [0, 0, 0, 44])
                     + ([0x54, 0x49, 0x54, 0x32] + [0, 0, 0, 6] + [0, 0] + HELLO_CONTENT
                        + ([0x58, 0x58, 0x58, 0x58] + [0, 0, 0, 6] + [0, 0] + WORLD_CONTENT))
    ensures ReadTagAt(data, 0)
         == Some(Tag(Identifier(Version(3, 0), 44, false),
                     [RawFrame("TIT2", 6, HELLO_CONTENT, [0, 0]), RawFrame("XXXX", 6, WORLD_CONTENT, [0, 0])]))
    ensures ReadSafe(data, 0)
    ensures ReadEnd(data, 0) == |data|
  {
    var f1 := RawFrame("TIT2", 6, HELLO_CONTENT, [0, 0]);
    var f2 := RawFrame("XXXX", 6, WORLD_CONTENT, [0, 0]);
    TestHeaderLayout(44);
    TwoFrameLayout(f1, f2);
    var header := EncodeHeader(0, 0, 44);
    var body := EncodeFrames([f1, f2]);
    assert data == header + body + [];
    assert Consumed([f1]) == 16 by {
      assert [f1][..0] == [];
    }
    assert Consumed([f1, f2]) == 32 by {
      assert [f1, f2][..1] == [f1];
    }
    ReadTagRoundTrip(0, 0, 44, [f1, f2], []);
    ReadEndRoundTrip(0, 0, 44, [f1, f2], [], data);
  }

  /**
   * A frame whose size field reads 0xFFFFFFFF under a declared size of 1:
   * the header is accepted and the frame is read, but the counter addition
   * 0 + 10 + 0xFFFFFFFF passes the UInt32 range, so `read` traps there.
   */
  lemma CounterOverflow(data: seq<Byte>)
    requires data == (MAGIC_BYTES + [3, 0, 0] + [0, 0, 0, 1])
                     + ([0x41, 0x41, 0x41, 0x41] + [0xFF, 0xFF, 0xFF, 0xFF] + [0, 0])
    ensures ReadTagAt(data, 0).Some? && |ReadTagAt(data, 0).value.rawFrames| == 1
    ensures !ReadSafe(data, 0)
  {
    TestHeaderLayout(1);
    ParseEncodedHeader(data, 0, 0, 1);
    assert Window(data, 10, 10) == data[10..20];
    ReadFrameSpec(data, 10);
  }
}
