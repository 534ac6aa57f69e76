/**
 * The processor registry, the frame container and the extractor of
 * Source/Frames.swift, together with the part of the CHAP processor that
 * hands the embedded sub-frame back to the registry.
 *
 * Frame processors are the values of a closed datatype: the four built-in
 * processors and the fallback that handles every id and decodes nothing.
 */
module FrameProcessing {
  import opened Wrappers
  import opened ID3Utils
  import opened ID3Tag
  import opened ID3Frame
  import TextInformationFrame
  import CommentFrame
  import AttachedPictureFrame
  import ChapterFrame

  datatype Processor =
    | ChapterProcessor
    | TextInformationProcessor
    | CommentProcessor
    | AttachedPictureProcessor
    /** `DefaultFrameHandler`: supports every id, decodes to nil. */
    | DefaultFrameHandler

  /** Each processor's `supports`. */
  function Supports(h: Processor, frameId: string): (b: bool)
    ensures h == DefaultFrameHandler ==> b
    ensures b && h != DefaultFrameHandler && h != TextInformationProcessor ==> frameId in {"CHAP", "COMM", "APIC"}
  {
    match h
    case ChapterProcessor => ChapterFrame.Supports(frameId)
    case TextInformationProcessor => TextInformationFrame.Supports(frameId)
    case CommentProcessor => CommentFrame.Supports(frameId)
    case AttachedPictureProcessor => AttachedPictureFrame.Supports(frameId)
    case DefaultFrameHandler => true
  }

  /** The processors the registry starts with, in the order it asks them. */
  const BUILT_IN: seq<Processor> := [ChapterProcessor, TextInformationProcessor, CommentProcessor, AttachedPictureProcessor]

  // ---------------------------------------------------------------------
  // Looking up a processor
  // ---------------------------------------------------------------------

  /** The index of the first processor that supports the id, or |handlers| when none does. */
  function FirstSupporting(handlers: seq<Processor>, frameId: string): (k: nat)
    ensures k <= |handlers|
    ensures k < |handlers| ==> Supports(handlers[k], frameId)
    ensures forall j :: 0 <= j < k ==> !Supports(handlers[j], frameId)
    decreases |handlers|
  {
    if |handlers| == 0 then 0
    else if Supports(handlers[0], frameId) then 0
    else 1 + FirstSupporting(handlers[1..], frameId)
  }

  /** `forFrameId`: the first processor that supports the id, else the fallback. */
  function Lookup(handlers: seq<Processor>, frameId: string): (h: Processor)
    ensures Supports(h, frameId)
  {
    var k := FirstSupporting(handlers, frameId);
    if k < |handlers| then handlers[k] else DefaultFrameHandler
  }

  /** Appending a processor moves the first supporting index only when no earlier processor supports the id. */
  lemma {:induction false} FirstSupportingAppend(handlers: seq<Processor>, h: Processor, frameId: string)
    ensures FirstSupporting(handlers + [h], frameId) ==
            if FirstSupporting(handlers, frameId) < |handlers| then FirstSupporting(handlers, frameId)
            else if Supports(h, frameId) then |handlers|
            else |handlers| + 1
    decreases |handlers|
  {
    if |handlers| == 0 {
      assert handlers + [h] == [h];
      assert [h][1..] == [];
    } else {
      assert (handlers + [h])[0] == handlers[0];
      assert (handlers + [h])[1..] == handlers[1..] + [h];
      FirstSupportingAppend(handlers[1..], h, frameId);
    }
  }

  /**
   * Registering a processor never changes the answer for an id some
   * earlier processor supports; for any other id the new processor is
   * chosen exactly when it supports the id.
   */
  lemma LookupAppend(handlers: seq<Processor>, h: Processor, frameId: string)
    ensures Lookup(handlers + [h], frameId) ==
            if FirstSupporting(handlers, frameId) < |handlers| then Lookup(handlers, frameId)
            else if Supports(h, frameId) then h
            else DefaultFrameHandler
  {
    FirstSupportingAppend(handlers, h, frameId);
    var k := FirstSupporting(handlers, frameId);
    if k < |handlers| {
      assert (handlers + [h])[k] == handlers[k];
    }
  }

  /** What the built-in processors handle: CHAP, the nine text ids, COMM and APIC; nothing else. */
  lemma LookupBuiltIn(frameId: string)
    ensures Lookup(BUILT_IN, frameId) ==
            if frameId == "CHAP" then ChapterProcessor
            else if frameId in TextInformationFrame.SUPPORTED_FRAMES then TextInformationProcessor
            else if frameId == "COMM" then CommentProcessor
            else if frameId == "APIC" then AttachedPictureProcessor
            else DefaultFrameHandler
  {
    assert BUILT_IN[1..] == [TextInformationProcessor, CommentProcessor, AttachedPictureProcessor];
    assert BUILT_IN[1..][1..] == [CommentProcessor, AttachedPictureProcessor];
    assert BUILT_IN[1..][1..][1..] == [AttachedPictureProcessor];
  }

  // ---------------------------------------------------------------------
  // Decoding one frame
  // ---------------------------------------------------------------------

  /** The raw frame the CHAP processor builds for its sub-frame: the decoded id, and flags of one zero byte. */
  function SubFrame(l: ChapterFrame.Layout, id: string): (raw: RawFrame)
    ensures raw.id == id && raw.size == l.subFrameSize && raw.content == l.subFrameContent
  {
    RawFrame(id, l.subFrameSize, l.subFrameContent, [0])
  }

  /**
   * The inputs on which the processor's `from` does not trap: COMM and
   * APIC pop an encoding byte, and CHAP needs its fixed fields, a sub-frame
   * id that decodes as UTF-8, and a sub-frame that does not trap either.
   */
  predicate CanDecode(handlers: seq<Processor>, h: Processor, raw: RawFrame, dec: Decoder): (b: bool)
    ensures h.TextInformationProcessor? || h.DefaultFrameHandler? ==> b
    ensures h.CommentProcessor? || h.AttachedPictureProcessor? ==> (b <==> |raw.content| >= 1)
    ensures h.ChapterProcessor? && b ==> ChapterFrame.Readable(raw.content)
    decreases |raw.content|
  {
    match h
    case CommentProcessor => |raw.content| >= 1
    case AttachedPictureProcessor => |raw.content| >= 1
    case ChapterProcessor =>
      && ChapterFrame.Readable(raw.content)
      && var l := ChapterFrame.ReadLayout(raw.content);
      && dec(UTF8, l.subFrameId).Some?
      && var id := dec(UTF8, l.subFrameId).value;
      CanDecode(handlers, Lookup(handlers, id), SubFrame(l, id), dec)
    case _ => true
  }

  /**
   * Each processor's `from`, with the registry's processors at hand for
   * the CHAP sub-frame.
   */
  function Decode(handlers: seq<Processor>, h: Processor, raw: RawFrame, dec: Decoder): (r: Option<Frame>)
    requires CanDecode(handlers, h, raw, dec)
    ensures h == DefaultFrameHandler ==> r.None?
    ensures h == TextInformationProcessor ==>
              && (r.None? <==> |raw.content| < 2)
              && (r.Some? ==> r.value.TextInformation? && r.value.frameId == raw.id)
    ensures h == CommentProcessor ==> r.Some? && r.value.Comment?
    ensures h == AttachedPictureProcessor ==> r.Some? && r.value.AttachedPicture?
    ensures h == ChapterProcessor ==> r.Some? && r.value.Chapter? && r.value.endTime == r.value.startTime
    decreases |raw.content|
  {
    match h
    case TextInformationProcessor => TextInformationFrame.From(raw, dec)
    case CommentProcessor => Some(CommentFrame.CommentOf(raw, dec))
    case AttachedPictureProcessor => Some(AttachedPictureFrame.PictureOf(raw, dec))
    case DefaultFrameHandler => None
    case ChapterProcessor =>
      var l := ChapterFrame.ReadLayout(raw.content);
      var id := dec(UTF8, l.subFrameId).value;
      var sub := Decode(handlers, Lookup(handlers, id), SubFrame(l, id), dec);
      Some(ChapterFrame.NewChapterFrame(l.startTime, l.endTime, l.startOffset, l.endOffset, sub))
  }

  /** `forFrameId(frame.id).from(frame)` does not trap. */
  predicate CanDecodeFrame(handlers: seq<Processor>, raw: RawFrame, dec: Decoder)
  {
    CanDecode(handlers, Lookup(handlers, raw.id), raw, dec)
  }

  /** `forFrameId(frame.id).from(frame)`. */
  function DecodeFrame(handlers: seq<Processor>, raw: RawFrame, dec: Decoder): (r: Option<Frame>)
    requires CanDecodeFrame(handlers, raw, dec)
    ensures r.Some? ==> Supports(Lookup(handlers, raw.id), raw.id) && Lookup(handlers, raw.id) != DefaultFrameHandler
  {
    Decode(handlers, Lookup(handlers, raw.id), raw, dec)
  }

  /** A frame whose id no registered processor supports is never decoded. */
  lemma UnsupportedNotDecoded(handlers: seq<Processor>, raw: RawFrame, dec: Decoder)
    requires forall h :: h in handlers ==> !Supports(h, raw.id)
    ensures CanDecodeFrame(handlers, raw, dec) && DecodeFrame(handlers, raw, dec).None?
  {
  }

  /**
   * A CHAP frame laid out by the addendum decodes to its start time (also
   * as its end time), its offsets and its sub-frame, whatever end time it
   * carries.
   */
  lemma DecodeChapter(handlers: seq<Processor>, raw: RawFrame, dec: Decoder,
                      elementId: seq<Byte>, startTime: UInt32, endTime: UInt32, startOffset: UInt32,
                      endOffset: UInt32, subFrameId: seq<Byte>, subFrameSize: UInt32,
                      subFrameFlags: seq<Byte>, subFrameContent: seq<Byte>, id: string)
    requires forall i :: 0 <= i < |elementId| ==> elementId[i] != 0
    requires |subFrameId| == ChapterFrame.LEN_POSITIONS && |subFrameFlags| == 2
    requires raw.content == ChapterFrame.Encode(elementId, startTime, endTime, startOffset, endOffset,
                                                  subFrameId, subFrameSize, subFrameFlags, subFrameContent)
    requires dec(UTF8, subFrameId) == Some(id)
    requires CanDecodeFrame(handlers, RawFrame(id, subFrameSize, subFrameContent, [0]), dec)
    ensures CanDecode(handlers, ChapterProcessor, raw, dec)
    ensures Decode(handlers, ChapterProcessor, raw, dec) ==
            Some(Chapter(startTime, startTime, startOffset, endOffset,
                         DecodeFrame(handlers, RawFrame(id, subFrameSize, subFrameContent, [0]), dec)))
  {
    ChapterFrame.ReadLayoutEncode(elementId, startTime, endTime, startOffset, endOffset,
                                  subFrameId, subFrameSize, subFrameFlags, subFrameContent);
  }

  // ---------------------------------------------------------------------
  // The registry
  // ---------------------------------------------------------------------

  /** `FrameProcessorRegistry`: the processors asked for a frame id, in order. */
  class FrameProcessorRegistry {
    var handlers: seq<Processor>

    /** The registry starts with the four built-in processors. */
    constructor ()
      ensures handlers == BUILT_IN
    {
      handlers := BUILT_IN;
    }

    /** `add`: registers a processor after all the others. */
    method Add(processor: Processor)
      modifies this
      ensures handlers == old(handlers) + [processor]
    {
      handlers := handlers + [processor];
    }

    /** `forFrameId`: asks the processors in order, falling back to the default handler. */
    method ForFrameId(frameId: string) returns (h: Processor)
      ensures h == Lookup(handlers, frameId)
    {
      for i := 0 to |handlers|
        invariant forall j :: 0 <= j < i ==> !Supports(handlers[j], frameId)
      {
        if Supports(handlers[i], frameId) {
          return handlers[i];
        }
      }
      return DefaultFrameHandler;
    }

    /** A processor's `from`. */
    method From(h: Processor, raw: RawFrame, dec: Decoder) returns (r: Option<Frame>)
      requires CanDecode(handlers, h, raw, dec)
      ensures r == Decode(handlers, h, raw, dec)
      decreases |raw.content|, 1
    {
      match h {
        case TextInformationProcessor =>
          r := TextInformationFrame.From(raw, dec);
        case CommentProcessor =>
          r := CommentFrame.From(raw, dec);
        case AttachedPictureProcessor =>
          r := AttachedPictureFrame.From(raw, dec);
        case DefaultFrameHandler =>
          r := None;
        case ChapterProcessor =>
          r := ChapterFrom(raw, dec);
      }
    }

    /**
     * The CHAP processor's `from`: reads the fixed fields, asks the registry
     * for the sub-frame's processor and decodes the sub-frame with it.
     */
    method ChapterFrom(raw: RawFrame, dec: Decoder) returns (r: Option<Frame>)
      requires CanDecode(handlers, ChapterProcessor, raw, dec)
      ensures r == Decode(handlers, ChapterProcessor, raw, dec)
      decreases |raw.content|, 0
    {
      var l := ChapterFrame.ReadFields(raw.content);
      var subFrameId := dec(UTF8, l.subFrameId);
      var processor := ForFrameId(subFrameId.value);
      var subFrame := From(processor, SubFrame(l, subFrameId.value), dec);
      r := Some(ChapterFrame.NewChapterFrame(l.startTime, l.endTime, l.startOffset, l.endOffset, subFrame));
    }
  }

  // ---------------------------------------------------------------------
  // The frame container
  // ---------------------------------------------------------------------

  /** The frames of a sequence that satisfy a filter, in their order. */
  function Filtered(p: Frame -> bool, frames: seq<Frame>): (r: seq<Frame>)
    ensures |r| <= |frames|
    decreases |frames|
  {
    if |frames| == 0 then []
    else Filtered(p, frames[..|frames| - 1]) + (if p(frames[|frames| - 1]) then [frames[|frames| - 1]] else [])
  }

  /** A frame is kept exactly when it is present and satisfies the filter. */
  lemma {:induction false} FilteredMembers(p: Frame -> bool, frames: seq<Frame>, f: Frame)
    ensures f in Filtered(p, frames) <==> f in frames && p(f)
    decreases |frames|
  {
    if |frames| > 0 {
      var init := frames[..|frames| - 1];
      FilteredMembers(p, init, f);
      assert frames == init + [frames[|frames| - 1]];
    }
  }

  /** Filtering a concatenation filters each part, keeping their order. */
  lemma {:induction false} FilteredConcat(p: Frame -> bool, a: seq<Frame>, b: seq<Frame>)
    ensures Filtered(p, a + b) == Filtered(p, a) + Filtered(p, b)
    decreases |b|
  {
    if |b| == 0 {
      assert a + b == a;
    } else {
      assert (a + b)[..|a + b| - 1] == a + b[..|b| - 1];
      FilteredConcat(p, a, b[..|b| - 1]);
    }
  }

  /** Filtering twice with the same filter keeps what filtering once kept. */
  lemma {:induction false} FilteredIdempotent(p: Frame -> bool, frames: seq<Frame>)
    ensures Filtered(p, Filtered(p, frames)) == Filtered(p, frames)
    decreases |frames|
  {
    if |frames| > 0 {
      var init := frames[..|frames| - 1];
      var last := frames[|frames| - 1];
      FilteredIdempotent(p, init);
      var tail := if p(last) then [last] else [];
      FilteredConcat(p, Filtered(p, init), tail);
      if p(last) {
        assert [last][..0] == [];
      }
    }
  }

  /** `Frames`: the decoded frames of a tag, in the order they were added. */
  class Frames {
    var frames: seq<Frame>

    constructor ()
      ensures frames == []
    {
      frames := [];
    }

    /** `add`: appends a frame. */
    method Add(frame: Frame)
      modifies this
      ensures frames == old(frames) + [frame]
    {
      frames := frames + [frame];
    }

    /** `filter`: a new container with the frames that satisfy the filter, in order. */
    method Filter(p: Frame -> bool) returns (filtered: Frames)
      ensures fresh(filtered)
      ensures filtered.frames == Filtered(p, frames)
    {
      filtered := new Frames();
      for i := 0 to |frames|
        invariant filtered.frames == Filtered(p, frames[..i])
      {
        assert frames[..i + 1][..i] == frames[..i];
        if p(frames[i]) {
          filtered.Add(frames[i]);
        }
      }
      assert frames[..|frames|] == frames;
    }

    /** `availableFrames`. */
    method AvailableFrames() returns (r: seq<Frame>)
      ensures r == frames
    {
      r := frames;
    }
  }

  // ---------------------------------------------------------------------
  // Extraction
  // ---------------------------------------------------------------------

  /** No raw frame makes its processor trap. */
  predicate AllDecodable(handlers: seq<Processor>, raws: seq<RawFrame>, dec: Decoder)
  {
    forall k :: 0 <= k < |raws| ==> CanDecodeFrame(handlers, raws[k], dec)
  }

  /** What `forFrameId(frame.id).from(frame)` gives for each raw frame, in order. */
  function Outcomes(handlers: seq<Processor>, raws: seq<RawFrame>, dec: Decoder): (r: seq<Option<Frame>>)
    requires AllDecodable(handlers, raws, dec)
    ensures |r| == |raws|
    ensures forall k :: 0 <= k < |raws| ==> r[k] == DecodeFrame(handlers, raws[k], dec)
    decreases |raws|
  {
    if |raws| == 0 then []
    else Outcomes(handlers, raws[..|raws| - 1], dec) + [DecodeFrame(handlers, raws[|raws| - 1], dec)]
  }

  /** The frames of the outcomes that are present, in order. */
  function Successes(outcomes: seq<Option<Frame>>): (r: seq<Frame>)
    ensures |r| <= |outcomes|
    decreases |outcomes|
  {
    if |outcomes| == 0 then []
    else
      Successes(outcomes[..|outcomes| - 1]) +
        match outcomes[|outcomes| - 1]
        case Some(f) => [f]
        case None => []
  }

  /** The raw frames whose outcome is absent, in order. */
  function Failures(raws: seq<RawFrame>, outcomes: seq<Option<Frame>>): (r: seq<RawFrame>)
    requires |raws| == |outcomes|
    ensures |r| <= |raws|
    decreases |raws|
  {
    if |raws| == 0 then []
    else
      Failures(raws[..|raws| - 1], outcomes[..|outcomes| - 1]) +
        if outcomes[|outcomes| - 1].None? then [raws[|raws| - 1]] else []
  }

  /** The frames `extract` returns. */
  function Extracted(handlers: seq<Processor>, raws: seq<RawFrame>, dec: Decoder): (r: seq<Frame>)
    requires AllDecodable(handlers, raws, dec)
    ensures |r| <= |raws|
  {
    Successes(Outcomes(handlers, raws, dec))
  }

  /** The raw frames `extractWithFailures` reports as not extracted. */
  function NotExtracted(handlers: seq<Processor>, raws: seq<RawFrame>, dec: Decoder): (r: seq<RawFrame>)
    requires AllDecodable(handlers, raws, dec)
    ensures |r| <= |raws|
  {
    Failures(raws, Outcomes(handlers, raws, dec))
  }

  /** Every raw frame is either decoded or reported, never both and never neither. */
  lemma {:induction false} Partition(raws: seq<RawFrame>, outcomes: seq<Option<Frame>>)
    requires |raws| == |outcomes|
    ensures |Successes(outcomes)| + |Failures(raws, outcomes)| == |raws|
    decreases |raws|
  {
    if |raws| > 0 {
      Partition(raws[..|raws| - 1], outcomes[..|outcomes| - 1]);
    }
  }

  /** A frame is extracted exactly when it is the outcome for some raw frame. */
  lemma {:induction false} SuccessesMembers(outcomes: seq<Option<Frame>>, f: Frame)
    ensures f in Successes(outcomes) <==> Some(f) in outcomes
    decreases |outcomes|
  {
    if |outcomes| > 0 {
      var init := outcomes[..|outcomes| - 1];
      SuccessesMembers(init, f);
      assert outcomes == init + [outcomes[|outcomes| - 1]];
    }
  }

  /** A raw frame is reported exactly when some occurrence of it has no outcome. */
  lemma {:induction false} FailuresMembers(raws: seq<RawFrame>, outcomes: seq<Option<Frame>>, raw: RawFrame)
    requires |raws| == |outcomes|
    ensures raw in Failures(raws, outcomes) <==> exists k :: 0 <= k < |raws| && raws[k] == raw && outcomes[k].None?
    decreases |raws|
  {
    if |raws| > 0 {
      var n := |raws| - 1;
      FailuresMembers(raws[..n], outcomes[..n], raw);
      if raw in Failures(raws[..n], outcomes[..n]) {
        var k :| 0 <= k < n && raws[..n][k] == raw && outcomes[..n][k].None?;
        assert raws[k] == raw && outcomes[k].None?;
      }
      if exists k :: 0 <= k < |raws| && raws[k] == raw && outcomes[k].None? {
        var k :| 0 <= k < |raws| && raws[k] == raw && outcomes[k].None?;
        if k < n {
          assert raws[..n][k] == raw && outcomes[..n][k].None?;
        }
      }
    }
  }

  /** Taking successes of a concatenation takes them of each part, keeping their order. */
  lemma {:induction false} SuccessesConcat(a: seq<Option<Frame>>, b: seq<Option<Frame>>)
    ensures Successes(a + b) == Successes(a) + Successes(b)
    decreases |b|
  {
    if |b| == 0 {
      assert a + b == a;
    } else {
      assert (a + b)[..|a + b| - 1] == a + b[..|b| - 1];
      SuccessesConcat(a, b[..|b| - 1]);
    }
  }

  /** Taking failures of a concatenation takes them of each part, keeping their order. */
  lemma {:induction false} FailuresConcat(ra: seq<RawFrame>, oa: seq<Option<Frame>>, rb: seq<RawFrame>, ob: seq<Option<Frame>>)
    requires |ra| == |oa| && |rb| == |ob|
    ensures Failures(ra + rb, oa + ob) == Failures(ra, oa) + Failures(rb, ob)
    decreases |rb|
  {
    if |rb| == 0 {
      assert ra + rb == ra && oa + ob == oa;
    } else {
      assert (ra + rb)[..|ra + rb| - 1] == ra + rb[..|rb| - 1];
      assert (oa + ob)[..|oa + ob| - 1] == oa + ob[..|ob| - 1];
      FailuresConcat(ra, oa, rb[..|rb| - 1], ob[..|ob| - 1]);
    }
  }

  /** The frames extracted and the frames reported together account for every raw frame. */
  lemma ExtractPartition(handlers: seq<Processor>, raws: seq<RawFrame>, dec: Decoder)
    requires AllDecodable(handlers, raws, dec)
    ensures |Extracted(handlers, raws, dec)| + |NotExtracted(handlers, raws, dec)| == |raws|
  {
    Partition(raws, Outcomes(handlers, raws, dec));
  }

  /** A raw frame is reported exactly when it is present and its processor decodes nothing. */
  lemma NotExtractedMembers(handlers: seq<Processor>, raws: seq<RawFrame>, dec: Decoder, raw: RawFrame)
    requires AllDecodable(handlers, raws, dec)
    ensures raw in NotExtracted(handlers, raws, dec) <==> raw in raws && DecodeFrame(handlers, raw, dec).None?
  {
    var outcomes := Outcomes(handlers, raws, dec);
    FailuresMembers(raws, outcomes, raw);
    if raw in raws {
      var k :| 0 <= k < |raws| && raws[k] == raw;
      assert outcomes[k] == DecodeFrame(handlers, raw, dec);
    }
  }

  /** A frame is extracted exactly when some raw frame decodes to it. */
  lemma ExtractedMembers(handlers: seq<Processor>, raws: seq<RawFrame>, dec: Decoder, f: Frame)
    requires AllDecodable(handlers, raws, dec)
    ensures f in Extracted(handlers, raws, dec) <==> exists k :: 0 <= k < |raws| && DecodeFrame(handlers, raws[k], dec) == Some(f)
  {
    var outcomes := Outcomes(handlers, raws, dec);
    SuccessesMembers(outcomes, f);
    if Some(f) in outcomes {
      var k :| 0 <= k < |outcomes| && outcomes[k] == Some(f);
      assert DecodeFrame(handlers, raws[k], dec) == Some(f);
    }
  }

  /** `extractWithFailures`: decodes each raw frame with the registry, keeping the failures apart. */
  method ExtractWithFailures(registry: FrameProcessorRegistry, raws: seq<RawFrame>, dec: Decoder)
    returns (extracted: Frames, nonExtracted: seq<RawFrame>)
    requires AllDecodable(registry.handlers, raws, dec)
    ensures fresh(extracted)
    ensures extracted.frames == Extracted(registry.handlers, raws, dec)
    ensures nonExtracted == NotExtracted(registry.handlers, raws, dec)
  {
    extracted := new Frames();
    nonExtracted := [];
    for i := 0 to |raws|
      invariant AllDecodable(registry.handlers, raws[..i], dec)
      invariant extracted.frames == Extracted(registry.handlers, raws[..i], dec)
      invariant nonExtracted == NotExtracted(registry.handlers, raws[..i], dec)
    {
      assert raws[..i + 1][..i] == raws[..i];
      assert Outcomes(registry.handlers, raws[..i + 1], dec)[..i] == Outcomes(registry.handlers, raws[..i], dec);
      var processor := registry.ForFrameId(raws[i].id);
      var frame := registry.From(processor, raws[i], dec);
      match frame {
        case Some(f) => extracted.Add(f);
        case None => nonExtracted := nonExtracted + [raws[i]];
      }
    }
    assert raws[..|raws|] == raws;
  }

  /** `extract`: the decoded frames alone. */
  method Extract(registry: FrameProcessorRegistry, raws: seq<RawFrame>, dec: Decoder) returns (extracted: Frames)
    requires AllDecodable(registry.handlers, raws, dec)
    ensures fresh(extracted)
    ensures extracted.frames == Extracted(registry.handlers, raws, dec)
  {
    var nonExtracted;
    extracted, nonExtracted := ExtractWithFailures(registry, raws, dec);
  }

  /**
   * A TIT2 frame holding a UTF-8 flag byte and some text is extracted, by
   * the built-in processors, as a text frame with that text and id.
   */
  lemma ExtractTitle(text: seq<Byte>, dec: Decoder)
    requires |text| >= 1 && |text| + 1 < 0x1_0000_0000
    ensures var raw := RawFrame("TIT2", |text| + 1, [3] + text, [0, 0]);
            AllDecodable(BUILT_IN, [raw], dec) &&
            Extracted(BUILT_IN, [raw], dec) == [TextInformation(dec(UTF8, text), "TIT2")] &&
            NotExtracted(BUILT_IN, [raw], dec) == []
  {
    var raw := RawFrame("TIT2", |text| + 1, [3] + text, [0, 0]);
    LookupBuiltIn("TIT2");
    TextInformationFrame.FromEncoded("TIT2", |text| + 1, [0, 0], 3, text, dec);
    assert [raw][..0] == [];
  }
}
