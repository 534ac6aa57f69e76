/**
 * Text information frames, section 4.2 of the ID3v2.3.0 informal standard
 * (Source/TextInformationFrame.swift): one encoding byte, then the text.
 */
module TextInformationFrame {
  import opened Wrappers
  import opened ID3Utils
  import opened ID3Tag
  import opened ID3Frame

  /** The frame ids the processor handles. */
  const SUPPORTED_FRAMES: seq<string> := ["TIT2", "TYER", "TPE1", "TALB", "TPUB", "TIT3", "TCON", "TCOP", "TENC"]

  /** Every supported id is a four-character id starting with 'T'. */
  function Supports(frameId: string): (b: bool)
    ensures b ==> |frameId| == 4 && frameId[0] == 'T'
  {
    frameId in SUPPORTED_FRAMES
  }

  /**
   * The processor's `from`: content shorter than two bytes gives no frame;
   * otherwise the first byte selects the encoding and every byte after it
   * is the text. The frame keeps the raw frame's id.
   */
  function From(raw: RawFrame, dec: Decoder): (r: Option<Frame>)
    ensures r.None? <==> |raw.content| < 2
    ensures r.Some? ==> r.value.TextInformation? && r.value.frameId == raw.id
  {
    if |raw.content| < 2 then None
    else
      var encoding := EncodingFrom(raw.content[0]);
      Some(TextInformation(dec(encoding, raw.content[1..]), raw.id))
  }

  /**
   * A frame laid out as an encoding byte followed by at least one byte of
   * text decodes to that text in that encoding.
   */
  lemma FromEncoded(id: string, size: UInt32, flags: seq<Byte>, encoding: Byte, text: seq<Byte>, dec: Decoder)
    requires |text| >= 1
    ensures From(RawFrame(id, size, [encoding] + text, flags), dec)
         == Some(TextInformation(dec(EncodingFrom(encoding), text), id))
  {
    assert ([encoding] + text)[1..] == text;
  }

  /** With two or more bytes a frame results even when the text does not decode. */
  lemma FromUndecodable(raw: RawFrame, dec: Decoder)
    requires |raw.content| >= 2 && dec(EncodingFrom(raw.content[0]), raw.content[1..]).None?
    ensures From(raw, dec) == Some(TextInformation(None, raw.id))
  {
  }

  /** The declared size and the flags play no part in decoding. */
  lemma FromIgnoresSizeAndFlags(raw: RawFrame, size: UInt32, flags: seq<Byte>, dec: Decoder)
    ensures From(raw.(size := size, flags := flags), dec) == From(raw, dec)
  {
  }

  /** The bytes of "Hello". */
  const HELLO: seq<Byte> := [0x48, 0x65, 0x6C, 0x6C, 0x6F]

  /** A TIT2 frame of the UTF-8 indicator and "Hello" decodes to that text under that id. */
  lemma HelloFrame(dec: Decoder)
    ensures From(RawFrame("TIT2", 5, [3] + HELLO, [0]), dec) == Some(TextInformation(dec(UTF8, HELLO), "TIT2"))
  {
    FromEncoded("TIT2", 5, [0], 3, HELLO, dec);
  }

  /** A frame of the encoding indicator alone decodes to nothing. */
  lemma TooFewData(dec: Decoder)
    ensures From(RawFrame("TIT2", 5, [3], [0]), dec).None?
  {
  }
}
