/**
 * APIC frames, section 4.15 of the ID3v2.3.0 informal standard
 * (Source/AttachedPictureFrame.swift): an encoding byte, a MIME type ended
 * by a zero byte, a picture type byte, a description ended by a zero byte,
 * then the picture data.
 */
module AttachedPictureFrame {
  import opened Wrappers
  import opened ID3Utils
  import opened ID3Tag
  import opened ID3Frame

  function Supports(frameId: string): (b: bool)
    ensures b <==> frameId == "APIC"
  {
    frameId == "APIC"
  }

  /**
   * The byte runs the decoder cuts an APIC frame's content into. The
   * terminator is the byte dropped after the MIME type (absent when the
   * content ends there); the description's own terminator is not dropped,
   * so it opens the image data.
   */
  datatype Pieces = Pieces(encoding: Byte, mimetype: seq<Byte>, terminator: seq<Byte>,
                           pictureType: Option<Byte>, description: seq<Byte>, imageData: seq<Byte>)

  /** The bytes a picture type occupies: one, or none when the content ended before it. */
  function TypeBytes(t: Option<Byte>): (b: seq<Byte>)
    ensures |b| <= 1 && (b == [] <==> t.None?)
  {
    match t
    case None => []
    case Some(x) => [x]
  }

  function Join(p: Pieces): (content: seq<Byte>)
  {
    [p.encoding] + (p.mimetype + (p.terminator + (TypeBytes(p.pictureType) + (p.description + p.imageData))))
  }

  /** A MIME type without zero bytes, followed by at most one zero byte. */
  predicate MimetypeShape(p: Pieces)
  {
    && (forall i :: 0 <= i < |p.mimetype| ==> p.mimetype[i] != 0)
    && (p.terminator == [] || p.terminator == [0])
  }

  /** A terminator and a picture type that are present whenever anything follows them. */
  predicate PresenceShape(p: Pieces)
  {
    && (p.terminator == [] ==> p.pictureType.None?)
    && (p.pictureType.None? ==> p.description == [] && p.imageData == [])
  }

  /** A description without zero bytes, and image data that is empty or starts with the zero byte that ended it. */
  predicate DescriptionShape(p: Pieces)
  {
    && (forall i :: 0 <= i < |p.description| ==> p.description[i] != 0)
    && (p.imageData == [] || p.imageData[0] == 0)
  }

  /** The shape of every split the decoder makes. */
  predicate WellFormed(p: Pieces)
  {
    MimetypeShape(p) && PresenceShape(p) && DescriptionShape(p)
  }

  /** The first byte of some bytes, if there is one (Swift's `popFirst` result). */
  function First(s: seq<Byte>): (b: Option<Byte>)
    ensures b.None? <==> |s| == 0
    ensures b.Some? ==> b.value == s[0]
  {
    if |s| == 0 then None else Some(s[0])
  }

  /**
   * The decoder's walk over non-empty content: pop the encoding byte, take
   * the zero-free run as MIME type, drop one byte, pop the picture type,
   * take the next zero-free run as description; the image data is all that
   * is left.
   */
  function Split(content: seq<Byte>): (p: Pieces)
    requires |content| >= 1
    ensures p.encoding == content[0]
    ensures 1 + |p.mimetype| + |p.terminator| + |TypeBytes(p.pictureType)| + |p.description| + |p.imageData| == |content|
  {
    var rest := content[1..];
    var mimetype := rest[..ZeroFreeRun(rest)];
    var tail := rest[ZeroFreeRun(rest)..];
    var afterTerminator := DropFirst(tail);
    var afterType := DropFirst(afterTerminator);
    var description := afterType[..ZeroFreeRun(afterType)];
    Pieces(content[0], mimetype, tail[..Min(1, |tail|)], First(afterTerminator), description,
           afterType[ZeroFreeRun(afterType)..])
  }

  /** Pieces that cut the content step by step join back to it. */
  lemma JoinCuts(content: seq<Byte>, p: Pieces, tail: seq<Byte>, afterTerminator: seq<Byte>, afterType: seq<Byte>)
    requires |content| >= 1 && p.encoding == content[0]
    requires content[1..] == p.mimetype + tail
    requires tail == p.terminator + afterTerminator
    requires afterTerminator == TypeBytes(p.pictureType) + afterType
    requires afterType == p.description + p.imageData
    ensures Join(p) == content
  {
    assert content == [content[0]] + content[1..];
  }

  /** Taking the first byte off some bytes leaves TypeBytes of it in front. */
  lemma FirstRest(s: seq<Byte>)
    ensures s == TypeBytes(First(s)) + DropFirst(s)
  {
  }

  /** The pieces partition the content, in order. */
  lemma SplitJoin(content: seq<Byte>)
    requires |content| >= 1
    ensures Join(Split(content)) == content
  {
    var rest := content[1..];
    var tail := rest[ZeroFreeRun(rest)..];
    var afterTerminator := DropFirst(tail);
    var afterType := DropFirst(afterTerminator);
    TakeDrop(rest, ZeroFreeRun(rest));
    TakeDrop(tail, Min(1, |tail|));
    FirstRest(afterTerminator);
    TakeDrop(afterType, ZeroFreeRun(afterType));
    JoinCuts(content, Split(content), tail, afterTerminator, afterType);
  }

  /** The MIME type holds no zero byte and is followed by at most one zero byte. */
  lemma SplitMimetype(content: seq<Byte>)
    requires |content| >= 1
    ensures MimetypeShape(Split(content))
  {
  }

  /** Nothing follows a missing terminator or a missing picture type. */
  lemma SplitPresence(content: seq<Byte>)
    requires |content| >= 1
    ensures PresenceShape(Split(content))
  {
  }

  /** The description holds no zero byte, and the image data starts with the byte that ended it. */
  lemma SplitDescription(content: seq<Byte>)
    requires |content| >= 1
    ensures DescriptionShape(Split(content))
  {
  }

  /** The decoder's pieces have the shape WellFormed describes. */
  lemma SplitWellFormed(content: seq<Byte>)
    requires |content| >= 1
    ensures WellFormed(Split(content))
  {
    SplitMimetype(content);
    SplitPresence(content);
    SplitDescription(content);
  }

  /** What is left once a well-formed terminator and picture type are taken off. */
  lemma JoinTerminator(p: Pieces)
    requires WellFormed(p)
    ensures var tail := p.terminator + (TypeBytes(p.pictureType) + (p.description + p.imageData));
            && tail[..Min(1, |tail|)] == p.terminator
            && DropFirst(tail) == TypeBytes(p.pictureType) + (p.description + p.imageData)
  {
  }

  /** Taking the first byte off TypeBytes of a picture type in front of more bytes gives both back. */
  lemma JoinType(t: Option<Byte>, rest: seq<Byte>)
    requires t.None? ==> rest == []
    ensures First(TypeBytes(t) + rest) == t && DropFirst(TypeBytes(t) + rest) == rest
  {
  }

  /** Cutting the concatenation of well-formed pieces gives them back. */
  lemma JoinSplit(p: Pieces)
    requires WellFormed(p)
    ensures Split(Join(p)) == p
  {
    var tail := p.terminator + (TypeBytes(p.pictureType) + (p.description + p.imageData));
    assert Join(p)[1..] == p.mimetype + tail;
    ZeroFreeRunOf(p.mimetype, tail);
    CutAt(p.mimetype, tail);
    JoinTerminator(p);
    JoinType(p.pictureType, p.description + p.imageData);
    ZeroFreeRunOf(p.description, p.imageData);
    CutAt(p.description, p.imageData);
  }

  /** The frame the decoder builds: MIME type in UTF-8, description in the selected encoding. */
  function PictureOf(raw: RawFrame, dec: Decoder): (f: Frame)
    requires |raw.content| >= 1
    ensures f.AttachedPicture?
  {
    var p := Split(raw.content);
    AttachedPicture(dec(UTF8, p.mimetype), p.pictureType, dec(EncodingFrom(p.encoding), p.description), p.imageData)
  }

  /** Content laid out from well-formed pieces decodes to those pieces. */
  lemma PictureOfJoin(raw: RawFrame, dec: Decoder, p: Pieces)
    requires WellFormed(p) && raw.content == Join(p)
    ensures PictureOf(raw, dec) ==
            AttachedPicture(dec(UTF8, p.mimetype), p.pictureType, dec(EncodingFrom(p.encoding), p.description), p.imageData)
  {
    JoinSplit(p);
  }

  /** The processor's `from`; it never returns nil. Empty content traps in the source. */
  method From(raw: RawFrame, dec: Decoder) returns (r: Option<Frame>)
    requires |raw.content| >= 1
    ensures r == Some(PictureOf(raw, dec))
  {
    var content := raw.content;
    var encoding := EncodingFrom(content[0]);
    content := content[1..];
    var mimetypeBuffer;
    mimetypeBuffer, content := PopUntilZero(content);
    var mimetype := dec(UTF8, mimetypeBuffer);
    content := DropFirst(content);
    var pictureType := First(content);
    content := DropFirst(content);
    var descriptionBuffer;
    descriptionBuffer, content := PopUntilZero(content);
    var description := dec(encoding, descriptionBuffer);
    var pictureBuffer := CopyBytes(content);
    r := Some(AttachedPicture(mimetype, pictureType, description, pictureBuffer));
  }
}
