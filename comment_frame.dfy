/**
 * COMM frames, section 4.11 of the ID3v2.3.0 informal standard
 * (Source/CommentFrame.swift): an encoding byte, a three-byte language, a
 * short description ended by a zero byte, then the comment text.
 */
module CommentFrame {
  import opened Wrappers
  import opened ID3Utils
  import opened ID3Tag
  import opened ID3Frame

  const LEN_LANGUAGE: nat := 3

  function Supports(frameId: string): (b: bool)
    ensures b <==> frameId == "COMM"
  {
    frameId == "COMM"
  }

  /**
   * The byte runs the decoder cuts a COMM frame's content into: the
   * encoding byte, the language, the short description, the zero bytes
   * after it (the terminator and whatever zeros follow) and the comment.
   */
  datatype Pieces = Pieces(encoding: Byte, language: seq<Byte>, shortComment: seq<Byte>,
                           separator: seq<Byte>, comment: seq<Byte>)

  function Join(p: Pieces): (content: seq<Byte>)
  {
    [p.encoding] + (p.language + (p.shortComment + (p.separator + p.comment)))
  }

  /** A language of three bytes unless the content ends inside it. */
  predicate LanguageShape(p: Pieces)
  {
    && |p.language| <= LEN_LANGUAGE
    && (|p.language| < LEN_LANGUAGE ==> p.shortComment == [] && p.separator == [] && p.comment == [])
  }

  /** A short description without zero bytes. */
  predicate ShortCommentShape(p: Pieces)
  {
    forall i :: 0 <= i < |p.shortComment| ==> p.shortComment[i] != 0
  }

  /** A separator of zero bytes, present whenever a comment is, before a comment that does not start with a zero byte. */
  predicate SeparatorShape(p: Pieces)
  {
    && (forall i :: 0 <= i < |p.separator| ==> p.separator[i] == 0)
    && (p.separator == [] ==> p.comment == [])
    && (p.comment == [] || p.comment[0] != 0)
  }

  /** The shape of every split the decoder makes. */
  predicate WellFormed(p: Pieces)
  {
    LanguageShape(p) && ShortCommentShape(p) && SeparatorShape(p)
  }

  /**
   * How many bytes follow a short description before the comment starts:
   * the terminator (if any byte is left) and the zero bytes after it.
   */
  function SeparatorLength(tail: seq<Byte>): (k: nat)
    requires tail == [] || tail[0] == 0
    ensures k <= |tail|
    ensures forall i :: 0 <= i < k ==> tail[i] == 0
    ensures tail[k..] == DropFirst(tail)[LeadingZeros(DropFirst(tail))..]
    ensures k == |tail| || tail[k] != 0
    ensures tail != [] ==> k >= 1
  {
    DropDrop(tail, Min(1, |tail|), LeadingZeros(DropFirst(tail)));
    Min(1, |tail|) + LeadingZeros(DropFirst(tail))
  }

  /**
   * The decoder's walk over non-empty content: pop the encoding byte, take
   * up to three language bytes, take the zero-free run, drop one terminator
   * byte (if any byte is left) and skip further zero bytes; the comment is
   * everything left.
   */
  function Split(content: seq<Byte>): (p: Pieces)
    requires |content| >= 1
    ensures p.encoding == content[0]
    ensures 1 + |p.language| + |p.shortComment| + |p.separator| + |p.comment| == |content|
  {
    var rest := content[1..];
    var language := rest[..Min(LEN_LANGUAGE, |rest|)];
    var afterLanguage := rest[Min(LEN_LANGUAGE, |rest|)..];
    var shortComment := afterLanguage[..ZeroFreeRun(afterLanguage)];
    var tail := afterLanguage[ZeroFreeRun(afterLanguage)..];
    var k := SeparatorLength(tail);
    Pieces(content[0], language, shortComment, tail[..k], tail[k..])
  }

  /** Pieces that cut the content step by step join back to it. */
  lemma JoinCuts(content: seq<Byte>, p: Pieces, afterEncoding: seq<Byte>, afterLanguage: seq<Byte>, tail: seq<Byte>)
    requires |content| >= 1 && p.encoding == content[0] && afterEncoding == content[1..]
    requires afterEncoding == p.language + afterLanguage
    requires afterLanguage == p.shortComment + tail
    requires tail == p.separator + p.comment
    ensures Join(p) == content
  {
    assert content == [content[0]] + content[1..];
  }

  /** The cuts the decoder makes, joined back, give the content. */
  lemma JoinAtCuts(content: seq<Byte>, n: nat, z: nat, k: nat)
    requires |content| >= 1 && n <= |content| - 1
    requires z <= |content[1..][n..]| && k <= |content[1..][n..][z..]|
    ensures var rest := content[1..];
            var afterLanguage := rest[n..];
            var tail := afterLanguage[z..];
            Join(Pieces(content[0], rest[..n], afterLanguage[..z], tail[..k], tail[k..])) == content
  {
    var rest := content[1..];
    var afterLanguage := rest[n..];
    var tail := afterLanguage[z..];
    var p := Pieces(content[0], rest[..n], afterLanguage[..z], tail[..k], tail[k..]);
    TakeDrop(tail, k);
    TakeDrop(afterLanguage, z);
    TakeDrop(rest, n);
    JoinCuts(content, p, rest, afterLanguage, tail);
  }

  /** The pieces partition the content, in order. */
  lemma SplitJoin(content: seq<Byte>)
    requires |content| >= 1
    ensures Join(Split(content)) == content
  {
    var rest := content[1..];
    var n := Min(LEN_LANGUAGE, |rest|);
    var afterLanguage := rest[n..];
    var z := ZeroFreeRun(afterLanguage);
    var tail := afterLanguage[z..];
    var k := SeparatorLength(tail);
    JoinAtCuts(content, n, z, k);
  }

  /** The language has three bytes unless the content ends inside it. */
  lemma SplitLanguage(content: seq<Byte>)
    requires |content| >= 1
    ensures LanguageShape(Split(content))
  {
  }

  /** The short description holds no zero byte. */
  lemma SplitShortComment(content: seq<Byte>)
    requires |content| >= 1
    ensures ShortCommentShape(Split(content))
  {
  }

  /** The separator is zero bytes, present whenever a comment is, and the comment starts with no zero byte. */
  lemma SplitSeparator(content: seq<Byte>)
    requires |content| >= 1
    ensures SeparatorShape(Split(content))
  {
  }

  /** The decoder's pieces have the shape WellFormed describes. */
  lemma SplitWellFormed(content: seq<Byte>)
    requires |content| >= 1
    ensures WellFormed(Split(content))
  {
    SplitLanguage(content);
    SplitShortComment(content);
    SplitSeparator(content);
  }

  /** After the encoding byte of joined pieces come the language and then the rest, in order. */
  lemma JoinLanguage(p: Pieces)
    requires WellFormed(p)
    ensures var rest := Join(p)[1..];
            && Min(LEN_LANGUAGE, |rest|) == |p.language|
            && rest == p.language + (p.shortComment + (p.separator + p.comment))
  {
  }

  /** A run of zeros followed by a comment that does not start with zero is cut right before the comment. */
  lemma SeparatorLengthOf(separator: seq<Byte>, comment: seq<Byte>)
    requires forall i :: 0 <= i < |separator| ==> separator[i] == 0
    requires separator == [] ==> comment == []
    requires comment == [] || comment[0] != 0
    ensures SeparatorLength(separator + comment) == |separator|
  {
    if separator != [] {
      var tail := separator + comment;
      assert DropFirst(tail) == separator[1..] + comment;
      LeadingZerosOf(separator[1..], comment);
    }
  }

  /** Cutting the concatenation of well-formed pieces gives them back. */
  lemma JoinSplit(p: Pieces)
    requires WellFormed(p)
    ensures Split(Join(p)) == p
  {
    JoinLanguage(p);
    CutAt(p.language, p.shortComment + (p.separator + p.comment));
    ZeroFreeRunOf(p.shortComment, p.separator + p.comment);
    CutAt(p.shortComment, p.separator + p.comment);
    SeparatorLengthOf(p.separator, p.comment);
    CutAt(p.separator, p.comment);
  }

  /** The frame the decoder builds: language in UTF-8, the two texts in the selected encoding. */
  function CommentOf(raw: RawFrame, dec: Decoder): (f: Frame)
    requires |raw.content| >= 1
    ensures f.Comment?
  {
    var p := Split(raw.content);
    var encoding := EncodingFrom(p.encoding);
    Comment(dec(encoding, p.shortComment), dec(encoding, p.comment), dec(UTF8, p.language))
  }

  /** Content laid out from well-formed pieces decodes to those pieces' texts. */
  lemma CommentOfJoin(raw: RawFrame, dec: Decoder, p: Pieces)
    requires WellFormed(p) && raw.content == Join(p)
    ensures CommentOf(raw, dec) ==
            Comment(dec(EncodingFrom(p.encoding), p.shortComment), dec(EncodingFrom(p.encoding), p.comment), dec(UTF8, p.language))
  {
    JoinSplit(p);
  }

  /**
   * `shortComment(&content, encoding)`: moves the zero-free run into a
   * buffer, drops one byte and decodes the buffer.
   */
  method ShortComment(content: seq<Byte>, encoding: Encoding, dec: Decoder) returns (text: Option<string>, rest: seq<Byte>)
    ensures text == dec(encoding, content[..ZeroFreeRun(content)])
    ensures rest == DropFirst(content[ZeroFreeRun(content)..])
  {
    var shortCommentBytes;
    shortCommentBytes, rest := PopUntilZero(content);
    rest := DropFirst(rest);
    text := dec(encoding, shortCommentBytes);
  }

  /** `comment(&content, encoding)`: moves every remaining byte into a buffer and decodes it. */
  method CommentText(content: seq<Byte>, encoding: Encoding, dec: Decoder) returns (text: Option<string>, rest: seq<Byte>)
    ensures text == dec(encoding, content) && rest == []
  {
    var commentBytes := [];
    rest := content;
    while rest != []
      invariant commentBytes + rest == content
    {
      commentBytes := commentBytes + [rest[0]];
      rest := rest[1..];
    }
    assert commentBytes == content;
    text := dec(encoding, commentBytes);
  }

  /** The processor's `from`; it never returns nil. Empty content traps in the source. */
  method From(raw: RawFrame, dec: Decoder) returns (r: Option<Frame>)
    requires |raw.content| >= 1
    ensures r == Some(CommentOf(raw, dec))
  {
    var content := raw.content;
    var encoding := EncodingFrom(content[0]);
    content := content[1..];
    var languageBytes;
    languageBytes, content := NextBytes(content, LEN_LANGUAGE);
    var language := dec(UTF8, languageBytes);
    var shortCmt;
    shortCmt, content := ShortComment(content, encoding, dec);
    content := SkipZeroBytes(content);
    var cmt;
    cmt, content := CommentText(content, encoding, dec);
    r := Some(Comment(shortCmt, cmt, language));
  }
}
