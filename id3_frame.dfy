/**
 * The decoded frames (the `ID3Frame` protocol of Source/Frames.swift and the
 * structs that conform to it). The model closes the protocol: these are the
 * four frame kinds the library decodes.
 */
module ID3Frame {
  import opened Wrappers
  import opened ID3Utils

  datatype Frame =
    /** `TextInformationFrame`: the frame id and its text, if it decodes. */
    | TextInformation(text: Option<string>, frameId: string)
    /** `CommentFrame` (COMM). */
    | Comment(shortComment: Option<string>, comment: Option<string>, language: Option<string>)
    /** `AttachedPictureFrame` (APIC); `pictureType` is the Swift field `type`. */
    | AttachedPicture(mimetype: Option<string>, pictureType: Option<Byte>, desc: Option<string>, imageData: seq<Byte>)
    /** `ChapterFrame` (CHAP) with its one embedded sub-frame, if that decodes. */
    | Chapter(startTime: UInt32, endTime: UInt32, startOffset: UInt32, endOffset: UInt32, subFrame: Option<Frame>)
}
