/** The kind of a fetched message, by the first media field it carries, and
    where a private-chat message is routed by its kind. */
module MessageKind {

  datatype MessageType =
    | Document | Video | Animation | Sticker | Voice | Audio | Photo
    | TextMessage | Unknown

  /** Which fields of a fetched message are present: a media field counts
      when its object has a `file_id`; `hasText` is whether the message
      object has a `text` attribute at all. */
  datatype MessageView = MessageView(
    document: bool, video: bool, animation: bool, sticker: bool,
    voice: bool, audio: bool, photo: bool, hasText: bool)

  /** The media kinds in the order they are tried. */
  const MediaOrder: seq<MessageType> := [Document, Video, Animation, Sticker, Voice, Audio, Photo]

  predicate Has(m: MessageView, kind: MessageType) {
    match kind
    case Document => m.document
    case Video => m.video
    case Animation => m.animation
    case Sticker => m.sticker
    case Voice => m.voice
    case Audio => m.audio
    case Photo => m.photo
    case TextMessage => m.hasText
    case Unknown => true
  }

  /** `get_message_type`: the first media kind present in the fixed order;
      with no media, `Text` when the message has a text attribute, else
      `Unknown`. */
  function GetMessageType(m: MessageView): (r: MessageType)
    ensures Has(m, r)
    ensures forall i :: 0 <= i < |MediaOrder| && MediaOrder[i] == r ==>
              forall j :: 0 <= j < i ==> !Has(m, MediaOrder[j])
    ensures r !in MediaOrder <==> forall j :: 0 <= j < |MediaOrder| ==> !Has(m, MediaOrder[j])
    ensures r == Unknown <==> r !in MediaOrder && !m.hasText
  {
    if m.document then Document
    else if m.video then Video
    else if m.animation then Animation
    else if m.sticker then Sticker
    else if m.voice then Voice
    else if m.audio then Audio
    else if m.photo then Photo
    else if m.hasText then TextMessage
    else Unknown
  }

  /** A document wins over every other kind a message may also carry. */
  lemma DocumentFirst(m: MessageView)
    requires m.document
    ensures GetMessageType(m) == Document
  {
    assert MediaOrder[0] == Document;
  }

  /** A message with a photo and no other media is a photo. */
  lemma PhotoAlone(m: MessageView)
    requires m.photo
    requires !m.document && !m.video && !m.animation && !m.sticker && !m.voice && !m.audio
    ensures GetMessageType(m) == Photo
  {
    assert MediaOrder[6] == Photo;
  }

  /** 2 GiB: a video strictly larger than this takes the large-video path. */
  const LargeVideoBytes: int := 2 * 1024 * 1024 * 1024

  /** Where `handle_private_message` sends a fetched message. The large-video
      branch calls a method the bot object does not have, so it always ends
      in the error reply. */
  datatype Route = LargeVideoError | CopyText | MediaTransfer(kind: MessageType)

  function PrivateRoute(m: MessageView, videoSize: int): (r: Route)
    ensures r == LargeVideoError <==> GetMessageType(m) == Video && videoSize > LargeVideoBytes
    ensures r == CopyText <==> GetMessageType(m) == TextMessage
    ensures r.MediaTransfer? ==> r.kind == GetMessageType(m) && r.kind != TextMessage
  {
    var kind := GetMessageType(m);
    if kind == Video && videoSize > LargeVideoBytes then LargeVideoError
    else if kind == TextMessage then CopyText
    else MediaTransfer(kind)
  }

  /** The threshold is strict: a video of exactly 2 GiB is transferred as
      ordinary media, one byte more is not. */
  lemma LargeVideoThreshold(m: MessageView)
    requires m.video && !m.document
    ensures PrivateRoute(m, LargeVideoBytes) == MediaTransfer(Video)
    ensures PrivateRoute(m, LargeVideoBytes + 1) == LargeVideoError
  {
  }
}
