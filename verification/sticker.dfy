/** The `!sticker` command, identical in both revisions of the bot: an image
    attachment is sent back flagged as a sticker, a video gets a refusal, and a
    command without an attachment gets a taunt, and any other attachment gets no
    answer. The handler runs on every created
    message, whoever sent it. */
module Sticker {
  import opened Wrappers
  import opened Chat
  import Text

  const NoMediaReply: string := "Envía una imagen alcornoque. \U{1F621}"
  const VideoDisabledReply: string :=
    "⚠️ Esta mrd no funciona, so, deshabilitada ⚠️"
  const ConversionFailedReply: string := "❌ No se pudo convertir la imagen a sticker"

  /** `imageToSticker`: reply with the media as a sticker; when that reply is not
      `delivered` (the client rejects it), apologise afterwards. */
  function ImageToSticker(media: Media, delivered: bool): (out: seq<Outbound>)
    ensures 1 <= |out| <= 2 && out[0] == ReplySticker(media)
    ensures |out| == 2 <==> !delivered
    ensures |out| == 2 ==> out[1] == Reply(ConversionFailedReply)
  {
    [ReplySticker(media)] + (if delivered then [] else [Reply(ConversionFailedReply)])
  }

  /** A mimetype cannot be both an image and a video one, so at most one of the
      handler's two mimetype branches runs. */
  lemma ImageAndVideoExclusive(mimetype: string)
    ensures !(Text.StartsWith(mimetype, "image") && Text.StartsWith(mimetype, "video"))
  {
  }

  predicate IsCommandWithMedia(msg: Message) {
    Text.StartsWith(msg.body, "!sticker") && msg.hasMedia
  }

  /** The handler. `download` is what `downloadMedia()` resolves to (None when it
      yields nothing, in which case reading its mimetype throws and the handler stops
      without replying); `delivered` is the fate of the sticker reply. */
  function OnStickerCommand(msg: Message, download: Option<Media>, delivered: bool): (out: seq<Outbound>)
    ensures !Text.StartsWith(msg.body, "!sticker") ==> out == []
    ensures Text.StartsWith(msg.body, "!sticker") && !msg.hasMedia ==> out == [Reply(NoMediaReply)]
    ensures IsCommandWithMedia(msg) && download.None? ==> out == []
    ensures |out| <= 2
    ensures forall k | 0 <= k < |out| && out[k].ReplySticker? :: download == Some(out[k].media)
    ensures (download.Some? && ReplySticker(download.value) in out)
        <==> IsCommandWithMedia(msg) && download.Some? && Text.StartsWith(download.value.mimetype, "image")
    ensures Reply(VideoDisabledReply) in out
        <==> IsCommandWithMedia(msg) && download.Some? && Text.StartsWith(download.value.mimetype, "video")
    ensures Reply(ConversionFailedReply) in out
        <==> IsCommandWithMedia(msg) && download.Some? && Text.StartsWith(download.value.mimetype, "image")
             && !delivered
    ensures IsCommandWithMedia(msg) && download.Some? && Text.StartsWith(download.value.mimetype, "image")
        ==> out == ImageToSticker(download.value, delivered)
    ensures IsCommandWithMedia(msg) && download.Some? && Text.StartsWith(download.value.mimetype, "video")
        ==> out == [Reply(VideoDisabledReply)]
    ensures IsCommandWithMedia(msg) && download.Some?
            && !Text.StartsWith(download.value.mimetype, "image") && !Text.StartsWith(download.value.mimetype, "video")
        ==> out == []
    ensures forall k | 0 <= k < |out| :: out[k].Reply? || out[k].ReplySticker?
  {
    if !Text.StartsWith(msg.body, "!sticker") then []
    else if !msg.hasMedia then [Reply(NoMediaReply)]
    else match download
      case None => []
      case Some(media) =>
        ImageAndVideoExclusive(media.mimetype);
        (if Text.StartsWith(media.mimetype, "image") then ImageToSticker(media, delivered) else [])
        + (if Text.StartsWith(media.mimetype, "video") then [Reply(VideoDisabledReply)] else [])
  }

  /** Anyone can convert an image: the sender does not matter. */
  lemma AnySenderGetsASticker(msg: Message, media: Media, delivered: bool)
    requires IsCommandWithMedia(msg) && Text.StartsWith(media.mimetype, "image")
    ensures OnStickerCommand(msg.(fromMe := false), Some(media), delivered)[0] == ReplySticker(media)
    ensures OnStickerCommand(msg.(fromMe := true), Some(media), delivered)[0] == ReplySticker(media)
  {
    ImageAndVideoExclusive(media.mimetype);
  }

  /** A `!reels` command is never a `!sticker` command, so of the two handlers a
      created message reaches, at most one acts. */
  lemma StickerIgnoresReelsCommands(msg: Message, download: Option<Media>, delivered: bool)
    requires Text.StartsWith(msg.body, "!reels")
    ensures OnStickerCommand(msg, download, delivered) == []
  {
    assert msg.body[1] == 'r';
  }
}
