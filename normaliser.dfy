/**
 * The message normaliser: the construction of a `ParsedMessage` inside `redirect`, which flattens
 * one incoming message into the record that is forwarded.
 */
module Normaliser {
  import opened Wrappers
  import opened Telegram

  /** The flat record forwarded for each message. No field is ever absent. */
  datatype ParsedMessage = ParsedMessage(
    userId: int,
    messageId: int,
    chatId: int,
    fullname: string,
    username: string,
    isBot: bool,
    message: string,
    caption: string,
    formattedMessage: string,
    images: seq<Dict>,
    video: Dict,
    isoDatetime: string,
    posixSecsTimestamp: real)

  /**
   * Reading the sender's fields of a message without a sender raises; the handler then stops
   * before anything is sent.
   */
  datatype NormaliseError = NoSender

  /** Python's `s or ""` on an optional string. */
  function OrEmpty(s: Option<string>): string
  {
    match s
    case None => ""
    case Some(v) => v
  }

  /**
   * Builds the record for `msg`, given the photo variants the selector kept (`photo`).
   * Absent strings become empty strings and an absent video an empty dictionary.
   */
  function Normalise(msg: Message, photo: seq<PhotoSize>): (r: Result<ParsedMessage, NormaliseError>)
    ensures r.Success? <==> msg.fromUser.Some?
    ensures r.Failure? ==> r.error == NoSender
    ensures r.Success? ==>
              var m := r.value;
              var u := msg.fromUser.value;
              && m.userId == u.id && m.fullname == u.fullName && m.isBot == u.isBot
              && m.messageId == msg.id && m.chatId == msg.chatId
              && (u.username.None? ==> m.username == "")
              && (u.username.Some? ==> m.username == u.username.value)
              && (msg.text.None? ==> m.message == "")
              && (msg.text.Some? ==> m.message == msg.text.value)
              && (msg.caption.None? ==> m.caption == "")
              && (msg.caption.Some? ==> m.caption == msg.caption.value)
              && (msg.textMarkdownV2Urled.None? ==> m.formattedMessage == "")
              && (msg.textMarkdownV2Urled.Some? ==> m.formattedMessage == msg.textMarkdownV2Urled.value)
    ensures r.Success? ==>
              && |r.value.images| == |photo|
              && (forall i :: 0 <= i < |photo| ==> r.value.images[i] == photo[i].ToDict())
    ensures r.Success? ==>
              && (r.value.video == map[] <==> msg.video.None?)
              && (msg.video.Some? ==> r.value.video == msg.video.value.ToDict())
    ensures r.Success? ==>
              r.value.isoDatetime == msg.date.isoFormat && r.value.posixSecsTimestamp == msg.date.timestamp
  {
    match msg.fromUser
    case None => Failure(NoSender)
    case Some(u) =>
      Success(ParsedMessage(
        userId := u.id,
        messageId := msg.id,
        chatId := msg.chatId,
        fullname := u.fullName,
        username := OrEmpty(u.username),
        isBot := u.isBot,
        message := OrEmpty(msg.text),
        caption := OrEmpty(msg.caption),
        formattedMessage := OrEmpty(msg.textMarkdownV2Urled),
        images := seq(|photo|, i requires 0 <= i < |photo| => photo[i].ToDict()),
        video := match msg.video case Some(v) => v.ToDict() case None => map[],
        isoDatetime := msg.date.isoFormat,
        posixSecsTimestamp := msg.date.timestamp))
  }
}
