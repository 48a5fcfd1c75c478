/**
 * The chat-platform objects the relay reads. Only the fields the relay touches are kept;
 * `ToDict` stands for the platform library's `to_dict()`, giving the fields named below.
 */
module Telegram {
  import opened Wrappers

  /** A value inside an attachment dictionary. */
  datatype Value = Str(s: string) | Int(i: int)

  /** An attachment as the untyped key/value mapping that is forwarded. */
  type Dict = map<string, Value>

  /** One size variant of a photo. Only `size` (the platform's `file_size`) is interpreted. */
  datatype PhotoSize = PhotoSize(fileId: string, fileUniqueId: string, width: nat, height: nat, size: nat)
  {
    function ToDict(): (d: Dict)
      ensures "file_id" in d && d["file_id"] == Str(fileId)
      ensures "file_size" in d && d["file_size"] == Int(size)
    {
      map["file_id" := Str(fileId), "file_unique_id" := Str(fileUniqueId),
          "width" := Int(width), "height" := Int(height), "file_size" := Int(size)]
    }
  }

  /** A video attachment; at most one per message. */
  datatype Video = Video(fileId: string, fileUniqueId: string, width: nat, height: nat, duration: nat)
  {
    function ToDict(): (d: Dict)
      ensures "file_id" in d && d["file_id"] == Str(fileId)
    {
      map["file_id" := Str(fileId), "file_unique_id" := Str(fileUniqueId),
          "width" := Int(width), "height" := Int(height), "duration" := Int(duration)]
    }
  }

  /** The sender of a message. */
  datatype User = User(id: int, fullName: string, username: Option<string>, isBot: bool)

  /**
   * The instant a message was sent, through the two renderings the relay copies:
   * `date.isoformat()` and `date.timestamp()` (a float, kept as an opaque real).
   */
  datatype Date = Date(isoFormat: string, timestamp: real)

  /**
   * An incoming message. `fromUser` is absent for messages with no sender; `textMarkdownV2Urled`
   * is the platform's rendering of the text with links preserved, opaque here.
   */
  datatype Message = Message(
    id: int,
    chatId: int,
    fromUser: Option<User>,
    text: Option<string>,
    caption: Option<string>,
    textMarkdownV2Urled: Option<string>,
    photo: seq<PhotoSize>,
    video: Option<Video>,
    date: Date)
}
