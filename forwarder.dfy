/**
 * The forward-then-echo step of `redirect`: the record is POSTed to the sink, and only when the
 * sink answers 200 is it echoed into the chat and the kept media sent back.
 */
module Forwarder {
  import opened Wrappers
  import opened Telegram
  import opened Selector
  import opened Normaliser

  /** The status code that counts as a successful forward. */
  const HTTP_OK: int := 200

  /** One chat-side action. The echoed text is the pretty-printed record, kept opaque here. */
  datatype ChatAction =
    | ReplyMarkdown(record: ParsedMessage)
    | SendPhoto(photo: PhotoSize)
    | SendVideo(video: Video)

  /**
   * What happens in the chat once the sink has answered with `status`: nothing unless it is 200;
   * otherwise one reply, one photo per kept variant in order, and the video if there is one.
   */
  method Forward(status: int, data: ParsedMessage, photo: seq<PhotoSize>, video: Option<Video>)
    returns (trace: seq<ChatAction>)
    ensures status != HTTP_OK ==> trace == []
    ensures status == HTTP_OK ==>
              && |trace| == 1 + |photo| + (if video.Some? then 1 else 0)
              && trace[0] == ReplyMarkdown(data)
              && (forall i :: 0 <= i < |photo| ==> trace[1 + i] == SendPhoto(photo[i]))
    ensures forall i :: 0 <= i < |trace| && trace[i].ReplyMarkdown? ==> i == 0
    ensures (exists i :: 0 <= i < |trace| && trace[i].SendVideo?) <==> status == HTTP_OK && video.Some?
    ensures forall i :: 0 <= i < |trace| && trace[i].SendVideo? ==>
              i == |trace| - 1 && video == Some(trace[i].video)
  {
    trace := [];
    if status != HTTP_OK {
      return;
    }
    trace := trace + [ReplyMarkdown(data)];
    if |photo| > 0 {
      for i := 0 to |photo|
        invariant |trace| == 1 + i
        invariant trace[0] == ReplyMarkdown(data)
        invariant forall j :: 0 <= j < i ==> trace[1 + j] == SendPhoto(photo[j])
        invariant forall j :: 1 <= j < |trace| ==> trace[j].SendPhoto?
      {
        trace := trace + [SendPhoto(photo[i])];
      }
    }
    assert forall j :: 1 <= j < |trace| ==> trace[j].SendPhoto?;
    if video.Some? {
      trace := trace + [SendVideo(video.value)];
      assert trace[|trace| - 1].SendVideo?;
    }
  }

  /**
   * The whole `redirect` handler for one message. `status` is the status code the sink answers
   * the POST with. `posted` is the record sent to the sink, if the handler gets that far.
   */
  method Redirect(msg: Message, status: int) returns (posted: Option<ParsedMessage>, trace: seq<ChatAction>)
    ensures posted.Some? <==> msg.fromUser.Some?
    ensures posted.Some? ==> Normalise(msg, Selection(msg.photo)) == Success(posted.value)
    ensures posted.Some? ==> |posted.value.images| == |msg.photo| / 5
    ensures posted.None? || status != HTTP_OK ==> trace == []
    ensures posted.Some? && status == HTTP_OK ==>
              && |trace| == 1 + |msg.photo| / 5 + (if msg.video.Some? then 1 else 0)
              && trace[0] == ReplyMarkdown(posted.value)
              && (forall i :: 0 <= i < |msg.photo| / 5 ==> trace[1 + i] == SendPhoto(Selection(msg.photo)[i]))
              && (msg.video.Some? ==> trace[|trace| - 1] == SendVideo(msg.video.value))
  {
    var photo := RemoveFileDuplicates(msg.photo);
    var data := Normalise(msg, photo);
    if data.Failure? {
      return None, [];
    }
    posted := Some(data.value);
    trace := Forward(status, data.value, photo, msg.video);
  }
}
