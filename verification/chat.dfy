/** What the bot posts to a channel. */
module Chat {
  import opened Wrappers

  /** One channel message: its text and, for the embed-style birthday
      post, the image shown in the embed. */
  datatype Message = Message(text: string, embedImage: Option<string>)

  /** A plain text message without an embed. */
  function Plain(text: string): Message {
    Message(text, None)
  }

  /** Discord's mention markup for a user id, `<@id>`. */
  function Mention(id: string): (s: string)
    ensures |s| == |id| + 3
    ensures s[2..|s| - 1] == id
  {
    "<@" + id + ">"
  }
}
