/**
 The records the polling service works with: the persisted `Account` and
 `Token` rows, the reply summary returned by the notification fetch, and an
 `Option` type standing in for the service's `null`/`undefined` values.
 */
module Entities {

  /** Absent (`null` / `undefined`) or present value. */
  datatype Option<+T> = None | Some(value: T)

  /** The device platform a push token belongs to. */
  datatype Platform = Ios | Android

  /** One registered device endpoint; `token` is the opaque push-routing string.
      `platform` is the entity's `type` column, renamed because `type` is a
      Dafny keyword. The back-reference to the owning account is not modelled. */
  datatype Token = Token(id: int, platform: Platform, token: string)

  /** One monitored credential on one instance (the remote server host).
      `lastCheck` is the time of the last poll, `lastNotifiedId` the comment
      identifier of the last reply already pushed. */
  datatype Account = Account(
    id: int,
    instance: string,
    username: string,
    authToken: string,
    lastCheck: int,
    lastNotifiedId: int,
    tokens: seq<Token>)

  /** The newest unread reply of an account, as the fetch client summarises it. */
  datatype Reply = Reply(postId: int, commentId: int, senderName: string, content: string)
}
