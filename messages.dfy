/**
 * The message records the parser produces (src/types/messages.ts): a closed union of
 * text, attachment and system messages, each with a `datetime`, and the three type guards.
 */
module Messages {

  /** The wall-clock fields the parser composes into `YYYY-MM-DDTHH:MM:SS` and hands to
      `new Date(...)`, kept as the strings that make up that text. */
  datatype DateTime = DateTime(year: string, month: string, day: string,
                               hour: string, minute: string, second: string)

  /** A message's `datetime`: the composed wall-clock fields, or the current time, which the
      date parser falls back to when it fails (an opaque value here). */
  datatype Timestamp = At(fields: DateTime) | Now

  /** The text `new Date(...)` receives. */
  function IsoString(d: DateTime): string {
    d.year + "-" + d.month + "-" + d.day + "T" + d.hour + ":" + d.minute + ":" + d.second
  }

  /** The three kinds of message. Text and attachment messages carry a sender; a system
      message has none. */
  datatype ChatMessage =
    | Text(sender: string, datetime: Timestamp, text: string)
    | Attachment(sender: string, datetime: Timestamp, fileName: string)
    | System(datetime: Timestamp, text: string)

  /** The `type` tag of a message. */
  function Tag(m: ChatMessage): string {
    match m
    case Text(_, _, _) => "text"
    case Attachment(_, _, _) => "attachment"
    case System(_, _) => "system"
  }

  /** `isTextMessage` */
  function IsTextMessage(m: ChatMessage): (r: bool)
    ensures r <==> m.Text?
  {
    Tag(m) == "text"
  }

  /** `isAttachmentMessage` */
  function IsAttachmentMessage(m: ChatMessage): (r: bool)
    ensures r <==> m.Attachment?
  {
    Tag(m) == "attachment"
  }

  /** `isSystemMessage` */
  function IsSystemMessage(m: ChatMessage): (r: bool)
    ensures r <==> m.System?
  {
    Tag(m) == "system"
  }

  /** `'sender' in message`: the message is not a system message. */
  predicate HasSender(m: ChatMessage) {
    !m.System?
  }

  /** Every message is exactly one of the three kinds, and it has a sender exactly when it is
      not a system message. */
  lemma ExactlyOneGuard(m: ChatMessage)
    ensures IsTextMessage(m) || IsAttachmentMessage(m) || IsSystemMessage(m)
    ensures !(IsTextMessage(m) && IsAttachmentMessage(m))
    ensures !(IsTextMessage(m) && IsSystemMessage(m))
    ensures !(IsAttachmentMessage(m) && IsSystemMessage(m))
    ensures HasSender(m) <==> !IsSystemMessage(m)
  {
  }
}
