/**
 * The rendering decisions of a day's message group (src/components/chat/MessageGroup.tsx):
 * each message becomes one entry, and the `previousSender` carried from one message to the
 * next decides whether the sender's name is shown. The drawing itself is left out; an entry
 * records what is handed to the component that draws the message.
 */
module MessageGroup {
  import opened Wrappers
  import opened Messages

  /** What `renderMessage` hands on for one message. */
  datatype RenderEntry =
    | SystemEntry(message: ChatMessage)
    | TextEntry(message: ChatMessage, isCurrentUser: bool, showSender: bool)
    | AttachmentEntry(message: ChatMessage, isCurrentUser: bool, showSender: bool,
                      attachmentUrl: Option<string>)

  /** `previousSender` once the messages `done` have been rendered: none at the start and
      after a system message, otherwise the sender of the last message. */
  function PreviousSender(done: seq<ChatMessage>): Option<string> {
    if done == [] || done[|done| - 1].System? then None else Some(done[|done| - 1].sender)
  }

  /** The sender of message `k` is shown when it opens the group, follows a system message,
      or follows a message of another sender. */
  predicate ShowsSender(messages: seq<ChatMessage>, k: nat)
    requires k < |messages| && !messages[k].System?
  {
    k == 0 || messages[k - 1].System? || messages[k - 1].sender != messages[k].sender
  }

  /** `attachments[fileName]`: the URL stored under exactly that name, if any. */
  function AttachmentUrl(attachments: map<string, string>, fileName: string): (r: Option<string>)
    ensures r.Some? <==> fileName in attachments
    ensures r.Some? ==> r.value == attachments[fileName]
  {
    if fileName in attachments then Some(attachments[fileName]) else None
  }

  /** The entry `renderMessage` hands on for message `k`: of the message's own kind; unless it
      is a system message, marked as the reader's own exactly when its sender is
      `primaryUser`, untrimmed, and showing its sender as `ShowsSender` says; for an
      attachment, with the URL stored under its file name. */
  predicate RendersAs(messages: seq<ChatMessage>, k: nat, primaryUser: string,
                      attachments: map<string, string>, entry: RenderEntry)
    requires k < |messages|
  {
    && entry.message == messages[k]
    && (entry.SystemEntry? <==> messages[k].System?)
    && (entry.TextEntry? <==> messages[k].Text?)
    && (entry.AttachmentEntry? <==> messages[k].Attachment?)
    && (!messages[k].System? ==>
          && !entry.SystemEntry?
          && (entry.isCurrentUser <==> messages[k].sender == primaryUser)
          && (entry.showSender <==> ShowsSender(messages, k)))
    && (messages[k].Attachment? ==>
          entry.AttachmentEntry? && entry.attachmentUrl == AttachmentUrl(attachments, messages[k].fileName))
  }

  /** `messages.map(renderMessage)`: one entry per message, in order, each as `RendersAs`
      says. A system message resets `previousSender`; any other message becomes it. */
  method RenderMessages(messages: seq<ChatMessage>, primaryUser: string,
                        attachments: map<string, string>)
    returns (entries: seq<RenderEntry>)
    ensures |entries| == |messages|
    ensures forall k :: 0 <= k < |messages| ==> RendersAs(messages, k, primaryUser, attachments, entries[k])
  {
    var previousSender: Option<string> := None;
    entries := [];
    for i := 0 to |messages|
      invariant |entries| == i
      invariant previousSender == PreviousSender(messages[..i])
      invariant forall k :: 0 <= k < i ==> RendersAs(messages, k, primaryUser, attachments, entries[k])
    {
      var message := messages[i];
      PreviousSenderStep(messages, i);
      var entry;
      if message.System? {
        previousSender := None;
        entry := SystemEntry(message);
      } else {
        var isCurrentUser := message.sender == primaryUser;
        var showSender := previousSender != Some(message.sender);
        previousSender := Some(message.sender);
        if message.Text? {
          entry := TextEntry(message, isCurrentUser, showSender);
        } else {
          entry := AttachmentEntry(message, isCurrentUser, showSender,
                                   AttachmentUrl(attachments, message.fileName));
        }
      }
      assert RendersAs(messages, i, primaryUser, attachments, entry);
      entries := entries + [entry];
    }
  }

  /** `previousSender` before and after message `i`, and what it says about showing the
      sender of message `i`. */
  lemma PreviousSenderStep(messages: seq<ChatMessage>, i: nat)
    requires i < |messages|
    ensures PreviousSender(messages[..i + 1])
         == if messages[i].System? then None else Some(messages[i].sender)
    ensures !messages[i].System? ==>
              (PreviousSender(messages[..i]) != Some(messages[i].sender) <==> ShowsSender(messages, i))
  {
    assert messages[..i + 1][i] == messages[i];
    if i > 0 {
      assert messages[..i][i - 1] == messages[i - 1];
    }
  }

  /** Every shown name can be read off: a message that does not show its sender continues an
      unbroken run of messages from the same sender whose first message shows it. */
  lemma {:induction false} ShownSenderCovers(messages: seq<ChatMessage>, k: nat)
    requires k < |messages| && !messages[k].System?
    ensures exists j :: 0 <= j <= k && !messages[j].System? && ShowsSender(messages, j)
                        && forall i :: j <= i <= k ==> !messages[i].System?
                                                       && messages[i].sender == messages[k].sender
  {
    if !ShowsSender(messages, k) {
      ShownSenderCovers(messages, k - 1);
      var j :| 0 <= j <= k - 1 && !messages[j].System? && ShowsSender(messages, j)
               && forall i :: j <= i <= k - 1 ==> !messages[i].System?
                                                  && messages[i].sender == messages[k - 1].sender;
      assert forall i :: j <= i <= k ==> !messages[i].System? && messages[i].sender == messages[k].sender;
    }
  }

  /** In a run of messages from one sender with nothing between them, only the first shows
      the sender. */
  lemma SameSenderRun(messages: seq<ChatMessage>, lo: nat, hi: nat)
    requires lo < hi <= |messages|
    requires !messages[lo].System?
    requires forall i :: lo <= i < hi ==> !messages[i].System? && messages[i].sender == messages[lo].sender
    ensures forall i :: lo < i < hi ==> !ShowsSender(messages, i)
  {
  }
}
