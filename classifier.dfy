/**
 * `parseBracketFormat` and `parseDashFormat` (src/utils/chatParser.ts): a header line becomes
 * a system, attachment or text message, or nothing when the line does not match the
 * dialect's header pattern.
 */
module Classifier {
  import opened Wrappers
  import opened JsStrings
  import opened Messages
  import opened DateTimes
  import opened Headers
  import opened Attachments

  const BracketSystemPhrases: seq<string> :=
    ["Messages and calls are end-to-end encrypted", "created this group", "added you",
     "Missed voice call", "Voice call"]

  /** The dash format checks only the first three phrases. */
  const DashSystemPhrases: seq<string> :=
    ["Messages and calls are end-to-end encrypted", "created this group", "added you"]

  /** `s` contains one of `phrases`. */
  function ContainsAny(s: string, phrases: seq<string>): (r: bool)
    ensures r <==> exists k :: 0 <= k < |phrases| && Contains(s, phrases[k])
  {
    if phrases == [] then false
    else Contains(s, phrases[0]) || ContainsAny(s, phrases[1..])
  }

  /** `content = ''`: the content group, or the empty string when it did not take part. */
  function ContentOf(t: Tail): string {
    if t.content.Some? then t.content.value.text else ""
  }

  /** The `datetime` of a header: `parseDateTime(`${dateStr}, ${timeStr}`, isBracketFormat)`. */
  function HeaderStamp(date: DateText, time: TimeText, isBracket: bool): Timestamp {
    ParseDateTime(DateStr(date) + ", " + TimeStr(time), isBracket)
  }

  // ---------------------------------------------------------------------------
  // Bracket format
  // ---------------------------------------------------------------------------

  /** `parseBracketFormat(line)`. A system message's text is its content, which holds one of
      the phrases; a text or attachment message has a sender of one or more characters other
      than ':'. */
  function ParseBracketFormat(line: string): (r: Option<ChatMessage>)
    ensures r.Some? <==> MatchBracketLine(line).Some?
    ensures r.Some? ==> BracketRendered(line, MatchBracketLine(line).value, r.value)
  {
    match MatchBracketLine(line)
    case None => None
    case Some(m) => Some(BracketMessage(line, m))
  }

  /** What a bracket header's message holds: the header's time stamp; a system message when
      the content names a system event, with the content as its text; otherwise the sender,
      and an attachment exactly when the content holds the attachment tag, named by
      `ExtractAttachmentName`, or else a text message whose text is the content. */
  predicate BracketRendered(line: string, m: BracketLine, msg: ChatMessage) {
    && msg.datetime == HeaderStamp(m.prefix.date, m.prefix.time, true)
    && (msg.System? <==> ContainsAny(ContentOf(m.tail), BracketSystemPhrases))
    && (msg.System? ==> msg.text == ContentOf(m.tail))
    && (msg.Attachment? <==> !msg.System? && Contains(ContentOf(m.tail), AttachedTag))
    && (msg.Attachment? ==> msg.fileName == ExtractAttachmentName(ContentOf(m.tail)))
    && (msg.Text? ==> msg.text == ContentOf(m.tail))
    && (!msg.System? ==> m.tail.sender.Some? && msg.sender == m.tail.sender.value
                         && msg.sender != [] && ':' !in msg.sender)
  }

  /** The message built from a recognised bracket line. */
  function BracketMessage(line: string, m: BracketLine): (r: ChatMessage)
    requires WfBracketLine(m)
    ensures BracketRendered(line, m, r)
  {
    var sender := m.tail.sender.value;
    var content := ContentOf(m.tail);
    var datetime := HeaderStamp(m.prefix.date, m.prefix.time, true);
    if ContainsAny(content, BracketSystemPhrases) then
      BracketSystemContentNonEmpty(content);
      System(datetime, if content != "" then content else line)
    else if Contains(content, AttachedTag) then
      Attachment(sender, datetime, ExtractAttachmentName(content))
    else
      Text(sender, datetime, content)
  }

  /** A content that names a system event is never empty, so the fallback to the whole line
      for an empty system text (line 110) is never taken: a system message's text is its
      content. */
  lemma BracketSystemContentNonEmpty(content: string)
    requires ContainsAny(content, BracketSystemPhrases)
    ensures content != ""
  {
    var k :| 0 <= k < |BracketSystemPhrases| && Contains(content, BracketSystemPhrases[k]);
    var n :| OccursAt(content, BracketSystemPhrases[k], n);
    assert |BracketSystemPhrases[k]| > 0;
  }

  /** A bracket line whose content names no system event and no attachment reads back as
      the text message it renders. */
  lemma ParseBracketTextOf(m: BracketLine)
    requires WfBracketLine(m)
    requires !ContainsAny(ContentOf(m.tail), BracketSystemPhrases)
    requires !Contains(ContentOf(m.tail), AttachedTag)
    ensures ParseBracketFormat(BracketLineStr(m))
         == Some(Text(m.tail.sender.value, HeaderStamp(m.prefix.date, m.prefix.time, true),
                      ContentOf(m.tail)))
  {
    MatchBracketLineOf(m);
  }

  /** A bracket line whose content is `<attached: name>` reads back as an attachment of
      `name`, unless the content names a system event. */
  lemma ParseBracketAttachmentOf(m: BracketLine, name: string)
    requires WfBracketLine(m) && m.tail.content.Some?
    requires m.tail.content.value.text == AttachedTag + " " + name + ">"
    requires name != [] && !IsWhite(name[0]) && '>' !in name
    requires !ContainsAny(ContentOf(m.tail), BracketSystemPhrases)
    ensures ParseBracketFormat(BracketLineStr(m))
         == Some(Attachment(m.tail.sender.value, HeaderStamp(m.prefix.date, m.prefix.time, true), name))
  {
    AttachedContent(ContentOf(m.tail), name);
    MatchBracketLineOf(m);
  }

  /** `<attached: name>` holds the tag and names `name`. */
  lemma AttachedContent(content: string, name: string)
    requires content == AttachedTag + " " + name + ">"
    requires name != [] && !IsWhite(name[0]) && '>' !in name
    ensures Contains(content, AttachedTag) && ExtractAttachmentName(content) == name
  {
    assert OccursAt(content, AttachedTag, 0);
    assert content == AttachedTag + " " + name + ">" + "";
    ExtractAttachmentNameOf(" ", name, "");
  }

  // ---------------------------------------------------------------------------
  // Dash format
  // ---------------------------------------------------------------------------

  /** The test that makes a dash line a system message. The source also requires that the
      sender contain no ':', which the pattern already guarantees. */
  predicate DashSystem(line: string, m: DashLine) {
    || m.tail.sender.None?
    || ContentOf(m.tail) == ""
    || (m.tail.sender.Some? && ':' !in m.tail.sender.value && ContainsAny(line, DashSystemPhrases))
  }

  /** The test that makes a dash line an attachment. */
  predicate DashAttachment(content: string) {
    Contains(content, FileAttachedTag) || HasMediaExtension(content)
  }

  /** `parseDashFormat(line)`. A system message's text is the text after the header prefix
      when that is a non-empty single line, and the whole line otherwise. */
  function ParseDashFormat(line: string): (r: Option<ChatMessage>)
    ensures r.Some? <==> MatchDashLine(line).Some?
    ensures r.Some? ==>
              var m := MatchDashLine(line).value;
              && r.value.datetime == HeaderStamp(m.prefix.date, m.prefix.time, false)
              && (r.value.System? <==> DashSystem(line, m))
              && (r.value.System? ==> r.value.text == SystemText(line))
              && (r.value.Attachment? <==> !DashSystem(line, m) && DashAttachment(ContentOf(m.tail)))
              && (r.value.Attachment? ==> r.value.fileName == ExtractDashFormatFileName(ContentOf(m.tail)))
              && (r.value.Text? ==> r.value.text == ContentOf(m.tail) && r.value.text != [])
              && (!r.value.System? ==> r.value.sender == m.tail.sender.value
                                       && r.value.sender != [] && ':' !in r.value.sender)
  {
    match MatchDashLine(line)
    case None => None
    case Some(m) =>
      var content := ContentOf(m.tail);
      var datetime := HeaderStamp(m.prefix.date, m.prefix.time, false);
      if DashSystem(line, m) then
        Some(System(datetime, SystemText(line)))
      else if DashAttachment(content) then
        Some(Attachment(m.tail.sender.value, datetime, ExtractDashFormatFileName(content)))
      else
        Some(Text(m.tail.sender.value, datetime, content))
  }

  /** The sender check on the system test never changes its outcome. */
  lemma DashSenderColonRedundant(line: string, m: DashLine)
    requires WfDashLine(m)
    ensures DashSystem(line, m)
        <==> (m.tail.sender.None? || ContentOf(m.tail) == "" || ContainsAny(line, DashSystemPhrases))
  {
  }

  /** A dash line with a sender and a non-empty content that names no system event and no
      attachment reads back as the text message it renders. */
  lemma ParseDashTextOf(m: DashLine)
    requires WfDashLine(m) && m.tail.sender.Some? && ContentOf(m.tail) != []
    requires !ContainsAny(DashLineStr(m), DashSystemPhrases)
    requires !DashAttachment(ContentOf(m.tail))
    ensures ParseDashFormat(DashLineStr(m))
         == Some(Text(m.tail.sender.value, HeaderStamp(m.prefix.date, m.prefix.time, false),
                      ContentOf(m.tail)))
  {
    MatchDashLineOf(m);
  }

  /** A dash line whose content is `name.ext (file attached)` reads back as an attachment of
      the trimmed `name.ext`, unless the line names a system event. */
  lemma ParseDashAttachmentOf(m: DashLine, base: string, ext: string)
    requires WfDashLine(m) && m.tail.sender.Some? && m.tail.content.Some?
    requires m.tail.content.value.text == base + "." + ext + " " + FileAttachedTag
    requires WfFileName(base, ext)
    requires !ContainsAny(DashLineStr(m), DashSystemPhrases)
    ensures ParseDashFormat(DashLineStr(m))
         == Some(Attachment(m.tail.sender.value, HeaderStamp(m.prefix.date, m.prefix.time, false),
                            Trim(base + "." + ext)))
  {
    MatchDashLineOf(m);
    DashFileNameOf(base, ext);
  }

  /** A dash line with no sender, or with nothing after the sender, reads back as a system
      message whose text is everything after the header prefix. */
  lemma ParseDashSystemOf(m: DashLine)
    requires WfDashLine(m) && (m.tail.sender.None? || ContentOf(m.tail) == "")
    requires TailStr(m.tail) != [] && NoLineTerminator(TailStr(m.tail))
    ensures ParseDashFormat(DashLineStr(m))
         == Some(System(HeaderStamp(m.prefix.date, m.prefix.time, false), TailStr(m.tail)))
  {
    MatchDashLineOf(m);
    SystemTextOf(m);
  }
}
