# WhatsApp export reader, modelled in Dafny

This project models the core of a browser application that reads a WhatsApp chat export
(the `_chat.txt` file of an exported chat) and shows it as a conversation. The core is:

- the parser of `src/utils/chatParser.ts`:
  - `parseWhatsAppChat` splits the export into lines and detects the dialect: the iOS
    "bracket" dialect `[d/m/y, h:mm:ss AM] sender: text`, or the Android "dash" dialect
    `m/d/y, h:mm AM - sender: text`;
  - it then walks the lines, opening a message at each header line and appending
    continuation lines to an open text message;
  - `parseBracketFormat` and `parseDashFormat` turn a header into a text, attachment or
    system message;
  - `parseDateTime` and `convertTo24Hour` turn the header's date and 12-hour clock into
    date-time fields;
  - `extractAttachmentName` and `extractDashFormatFileName` pull file names out of
    attachment lines;
  - `extractUsers` lists the distinct participants in sorted order;
- the message union and its three type guards, `src/types/messages.ts`;
- `getUserColor`, `src/utils/colorUtils.ts`: a 32-bit string hash that picks one of eighteen
  colours;
- the state and logic of `src/components/ChatView.tsx`:
  - loading the chat;
  - the default primary user;
  - changing the primary user;
  - grouping the messages into runs of one day;
- the rendering decisions of `src/components/chat/MessageGroup.tsx`:
  - the `previousSender` carried from one message to the next;
  - whether the sender's name is shown;
  - whether a message is the reader's own;
  - the attachment URL looked up by file name.

## How the model is built

**Recognisers.** Each regular expression of the parser is a hand-written recogniser over
`seq<char>` (module `Headers`, module `Attachments`).

- Every recogniser is sound: what it returns re-renders to exactly the input.
- Every recogniser is complete: a round-trip lemma (`...Of`) shows that every well-formed
  rendering is recognised with the same fields.
- The search expressions are specified as the leftmost match, with the greedy choice at that
  position, in the way JavaScript's backtracking engine chooses. These are at lines 258, 268
  and 272 of the parser, and at line 175 for the media extensions.

**The parser.** `ParseWhatsAppChat` is the loop of the source. It keeps:

- the open message;
- the string gathered for it;
- the messages pushed so far.

It is proved equal to `ParseChat`, a functional description: trim the lines, drop the blank
ones, mark the headers, and `Assemble` each header with the lines up to the next header.
The properties of the parser are proved about `ParseChat`:

- preamble lines are skipped;
- one message per header that classifies;
- continuation text is joined with newlines;
- senders are non-empty and hold no ':';
- blank input gives no messages.

**Participants.** `ExtractUsers` is proved to return the trimmed senders, strictly sorted.
`StrictlySortedUnique` shows the result depends on nothing else.

**The hash.** `GetUserColor` is proved against the function `Hash`. The 32-bit wrap of
`hash << 5` is written out with `ToInt32`, over the UTF-16 code units of the name.

**The component.** `ChatView` is a class whose fields are the component's state variables.
`GroupMessagesByDate` is proved to split the messages into maximal runs of one day. Such a
split is unique (`GroupingUnique`).

**Rendering.** `RenderMessages` is the `map` over `renderMessage`. Its entries are
characterised message by message; `ShownSenderCovers` and `SameSenderRun` say what the
shown names amount to.

**Where the code and the description of the program differ, the model follows the code.**

- **Dialect detection.** The dialect is decided from the first line of the input as it
  stands (`lines[0]`), not from the first non-blank line. `ChatParser.LeadingBlankLine`
  shows the consequence: an export that begins with an empty line is always read in the
  dash dialect. `ChatParser.DashIgnoresBracketLines` shows that a bracket-dialect export
  read that way yields no messages at all.
- **White space before AM/PM.** The header expressions accept any white-space character
  before `AM`/`PM`, but `convertTo24Hour` splits only on a plain space.
  `DateTimes.ConvertOddGap` and `DateTimes.NormaliseOddGap` state what the code then
  produces:
  - the hour is not converted to 24-hour form;
  - the meridiem stays attached to the minutes (or to the seconds).

  The caller replaces U+202F with a space before parsing. A tab or U+00A0 still takes this
  path.

## Model

| member | source | states |
|---|---|---|
| JsStrings.Trim | src/utils/chatParser.ts:42 | `trim()` leaves a result that starts and ends with a non-white character, or is empty |
| JsStrings.TrimIsSlice | src/utils/chatParser.ts:42 | the result of `trim()` is one contiguous slice of the input with only white space before and after it; with `Trim`'s non-white ends, exactly the white space at the two ends is removed |
| JsStrings.TrimOfTrimmed | src/utils/chatParser.ts:16 | trimming a string with no white space at either end leaves it unchanged |
| JsStrings.IndexOf | src/utils/chatParser.ts:101-105 | the search finds the first occurrence at or after the start position, and reports none exactly when there is none |
| JsStrings.Contains | src/utils/chatParser.ts:101-105 | `includes` holds exactly when the pattern occurs somewhere |
| JsStrings.Split | src/utils/chatParser.ts:32 | `split` returns at least one part, and joining the parts with the separator gives back the input |
| JsStrings.SplitJoin | src/utils/chatParser.ts:32 | splitting a join of separator-free parts gives back exactly those parts (the inverse of `Split`) |
| JsStrings.PadStart2 | src/utils/chatParser.ts:224 | `padStart(2, '0')` yields at least two characters, ending with the input and preceded only by '0' |
| JsStrings.NatToString | src/utils/chatParser.ts:250 | a number prints as a non-empty run of decimal digits whose value is the number; one digit exactly below ten |
| JsStrings.ParseIntOfDigits | src/utils/chatParser.ts:242 | `parseInt` of a run of decimal digits is the value of those digits |
| JsStrings.LexLessTotal | src/utils/chatParser.ts:21 | the sort order compares any two distinct names one way or the other |
| JsStrings.LexLessTransitive | src/utils/chatParser.ts:21 | the sort order is transitive |
| Messages.IsTextMessage | src/types/messages.ts:30-31 | the guard holds exactly for text messages |
| Messages.IsAttachmentMessage | src/types/messages.ts:33-34 | the guard holds exactly for attachment messages |
| Messages.IsSystemMessage | src/types/messages.ts:36-37 | the guard holds exactly for system messages |
| Messages.ExactlyOneGuard | src/types/messages.ts:2-37 | every message satisfies exactly one of the three guards, and carries a sender exactly when it is not a system message |
| DateTimes.AdjustHourOfMeridiem | src/utils/chatParser.ts:244-248 | the AM/PM adjustment of `convertTo24Hour` is the 12-hour to 24-hour rule |
| DateTimes.Hour24Bijective | src/utils/chatParser.ts:244-248 | on clock hours 1-12 with AM or PM the rule lands in 0-23, and different clock readings give different hours |
| DateTimes.Hour24Onto | src/utils/chatParser.ts:244-248 | every hour 0-23 is reached by some clock hour with AM or PM |
| DateTimes.ConvertHeaderTime | src/utils/chatParser.ts:238-251 | for a header time with a plain space before the meridiem: the hour in 24-hour form, padded to two digits; the minutes kept; the seconds kept or "00" |
| DateTimes.ConvertOddGap | src/utils/chatParser.ts:238-251 | for a header time with other white space before the meridiem: the hour is left in 12-hour form, and the meridiem stays glued to the last clock field |
| DateTimes.NormaliseHeaderStamp | src/utils/chatParser.ts:199-226 | a header date and time give year (two digits widened to 20xx), month and day (swapped between dialects, padded) and the converted clock |
| DateTimes.NormaliseOddGap | src/utils/chatParser.ts:199-226 | as `NormaliseHeaderStamp`, for a time with non-space white space before the meridiem: the clock fields `ConvertOddGap` gives |
| Headers.ParseDigits | src/utils/chatParser.ts:91 | `\d{m,n}` before a non-digit: succeeds exactly when the maximal digit run has length in [m, n], and splits the input at its end |
| Headers.ParseDigitsOf | src/utils/chatParser.ts:91 | every digit run of allowed length followed by a non-digit is recognised, with that split |
| Headers.ParseDate | src/utils/chatParser.ts:91 | a recognised date is well formed and re-renders, with the remainder, to the input |
| Headers.ParseDateOf | src/utils/chatParser.ts:91 | every well-formed date is recognised as itself |
| Headers.ParseTime | src/utils/chatParser.ts:91 | a recognised time is well formed, has seconds exactly as asked, and re-renders to the input |
| Headers.ParseTimeOf | src/utils/chatParser.ts:91 | every well-formed time is recognised as itself |
| Headers.ParseBracketPrefix | src/utils/chatParser.ts:91 | a recognised bracket header prefix is well formed and re-renders to the input |
| Headers.ParseBracketPrefixOf | src/utils/chatParser.ts:91 | every well-formed bracket header prefix is recognised as itself |
| Headers.ParseDashPrefix | src/utils/chatParser.ts:48 | a recognised dash header prefix is well formed and re-renders to the input |
| Headers.ParseDashPrefixOf | src/utils/chatParser.ts:48 | every well-formed dash header prefix is recognised as itself |
| Headers.ParseTail | src/utils/chatParser.ts:141 | a recognised sender-and-content tail has a non-empty sender without ':' (required in the bracket dialect) and content without line terminators, and re-renders to the input |
| Headers.ParseTailOf | src/utils/chatParser.ts:141 | every well-formed tail is recognised as itself |
| Headers.MatchBracketLine | src/utils/chatParser.ts:90-94 | a match of the bracket line expression is a well-formed line that re-renders to the input |
| Headers.MatchBracketLineOf | src/utils/chatParser.ts:90-94 | every well-formed bracket line matches, with its own fields |
| Headers.MatchDashLine | src/utils/chatParser.ts:140-144 | a match of the dash line expression is a well-formed line that re-renders to the input |
| Headers.MatchDashLineOf | src/utils/chatParser.ts:140-144 | every well-formed dash line matches, with its own fields |
| Headers.SystemText | src/utils/chatParser.ts:160-163 | the system text is what follows the header prefix when that is non-empty and on one line, and the whole line otherwise |
| Headers.SystemTextOf | src/utils/chatParser.ts:160-163 | on a well-formed dash line the system text is the line's tail when that is non-empty and on one line, and the whole line otherwise |
| Attachments.AttachAt | src/utils/chatParser.ts:258 | a match found at a given `<attached:` is a genuine match of the expression there |
| Attachments.AttachAtGreedy | src/utils/chatParser.ts:258 | the match at a given `<attached:` is the one the engine picks (all the white space, then the name up to the nearest '>'); none is reported only when none exists there |
| Attachments.AttachSearch | src/utils/chatParser.ts:258 | a match reported by the search is a genuine match of the expression at or after the start |
| Attachments.AttachSearchLeftmost | src/utils/chatParser.ts:258 | the search finds the leftmost match, with the greedy choice, and reports none only when no match exists |
| Attachments.ExtractAttachmentName | src/utils/chatParser.ts:257-260 | the name is the captured group of the leftmost match (non-empty, without '>'), or the whole content when there is no match |
| Attachments.ExtractAttachmentNameOf | src/utils/chatParser.ts:257-260 | `<attached:`, white space, a name and '>' give back exactly that name |
| Attachments.LastCandidate | src/utils/chatParser.ts:268 | a reported dot position is a genuine candidate for the file-name pattern inside the window |
| Attachments.LastCandidateGreatest | src/utils/chatParser.ts:268 | the reported dot is the last candidate in the window (the greedy name part), and none is reported only when there is none |
| Attachments.FirstCandidate | src/utils/chatParser.ts:268-272 | a reported start and dot form a genuine candidate at or after the start |
| Attachments.FirstCandidateLeftmost | src/utils/chatParser.ts:268-272 | the reported candidate starts leftmost, takes the last possible dot, and none is reported only when none exists |
| Attachments.ExtractDashFormatFileName | src/utils/chatParser.ts:266-274 | the trimmed group of the match of line 268 the search finds; when there is none, of the match of line 272; when neither matches, the content unchanged. A name found holds a '.' and only file-name characters |
| Attachments.ExtractDashFormatFileNameChosen | src/utils/chatParser.ts:266-274 | the name is the trimmed group of the leftmost match of line 268, with the greatest dot at its start, when that expression matches anywhere; otherwise the same for line 272; otherwise the content itself |
| Attachments.TrimmedGroup | src/utils/chatParser.ts:269 | the trimmed captured group holds the dot and only file-name characters |
| Attachments.DashFileNameOf | src/utils/chatParser.ts:266-274 | a line `name.ext (file attached)` gives back the trimmed `name.ext` |
| Attachments.HasMediaExtension | src/utils/chatParser.ts:175 | the test holds exactly when a '.', a media extension in any letter case and a white-space character occur in a row |
| Attachments.NoDotNoMedia | src/utils/chatParser.ts:175 | content without a '.' never has a media extension |
| Classifier.ContainsAny | src/utils/chatParser.ts:100-106 | the phrase test holds exactly when one of the phrases occurs |
| Classifier.ParseBracketFormat | src/utils/chatParser.ts:88-133 | a message exactly when the line matches. It is a system message exactly when the content holds a system phrase, and then its text is the content. Otherwise it is an attachment exactly when the content holds `<attached:`, named by `ExtractAttachmentName` of the content, and otherwise a text whose text is the content. A non-system message carries the matched sender, and every message carries the header's date and time |
| Classifier.BracketMessage | src/utils/chatParser.ts:96-132 | the message built from a match has the kind, sender, text or file name and date and time that `ParseBracketFormat` promises; a system message's text is the content |
| Classifier.BracketSystemContentNonEmpty | src/utils/chatParser.ts:100-110 | a content that holds a system phrase is never empty, so the fall-back to the whole line at line 110 is never taken |
| Classifier.ParseBracketTextOf | src/utils/chatParser.ts:127-132 | a well-formed line without system phrase or attachment tag gives a text message with its sender, stamp and content |
| Classifier.ParseBracketAttachmentOf | src/utils/chatParser.ts:115-124 | a line whose content is `<attached: name>` gives an attachment message with exactly that name |
| Classifier.ParseDashFormat | src/utils/chatParser.ts:138-194 | a message exactly when the line matches. It is a system message exactly when the system test holds, and then its text is `SystemText`. Otherwise it is an attachment exactly when the content has the file tag or a media extension, named by `ExtractDashFormatFileName` of the content, and otherwise a text with the non-empty content. Every message carries the header's date and time |
| Classifier.DashSenderColonRedundant | src/utils/chatParser.ts:150-158 | the test that the sender holds no ':' never changes the outcome, because a matched sender never holds one |
| Classifier.ParseDashTextOf | src/utils/chatParser.ts:188-193 | a well-formed line with sender and content, and neither system phrase nor attachment marker, gives a text message with exactly those |
| Classifier.ParseDashAttachmentOf | src/utils/chatParser.ts:173-185 | a line whose content is `name.ext (file attached)` gives an attachment message named by the trimmed `name.ext` |
| Classifier.ParseDashSystemOf | src/utils/chatParser.ts:150-170 | a line without sender or without content gives a system message whose text is the line's tail |
| ChatParser.ParseWhatsAppChat | src/utils/chatParser.ts:27-83 | the loop produces exactly the messages `ParseChat` describes |
| ChatParser.FirstLine | src/utils/chatParser.ts:38-39 | before the first line nothing is pushed and nothing is open, so everything is still to come |
| ChatParser.BlankLine | src/utils/chatParser.ts:42-43 | a blank line changes nothing |
| ChatParser.HeaderLine | src/utils/chatParser.ts:50-67 | a header line pushes the open message, closed over its gathered text, and opens the message the header classifies to |
| ChatParser.BodyLine | src/utils/chatParser.ts:68-71 | a non-header line is appended, after a newline, to an open text message, and is dropped otherwise |
| ChatParser.LastLine | src/utils/chatParser.ts:75-80 | at the end, pushing the open message completes the result |
| ChatParser.AssembleSkipsPreamble | src/utils/chatParser.ts:68 | lines before the first header contribute nothing |
| ChatParser.AssembleCount | src/utils/chatParser.ts:50-67 | the number of messages is the number of header lines that classify |
| ChatParser.CloseText | src/utils/chatParser.ts:62-70 | a text message's final text is its header content and its continuation lines, joined with newlines |
| ChatParser.CloseOther | src/utils/chatParser.ts:68 | an attachment or a system message ignores the lines that follow it |
| ChatParser.ParseChatSenders | src/utils/chatParser.ts:27-83 | every parsed text or attachment message has a non-empty sender without ':' |
| ChatParser.ParseChatBlank | src/utils/chatParser.ts:28-43 | empty or all-blank input gives no messages |
| ChatParser.LeadingBlankLine | src/utils/chatParser.ts:36 | an input starting with an empty line is read in the dash dialect, whatever follows |
| ChatParser.DashHeaderNeedsDigit | src/utils/chatParser.ts:46-48 | in the dash dialect a line not starting with a digit never opens a message |
| ChatParser.DashIgnoresBracketLines | src/utils/chatParser.ts:46-48 | read in the dash dialect, lines that start with '[' yield no messages |
| ChatParser.DashLineScan | src/utils/chatParser.ts:46-61 | a well-formed dash line opens a message, classified by the dash classifier |
| ChatParser.BracketLineScan | src/utils/chatParser.ts:46-61 | a well-formed bracket line opens a message, classified by the bracket classifier |
| ChatParser.Insert | src/utils/chatParser.ts:21 | inserting into a sorted list keeps it sorted, with exactly one more copy of the new name |
| ChatParser.SortStrings | src/utils/chatParser.ts:21 | the sort returns a sorted permutation of its input |
| ChatParser.ExtractUsers | src/utils/chatParser.ts:8-22 | the users are strictly sorted, and a name is listed exactly when it is the trimmed sender of some non-system message with a non-empty sender |
| ChatParser.StrictlySortedUnique | src/utils/chatParser.ts:8-22 | two strictly sorted lists with the same names are equal, so the user list depends only on the set of trimmed senders |
| Colors.CharUnits | src/utils/colorUtils.ts:31-32 | a character is one UTF-16 code unit below U+10000 and otherwise a surrogate pair that encodes it |
| Colors.CodeUnits | src/utils/colorUtils.ts:31-32 | a name has at least as many code units as characters, each below 2^16 |
| Colors.CodeUnitsOfBmp | src/utils/colorUtils.ts:31-32 | on names without characters above U+FFFF the code units are the character codes |
| Colors.ToInt32 | src/utils/colorUtils.ts:32 | the 32-bit conversion gives the signed 32-bit integer congruent to the input modulo 2^32 |
| Colors.ShiftLeft5IsWrappedProduct | src/utils/colorUtils.ts:32 | `hash << 5` is `hash * 32` wrapped to 32 bits |
| Colors.GetUserColor | src/utils/colorUtils.ts:28-38 | the colour is the one the hash of the name's code units selects, so it depends on the name alone, and it is one of the eighteen colours |
| Colors.HashBound | src/utils/colorUtils.ts:30-33 | for names shorter than 2^21 code units the hash stays below 2^53 in magnitude, where doubles are exact |
| Colors.EmptyNameColor | src/utils/colorUtils.ts:28-38 | the empty name hashes to 0 and gets the first colour |
| Colors.SingleUnitHash | src/utils/colorUtils.ts:30-33 | a one-character name below U+10000 hashes to its own code |
| ChatView.ChatViewState.constructor | src/components/ChatView.tsx:30-33 | the state starts with no messages, no users and no primary user |
| ChatView.ChatViewState.Load | src/components/ChatView.tsx:36-50 | the messages are the parse of the text and the users its participants; when no primary user was chosen, it becomes the least participant in sort order |
| ChatView.ChatViewState.SelectUser | src/components/ChatView.tsx:52-54 | the primary user becomes the chosen one; nothing else changes |
| ChatView.GroupMessagesByDate | src/components/ChatView.tsx:76-101 | the groups hold the messages in order, each group is non-empty and of one day, and neighbouring groups are of different days |
| ChatView.GroupingUnique | src/components/ChatView.tsx:76-101 | there is only one such grouping of a message list |
| ChatView.FirstGroup | src/components/ChatView.tsx:84-92 | the first group is a non-empty prefix of the messages, all of its day |
| ChatView.NextGroup | src/components/ChatView.tsx:84-89 | the message after the first group is of another day |
| MessageGroup.AttachmentUrl | src/components/chat/MessageGroup.tsx:63 | a URL exactly when the file name is a key of the attachments, and then the one stored under it |
| MessageGroup.PreviousSenderStep | src/components/chat/MessageGroup.tsx:27-42 | a system message clears `previousSender` and any other message becomes it; a non-system message shows its sender exactly when it opens the group, follows a system message or follows another sender |
| MessageGroup.RenderMessages | src/components/chat/MessageGroup.tsx:24-75 | one entry per message, in order, each of the message's kind. Apart from system messages, each is marked as the reader's own exactly when its sender is the primary user, and shows its sender exactly when it opens the group, follows a system message or follows another sender. Attachments carry the URL stored under their file name |
| MessageGroup.ShownSenderCovers | src/components/chat/MessageGroup.tsx:36-42 | a message that hides its sender continues an unbroken run of that sender whose first message shows it |
| MessageGroup.SameSenderRun | src/components/chat/MessageGroup.tsx:36-42 | in an unbroken run of one sender only the first message shows the sender |
| Samples.DashTextSample | src/utils/chatParser.ts:138-194 | `05/15/24, 10:30 AM - Alex: Hi` parses to one text message from Alex at 2024-05-15 10:30:00 |
| Samples.DashContinuationSample | src/utils/chatParser.ts:68-71 | a following line `there` is appended to that text after a newline |
| Samples.BracketAttachmentSample | src/utils/chatParser.ts:115-124 | `[01/02/2024, 09:00:00 AM] Alex: <attached: photo.jpg>` parses to one attachment `photo.jpg` from Alex at 2024-02-01 09:00:00 (day first) |
| Samples.DashSystemSample | src/utils/chatParser.ts:150-170 | `05/15/24, 10:30 AM - Alex created this group` parses to one system message whose text is everything after the dash |

## Left out

- Dates:
  - JavaScript's `Date` is not modelled: a parsed stamp is the record of the ISO fields `parseDateTime` composes (`At`).
  - The source's fall-back to the current time, taken where the code would throw, is the opaque value `Now`.
  - Whether a composed string is a valid date (`Invalid Date`) is not decided.
- The `Intl` formatters are not modelled. `formatMessageDay` is the parameter `dayKey` of `ChatView.GroupMessagesByDate`, which is proved for every such function. `formatMessageTime` is left out, because it only formats for display.
- ChatParser.SortStrings: orders names by code points, not by the locale-aware `localeCompare`. Locale collation data is not available to the model.
- Colors.GetUserColor: the hash is an unbounded integer, not a double. `Colors.HashBound` shows the two agree for names shorter than 2^21 code units; longer names are not modelled.
- The clean-up of the text before parsing (removing U+200E and replacing U+202F, `src/components/ChatView.tsx:37`) is left out: it is a character replacement in the caller, and `Load` takes the already cleaned text.
- The `console.error` logging in the parser is left out.
- The `try`/`catch` around classification (`src/utils/chatParser.ts:60-67`) is left out: the classifiers never throw, so the catch is unreachable.
- The `typeof chatText !== 'string'` guard is left out, because Dafny's types already exclude it; the empty-string check is modelled.
- React is left out: rendering, keys, styling, the loading flag, and re-running the effect when `primaryUser` changes. `Load` models one run of the effect.
- `MessageGroup.AttachmentUrl` looks up own keys only. A JavaScript object would also answer for inherited names such as `constructor`; that is not modelled.
- The in-place update of `currentMessage.text` at the flushes (`src/utils/chatParser.ts:53-55` and 76-78) is a value update of the open message. No other reference to that object exists before it is pushed, so no aliasing is lost.
- The other components (file upload, processing of the zip archive, the theme toggle, the message views) are not part of this model.
