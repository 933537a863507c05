/**
 * `parseWhatsAppChat` and `extractUsers` (src/utils/chatParser.ts).
 *
 * The parser is a loop over the lines of the transcript that keeps one open message and the
 * text accumulated for it. Its meaning is given by `Assemble`, a function over the trimmed,
 * non-blank lines: each header line opens a message, the non-header lines after it are its
 * body, and a body is appended to a text message and dropped otherwise.
 */
module ChatParser {
  import opened Wrappers
  import opened JsStrings
  import opened Messages
  import opened Headers
  import opened Classifier

  // ---------------------------------------------------------------------------
  // Lines, headers and bodies
  // ---------------------------------------------------------------------------

  /** `isBracketFormat`: decided once, from the first line of the input. */
  function IsBracketDialect(lines: seq<string>): bool
    requires lines != []
  {
    StartsWith(Trim(lines[0]), "[")
  }

  /** `isNewMessage`: in the bracket dialect any line starting with '['; in the dash dialect a
      line starting with the header prefix of line 48. */
  predicate IsHeader(line: string, isBracket: bool) {
    if isBracket then StartsWith(line, "[") else ParseDashPrefix(line).Some?
  }

  /** The dialect's classifier. */
  function Classify(line: string, isBracket: bool): Option<ChatMessage> {
    if isBracket then ParseBracketFormat(line) else ParseDashFormat(line)
  }

  /** A trimmed, non-blank line together with what the parser decides about it: whether it
      opens a message and, if so, the message its header classifies to. */
  datatype Entry = Entry(line: string, header: bool, parsed: Option<ChatMessage>)

  function Scan(line: string, isBracket: bool): Entry {
    var h := IsHeader(line, isBracket);
    Entry(line, h, if h then Classify(line, isBracket) else None)
  }

  /** Non-blank, with no white space at either end. */
  predicate Trimmed(s: string) {
    s != "" && !IsWhite(s[0]) && !IsWhite(s[|s| - 1])
  }

  /** The entries for the trimmed lines of `ls` that are not blank, in order. */
  function Scanned(ls: seq<string>, isBracket: bool): (r: seq<Entry>)
    ensures |r| <= |ls|
    ensures forall k :: 0 <= k < |r| ==> Trimmed(r[k].line)
  {
    if ls == [] then []
    else
      var t := Trim(ls[0]);
      var rest := Scanned(ls[1..], isBracket);
      if t == "" then rest else [Scan(t, isBracket)] + rest
  }

  /** The number of entries at the start of `c` that are not headers. */
  function BodyLen(c: seq<Entry>): (n: nat)
    ensures n <= |c|
    ensures forall k :: 0 <= k < n ==> !c[k].header
    ensures n < |c| ==> c[n].header
  {
    if c == [] || c[0].header then 0 else 1 + BodyLen(c[1..])
  }

  /** `'\n' + line` for each body line, in order. */
  function JoinBody(body: seq<Entry>): string {
    if body == [] then "" else "\n" + body[0].line + JoinBody(body[1..])
  }

  /** The lines of some entries. */
  function Lines(c: seq<Entry>): (r: seq<string>)
    ensures |r| == |c| && forall k :: 0 <= k < |c| ==> r[k] == c[k].line
  {
    if c == [] then [] else [c[0].line] + Lines(c[1..])
  }

  /** A message once its body is known: a text message gains the body lines, one per line;
      any other message ignores them. */
  function Close(m: ChatMessage, body: seq<Entry>): ChatMessage {
    if m.Text? then m.(text := m.text + JoinBody(body)) else m
  }

  /** What the parser does with the entries `c`: entries before the first header are skipped;
      each header contributes the message it classifies to, closed over the entries up to the
      next header, or nothing when it does not classify. */
  function Assemble(c: seq<Entry>): seq<ChatMessage>
    decreases |c|
  {
    if c == [] then []
    else if !c[0].header then Assemble(c[1..])
    else
      var n := BodyLen(c[1..]);
      var rest := Assemble(c[1 + n..]);
      match c[0].parsed
      case None => rest
      case Some(m) => [Close(m, c[1..1 + n])] + rest
  }

  /** `parseWhatsAppChat(chatText)` as a function. */
  function ParseChat(chatText: string): seq<ChatMessage> {
    if chatText == "" then []
    else
      var lines := Split(chatText, "\n");
      Assemble(Scanned(lines, IsBracketDialect(lines)))
  }

  // ---------------------------------------------------------------------------
  // The loop
  // ---------------------------------------------------------------------------

  /** The flush at lines 53-56 and 76-79: a text message takes the accumulated string. */
  function Flush(m: ChatMessage, acc: string): ChatMessage {
    if m.Text? then m.(text := acc) else m
  }

  /** What the open message becomes when it is pushed. */
  function Emit(current: Option<ChatMessage>, acc: string): seq<ChatMessage> {
    if current.Some? then [Flush(current.value, acc)] else []
  }

  /** What the rest of the run will still push, given the open message, its accumulated
      string and the entries still to come. */
  function Pending(current: Option<ChatMessage>, acc: string, rest: seq<Entry>): seq<ChatMessage> {
    var n := BodyLen(rest);
    Emit(current, acc + JoinBody(rest[..n])) + Assemble(rest[n..])
  }

  /** The string accumulated for a freshly opened message (line 62). */
  function Opened(current: Option<ChatMessage>): string {
    if current.Some? && current.value.Text? then current.value.text else ""
  }

  /** `parseWhatsAppChat(chatText)`: the input is split into lines, the dialect is read off
      the first one, and the lines are taken in turn, keeping the open message and the text
      gathered for it; the open message is pushed when the next header arrives and at the
      end. */
  method ParseWhatsAppChat(chatText: string) returns (messages: seq<ChatMessage>)
    ensures messages == ParseChat(chatText)
  {
    if chatText == "" {
      return [];
    }
    var lines := Split(chatText, "\n");
    var isBracket := StartsWith(Trim(lines[0]), "[");
    messages := [];
    var current: Option<ChatMessage> := None;
    var currentString := "";
    ghost var target := Assemble(Scanned(lines, isBracket));
    FirstLine(lines, isBracket);
    for i := 0 to |lines|
      invariant messages + Pending(current, currentString, Scanned(lines[i..], isBracket)) == target
    {
      var line := Trim(lines[i]);
      if line == "" {
        BlankLine(messages, current, currentString, lines, i, isBracket, target);
        continue;
      }
      var isNew := IsHeader(line, isBracket);
      if isNew {
        HeaderLine(messages, current, currentString, lines, i, isBracket, target);
        if current.Some? {
          messages := messages + [Flush(current.value, currentString)];
        }
        current := Classify(line, isBracket);
        currentString := Opened(current);
      } else {
        BodyLine(messages, current, currentString, lines, i, isBracket, target);
        if current.Some? && current.value.Text? {
          currentString := currentString + "\n" + line;
        }
      }
    }
    LastLine(messages, current, currentString, lines, isBracket, target);
    if current.Some? {
      messages := messages + [Flush(current.value, currentString)];
    }
  }

  /** Before the first line nothing has been pushed and no message is open. */
  lemma FirstLine(lines: seq<string>, isBracket: bool)
    ensures [] + Pending(None, "", Scanned(lines[0..], isBracket)) == Assemble(Scanned(lines, isBracket))
  {
    AssembleSkipsPreamble(Scanned(lines, isBracket));
    assert lines[0..] == lines;
  }

  /** After the last line only the open message is still to be pushed. */
  lemma LastLine(done: seq<ChatMessage>, current: Option<ChatMessage>, acc: string,
                 lines: seq<string>, isBracket: bool, target: seq<ChatMessage>)
    requires done + Pending(current, acc, Scanned(lines[|lines|..], isBracket)) == target
    ensures current.Some? ==> done + [Flush(current.value, acc)] == target
    ensures current.None? ==> done == target
  {
    assert lines[|lines|..] == [];
    assert acc + JoinBody([]) == acc;
    assert done + [] == done;
  }

  /** The loop's step for a blank line. */
  lemma BlankLine(done: seq<ChatMessage>, current: Option<ChatMessage>, acc: string,
                  lines: seq<string>, i: nat, isBracket: bool, target: seq<ChatMessage>)
    requires i < |lines| && Trim(lines[i]) == ""
    requires done + Pending(current, acc, Scanned(lines[i..], isBracket)) == target
    ensures done + Pending(current, acc, Scanned(lines[i + 1..], isBracket)) == target
  {
    ScannedBlank(lines, i, isBracket);
  }

  /** The loop's step for a header line: the open message is pushed and the line's own
      message, if any, is opened. */
  lemma HeaderLine(done: seq<ChatMessage>, current: Option<ChatMessage>, acc: string,
                   lines: seq<string>, i: nat, isBracket: bool, target: seq<ChatMessage>)
    requires i < |lines| && Trim(lines[i]) != "" && IsHeader(Trim(lines[i]), isBracket)
    requires done + Pending(current, acc, Scanned(lines[i..], isBracket)) == target
    ensures var parsed := Classify(Trim(lines[i]), isBracket);
            var after := Pending(parsed, Opened(parsed), Scanned(lines[i + 1..], isBracket));
            && (current.Some? ==> (done + [Flush(current.value, acc)]) + after == target)
            && (current.None? ==> done + after == target)
  {
    var line := Trim(lines[i]);
    var parsed := Classify(line, isBracket);
    var rest := Scanned(lines[i + 1..], isBracket);
    ScannedLine(lines, i, isBracket);
    ScanHeader(line, isBracket, parsed);
    HeaderStep(done, current, acc, Entry(line, true, parsed), rest, target);
    assert done + Emit(None, acc) == done;
  }

  /** The loop's step for a continuation line: it is added to the text gathered for an open
      text message, and ignored otherwise. */
  lemma BodyLine(done: seq<ChatMessage>, current: Option<ChatMessage>, acc: string,
                 lines: seq<string>, i: nat, isBracket: bool, target: seq<ChatMessage>)
    requires i < |lines| && Trim(lines[i]) != "" && !IsHeader(Trim(lines[i]), isBracket)
    requires done + Pending(current, acc, Scanned(lines[i..], isBracket)) == target
    ensures done + Pending(current, if current.Some? && current.value.Text? then acc + "\n" + Trim(lines[i]) else acc,
                           Scanned(lines[i + 1..], isBracket)) == target
  {
    var line := Trim(lines[i]);
    ScannedLine(lines, i, isBracket);
    ScanBody(line, isBracket);
    BodyStep(done, current, acc, Entry(line, false, None), Scanned(lines[i + 1..], isBracket), target);
  }

  /** The pieces of those steps. */
  lemma HeaderStep(done: seq<ChatMessage>, current: Option<ChatMessage>, acc: string, e: Entry,
                   rest: seq<Entry>, target: seq<ChatMessage>)
    requires e.header && done + Pending(current, acc, [e] + rest) == target
    ensures (done + Emit(current, acc)) + Pending(e.parsed, Opened(e.parsed), rest) == target
  {
    PendingHeader(current, acc, e, rest);
    AppendAssoc(done, Emit(current, acc), Pending(e.parsed, Opened(e.parsed), rest));
  }

  lemma AppendAssoc(a: seq<ChatMessage>, b: seq<ChatMessage>, c: seq<ChatMessage>)
    ensures (a + b) + c == a + (b + c)
  {
  }

  lemma BodyStep(done: seq<ChatMessage>, current: Option<ChatMessage>, acc: string, e: Entry,
                 rest: seq<Entry>, target: seq<ChatMessage>)
    requires !e.header && done + Pending(current, acc, [e] + rest) == target
    ensures done + Pending(current, if current.Some? && current.value.Text? then acc + "\n" + e.line else acc,
                           rest) == target
  {
    PendingBody(current, acc, e, rest);
  }

  lemma ScanBody(line: string, isBracket: bool)
    requires !IsHeader(line, isBracket)
    ensures Scan(line, isBracket) == Entry(line, false, None)
  {
  }

  lemma ScanHeader(line: string, isBracket: bool, parsed: Option<ChatMessage>)
    requires IsHeader(line, isBracket) && parsed == Classify(line, isBracket)
    ensures Scan(line, isBracket) == Entry(line, true, parsed)
  {
  }

  /** One more line of input: a blank line adds no entry, any other adds its own. */
  lemma ScannedBlank(lines: seq<string>, i: nat, isBracket: bool)
    requires i < |lines| && Trim(lines[i]) == ""
    ensures Scanned(lines[i..], isBracket) == Scanned(lines[i + 1..], isBracket)
  {
    assert lines[i..][1..] == lines[i + 1..];
  }

  lemma ScannedLine(lines: seq<string>, i: nat, isBracket: bool)
    requires i < |lines| && Trim(lines[i]) != ""
    ensures Scanned(lines[i..], isBracket)
         == [Scan(Trim(lines[i]), isBracket)] + Scanned(lines[i + 1..], isBracket)
  {
    assert lines[i..][1..] == lines[i + 1..];
  }

  /** Entries before the first header do not change the result. */
  lemma {:induction false} AssembleSkipsPreamble(c: seq<Entry>)
    ensures Assemble(c) == Assemble(c[BodyLen(c)..])
    decreases |c|
  {
    if c != [] && !c[0].header {
      AssembleSkipsPreamble(c[1..]);
      assert c[1..][BodyLen(c[1..])..] == c[BodyLen(c)..];
    }
  }

  /** A header flushes the open message and opens the one it classifies to. */
  lemma PendingHeader(current: Option<ChatMessage>, acc: string, e: Entry, rest: seq<Entry>)
    requires e.header
    ensures Emit(current, acc) + Pending(e.parsed, Opened(e.parsed), rest)
         == Pending(current, acc, [e] + rest)
  {
    PendingAtHeader(current, acc, e, rest);
    AssembleHeader(e, rest);
  }

  /** Before a header there is no body: the open message is pushed as it is. */
  lemma PendingAtHeader(current: Option<ChatMessage>, acc: string, e: Entry, rest: seq<Entry>)
    requires e.header
    ensures Pending(current, acc, [e] + rest) == Emit(current, acc) + Assemble([e] + rest)
  {
    var c := [e] + rest;
    assert BodyLen(c) == 0;
    assert c[..0] == [] && c[0..] == c;
    assert acc + JoinBody([]) == acc;
  }

  /** What a header contributes is what remains pending once its message is opened. */
  lemma AssembleHeader(e: Entry, rest: seq<Entry>)
    requires e.header
    ensures Assemble([e] + rest) == Pending(e.parsed, Opened(e.parsed), rest)
  {
    var c := [e] + rest;
    assert c[1..] == rest;
    var n := BodyLen(rest);
    assert c[1..1 + n] == rest[..n] && c[1 + n..] == rest[n..];
    match e.parsed
    case None =>
    case Some(m) =>
      if !m.Text? {
        assert Opened(Some(m)) + JoinBody(rest[..n]) == "" + JoinBody(rest[..n]);
      }
  }

  /** A non-header line joins the body of the open message. */
  lemma PendingBody(current: Option<ChatMessage>, acc: string, e: Entry, rest: seq<Entry>)
    requires !e.header
    ensures Pending(current, if current.Some? && current.value.Text? then acc + "\n" + e.line else acc,
                    rest)
         == Pending(current, acc, [e] + rest)
  {
    var c := [e] + rest;
    var n := BodyLen(rest);
    assert c[1..] == rest;
    assert BodyLen(c) == 1 + n;
    assert c[..1 + n] == [e] + rest[..n];
    assert c[..1 + n][1..] == rest[..n];
    assert c[1 + n..] == rest[n..];
    assert JoinBody(c[..1 + n]) == "\n" + e.line + JoinBody(rest[..n]);
    assert acc + "\n" + e.line + JoinBody(rest[..n]) == acc + JoinBody(c[..1 + n]);
  }

  // ---------------------------------------------------------------------------
  // What the parser promises
  // ---------------------------------------------------------------------------

  /** Every line is blank once trimmed. */
  predicate AllBlank(ls: seq<string>) {
    forall k :: 0 <= k < |ls| ==> Trim(ls[k]) == ""
  }

  /** The empty input, and an input whose lines are all blank, give no messages. */
  lemma ParseChatBlank(chatText: string)
    requires chatText == "" || AllBlank(Split(chatText, "\n"))
    ensures ParseChat(chatText) == []
  {
    if chatText != "" {
      var lines := Split(chatText, "\n");
      BlankScanned(lines, IsBracketDialect(lines));
    }
  }

  lemma {:induction false} BlankScanned(ls: seq<string>, isBracket: bool)
    requires AllBlank(ls)
    ensures Scanned(ls, isBracket) == []
  {
    if ls != [] {
      assert Trim(ls[0]) == "";
      assert forall k :: 0 <= k < |ls[1..]| ==> ls[1..][k] == ls[k + 1];
      BlankScanned(ls[1..], isBracket);
    }
  }

  /** The number of header entries that classify to a message. */
  function CountParsed(c: seq<Entry>): nat {
    if c == [] then 0
    else (if c[0].header && c[0].parsed.Some? then 1 else 0) + CountParsed(c[1..])
  }

  lemma {:induction false} CountParsedBody(c: seq<Entry>, n: nat)
    requires n <= |c| && forall k :: 0 <= k < n ==> !c[k].header
    ensures CountParsed(c) == CountParsed(c[n..])
  {
    if n > 0 {
      CountParsedBody(c[1..], n - 1);
      assert c[1..][n - 1..] == c[n..];
    }
  }

  /** Each header that classifies contributes exactly one message, and nothing else does. */
  lemma {:induction false} AssembleCount(c: seq<Entry>)
    ensures |Assemble(c)| == CountParsed(c)
    decreases |c|
  {
    if c != [] {
      if !c[0].header {
        AssembleCount(c[1..]);
      } else {
        var n := BodyLen(c[1..]);
        CountParsedBody(c[1..], n);
        assert c[1..][n..] == c[1 + n..];
        AssembleCount(c[1 + n..]);
      }
    }
  }

  /** A text message's final text is its header content and then its body lines, joined
      with newlines. */
  lemma {:induction false} CloseText(sender: string, datetime: Timestamp, text: string, body: seq<Entry>)
    ensures Close(Text(sender, datetime, text), body).text == JoinWith([text] + Lines(body), "\n")
    decreases |body|
  {
    if body != [] {
      CloseText(sender, datetime, text + "\n" + body[0].line, body[1..]);
      assert Lines(body) == [body[0].line] + Lines(body[1..]);
      JoinStep(text, Lines(body));
    }
  }

  lemma JoinStep(text: string, body: seq<string>)
    requires body != []
    ensures JoinWith([text] + body, "\n") == JoinWith([text + "\n" + body[0]] + body[1..], "\n")
  {
    var tail := body[1..];
    assert ([text] + body)[1..] == body;
    if tail == [] {
      assert body == [body[0]];
    } else {
      assert ([text + "\n" + body[0]] + tail)[1..] == tail;
      assert JoinWith(body, "\n") == body[0] + "\n" + JoinWith(tail, "\n");
    }
  }

  /** An attachment or a system message ignores the lines that follow it. */
  lemma CloseOther(m: ChatMessage, body: seq<Entry>)
    requires !m.Text?
    ensures Close(m, body) == m
  {
  }

  /** The classifiers give every text and attachment message a sender of one or more
      characters, none of them ':'. */
  predicate GoodSender(m: ChatMessage) {
    !m.System? ==> m.sender != [] && ':' !in m.sender
  }

  lemma ScanSender(line: string, isBracket: bool)
    ensures Scan(line, isBracket).parsed.Some? ==> GoodSender(Scan(line, isBracket).parsed.value)
  {
  }

  lemma {:induction false} ScannedSenders(ls: seq<string>, isBracket: bool)
    ensures forall e :: e in Scanned(ls, isBracket) && e.parsed.Some? ==> GoodSender(e.parsed.value)
  {
    if ls != [] {
      ScannedSenders(ls[1..], isBracket);
      ScanSender(Trim(ls[0]), isBracket);
    }
  }

  /** Assembling keeps the senders the classifiers gave. */
  lemma {:induction false} AssembleSenders(c: seq<Entry>)
    requires forall e :: e in c && e.parsed.Some? ==> GoodSender(e.parsed.value)
    ensures forall m :: m in Assemble(c) ==> GoodSender(m)
    decreases |c|
  {
    if c != [] {
      var n := if c[0].header then 1 + BodyLen(c[1..]) else 1;
      assert forall e :: e in c[n..] ==> e in c;
      AssembleSenders(c[n..]);
      if c[0].header {
        assert c[1..][BodyLen(c[1..])..] == c[n..];
      }
    }
  }

  /** Every text or attachment message the parser produces has a non-empty sender without
      ':'. */
  lemma ParseChatSenders(chatText: string)
    ensures forall m :: m in ParseChat(chatText) ==> GoodSender(m)
  {
    if chatText != "" {
      var lines := Split(chatText, "\n");
      ScannedSenders(lines, IsBracketDialect(lines));
      AssembleSenders(Scanned(lines, IsBracketDialect(lines)));
    }
  }

  /** A blank first line puts the whole input in the dash dialect. */
  lemma LeadingBlankLine(rest: string)
    ensures ParseChat("\n" + rest) == Assemble(Scanned(Split("\n" + rest, "\n"), false))
  {
    var s := "\n" + rest;
    assert OccursAt(s, "\n", 0);
    assert IndexOf(s, "\n", 0) == Some(0);
    assert Split(s, "\n")[0] == s[..0];
    assert Trim("") == "";
  }

  /** In the dash dialect a line that does not start with a digit is never a header. */
  lemma DashHeaderNeedsDigit(line: string)
    requires line != [] && !IsDigit(line[0])
    ensures !IsHeader(line, false)
  {
    assert DigitRun(line) == 0;
    assert ParseDigits(line, 1, 2).None?;
    assert ParseDate(line).None?;
  }

  /** A line with the shape of a dash header opens a message in the dash dialect, which is
      the classified one. */
  lemma DashLineScan(m: DashLine)
    requires WfDashLine(m)
    ensures Scan(DashLineStr(m), false) == Entry(DashLineStr(m), true, ParseDashFormat(DashLineStr(m)))
  {
    MatchDashLineOf(m);
  }

  /** Likewise for a bracket header in the bracket dialect. */
  lemma BracketLineScan(m: BracketLine)
    requires WfBracketLine(m)
    ensures Scan(BracketLineStr(m), true)
         == Entry(BracketLineStr(m), true, ParseBracketFormat(BracketLineStr(m)))
  {
    var line := BracketLineStr(m);
    assert line[0] == '[';
    assert line[..1] == "[";
  }

  /** So in the dash dialect a transcript of bracket lines yields nothing. */
  lemma {:induction false} DashIgnoresBracketLines(ls: seq<string>)
    requires forall k :: 0 <= k < |ls| ==> Trim(ls[k]) == "" || Trim(ls[k])[0] == '['
    ensures Assemble(Scanned(ls, false)) == []
  {
    if ls != [] {
      assert forall k :: 0 <= k < |ls[1..]| ==> ls[1..][k] == ls[k + 1];
      DashIgnoresBracketLines(ls[1..]);
      var t := Trim(ls[0]);
      if t != "" {
        DashHeaderNeedsDigit(t);
        assert Scanned(ls, false) == [Scan(t, false)] + Scanned(ls[1..], false);
      }
    }
  }

  // ---------------------------------------------------------------------------
  // extractUsers
  // ---------------------------------------------------------------------------

  /** The trimmed senders of the messages that have a non-empty sender. */
  function TrimmedSenders(messages: seq<ChatMessage>): set<string> {
    set k | 0 <= k < |messages| && !messages[k].System? && messages[k].sender != [] :: Trim(messages[k].sender)
  }

  /** Strictly ascending in code-point order, and hence free of duplicates. */
  predicate StrictlySorted(s: seq<string>) {
    forall i, j :: 0 <= i < j < |s| ==> LexLess(s[i], s[j])
  }

  /** Ascending in code-point order. */
  predicate Sorted(s: seq<string>) {
    forall i, j :: 0 <= i < j < |s| ==> !LexLess(s[j], s[i])
  }

  /** Code-point order is a total preorder: `x <= a <= b` gives `x <= b`. */
  lemma NotLessTransitive(x: string, a: string, b: string)
    requires !LexLess(a, x) && !LexLess(b, a)
    ensures !LexLess(b, x)
  {
    if b == x {
      LexLessIrreflexive(b);
    } else if a != x && a != b {
      LexLessTotal(a, x);
      LexLessTotal(b, a);
      LexLessTransitive(x, a, b);
      LexLessAsymmetric(x, b);
    }
  }

  /** Inserts `x` into an ascending sequence. */
  function Insert(x: string, s: seq<string>): (r: seq<string>)
    requires Sorted(s)
    ensures Sorted(r) && multiset(r) == multiset(s) + multiset{x}
  {
    if s == [] then [x]
    else if !LexLess(s[0], x) then
      forall k | 0 < k < |s| ensures !LexLess(s[k], x) {
        NotLessTransitive(x, s[0], s[k]);
      }
      [x] + s
    else
      var r := [s[0]] + Insert(x, s[1..]);
      assert multiset(s) == multiset{s[0]} + multiset(s[1..]) by {
        assert s == [s[0]] + s[1..];
      }
      forall k | 0 < k < |r| ensures !LexLess(r[k], s[0]) {
        assert r[k] in multiset(Insert(x, s[1..]));
        assert r[k] == x || r[k] in multiset(s[1..]);
        if r[k] == x {
          LexLessAsymmetric(s[0], x);
        } else {
          var m :| 0 <= m < |s[1..]| && s[1..][m] == r[k];
          assert s[m + 1] == r[k];
        }
      }
      r
  }

  /** `Array.prototype.sort` with the comparator replaced by code-point order. */
  function SortStrings(s: seq<string>): (r: seq<string>)
    ensures Sorted(r) && multiset(r) == multiset(s)
  {
    if s == [] then []
    else
      assert s == [s[0]] + s[1..];
      Insert(s[0], SortStrings(s[1..]))
  }

  /** A sorted sequence without duplicates is strictly sorted. */
  lemma SortedDistinct(s: seq<string>)
    requires Sorted(s) && forall i, j :: 0 <= i < j < |s| ==> s[i] != s[j]
    ensures StrictlySorted(s)
  {
    forall i, j | 0 <= i < j < |s| ensures LexLess(s[i], s[j]) {
      LexLessTotal(s[i], s[j]);
    }
  }

  /** `extractUsers(messages)`: the loop fills an insertion-ordered set with the trimmed
      non-empty senders, and the set is then sorted. */
  method ExtractUsers(messages: seq<ChatMessage>) returns (users: seq<string>)
    ensures StrictlySorted(users)
    ensures forall u :: u in users <==> u in TrimmedSenders(messages)
  {
    var seen: seq<string> := [];
    for i := 0 to |messages|
      invariant forall a, b :: 0 <= a < b < |seen| ==> seen[a] != seen[b]
      invariant forall u :: u in seen <==> u in TrimmedSenders(messages[..i])
    {
      var m := messages[i];
      assert messages[..i + 1] == messages[..i] + [m];
      if !m.System? && m.sender != "" {
        var u := Trim(m.sender);
        if u !in seen {
          seen := seen + [u];
        }
      }
      TrimmedSendersStep(messages, i);
    }
    assert messages[..|messages|] == messages;
    users := SortStrings(seen);
    assert forall u :: u in users <==> u in seen by {
      forall u ensures u in users <==> u in seen {
        assert u in users <==> u in multiset(users);
        assert u in seen <==> u in multiset(seen);
      }
    }
    DistinctSorted(seen, users);
    SortedDistinct(users);
  }

  lemma TrimmedSendersStep(messages: seq<ChatMessage>, i: nat)
    requires i < |messages|
    ensures TrimmedSenders(messages[..i + 1])
         == TrimmedSenders(messages[..i])
            + (if !messages[i].System? && messages[i].sender != [] then {Trim(messages[i].sender)} else {})
  {
    var a := messages[..i + 1];
    var b := messages[..i];
    assert forall k :: 0 <= k < i ==> a[k] == b[k];
    assert a[i] == messages[i];
  }

  /** Sorting keeps a sequence free of duplicates. */
  lemma DistinctSorted(s: seq<string>, r: seq<string>)
    requires forall a, b :: 0 <= a < b < |s| ==> s[a] != s[b]
    requires multiset(r) == multiset(s)
    ensures forall a, b :: 0 <= a < b < |r| ==> r[a] != r[b]
  {
    DistinctCounts(s);
    forall a, b | 0 <= a < b < |r| ensures r[a] != r[b] {
      if r[a] == r[b] {
        TwiceCounts(r, a, b);
      }
    }
  }

  lemma {:induction false} DistinctCounts(s: seq<string>)
    requires forall a, b :: 0 <= a < b < |s| ==> s[a] != s[b]
    ensures forall x :: multiset(s)[x] <= 1
  {
    if s != [] {
      var t := s[1..];
      assert s == [s[0]] + t;
      DistinctCounts(t);
      assert s[0] !in t by {
        forall k | 0 <= k < |t| ensures t[k] != s[0] {
          assert t[k] == s[k + 1];
        }
      }
    }
  }

  lemma {:induction false} TwiceCounts(r: seq<string>, a: nat, b: nat)
    requires a < b < |r| && r[a] == r[b]
    ensures multiset(r)[r[a]] >= 2
  {
    var x := r[a];
    assert r == r[..b] + r[b..];
    assert x in r[..b] by {
      assert r[..b][a] == x;
    }
    assert r[b..][0] == x;
  }

  /** Two strictly sorted sequences with the same elements are equal: the user list depends
      only on the set of trimmed senders, not on message order or repetition. */
  lemma {:induction false} StrictlySortedUnique(a: seq<string>, b: seq<string>)
    requires StrictlySorted(a) && StrictlySorted(b)
    requires forall u :: u in a <==> u in b
    ensures a == b
    decreases |a|
  {
    assert a != [] ==> a[0] in b;
    assert b != [] ==> b[0] in a;
    if a != [] && b != [] {
      assert a[0] == b[0] by {
        assert b[0] in a;
        assert a[0] in b;
        var i :| 0 <= i < |a| && a[i] == b[0];
        var j :| 0 <= j < |b| && b[j] == a[0];
        if i > 0 && j > 0 {
          LexLessAsymmetric(a[0], b[0]);
        }
        LexLessIrreflexive(a[0]);
      }
      forall u ensures u in a[1..] <==> u in b[1..] {
        if u in a[1..] {
          var i :| 0 <= i < |a[1..]| && a[1..][i] == u;
          assert LexLess(a[0], u);
          LexLessIrreflexive(a[0]);
        }
        if u in b[1..] {
          var j :| 0 <= j < |b[1..]| && b[1..][j] == u;
          assert LexLess(b[0], u);
          LexLessIrreflexive(b[0]);
        }
        assert u in a[1..] <==> (u in a && u != a[0]) by {
          assert a == [a[0]] + a[1..];
        }
        assert u in b[1..] <==> (u in b && u != b[0]) by {
          assert b == [b[0]] + b[1..];
        }
      }
      StrictlySortedUnique(a[1..], b[1..]);
      assert a == [a[0]] + a[1..] && b == [b[0]] + b[1..];
    }
  }
}
