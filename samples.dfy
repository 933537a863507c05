/**
 * Worked transcripts: what the parser makes of a few lines in the shapes the two export
 * dialects write, down to the exact fields of every message.
 */
module Samples {
  import opened Wrappers
  import opened JsStrings
  import opened Messages
  import opened DateTimes
  import opened Headers
  import opened Attachments
  import opened Classifier
  import opened ChatParser

  // ---------------------------------------------------------------------------
  // Shared steps
  // ---------------------------------------------------------------------------

  /** A transcript of one trimmed line is that line's entry. */
  lemma OneLine(line: string)
    requires Trimmed(line) && '\n' !in line
    ensures ParseChat(line) == Assemble([Scan(line, line[0] == '[')])
  {
    SplitLines([line]);
    TrimOfTrimmed(line);
    assert StartsWith(line, "[") <==> line[0] == '[';
    assert Scanned([line], line[0] == '[') == [Scan(line, line[0] == '[')] by {
      assert [line][1..] == [];
    }
  }

  /** A transcript of one header line in the shape of the dash dialect. */
  lemma OneDashLine(m: DashLine)
    requires Trimmed(DashLineStr(m)) && '\n' !in DashLineStr(m) && DashLineStr(m)[0] != '['
    ensures ParseChat(DashLineStr(m)) == Assemble([Scan(DashLineStr(m), false)])
  {
    OneLine(DashLineStr(m));
  }

  /** A header with no body lines gives its message unchanged, if it classifies. */
  lemma LoneHeader(e: Entry)
    requires e.header
    ensures Assemble([e]) == if e.parsed.Some? then [e.parsed.value] else []
  {
    assert [e][1..] == [];
    if e.parsed.Some? && e.parsed.value.Text? {
      assert e.parsed.value.text + "" == e.parsed.value.text;
    }
  }

  /** Two trimmed lines are scanned as they are. */
  lemma ScannedTwo(l1: string, l2: string, isBracket: bool)
    requires Trimmed(l1) && Trimmed(l2)
    ensures Scanned([l1, l2], isBracket) == [Scan(l1, isBracket), Scan(l2, isBracket)]
  {
    TrimOfTrimmed(l1);
    TrimOfTrimmed(l2);
    assert [l1, l2][1..] == [l2] && [l2][1..] == [];
  }

  /** A transcript of two trimmed lines is their two entries, in the dialect of the first. */
  lemma TwoLines(l1: string, l2: string)
    requires Trimmed(l1) && '\n' !in l1 && Trimmed(l2) && '\n' !in l2
    ensures ParseChat(l1 + "\n" + l2) == Assemble([Scan(l1, l1[0] == '['), Scan(l2, l1[0] == '[')])
  {
    var lines := [l1, l2];
    assert forall k :: 0 <= k < |lines| ==> '\n' !in lines[k];
    SplitLines(lines);
    JoinTwo(l1, l2, "\n");
    assert Split(l1 + "\n" + l2, "\n") == lines;
    TrimOfTrimmed(l1);
    assert IsBracketDialect(lines) == (l1[0] == '[') by {
      assert StartsWith(l1, "[") <==> l1[0] == '[';
    }
    ScannedTwo(l1, l2, l1[0] == '[');
  }

  /** A header followed by one body line: a text message gains the line. */
  lemma HeaderThenBody(e1: Entry, e2: Entry)
    requires e1.header && !e2.header
    ensures Assemble([e1, e2]) == if e1.parsed.Some? then [Close(e1.parsed.value, [e2])] else []
  {
    assert [e1, e2][1..] == [e2] && [e2][1..] == [];
    assert BodyLen([e2]) == 1;
    assert [e1, e2][1..2] == [e2] && [e1, e2][2..] == [];
  }

  /** A line without 'g' or 'd' names none of the dash dialect's system events. */
  lemma NoDashPhrase(s: string)
    requires 'g' !in s && 'd' !in s
    ensures !ContainsAny(s, DashSystemPhrases)
  {
    PhraseLetters();
    NotContainsChar(s, DashSystemPhrases[0], 5);
    NotContainsChar(s, DashSystemPhrases[1], 13);
    NotContainsChar(s, DashSystemPhrases[2], 1);
  }

  /** One letter of each system phrase. */
  lemma PhraseLetters()
    ensures |BracketSystemPhrases| == 5 && DashSystemPhrases == BracketSystemPhrases[..3]
    ensures BracketSystemPhrases[0][0] == 'M' && BracketSystemPhrases[0][5] == 'g'
    ensures BracketSystemPhrases[1][1] == 'r' && BracketSystemPhrases[1][13] == 'g'
    ensures BracketSystemPhrases[2][1] == 'd' && BracketSystemPhrases[2][6] == 'y'
    ensures BracketSystemPhrases[3][0] == 'M' && BracketSystemPhrases[4][0] == 'V'
  {
  }

  /** Content without 'M', 'r', 'y' or 'V' names none of the bracket dialect's system events. */
  lemma NoBracketPhrase(s: string)
    requires 'M' !in s && 'r' !in s && 'y' !in s && 'V' !in s
    ensures !ContainsAny(s, BracketSystemPhrases)
  {
    PhraseLetters();
    NotContainsChar(s, BracketSystemPhrases[0], 0);
    NotContainsChar(s, BracketSystemPhrases[1], 1);
    NotContainsChar(s, BracketSystemPhrases[2], 6);
    NotContainsChar(s, BracketSystemPhrases[3], 0);
    NotContainsChar(s, BracketSystemPhrases[4], 0);
  }

  // ---------------------------------------------------------------------------
  // A dash-format text message
  // ---------------------------------------------------------------------------

  const DashHi: DashLine :=
    DashLine(DashPrefix(DateText("05", "15", "24"), ' ', TimeText("10", "30", None, ' ', 'A'), ' ', ' '),
             Tail(Some("Alex"), Some(Content(' ', "Hi"))))

  /** Hour 10 in the morning is written back as "10". */
  lemma TenAm()
    ensures PadStart2(NatToString(Hour24(DigitsValue("10"), 'A'))) == "10"
  {
    TenValue();
    TenString();
  }

  lemma TenValue()
    ensures DigitsValue("10") == 10
  {
    assert "10"[..1] == "1" && "1"[..0] == "";
  }

  lemma TenString()
    ensures NatToString(10) == "10" && PadStart2("10") == "10"
  {
  }

  /** The year is widened; month and day already have two digits. */
  lemma DashHiDate()
    ensures ExpandYear("24") == "2024" && PadStart2("05") == "05" && PadStart2("15") == "15"
  {
  }

  /** 10:30 AM on 05/15/24, read month first, is 15 May 2024, 10:30:00. */
  lemma DashHiStamp()
    ensures HeaderStamp(DashHi.prefix.date, DashHi.prefix.time, false)
         == At(DateTime("2024", "05", "15", "10", "30", "00"))
  {
    NormaliseHeaderStamp(DashHi.prefix.date, DashHi.prefix.time, false);
    TenAm();
    DashHiDate();
  }

  /** The line as the export writes it. */
  lemma DashHiText()
    ensures DashLineStr(DashHi) == "05/15/24, 10:30 AM - Alex: Hi"
  {
    assert DateStr(DashHi.prefix.date) == "05/15/24";
    assert TimeStr(DashHi.prefix.time) == "10:30 AM";
    assert DashPrefixStr(DashHi.prefix) == "05/15/24, 10:30 AM - ";
    assert TailStr(DashHi.tail) == "Alex: Hi";
  }

  /** The line is trimmed and single, and starts with a digit. */
  lemma DashHiLine()
    ensures Trimmed(DashLineStr(DashHi)) && '\n' !in DashLineStr(DashHi) && DashLineStr(DashHi)[0] == '0'
  {
    DashHiText();
    DashContinuationLines();
  }

  /** The line has the shape of a dash header, from Alex, with content "Hi". */
  lemma DashHiWf()
    ensures WfDashLine(DashHi) && DashHi.tail.sender == Some("Alex") && ContentOf(DashHi.tail) == "Hi"
  {
  }

  /** The letters the dash system phrases need and the line lacks. */
  lemma DashHiChars()
    ensures 'g' !in "05/15/24, 10:30 AM - Alex: Hi" && 'd' !in "05/15/24, 10:30 AM - Alex: Hi"
  {
  }

  /** The line names no system event. */
  lemma DashHiNoPhrase()
    ensures !ContainsAny(DashLineStr(DashHi), DashSystemPhrases)
  {
    DashHiChars();
    NoDashPhrase("05/15/24, 10:30 AM - Alex: Hi");
    DashHiText();
  }

  /** "Hi" is not an attachment: no tag and no dot. */
  lemma HiNotAttachment()
    ensures !DashAttachment("Hi")
  {
    assert FileAttachedTag[0] == '(';
    NotContainsChar("Hi", FileAttachedTag, 0);
    NoDotNoMedia("Hi");
  }

  /** The line opens a message, and classifies to a text message from Alex. */
  lemma DashHiScan()
    ensures Scan(DashLineStr(DashHi), false)
         == Entry(DashLineStr(DashHi), true,
                  Some(Text("Alex", HeaderStamp(DashHi.prefix.date, DashHi.prefix.time, false), "Hi")))
  {
    DashHiWf();
    DashHiNoPhrase();
    HiNotAttachment();
    ParseDashTextOf(DashHi);
    DashLineScan(DashHi);
  }

  /** The whole transcript: one text message, from Alex on 15 May 2024 at 10:30. */
  lemma DashTextSample()
    ensures ParseChat("05/15/24, 10:30 AM - Alex: Hi")
         == [Text("Alex", At(DateTime("2024", "05", "15", "10", "30", "00")), "Hi")]
  {
    DashHiLine();
    OneDashLine(DashHi);
    DashHiText();
    DashHiScan();
    DashHiStamp();
    LoneHeader(Scan(DashLineStr(DashHi), false));
  }

  // ---------------------------------------------------------------------------
  // A message continued on a second line
  // ---------------------------------------------------------------------------

  /** A line that does not start with a digit continues the message before it. */
  lemma ThereScan()
    ensures Scan("there", false) == Entry("there", false, None)
  {
    DashHeaderNeedsDigit("there");
  }

  /** Both lines are trimmed and single. */
  lemma DashContinuationLines()
    ensures Trimmed("05/15/24, 10:30 AM - Alex: Hi") && '\n' !in "05/15/24, 10:30 AM - Alex: Hi"
    ensures Trimmed("there") && '\n' !in "there"
    ensures "05/15/24, 10:30 AM - Alex: Hi" + "\n" + "there" == "05/15/24, 10:30 AM - Alex: Hi\nthere"
  {
  }

  /** The body line is appended after a line feed. */
  lemma ThereBody()
    ensures "Hi" + JoinBody([Entry("there", false, None)]) == "Hi\nthere"
  {
    assert [Entry("there", false, None)][1..] == [];
  }

  /** `05/15/24, 10:30 AM - Alex: Hi` followed by `there`: one text message whose text keeps
      both lines. */
  lemma DashContinuationSample()
    ensures ParseChat("05/15/24, 10:30 AM - Alex: Hi\nthere")
         == [Text("Alex", At(DateTime("2024", "05", "15", "10", "30", "00")), "Hi\nthere")]
  {
    DashContinuationLines();
    TwoLines("05/15/24, 10:30 AM - Alex: Hi", "there");
    DashHiText();
    DashHiScan();
    DashHiStamp();
    ThereScan();
    HeaderThenBody(Scan(DashLineStr(DashHi), false), Scan("there", false));
    ThereBody();
  }

  // ---------------------------------------------------------------------------
  // A bracket-format attachment
  // ---------------------------------------------------------------------------

  const BracketPhoto: BracketLine :=
    BracketLine(BracketPrefix(DateText("01", "02", "2024"), ' ', TimeText("09", "00", Some("00"), ' ', 'A'), ' '),
                Tail(Some("Alex"), Some(Content(' ', "<attached: photo.jpg>"))))

  /** The line as the export writes it. */
  lemma BracketPhotoText()
    ensures BracketLineStr(BracketPhoto) == "[01/02/2024, " + "09:00:00 AM] " + "Alex: <attached: photo.jpg>"
  {
    BracketPhotoPrefix();
    assert TailStr(BracketPhoto.tail) == "Alex: <attached: photo.jpg>";
  }

  lemma BracketPhotoPrefix()
    ensures BracketPrefixStr(BracketPhoto.prefix) == "[01/02/2024, " + "09:00:00 AM] "
  {
    BracketPhotoDateStr();
    BracketPhotoTimeStr();
    assert "[" + "01/02/2024" + "," + [' '] == "[01/02/2024, ";
    assert "09:00:00 AM" + "]" + [' '] == "09:00:00 AM] ";
  }

  lemma BracketPhotoDateStr()
    ensures DateStr(BracketPhoto.prefix.date) == "01/02/2024"
  {
  }

  lemma BracketPhotoTimeStr()
    ensures TimeStr(BracketPhoto.prefix.time) == "09:00:00 AM"
  {
  }

  /** The line is trimmed and single. */
  lemma BracketPhotoLine()
    ensures var line := "[01/02/2024, " + "09:00:00 AM] " + "Alex: <attached: photo.jpg>";
            Trimmed(line) && '\n' !in line
  {
  }

  /** Hour 9 in the morning is written back padded to "09". */
  lemma NineAm()
    ensures PadStart2(NatToString(Hour24(DigitsValue("09"), 'A'))) == "09"
  {
    NineValue();
    NineString();
  }

  lemma NineValue()
    ensures DigitsValue("09") == 9
  {
    assert "09"[..1] == "0" && "0"[..0] == "";
  }

  lemma NineString()
    ensures NatToString(9) == "9" && PadStart2("9") == "09"
  {
  }

  /** The four-digit year is kept; the day-first date gives month "02" and day "01". */
  lemma BracketPhotoDate()
    ensures ExpandYear("2024") == "2024" && PadStart2("02") == "02" && PadStart2("01") == "01"
  {
  }

  /** 09:00:00 AM on 01/02/2024, read day first, is 1 February 2024, 09:00:00. */
  lemma BracketPhotoStamp()
    ensures HeaderStamp(BracketPhoto.prefix.date, BracketPhoto.prefix.time, true)
         == At(DateTime("2024", "02", "01", "09", "00", "00"))
  {
    NormaliseHeaderStamp(BracketPhoto.prefix.date, BracketPhoto.prefix.time, true);
    NineAm();
    BracketPhotoDate();
  }

  /** The content is `<attached: photo.jpg>`. */
  lemma BracketPhotoContent()
    ensures ContentOf(BracketPhoto.tail) == AttachedTag + " " + "photo.jpg" + ">"
  {
  }

  /** The content names no system event. */
  lemma BracketPhotoNotSystem()
    ensures !ContainsAny(ContentOf(BracketPhoto.tail), BracketSystemPhrases)
  {
    PhotoContentChars();
    NoBracketPhrase("<attached: photo.jpg>");
  }

  /** The characters the system phrases need and the content lacks. */
  lemma PhotoContentChars()
    ensures 'M' !in "<attached: photo.jpg>" && 'r' !in "<attached: photo.jpg>"
    ensures 'y' !in "<attached: photo.jpg>" && 'V' !in "<attached: photo.jpg>"
  {
    PhotoLacksUpper();
    PhotoLacksLower();
  }

  lemma PhotoLacksUpper()
    ensures 'M' !in "<attached: photo.jpg>" && 'V' !in "<attached: photo.jpg>"
  {
  }

  lemma PhotoLacksLower()
    ensures 'r' !in "<attached: photo.jpg>" && 'y' !in "<attached: photo.jpg>"
  {
  }

  /** `photo.jpg` is a name the bracket pattern takes whole. */
  lemma PhotoName()
    ensures "photo.jpg" != [] && !IsWhite("photo.jpg"[0]) && '>' !in "photo.jpg"
  {
  }

  /** The line has the shape of a bracket header. */
  lemma BracketPhotoWf()
    ensures WfBracketLine(BracketPhoto) && BracketPhoto.tail.content.Some?
  {
  }

  /** The line opens a message, and classifies to an attachment of `photo.jpg`. */
  lemma BracketPhotoScan()
    ensures Scan(BracketLineStr(BracketPhoto), true)
         == Entry(BracketLineStr(BracketPhoto), true,
                  Some(Attachment("Alex", HeaderStamp(BracketPhoto.prefix.date, BracketPhoto.prefix.time, true),
                                  "photo.jpg")))
  {
    BracketPhotoWf();
    PhotoName();
    BracketPhotoContent();
    BracketPhotoNotSystem();
    ParseBracketAttachmentOf(BracketPhoto, "photo.jpg");
    BracketLineScan(BracketPhoto);
  }

  /** The whole transcript: one attachment, `photo.jpg`, from Alex on 1 February 2024. */
  lemma BracketAttachmentSample()
    ensures ParseChat("[01/02/2024, " + "09:00:00 AM] " + "Alex: <attached: photo.jpg>")
         == [Attachment("Alex", At(DateTime("2024", "02", "01", "09", "00", "00")), "photo.jpg")]
  {
    BracketPhotoLine();
    OneLine("[01/02/2024, " + "09:00:00 AM] " + "Alex: <attached: photo.jpg>");
    BracketPhotoText();
    BracketPhotoScan();
    BracketPhotoStamp();
    LoneHeader(Scan(BracketLineStr(BracketPhoto), true));
  }

  // ---------------------------------------------------------------------------
  // A dash-format system notice
  // ---------------------------------------------------------------------------

  const DashNotice: DashLine :=
    DashLine(DashPrefix(DateText("05", "15", "24"), ' ', TimeText("10", "30", None, ' ', 'A'), ' ', ' '),
             Tail(Some("Alex created this group"), None))

  /** The line as the export writes it. */
  lemma DashNoticeText()
    ensures DashLineStr(DashNotice) == "05/15/24, 10:30 AM - " + "Alex created this group"
    ensures TailStr(DashNotice.tail) == "Alex created this group"
  {
    assert DashPrefixStr(DashNotice.prefix) == "05/15/24, 10:30 AM - ";
  }

  /** Without ':' the regular expression takes the notice for a sender with no content. */
  lemma DashNoticeWf()
    ensures WfDashLine(DashNotice)
    ensures NoLineTerminator(TailStr(DashNotice.tail))
  {
    DashNoticeText();
  }

  /** The line is trimmed and single. */
  lemma DashNoticeLine()
    ensures var line := "05/15/24, 10:30 AM - " + "Alex created this group";
            Trimmed(line) && '\n' !in line
  {
  }

  /** The whole transcript: one system message holding the notice. */
  lemma DashSystemSample()
    ensures ParseChat("05/15/24, 10:30 AM - " + "Alex created this group")
         == [System(At(DateTime("2024", "05", "15", "10", "30", "00")), "Alex created this group")]
  {
    DashNoticeLine();
    OneLine("05/15/24, 10:30 AM - " + "Alex created this group");
    DashNoticeText();
    DashNoticeWf();
    ParseDashSystemOf(DashNotice);
    MatchDashLineOf(DashNotice);
    assert DashNotice.prefix == DashHi.prefix;
    DashHiStamp();
    LoneHeader(Scan(DashLineStr(DashNotice), false));
  }
}
