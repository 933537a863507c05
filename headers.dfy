/**
 * The header regular expressions of src/utils/chatParser.ts, as hand-written recognisers.
 *
 *   line 48   ^D,\sH:MM\s[AP]M\s-\s                       (a dash-format header starts here)
 *   line 91   ^\[D,\s(H:MM:SS\s[AP]M)\]\s([^:]+)(?::\s(.*))?$
 *   line 141  ^(D),\s(H:MM\s[AP]M)\s-\s([^:]+)?(?::\s(.*))?$
 *   line 161  ^D,\sH:MM\s[AP]M\s-\s(.+)$
 *
 * where D is `\d{1,2}\/\d{1,2}\/\d{2,4}`. Each recogniser returns what it read and the rest of
 * the input; its contract says that the input is the rendering of a well-formed value followed
 * by that rest, and a round-trip lemma says that every such rendering is recognised.
 *
 * A bounded digit group `\d{m,n}` is always followed by a non-digit literal, so it matches
 * exactly when the maximal run of digits has a length between m and n; backtracking into a
 * shorter run would leave a digit where the literal is expected.
 */
module Headers {
  import opened Wrappers
  import opened JsStrings
  import opened DateTimes

  /** A recognised value and the input left after it. */
  datatype Parsed<T> = Parsed(v: T, rest: string)

  predicate NoDigitStart(s: string) {
    s == [] || !IsDigit(s[0])
  }

  // ---------------------------------------------------------------------------
  // Single tokens
  // ---------------------------------------------------------------------------

  /** `\d{lo,hi}` followed by a non-digit. */
  function ParseDigits(s: string, lo: nat, hi: nat): (r: Option<Parsed<string>>)
    ensures r.Some? <==> lo <= DigitRun(s) <= hi
    ensures r.Some? ==> s == r.value.v + r.value.rest && AllDigits(r.value.v)
                        && lo <= |r.value.v| <= hi && NoDigitStart(r.value.rest)
  {
    var n := DigitRun(s);
    if lo <= n <= hi then
      assert s == s[..n] + s[n..];
      Some(Parsed(s[..n], s[n..]))
    else None
  }

  /** A literal character. */
  function Expect(s: string, c: char): (r: Option<string>)
    ensures r.Some? <==> s != [] && s[0] == c
    ensures r.Some? ==> s == [c] + r.value
  {
    if s != [] && s[0] == c then
      assert s == [s[0]] + s[1..];
      Some(s[1..])
    else None
  }

  /** `\s` */
  function ExpectWhite(s: string): (r: Option<Parsed<char>>)
    ensures r.Some? <==> s != [] && IsWhite(s[0])
    ensures r.Some? ==> s == [r.value.v] + r.value.rest && IsWhite(r.value.v)
  {
    if s != [] && IsWhite(s[0]) then
      assert s == [s[0]] + s[1..];
      Some(Parsed(s[0], s[1..]))
    else None
  }

  /** `[AP]` */
  function ExpectMeridiem(s: string): (r: Option<Parsed<char>>)
    ensures r.Some? <==> s != [] && (s[0] == 'A' || s[0] == 'P')
    ensures r.Some? ==> s == [r.value.v] + r.value.rest && (r.value.v == 'A' || r.value.v == 'P')
  {
    if s != [] && (s[0] == 'A' || s[0] == 'P') then
      assert s == [s[0]] + s[1..];
      Some(Parsed(s[0], s[1..]))
    else None
  }

  lemma ParseDigitsOf(d: string, rest: string, lo: nat, hi: nat)
    requires AllDigits(d) && lo <= |d| <= hi && NoDigitStart(rest)
    ensures ParseDigits(d + rest, lo, hi) == Some(Parsed(d, rest))
  {
    DigitRunOf(d, rest);
    assert (d + rest)[..|d|] == d;
    assert (d + rest)[|d|..] == rest;
  }

  lemma ExpectOf(c: char, rest: string)
    ensures Expect([c] + rest, c) == Some(rest)
  {
    assert ([c] + rest)[1..] == rest;
  }

  lemma ExpectWhiteOf(c: char, rest: string)
    requires IsWhite(c)
    ensures ExpectWhite([c] + rest) == Some(Parsed(c, rest))
  {
    assert ([c] + rest)[1..] == rest;
  }

  lemma ExpectMeridiemOf(c: char, rest: string)
    requires c == 'A' || c == 'P'
    ensures ExpectMeridiem([c] + rest) == Some(Parsed(c, rest))
  {
    assert ([c] + rest)[1..] == rest;
  }

  // ---------------------------------------------------------------------------
  // Date and time
  // ---------------------------------------------------------------------------

  /** `\d{1,2}\/\d{1,2}\/\d{2,4}` */
  function ParseDate(s: string): (r: Option<Parsed<DateText>>)
    ensures r.Some? ==> WfDate(r.value.v) && s == DateStr(r.value.v) + r.value.rest
                        && NoDigitStart(r.value.rest)
  {
    var a :- ParseDigits(s, 1, 2);
    var r1 :- Expect(a.rest, '/');
    var b :- ParseDigits(r1, 1, 2);
    var r2 :- Expect(b.rest, '/');
    var y :- ParseDigits(r2, 2, 4);
    var d := DateText(a.v, b.v, y.v);
    DateStrSplit(d, s, a.rest, r1, b.rest, r2, y.rest);
    Some(Parsed(d, y.rest))
  }

  lemma DateStrSplit(d: DateText, s: string, r0: string, r1: string, r2: string, r3: string,
                     rest: string)
    requires s == d.first + r0 && r0 == "/" + r1 && r1 == d.second + r2
    requires r2 == "/" + r3 && r3 == d.year + rest
    ensures s == DateStr(d) + rest
  {
  }

  lemma ParseDateOf(d: DateText, rest: string)
    requires WfDate(d) && NoDigitStart(rest)
    ensures ParseDate(DateStr(d) + rest) == Some(Parsed(d, rest))
  {
    var r3 := d.year + rest;
    var r2 := "/" + r3;
    var r1 := d.second + r2;
    var r0 := "/" + r1;
    var s := d.first + r0;
    DateStrSplit(d, s, r0, r1, r2, r3, rest);
    ParseDigitsOf(d.first, r0, 1, 2);
    ExpectOf('/', r1);
    ParseDigitsOf(d.second, r2, 1, 2);
    ExpectOf('/', r3);
    ParseDigitsOf(d.year, rest, 2, 4);
  }

  /** `(:\d{2})?` when `withSeconds`, nothing otherwise. */
  function ParseSeconds(s: string, withSeconds: bool): (r: Option<Parsed<Option<string>>>)
    ensures r.Some? ==> s == SecondsStr(r.value.v) + r.value.rest
                        && r.value.v.Some? == withSeconds
                        && (withSeconds ==> AllDigits(r.value.v.value) && |r.value.v.value| == 2)
  {
    if !withSeconds then Some(Parsed(None, s))
    else
      var r :- Expect(s, ':');
      var sec :- ParseDigits(r, 2, 2);
      Some(Parsed(Some(sec.v), sec.rest))
  }

  /** `\d{1,2}:\d{2}\s[AP]M` (dash format) or `\d{1,2}:\d{2}:\d{2}\s[AP]M` (bracket format). */
  function ParseTime(s: string, withSeconds: bool): (r: Option<Parsed<TimeText>>)
    ensures r.Some? ==> WfTime(r.value.v) && r.value.v.seconds.Some? == withSeconds
                        && s == TimeStr(r.value.v) + r.value.rest
  {
    var h :- ParseDigits(s, 1, 2);
    var r1 :- Expect(h.rest, ':');
    var m :- ParseDigits(r1, 2, 2);
    var sec :- ParseSeconds(m.rest, withSeconds);
    var gap :- ExpectWhite(sec.rest);
    var mer :- ExpectMeridiem(gap.rest);
    var r2 :- Expect(mer.rest, 'M');
    var t := TimeText(h.v, m.v, sec.v, gap.v, mer.v);
    TimeStrSplit(t, s, h.rest, r1, m.rest, sec.rest, gap.rest, mer.rest, r2);
    Some(Parsed(t, r2))
  }

  lemma TimeStrSplit(t: TimeText, s: string, r0: string, r1: string, r2: string, r3: string,
                     r4: string, r5: string, rest: string)
    requires s == t.hours + r0 && r0 == ":" + r1 && r1 == t.minutes + r2
    requires r2 == SecondsStr(t.seconds) + r3 && r3 == [t.gap] + r4 && r4 == [t.meridiem] + r5
    requires r5 == "M" + rest
    ensures s == TimeStr(t) + rest
  {
  }

  lemma ParseSecondsOf(sec: Option<string>, rest: string)
    requires sec.Some? ==> AllDigits(sec.value) && |sec.value| == 2
    requires NoDigitStart(rest)
    ensures ParseSeconds(SecondsStr(sec) + rest, sec.Some?) == Some(Parsed(sec, rest))
  {
    if sec.Some? {
      assert SecondsStr(sec) + rest == [':'] + (sec.value + rest);
      ExpectOf(':', sec.value + rest);
      ParseDigitsOf(sec.value, rest, 2, 2);
    } else {
      assert SecondsStr(sec) + rest == rest;
    }
  }

  lemma ParseTimeOf(t: TimeText, rest: string)
    requires WfTime(t)
    ensures ParseTime(TimeStr(t) + rest, t.seconds.Some?) == Some(Parsed(t, rest))
  {
    var r5 := "M" + rest;
    var r4 := [t.meridiem] + r5;
    var r3 := [t.gap] + r4;
    var r2 := SecondsStr(t.seconds) + r3;
    var r1 := t.minutes + r2;
    var r0 := ":" + r1;
    var s := t.hours + r0;
    TimeStrSplit(t, s, r0, r1, r2, r3, r4, r5, rest);
    ParseDigitsOf(t.hours, r0, 1, 2);
    ExpectOf(':', r1);
    assert NoDigitStart(r2) by {
      assert r2 != [] && (r2[0] == ':' || r2[0] == t.gap);
    }
    ParseDigitsOf(t.minutes, r2, 2, 2);
    ParseSecondsOf(t.seconds, r3);
    ExpectWhiteOf(t.gap, r4);
    ExpectMeridiemOf(t.meridiem, r5);
    ExpectOf('M', rest);
  }

  // ---------------------------------------------------------------------------
  // The two header prefixes
  // ---------------------------------------------------------------------------

  /** `[date,<w>time]<w>`: a bracket-format header up to the sender. */
  datatype BracketPrefix = BracketPrefix(date: DateText, afterComma: char, time: TimeText,
                                         afterBracket: char)

  /** `date,<w>time<w>-<w>`: a dash-format header up to the sender. */
  datatype DashPrefix = DashPrefix(date: DateText, afterComma: char, time: TimeText,
                                   beforeDash: char, afterDash: char)

  predicate WfBracketPrefix(p: BracketPrefix) {
    WfDate(p.date) && IsWhite(p.afterComma) && WfTime(p.time) && p.time.seconds.Some?
    && IsWhite(p.afterBracket)
  }

  predicate WfDashPrefix(p: DashPrefix) {
    WfDate(p.date) && IsWhite(p.afterComma) && WfTime(p.time) && p.time.seconds.None?
    && IsWhite(p.beforeDash) && IsWhite(p.afterDash)
  }

  function BracketPrefixStr(p: BracketPrefix): string {
    "[" + DateStr(p.date) + "," + [p.afterComma] + TimeStr(p.time) + "]" + [p.afterBracket]
  }

  function DashPrefixStr(p: DashPrefix): string {
    DateStr(p.date) + "," + [p.afterComma] + TimeStr(p.time) + [p.beforeDash] + "-" + [p.afterDash]
  }

  /** `^\[D,\s(H:MM:SS\s[AP]M)\]\s` */
  function ParseBracketPrefix(s: string): (r: Option<Parsed<BracketPrefix>>)
    ensures r.Some? ==> WfBracketPrefix(r.value.v) && s == BracketPrefixStr(r.value.v) + r.value.rest
  {
    var r0 :- Expect(s, '[');
    var d :- ParseDate(r0);
    var r1 :- Expect(d.rest, ',');
    var w1 :- ExpectWhite(r1);
    var t :- ParseTime(w1.rest, true);
    var r2 :- Expect(t.rest, ']');
    var w2 :- ExpectWhite(r2);
    var p := BracketPrefix(d.v, w1.v, t.v, w2.v);
    BracketPrefixSplit(p, d.rest, w1.rest, r2, w2.rest);
    Some(Parsed(p, w2.rest))
  }

  lemma BracketPrefixSplit(p: BracketPrefix, r1: string, r2: string, r3: string, rest: string)
    requires r3 == [p.afterBracket] + rest && r2 == TimeStr(p.time) + ("]" + r3)
    requires r1 == "," + ([p.afterComma] + r2)
    ensures "[" + (DateStr(p.date) + r1) == BracketPrefixStr(p) + rest
  {
  }

  lemma ParseBracketPrefixOf(p: BracketPrefix, rest: string)
    requires WfBracketPrefix(p)
    ensures ParseBracketPrefix(BracketPrefixStr(p) + rest) == Some(Parsed(p, rest))
  {
    var r3 := [p.afterBracket] + rest;
    var r2 := TimeStr(p.time) + ("]" + r3);
    var r1 := "," + ([p.afterComma] + r2);
    BracketPrefixSplit(p, r1, r2, r3, rest);
    ExpectOf('[', DateStr(p.date) + r1);
    ParseDateOf(p.date, r1);
    ExpectOf(',', [p.afterComma] + r2);
    ExpectWhiteOf(p.afterComma, r2);
    ParseTimeOf(p.time, "]" + r3);
    ExpectOf(']', r3);
    ExpectWhiteOf(p.afterBracket, rest);
  }

  /** `^D,\sH:MM\s[AP]M\s-\s`, the test at line 48 that starts a dash-format message. */
  function ParseDashPrefix(s: string): (r: Option<Parsed<DashPrefix>>)
    ensures r.Some? ==> WfDashPrefix(r.value.v) && s == DashPrefixStr(r.value.v) + r.value.rest
  {
    var d :- ParseDate(s);
    var r1 :- Expect(d.rest, ',');
    var w1 :- ExpectWhite(r1);
    var t :- ParseTime(w1.rest, false);
    var w2 :- ExpectWhite(t.rest);
    var r2 :- Expect(w2.rest, '-');
    var w3 :- ExpectWhite(r2);
    var p := DashPrefix(d.v, w1.v, t.v, w2.v, w3.v);
    DashPrefixSplit(p, d.rest, w1.rest, t.rest, w3.rest);
    Some(Parsed(p, w3.rest))
  }

  lemma DashPrefixSplit(p: DashPrefix, r1: string, r2: string, r3: string, rest: string)
    requires r3 == [p.beforeDash] + ("-" + ([p.afterDash] + rest))
    requires r2 == TimeStr(p.time) + r3
    requires r1 == "," + ([p.afterComma] + r2)
    ensures DateStr(p.date) + r1 == DashPrefixStr(p) + rest
  {
  }

  lemma ParseDashPrefixOf(p: DashPrefix, rest: string)
    requires WfDashPrefix(p)
    ensures ParseDashPrefix(DashPrefixStr(p) + rest) == Some(Parsed(p, rest))
  {
    var r4 := [p.afterDash] + rest;
    var r3 := [p.beforeDash] + ("-" + r4);
    var r2 := TimeStr(p.time) + r3;
    var r1 := "," + ([p.afterComma] + r2);
    DashPrefixSplit(p, r1, r2, r3, rest);
    assert NoDigitStart(r1);
    ParseDateOf(p.date, r1);
    ExpectOf(',', [p.afterComma] + r2);
    ExpectWhiteOf(p.afterComma, r2);
    ParseTimeOf(p.time, r3);
    ExpectWhiteOf(p.beforeDash, "-" + r4);
    ExpectOf('-', r4);
    ExpectWhiteOf(p.afterDash, rest);
  }

  // ---------------------------------------------------------------------------
  // Sender and content: ([^:]+)(?::\s(.*))?$ and ([^:]+)?(?::\s(.*))?$
  // ---------------------------------------------------------------------------

  /** The `:\s(.*)` part: the white-space character after the colon and the content. */
  datatype Content = Content(gap: char, text: string)

  /** What follows a header prefix: an optional sender and an optional content. */
  datatype Tail = Tail(sender: Option<string>, content: Option<Content>)

  function TailStr(t: Tail): string {
    (if t.sender.Some? then t.sender.value else "")
    + (if t.content.Some? then ":" + [t.content.value.gap] + t.content.value.text else "")
  }

  /** A sender is one or more characters other than ':'; the content follows ':' and one
      white-space character and holds no line terminator (`.` does not match one). */
  predicate WfTail(t: Tail) {
    && (t.sender.Some? ==> t.sender.value != [] && ':' !in t.sender.value)
    && (t.content.Some? ==> IsWhite(t.content.value.gap) && NoLineTerminator(t.content.value.text))
  }

  /** The length of the longest prefix of `s` without ':'. */
  function NonColonRun(s: string): (n: nat)
    ensures n <= |s| && ':' !in s[..n] && (n < |s| ==> s[n] == ':')
  {
    if s != [] && s[0] != ':' then
      var n := 1 + NonColonRun(s[1..]);
      assert s[..n] == [s[0]] + s[1..][..n - 1];
      n
    else 0
  }

  lemma {:induction false} NonColonRunOf(a: string, rest: string)
    requires ':' !in a && (rest == [] || rest[0] == ':')
    ensures NonColonRun(a + rest) == |a|
  {
    if a != [] {
      assert (a + rest)[1..] == a[1..] + rest;
      NonColonRunOf(a[1..], rest);
    }
  }

  /** The tail group of lines 91 (`senderRequired`) and 141. `[^:]+` first takes the whole
      colon-free prefix; a shorter prefix would leave a character other than ':' where the
      optional group or the end of input must follow, so no backtracking can succeed. */
  function ParseTail(s: string, senderRequired: bool): (r: Option<Tail>)
    ensures r.Some? ==> WfTail(r.value) && TailStr(r.value) == s
                        && (senderRequired ==> r.value.sender.Some?)
  {
    var n := NonColonRun(s);
    if n == 0 && senderRequired then None
    else
      var sender := if n == 0 then None else Some(s[..n]);
      assert (if sender.Some? then sender.value else "") == s[..n];
      if n == |s| then
        assert s[..n] == s;
        Some(Tail(sender, None))
      else if n + 1 < |s| && IsWhite(s[n + 1]) && NoLineTerminator(s[n + 2..]) then
        assert s == s[..n] + (":" + [s[n + 1]] + s[n + 2..]);
        Some(Tail(sender, Some(Content(s[n + 1], s[n + 2..]))))
      else None
  }

  lemma ParseTailOf(t: Tail, senderRequired: bool)
    requires WfTail(t) && (senderRequired ==> t.sender.Some?)
    ensures ParseTail(TailStr(t), senderRequired) == Some(t)
  {
    var a := if t.sender.Some? then t.sender.value else "";
    var b := if t.content.Some? then ":" + [t.content.value.gap] + t.content.value.text else "";
    assert TailStr(t) == a + b;
    NonColonRunOf(a, b);
    assert (a + b)[..|a|] == a;
    if t.content.Some? {
      assert (a + b)[|a| + 1] == t.content.value.gap;
      assert (a + b)[|a| + 2..] == t.content.value.text;
    }
  }

  // ---------------------------------------------------------------------------
  // The whole header lines
  // ---------------------------------------------------------------------------

  datatype BracketLine = BracketLine(prefix: BracketPrefix, tail: Tail)
  datatype DashLine = DashLine(prefix: DashPrefix, tail: Tail)

  function BracketLineStr(m: BracketLine): string {
    BracketPrefixStr(m.prefix) + TailStr(m.tail)
  }

  function DashLineStr(m: DashLine): string {
    DashPrefixStr(m.prefix) + TailStr(m.tail)
  }

  predicate WfBracketLine(m: BracketLine) {
    WfBracketPrefix(m.prefix) && WfTail(m.tail) && m.tail.sender.Some?
  }

  predicate WfDashLine(m: DashLine) {
    WfDashPrefix(m.prefix) && WfTail(m.tail)
  }

  /** The regular expression at line 91. */
  function MatchBracketLine(line: string): (r: Option<BracketLine>)
    ensures r.Some? ==> WfBracketLine(r.value) && BracketLineStr(r.value) == line
  {
    var p :- ParseBracketPrefix(line);
    var t :- ParseTail(p.rest, true);
    Some(BracketLine(p.v, t))
  }

  /** The regular expression at line 141. */
  function MatchDashLine(line: string): (r: Option<DashLine>)
    ensures r.Some? ==> WfDashLine(r.value) && DashLineStr(r.value) == line
  {
    var p :- ParseDashPrefix(line);
    var t :- ParseTail(p.rest, false);
    Some(DashLine(p.v, t))
  }

  /** Every well-formed bracket line is recognised, with the same parts. */
  lemma MatchBracketLineOf(m: BracketLine)
    requires WfBracketLine(m)
    ensures MatchBracketLine(BracketLineStr(m)) == Some(m)
  {
    ParseBracketPrefixOf(m.prefix, TailStr(m.tail));
    ParseTailOf(m.tail, true);
  }

  /** Every well-formed dash line is recognised, with the same parts. */
  lemma MatchDashLineOf(m: DashLine)
    requires WfDashLine(m)
    ensures MatchDashLine(DashLineStr(m)) == Some(m)
  {
    ParseDashPrefixOf(m.prefix, TailStr(m.tail));
    ParseTailOf(m.tail, false);
  }

  /** The regular expression at line 161 (`(.+)$` after the dash prefix); the caller falls
      back to the whole line when it does not match. */
  function SystemText(line: string): (r: string)
    ensures ParseDashPrefix(line).Some? && ParseDashPrefix(line).value.rest != []
              && NoLineTerminator(ParseDashPrefix(line).value.rest)
            ==> line == DashPrefixStr(ParseDashPrefix(line).value.v) + r
    ensures !(ParseDashPrefix(line).Some? && ParseDashPrefix(line).value.rest != []
              && NoLineTerminator(ParseDashPrefix(line).value.rest))
            ==> r == line
  {
    match ParseDashPrefix(line)
    case Some(p) =>
      if p.rest != [] && NoLineTerminator(p.rest) then p.rest else line
    case None => line
  }

  /** On a dash line the system text is everything after the prefix, unless that is empty or
      holds a line terminator. */
  lemma SystemTextOf(m: DashLine)
    requires WfDashLine(m)
    ensures TailStr(m.tail) != [] && NoLineTerminator(TailStr(m.tail))
            ==> SystemText(DashLineStr(m)) == TailStr(m.tail)
    ensures !(TailStr(m.tail) != [] && NoLineTerminator(TailStr(m.tail)))
            ==> SystemText(DashLineStr(m)) == DashLineStr(m)
  {
    ParseDashPrefixOf(m.prefix, TailStr(m.tail));
  }
}
