/**
 * The attachment regular expressions of src/utils/chatParser.ts: the file-name searches
 * `extractAttachmentName` (line 258) and `extractDashFormatFileName` (lines 268 and 272)
 * perform, and the media-extension test of `parseDashFormat` (line 175).
 *
 * A search returns the match a backtracking engine finds first: the leftmost start, and at
 * that start the longest choice of each greedy quantifier in turn. Each search is specified
 * by a predicate saying what a match is and by contracts saying the result is the first one
 * in that order.
 */
module Attachments {
  import opened Wrappers
  import opened JsStrings

  // ---------------------------------------------------------------------------
  // Runs of characters
  // ---------------------------------------------------------------------------

  /** The length of the longest run of `\s` characters at the start of `s`. */
  function WhiteRun(s: string): (n: nat)
    ensures n <= |s| && (forall k :: 0 <= k < n ==> IsWhite(s[k])) && (n < |s| ==> !IsWhite(s[n]))
  {
    if s != [] && IsWhite(s[0]) then 1 + WhiteRun(s[1..]) else 0
  }

  /** The length of the longest run of `[a-zA-Z0-9]` characters at the start of `s`. */
  function AlnumRun(s: string): (n: nat)
    ensures n <= |s| && (forall k :: 0 <= k < n ==> IsAsciiAlnum(s[k]))
    ensures n < |s| ==> !IsAsciiAlnum(s[n])
  {
    if s != [] && IsAsciiAlnum(s[0]) then 1 + AlnumRun(s[1..]) else 0
  }

  /** The first index at or after `from` holding `c`. */
  function FindChar(s: string, c: char, from: nat): (r: Option<nat>)
    ensures r.Some? ==> from <= r.value < |s| && s[r.value] == c
    ensures r.Some? ==> forall k :: from <= k < r.value ==> s[k] != c
    ensures r.None? ==> forall k :: from <= k < |s| ==> s[k] != c
    decreases |s| - from
  {
    if from >= |s| then None
    else if s[from] == c then Some(from)
    else FindChar(s, c, from + 1)
  }

  // ---------------------------------------------------------------------------
  // Bracket format: /<attached:\s*([^>]+)>/
  // ---------------------------------------------------------------------------

  const AttachedTag: string := "<attached:"

  /** A match starting at `i` whose group is `s[w..q]`: the tag, white space up to `w`, one or
      more characters other than '>' up to `q`, and '>' at `q`. */
  predicate AttachMatch(s: string, i: int, w: int, q: int) {
    && OccursAt(s, AttachedTag, i)
    && i + |AttachedTag| <= w < q < |s|
    && (forall k :: i + |AttachedTag| <= k < w ==> IsWhite(s[k]))
    && (forall k :: w <= k < q ==> s[k] != '>')
    && s[q] == '>'
  }

  /** The match at a given occurrence of the tag. `\s*` first takes the whole white-space run
      and `[^>]+` then runs to the first '>'; when that '>' comes straight after the white
      space, `\s*` gives back one character to `[^>]+`; with no white space and '>' straight
      after the tag there is no match here. */
  function AttachAt(s: string, i: nat): (r: Option<(nat, nat)>)
    requires OccursAt(s, AttachedTag, i)
    ensures r.Some? ==> AttachMatch(s, i, r.value.0, r.value.1)
  {
    var p := i + |AttachedTag|;
    var e := p + WhiteRun(s[p..]);
    WhiteRunBounds(s, p);
    match FindChar(s, '>', p)
    case None => None
    case Some(q) =>
      if q > e then Some((e, q))
      else if q == e && e > p then Some((e - 1, e))
      else None
  }

  /** The white-space run after `p` ends at the first character that is not white space. */
  lemma WhiteRunBounds(s: string, p: nat)
    requires p <= |s|
    ensures var e := p + WhiteRun(s[p..]);
            && e <= |s| && (forall k :: p <= k < e ==> IsWhite(s[k]))
            && (e < |s| ==> !IsWhite(s[e]))
  {
    var ws := WhiteRun(s[p..]);
    var e := p + ws;
    forall k | p <= k < e ensures IsWhite(s[k]) {
      assert s[p..][k - p] == s[k];
    }
    if e < |s| {
      assert s[p..][ws] == s[e];
    }
  }

  /** `(w, q)` is the match the backtracking takes among those starting at `i`: the longest
      white-space run, then the first '>'. */
  ghost predicate LongestAt(s: string, i: nat, w: nat, q: nat) {
    forall w', q' :: AttachMatch(s, i, w', q') ==> w' <= w && (w' == w ==> q' == q)
  }

  /** No match of the attachment pattern starts at `i`. */
  ghost predicate NoAttachAt(s: string, i: nat) {
    forall w, q :: !AttachMatch(s, i, w, q)
  }

  /** The match found at an occurrence is the one the backtracking takes, and there is none
      only when no match starts there. */
  lemma AttachAtGreedy(s: string, i: nat)
    requires OccursAt(s, AttachedTag, i)
    ensures AttachAt(s, i).Some? ==> LongestAt(s, i, AttachAt(s, i).value.0, AttachAt(s, i).value.1)
    ensures AttachAt(s, i).None? ==> NoAttachAt(s, i)
  {
    WhiteRunBounds(s, i + |AttachedTag|);
  }

  /** Where a search for the tag succeeds: the start of the match and the group's bounds. */
  datatype AttachSpan = AttachSpan(start: nat, nameStart: nat, nameEnd: nat)

  /** The leftmost match at or after `from`, with the longest white-space run its start
      allows. */
  function AttachSearch(s: string, from: nat): (r: Option<AttachSpan>)
    ensures r.Some? ==> from <= r.value.start
                        && AttachMatch(s, r.value.start, r.value.nameStart, r.value.nameEnd)
    decreases |s| - from
  {
    match IndexOf(s, AttachedTag, from)
    case None => None
    case Some(i) =>
      match AttachAt(s, i)
      case Some((w, q)) => Some(AttachSpan(i, w, q))
      case None => AttachSearch(s, i + 1)
  }

  /** No match of the attachment pattern starts at or after `from`. */
  ghost predicate NoAttachFrom(s: string, from: nat) {
    forall i, w, q :: from <= i ==> !AttachMatch(s, i, w, q)
  }

  /** `m` is the match the regular expression takes among those starting at or after `from`:
      the leftmost start, and there the longest white-space run. */
  ghost predicate LeftmostAttach(s: string, from: nat, m: AttachSpan) {
    forall i, w, q :: from <= i && AttachMatch(s, i, w, q)
      ==> m.start < i || (m.start == i && w <= m.nameStart && (w == m.nameStart ==> q == m.nameEnd))
  }

  /** Without an occurrence of the tag at or after `from` there is no match there. */
  lemma NoTagNoAttach(s: string, from: nat)
    requires forall k :: from <= k ==> !OccursAt(s, AttachedTag, k)
    ensures NoAttachFrom(s, from)
  {
    forall i, w, q | from <= i ensures !AttachMatch(s, i, w, q) {
      assert !OccursAt(s, AttachedTag, i);
    }
  }

  /** A match at the first occurrence of the tag is leftmost when it is the longest there. */
  lemma LeftmostAtTag(s: string, from: nat, i0: nat, w0: nat, q0: nat)
    requires from <= i0 && forall k :: from <= k < i0 ==> !OccursAt(s, AttachedTag, k)
    requires LongestAt(s, i0, w0, q0)
    ensures LeftmostAttach(s, from, AttachSpan(i0, w0, q0))
  {
    forall i, w, q | from <= i && AttachMatch(s, i, w, q)
      ensures i0 < i || (i0 == i && w <= w0 && (w == w0 ==> q == q0))
    {
      assert OccursAt(s, AttachedTag, i);
    }
  }

  /** No match starts before the first occurrence of the tag, nor at it when it fails. */
  lemma NoAttachUpTo(s: string, from: nat, i0: nat)
    requires from <= i0 && forall k :: from <= k < i0 ==> !OccursAt(s, AttachedTag, k)
    requires NoAttachAt(s, i0)
    ensures forall i, w, q :: from <= i <= i0 ==> !AttachMatch(s, i, w, q)
  {
    forall i, w, q | from <= i <= i0 ensures !AttachMatch(s, i, w, q) {
      if i < i0 {
        assert !OccursAt(s, AttachedTag, i);
      }
    }
  }

  /** So what holds from just past a failed first occurrence holds from `from`. */
  lemma PastFailedTag(s: string, from: nat, i0: nat)
    requires from <= i0 && forall k :: from <= k < i0 ==> !OccursAt(s, AttachedTag, k)
    requires NoAttachAt(s, i0)
    ensures NoAttachFrom(s, i0 + 1) ==> NoAttachFrom(s, from)
    ensures forall m: AttachSpan :: i0 < m.start && LeftmostAttach(s, i0 + 1, m) ==> LeftmostAttach(s, from, m)
  {
    NoAttachUpTo(s, from, i0);
  }

  /** The search takes the leftmost match, and finds none only when there is none. */
  lemma {:induction false} AttachSearchLeftmost(s: string, from: nat)
    ensures AttachSearch(s, from).Some? ==> LeftmostAttach(s, from, AttachSearch(s, from).value)
    ensures AttachSearch(s, from).None? ==> NoAttachFrom(s, from)
    decreases |s| - from
  {
    match IndexOf(s, AttachedTag, from)
    case None =>
      NoTagNoAttach(s, from);
    case Some(i0) =>
      AttachAtGreedy(s, i0);
      match AttachAt(s, i0)
      case Some((w0, q0)) =>
        LeftmostAtTag(s, from, i0, w0, q0);
      case None =>
        AttachSearchLeftmost(s, i0 + 1);
        PastFailedTag(s, from, i0);
  }

  /** `extractAttachmentName(content)`: the group of the first match, or the whole content. */
  function ExtractAttachmentName(content: string): (r: string)
    ensures AttachSearch(content, 0).None? ==> r == content
    ensures AttachSearch(content, 0).Some? ==>
              var m := AttachSearch(content, 0).value;
              r == content[m.nameStart..m.nameEnd] && r != [] && '>' !in r
  {
    match AttachSearch(content, 0)
    case None => content
    case Some(m) => content[m.nameStart..m.nameEnd]
  }

  /** The export's own form: the tag, white space, a name without '>' that does not start with
      white space, and '>'. The name is extracted whatever follows. */
  lemma ExtractAttachmentNameOf(gap: string, name: string, suffix: string)
    requires AllWhite(gap) && name != [] && !IsWhite(name[0]) && '>' !in name
    ensures ExtractAttachmentName(AttachedTag + gap + name + ">" + suffix) == name
  {
    var s := AttachedTag + gap + name + ">" + suffix;
    var p := |AttachedTag|;
    var w := p + |gap|;
    var q := w + |name|;
    assert s[..p] == AttachedTag;
    assert s[p..w] == gap;
    assert s[w..q] == name;
    assert s[q] == '>';
    assert AttachMatch(s, 0, w, q);
    assert !IsWhite(s[w]);
    AttachSearchLeftmost(s, 0);
    var m := AttachSearch(s, 0).value;
    assert m.start == 0 && m.nameStart == w && m.nameEnd == q;
  }

  // ---------------------------------------------------------------------------
  // Dash format: ([^/\\&*?<>|:"]+\.[a-zA-Z0-9]+) with and without \s*\(file attached\)
  // ---------------------------------------------------------------------------

  const FileAttachedTag: string := "(file attached)"

  /** `[^/\\&*?<>|:"]` */
  predicate IsNameChar(c: char) {
    c != '/' && c != '\\' && c != '&' && c != '*' && c != '?' && c != '<' && c != '>'
    && c != '|' && c != ':' && c != '"'
  }

  /** A match of `[^/\\&*?<>|:"]+\.[a-zA-Z0-9]` starting at `i` with the dot at `j`. */
  predicate ExtAt(s: string, i: int, j: int) {
    && 0 <= i < j && j + 1 < |s|
    && (forall k :: i <= k < j ==> IsNameChar(s[k]))
    && s[j] == '.' && IsAsciiAlnum(s[j + 1])
  }

  /** Where the greedy `[a-zA-Z0-9]+` after the dot at `j` stops. */
  function ExtEnd(s: string, j: nat): (k: nat)
    requires j + 1 < |s| && IsAsciiAlnum(s[j + 1])
    ensures j + 1 < k <= |s| && (forall n :: j + 1 <= n < k ==> IsAsciiAlnum(s[n]))
    ensures k < |s| ==> !IsAsciiAlnum(s[k])
  {
    var n := AlnumRun(s[j + 1..]);
    assert s[j + 1..][0] == s[j + 1];
    assert forall m :: j + 1 <= m < j + 1 + n ==> IsAsciiAlnum(s[m]) by {
      forall m | j + 1 <= m < j + 1 + n ensures IsAsciiAlnum(s[m]) {
        assert s[j + 1..][m - j - 1] == s[m];
      }
    }
    assert j + 1 + n < |s| ==> !IsAsciiAlnum(s[j + 1 + n]) by {
      if j + 1 + n < |s| {
        assert s[j + 1..][n] == s[j + 1 + n];
      }
    }
    j + 1 + n
  }

  /** The match of line 268 (`withTag`) or line 272 starting at `i` with the dot at `j`. For
      line 268 the greedy extension must be followed by white space and "(file attached)"; a
      shorter extension would leave a letter or digit where that must start. */
  predicate Candidate(s: string, i: int, j: int, withTag: bool) {
    && ExtAt(s, i, j)
    && (withTag ==>
          var k := ExtEnd(s, j);
          OccursAt(s, FileAttachedTag, k + WhiteRun(s[k..])))
  }

  /** The greatest dot position below `hi` that gives a match at `i`: `[^...]+` first takes as
      much as it can and backtracks one character at a time. */
  function LastCandidate(s: string, i: nat, hi: nat, withTag: bool): (r: Option<nat>)
    ensures r.Some? ==> i < r.value < hi && Candidate(s, i, r.value, withTag)
    decreases hi
  {
    if hi <= i + 1 then None
    else if Candidate(s, i, hi - 1, withTag) then Some(hi - 1)
    else LastCandidate(s, i, hi - 1, withTag)
  }

  /** The search finds the greatest matching dot position, and finds none only when there is
      none. */
  lemma {:induction false} LastCandidateGreatest(s: string, i: nat, hi: nat, withTag: bool)
    ensures var r := LastCandidate(s, i, hi, withTag);
            && (r.Some? ==> forall j :: r.value < j < hi ==> !Candidate(s, i, j, withTag))
            && (r.None? ==> forall j :: j < hi ==> !Candidate(s, i, j, withTag))
    decreases hi
  {
    if hi > i + 1 && !Candidate(s, i, hi - 1, withTag) {
      LastCandidateGreatest(s, i, hi - 1, withTag);
    }
  }

  /** When no '.' follows a matching dot position below `hi`, the backward search stops
      there. */
  lemma LastCandidateIs(s: string, i: nat, hi: nat, j: nat, withTag: bool)
    requires i < j < hi <= |s| && Candidate(s, i, j, withTag)
    requires forall j' :: j < j' < hi ==> s[j'] != '.'
    ensures LastCandidate(s, i, hi, withTag) == Some(j)
  {
    LastCandidateGreatest(s, i, hi, withTag);
    var r := LastCandidate(s, i, hi, withTag);
    assert r.Some?;
    assert !(r.value < j);
    assert s[r.value] == '.';
  }

  /** The leftmost start at or after `from` with a match, and its greatest dot position. */
  function FirstCandidate(s: string, from: nat, withTag: bool): (r: Option<(nat, nat)>)
    ensures r.Some? ==> from <= r.value.0 && Candidate(s, r.value.0, r.value.1, withTag)
    decreases |s| - from
  {
    if from >= |s| then None
    else
      match LastCandidate(s, from, |s|, withTag)
      case Some(j) => Some((from, j))
      case None => FirstCandidate(s, from + 1, withTag)
  }

  /** The match found is the leftmost, with the greatest dot position at its start; no match
      is found only when there is none. */
  lemma {:induction false} FirstCandidateLeftmost(s: string, from: nat, withTag: bool)
    ensures var r := FirstCandidate(s, from, withTag);
            && (r.Some? ==> forall i, j :: from <= i < r.value.0 ==> !Candidate(s, i, j, withTag))
            && (r.Some? ==> forall j :: r.value.1 < j ==> !Candidate(s, r.value.0, j, withTag))
            && (r.None? ==> forall i, j :: from <= i ==> !Candidate(s, i, j, withTag))
    decreases |s| - from
  {
    if from < |s| {
      LastCandidateGreatest(s, from, |s|, withTag);
      if LastCandidate(s, from, |s|, withTag).None? {
        FirstCandidateLeftmost(s, from + 1, withTag);
      }
    }
  }

  /** `extractDashFormatFileName(content)`: the trimmed group of the first match of line 268,
      else of line 272, else the whole content. A name found holds a dot and none of the
      excluded characters. */
  function ExtractDashFormatFileName(content: string): (r: string)
    ensures FirstCandidate(content, 0, true).Some? ==>
              var p := FirstCandidate(content, 0, true).value;
              ExtAt(content, p.0, p.1) && r == Trim(content[p.0..ExtEnd(content, p.1)])
    ensures FirstCandidate(content, 0, true).None? && FirstCandidate(content, 0, false).Some? ==>
              var p := FirstCandidate(content, 0, false).value;
              ExtAt(content, p.0, p.1) && r == Trim(content[p.0..ExtEnd(content, p.1)])
    ensures FirstCandidate(content, 0, true).None? && FirstCandidate(content, 0, false).None?
            ==> r == content
    ensures FirstCandidate(content, 0, true).Some? || FirstCandidate(content, 0, false).Some?
            ==> '.' in r && forall k :: 0 <= k < |r| ==> IsNameChar(r[k])
  {
    match FirstCandidate(content, 0, true)
    case Some((i, j)) => TrimmedGroup(content, i, j)
    case None =>
      match FirstCandidate(content, 0, false)
      case Some((i, j)) => TrimmedGroup(content, i, j)
      case None => content
  }

  /** The match a JavaScript search picks: the candidate with the leftmost start, and at
      that start the greatest dot position. */
  ghost predicate ChosenMatch(s: string, i: int, j: int, withTag: bool) {
    && Candidate(s, i, j, withTag)
    && (forall i', j' :: 0 <= i' < i ==> !Candidate(s, i', j', withTag))
    && (forall j' :: j < j' ==> !Candidate(s, i, j', withTag))
  }

  /** The file name is the trimmed group of the match of line 268 the search picks when
      there is one, else of the match of line 272 the search picks when there is one, and
      the content itself when neither expression matches anywhere. */
  lemma ExtractDashFormatFileNameChosen(content: string)
    ensures (exists i, j :: Candidate(content, i, j, true)) ==>
              exists i, j :: ChosenMatch(content, i, j, true)
                             && ExtractDashFormatFileName(content) == Trim(content[i..ExtEnd(content, j)])
    ensures (forall i, j :: !Candidate(content, i, j, true)) && (exists i, j :: Candidate(content, i, j, false)) ==>
              exists i, j :: ChosenMatch(content, i, j, false)
                             && ExtractDashFormatFileName(content) == Trim(content[i..ExtEnd(content, j)])
    ensures (forall i, j :: !Candidate(content, i, j, true) && !Candidate(content, i, j, false)) ==>
              ExtractDashFormatFileName(content) == content
  {
    FirstCandidateLeftmost(content, 0, true);
    FirstCandidateLeftmost(content, 0, false);
    match FirstCandidate(content, 0, true)
    case Some((i, j)) =>
      assert ChosenMatch(content, i, j, true);
    case None =>
      match FirstCandidate(content, 0, false)
      case Some((i, j)) =>
        assert ChosenMatch(content, i, j, false);
      case None =>
  }

  /** The group `s[i..ExtEnd(s, j)]` with `trim()` applied. */
  function TrimmedGroup(s: string, i: nat, j: nat): (r: string)
    requires ExtAt(s, i, j)
    ensures '.' in r && forall k :: 0 <= k < |r| ==> IsNameChar(r[k])
  {
    TrimmedGroupChars(s[i..ExtEnd(s, j)], j - i);
    Trim(s[i..ExtEnd(s, j)])
  }

  /** Trimming a group with a dot and only name characters keeps both. */
  lemma TrimmedGroupChars(g: string, d: nat)
    requires d < |g| && g[d] == '.' && forall k :: 0 <= k < |g| ==> IsNameChar(g[k])
    ensures '.' in Trim(g) && forall k :: 0 <= k < |Trim(g)| ==> IsNameChar(Trim(g)[k])
  {
    TrimKeeps(g, d);
    TrimSub(g);
    var r := Trim(g);
    forall k | 0 <= k < |r| ensures IsNameChar(r[k]) {
      assert r[k] in g;
    }
  }

  /** `name.ext` as the export writes it: a name of the allowed characters and an extension
      of letters and digits. */
  predicate WfFileName(base: string, ext: string) {
    && base != [] && (forall k :: 0 <= k < |base| ==> IsNameChar(base[k]))
    && ext != [] && (forall k :: 0 <= k < |ext| ==> IsAsciiAlnum(ext[k]))
  }

  /** The export's own form, `name.ext (file attached)`: the extracted name is the trimmed
      `name.ext`, when the extension is letters and digits. */
  lemma DashFileNameOf(base: string, ext: string)
    requires WfFileName(base, ext)
    ensures ExtractDashFormatFileName(base + "." + ext + " " + FileAttachedTag)
         == Trim(base + "." + ext)
    ensures Contains(base + "." + ext + " " + FileAttachedTag, FileAttachedTag)
  {
    ContainsSuffix(base + "." + ext + " ", FileAttachedTag);
    TaggedNameMatch(base, ext);
  }

  /** The tagged pattern matches at 0 and takes `name.ext` as its group. */
  lemma TaggedNameMatch(base: string, ext: string)
    requires WfFileName(base, ext)
    ensures ExtractDashFormatFileName(base + "." + ext + " " + FileAttachedTag)
         == Trim(base + "." + ext)
  {
    var s := base + "." + ext + " " + FileAttachedTag;
    var j := |base|;
    TaggedNameCandidate(base, ext);
    NoDotAfterName(base, ext);
    ExtractNamed(base + "." + ext, " ", FileAttachedTag, j);
  }

  /** The same for any text after the name: the group is the name. */
  lemma ExtractNamed(name: string, t1: string, t2: string, j: nat)
    requires var s := name + t1 + t2;
             0 < j < |s| && Candidate(s, 0, j, true) && ExtEnd(s, j) == |name|
             && forall n :: j < n < |s| ==> s[n] != '.'
    ensures ExtractDashFormatFileName(name + t1 + t2) == Trim(name)
  {
    ExtractTagged(name + t1 + t2, j);
    NamePrefix(name, t1, t2);
  }

  /** A match of line 268 at 0 with no '.' after its dot gives the trimmed group. */
  lemma ExtractTagged(s: string, j: nat)
    requires 0 < j < |s| && Candidate(s, 0, j, true)
    requires forall n :: j < n < |s| ==> s[n] != '.'
    ensures ExtAt(s, 0, j)
    ensures ExtractDashFormatFileName(s) == Trim(s[0..ExtEnd(s, j)])
  {
    LastCandidateIs(s, 0, |s|, j, true);
    ExtractOfFirst(s, j);
  }

  lemma NamePrefix(name: string, t1: string, t2: string)
    ensures (name + t1 + t2)[0..|name|] == name
  {
  }

  /** When the tagged pattern matches at 0, the name is the trimmed group of that match. */
  lemma ExtractOfFirst(s: string, j: nat)
    requires s != [] && LastCandidate(s, 0, |s|, true) == Some(j)
    ensures ExtAt(s, 0, j)
    ensures ExtractDashFormatFileName(s) == Trim(s[0..ExtEnd(s, j)])
  {
    assert FirstCandidate(s, 0, true) == Some((0, j));
  }

  /** The name, its extension, then one space and the tag: a match of line 268 at 0. */
  lemma TaggedNameCandidate(base: string, ext: string)
    requires WfFileName(base, ext)
    ensures var s := base + "." + ext + " " + FileAttachedTag;
            Candidate(s, 0, |base|, true) && ExtEnd(s, |base|) == |base| + 1 + |ext|
  {
    NameParts(base, ext);
    TaggedCandidate(base + "." + ext + " " + FileAttachedTag, |base|, |base| + 1 + |ext|);
  }

  /** A name, a dot, an extension, then one space and the tag: a match of line 268 at 0. */
  lemma TaggedCandidate(s: string, j: nat, k: nat)
    requires 0 < j && j + 1 < k && k <= |s|
    requires forall n :: 0 <= n < j ==> IsNameChar(s[n])
    requires s[j] == '.' && IsAsciiAlnum(s[j + 1])
    requires forall n :: j + 1 <= n < k ==> IsAsciiAlnum(s[n])
    requires s[k..] == " " + FileAttachedTag
    ensures Candidate(s, 0, j, true) && ExtEnd(s, j) == k
  {
    assert s[k] == s[k..][0] == ' ';
    assert ExtAt(s, 0, j);
    ExtEndAt(s, j, k);
    TagAfter(s, k);
  }

  /** The extension ends at the first character that is not a letter or a digit. */
  lemma ExtEndAt(s: string, j: nat, k: nat)
    requires j + 1 < k < |s| && !IsAsciiAlnum(s[k])
    requires forall n :: j + 1 <= n < k ==> IsAsciiAlnum(s[n])
    ensures ExtEnd(s, j) == k
  {
  }

  /** One space, then the tag. */
  lemma TagAfter(s: string, k: nat)
    requires k <= |s| && s[k..] == " " + FileAttachedTag
    ensures OccursAt(s, FileAttachedTag, k + WhiteRun(s[k..]))
  {
    SpaceBeforeTag();
    assert s[k + 1..k + 1 + |FileAttachedTag|] == s[k..][1..] == FileAttachedTag;
  }

  /** Where the characters of `name.ext (file attached)` come from. */
  lemma NameParts(base: string, ext: string)
    requires WfFileName(base, ext)
    ensures var s := base + "." + ext + " " + FileAttachedTag;
            var j, k := |base|, |base| + 1 + |ext|;
            && |s| == k + 1 + |FileAttachedTag|
            && (forall n :: 0 <= n < j ==> IsNameChar(s[n]))
            && s[j] == '.' && IsAsciiAlnum(s[j + 1])
            && (forall n :: j + 1 <= n < k ==> IsAsciiAlnum(s[n]))
            && s[k] == ' ' && s[k..] == " " + FileAttachedTag
  {
    var s := base + "." + ext + " " + FileAttachedTag;
    var j := |base|;
    var k := j + 1 + |ext|;
    assert forall n :: 0 <= n < j ==> s[n] == base[n];
    assert s[j + 1] == ext[0];
    assert forall n :: j + 1 <= n < k ==> s[n] == ext[n - j - 1];
  }

  /** One white-space character stands before the tag. */
  lemma SpaceBeforeTag()
    ensures WhiteRun(" " + FileAttachedTag) == 1
  {
    var t := " " + FileAttachedTag;
    assert t[1..] == FileAttachedTag;
    assert !IsWhite(FileAttachedTag[0]);
    assert WhiteRun(FileAttachedTag) == 0;
  }

  /** No '.' follows the one before the extension. */
  lemma NoDotAfterName(base: string, ext: string)
    requires forall k :: 0 <= k < |ext| ==> IsAsciiAlnum(ext[k])
    ensures var s := base + "." + ext + " " + FileAttachedTag;
            forall n :: |base| < n < |s| ==> s[n] != '.'
  {
    var s := base + "." + ext + " " + FileAttachedTag;
    var k := |base| + 1 + |ext|;
    forall n | |base| < n < |s| ensures s[n] != '.' {
      if n < k {
        assert s[n] == ext[n - |base| - 1];
      } else {
        assert s[n] == (" " + FileAttachedTag)[n - k];
      }
    }
  }

  // ---------------------------------------------------------------------------
  // Media extensions: /\.(jpg|jpeg|png|gif|mp4|pdf|doc|docx)\s/i
  // ---------------------------------------------------------------------------

  const MediaExtensions: seq<string> := ["jpg", "jpeg", "png", "gif", "mp4", "pdf", "doc", "docx"]

  /** Case-insensitive comparison of one character with a lower-case letter or a digit; the
      `i` flag without `u` folds ASCII letters only. */
  predicate FoldsTo(c: char, e: char) {
    c == e || ('A' <= c <= 'Z' && c as int + 32 == e as int)
  }

  /** `ext` occurs case-insensitively at `k`. */
  predicate FoldedAt(s: string, ext: string, k: int) {
    0 <= k && k + |ext| <= |s| && forall n :: 0 <= n < |ext| ==> FoldsTo(s[k + n], ext[n])
  }

  /** A match at `k`: '.', one of the extensions, and a white-space character. */
  predicate MediaAt(s: string, k: int, e: int) {
    && 0 <= e < |MediaExtensions|
    && 0 <= k && k + 1 + |MediaExtensions[e]| < |s|
    && s[k] == '.'
    && FoldedAt(s, MediaExtensions[e], k + 1)
    && IsWhite(s[k + 1 + |MediaExtensions[e]|])
  }

  /** Some extension matches at `k`, trying them from index `e` on. */
  function MediaAtFrom(s: string, k: nat, e: nat): (r: bool)
    ensures r <==> exists e' :: e <= e' && MediaAt(s, k, e')
    decreases |MediaExtensions| - e
  {
    if e >= |MediaExtensions| then false
    else if k + 1 + |MediaExtensions[e]| < |s| && s[k] == '.'
            && FoldedAt(s, MediaExtensions[e], k + 1) && IsWhite(s[k + 1 + |MediaExtensions[e]|])
    then
      assert MediaAt(s, k, e);
      true
    else MediaAtFrom(s, k, e + 1)
  }

  /** Some match at an index at or after `from`. */
  function MediaFrom(s: string, from: nat): (r: bool)
    ensures r <==> exists k, e :: from <= k && MediaAt(s, k, e)
    decreases |s| - from
  {
    if from >= |s| then false
    else MediaAtFrom(s, from, 0) || MediaFrom(s, from + 1)
  }

  /** `content.match(/\.(jpg|jpeg|png|gif|mp4|pdf|doc|docx)\s/i)` succeeds. */
  function HasMediaExtension(content: string): (r: bool)
    ensures r <==> exists k, e :: MediaAt(content, k, e)
  {
    MediaFrom(content, 0)
  }

  /** Without a '.' there is no media extension. */
  lemma NoDotNoMedia(s: string)
    requires '.' !in s
    ensures !HasMediaExtension(s)
  {
  }
}
