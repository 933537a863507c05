/**
 * The JavaScript string primitives the chat parser relies on: the `\s` character
 * class and `trim()`, `indexOf`/`includes`/`startsWith`, `split`, `padStart(2, '0')`,
 * `parseInt(_, 10)` and number-to-string, plus the code-point order used for sorting.
 * Strings are sequences of Unicode scalar values.
 */
module JsStrings {
  import opened Wrappers

  // ---------------------------------------------------------------------------
  // Character classes
  // ---------------------------------------------------------------------------

  /** The characters `\s` matches in a JavaScript regular expression (WhiteSpace and
      LineTerminator); `trim()` and `parseInt` strip exactly this set. */
  predicate IsWhite(c: char) {
    ('\t' <= c <= '\r') || c == ' ' || c == '\U{00A0}' || c == '\U{1680}'
    || ('\U{2000}' <= c <= '\U{200A}') || c == '\U{2028}' || c == '\U{2029}'
    || c == '\U{202F}' || c == '\U{205F}' || c == '\U{3000}' || c == '\U{FEFF}'
  }

  /** The characters `.` does not match (no `s` flag). */
  predicate IsLineTerminator(c: char) {
    c == '\n' || c == '\r' || c == '\U{2028}' || c == '\U{2029}'
  }

  /** `\d`: ASCII digits only. */
  predicate IsDigit(c: char) {
    '0' <= c <= '9'
  }

  /** `[a-zA-Z0-9]` */
  predicate IsAsciiAlnum(c: char) {
    IsDigit(c) || ('a' <= c <= 'z') || ('A' <= c <= 'Z')
  }

  predicate AllWhite(s: string) {
    forall i :: 0 <= i < |s| ==> IsWhite(s[i])
  }

  predicate AllDigits(s: string) {
    forall i :: 0 <= i < |s| ==> IsDigit(s[i])
  }

  predicate NoLineTerminator(s: string) {
    forall i :: 0 <= i < |s| ==> !IsLineTerminator(s[i])
  }

  // ---------------------------------------------------------------------------
  // trim()
  // ---------------------------------------------------------------------------

  /** Drops the leading `\s` characters. */
  function TrimStart(s: string): (r: string)
    ensures |r| <= |s| && r == s[|s| - |r|..]
    ensures AllWhite(s[..|s| - |r|])
    ensures r == [] || !IsWhite(r[0])
  {
    if s != [] && IsWhite(s[0]) then TrimStart(s[1..]) else s
  }

  /** String.prototype.trim: the white space at both ends is removed. */
  function Trim(s: string): (r: string)
    ensures |r| <= |s|
    ensures r == [] || (!IsWhite(r[0]) && !IsWhite(r[|r| - 1]))
    decreases |s|
  {
    if s == [] then []
    else if IsWhite(s[0]) then Trim(s[1..])
    else if IsWhite(s[|s| - 1]) then Trim(s[..|s| - 1])
    else s
  }

  /** `trim()` keeps every character that is not white space. */
  lemma {:induction false} TrimKeeps(s: string, k: nat)
    requires k < |s| && !IsWhite(s[k])
    ensures s[k] in Trim(s)
    decreases |s|
  {
    if IsWhite(s[0]) {
      assert s[1..][k - 1] == s[k];
      TrimKeeps(s[1..], k - 1);
    } else if IsWhite(s[|s| - 1]) {
      assert s[..|s| - 1][k] == s[k];
      TrimKeeps(s[..|s| - 1], k);
    }
  }

  /** `trim()` adds no character. */
  lemma {:induction false} TrimSub(s: string)
    ensures forall c :: c in Trim(s) ==> c in s
    decreases |s|
  {
    if s != [] && IsWhite(s[0]) {
      TrimSub(s[1..]);
      assert forall c :: c in s[1..] ==> c in s;
    } else if s != [] && IsWhite(s[|s| - 1]) {
      TrimSub(s[..|s| - 1]);
      assert forall c :: c in s[..|s| - 1] ==> c in s;
    }
  }

  /** `r` is the slice `s[i..j]`, and everything outside it is white space. */
  predicate SliceBetweenWhite(s: string, r: string, i: int, j: int) {
    0 <= i <= j <= |s| && r == s[i..j] && AllWhite(s[..i]) && AllWhite(s[j..])
  }

  /** `trim()` removes white space at the two ends and nothing else: its result is one
      contiguous slice of the input with only white space before and after it. With the
      non-white ends of `Trim`'s own contract, this fixes the slice uniquely. */
  lemma {:induction false} TrimIsSlice(s: string)
    ensures exists i, j :: SliceBetweenWhite(s, Trim(s), i, j)
    decreases |s|
  {
    if s == [] {
      assert SliceBetweenWhite(s, Trim(s), 0, 0);
    } else if IsWhite(s[0]) {
      TrimIsSlice(s[1..]);
      var i, j :| SliceBetweenWhite(s[1..], Trim(s[1..]), i, j);
      SliceAfterWhite(s, Trim(s[1..]), i, j);
      assert SliceBetweenWhite(s, Trim(s), i + 1, j + 1);
    } else if IsWhite(s[|s| - 1]) {
      TrimIsSlice(s[..|s| - 1]);
      var i, j :| SliceBetweenWhite(s[..|s| - 1], Trim(s[..|s| - 1]), i, j);
      SliceBeforeWhite(s, Trim(s[..|s| - 1]), i, j);
      assert SliceBetweenWhite(s, Trim(s), i, j);
    } else {
      assert s[0..|s|] == s;
      assert SliceBetweenWhite(s, Trim(s), 0, |s|);
    }
  }

  /** A white character in front moves the slice one place on. */
  lemma SliceAfterWhite(s: string, r: string, i: int, j: int)
    requires s != [] && IsWhite(s[0]) && SliceBetweenWhite(s[1..], r, i, j)
    ensures SliceBetweenWhite(s, r, i + 1, j + 1)
  {
    var t := s[1..];
    assert t[i..j] == s[i + 1..j + 1];
    assert s[j + 1..] == t[j..];
    forall k | 0 <= k < i + 1 ensures IsWhite(s[k]) {
      if k > 0 {
        assert s[k] == t[..i][k - 1];
      }
    }
  }

  /** A white character at the back leaves the slice where it is. */
  lemma SliceBeforeWhite(s: string, r: string, i: int, j: int)
    requires s != [] && IsWhite(s[|s| - 1]) && SliceBetweenWhite(s[..|s| - 1], r, i, j)
    ensures SliceBetweenWhite(s, r, i, j)
  {
    var t := s[..|s| - 1];
    assert t[i..j] == s[i..j];
    assert s[..i] == t[..i];
    forall k | j <= k < |s| ensures IsWhite(s[k]) {
      if k < |s| - 1 {
        assert s[k] == t[j..][k - j];
      }
    }
  }

  /** A string with no white space at either end is its own trim. */
  lemma TrimOfTrimmed(s: string)
    requires s == [] || (!IsWhite(s[0]) && !IsWhite(s[|s| - 1]))
    ensures Trim(s) == s
  {
  }

  // ---------------------------------------------------------------------------
  // indexOf, includes, startsWith
  // ---------------------------------------------------------------------------

  /** `p` occurs in `s` starting at index `k`. */
  predicate OccursAt(s: string, p: string, k: int) {
    0 <= k && k + |p| <= |s| && s[k..k + |p|] == p
  }

  /** String.prototype.indexOf(p, from): the first occurrence at or after `from`. */
  function IndexOf(s: string, p: string, from: nat): (r: Option<nat>)
    ensures r.Some? ==> from <= r.value && OccursAt(s, p, r.value)
    ensures r.Some? ==> forall k :: from <= k < r.value ==> !OccursAt(s, p, k)
    ensures r.None? ==> forall k :: from <= k ==> !OccursAt(s, p, k)
    decreases |s| - from
  {
    if from + |p| > |s| then None
    else if s[from..from + |p|] == p then Some(from)
    else IndexOf(s, p, from + 1)
  }

  /** String.prototype.includes */
  function Contains(s: string, p: string): (r: bool)
    ensures r <==> exists k :: OccursAt(s, p, k)
  {
    IndexOf(s, p, 0).Some?
  }

  /** A string contains each of its suffixes. */
  lemma ContainsSuffix(a: string, b: string)
    ensures Contains(a + b, b)
  {
    assert OccursAt(a + b, b, |a|) by {
      assert (a + b)[|a|..|a| + |b|] == b;
    }
  }

  /** A string cannot contain a pattern with a character it lacks. */
  lemma NotContainsChar(s: string, p: string, n: nat)
    requires n < |p| && p[n] !in s
    ensures !Contains(s, p)
  {
    assert p[n] in p;
    forall k ensures !OccursAt(s, p, k) {
      if OccursAt(s, p, k) {
        OccursAtChars(s, p, k);
        assert false;
      }
    }
  }

  /** Where a pattern occurs, each of its characters occurs. */
  lemma OccursAtChars(s: string, p: string, k: nat)
    requires OccursAt(s, p, k)
    ensures forall c :: c in p ==> c in s
  {
    forall c | c in p ensures c in s {
      var n :| 0 <= n < |p| && p[n] == c;
      assert s[k..k + |p|][n] == s[k + n];
    }
  }

  /** String.prototype.startsWith */
  predicate StartsWith(s: string, p: string) {
    |p| <= |s| && s[..|p|] == p
  }

  // ---------------------------------------------------------------------------
  // split and join
  // ---------------------------------------------------------------------------

  /** Array.prototype.join */
  function JoinWith(parts: seq<string>, sep: string): string {
    if parts == [] then ""
    else if |parts| == 1 then parts[0]
    else parts[0] + sep + JoinWith(parts[1..], sep)
  }

  lemma JoinTwo(a: string, b: string, sep: string)
    ensures JoinWith([a, b], sep) == a + sep + b
  {
    assert [a, b][1..] == [b];
  }

  lemma JoinThree(a: string, b: string, c: string, sep: string)
    ensures JoinWith([a, b, c], sep) == a + sep + b + sep + c
  {
    assert [a, b, c][1..] == [b, c];
    JoinTwo(b, c, sep);
  }

  /** String.prototype.split with a non-empty separator string: the pieces between the
      occurrences of `sep`, found left to right. Joining them gives `s` back. */
  function Split(s: string, sep: string): (r: seq<string>)
    requires sep != []
    ensures r != [] && JoinWith(r, sep) == s
    decreases |s|
  {
    match IndexOf(s, sep, 0)
    case None => [s]
    case Some(i) =>
      var rest := Split(s[i + |sep|..], sep);
      assert s == s[..i] + sep + s[i + |sep|..] by {
        assert s[i..i + |sep|] == sep;
      }
      [s[..i]] + rest
  }

  /** Splitting a join gives the parts back, when no part contains the separator's first
      character. */
  lemma {:induction false} SplitJoin(parts: seq<string>, sep: string)
    requires sep != [] && parts != []
    requires forall k :: 0 <= k < |parts| ==> sep[0] !in parts[k]
    ensures Split(JoinWith(parts, sep), sep) == parts
  {
    var p0 := parts[0];
    var s := JoinWith(parts, sep);
    assert s[..|p0|] == p0 by {
      if |parts| > 1 {
        assert s == p0 + (sep + JoinWith(parts[1..], sep));
      }
    }
    assert forall k :: 0 <= k < |p0| ==> !OccursAt(s, sep, k) by {
      forall k | 0 <= k < |p0|
        ensures !OccursAt(s, sep, k)
      {
        assert s[k] == s[..|p0|][k] == p0[k];
        if k + |sep| <= |s| {
          assert s[k..k + |sep|][0] == s[k];
        }
      }
    }
    if |parts| == 1 {
      assert s == p0;
      forall k | 0 <= k
        ensures !OccursAt(s, sep, k)
      {
        if k + |sep| <= |s| {
          assert s[k..k + |sep|][0] == s[k];
        }
      }
      assert IndexOf(s, sep, 0).None?;
    } else {
      var rest := JoinWith(parts[1..], sep);
      assert s == p0 + sep + rest;
      assert OccursAt(s, sep, |p0|) by {
        assert s[|p0|..|p0| + |sep|] == sep;
      }
      var r := IndexOf(s, sep, 0);
      assert r == Some(|p0|);
      assert s[..|p0|] == p0;
      assert s[|p0| + |sep|..] == rest;
      SplitJoin(parts[1..], sep);
      assert Split(s, sep) == [p0] + Split(rest, sep);
    }
  }

  /** Lines without a line feed, joined by line feeds, split back into the same lines. */
  lemma SplitLines(lines: seq<string>)
    requires lines != [] && forall k :: 0 <= k < |lines| ==> '\n' !in lines[k]
    ensures Split(JoinWith(lines, "\n"), "\n") == lines
  {
    assert "\n"[0] == '\n';
    SplitJoin(lines, "\n");
  }

  lemma SplitOne(a: string, sep: string)
    requires sep != [] && sep[0] !in a
    ensures Split(a, sep) == [a]
  {
    assert forall k :: 0 <= k < |[a]| ==> sep[0] !in [a][k];
    SplitJoin([a], sep);
  }

  lemma SplitTwo(a: string, b: string, sep: string)
    requires sep != [] && sep[0] !in a && sep[0] !in b
    ensures Split(a + sep + b, sep) == [a, b]
  {
    JoinTwo(a, b, sep);
    assert forall k :: 0 <= k < |[a, b]| ==> sep[0] !in [a, b][k];
    SplitJoin([a, b], sep);
  }

  lemma SplitThree(a: string, b: string, c: string, sep: string)
    requires sep != [] && sep[0] !in a && sep[0] !in b && sep[0] !in c
    ensures Split(a + sep + b + sep + c, sep) == [a, b, c]
  {
    JoinThree(a, b, c, sep);
    assert forall k :: 0 <= k < |[a, b, c]| ==> sep[0] !in [a, b, c][k];
    SplitJoin([a, b, c], sep);
  }

  // ---------------------------------------------------------------------------
  // padStart(2, '0')
  // ---------------------------------------------------------------------------

  /** String.prototype.padStart(2, '0') */
  function PadStart2(s: string): (r: string)
    ensures |r| == if |s| < 2 then 2 else |s|
    ensures r[|r| - |s|..] == s
    ensures forall i :: 0 <= i < |r| - |s| ==> r[i] == '0'
    decreases if |s| < 2 then 2 - |s| else 0
  {
    if |s| >= 2 then s else PadStart2("0" + s)
  }

  // ---------------------------------------------------------------------------
  // Decimal numbers: parseInt(_, 10) and toString()
  // ---------------------------------------------------------------------------

  /** The length of the longest run of ASCII digits at the start of `s`. */
  function DigitRun(s: string): (n: nat)
    ensures n <= |s| && AllDigits(s[..n]) && (n == |s| || !IsDigit(s[n]))
  {
    if s != [] && IsDigit(s[0]) then
      var n := 1 + DigitRun(s[1..]);
      assert s[..n] == [s[0]] + s[1..][..n - 1];
      n
    else 0
  }

  /** A run of digits followed by anything that does not start with a digit is measured exactly. */
  lemma {:induction false} DigitRunOf(d: string, rest: string)
    requires AllDigits(d) && (rest == [] || !IsDigit(rest[0]))
    ensures DigitRun(d + rest) == |d|
  {
    if d != [] {
      assert (d + rest)[1..] == d[1..] + rest;
      DigitRunOf(d[1..], rest);
    }
  }

  function DigitValue(c: char): (v: nat)
    requires IsDigit(c)
    ensures v < 10
  {
    c as int - '0' as int
  }

  /** The decimal value of a string of digits. */
  function DigitsValue(d: string): nat
    requires AllDigits(d)
  {
    if d == [] then 0 else DigitsValue(d[..|d| - 1]) * 10 + DigitValue(d[|d| - 1])
  }

  /** Number.prototype.toString() on a non-negative integer: its shortest decimal spelling,
      which reads back as the same number. */
  function NatToString(n: nat): (r: string)
    ensures r != [] && AllDigits(r) && DigitsValue(r) == n
    ensures n < 10 <==> |r| == 1
  {
    var last := ['0' + ((n % 10) as char)];
    if n < 10 then last
    else
      var front := NatToString(n / 10);
      var r := front + last;
      assert r[..|r| - 1] == front;
      r
  }

  /** A JavaScript number as far as the parser uses one: an integer or NaN (None). */
  type JsNumber = Option<int>

  /** Number.prototype.toString() on an integer or NaN. */
  function NumberToString(v: JsNumber): string {
    match v
    case None => "NaN"
    case Some(n) => if n < 0 then "-" + NatToString(-n) else NatToString(n)
  }

  /** A non-negative number prints as its decimal digits. */
  lemma NumberToStringOfNat(v: nat)
    ensures NumberToString(Some(v)) == NatToString(v)
  {
  }

  /** parseInt(s, 10): skip leading white space, read an optional sign and then the longest
      run of digits; NaN (None) when there is no digit. */
  function ParseInt(s: string): JsNumber
  {
    var t := TrimStart(s);
    var neg := t != [] && t[0] == '-';
    var u := if t != [] && (t[0] == '-' || t[0] == '+') then t[1..] else t;
    var n := DigitRun(u);
    if n == 0 then None
    else
      var v: int := DigitsValue(u[..n]);
      Some(if neg then -v else v)
  }

  /** On a plain string of digits parseInt gives its decimal value. */
  lemma ParseIntOfDigits(d: string)
    requires d != [] && AllDigits(d)
    ensures ParseInt(d) == Some(DigitsValue(d))
  {
    assert TrimStart(d) == d;
    DigitRunOf(d, "");
    assert d + "" == d;
    assert d[..|d|] == d;
  }

  // ---------------------------------------------------------------------------
  // Code-point order
  // ---------------------------------------------------------------------------

  /** Lexicographic order on code points: a proper prefix comes first, otherwise the first
      differing character decides. */
  predicate LexLess(a: string, b: string)
    decreases |a|
  {
    if a == [] then b != []
    else if b == [] then false
    else if a[0] != b[0] then a[0] < b[0]
    else LexLess(a[1..], b[1..])
  }

  lemma {:induction false} LexLessIrreflexive(a: string)
    ensures !LexLess(a, a)
  {
    if a != [] {
      LexLessIrreflexive(a[1..]);
    }
  }

  lemma {:induction false} LexLessTransitive(a: string, b: string, c: string)
    requires LexLess(a, b) && LexLess(b, c)
    ensures LexLess(a, c)
    decreases |a|
  {
    if a != [] && a[0] == b[0] && b[0] == c[0] {
      LexLessTransitive(a[1..], b[1..], c[1..]);
    }
  }

  lemma {:induction false} LexLessTotal(a: string, b: string)
    requires a != b
    ensures LexLess(a, b) || LexLess(b, a)
    decreases |a|
  {
    if a != [] && b != [] && a[0] == b[0] {
      assert a == [a[0]] + a[1..] && b == [b[0]] + b[1..];
      LexLessTotal(a[1..], b[1..]);
    }
  }

  lemma {:induction false} LexLessAsymmetric(a: string, b: string)
    requires LexLess(a, b)
    ensures !LexLess(b, a)
    decreases |a|
  {
    if a != [] && b != [] && a[0] == b[0] {
      LexLessAsymmetric(a[1..], b[1..]);
    }
  }
}
