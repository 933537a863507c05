/**
 * `getUserColor` (src/utils/colorUtils.ts): a string hash over the UTF-16 code units of the
 * user name, with the 32-bit wrap of `hash << 5`, picks one of eighteen colours.
 *
 * JavaScript keeps `hash` in a double; here it is an unbounded integer, and `HashBound`
 * shows that the double holds it exactly for every name shorter than 2^21 code units.
 */
module Colors {

  /** `USER_COLORS` */
  const UserColors: seq<string> := [
    "#E53935", "#8E24AA", "#1E88E5", "#00897B", "#43A047", "#FFB300",
    "#F4511E", "#6D4C41", "#546E7A", "#D81B60", "#5E35B1", "#3949AB",
    "#039BE5", "#00ACC1", "#7CB342", "#C0CA33", "#FDD835", "#FB8C00"
  ]

  const TwoTo32: int := 0x1_0000_0000
  const TwoTo31: int := 0x8000_0000

  // ---------------------------------------------------------------------------
  // UTF-16 code units: what `length` counts and `charCodeAt` returns
  // ---------------------------------------------------------------------------

  /** The UTF-16 encoding of one character: itself below U+10000, a surrogate pair above,
      from which the character can be read back. */
  function CharUnits(c: char): (u: seq<int>)
    ensures forall k :: 0 <= k < |u| ==> 0 <= u[k] < 0x10000
    ensures (c as int) < 0x10000 ==> u == [c as int]
    ensures (c as int) >= 0x10000 ==>
              && |u| == 2
              && 0xD800 <= u[0] < 0xDC00 && 0xDC00 <= u[1] < 0xE000
              && 0x10000 + (u[0] - 0xD800) * 0x400 + (u[1] - 0xDC00) == c as int
  {
    var n := c as int;
    if n < 0x10000 then [n]
    else
      var v := n - 0x10000;
      [0xD800 + v / 0x400, 0xDC00 + v % 0x400]
  }

  /** The code units of a string, in order. */
  function CodeUnits(s: string): (u: seq<int>)
    ensures |u| >= |s|
    ensures forall k :: 0 <= k < |u| ==> 0 <= u[k] < 0x10000
  {
    if s == [] then [] else CharUnits(s[0]) + CodeUnits(s[1..])
  }

  /** On a name with no character above U+FFFF, the code units are the character codes. */
  lemma {:induction false} CodeUnitsOfBmp(s: string)
    requires forall k :: 0 <= k < |s| ==> (s[k] as int) < 0x10000
    ensures |CodeUnits(s)| == |s|
    ensures forall k :: 0 <= k < |s| ==> CodeUnits(s)[k] == s[k] as int
  {
    if s != [] {
      CodeUnitsOfBmp(s[1..]);
    }
  }

  // ---------------------------------------------------------------------------
  // 32-bit integer arithmetic
  // ---------------------------------------------------------------------------

  /** ToInt32: the signed 32-bit integer congruent to `x` modulo 2^32. */
  function ToInt32(x: int): (r: int)
    ensures -TwoTo31 <= r < TwoTo31
    ensures (x - r) % TwoTo32 == 0
  {
    var m := x % TwoTo32;
    if m >= TwoTo31 then m - TwoTo32 else m
  }

  /** Values already in the signed 32-bit range are left alone. */
  lemma ToInt32OfInt32(x: int)
    requires -TwoTo31 <= x < TwoTo31
    ensures ToInt32(x) == x
  {
  }

  /** `hash << 5`: the left operand is converted to 32 bits, shifted, and the result read
      back as a signed 32-bit integer. */
  function ShiftLeft5(h: int): int {
    ToInt32(ToInt32(h) * 32)
  }

  /** Converting the operand first makes no difference: the shift is `hash * 32` wrapped. */
  lemma ShiftLeft5IsWrappedProduct(h: int)
    ensures ShiftLeft5(h) == ToInt32(h * 32)
  {
    var a := ToInt32(h);
    var q := (h - a) / TwoTo32;
    assert h == a + q * TwoTo32;
    assert h * 32 == a * 32 + (q * 32) * TwoTo32;
    WrapPeriodic(a * 32, q * 32);
  }

  /** Adding a multiple of 2^32 does not change the wrapped value. */
  lemma WrapPeriodic(x: int, q: int)
    ensures ToInt32(x + q * TwoTo32) == ToInt32(x)
  {
    assert (x + q * TwoTo32) % TwoTo32 == x % TwoTo32;
  }

  // ---------------------------------------------------------------------------
  // The hash and the colour
  // ---------------------------------------------------------------------------

  /** One turn of the loop: `hash = code + ((hash << 5) - hash)`. */
  function HashStep(h: int, code: int): int {
    code + (ShiftLeft5(h) - h)
  }

  /** The hash after the loop has taken the code units of `units` from left to right. */
  function Hash(units: seq<int>): int {
    if units == [] then 0 else HashStep(Hash(units[..|units| - 1]), units[|units| - 1])
  }

  /** `Math.abs(hash) % USER_COLORS.length`, always a valid index. */
  function ColorIndex(h: int): (i: nat)
    ensures i < |UserColors|
  {
    (if h < 0 then -h else h) % |UserColors|
  }

  /** `getUserColor(username)`. The colour is a function of the name alone, and always one
      of the eighteen colours. */
  method GetUserColor(username: string) returns (color: string)
    ensures color == UserColors[ColorIndex(Hash(CodeUnits(username)))]
    ensures color in UserColors
  {
    var units := CodeUnits(username);
    var hash := 0;
    for i := 0 to |units|
      invariant hash == Hash(units[..i])
    {
      HashPrefixStep(units, i);
      hash := units[i] + (ShiftLeft5(hash) - hash);
    }
    assert units[..|units|] == units;
    var index := (if hash < 0 then -hash else hash) % |UserColors|;
    assert index == ColorIndex(hash);
    color := UserColors[index];
  }

  /** Taking one more code unit is one more turn of the loop. */
  lemma HashPrefixStep(units: seq<int>, i: nat)
    requires i < |units|
    ensures Hash(units[..i + 1]) == HashStep(Hash(units[..i]), units[i])
  {
    assert units[..i + 1][..i] == units[..i];
  }

  /** The empty name hashes to 0 and gets the first colour, red. */
  lemma EmptyNameColor()
    ensures Hash(CodeUnits("")) == 0
    ensures UserColors[ColorIndex(Hash(CodeUnits("")))] == "#E53935"
  {
  }

  /** A one-character name below U+10000 hashes to its own code: the shift of 0 is 0. */
  lemma SingleUnitHash(c: char)
    requires (c as int) < 0x10000
    ensures Hash(CodeUnits([c])) == c as int
  {
    assert [c][1..] == [];
    assert CodeUnits([c]) == [c as int];
    assert [c as int][..0] == [];
  }

  /** One step moves the hash by at most 2^31 + 2^16 away from its negation. */
  lemma HashStepBound(h: int, code: int)
    requires 0 <= code < 0x10000
    ensures -(TwoTo31 + 0x10000) - (if h < 0 then -h else h) <= HashStep(h, code)
    ensures HashStep(h, code) <= TwoTo31 + 0x10000 + (if h < 0 then -h else h)
  {
  }

  /** The hash grows by at most 2^31 + 2^16 per code unit. */
  lemma {:induction false} HashGrowth(units: seq<int>)
    requires forall k :: 0 <= k < |units| ==> 0 <= units[k] < 0x10000
    ensures -|units| * (TwoTo31 + 0x10000) <= Hash(units) <= |units| * (TwoTo31 + 0x10000)
  {
    if units != [] {
      var front := units[..|units| - 1];
      HashGrowth(front);
      HashStepBound(Hash(front), units[|units| - 1]);
    }
  }

  /** So for names shorter than 2^21 code units every intermediate hash stays below 2^53 in
      magnitude, where a double represents integers exactly. */
  lemma HashBound(username: string)
    requires |CodeUnits(username)| < 0x20_0000
    ensures -0x20_0000_0000_0000 < Hash(CodeUnits(username)) < 0x20_0000_0000_0000
  {
    var units := CodeUnits(username);
    HashGrowth(units);
    var n := |units|;
    assert n * (TwoTo31 + 0x10000) <= 0x20_0000 * (TwoTo31 + 0x10000);
  }
}
