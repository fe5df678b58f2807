/** JavaScript strings as the program sees them: sequences of UTF-16 code units.
    `length`, `slice` and regular expressions without the `u` flag all count code units,
    so the model does too; Dafny's own `string` (a sequence of Unicode scalar values) is
    only used to write literals. */
module JsStrings {

  /** One UTF-16 code unit. */
  type CodeUnit = u: int | 0 <= u < 0x1_0000

  type JsString = seq<CodeUnit>

  const Dot: CodeUnit := '.' as int
  const Slash: CodeUnit := '/' as int
  const Underscore: CodeUnit := '_' as int

  /** The code units of a literal written with characters of the Basic Multilingual Plane,
      where each character is exactly one UTF-16 code unit. */
  function Units(s: string): (r: JsString)
    requires forall i | 0 <= i < |s| :: s[i] as int < 0x1_0000
    ensures |r| == |s|
    ensures forall i | 0 <= i < |s| :: r[i] == s[i] as int
  {
    seq(|s|, i requires 0 <= i < |s| => s[i] as int)
  }

  /** The unit lies outside ASCII (0..127). */
  predicate IsNonAscii(u: CodeUnit) {
    u > 0x7F
  }

  /** The regex test `/\P{ASCII}/u.test(s)`: some code point is outside ASCII. Every code
      point above 127 is encoded with units above 127 (surrogates start at 0xD800), so it is
      enough to look at the units. */
  predicate HasNonAscii(s: JsString) {
    exists i | 0 <= i < |s| :: IsNonAscii(s[i])
  }

  /** A string made of ASCII pieces is ASCII. */
  lemma AsciiConcat(a: JsString, b: JsString)
    requires !HasNonAscii(a) && !HasNonAscii(b)
    ensures !HasNonAscii(a + b)
  {
    forall i | 0 <= i < |a + b|
      ensures !IsNonAscii((a + b)[i])
    {
      if i < |a| {
        assert (a + b)[i] == a[i];
      } else {
        assert (a + b)[i] == b[i - |a|];
      }
    }
  }

  /** A piece of an ASCII string is ASCII. */
  lemma AsciiSlice(s: JsString, i: nat, j: nat)
    requires i <= j <= |s| && !HasNonAscii(s)
    ensures !HasNonAscii(s[i..j])
  {
    forall k | 0 <= k < j - i
      ensures !IsNonAscii(s[i..j][k])
    {
      assert s[i..j][k] == s[i + k];
    }
  }

  /** The index `k` given to `String.prototype.slice`, resolved against length `len` as
      ECMA-262 defines `String.prototype.slice`: a negative index counts from the end, and both kinds
      are clamped into `0..len`. */
  function RelativeIndex(k: int, len: nat): (r: nat)
    ensures r <= len
    ensures 0 <= k <= len ==> r == k
    ensures k < 0 <= len + k ==> r == len + k
    ensures len + k < 0 ==> r == 0
    ensures k > len ==> r == len
  {
    if k < 0 then
      if len + k < 0 then 0 else len + k
    else
      if k < len then k else len
  }

  /** `s.slice(start, end)`. */
  function Slice(s: JsString, start: int, end: int): (r: JsString)
    ensures |r| <= |s|
    ensures 0 <= start <= end <= |s| ==> r == s[start..end]
    ensures end <= start && 0 <= end ==> r == []
  {
    var from := RelativeIndex(start, |s|);
    var to := RelativeIndex(end, |s|);
    if from >= to then [] else s[from..to]
  }

  /** Every slice of an ASCII string is ASCII, whatever its indices. */
  lemma SliceOfAscii(s: JsString, start: int, end: int)
    requires !HasNonAscii(s)
    ensures !HasNonAscii(Slice(s, start, end))
  {
    var from := RelativeIndex(start, |s|);
    var to := RelativeIndex(end, |s|);
    if from < to {
      AsciiSlice(s, from, to);
    }
  }

  /** `s.slice(start)`: the end defaults to the length. */
  function SliceFrom(s: JsString, start: int): (r: JsString)
    ensures 0 <= start <= |s| ==> r == s[start..]
    ensures 0 < -start <= |s| ==> r == s[|s| + start..]
  {
    Slice(s, start, |s|)
  }

  /** `t` occurs in `s` starting at index `i`. */
  predicate OccursAt(s: JsString, t: JsString, i: int) {
    0 <= i && i + |t| <= |s| && s[i..i + |t|] == t
  }

  /** `s.includes(t)`. */
  predicate Includes(s: JsString, t: JsString) {
    exists i | 0 <= i <= |s| - |t| :: OccursAt(s, t, i)
  }

  /** An occurrence survives putting text in front of the string. */
  lemma IncludesAfterPrefix(p: JsString, s: JsString, t: JsString)
    requires Includes(s, t)
    ensures Includes(p + s, t)
  {
    var i :| 0 <= i <= |s| - |t| && OccursAt(s, t, i);
    assert (p + s)[|p| + i..|p| + i + |t|] == s[i..i + |t|];
    assert OccursAt(p + s, t, |p| + i);
  }

  /** A non-empty `t` cannot occur in a string that lacks its first unit. */
  lemma NotIncludedWithoutFirstUnit(s: JsString, t: JsString)
    requires |t| > 0 && forall i | 0 <= i < |s| :: s[i] != t[0]
    ensures !Includes(s, t)
  {
    forall i | 0 <= i <= |s| - |t| ensures !OccursAt(s, t, i) {
      assert s[i..i + |t|][0] == s[i];
    }
  }
}
