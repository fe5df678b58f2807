/** `truncateMiddle` (src/App.jsx:12-19): shortens a display string by cutting out its
    middle and putting an ellipsis in its place. The limit is 18 units for any string with a
    non-ASCII character (Japanese names are drawn twice as wide) and `maxLength` otherwise. */
module Truncate {
  import opened JsStrings

  /** Limit applied to strings containing any non-ASCII character. */
  const WideLimit: int := 18

  const Ellipsis: JsString := Units("...")

  /** The limit the function actually uses for `s`: 18 as soon as one unit is above 127,
      the caller's `maxLength` for pure ASCII. */
  function EffectiveLimit(s: JsString, maxLength: int): (limit: int)
    ensures (exists i | 0 <= i < |s| :: s[i] > 127) ==> limit == 18
    ensures (forall i | 0 <= i < |s| :: s[i] <= 127) ==> limit == maxLength
  {
    if HasNonAscii(s) then WideLimit else maxLength
  }

  /** `Math.floor((limit - 3) / 2)`: the number of units kept at each end. */
  function Half(limit: int): (h: int)
    ensures 2 * h <= limit - 3 < 2 * h + 2
  {
    (limit - 3) / 2
  }

  /** `truncateMiddle(s, maxLength)` exactly as written, with JavaScript's `slice`: when the
      half is 0, `s.slice(-0)` is the whole string, and a negative half slices from the other
      end. */
  function TruncateMiddle(s: JsString, maxLength: int): (r: JsString)
    ensures s == [] ==> r == []
    ensures |s| <= EffectiveLimit(s, maxLength) ==> r == s
    ensures |s| > EffectiveLimit(s, maxLength) >= 5 ==>
      var h := Half(EffectiveLimit(s, maxLength));
      0 < h && 2 * h < |s| && r == s[..h] + Ellipsis + s[|s| - h..]
  {
    if s == [] then []
    else
      var limit := EffectiveLimit(s, maxLength);
      if |s| <= limit then s
      else
        var half := Half(limit);
        Slice(s, 0, half) + Ellipsis + SliceFrom(s, -half)
  }

  /** A string too long for its limit keeps `Half(limit)` units of each end around the
      ellipsis, so its length is `2 * Half(limit) + 3`, never above the limit: 29 units for an
      ASCII name at limit 30 and 17 for any name with a non-ASCII character. */
  lemma TruncateLength(s: JsString, maxLength: int)
    requires maxLength >= 5
    ensures var limit := EffectiveLimit(s, maxLength);
      |TruncateMiddle(s, maxLength)| == if |s| <= limit then |s| else 2 * Half(limit) + 3
    ensures |TruncateMiddle(s, maxLength)| <= EffectiveLimit(s, maxLength)
    ensures HasNonAscii(s) && |s| > WideLimit ==> |TruncateMiddle(s, maxLength)| == 17
    ensures !HasNonAscii(s) && |s| > maxLength ==>
      |TruncateMiddle(s, maxLength)| == if maxLength % 2 == 0 then maxLength - 1 else maxLength
  {
  }

  /** The result of an ASCII string is ASCII, at every limit: the ellipsis is ASCII and both
      ends are slices of the input, whatever the sign of the half. */
  lemma TruncateKeepsAscii(s: JsString, maxLength: int)
    requires !HasNonAscii(s)
    ensures !HasNonAscii(TruncateMiddle(s, maxLength))
  {
    var limit := EffectiveLimit(s, maxLength);
    if s != [] && |s| > limit {
      var h := Half(limit);
      SliceOfAscii(s, 0, h);
      SliceOfAscii(s, -h, |s|);
      AsciiConcat(Slice(s, 0, h), Ellipsis);
      AsciiConcat(Slice(s, 0, h) + Ellipsis, SliceFrom(s, -h));
    }
  }

  /** Truncating again changes nothing, for every limit of at least 17: an ASCII result is
      within its own limit, and a result cut at 18 has 17 units, which fits either limit it
      may get the second time. */
  lemma {:induction false} TruncateIdempotent(s: JsString, maxLength: int)
    requires maxLength >= 17
    ensures TruncateMiddle(TruncateMiddle(s, maxLength), maxLength) == TruncateMiddle(s, maxLength)
  {
    var r := TruncateMiddle(s, maxLength);
    TruncateLength(s, maxLength);
    if !HasNonAscii(s) {
      TruncateKeepsAscii(s, maxLength);
      assert EffectiveLimit(r, maxLength) == maxLength;
    }
    assert |r| <= EffectiveLimit(r, maxLength);
  }

  // ---------------------------------------------------------------------------------------
  // Limits below 5

  /** With limit 3 or 4 the half is 0, and `s.slice(-0)` is the whole string: the "shortened"
      result is the ellipsis followed by the entire input, longer than both. */
  lemma TruncateMiddleGrowsAtShortLimits(s: JsString, maxLength: int)
    requires 3 <= maxLength <= 4 && !HasNonAscii(s) && |s| > maxLength
    ensures TruncateMiddle(s, maxLength) == Ellipsis + s
    ensures |TruncateMiddle(s, maxLength)| > |s| > maxLength
  {
    assert Half(maxLength) == 0;
  }

  /** The concrete case: `truncateMiddle("abcde", 4)` is `"...abcde"`. */
  lemma TruncateMiddleAbcdeAtFour()
    ensures TruncateMiddle(Units("abcde"), 4) == Units("...abcde")
  {
    var s := Units("abcde");
    assert !HasNonAscii(s);
    TruncateMiddleGrowsAtShortLimits(s, 4);
    assert Ellipsis + s == Units("...abcde");
  }

  /** `truncateMiddle` with the half clamped at 0, as the function is evidently meant to
      behave for every limit: at most `max(limit, 3)` units, the ellipsis alone when no unit
      of either end fits. */
  function TruncateMiddleClamped(s: JsString, maxLength: int): (r: JsString)
    ensures s == [] ==> r == []
    ensures |s| <= EffectiveLimit(s, maxLength) ==> r == s
    ensures |r| <= if EffectiveLimit(s, maxLength) < 3 then 3 else EffectiveLimit(s, maxLength)
    ensures s != [] && |s| > EffectiveLimit(s, maxLength) ==>
      exists h | 0 <= h && 2 * h + 3 == |r| && 2 * h < |s| :: r == s[..h] + Ellipsis + s[|s| - h..]
  {
    var limit := EffectiveLimit(s, maxLength);
    if s == [] || |s| <= limit then s
    else
      var half := if Half(limit) < 0 then 0 else Half(limit);
      var r := s[..half] + Ellipsis + s[|s| - half..];
      assert 0 <= half && 2 * half + 3 == |r| && 2 * half < |s|;
      r
  }

  /** For every limit the program can reach (5 and above, in particular the 30 of both call
      sites) the clamped function and the function as written agree. */
  lemma ClampedAgrees(s: JsString, maxLength: int)
    requires maxLength >= 5
    ensures TruncateMiddleClamped(s, maxLength) == TruncateMiddle(s, maxLength)
  {
  }
}
