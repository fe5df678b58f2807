/** The display name of a processed file (src/App.jsx:69-70): the uploaded name without
    its last extension, wrapped in the optional prefix and suffix, with the fixed `.mp3`
    extension of the processor's output. */
module FileNames {
  import opened Wrappers
  import opened JsStrings

  const Mp3: JsString := Units(".mp3")

  /** A unit the extension pattern `[^/.]` refuses. */
  predicate IsSeparator(u: CodeUnit) {
    u == Dot || u == Slash
  }

  /** The pattern `/\.[^/.]+$/` matches `s` at `p`: a dot, then at least one unit that is
      neither `/` nor `.`, then the end of the input. */
  ghost predicate ExtensionAt(s: JsString, p: int) {
    && 0 <= p < |s| - 1
    && s[p] == Dot
    && forall j | p < j < |s| :: !IsSeparator(s[j])
  }

  /** A valid extension (the part after the dot). */
  ghost predicate IsExtension(e: JsString) {
    |e| > 0 && forall j | 0 <= j < |e| :: !IsSeparator(e[j])
  }

  /** The pattern matches at one position at most. */
  lemma ExtensionUnique(s: JsString, p: int, q: int)
    requires ExtensionAt(s, p) && ExtensionAt(s, q)
    ensures p == q
  {
  }

  /** The last index below `n` holding `/` or `.`, if any. */
  function LastSeparator(s: JsString, n: nat): (r: Option<nat>)
    requires n <= |s|
    ensures r.Some? ==> r.value < n && IsSeparator(s[r.value])
    ensures forall j | (if r.Some? then r.value + 1 else 0) <= j < n :: !IsSeparator(s[j])
    decreases n
  {
    if n == 0 then None
    else if IsSeparator(s[n - 1]) then Some(n - 1)
    else LastSeparator(s, n - 1)
  }

  /** Where the pattern matches, found by scanning back from the end to the last separator:
      a match exactly when that separator is a dot that is not the last unit. */
  function ExtensionStart(s: JsString): (r: Option<nat>)
    ensures r.Some? ==> ExtensionAt(s, r.value)
    ensures r.None? ==> forall p :: !ExtensionAt(s, p)
  {
    match LastSeparator(s, |s|)
    case None => None
    case Some(p) => if s[p] == Dot && p < |s| - 1 then Some(p) else None
  }

  /** `name.replace(/\.[^/.]+$/, "")`: the name with its final extension removed, or the
      name itself when the pattern does not match. */
  function Stem(name: JsString): (r: JsString)
    ensures forall p | ExtensionAt(name, p) :: r == name[..p]
    ensures (forall p :: !ExtensionAt(name, p)) ==> r == name
  {
    match ExtensionStart(name)
    case Some(p) =>
      OnlyExtension(name, p);
      name[..p]
    case None => name
  }

  lemma OnlyExtension(s: JsString, p: int)
    requires ExtensionAt(s, p)
    ensures forall q | ExtensionAt(s, q) :: q == p
  {
    forall q | ExtensionAt(s, q) ensures q == p {
      ExtensionUnique(s, p, q);
    }
  }

  /** Removing the extension undoes adding one: for any base and any extension, the stem of
      `base.ext` is `base`. */
  lemma StemOfExtended(base: JsString, ext: JsString)
    requires IsExtension(ext)
    ensures Stem(base + [Dot] + ext) == base
  {
    var s := base + [Dot] + ext;
    forall j | |base| < j < |s| ensures !IsSeparator(s[j]) {
      assert s[j] == ext[j - |base| - 1];
    }
    assert ExtensionAt(s, |base|);
    assert s[..|base|] == base;
  }

  /** A name with no dot keeps its whole text. */
  lemma StemWithoutDot(name: JsString)
    requires forall i | 0 <= i < |name| :: name[i] != Dot
    ensures Stem(name) == name
  {
  }

  /** A name ending in a dot keeps its whole text: the pattern needs at least one unit after
      the dot. */
  lemma StemOfTrailingDot(name: JsString)
    requires |name| > 0 && name[|name| - 1] == Dot
    ensures Stem(name) == name
  {
  }

  /** The stem is a prefix of the name, and strictly shorter exactly when there was an
      extension to remove. */
  lemma StemIsPrefix(name: JsString)
    ensures Stem(name) <= name
    ensures |Stem(name)| < |name| <==> exists p :: ExtensionAt(name, p)
  {
    match ExtensionStart(name)
    case Some(p) =>
    case None =>
  }

  /** Two examples: `song.wav` gives `song`, and `a.tar.gz` gives `a.tar` (only the last
      extension goes). */
  lemma StemExamples()
    ensures Stem(Units("song.wav")) == Units("song")
    ensures Stem(Units("a.tar.gz")) == Units("a.tar")
  {
    assert Units("song.wav") == Units("song") + [Dot] + Units("wav");
    StemOfExtended(Units("song"), Units("wav"));
    assert Units("a.tar.gz") == Units("a.tar") + [Dot] + Units("gz");
    StemOfExtended(Units("a.tar"), Units("gz"));
  }

  /** The name shown for a result: `prefix_` when the prefix is not empty, the stem,
      `_suffix` when the suffix is not empty, and `.mp3`. */
  function DisplayName(fileName: JsString, prefix: JsString, suffix: JsString): (r: JsString)
    ensures |r| >= |Mp3| && r[|r| - |Mp3|..] == Mp3
  {
    var head := if prefix != [] then prefix + [Underscore] else [];
    var tail := if suffix != [] then [Underscore] + suffix else [];
    head + Stem(fileName) + tail + Mp3
  }

  /** The extension pattern matches the display name exactly at its `.mp3`: removing the
      extension leaves everything before `.mp3`, and putting `.mp3` back gives the name. */
  lemma DisplayNameExtension(fileName: JsString, prefix: JsString, suffix: JsString)
    ensures var d := DisplayName(fileName, prefix, suffix);
      Stem(d) + Mp3 == d
  {
    var d := DisplayName(fileName, prefix, suffix);
    var body := d[..|d| - |Mp3|];
    assert Mp3 == [Dot] + Units("mp3");
    assert d == body + [Dot] + Units("mp3");
    StemOfExtended(body, Units("mp3"));
  }

  /** The uploaded file's extension does not matter: two names differing only in their extension
      get the same display name. */
  lemma DisplayNameIgnoresExtension(base: JsString, e1: JsString, e2: JsString,
                                    prefix: JsString, suffix: JsString)
    requires IsExtension(e1) && IsExtension(e2)
    ensures DisplayName(base + [Dot] + e1, prefix, suffix) == DisplayName(base + [Dot] + e2, prefix, suffix)
  {
    StemOfExtended(base, e1);
    StemOfExtended(base, e2);
  }

  /** With neither prefix nor suffix the display name is the stem plus `.mp3`. */
  lemma DisplayNameBare(fileName: JsString)
    ensures DisplayName(fileName, [], []) == Stem(fileName) + Mp3
  {
  }

  /** `("intro", "v2", "song.wav")` gives `intro_song_v2.mp3`, and `track.wav` with no
      prefix or suffix gives `track.mp3`. */
  lemma DisplayNameExamples()
    ensures DisplayName(Units("song.wav"), Units("intro"), Units("v2")) == Units("intro_song_v2.mp3")
    ensures DisplayName(Units("track.wav"), [], []) == Units("track.mp3")
  {
    StemExamples();
    assert Units("track.wav") == Units("track") + [Dot] + Units("wav");
    StemOfExtended(Units("track"), Units("wav"));
    assert Units("intro") + [Underscore] + Units("song") + ([Underscore] + Units("v2")) + Mp3
        == Units("intro_song_v2.mp3");
    assert Units("track") + Mp3 == Units("track.mp3");
  }
}
