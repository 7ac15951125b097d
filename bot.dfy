/**
 * bot.py: the input handling of the chat bot. A message is unescaped (`preprocess_message`)
 * and then checked character by character against the allowed set before it is rendered;
 * for a picture, the block size `pixels_per_character` is chosen so that the ASCII grid has
 * at most `ASCII_MAX_DIMENSION` cells along its longer side.
 */
module Bot {
  import opened Wrappers
  import opened AsciiArt

  /** The longest side, in cells, of an ASCII picture. */
  const ASCII_MAX_DIMENSION: nat := 64

  /**
   * `UNESCAPE_SEQUENCES`: what arrives escaped, and what replaces it, in the order applied.
   * The last two are written in the source as the UTF-8 bytes of the emoji U+1F642 and
   * U+1F626 decoded as Windows-1252 text, and are kept exactly so.
   */
  const UNESCAPE_SEQUENCES: seq<(string, string)> := [
    ("\\n", "\n"),
    ("\\t", "\t"),
    ("\\:", ":"),
    ("\U{F0}\U{178}\U{2122}\U{201A}", ":)"),
    ("\U{F0}\U{178}\U{2DC}\U{A6}", ":(")
  ]

  // ---------------------------------------------------------------- str.replace

  /** `pat` occurs in `t` starting at index `i`. */
  predicate OccursAt(t: string, pat: string, i: int) {
    0 <= i && i + |pat| <= |t| && t[i..i + |pat|] == pat
  }

  /** `pat in t`. */
  predicate Contains(t: string, pat: string) {
    exists i :: 0 <= i <= |t| && OccursAt(t, pat, i)
  }

  /**
   * `s.replace(pat, rep)` for a non-empty `pat`: scanning from the left, every occurrence
   * of `pat` that does not overlap an earlier replaced one becomes `rep`.
   */
  function ReplaceAll(s: string, pat: string, rep: string): (r: string)
    requires |pat| > 0
    decreases |s|
  {
    if |s| < |pat| then s
    else if s[..|pat|] == pat then rep + ReplaceAll(s[|pat|..], pat, rep)
    else [s[0]] + ReplaceAll(s[1..], pat, rep)
  }

  /** `s.split(pat)` for a non-empty `pat`: the pieces between the occurrences. */
  function SplitOn(s: string, pat: string): (parts: seq<string>)
    requires |pat| > 0
    ensures |parts| > 0
    decreases |s|
  {
    if |s| < |pat| then [s]
    else if s[..|pat|] == pat then [""] + SplitOn(s[|pat|..], pat)
    else
      var rest := SplitOn(s[1..], pat);
      [[s[0]] + rest[0]] + rest[1..]
  }

  /** `sep.join(parts)`. */
  function Join(parts: seq<string>, sep: string): string
    requires |parts| > 0
  {
    if |parts| == 1 then parts[0] else parts[0] + sep + Join(parts[1..], sep)
  }

  /** Prepending a character to the first piece prepends it to the joined string. */
  lemma {:induction false} JoinPrepend(c: char, parts: seq<string>, sep: string)
    requires |parts| > 0
    ensures Join([[c] + parts[0]] + parts[1..], sep) == [c] + Join(parts, sep)
  {
    var moved := [[c] + parts[0]] + parts[1..];
    assert moved[1..] == parts[1..];
  }

  /** `s.replace(pat, rep) == rep.join(s.split(pat))`: every separator found by the split is replaced. */
  lemma {:induction false} ReplaceIsSplitJoin(s: string, pat: string, rep: string)
    requires |pat| > 0
    ensures ReplaceAll(s, pat, rep) == Join(SplitOn(s, pat), rep)
    decreases |s|
  {
    if |s| < |pat| {
    } else if s[..|pat|] == pat {
      ReplaceIsSplitJoin(s[|pat|..], pat, rep);
      var parts := [""] + SplitOn(s[|pat|..], pat);
      assert parts[1..] == SplitOn(s[|pat|..], pat);
    } else {
      ReplaceIsSplitJoin(s[1..], pat, rep);
      JoinPrepend(s[0], SplitOn(s[1..], pat), rep);
    }
  }

  /** The first piece of the split is a prefix of `s`. */
  lemma {:induction false} SplitFirstIsPrefix(s: string, pat: string)
    requires |pat| > 0
    ensures |SplitOn(s, pat)[0]| <= |s| && s[..|SplitOn(s, pat)[0]|] == SplitOn(s, pat)[0]
    decreases |s|
  {
    if |s| >= |pat| && s[..|pat|] != pat {
      SplitFirstIsPrefix(s[1..], pat);
    }
  }

  /** `pat` is not in the first piece. */
  lemma {:induction false} SplitFirstAvoidsPattern(s: string, pat: string)
    requires |pat| > 0
    ensures !Contains(SplitOn(s, pat)[0], pat)
    decreases |s|
  {
    if |s| >= |pat| && s[..|pat|] != pat {
      SplitFirstAvoidsPattern(s[1..], pat);
      SplitFirstIsPrefix(s[1..], pat);
      forall i | 0 <= i <= |SplitOn(s, pat)[0]|
        ensures !OccursAt(SplitOn(s, pat)[0], pat, i)
      {
        SplitFirstShifted(s, pat, i);
      }
    }
  }

  /** When `s` does not start with `pat`, its first piece is `s[0]` before the first piece of
      `s[1..]`; so an occurrence in it would be one at `s`'s start or one in that piece. */
  lemma SplitFirstShifted(s: string, pat: string, i: int)
    requires |pat| > 0 && |s| >= |pat| && s[..|pat|] != pat
    requires !Contains(SplitOn(s[1..], pat)[0], pat)
    requires |SplitOn(s[1..], pat)[0]| <= |s[1..]|
    requires s[1..][..|SplitOn(s[1..], pat)[0]|] == SplitOn(s[1..], pat)[0]
    ensures !OccursAt(SplitOn(s, pat)[0], pat, i)
  {
    var first, rest := SplitOn(s, pat)[0], SplitOn(s[1..], pat)[0];
    assert first == [s[0]] + rest;
    if i == 0 && |pat| <= |first| {
      assert first[..|pat|] == s[..|pat|];
    } else if i > 0 && OccursAt(first, pat, i) {
      assert rest[i - 1..i - 1 + |pat|] == first[i..i + |pat|];
      assert OccursAt(rest, pat, i - 1);
    }
  }

  /** No piece of `s.split(pat)` contains `pat`: the split cut at every occurrence it met. */
  lemma {:induction false} SplitPiecesAvoidPattern(s: string, pat: string)
    requires |pat| > 0
    ensures forall k :: 0 <= k < |SplitOn(s, pat)| ==> !Contains(SplitOn(s, pat)[k], pat)
    decreases |s|
  {
    var parts := SplitOn(s, pat);
    SplitFirstAvoidsPattern(s, pat);
    if |s| >= |pat| {
      if s[..|pat|] == pat {
        SplitPiecesAvoidPattern(s[|pat|..], pat);
        assert forall k :: 1 <= k < |parts| ==> parts[k] == SplitOn(s[|pat|..], pat)[k - 1];
      } else {
        SplitPiecesAvoidPattern(s[1..], pat);
        assert forall k :: 1 <= k < |parts| ==> parts[k] == SplitOn(s[1..], pat)[k];
      }
    }
  }

  /** Replacing `pat` by itself changes nothing. */
  lemma {:induction false} ReplaceWithItself(s: string, pat: string)
    requires |pat| > 0
    ensures ReplaceAll(s, pat, pat) == s
    decreases |s|
  {
    if |s| < |pat| {
    } else if s[..|pat|] == pat {
      ReplaceWithItself(s[|pat|..], pat);
      assert s == s[..|pat|] + s[|pat|..];
    } else {
      ReplaceWithItself(s[1..], pat);
      assert s == [s[0]] + s[1..];
    }
  }

  /** `pat.join(s.split(pat)) == s`: splitting loses nothing. */
  lemma SplitJoinRoundTrip(s: string, pat: string)
    requires |pat| > 0
    ensures Join(SplitOn(s, pat), pat) == s
  {
    ReplaceIsSplitJoin(s, pat, pat);
    ReplaceWithItself(s, pat);
  }

  /** A string without `pat` is returned unchanged. */
  lemma {:induction false} ReplaceAllAbsent(s: string, pat: string, rep: string)
    requires |pat| > 0 && !Contains(s, pat)
    ensures ReplaceAll(s, pat, rep) == s
    decreases |s|
  {
    if |s| >= |pat| {
      assert !OccursAt(s, pat, 0);
      assert !Contains(s[1..], pat) by {
        forall i | OccursAt(s[1..], pat, i)
          ensures false
        {
          assert s[1..][i..i + |pat|] == s[i + 1..i + 1 + |pat|];
          assert OccursAt(s, pat, i + 1);
        }
      }
      ReplaceAllAbsent(s[1..], pat, rep);
      assert s == [s[0]] + s[1..];
    }
  }

  /** A replacement no longer than the pattern never lengthens the string. */
  lemma {:induction false} ReplaceAllShortens(s: string, pat: string, rep: string)
    requires |pat| > 0 && |rep| <= |pat|
    ensures |ReplaceAll(s, pat, rep)| <= |s|
    decreases |s|
  {
    if |s| >= |pat| {
      if s[..|pat|] == pat {
        ReplaceAllShortens(s[|pat|..], pat, rep);
      } else {
        ReplaceAllShortens(s[1..], pat, rep);
      }
    }
  }

  // ---------------------------------------------------------------- preprocess_message

  /** Every sequence to replace is non-empty. */
  predicate NonEmptyPatterns(pairs: seq<(string, string)>) {
    forall k :: 0 <= k < |pairs| ==> |pairs[k].0| > 0
  }

  /** The replacements of `pairs` applied to `s` one after another, in list order. */
  function ApplyReplacements(pairs: seq<(string, string)>, s: string): string
    requires NonEmptyPatterns(pairs)
  {
    if |pairs| == 0 then s
    else
      var last := pairs[|pairs| - 1];
      ReplaceAll(ApplyReplacements(pairs[..|pairs| - 1], s), last.0, last.1)
  }

  /** What `preprocess_message` returns for `message`. */
  function Unescape(message: string): string {
    ApplyReplacements(UNESCAPE_SEQUENCES, message)
  }

  /** `preprocess_message`: each unescape sequence in turn, every occurrence replaced. */
  method PreprocessMessage(message: string) returns (result: string)
    ensures result == Unescape(message)
  {
    result := message;
    for k := 0 to |UNESCAPE_SEQUENCES|
      invariant result == ApplyReplacements(UNESCAPE_SEQUENCES[..k], message)
    {
      var (sequence, replacement) := UNESCAPE_SEQUENCES[k];
      assert UNESCAPE_SEQUENCES[..k + 1][..k] == UNESCAPE_SEQUENCES[..k];
      result := ReplaceAll(result, sequence, replacement);
    }
    assert UNESCAPE_SEQUENCES[..|UNESCAPE_SEQUENCES|] == UNESCAPE_SEQUENCES;
  }

  /** A string holding none of the sequences goes through all the replacements unchanged. */
  lemma {:induction false} ApplyReplacementsAbsent(pairs: seq<(string, string)>, s: string)
    requires NonEmptyPatterns(pairs)
    requires forall k :: 0 <= k < |pairs| ==> !Contains(s, pairs[k].0)
    ensures ApplyReplacements(pairs, s) == s
  {
    if |pairs| > 0 {
      ApplyReplacementsAbsent(pairs[..|pairs| - 1], s);
      var last := pairs[|pairs| - 1];
      ReplaceAllAbsent(s, last.0, last.1);
    }
  }

  /** A message containing none of the five sequences is returned unchanged. */
  lemma UnescapeUnchanged(message: string)
    requires forall k :: 0 <= k < |UNESCAPE_SEQUENCES| ==> !Contains(message, UNESCAPE_SEQUENCES[k].0)
    ensures Unescape(message) == message
  {
    ApplyReplacementsAbsent(UNESCAPE_SEQUENCES, message);
  }

  /** Replacements no longer than their patterns never lengthen the string. */
  lemma {:induction false} ApplyReplacementsShortens(pairs: seq<(string, string)>, s: string)
    requires NonEmptyPatterns(pairs)
    requires forall k :: 0 <= k < |pairs| ==> |pairs[k].1| <= |pairs[k].0|
    ensures |ApplyReplacements(pairs, s)| <= |s|
  {
    if |pairs| > 0 {
      ApplyReplacementsShortens(pairs[..|pairs| - 1], s);
      var last := pairs[|pairs| - 1];
      ReplaceAllShortens(ApplyReplacements(pairs[..|pairs| - 1], s), last.0, last.1);
    }
  }

  /** Every unescape sequence is longer than its replacement, so unescaping never lengthens a message. */
  lemma UnescapeShortens(message: string)
    ensures |Unescape(message)| <= |message|
  {
    ApplyReplacementsShortens(UNESCAPE_SEQUENCES, message);
  }

  /** `Unescape` written out: the five replacements, innermost first. */
  lemma UnescapeInOrder(message: string)
    ensures Unescape(message) ==
      ReplaceAll(ReplaceAll(ReplaceAll(ReplaceAll(ReplaceAll(message,
        "\\n", "\n"), "\\t", "\t"), "\\:", ":"),
        "\U{F0}\U{178}\U{2122}\U{201A}", ":)"), "\U{F0}\U{178}\U{2DC}\U{A6}", ":(")
  {
    var u, m := UNESCAPE_SEQUENCES, message;
    var m1 := ReplaceAll(m, "\\n", "\n");
    var m2 := ReplaceAll(m1, "\\t", "\t");
    var m3 := ReplaceAll(m2, "\\:", ":");
    var m4 := ReplaceAll(m3, "\U{F0}\U{178}\U{2122}\U{201A}", ":)");
    assert u[..1][..0] == u[..0] == [];
    assert ApplyReplacements(u[..1], m) == m1;
    assert u[..2][..1] == u[..1];
    assert ApplyReplacements(u[..2], m) == m2;
    assert u[..3][..2] == u[..2];
    assert ApplyReplacements(u[..3], m) == m3;
    assert u[..4][..3] == u[..3];
    assert ApplyReplacements(u[..4], m) == m4;
    assert u[..|u| - 1] == u[..4];
  }

  /** An escaped line break becomes a line break. */
  lemma UnescapeLineBreakExample()
    ensures Unescape("a\\nb") == "a\nb"
  {
    UnescapeInOrder("a\\nb");
    assert ReplaceAll("b", "\\n", "\n") == "b";
    assert ReplaceAll("\\nb", "\\n", "\n") == "\nb";
    var s := "a\nb";
    assert ReplaceAll("a\\nb", "\\n", "\n") == s;
    assert ReplaceAll(s, "\\t", "\t") == s;
    assert ReplaceAll(s, "\\:", ":") == s;
    assert ReplaceAll(s, "\U{F0}\U{178}\U{2122}\U{201A}", ":)") == s;
    assert ReplaceAll(s, "\U{F0}\U{178}\U{2DC}\U{A6}", ":(") == s;
  }

  /** The garbled smile becomes ":)". */
  lemma UnescapeSmileExample()
    ensures Unescape("\U{F0}\U{178}\U{2122}\U{201A}") == ":)"
  {
    var smile := "\U{F0}\U{178}\U{2122}\U{201A}";
    UnescapeInOrder(smile);
    NoBackslashUnchanged(smile, "\\n", "\n");
    NoBackslashUnchanged(smile, "\\t", "\t");
    NoBackslashUnchanged(smile, "\\:", ":");
    assert ReplaceAll(smile, smile, ":)") == ":)";
    assert ReplaceAll(":)", "\U{F0}\U{178}\U{2DC}\U{A6}", ":(") == ":)";
  }

  /** A pattern starting with a backslash leaves a string without backslashes alone. */
  lemma {:induction false} NoBackslashUnchanged(s: string, pat: string, rep: string)
    requires |pat| > 0 && pat[0] == '\\' && '\\' !in s
    ensures ReplaceAll(s, pat, rep) == s
    decreases |s|
  {
    if |s| >= |pat| {
      assert s[0] != pat[0];
      assert s[..|pat|] != pat;
      NoBackslashUnchanged(s[1..], pat, rep);
      assert s == [s[0]] + s[1..];
    }
  }

  // ---------------------------------------------------------------- the allowed-character check

  /** What `baba_says` makes of a message: rendered, or refused for its first bad character. */
  datatype Verdict = Accepted(message: string) | Refused(bad: char)

  /** Every character of `s` is allowed. */
  predicate AllAllowed(s: string, allowed: set<string>) {
    forall k :: 0 <= k < |s| ==> [s[k]] in allowed
  }

  /**
   * The loop of `baba_says` over the preprocessed message: the first character, in order,
   * that is not in the allowed set, or none when every character is allowed.
   */
  method FirstDisallowed(message: string, allowed: set<string>) returns (bad: Option<char>)
    ensures bad.None? <==> AllAllowed(message, allowed)
    ensures bad.Some? ==> exists k ::
      0 <= k < |message| && message[k] == bad.value && [message[k]] !in allowed && AllAllowed(message[..k], allowed)
  {
    for k := 0 to |message|
      invariant AllAllowed(message[..k], allowed)
    {
      if [message[k]] !in allowed {
        return Some(message[k]);
      }
      assert message[..k + 1] == message[..k] + [message[k]];
    }
    assert message[..|message|] == message;
    return None;
  }

  /**
   * `baba_says` up to the rendering: the text is unescaped, and then either refused for
   * its first character outside the allowed set or accepted as a whole.
   */
  method CheckMessage(text: string, allowed: set<string>) returns (v: Verdict)
    ensures v.Accepted? <==> AllAllowed(Unescape(text), allowed)
    ensures v.Accepted? ==> v.message == Unescape(text)
    ensures v.Refused? ==> exists k ::
      0 <= k < |Unescape(text)| && Unescape(text)[k] == v.bad && [v.bad] !in allowed && AllAllowed(Unescape(text)[..k], allowed)
  {
    var message := PreprocessMessage(text);
    var bad := FirstDisallowed(message, allowed);
    match bad
    case Some(c) => v := Refused(c);
    case None => v := Accepted(message);
  }

  // ---------------------------------------------------------------- pixels_per_character

  /** `max(width, height)`. */
  function LongerSide(width: nat, height: nat): (l: nat)
    ensures l >= width && l >= height && (l == width || l == height)
  {
    if width >= height then width else height
  }

  /**
   * The block size of `run_baba_draws`: `math.ceil(longer / ASCII_MAX_DIMENSION)` for a
   * picture longer than `ASCII_MAX_DIMENSION` pixels, 1 otherwise.
   */
  function PixelsPerCharacter(width: nat, height: nat): (ppc: int)
    ensures ppc >= 1
    ensures LongerSide(width, height) <= ASCII_MAX_DIMENSION ==> ppc == 1
    ensures LongerSide(width, height) > ASCII_MAX_DIMENSION ==>
      (ppc - 1) * ASCII_MAX_DIMENSION < LongerSide(width, height) <= ppc * ASCII_MAX_DIMENSION
  {
    var longer := LongerSide(width, height);
    if longer > ASCII_MAX_DIMENSION then Ceil(longer as real / ASCII_MAX_DIMENSION as real) else 1
  }

  /** `longer // ppc <= 64` whenever `longer <= ppc * 64`. */
  lemma {:induction false} QuotientBound(longer: nat, ppc: nat)
    requires ppc >= 1 && longer <= ppc * ASCII_MAX_DIMENSION
    ensures longer / ppc <= ASCII_MAX_DIMENSION
  {
  }

  /**
   * With that block size the downsampled picture has at most `ASCII_MAX_DIMENSION` cells
   * along each side.
   */
  lemma ArtFitsMaxDimension(width: nat, height: nat)
    ensures DownsampleSize(width, height, PixelsPerCharacter(width, height)).0 <= ASCII_MAX_DIMENSION
    ensures DownsampleSize(width, height, PixelsPerCharacter(width, height)).1 <= ASCII_MAX_DIMENSION
  {
    var ppc := PixelsPerCharacter(width, height);
    QuotientBound(width, ppc);
    QuotientBound(height, ppc);
  }
}
