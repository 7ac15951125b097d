/** constants.py: the fixed tables and the allowed-character inventory derived from sprite names. */
module Constants {
  import opened Pixels
  import opened UrlCodec
  import opened CaseMapping

  const NEWLINE: string := "\n"
  const TAB: string := "\t"
  const SPACE: string := " "
  const SPRITE_SIZE: int := 100
  const ANIMATION_FPS: int := 4
  const MAX_LETTER_HEIGHT: real := 55.0
  const LETTER_WIDTH_TO_HEIGHT_RATIO: real := 0.8
  const ANIMATION_FRAME_COUNT: nat := 6
  const BACKGROUND_SPRITE_FILENAME: string := "sprite"
  const COLOR_BYTE_DEPTH: nat := 4

  /** The alpha a three-argument `Color(r, g, b)` takes (color.py is not part of this model). */
  const DEFAULT_ALPHA: byte := 255

  const MASK_COLOR: Color := Color(255, 255, 255, DEFAULT_ALPHA)
  const BACKGROUND_COLOR: Color := Color(0, 0, 0, 0)
  const COLOR_WHITE: Color := Color(255, 255, 255, DEFAULT_ALPHA)

  const GRAY: Color := Color(128, 128, 128, DEFAULT_ALPHA)
  const YELLOW: Color := Color(255, 255, 60, DEFAULT_ALPHA)
  const ORANGE: Color := Color(250, 120, 60, DEFAULT_ALPHA)
  const DARK_RED: Color := Color(255, 60, 60, DEFAULT_ALPHA)
  const RED: Color := Color(255, 50, 120, DEFAULT_ALPHA)
  const PALE_RED: Color := Color(255, 120, 120, DEFAULT_ALPHA)
  const DARK_PURPLE: Color := Color(160, 20, 160, DEFAULT_ALPHA)
  const PURPLE: Color := Color(120, 120, 255, DEFAULT_ALPHA)
  const DARK_BLUE: Color := Color(20, 20, 200, DEFAULT_ALPHA)
  const BLUE: Color := Color(60, 60, 255, DEFAULT_ALPHA)
  const BLACK: Color := Color(0, 0, 0, DEFAULT_ALPHA)
  const PINK: Color := Color(255, 120, 255, DEFAULT_ALPHA)
  const DARK_PINK: Color := Color(255, 60, 255, DEFAULT_ALPHA)
  const DARK_GREEN: Color := Color(60, 160, 60, DEFAULT_ALPHA)
  const GREEN: Color := Color(60, 255, 60, DEFAULT_ALPHA)
  const LIGHT_GREEN: Color := Color(120, 255, 120, DEFAULT_ALPHA)
  const BROWN: Color := Color(150, 100, 70, DEFAULT_ALPHA)
  const LIGHT_BLUE: Color := Color(60, 160, 255, DEFAULT_ALPHA)

  /** `COLOR_PALETTE`, in the dictionary's insertion order. */
  const COLOR_PALETTE: seq<(string, Color)> := [
    ("gray", GRAY), ("yellow", YELLOW), ("orange", ORANGE), ("dark_red", DARK_RED),
    ("red", RED), ("pale_red", PALE_RED), ("dark_purple", DARK_PURPLE), ("purple", PURPLE),
    ("dark_blue", DARK_BLUE), ("blue", BLUE), ("black", BLACK), ("pink", PINK),
    ("dark_pink", DARK_PINK), ("dark_green", DARK_GREEN), ("green", GREEN),
    ("light_green", LIGHT_GREEN), ("brown", BROWN), ("light_blue", LIGHT_BLUE)
  ]

  /** The values of a dictionary's entries, in order. */
  function Values(entries: seq<(string, Color)>): (values: seq<Color>)
    ensures |values| == |entries| && forall k :: 0 <= k < |entries| ==> values[k] == entries[k].1
  {
    if |entries| == 0 then [] else [entries[0].1] + Values(entries[1..])
  }

  /** `list(COLOR_PALETTE.values())`. */
  const PALETTE_VALUES: seq<Color> := Values(COLOR_PALETTE)

  /** `KNOWN_WORDS_TO_COLOR`: case-sensitive keys. */
  const KNOWN_WORDS_TO_COLOR: map<string, Color> := map[
    "baba" := RED, "You" := RED, "keke" := ORANGE, "rock" := BROWN,
    "Sink" := LIGHT_BLUE, "is" := COLOR_WHITE, "and" := COLOR_WHITE, "not" := RED,
    "or" := COLOR_WHITE, "on" := COLOR_WHITE, "can" := COLOR_WHITE, "the" := COLOR_WHITE,
    "has" := COLOR_WHITE, "wall" := GRAY, "Float" := LIGHT_BLUE, "flag" := YELLOW,
    "Blue" := BLUE, "Red" := DARK_RED, "Green" := GREEN, "Yellow" := YELLOW,
    "Pink" := PINK, "Orange" := ORANGE, "Purple" := PURPLE, "White" := COLOR_WHITE,
    "Black" := BLACK, "blue" := BLUE, "red" := RED, "green" := GREEN,
    "yellow" := YELLOW, "pink" := PINK, "orange" := ORANGE, "purple" := PURPLE,
    "white" := COLOR_WHITE, "black" := BLACK, "violet" := BLUE, "rose" := DARK_RED,
    "Win" := YELLOW
  ]

  /** Every colour of the word table is a palette colour or white. */
  lemma KnownWordColorsFromPalette(w: string)
    requires w in KNOWN_WORDS_TO_COLOR
    ensures KNOWN_WORDS_TO_COLOR[w] in PALETTE_VALUES || KNOWN_WORDS_TO_COLOR[w] == COLOR_WHITE
  {
    assert PALETTE_VALUES == [GRAY, YELLOW, ORANGE, DARK_RED, RED, PALE_RED, DARK_PURPLE, PURPLE,
      DARK_BLUE, BLUE, BLACK, PINK, DARK_PINK, DARK_GREEN, GREEN, LIGHT_GREEN, BROWN, LIGHT_BLUE];
  }

  /** Keys are case-sensitive: "Red" and "red" name different colours. */
  lemma KnownWordsCaseSensitive()
    ensures KNOWN_WORDS_TO_COLOR["Red"] == DARK_RED && KNOWN_WORDS_TO_COLOR["red"] == RED
    ensures DARK_RED != RED
  {
  }

  // ---------------------------------------------------------------- allowed characters

  function Prefix(s: string, n: nat): string
    requires n <= |s|
  {
    s[..n]
  }

  predicate StartsWith(s: string, p: string) {
    |p| <= |s| && s[..|p|] == p
  }

  /** The index of the first "_" of `name`, or its length when there is none. */
  function FirstUnderscore(name: string): (n: nat)
    ensures n <= |name|
    ensures forall k :: 0 <= k < n ==> name[k] != '_'
    ensures n < |name| ==> name[n] == '_'
  {
    if |name| == 0 || name[0] == '_' then 0 else 1 + FirstUnderscore(name[1..])
  }

  /** `name.split("_")[0]`: everything before the first "_". */
  function GlyphPrefix(name: string): (p: string)
    ensures '_' !in p
    ensures StartsWith(name, p)
  {
    name[..FirstUnderscore(name)]
  }

  /** Names starting with "_" (the underscore glyph) or with the background tile's name are skipped. */
  predicate Skipped(name: string) {
    StartsWith(name, "_") || StartsWith(name, BACKGROUND_SPRITE_FILENAME)
  }

  /** What one sprite basename adds: its decoded glyph, and the glyph's lower case when it has case. */
  function Contribution(name: string): set<string> {
    if Skipped(name) then {}
    else
      var decoded := Unquote(GlyphPrefix(name));
      if Lower(decoded) != Upper(decoded) then {decoded, Lower(decoded)} else {decoded}
  }

  /** Space, tab, newline and "_" are always allowed. */
  const ALWAYS_ALLOWED: set<string> := {SPACE, TAB, NEWLINE, "_"}

  /** Everything the basenames contribute. */
  ghost function Contributions(basenames: seq<string>): set<string> {
    set n, g | n in basenames && g in Contribution(n) :: g
  }

  lemma ContributionsAppend(basenames: seq<string>, name: string)
    ensures Contributions(basenames + [name]) == Contributions(basenames) + Contribution(name)
  {
    forall g | g in Contributions(basenames + [name])
      ensures g in Contributions(basenames) + Contribution(name)
    {
      var n :| n in basenames + [name] && g in Contribution(n);
    }
  }

  /** The allowed set for a list of sprite basenames (the glob result). */
  ghost function AllowedFrom(basenames: seq<string>): set<string> {
    Contributions(basenames) + ALWAYS_ALLOWED
  }

  /** `get_allowed_characters()`, with the glob over the resource directory given as its basenames. */
  method GetAllowedCharacters(basenames: seq<string>) returns (allowed: set<string>)
    ensures allowed == AllowedFrom(basenames)
  {
    allowed := {};
    for i := 0 to |basenames|
      invariant allowed == Contributions(basenames[..i])
    {
      var letter := basenames[i];
      assert basenames[..i + 1] == basenames[..i] + [letter];
      ContributionsAppend(basenames[..i], letter);
      if Skipped(letter) {
        continue;
      }
      var decoded := Unquote(GlyphPrefix(letter));
      allowed := allowed + {decoded};
      if Lower(decoded) != Upper(decoded) {
        allowed := allowed + {Lower(decoded)};
      }
    }
    assert basenames[..|basenames|] == basenames;
    allowed := allowed + {SPACE, TAB, NEWLINE, "_"};
  }

  /** The four layout characters are allowed whatever the sprites are. */
  lemma AlwaysAllowed(basenames: seq<string>)
    ensures " " in AllowedFrom(basenames) && "\t" in AllowedFrom(basenames)
    ensures "\n" in AllowedFrom(basenames) && "_" in AllowedFrom(basenames)
  {
  }

  /** A sprite basename not skipped makes its decoded prefix allowed, and its lower case too
      when it has case; a skipped one adds nothing. */
  lemma ContributionAllowed(basenames: seq<string>, name: string)
    requires name in basenames
    ensures !Skipped(name) ==> Unquote(GlyphPrefix(name)) in AllowedFrom(basenames)
    ensures !Skipped(name) && Lower(Unquote(GlyphPrefix(name))) != Upper(Unquote(GlyphPrefix(name))) ==>
      Lower(Unquote(GlyphPrefix(name))) in AllowedFrom(basenames)
    ensures Skipped(name) ==> AllowedFrom(basenames + [name]) == AllowedFrom(basenames)
  {
    if Skipped(name) {
      ContributionsAppend(basenames, name);
    } else {
      var d := Unquote(GlyphPrefix(name));
      assert d in Contribution(name);
    }
  }

  /** Only the set of basenames matters, not their order or repetitions. */
  lemma AllowedIgnoresOrder(a: seq<string>, b: seq<string>)
    requires forall n :: n in a <==> n in b
    ensures AllowedFrom(a) == AllowedFrom(b)
  {
  }
}
