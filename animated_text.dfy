/**
 * animated_text.py: a text is cut into word tokens, the words are laid out on a grid of
 * `SPRITE_SIZE` squares (a newline starts the next row, a tab skips a cell), every word
 * gets a colour, and the frames of the animation are painted word by word.
 */
module Texts {
  import opened Wrappers
  import opened Pixels
  import opened Geometry
  import opened CaseMapping
  import opened Constants
  import opened AnimatedObjects
  import opened Words

  // ---------------------------------------------------------------- tokenizer

  /** `s.replace(c, r)`: every occurrence of the character `c` becomes `r`. */
  function ReplaceChar(s: string, c: char, r: string): string {
    if |s| == 0 then ""
    else (if s[0] == c then r else [s[0]]) + ReplaceChar(s[1..], c, r)
  }

  /** `s.split(" ")` continued from a word `cur` already begun: the pieces between spaces. */
  function SplitFrom(s: string, cur: string): (pieces: seq<string>)
    ensures |pieces| > 0
  {
    if |s| == 0 then [cur]
    else if s[0] == ' ' then [cur] + SplitFrom(s[1..], "")
    else SplitFrom(s[1..], cur + [s[0]])
  }

  /** `s.split(" ")`, empty pieces included. */
  function Split(s: string): seq<string> {
    SplitFrom(s, "")
  }

  /** `filter(lambda x: len(x) > 0, pieces)`. */
  function NonEmpty(pieces: seq<string>): (kept: seq<string>)
    ensures forall t :: t in kept <==> t in pieces && |t| > 0
  {
    if |pieces| == 0 then []
    else if |pieces[0]| > 0 then [pieces[0]] + NonEmpty(pieces[1..])
    else NonEmpty(pieces[1..])
  }

  /** `__tokenize_input_text`: newlines and tabs are padded with spaces, then the text is
      split on spaces and the empty pieces are dropped. */
  function Tokenize(text: string): seq<string> {
    NonEmpty(Split(Pad(text)))
  }

  /** Newlines and then tabs padded with a space on either side. */
  function Pad(text: string): string {
    ReplaceChar(ReplaceChar(text, '\n', " \n "), '\t', " \t ")
  }

  /** The tokens glued back together. */
  function Concat(ts: seq<string>): string {
    if |ts| == 0 then "" else ts[0] + Concat(ts[1..])
  }

  /** `s` without its spaces. */
  function RemoveSpaces(s: string): (r: string)
    ensures ' ' !in r
  {
    if |s| == 0 then ""
    else (if s[0] == ' ' then "" else [s[0]]) + RemoveSpaces(s[1..])
  }

  /** `__remove_control_sequences`: the tokens other than a tab or a newline, in order. */
  function RemoveControlSequences(tokens: seq<string>): (words: seq<string>)
    ensures forall t :: t in words <==> t in tokens && t != TAB && t != NEWLINE
  {
    if |tokens| == 0 then []
    else if tokens[0] == TAB || tokens[0] == NEWLINE then RemoveControlSequences(tokens[1..])
    else [tokens[0]] + RemoveControlSequences(tokens[1..])
  }

  lemma {:induction false} SplitFromNoSpace(s: string, cur: string)
    requires ' ' !in cur
    ensures forall t :: t in SplitFrom(s, cur) ==> ' ' !in t
  {
    if |s| > 0 {
      if s[0] == ' ' {
        SplitFromNoSpace(s[1..], "");
      } else {
        SplitFromNoSpace(s[1..], cur + [s[0]]);
      }
    }
  }

  lemma {:induction false} ConcatAppend(a: seq<string>, b: seq<string>)
    ensures Concat(a + b) == Concat(a) + Concat(b)
  {
    if |a| > 0 {
      assert (a + b)[0] == a[0] && (a + b)[1..] == a[1..] + b;
      ConcatAppend(a[1..], b);
    } else {
      assert a + b == b;
    }
  }

  lemma {:induction false} SplitFromConcat(s: string, cur: string)
    ensures Concat(SplitFrom(s, cur)) == cur + RemoveSpaces(s)
  {
    if |s| > 0 {
      if s[0] == ' ' {
        SplitFromConcat(s[1..], "");
        ConcatAppend([cur], SplitFrom(s[1..], ""));
      } else {
        SplitFromConcat(s[1..], cur + [s[0]]);
      }
    }
  }

  lemma {:induction false} NonEmptyConcat(pieces: seq<string>)
    ensures Concat(NonEmpty(pieces)) == Concat(pieces)
  {
    if |pieces| > 0 {
      NonEmptyConcat(pieces[1..]);
    }
  }

  lemma {:induction false} RemoveSpacesAppend(a: string, b: string)
    ensures RemoveSpaces(a + b) == RemoveSpaces(a) + RemoveSpaces(b)
  {
    if |a| > 0 {
      assert (a + b)[0] == a[0] && (a + b)[1..] == a[1..] + b;
      RemoveSpacesAppend(a[1..], b);
    } else {
      assert a + b == b;
    }
  }

  /** Padding a character with spaces does not change the text once spaces are removed. */
  lemma {:induction false} ReplaceKeepsLetters(s: string, c: char)
    requires c != ' '
    ensures RemoveSpaces(ReplaceChar(s, c, [' ', c, ' '])) == RemoveSpaces(s)
  {
    if |s| > 0 {
      ReplaceKeepsLetters(s[1..], c);
      var head := if s[0] == c then [' ', c, ' '] else [s[0]];
      RemoveSpacesAppend(head, ReplaceChar(s[1..], c, [' ', c, ' ']));
      RemoveSpacesAppend([s[0]], s[1..]);
      assert [s[0]] + s[1..] == s;
      assert ReplaceChar(s, c, [' ', c, ' ']) == head + ReplaceChar(s[1..], c, [' ', c, ' ']);
      if s[0] == c {
        assert RemoveSpaces([c, ' ']) == [c] by {
          assert [c, ' '][1..] == [' '];
        }
        assert head[1..] == [c, ' '];
      }
      assert RemoveSpaces(head) == RemoveSpaces([s[0]]);
    }
  }

  /** Tokens are never empty and never hold a space. */
  lemma TokensAreWords(text: string)
    ensures forall t :: t in Tokenize(text) ==> |t| > 0 && ' ' !in t
  {
    SplitFromNoSpace(ReplaceChar(ReplaceChar(text, '\n', " \n "), '\t', " \t "), "");
  }

  /** Gluing the tokens together gives the text without its spaces. */
  lemma TokensConcat(text: string)
    ensures Concat(Tokenize(text)) == RemoveSpaces(text)
  {
    var padded := ReplaceChar(ReplaceChar(text, '\n', " \n "), '\t', " \t ");
    NonEmptyConcat(Split(padded));
    SplitFromConcat(padded, "");
    ReplaceKeepsLetters(ReplaceChar(text, '\n', " \n "), '\t');
    ReplaceKeepsLetters(text, '\n');
  }

  lemma {:induction false} ReplaceCharAppend(a: string, b: string, c: char, r: string)
    ensures ReplaceChar(a + b, c, r) == ReplaceChar(a, c, r) + ReplaceChar(b, c, r)
  {
    if |a| > 0 {
      assert (a + b)[0] == a[0] && (a + b)[1..] == a[1..] + b;
      ReplaceCharAppend(a[1..], b, c, r);
    } else {
      assert a + b == b;
    }
  }

  lemma {:induction false} ReplaceCharAbsent(s: string, c: char, r: string)
    requires c !in s
    ensures ReplaceChar(s, c, r) == s
  {
    if |s| > 0 {
      assert forall x :: x in s[1..] ==> x in s;
      ReplaceCharAbsent(s[1..], c, r);
      assert [s[0]] + s[1..] == s;
    }
  }

  /** A space closes the piece being built: the pieces of `a + " " + b` are those of `a`,
      then those of `b`. */
  lemma {:induction false} SplitFromAppend(a: string, b: string, cur: string)
    ensures SplitFrom(a + " " + b, cur) == SplitFrom(a, cur) + SplitFrom(b, "")
  {
    if |a| == 0 {
      assert (a + " " + b)[0] == ' ' && (a + " " + b)[1..] == b;
    } else {
      assert (a + " " + b)[0] == a[0] && (a + " " + b)[1..] == a[1..] + " " + b;
      if a[0] == ' ' {
        SplitFromAppend(a[1..], b, "");
      } else {
        SplitFromAppend(a[1..], b, cur + [a[0]]);
      }
    }
  }

  /** A text without spaces is one piece. */
  lemma {:induction false} SplitFromWord(w: string, cur: string)
    requires ' ' !in w
    ensures SplitFrom(w, cur) == [cur + w]
  {
    if |w| > 0 {
      assert w[0] in w && forall x :: x in w[1..] ==> x in w;
      SplitFromWord(w[1..], cur + [w[0]]);
      assert cur + [w[0]] + w[1..] == cur + w;
    } else {
      assert cur + w == cur;
    }
  }

  lemma {:induction false} NonEmptyAppend(x: seq<string>, y: seq<string>)
    ensures NonEmpty(x + y) == NonEmpty(x) + NonEmpty(y)
  {
    if |x| > 0 {
      assert (x + y)[0] == x[0] && (x + y)[1..] == x[1..] + y;
      NonEmptyAppend(x[1..], y);
    } else {
      assert x + y == y;
    }
  }

  /** The padding of newlines and tabs, done piece by piece. */
  lemma PadAppend(a: string, b: string)
    ensures Pad(a + b) == Pad(a) + Pad(b)
  {
    ReplaceCharAppend(a, b, '\n', " \n ");
    ReplaceCharAppend(ReplaceChar(a, '\n', " \n "), ReplaceChar(b, '\n', " \n "), '\t', " \t ");
  }

  /** A space separates tokens: the tokens of `a + " " + b` are those of `a`, then those of `b`. */
  lemma TokenizeSpace(a: string, b: string)
    ensures Tokenize(a + " " + b) == Tokenize(a) + Tokenize(b)
  {
    PadAppend(a + " ", b);
    PadAppend(a, " ");
    assert Pad(" ") == " " by {
      ReplaceCharAbsent(" ", '\n', " \n ");
      ReplaceCharAbsent(" ", '\t', " \t ");
    }
    assert Pad(a + " " + b) == Pad(a) + " " + Pad(b);
    SplitFromAppend(Pad(a), Pad(b), "");
    NonEmptyAppend(Split(Pad(a)), Split(Pad(b)));
  }

  /** A newline is a token of its own, whatever surrounds it. */
  lemma TokenizeNewline(a: string, b: string)
    ensures Tokenize(a + NEWLINE + b) == Tokenize(a) + [NEWLINE] + Tokenize(b)
  {
    PadNewline(a, b);
    SplitNewline(Pad(a), Pad(b));
    NonEmptyNewline(Split(Pad(a)), Split(Pad(b)));
  }

  lemma PadNewline(a: string, b: string)
    ensures Pad(a + NEWLINE + b) == Pad(a) + " " + (NEWLINE + " " + Pad(b))
  {
    PadAppend(a + NEWLINE, b);
    PadAppend(a, NEWLINE);
    assert Pad(NEWLINE) == " " + NEWLINE + " " by {
      assert NEWLINE[1..] == [];
      ReplaceCharAbsent(" \n ", '\t', " \t ");
    }
  }

  lemma SplitNewline(pa: string, pb: string)
    ensures Split(pa + " " + (NEWLINE + " " + pb)) == Split(pa) + [NEWLINE] + Split(pb)
  {
    SplitFromAppend(pa, NEWLINE + " " + pb, "");
    SplitFromAppend(NEWLINE, pb, "");
    SplitFromWord(NEWLINE, "");
    assert "" + NEWLINE == NEWLINE;
  }

  lemma NonEmptyNewline(x: seq<string>, y: seq<string>)
    ensures NonEmpty(x + [NEWLINE] + y) == NonEmpty(x) + [NEWLINE] + NonEmpty(y)
  {
    NonEmptyAppend(x + [NEWLINE], y);
    NonEmptyAppend(x, [NEWLINE]);
    assert NonEmpty([NEWLINE]) == [NEWLINE] by {
      assert [NEWLINE][1..] == [];
    }
  }

  /** A word without spaces, newlines or tabs is a single token. */
  lemma TokenizeWord(w: string)
    requires |w| > 0 && ' ' !in w && '\n' !in w && '\t' !in w
    ensures Tokenize(w) == [w]
  {
    ReplaceCharAbsent(w, '\n', " \n ");
    ReplaceCharAbsent(w, '\t', " \t ");
    assert Pad(w) == w;
    SplitFromWord(w, "");
    assert "" + w == w;
    assert Split(w) == [w];
    assert [w][1..] == [];
    assert NonEmpty([w]) == [w];
  }

  /**
   * Every `c` in `s` has a space on either side; `afterSpace` says whether the character before
   * `s` (or the start of the text) counts as a space.
   */
  predicate Flanked(s: string, c: char, afterSpace: bool) {
    if |s| == 0 then true
    else if s[0] == c then afterSpace && |s| >= 2 && s[1] == ' ' && Flanked(s[1..], c, false)
    else Flanked(s[1..], c, s[0] == ' ')
  }

  lemma {:induction false} FlankedWeaken(s: string, c: char)
    requires Flanked(s, c, false)
    ensures Flanked(s, c, true)
  {
  }

  lemma {:induction false} PaddingFlanks(s: string, c: char, afterSpace: bool)
    requires c != ' '
    ensures Flanked(ReplaceChar(s, c, [' ', c, ' ']), c, afterSpace)
  {
    if |s| > 0 {
      var rest := ReplaceChar(s[1..], c, [' ', c, ' ']);
      if s[0] == c {
        PaddingFlanks(s[1..], c, true);
        assert ReplaceChar(s, c, [' ', c, ' ']) == [' ', c, ' '] + rest;
        assert ([' ', c, ' '] + rest)[1..] == [c, ' '] + rest;
        assert ([c, ' '] + rest)[1..] == [' '] + rest;
        assert ([' '] + rest)[1..] == rest;
      } else {
        PaddingFlanks(s[1..], c, s[0] == ' ');
        assert ReplaceChar(s, c, [' ', c, ' ']) == [s[0]] + rest;
        assert ([s[0]] + rest)[1..] == rest;
      }
    }
  }

  lemma {:induction false} PaddingKeepsFlanked(s: string, c: char, d: char, afterSpace: bool)
    requires c != ' ' && d != ' ' && c != d
    requires Flanked(s, c, afterSpace)
    ensures Flanked(ReplaceChar(s, d, [' ', d, ' ']), c, afterSpace)
  {
    if |s| > 0 {
      var rest := ReplaceChar(s[1..], d, [' ', d, ' ']);
      if s[0] == d {
        FlankedWeaken(s[1..], c);
        PaddingKeepsFlanked(s[1..], c, d, true);
        assert ReplaceChar(s, d, [' ', d, ' ']) == [' ', d, ' '] + rest;
        assert ([' ', d, ' '] + rest)[1..] == [d, ' '] + rest;
        assert ([d, ' '] + rest)[1..] == [' '] + rest;
        assert ([' '] + rest)[1..] == rest;
      } else if s[0] == c {
        PaddingKeepsFlanked(s[1..], c, d, false);
        assert ReplaceChar(s, d, [' ', d, ' ']) == [c] + rest;
        assert ([c] + rest)[1..] == rest;
        assert rest == [' '] + ReplaceChar(s[2..], d, [' ', d, ' ']) by {
          assert s[1..][1..] == s[2..];
        }
      } else {
        PaddingKeepsFlanked(s[1..], c, d, s[0] == ' ');
        assert ReplaceChar(s, d, [' ', d, ' ']) == [s[0]] + rest;
        assert ([s[0]] + rest)[1..] == rest;
      }
    }
  }

  /** Splitting a text whose every `c` is flanked by spaces leaves each `c` alone in its piece. */
  lemma {:induction false} SplitIsolates(s: string, cur: string, c: char)
    requires c != ' '
    requires Flanked(s, c, cur == "")
    requires c in cur ==> cur == [c] && |s| > 0 && s[0] == ' '
    ensures forall t :: t in SplitFrom(s, cur) && c in t ==> t == [c]
  {
    if |s| > 0 {
      if s[0] == ' ' {
        SplitIsolates(s[1..], "", c);
      } else if s[0] == c {
        SplitIsolates(s[1..], [c], c);
      } else {
        SplitIsolates(s[1..], cur + [s[0]], c);
      }
    }
  }

  /** Every newline and every tab is a token of its own, and no other token holds one. */
  lemma ControlTokensIsolated(text: string)
    ensures forall t :: t in Tokenize(text) && '\n' in t ==> t == NEWLINE
    ensures forall t :: t in Tokenize(text) && '\t' in t ==> t == TAB
  {
    var once := ReplaceChar(text, '\n', " \n ");
    var padded := ReplaceChar(once, '\t', " \t ");
    PaddingFlanks(text, '\n', true);
    PaddingKeepsFlanked(once, '\n', '\t', true);
    PaddingFlanks(once, '\t', true);
    SplitIsolates(padded, "", '\n');
    SplitIsolates(padded, "", '\t');
  }

  // ---------------------------------------------------------------- layout

  /** The grid cells, as (column, row), that the words of `tokens` take when the cursor starts
      in column `x` of row `y`: a newline moves to column 0 of the next row, a tab skips a
      column, and a word takes the cell under the cursor and moves one column on. */
  function CellsFrom(tokens: seq<string>, x: int, y: int): seq<(int, int)> {
    if |tokens| == 0 then []
    else if tokens[0] == NEWLINE then CellsFrom(tokens[1..], 0, y + 1)
    else if tokens[0] == TAB then CellsFrom(tokens[1..], x + 1, y)
    else [(x, y)] + CellsFrom(tokens[1..], x + 1, y)
  }

  /** The cells of all words, the cursor starting at the top left. */
  function LayoutCells(tokens: seq<string>): seq<(int, int)> {
    CellsFrom(tokens, 0, 0)
  }

  /** The `SPRITE_SIZE` square of a grid cell. */
  function SpriteBox(cell: (int, int)): Bounds {
    Bounds(cell.0 * SPRITE_SIZE, cell.1 * SPRITE_SIZE, SPRITE_SIZE, SPRITE_SIZE)
  }

  /** Cell `p` comes before cell `q` in reading order: an earlier row, or the same row further left. */
  predicate Before(p: (int, int), q: (int, int)) {
    p.1 < q.1 || (p.1 == q.1 && p.0 < q.0)
  }

  /** `__generate_word_layout`: one `SPRITE_SIZE` square per word, on the cells of `LayoutCells`. */
  method GenerateWordLayout(tokens: seq<string>) returns (layout: seq<Rect>)
    ensures |layout| == |LayoutCells(tokens)|
    ensures forall k :: 0 <= k < |layout| ==>
      fresh(layout[k]) && layout[k].Value() == SpriteBox(LayoutCells(tokens)[k])
  {
    layout := [];
    var x, y := 0, 0;
    ghost var cells: seq<(int, int)> := [];
    for i := 0 to |tokens|
      invariant cells + CellsFrom(tokens[i..], x, y) == LayoutCells(tokens)
      invariant |layout| == |cells|
      invariant forall k :: 0 <= k < |layout| ==>
        fresh(layout[k]) && layout[k].Value() == SpriteBox(cells[k])
    {
      var token := tokens[i];
      assert tokens[i..][1..] == tokens[i + 1..];
      if token == NEWLINE {
        y := y + 1;
        x := 0;
      } else if token == TAB {
        x := x + 1;
      } else {
        var box := new Rect((x * SPRITE_SIZE) as real, (y * SPRITE_SIZE) as real,
                            SPRITE_SIZE as real, SPRITE_SIZE as real);
        RoundOfInt(x * SPRITE_SIZE);
        RoundOfInt(y * SPRITE_SIZE);
        RoundOfInt(SPRITE_SIZE);
        assert cells + CellsFrom(tokens[i..], x, y) == (cells + [(x, y)]) + CellsFrom(tokens[i + 1..], x + 1, y);
        layout := layout + [box];
        cells := cells + [(x, y)];
        x := x + 1;
      }
    }
    assert tokens[|tokens|..] == [];
  }

  /** Exactly one cell per word token: `zip(words, layout)` drops nothing. */
  lemma {:induction false} OneCellPerWord(tokens: seq<string>, x: int, y: int)
    ensures |CellsFrom(tokens, x, y)| == |RemoveControlSequences(tokens)|
  {
    if |tokens| > 0 {
      OneCellPerWord(tokens[1..], if tokens[0] == NEWLINE then 0 else x + 1,
                     if tokens[0] == NEWLINE then y + 1 else y);
    }
  }

  /** Every cell lies at or after the cursor, and the cells come in strict reading order. */
  lemma {:induction false} CellsInReadingOrder(tokens: seq<string>, x: int, y: int)
    ensures forall k :: 0 <= k < |CellsFrom(tokens, x, y)| ==>
      CellsFrom(tokens, x, y)[k] == (x, y) || Before((x, y), CellsFrom(tokens, x, y)[k])
    ensures forall a, b :: 0 <= a < b < |CellsFrom(tokens, x, y)| ==>
      Before(CellsFrom(tokens, x, y)[a], CellsFrom(tokens, x, y)[b])
  {
    if |tokens| > 0 {
      if tokens[0] == NEWLINE {
        CellsInReadingOrder(tokens[1..], 0, y + 1);
      } else if tokens[0] == TAB {
        CellsInReadingOrder(tokens[1..], x + 1, y);
      } else {
        var rest := CellsFrom(tokens[1..], x + 1, y);
        CellsInReadingOrder(tokens[1..], x + 1, y);
        var cells := [(x, y)] + rest;
        assert CellsFrom(tokens, x, y) == cells;
        forall k | 0 < k < |cells|
          ensures cells[k] == rest[k - 1] && Before((x, y), cells[k])
        {
        }
        forall a, b | 0 <= a < b < |cells|
          ensures Before(cells[a], cells[b])
        {
          if a > 0 {
            assert cells[a] == rest[a - 1] && cells[b] == rest[b - 1];
          }
        }
      }
    }
  }

  /** A cursor starting at non-negative coordinates only reaches non-negative cells. */
  lemma {:induction false} CellsNonNegative(tokens: seq<string>, x: int, y: int)
    requires x >= 0 && y >= 0
    ensures forall k :: 0 <= k < |CellsFrom(tokens, x, y)| ==>
      CellsFrom(tokens, x, y)[k].0 >= 0 && CellsFrom(tokens, x, y)[k].1 >= 0
  {
    if |tokens| > 0 {
      CellsNonNegative(tokens[1..], if tokens[0] == NEWLINE then 0 else x + 1,
                       if tokens[0] == NEWLINE then y + 1 else y);
    }
  }

  /** The pixel rows and columns a cell's square covers determine the cell. */
  lemma CellOfPixel(cell: (int, int), i: int, j: int)
    requires SpriteBox(cell).Covers(i, j)
    ensures cell.1 == i / SPRITE_SIZE && cell.0 == j / SPRITE_SIZE
  {
  }

  /** The squares of the layout do not overlap: no pixel lies in two of them. */
  lemma LayoutDisjoint(tokens: seq<string>, a: nat, b: nat, i: int, j: int)
    requires a < b < |LayoutCells(tokens)|
    ensures !(SpriteBox(LayoutCells(tokens)[a]).Covers(i, j) && SpriteBox(LayoutCells(tokens)[b]).Covers(i, j))
  {
    CellsInReadingOrder(tokens, 0, 0);
    if SpriteBox(LayoutCells(tokens)[a]).Covers(i, j) && SpriteBox(LayoutCells(tokens)[b]).Covers(i, j) {
      CellOfPixel(LayoutCells(tokens)[a], i, j);
      CellOfPixel(LayoutCells(tokens)[b], i, j);
    }
  }

  /** A newline starts the next row at column 0, so an empty line leaves a row free. */
  lemma NewlineExample()
    ensures LayoutCells(["A", "B", NEWLINE, NEWLINE, "C"]) == [(0, 0), (1, 0), (0, 2)]
  {
    var t := ["A", "B", NEWLINE, NEWLINE, "C"];
    assert CellsFrom(t[4..], 0, 2) == [(0, 2)];
    assert CellsFrom(t[3..], 0, 1) == [(0, 2)];
    assert CellsFrom(t[2..], 2, 0) == [(0, 2)];
    assert CellsFrom(t[1..], 1, 0) == [(1, 0), (0, 2)];
  }

  /** A tab leaves one cell of the row free. */
  lemma TabExample()
    ensures LayoutCells([TAB, "A", TAB, "B"]) == [(1, 0), (3, 0)]
  {
    var t := [TAB, "A", TAB, "B"];
    assert CellsFrom(t[3..], 3, 0) == [(3, 0)];
    assert CellsFrom(t[2..], 2, 0) == [(3, 0)];
    assert CellsFrom(t[1..], 1, 0) == [(1, 0), (3, 0)];
  }

  /** A non-empty token without spaces, newlines or tabs. */
  predicate IsWord(w: string) {
    |w| > 0 && ' ' !in w && '\n' !in w && '\t' !in w
  }

  /** A word is neither a newline nor a tab token. */
  lemma NotControl(w: string)
    requires IsWord(w)
    ensures w != NEWLINE && w != TAB
  {
    assert w[0] in w;
  }

  /** The text without any character has no token. */
  lemma TokenizeEmpty()
    ensures Tokenize("") == []
  {
    assert Pad("") == "";
  }

  /**
   * The newline layout test, `"\nA B C\nD E \n F \n\n X\nY\n"`, with its eight one-letter
   * words `a`, ..., `y` left open (one line of the text per parenthesis): every word lands in
   * the row of its line, the empty line leaves row 4 free, and the spaces around a word do not
   * move it.
   */
  lemma NewlineTestLayout(a: string, b: string, c: string, d: string, e: string, f: string, x: string, y: string)
    requires IsWord(a) && IsWord(b) && IsWord(c) && IsWord(d)
    requires IsWord(e) && IsWord(f) && IsWord(x) && IsWord(y)
    ensures LayoutCells(Tokenize(NEWLINE + (a + " " + b + " " + c + NEWLINE + (d + " " + e + " " + NEWLINE
              + (" " + f + " " + NEWLINE + (NEWLINE + (" " + x + NEWLINE + (y + NEWLINE))))))))
         == [(0, 1), (1, 1), (2, 1), (0, 2), (1, 2), (0, 3), (0, 5), (0, 6)]
  {
    NewlineTestTokens(a, b, c, d, e, f, x, y);
    NewlineTestCells(a, b, c, d, e, f, x, y);
  }

  /** The cells of the newline layout test's tokens, one token at a time from the last. */
  lemma NewlineTestCells(a: string, b: string, c: string, d: string, e: string, f: string, x: string, y: string)
    requires IsWord(a) && IsWord(b) && IsWord(c) && IsWord(d)
    requires IsWord(e) && IsWord(f) && IsWord(x) && IsWord(y)
    ensures LayoutCells([NEWLINE, a, b, c, NEWLINE, d, e, NEWLINE, f, NEWLINE, NEWLINE, x, NEWLINE, y, NEWLINE])
         == [(0, 1), (1, 1), (2, 1), (0, 2), (1, 2), (0, 3), (0, 5), (0, 6)]
  {
    var n := NEWLINE;
    var t14: seq<string> := [n];
    CellsNewline([], 1, 6);
    var t13 := [y] + t14;
    CellsWord(y, t14, 0, 6);
    var t12 := [n] + t13;
    CellsNewline(t13, 1, 5);
    var t11 := [x] + t12;
    CellsWord(x, t12, 0, 5);
    var t10 := [n] + t11;
    CellsNewline(t11, 0, 4);
    var t9 := [n] + t10;
    CellsNewline(t10, 1, 3);
    var t8 := [f] + t9;
    CellsWord(f, t9, 0, 3);
    var t7 := [n] + t8;
    CellsNewline(t8, 2, 2);
    var t6 := [e] + t7;
    CellsWord(e, t7, 1, 2);
    var t5 := [d] + t6;
    CellsWord(d, t6, 0, 2);
    var t4 := [n] + t5;
    CellsNewline(t5, 3, 1);
    var t3 := [c] + t4;
    CellsWord(c, t4, 2, 1);
    var t2 := [b] + t3;
    CellsWord(b, t3, 1, 1);
    var t1 := [a] + t2;
    CellsWord(a, t2, 0, 1);
    CellsNewline(t1, 0, 0);
    Spine(n, a, b, c, d, e, f, x, y);
    assert CellsFrom([], 0, 7) == [];
    Spine((0, 1), (1, 1), (2, 1), (0, 2), (1, 2), (0, 3), (0, 5), (0, 6), (0, 7));
  }

  /** A word takes the cell under the cursor and moves it one to the right. */
  lemma CellsWord(w: string, rest: seq<string>, x: int, y: int)
    requires IsWord(w)
    ensures CellsFrom([w] + rest, x, y) == [(x, y)] + CellsFrom(rest, x + 1, y)
  {
    NotControl(w);
    assert ([w] + rest)[1..] == rest;
  }

  /** A newline takes no cell and moves the cursor to the start of the next row. */
  lemma CellsNewline(rest: seq<string>, x: int, y: int)
    ensures CellsFrom([NEWLINE] + rest, x, y) == CellsFrom(rest, 0, y + 1)
  {
    assert ([NEWLINE] + rest)[1..] == rest;
  }

  /** Nested one-element appends are the list display. */
  lemma Spine<T>(n: T, a: T, b: T, c: T, d: T, e: T, f: T, x: T, y: T)
    ensures [n] + ([a] + ([b] + ([c] + ([n] + ([d] + ([e] + ([n] + ([f] + ([n] + ([n] + ([x] + ([n] + ([y] + [n])))))))))))))
         == [n, a, b, c, n, d, e, n, f, n, n, x, n, y, n]
    ensures [n] + ([a] + ([b] + ([c] + ([d] + ([e] + ([f] + ([x] + [])))))))
         == [n, a, b, c, d, e, f, x]
  {
  }

  /** The tokens of the newline layout test: every newline alone, every word a token. */
  lemma NewlineTestTokens(a: string, b: string, c: string, d: string, e: string, f: string, x: string, y: string)
    requires IsWord(a) && IsWord(b) && IsWord(c) && IsWord(d)
    requires IsWord(e) && IsWord(f) && IsWord(x) && IsWord(y)
    ensures Tokenize(NEWLINE + (a + " " + b + " " + c + NEWLINE + (d + " " + e + " " + NEWLINE
              + (" " + f + " " + NEWLINE + (NEWLINE + (" " + x + NEWLINE + (y + NEWLINE)))))))
         == [NEWLINE, a, b, c, NEWLINE, d, e, NEWLINE, f, NEWLINE, NEWLINE, x, NEWLINE, y, NEWLINE]
  {
    TokenizeWord(y);
    TokenizeNewlineEnd(y);
    var r5 := " " + x + NEWLINE + (y + NEWLINE);
    SpacedWords(x);
    TokenizeNewline(" " + x, y + NEWLINE);
    TokenizeNewlineStart(r5);
    var r3 := " " + f + " " + NEWLINE + (NEWLINE + r5);
    SpacedWords(f);
    TokenizeNewline(" " + f + " ", NEWLINE + r5);
    var r2 := d + " " + e + " " + NEWLINE + r3;
    TwoWords(d, e);
    TokenizeNewline(d + " " + e + " ", r3);
    var r1 := a + " " + b + " " + c + NEWLINE + r2;
    ThreeWords(a, b, c);
    TokenizeNewline(a + " " + b + " " + c, r2);
    TokenizeNewlineStart(r1);
    NewlineTestList(NEWLINE, a, b, c, d, e, f, x, y);
  }

  /** The token list of the newline layout test, assembled line by line. */
  lemma NewlineTestList<T>(n: T, a: T, b: T, c: T, d: T, e: T, f: T, x: T, y: T)
    ensures [n] + ([a, b, c] + [n] + ([d, e] + [n] + ([f] + [n] + ([n] + ([x] + [n] + ([y] + [n]))))))
         == [n, a, b, c, n, d, e, n, f, n, n, x, n, y, n]
  {
  }

  /** A newline ending the text is a token of its own. */
  lemma TokenizeNewlineEnd(a: string)
    ensures Tokenize(a + NEWLINE) == Tokenize(a) + [NEWLINE]
  {
    TokenizeEmpty();
    TokenizeNewline(a, "");
    assert a + NEWLINE + "" == a + NEWLINE;
    EmptyAround(Tokenize(a) + [NEWLINE]);
  }

  /** A newline starting the text is a token of its own. */
  lemma TokenizeNewlineStart(b: string)
    ensures Tokenize(NEWLINE + b) == [NEWLINE] + Tokenize(b)
  {
    TokenizeEmpty();
    TokenizeNewline("", b);
    assert "" + NEWLINE + b == NEWLINE + b;
    EmptyAround([NEWLINE]);
  }

  /** A word with a space before it, and with a space on either side. */
  lemma SpacedWords(w: string)
    requires IsWord(w)
    ensures Tokenize(" " + w) == [w] && Tokenize(" " + w + " ") == [w]
  {
    TokenizeEmpty();
    TokenizeWord(w);
    TokenizeSpace("", w);
    assert "" + " " + w == " " + w;
    TokenizeSpace(" " + w, "");
    assert " " + w + " " + "" == " " + w + " ";
    EmptyAround([w]);
  }

  /** Two words and a trailing space. */
  lemma TwoWords(d: string, e: string)
    requires IsWord(d) && IsWord(e)
    ensures Tokenize(d + " " + e + " ") == [d, e]
  {
    TokenizeEmpty();
    TokenizeWord(d);
    TokenizeWord(e);
    TokenizeSpace(d, e);
    TokenizeSpace(d + " " + e, "");
    assert d + " " + e + " " + "" == d + " " + e + " ";
    Pairs(d, e, "");
  }

  /** Three words separated by spaces. */
  lemma ThreeWords(a: string, b: string, c: string)
    requires IsWord(a) && IsWord(b) && IsWord(c)
    ensures Tokenize(a + " " + b + " " + c) == [a, b, c]
  {
    TokenizeWord(a);
    TokenizeWord(b);
    TokenizeWord(c);
    TokenizeSpace(a, b);
    TokenizeSpace(a + " " + b, c);
    Pairs(a, b, c);
  }

  lemma EmptyAround<T>(s: seq<T>)
    ensures [] + s == s && s + [] == s
  {
  }

  lemma Pairs<T>(a: T, b: T, c: T)
    ensures [a] + [b] + [] == [a, b] && [a] + [b] + [c] == [a, b, c]
  {
  }

  // ---------------------------------------------------------------- canvas size

  /** Python's `max` over a non-empty sequence: the largest element. */
  function Max(xs: seq<int>): (m: int)
    requires |xs| > 0
    ensures forall k :: 0 <= k < |xs| ==> xs[k] <= m
    ensures exists k :: 0 <= k < |xs| && xs[k] == m
  {
    if |xs| == 1 then xs[0]
    else
      var rest := Max(xs[1..]);
      if xs[0] >= rest then xs[0] else rest
  }

  /** Python's message when `max` is given nothing. */
  const EMPTY_MAX_MESSAGE: string := "max() arg is an empty sequence"

  /** `(max(w.right for w in layout), max(w.bottom for w in layout))`: the smallest canvas
      holding every box, and a `ValueError` when there are no boxes. */
  function CanvasSize(boxes: seq<Bounds>): (r: Result<(int, int)>)
    ensures r.Err? <==> |boxes| == 0
    ensures r.Err? ==> r.error == ValueError(EMPTY_MAX_MESSAGE)
    ensures r.Ok? ==> forall k :: 0 <= k < |boxes| ==>
      boxes[k].Right() <= r.value.0 && boxes[k].Bottom() <= r.value.1
    ensures r.Ok? ==> exists k :: 0 <= k < |boxes| && boxes[k].Right() == r.value.0
    ensures r.Ok? ==> exists k :: 0 <= k < |boxes| && boxes[k].Bottom() == r.value.1
  {
    if |boxes| == 0 then Err(ValueError(EMPTY_MAX_MESSAGE))
    else Ok((Max(Rights(boxes)), Max(Bottoms(boxes))))
  }

  /** The right edge of every box. */
  function Rights(boxes: seq<Bounds>): (rights: seq<int>)
    ensures |rights| == |boxes| && forall k :: 0 <= k < |boxes| ==> rights[k] == boxes[k].Right()
  {
    if |boxes| == 0 then [] else [boxes[0].Right()] + Rights(boxes[1..])
  }

  /** The bottom edge of every box. */
  function Bottoms(boxes: seq<Bounds>): (bottoms: seq<int>)
    ensures |bottoms| == |boxes| && forall k :: 0 <= k < |boxes| ==> bottoms[k] == boxes[k].Bottom()
  {
    if |boxes| == 0 then [] else [boxes[0].Bottom()] + Bottoms(boxes[1..])
  }

  // ---------------------------------------------------------------- word colour

  /** `__get_word_hash`: the sum of the code points of the word. */
  function WordHash(word: string): nat {
    if |word| == 0 then 0 else word[0] as nat + WordHash(word[1..])
  }

  /** The colour of the word table, or else the palette colour its hash picks. */
  function LookupColor(word: string): Color {
    if word in KNOWN_WORDS_TO_COLOR then KNOWN_WORDS_TO_COLOR[word]
    else PALETTE_VALUES[WordHash(word) % |PALETTE_VALUES|]
  }

  /** `__get_word_color`: (text colour, tile colour). A word with an upper-case first letter
      is drawn in the background colour on a tile of its lookup colour; any other word the
      other way round. */
  function WordColor(word: string, background: Color): (colors: (Color, Color))
    requires |word| > 0
  {
    if IsUpperLetter(word[0]) then (background, LookupColor(word)) else (LookupColor(word), background)
  }

  /** A word's lookup colour is always white or a palette colour: the table only names
      palette colours and white, and the hash always picks a palette entry. */
  lemma LookupColorInPalette(word: string)
    ensures LookupColor(word) in PALETTE_VALUES || LookupColor(word) == COLOR_WHITE
  {
    if word in KNOWN_WORDS_TO_COLOR {
      KnownWordColorsFromPalette(word);
    }
  }

  /** One of the two colours is the background: the text for a capitalised word, the tile
      for any other; the other one is the lookup colour. */
  lemma WordColorChoice(word: string, background: Color)
    requires |word| > 0
    ensures var (text, tile) := WordColor(word, background);
      && (IsUpperLetter(word[0]) ==> text == background && tile == LookupColor(word))
      && (!IsUpperLetter(word[0]) ==> text == LookupColor(word) && tile == background)
      && (text == background || tile == background)
  {
  }

  /** "baba" and "is" are drawn in their colour on the background; "You" the other way round. */
  lemma WordColorExamples(background: Color)
    ensures WordColor("baba", background) == (RED, background)
    ensures WordColor("is", background) == (COLOR_WHITE, background)
  {
  }

  /** "You" starts with a capital, so its tile carries the colour of "You" in the table. */
  lemma CapitalWordColorExample(background: Color)
    ensures WordColor("You", background) == (background, RED)
  {
  }

  /** The hash of two glued words is the sum of their hashes. */
  lemma {:induction false} WordHashAppend(a: string, b: string)
    ensures WordHash(a + b) == WordHash(a) + WordHash(b)
  {
    if |a| > 0 {
      assert (a + b)[0] == a[0] && (a + b)[1..] == a[1..] + b;
      WordHashAppend(a[1..], b);
    } else {
      assert a + b == b;
    }
  }

  /** The five arguments `AnimatedText` hands to `AnimatedWord` for one word. */
  datatype WordArguments = WordArguments(word: string, box: Bounds, first: Color, second: Color, background: Color)

  /** `zip(words, layout)` with each word's two colours and the background colour. */
  function WordCalls(words: seq<string>, layout: seq<Bounds>, background: Color): (calls: seq<WordArguments>)
    requires forall k :: 0 <= k < |words| ==> |words[k]| > 0
    ensures |calls| == if |words| <= |layout| then |words| else |layout|
    ensures forall k :: 0 <= k < |calls| ==>
      calls[k] == WordArguments(words[k], layout[k], WordColor(words[k], background).0,
                                WordColor(words[k], background).1, background)
  {
    if |words| == 0 || |layout| == 0 then []
    else
      var (first, second) := WordColor(words[0], background);
      [WordArguments(words[0], layout[0], first, second, background)]
        + WordCalls(words[1..], layout[1..], background)
  }

  /** Word `k` of the text gets the square of cell `k`, and no word is dropped by `zip`. */
  lemma WordsGetTheirCells(text: string, background: Color)
    ensures forall t :: t in RemoveControlSequences(Tokenize(text)) ==> |t| > 0
    ensures |RemoveControlSequences(Tokenize(text))| == |LayoutCells(Tokenize(text))|
    ensures |WordCalls(RemoveControlSequences(Tokenize(text)), SpriteBoxes(LayoutCells(Tokenize(text))), background)|
      == |RemoveControlSequences(Tokenize(text))|
  {
    TokensAreWords(text);
    OneCellPerWord(Tokenize(text), 0, 0);
  }

  /** The squares of a sequence of cells. */
  function SpriteBoxes(cells: seq<(int, int)>): (boxes: seq<Bounds>)
    ensures |boxes| == |cells| && forall k :: 0 <= k < |cells| ==> boxes[k] == SpriteBox(cells[k])
  {
    if |cells| == 0 then [] else [SpriteBox(cells[0])] + SpriteBoxes(cells[1..])
  }

  // ---------------------------------------------------------------- the animated text

  /** Whether a box lies inside a canvas of `size` = (width, height). */
  predicate InCanvas(b: Bounds, size: (int, int)) {
    0 <= b.top && b.Bottom() <= size.1 && 0 <= b.left && b.Right() <= size.0
  }

  /** The cursor of an animation with `n` sprites went from `before` to `after` in `times` steps. */
  ghost predicate SteppedTimes(n: nat, before: nat, after: nat, times: nat)
    decreases times
  {
    if times == 0 then after == before
    else exists mid: nat :: SteppedTimes(n, before, mid, times - 1) && SteppedFrom(n, mid, after)
  }

  lemma StepOnceMore(n: nat, before: nat, mid: nat, after: nat, times: nat)
    requires SteppedTimes(n, before, mid, times) && SteppedFrom(n, mid, after)
    ensures SteppedTimes(n, before, after, times + 1)
  {
  }


  /** The bounds of each rectangle. */
  function BoundsOf(rects: seq<Rect>): (boxes: seq<Bounds>)
    reads rects
    ensures |boxes| == |rects| && forall k :: 0 <= k < |rects| ==> boxes[k] == rects[k].Value()
  {
    if |rects| == 0 then [] else [rects[0].Value()] + BoundsOf(rects[1..])
  }

  /** Every square of a layout lies on the canvas `CanvasSize` computes, which is at least
      one square wide and high. */
  lemma LayoutFitsCanvas(tokens: seq<string>, boxes: seq<Bounds>, size: (int, int))
    requires boxes == SpriteBoxes(LayoutCells(tokens))
    requires CanvasSize(boxes) == Ok(size)
    ensures forall k :: 0 <= k < |boxes| ==> InCanvas(boxes[k], size)
    ensures size.0 >= SPRITE_SIZE && size.1 >= SPRITE_SIZE
  {
    CellsNonNegative(tokens, 0, 0);
    assert boxes[0].Right() <= size.0 && boxes[0].Bottom() <= size.1;
  }

  /** What the constructor of `AnimatedText` computes before it builds the words. */
  datatype Prepared = Prepared(tokens: seq<string>, layout: seq<Rect>, size: (int, int))

  /**
   * `AnimatedText(text, background_color)` up to the words: the text must not be empty, it is
   * tokenized and laid out, and the canvas is the smallest holding every square, which fails
   * when the text has no word at all.
   */
  method Prepare(text: string) returns (r: Result<Prepared>)
    ensures |text| == 0 ==> r == Err(AssertionError("Text must not be empty"))
    ensures |text| > 0 && |RemoveControlSequences(Tokenize(text))| == 0 ==>
      r == Err(ValueError(EMPTY_MAX_MESSAGE))
    ensures r.Ok? <==> |text| > 0 && |RemoveControlSequences(Tokenize(text))| > 0
    ensures r.Ok? ==> r.value.tokens == Tokenize(text) && LaidOut(r.value)
    ensures r.Ok? ==> forall k :: 0 <= k < |r.value.layout| ==> fresh(r.value.layout[k])
  {
    if |text| == 0 {
      return Err(AssertionError("Text must not be empty"));
    }
    r := LayOut(Tokenize(text));
  }

  /** `boxes` are the squares of the cells of `tokens`, one per word, and `size` is the canvas
      `CanvasSize` computes for them; every square lies on it. */
  predicate LayoutOf(tokens: seq<string>, boxes: seq<Bounds>, size: (int, int)) {
    && |LayoutCells(tokens)| == |RemoveControlSequences(tokens)|
    && boxes == SpriteBoxes(LayoutCells(tokens))
    && CanvasSize(boxes) == Ok(size)
    && (forall k :: 0 <= k < |boxes| ==> InCanvas(boxes[k], size))
    && size.0 >= SPRITE_SIZE && size.1 >= SPRITE_SIZE
  }

  /** The rectangles of `p` hold the layout of its tokens on a canvas of `p.size`. */
  ghost predicate LaidOut(p: Prepared)
    reads p.layout
  {
    LayoutOf(p.tokens, BoundsOf(p.layout), p.size)
  }

  /** Lines 33-37 of the constructor: the layout of the tokens and the canvas size. */
  method LayOut(tokens: seq<string>) returns (r: Result<Prepared>)
    ensures r.Err? <==> |RemoveControlSequences(tokens)| == 0
    ensures r.Err? ==> r.error == ValueError(EMPTY_MAX_MESSAGE)
    ensures r.Ok? ==> r.value.tokens == tokens && LaidOut(r.value)
    ensures r.Ok? ==> forall k :: 0 <= k < |r.value.layout| ==> fresh(r.value.layout[k])
  {
    var layout := GenerateWordLayout(tokens);
    OneCellPerWord(tokens, 0, 0);
    var boxes := BoundsOf(layout);
    assert boxes == SpriteBoxes(LayoutCells(tokens));
    match CanvasSize(boxes) {
      case Err(e) =>
        return Err(e);
      case Ok(size) =>
        LayoutFitsCanvas(tokens, boxes, size);
        return Ok(Prepared(tokens, layout, size));
    }
  }

  /** `AnimatedText`: the tokens, the background colour, the canvas size and the words. */
  class AnimatedText {
    const tokens: seq<string>
    const backgroundColor: Color
    const size: (int, int)
    const words: seq<AnimatedWord>
    /** The tiles and letters of all words. */
    ghost const objects: set<AnimatedObject>
    /** Their boxes. */
    ghost const boxes: set<Rect>
    /** The bounds of those boxes: the canvas area the words paint. */
    ghost const areas: set<Bounds>

    /** Every word lies on the canvas, and no two words share a tile or letter. */
    ghost predicate Placed()
      reads this, boxes
    {
      && size.0 >= 0 && size.1 >= 0
      && objects == AllObjects(words)
      && (forall k :: 0 <= k < |words| ==> words[k].Objects() <= objects)
      && (forall k1, k2 :: 0 <= k1 < |words| && 0 <= k2 < |words| && k1 != k2 ==>
            words[k1].Objects() !! words[k2].Objects())
      && (forall o :: o in objects ==> o.box in boxes && o.box.Value() == o.bounds)
      && areas == (set o | o in objects :: o.box.Value())
      && (forall o :: o in objects ==> InCanvas(o.box.Value(), size))
    }

    /** Every word is valid: its tile and letters each show one of their sprites. */
    ghost predicate Animated()
      reads this, words, objects
    {
      forall k :: 0 <= k < |words| ==> words[k].Objects() <= objects && words[k].Valid()
    }

    ghost predicate Valid()
      reads this, words, objects, boxes
    {
      Placed() && Animated()
    }

    constructor (tokens: seq<string>, backgroundColor: Color, size: (int, int),
                 words: seq<AnimatedWord>, ghost objects: set<AnimatedObject>, ghost boxes: set<Rect>,
                 ghost areas: set<Bounds>)
      ensures this.tokens == tokens && this.backgroundColor == backgroundColor
      ensures this.size == size && this.words == words
      ensures this.objects == objects && this.boxes == boxes && this.areas == areas
    {
      this.tokens := tokens;
      this.backgroundColor := backgroundColor;
      this.size := size;
      this.words := words;
      this.objects := objects;
      this.boxes := boxes;
      this.areas := areas;
    }

    /** Pixel (i, j) lies under no tile and no letter. */
    ghost predicate Blank(i: int, j: int) {
      forall b :: b in areas ==> !b.Covers(i, j)
    }

    /** The GIF disposal: transparent exactly when the background is not fully opaque. */
    function GifDisposal(fullAlpha: byte): (d: Disposal)
      ensures d == DisposalTransparent <==> backgroundColor.a != fullAlpha
    {
      if backgroundColor.a != fullAlpha then DisposalTransparent else DisposalSolid
    }

    /**
     * `write_raw_frames`: `ANIMATION_FRAME_COUNT` fresh buffers of the canvas size. Frame `f` is
     * the background colour with every word drawn over it, in order, each tile and letter
     * showing the sprite `shown[f]` gives it: `shown[0]` are the cursors before the call, and
     * every tile and letter steps once from one frame to the next and after the last. Pixels no
     * word covers stay the background colour.
     */
    method WriteRawFrames() returns (frames: seq<array2<Color>>, ghost shown: seq<map<AnimatedObject, nat>>)
      requires Valid()
      modifies objects
      ensures Valid()
      ensures |frames| == ANIMATION_FRAME_COUNT
      ensures forall f :: 0 <= f < |frames| ==>
        fresh(frames[f]) && frames[f].Length0 == size.1 && frames[f].Length1 == size.0
      ensures forall f, g :: 0 <= f < g < |frames| ==> frames[f] != frames[g]
      ensures |shown| == ANIMATION_FRAME_COUNT && shown[0] == old(Cursors(objects))
      ensures forall f :: 0 <= f < |shown| ==> shown[f].Keys == objects && Showable(FrameLayers(words), shown[f])
      ensures forall f, i, j :: 0 <= f < |frames| && 0 <= i < size.1 && 0 <= j < size.0 ==>
        frames[f][i, j] == Over(Picture(FrameLayers(words), shown[f]), i, j, backgroundColor)
      ensures forall f, o :: 0 < f < |shown| && o in objects ==>
        SteppedFrom(|o.sprites|, shown[f - 1][o], shown[f][o])
      ensures forall o :: o in objects ==> SteppedFrom(|o.sprites|, shown[|shown| - 1][o], o.cursor)
      ensures forall f, i, j :: 0 <= f < |frames| && 0 <= i < size.1 && 0 <= j < size.0 && Blank(i, j) ==>
        frames[f][i, j] == backgroundColor
      ensures forall o :: o in objects ==>
        SteppedTimes(|o.sprites|, old(o.cursor), o.cursor, |frames|)
    {
      ghost var start;
      frames, shown, start := RenderFrames();
      assert forall f :: 0 <= f < |frames| ==> frames[f] in frames;
      ShownStepsEach(shown, start);
      FramesShowEach(frames, shown);
    }

    /** The loop of `write_raw_frames`: `ANIMATION_FRAME_COUNT` fresh, distinct frames,
        `Rendered` from the cursors the objects had at the start. */
    method RenderFrames() returns (frames: seq<array2<Color>>, ghost shown: seq<map<AnimatedObject, nat>>,
                                   ghost start: map<AnimatedObject, nat>)
      requires Valid()
      modifies objects
      ensures start == old(Cursors(objects))
      ensures Rendered(frames, shown, start) && |frames| == ANIMATION_FRAME_COUNT
      ensures (forall a :: a in frames ==> fresh(a)) && Distinct(frames)
    {
      start := Cursors(objects);
      frames, shown := [], [];
      for f := 0 to ANIMATION_FRAME_COUNT
        invariant Rendered(frames, shown, start) && |frames| == f
        invariant forall a :: a in frames ==> fresh(a)
        invariant Distinct(frames)
      {
        var screen;
        ghost var cursors;
        screen, cursors := RenderNext(shown, start);
        FramesShowAppend(frames, shown, screen, cursors);
        DistinctAppend(frames, screen);
        frames, shown := frames + [screen], shown + [cursors];
      }
    }

    /** The frames drawn so far, at the cursors `shown` records, starting from `start`. */
    ghost predicate Rendered(frames: seq<array2<Color>>, shown: seq<map<AnimatedObject, nat>>,
                             start: map<AnimatedObject, nat>)
      reads this, boxes, words, objects, set g | 0 <= g < |frames| :: frames[g]
    {
      Valid() && FramesShow(frames, shown) && ShownSteps(shown, start)
    }

    /** Frame `g` is a canvas-sized buffer that `Shows` the cursors `shown[g]` records. */
    ghost predicate FramesShow(frames: seq<array2<Color>>, shown: seq<map<AnimatedObject, nat>>)
      reads set g | 0 <= g < |frames| :: frames[g]
    {
      && |frames| == |shown|
      && forall g :: 0 <= g < |frames| ==> Shows(frames[g], shown[g])
    }

    /** `screen` shows every word over the background, each tile and letter showing the
        sprite `cursors` gives it; pixels no word covers are the background. */
    ghost predicate Shows(screen: array2<Color>, cursors: map<AnimatedObject, nat>)
      reads screen
    {
      && screen.Length0 == size.1 && screen.Length1 == size.0
      && cursors.Keys == objects && Showable(FrameLayers(words), cursors)
      && (forall i, j :: 0 <= i < size.1 && 0 <= j < size.0 ==>
            screen[i, j] == Over(Picture(FrameLayers(words), cursors), i, j, backgroundColor))
      && (forall i, j :: 0 <= i < size.1 && 0 <= j < size.0 && Blank(i, j) ==>
            screen[i, j] == backgroundColor)
    }

    /** What `FramesShow` says, pixel by pixel. */
    lemma FramesShowEach(frames: seq<array2<Color>>, shown: seq<map<AnimatedObject, nat>>)
      requires FramesShow(frames, shown)
      ensures forall f :: 0 <= f < |frames| ==>
        frames[f].Length0 == size.1 && frames[f].Length1 == size.0
      ensures forall f :: 0 <= f < |shown| ==> shown[f].Keys == objects && Showable(FrameLayers(words), shown[f])
      ensures forall f, i, j :: 0 <= f < |frames| && 0 <= i < size.1 && 0 <= j < size.0 ==>
        frames[f][i, j] == Over(Picture(FrameLayers(words), shown[f]), i, j, backgroundColor)
      ensures forall f, i, j :: 0 <= f < |frames| && 0 <= i < size.1 && 0 <= j < size.0 && Blank(i, j) ==>
        frames[f][i, j] == backgroundColor
    {
      forall f, i, j | 0 <= f < |frames| && 0 <= i < size.1 && 0 <= j < size.0
        ensures frames[f][i, j] == Over(Picture(FrameLayers(words), shown[f]), i, j, backgroundColor)
      {
        assert Shows(frames[f], shown[f]);
      }
    }

    /** `shown` records the cursors frame by frame since `start`; the objects have stepped
        once more since the last record, `|shown|` times in all. */
    ghost predicate ShownSteps(shown: seq<map<AnimatedObject, nat>>, start: map<AnimatedObject, nat>)
      reads objects
    {
      && Recorded(shown, start)
      && (|shown| > 0 ==> forall o :: o in objects ==> SteppedFrom(|o.sprites|, shown[|shown| - 1][o], o.cursor))
      && (forall o :: o in objects ==> SteppedTimes(|o.sprites|, start[o], o.cursor, |shown|))
    }

    /** What `ShownSteps` says, object by object. */
    lemma ShownStepsEach(shown: seq<map<AnimatedObject, nat>>, start: map<AnimatedObject, nat>)
      requires ShownSteps(shown, start) && |shown| > 0
      ensures shown[0] == start
      ensures forall f :: 0 <= f < |shown| ==> shown[f].Keys == objects
      ensures forall f, o :: 0 < f < |shown| && o in objects ==>
        SteppedFrom(|o.sprites|, shown[f - 1][o], shown[f][o])
      ensures forall o :: o in objects ==> SteppedFrom(|o.sprites|, shown[|shown| - 1][o], o.cursor)
      ensures forall o :: o in objects ==> o in start && SteppedTimes(|o.sprites|, start[o], o.cursor, |shown|)
    {
    }

    /** `shown` starts at `start`, and every object steps once from each record to the next. */
    ghost predicate Recorded(shown: seq<map<AnimatedObject, nat>>, start: map<AnimatedObject, nat>) {
      && start.Keys == objects
      && (|shown| > 0 ==> shown[0] == start)
      && (forall g :: 0 <= g < |shown| ==> shown[g].Keys == objects)
      && (forall g, o :: 0 < g < |shown| && o in objects ==>
            SteppedFrom(|o.sprites|, shown[g - 1][o], shown[g][o]))
    }

    /** Recording the cursors the objects have extends `shown`, and they have stepped
        `|shown|` times since `start`. */
    lemma RecordCursors(shown: seq<map<AnimatedObject, nat>>, start: map<AnimatedObject, nat>,
                        cursors: map<AnimatedObject, nat>)
      requires ShownSteps(shown, start) && cursors == Cursors(objects)
      ensures Recorded(shown + [cursors], start)
      ensures forall o :: o in objects ==> SteppedTimes(|o.sprites|, start[o], cursors[o], |shown|)
    {
      if |shown| == 0 {
        forall o | o in objects
          ensures cursors[o] == start[o]
        {
          assert SteppedTimes(|o.sprites|, start[o], o.cursor, 0);
        }
      }
      RecordedAppend(shown, start, cursors);
    }

    /** A record one step on from the last (or `start` itself, for the first) extends `shown`. */
    lemma RecordedAppend(shown: seq<map<AnimatedObject, nat>>, start: map<AnimatedObject, nat>,
                         cursors: map<AnimatedObject, nat>)
      requires Recorded(shown, start) && cursors.Keys == objects
      requires |shown| == 0 ==> cursors == start
      requires |shown| > 0 ==> forall o :: o in objects ==> SteppedFrom(|o.sprites|, shown[|shown| - 1][o], cursors[o])
      ensures Recorded(shown + [cursors], start)
    {
      var shown' := shown + [cursors];
      forall g, o | 0 < g < |shown'| && o in objects
        ensures SteppedFrom(|o.sprites|, shown'[g - 1][o], shown'[g][o])
      {
        if g < |shown| {
          assert shown'[g - 1] == shown[g - 1] && shown'[g] == shown[g];
        }
      }
    }

    /** Once every object has stepped from the cursors last recorded, `shown` is up to date
        again, one more step in all. */
    lemma SteppedSinceRecord(shown: seq<map<AnimatedObject, nat>>, start: map<AnimatedObject, nat>,
                             cursors: map<AnimatedObject, nat>)
      requires Recorded(shown + [cursors], start) && cursors.Keys == objects
      requires forall o :: o in objects ==> SteppedTimes(|o.sprites|, start[o], cursors[o], |shown|)
      requires forall o :: o in objects ==> SteppedFrom(|o.sprites|, cursors[o], o.cursor)
      ensures ShownSteps(shown + [cursors], start)
    {
      forall o | o in objects
        ensures SteppedTimes(|o.sprites|, start[o], o.cursor, |shown| + 1)
      {
        StepOnceMore(|o.sprites|, start[o], cursors[o], o.cursor, |shown|);
      }
      assert (shown + [cursors])[|shown|] == cursors;
    }

    /** One turn of the loop in `write_raw_frames`: a fresh frame that `Shows` the cursors the
        objects have, `cursors`, after which each object has stepped once more. */
    method RenderNext(ghost shown: seq<map<AnimatedObject, nat>>, ghost start: map<AnimatedObject, nat>)
      returns (screen: array2<Color>, ghost cursors: map<AnimatedObject, nat>)
      requires Valid() && ShownSteps(shown, start)
      modifies objects
      ensures Valid() && fresh(screen) && Shows(screen, cursors)
      ensures ShownSteps(shown + [cursors], start)
    {
      cursors := Cursors(objects);
      RecordCursors(shown, start, cursors);
      screen := RenderFrame();
      SteppedSinceRecord(shown, start, cursors);
    }

    /** A frame that shows every word at `cursors` extends the frames drawn so far. */
    lemma FramesShowAppend(frames: seq<array2<Color>>, shown: seq<map<AnimatedObject, nat>>,
                           screen: array2<Color>, cursors: map<AnimatedObject, nat>)
      requires FramesShow(frames, shown) && Shows(screen, cursors)
      ensures FramesShow(frames + [screen], shown + [cursors])
    {
      var frames', shown' := frames + [screen], shown + [cursors];
      forall g | 0 <= g < |frames'|
        ensures Shows(frames'[g], shown'[g])
      {
        if g < |frames| {
          assert frames'[g] == frames[g] && shown'[g] == shown[g];
        }
      }
    }

    /** One frame: a fresh buffer filled with the background colour, then every word drawn
        over it, in order, at the cursors the frame starts with. */
    method RenderFrame() returns (screen: array2<Color>)
      requires Valid()
      modifies objects
      ensures Valid()
      ensures fresh(screen) && screen.Length0 == size.1 && screen.Length1 == size.0
      ensures Showable(FrameLayers(words), old(Cursors(objects)))
      ensures forall i, j :: 0 <= i < size.1 && 0 <= j < size.0 ==>
        screen[i, j] == Over(Picture(FrameLayers(words), old(Cursors(objects))), i, j, backgroundColor)
      ensures forall i, j :: 0 <= i < size.1 && 0 <= j < size.0 && Blank(i, j) ==>
        screen[i, j] == backgroundColor
      ensures forall o :: o in objects ==> SteppedFrom(|o.sprites|, old(o.cursor), o.cursor)
    {
      screen := Filled(size.1, size.0, backgroundColor);
      PaintFrame(screen);
    }

    /** The body of the frame loop: every word is drawn on `screen`, then advanced; so the
        screen ends as every tile and letter painted over it, in order, at the cursors they
        had before. */
    method PaintFrame(screen: array2<Color>)
      requires Valid()
      requires screen.Length0 == size.1 && screen.Length1 == size.0
      modifies screen, objects
      ensures Valid()
      ensures Showable(FrameLayers(words), old(Cursors(objects)))
      ensures forall i, j :: 0 <= i < size.1 && 0 <= j < size.0 ==>
        screen[i, j] == Over(Picture(FrameLayers(words), old(Cursors(objects))), i, j, old(screen[i, j]))
      ensures forall i, j :: 0 <= i < size.1 && 0 <= j < size.0 && Blank(i, j) ==>
        screen[i, j] == old(screen[i, j])
      ensures forall o :: o in objects ==> SteppedFrom(|o.sprites|, old(o.cursor), o.cursor)
    {
      ghost var start := Cursors(objects);
      ghost var before := Contents(screen);
      PaintingStarts(screen, start, before);
      for k := 0 to |words|
        invariant Painting(k, AllObjects(words[..k]), screen, start, before)
      {
        ghost var done := AllObjects(words[..k]);
        PrefixObjects(words, k);
        PaintWord(k, screen, start, before, done);
        StepWord(k, screen, start, before, done);
      }
      assert words[..|words|] == words;
      PaintingEnds(screen, start, before);
    }

    /** Part way through a frame: the first `drawn` words are painted on `before` at the
        cursors `start` records, the objects in `done` have stepped and the others keep
        the cursors `start` records. */
    ghost predicate Painting(drawn: nat, done: set<AnimatedObject>, screen: array2<Color>,
                             start: map<AnimatedObject, nat>, before: Raster)
      reads this, boxes, words, objects, screen
    {
      && drawn <= |words| && Placed() && Animated()
      && Drawn(drawn, screen, start, before)
      && Stepped(done, start)
    }

    /** The first `drawn` words are painted on `before` at the cursors `start` records. */
    ghost predicate Drawn(drawn: nat, screen: array2<Color>, start: map<AnimatedObject, nat>, before: Raster)
      requires drawn <= |words|
      reads screen
    {
      && screen.Length0 == size.1 && screen.Length1 == size.0
      && IsRaster(before, size.1, size.0)
      && (forall m :: 0 <= m < |words| ==> Showable(words[m].Layers(), start))
      && Showable(FrameLayers(words[..drawn]), start)
      && (forall i, j :: 0 <= i < size.1 && 0 <= j < size.0 ==>
            screen[i, j] == Over(Picture(FrameLayers(words[..drawn]), start), i, j, before[i][j]))
    }

    /** The objects in `done` have stepped once since `start`; the others have the
        cursors `start` records. */
    ghost predicate Stepped(done: set<AnimatedObject>, start: map<AnimatedObject, nat>)
      reads objects
    {
      forall o :: o in objects ==>
        o in start && if o in done then SteppedFrom(|o.sprites|, start[o], o.cursor) else o.cursor == start[o]
    }

    /** Before the first word: nothing is painted and nothing has stepped. */
    lemma PaintingStarts(screen: array2<Color>, start: map<AnimatedObject, nat>, before: Raster)
      requires Valid()
      requires screen.Length0 == size.1 && screen.Length1 == size.0
      requires start == Cursors(objects) && before == Contents(screen)
      ensures Painting(0, {}, screen, start, before)
    {
      forall m | 0 <= m < |words|
        ensures Showable(words[m].Layers(), start)
      {
        WordShowable(words[m], start);
      }
      assert words[..0] == [];
    }

    /** After the last word: the frame shows every word's picture over `before`, leaves
        blank pixels as they were and has stepped every object. */
    lemma PaintingEnds(screen: array2<Color>, start: map<AnimatedObject, nat>, before: Raster)
      requires Painting(|words|, objects, screen, start, before)
      ensures Valid()
      ensures Showable(FrameLayers(words), start)
      ensures forall i, j :: 0 <= i < size.1 && 0 <= j < size.0 ==>
        screen[i, j] == Over(Picture(FrameLayers(words), start), i, j, before[i][j])
      ensures forall i, j :: 0 <= i < size.1 && 0 <= j < size.0 && Blank(i, j) ==>
        screen[i, j] == before[i][j]
      ensures forall o :: o in objects ==> o in start && SteppedFrom(|o.sprites|, start[o], o.cursor)
    {
      assert words[..|words|] == words;
      FrameLayersOwned(words, objects);
      forall i, j | 0 <= i < size.1 && 0 <= j < size.0 && Blank(i, j)
        ensures screen[i, j] == before[i][j]
      {
        OverUncovered(Picture(FrameLayers(words), start), i, j, before[i][j]);
      }
    }

    /** `word.draw(screen)` in the frame loop: word `k` is painted over the first `k`
        words at the cursors `start` records. */
    method PaintWord(k: nat, screen: array2<Color>, ghost start: map<AnimatedObject, nat>,
                     ghost before: Raster, ghost done: set<AnimatedObject>)
      requires Painting(k, done, screen, start, before) && k < |words|
      requires done !! words[k].Objects()
      modifies screen
      ensures Painting(k + 1, done, screen, start, before)
    {
      ghost var mid := Contents(screen);
      assert Drawn(k, screen, start, before);
      DrawWord(k, screen, start);
      DrawnNext(k, screen, start, before, mid);
      assert Stepped(done, start);
    }

    /** Word `k` painted over the first `k` words gives the first `k + 1`. */
    lemma DrawnNext(k: nat, screen: array2<Color>, start: map<AnimatedObject, nat>, before: Raster, mid: Raster)
      requires k < |words| && IsRaster(before, size.1, size.0) && IsRaster(mid, size.1, size.0)
      requires forall m :: 0 <= m < |words| ==> Showable(words[m].Layers(), start)
      requires Showable(FrameLayers(words[..k]), start)
      requires forall i, j :: 0 <= i < size.1 && 0 <= j < size.0 ==>
        mid[i][j] == Over(Picture(FrameLayers(words[..k]), start), i, j, before[i][j])
      requires screen.Length0 == size.1 && screen.Length1 == size.0
      requires forall i, j :: 0 <= i < size.1 && 0 <= j < size.0 ==>
        screen[i, j] == Over(Picture(words[k].Layers(), start), i, j, mid[i][j])
      ensures Drawn(k + 1, screen, start, before)
    {
      var painted, drawn := Picture(FrameLayers(words[..k]), start), Picture(words[k].Layers(), start);
      FramePrefix(words, k, start);
      forall i, j | 0 <= i < size.1 && 0 <= j < size.0
        ensures screen[i, j] == Over(painted + drawn, i, j, before[i][j])
      {
        OverConcat(painted, drawn, i, j, before[i][j]);
      }
    }

    /** `word.advance_animation()` in the frame loop: word `k`'s tile and letters, which
        have not stepped yet, step once. */
    method StepWord(k: nat, screen: array2<Color>, ghost start: map<AnimatedObject, nat>,
                    ghost before: Raster, ghost done: set<AnimatedObject>)
      requires Painting(k + 1, done, screen, start, before) && k < |words|
      requires done !! words[k].Objects()
      modifies words[k].tile, words[k].letters
      ensures Painting(k + 1, done + words[k].Objects(), screen, start, before)
    {
      AdvanceWord(k);
      assert Drawn(k + 1, screen, start, before);
    }

    /** `word.draw(screen)` for word `k`: its tile and letters are painted in order
        (`AnimatedWord.Draw`) at the cursors they have, which `cursors` records. */
    method DrawWord(k: nat, screen: array2<Color>, ghost cursors: map<AnimatedObject, nat>)
      requires Placed() && Animated() && k < |words|
      requires screen.Length0 == size.1 && screen.Length1 == size.0
      requires forall o: AnimatedObject :: Owns(words[k], o) ==> o in cursors && cursors[o] == o.cursor
      modifies screen
      ensures Showable(words[k].Layers(), cursors)
      ensures forall i, j :: 0 <= i < size.1 && 0 <= j < size.0 ==>
        screen[i, j] == Over(Picture(words[k].Layers(), cursors), i, j, old(screen[i, j]))
    {
      var w := words[k];
      assert w.tile.FitsIn(screen);
      assert forall m :: 0 <= m < |w.letters| ==> w.letters[m] in objects;
      w.Draw(screen, cursors);
    }

    /** `word.advance_animation()` for word `k`: its tile and letters step once, the other
        words keep their state. */
    method AdvanceWord(k: nat)
      requires Placed() && Animated() && k < |words|
      modifies words[k].tile, words[k].letters
      ensures Animated()
      ensures forall o :: o in words[k].Objects() ==> SteppedFrom(|o.sprites|, old(o.cursor), o.cursor)
      ensures forall o :: o in objects && o !in words[k].Objects() ==> o.cursor == old(o.cursor)
    {
      words[k].AdvanceAnimation();
    }
  }

  /** The tiles and letters of all of `ws`. */
  ghost function AllObjects(ws: seq<AnimatedWord>): set<AnimatedObject> {
    if |ws| == 0 then {} else ws[0].Objects() + AllObjects(ws[1..])
  }

  lemma {:induction false} WordObjectsInAll(ws: seq<AnimatedWord>, k: nat)
    requires k < |ws|
    ensures ws[k].Objects() <= AllObjects(ws)
  {
    if k > 0 {
      WordObjectsInAll(ws[1..], k - 1);
    }
  }

  /** The objects of the first `k + 1` words are those of the first `k` and word `k`'s,
      which no earlier word shares. */
  lemma {:induction false} PrefixObjects(ws: seq<AnimatedWord>, k: nat)
    requires k < |ws|
    requires forall k1, k2 :: 0 <= k1 < |ws| && 0 <= k2 < |ws| && k1 != k2 ==>
      ws[k1].Objects() !! ws[k2].Objects()
    ensures AllObjects(ws[..k + 1]) == AllObjects(ws[..k]) + ws[k].Objects()
    ensures AllObjects(ws[..k]) !! ws[k].Objects()
  {
    if k > 0 {
      PrefixObjects(ws[1..], k - 1);
      assert ws[..k + 1][1..] == ws[1..][..k];
      assert ws[..k][1..] == ws[1..][..k - 1];
    } else {
      assert ws[..1][1..] == [];
    }
  }

  lemma {:induction false} OwnerOf(ws: seq<AnimatedWord>, o: AnimatedObject) returns (k: nat)
    requires o in AllObjects(ws)
    ensures k < |ws| && o in ws[k].Objects()
  {
    if o in ws[0].Objects() {
      k := 0;
    } else {
      k := OwnerOf(ws[1..], o);
      k := k + 1;
    }
  }

  /** `o` is the tile or one of the letters of `w`. */
  ghost predicate Owns(w: AnimatedWord, o: AnimatedObject) {
    o in w.Objects()
  }

  /** The tiles and letters of `ws`, in the order a frame draws them. */
  ghost function FrameLayers(ws: seq<AnimatedWord>): seq<AnimatedObject> {
    if |ws| == 0 then [] else FrameLayers(ws[..|ws| - 1]) + ws[|ws| - 1].Layers()
  }

  /** A valid word whose cursors `cursors` records shows its tile and letters. */
  lemma WordShowable(w: AnimatedWord, cursors: map<AnimatedObject, nat>)
    requires w.Valid()
    requires forall o :: o in w.Objects() ==> o in cursors && cursors[o] == o.cursor
    ensures Showable(w.Layers(), cursors)
  {
    forall k | 0 <= k < |w.Layers()|
      ensures w.Layers()[k] in w.Objects()
    {
      if k > 0 {
        assert w.Layers()[k] == w.letters[k - 1];
      }
    }
  }

  /** No element of `s` appears twice. */
  ghost predicate Distinct<T>(s: seq<T>)
  {
    forall g, h :: 0 <= g < h < |s| ==> s[g] != s[h]
  }

  /** Appending an element not yet present keeps a sequence free of repeats. */
  lemma DistinctAppend<T>(s: seq<T>, x: T)
    requires Distinct(s) && x !in s
    ensures Distinct(s + [x])
  {
  }

  /** A frame's picture grows word by word: the first `k + 1` words show the first `k`
      words' picture with word `k`'s on top. */
  lemma FramePrefix(ws: seq<AnimatedWord>, k: nat, cursors: map<AnimatedObject, nat>)
    requires k < |ws|
    requires Showable(FrameLayers(ws[..k]), cursors) && Showable(ws[k].Layers(), cursors)
    ensures Showable(FrameLayers(ws[..k + 1]), cursors)
    ensures Picture(FrameLayers(ws[..k + 1]), cursors)
      == Picture(FrameLayers(ws[..k]), cursors) + Picture(ws[k].Layers(), cursors)
  {
    assert ws[..k + 1][..k] == ws[..k];
    PictureConcat(FrameLayers(ws[..k]), ws[k].Layers(), cursors);
  }

  /** Every tile and letter a frame draws is one of `objs` when every word's are. */
  lemma {:induction false} FrameLayersOwned(ws: seq<AnimatedWord>, objs: set<AnimatedObject>)
    requires forall k :: 0 <= k < |ws| ==> ws[k].Objects() <= objs
    ensures forall m :: 0 <= m < |FrameLayers(ws)| ==> FrameLayers(ws)[m] in objs
  {
    if |ws| > 0 {
      var init, w := ws[..|ws| - 1], ws[|ws| - 1];
      FrameLayersOwned(init, objs);
      forall m | 0 <= m < |FrameLayers(ws)|
        ensures FrameLayers(ws)[m] in objs
      {
        if m >= |FrameLayers(init)| {
          var n := m - |FrameLayers(init)|;
          assert FrameLayers(ws)[m] == w.Layers()[n];
          assert n == 0 || w.Layers()[n] == w.letters[n - 1];
        }
      }
    }
  }
}
