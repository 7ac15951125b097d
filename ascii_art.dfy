/**
 * animated_ascii_art.py: a picture turned into a grid of animated letters, one per block of
 * `pixels_per_character` x `pixels_per_character` pixels, the letter chosen from a colour
 * ramp by the luminance of the block.
 */
module AsciiArt {
  import opened Wrappers
  import opened Pixels
  import opened Geometry
  import opened Constants

  /** `1000 * 1 / ANIMATION_FPS`: the frame duration, in milliseconds, when none is given. */
  const DEFAULT_DURATION: real := 1000.0 / ANIMATION_FPS as real

  /** The character of the ramp that stands for an empty cell (`SPACE`). */
  const SPACE_CHAR: char := ' '

  /**
   * One frame of the opened picture: its size in pixels, the RGBA pixels PIL's resize to
   * `DownsampleSize(width, height, ppc)` hands back, and its `duration` entry, if any.
   */
  datatype SourceFrame = SourceFrame(width: nat, height: nat, resized: Raster, duration: Option<real>)

  /** The image library's message when asked to resize a picture to no pixels. */
  const EMPTY_RESIZE_MESSAGE: string := "height and width must be > 0"

  /** `info.get("duration", 1000 * 1 / ANIMATION_FPS)`. */
  function DurationOf(frame: SourceFrame): (d: real)
    ensures frame.duration.None? ==> d == DEFAULT_DURATION
    ensures frame.duration.Some? ==> d == frame.duration.value
  {
    match frame.duration
    case Some(ms) => ms
    case None => DEFAULT_DURATION
  }

  /**
   * `__load_image`'s target size (columns, rows): how many whole blocks of `ppc` pixels fit
   * across and down the picture.
   */
  function DownsampleSize(width: nat, height: nat, ppc: int): (size: (nat, nat))
    requires ppc > 0
    ensures size.0 * ppc <= width < (size.0 + 1) * ppc
    ensures size.1 * ppc <= height < (size.1 + 1) * ppc
  {
    (width / ppc, height / ppc)
  }

  // ---------------------------------------------------------------- pixel to character

  /** `math.ceil`. */
  function Ceil(x: real): (c: int)
    ensures c as real - 1.0 < x <= c as real
  {
    -((-x).Floor)
  }

  /** The smallest integer at or above `x` is at or below every integer at or above `y >= x`. */
  lemma CeilMonotone(x: real, y: real)
    requires x <= y
    ensures Ceil(x) <= Ceil(y)
  {
  }

  /**
   * The grey value of `__pixel_to_ascii`: 0.21 red + 0.72 green + 0.07 blue (the ITU-R BT.709
   * luma weights, rounded), and 0 for a fully transparent pixel.
   */
  function Luminance(p: Color): (g: real)
    ensures 0.0 <= g <= 255.0
    ensures p.a == 0 ==> g == 0.0
  {
    (0.21 * p.r as real + 0.72 * p.g as real + 0.07 * p.b as real) * (if p.a == 0 then 0.0 else 1.0)
  }

  /** `math.ceil((len(color_ramp) - 1) * greyscale / 255)`: a valid index of the ramp. */
  function RampIndex(g: real, len: nat): (i: int)
    requires len > 0 && 0.0 <= g <= 255.0
    ensures 0 <= i < len
  {
    var scaled := (len - 1) as real * g / 255.0;
    assert scaled <= (len - 1) as real by {
      assert (len - 1) as real * g <= (len - 1) as real * 255.0;
    }
    Ceil(scaled)
  }

  /** A brighter pixel never picks an earlier character of the ramp. */
  lemma RampIndexMonotone(g1: real, g2: real, len: nat)
    requires len > 0 && 0.0 <= g1 <= g2 <= 255.0
    ensures RampIndex(g1, len) <= RampIndex(g2, len)
  {
    assert (len - 1) as real * g1 <= (len - 1) as real * g2;
    CeilMonotone((len - 1) as real * g1 / 255.0, (len - 1) as real * g2 / 255.0);
  }

  /** `__pixel_to_ascii`: the ramp character for the luminance of `p`. */
  function PixelToAscii(p: Color, ramp: string): (c: char)
    requires |ramp| > 0
    ensures c in ramp
    ensures p.a == 0 ==> c == ramp[0]
  {
    ramp[RampIndex(Luminance(p), |ramp|)]
  }

  /** Opaque white picks the last character of the ramp, black the first. */
  lemma PixelToAsciiEnds(ramp: string)
    requires |ramp| > 0
    ensures PixelToAscii(Color(255, 255, 255, 255), ramp) == ramp[|ramp| - 1]
    ensures PixelToAscii(Color(0, 0, 0, 255), ramp) == ramp[0]
  {
  }

  // ---------------------------------------------------------------- letters and draw calls

  /** The four arguments of `AnimatedLetter(letter, box, text colour, background colour)`. */
  datatype LetterArguments = LetterArguments(letter: char, box: Bounds, first: Color, second: Color)

  /**
   * `available_letters`: one letter per character of the ramp other than the space, in its
   * default box and colours; a character repeated in the ramp gets a single letter.
   */
  function AvailableLetters(ramp: string, grey: Color, background: Color, letterWidth: int, letterHeight: int)
    : (letters: map<char, LetterArguments>)
    ensures forall c :: c in letters <==> c in ramp && c != SPACE_CHAR
    ensures forall c :: c in letters ==>
      letters[c] == LetterArguments(c, Bounds(0, 0, letterWidth, letterHeight), grey, background)
  {
    map c | c in ramp && c != SPACE_CHAR :: LetterArguments(c, Bounds(0, 0, letterWidth, letterHeight), grey, background)
  }

  /**
   * What the letter API is asked to do for one cell: the letter of cell (x, y) is moved to
   * `location` = (left, top), recoloured to `color` unless the art is greyscale, drawn, and
   * advanced from the cell's animation `state`.
   */
  datatype Call = Call(cell: (int, int), letter: char, location: (int, int), color: Option<Color>, state: int)

  /** The state a cell holds after one frame: a space keeps it, a letter's `advance_animation` replaces it. */
  function NextState(c: char, state: int, advance: (char, int) -> int): (next: int)
    ensures c == SPACE_CHAR ==> next == state
    ensures c != SPACE_CHAR ==> next == advance(c, state)
  {
    if c == SPACE_CHAR then state else advance(c, state)
  }

  /** `grid` has `rows` rows of `cols` entries each. */
  predicate Shaped<T>(grid: seq<seq<T>>, rows: int, cols: int) {
    |grid| == rows && forall x :: 0 <= x < |grid| ==> |grid[x]| == cols
  }

  /** The array `states` holds the grid `grid`, cell by cell. */
  ghost predicate HoldsGrid(states: array2<int>, grid: seq<seq<int>>)
    reads states
  {
    forall x, y :: 0 <= x < states.Length0 && 0 <= y < states.Length1 && x < |grid| && y < |grid[x]| ==>
      states[x, y] == grid[x][y]
  }

  /** The characters, pixels and states of one picture: three grids of the same shape. */
  predicate Aligned(art: seq<seq<char>>, pixels: Raster, states: seq<seq<int>>) {
    |art| == |pixels| == |states| && forall x :: 0 <= x < |art| ==> |art[x]| == |pixels[x]| == |states[x]|
  }

  /** Row-major order of cells. */
  predicate CellBefore(p: (int, int), q: (int, int)) {
    p.0 < q.0 || (p.0 == q.0 && p.1 < q.1)
  }

  /**
   * The call for cell (x, y): its letter goes to (left, top) = (y * H, x * H) (square cells of
   * the letter height, so the picture keeps its aspect ratio), takes the pixel's colour unless
   * the art is greyscale, and advances from the cell's state.
   */
  function CellCall(art: seq<seq<char>>, pixels: Raster, states: seq<seq<int>>, x: nat, y: nat,
                    letterHeight: int, greyscale: bool): (call: Call)
    requires Aligned(art, pixels, states) && x < |art| && y < |art[x]|
    ensures call.cell == (x, y) && call.letter == art[x][y] && call.state == states[x][y]
    ensures call.location == (y * letterHeight, x * letterHeight)
    ensures call.color == if greyscale then None else Some(pixels[x][y])
  {
    Call((x, y), art[x][y], (y * letterHeight, x * letterHeight),
         if greyscale then None else Some(pixels[x][y]), states[x][y])
  }

  /** The calls for the first `y` cells of row `x`: one per cell that is not a space. */
  function RowCalls(art: seq<seq<char>>, pixels: Raster, states: seq<seq<int>>, x: nat, y: nat,
                    letterHeight: int, greyscale: bool): (calls: seq<Call>)
    requires Aligned(art, pixels, states) && x < |art| && y <= |art[x]|
  {
    if y == 0 then []
    else
      RowCalls(art, pixels, states, x, y - 1, letterHeight, greyscale)
      + (if art[x][y - 1] == SPACE_CHAR then [] else [CellCall(art, pixels, states, x, y - 1, letterHeight, greyscale)])
  }

  /** The calls for the first `x` rows, row after row. */
  function GridCalls(art: seq<seq<char>>, pixels: Raster, states: seq<seq<int>>, x: nat,
                     letterHeight: int, greyscale: bool): (calls: seq<Call>)
    requires Aligned(art, pixels, states) && x <= |art|
  {
    if x == 0 then []
    else
      GridCalls(art, pixels, states, x - 1, letterHeight, greyscale)
      + RowCalls(art, pixels, states, x - 1, |art[x - 1]|, letterHeight, greyscale)
  }

  /** Every call is for a cell of the first `x` rows. */
  predicate InFirstRows(calls: seq<Call>, x: int) {
    forall i :: 0 <= i < |calls| ==> 0 <= calls[i].cell.0 < x
  }

  /** Every call is for one of the first `y` cells of row `x`. */
  predicate InRowPrefix(calls: seq<Call>, x: int, y: int) {
    forall i :: 0 <= i < |calls| ==> calls[i].cell.0 == x && 0 <= calls[i].cell.1 < y
  }

  /** The calls of the first `x` rows are for cells of those rows. */
  lemma {:induction false} GridCallsWithin(art: seq<seq<char>>, pixels: Raster, states: seq<seq<int>>,
                                           x: nat, letterHeight: int, greyscale: bool)
    requires Aligned(art, pixels, states) && x <= |art|
    ensures InFirstRows(GridCalls(art, pixels, states, x, letterHeight, greyscale), x)
  {
    if x > 0 {
      var g := GridCalls(art, pixels, states, x - 1, letterHeight, greyscale);
      var r := RowCalls(art, pixels, states, x - 1, |art[x - 1]|, letterHeight, greyscale);
      GridCallsWithin(art, pixels, states, x - 1, letterHeight, greyscale);
      RowCallsWithin(art, pixels, states, x - 1, |art[x - 1]|, letterHeight, greyscale);
      var calls: seq<Call> := g + r;
      assert GridCalls(art, pixels, states, x, letterHeight, greyscale) == calls;
      forall i | |g| <= i < |calls|
        ensures calls[i].cell.0 == x - 1
      {
        assert calls[i] == r[i - |g|];
      }
    }
  }

  /** The calls of the first `y` cells of row `x` are for those cells. */
  lemma {:induction false} RowCallsWithin(art: seq<seq<char>>, pixels: Raster, states: seq<seq<int>>,
                                          x: nat, y: nat, letterHeight: int, greyscale: bool)
    requires Aligned(art, pixels, states) && x < |art| && y <= |art[x]|
    ensures InRowPrefix(RowCalls(art, pixels, states, x, y, letterHeight, greyscale), x, y)
  {
    if y > 0 {
      RowCallsWithin(art, pixels, states, x, y - 1, letterHeight, greyscale);
      var r := RowCalls(art, pixels, states, x, y - 1, letterHeight, greyscale);
      var last := if art[x][y - 1] == SPACE_CHAR then [] else [CellCall(art, pixels, states, x, y - 1, letterHeight, greyscale)];
      var calls: seq<Call> := r + last;
      assert RowCalls(art, pixels, states, x, y, letterHeight, greyscale) == calls;
      forall i | |r| <= i < |calls|
        ensures calls[i].cell == (x, y - 1)
      {
        assert calls[i] == last[i - |r|];
      }
    }
  }

  /** Every call is the call of its own cell, and that cell is not a space. */
  predicate AreCellCalls(calls: seq<Call>, art: seq<seq<char>>, pixels: Raster, states: seq<seq<int>>,
                         letterHeight: int, greyscale: bool)
    requires Aligned(art, pixels, states)
  {
    forall i :: 0 <= i < |calls| ==>
      && 0 <= calls[i].cell.0 < |art| && 0 <= calls[i].cell.1 < |art[calls[i].cell.0]|
      && art[calls[i].cell.0][calls[i].cell.1] != SPACE_CHAR
      && calls[i] == CellCall(art, pixels, states, calls[i].cell.0, calls[i].cell.1, letterHeight, greyscale)
  }

  /** The cells of the calls strictly increase in row-major order. */
  predicate InRowMajorOrder(calls: seq<Call>) {
    forall i, j :: 0 <= i < j < |calls| ==> CellBefore(calls[i].cell, calls[j].cell)
  }

  lemma {:induction false} GridCallsAreCellCalls(art: seq<seq<char>>, pixels: Raster, states: seq<seq<int>>,
                                                 x: nat, letterHeight: int, greyscale: bool)
    requires Aligned(art, pixels, states) && x <= |art|
    ensures AreCellCalls(GridCalls(art, pixels, states, x, letterHeight, greyscale), art, pixels, states, letterHeight, greyscale)
  {
    if x > 0 {
      var g := GridCalls(art, pixels, states, x - 1, letterHeight, greyscale);
      var r := RowCalls(art, pixels, states, x - 1, |art[x - 1]|, letterHeight, greyscale);
      GridCallsAreCellCalls(art, pixels, states, x - 1, letterHeight, greyscale);
      RowCallsAreCellCalls(art, pixels, states, x - 1, |art[x - 1]|, letterHeight, greyscale);
      var calls: seq<Call> := g + r;
      forall i | |g| <= i < |calls|
        ensures calls[i] == CellCall(art, pixels, states, calls[i].cell.0, calls[i].cell.1, letterHeight, greyscale)
      {
        assert calls[i] == r[i - |g|];
      }
    }
  }

  lemma {:induction false} RowCallsAreCellCalls(art: seq<seq<char>>, pixels: Raster, states: seq<seq<int>>,
                                                x: nat, y: nat, letterHeight: int, greyscale: bool)
    requires Aligned(art, pixels, states) && x < |art| && y <= |art[x]|
    ensures AreCellCalls(RowCalls(art, pixels, states, x, y, letterHeight, greyscale), art, pixels, states, letterHeight, greyscale)
  {
    if y > 0 {
      RowCallsAreCellCalls(art, pixels, states, x, y - 1, letterHeight, greyscale);
    }
  }

  /** The calls come in strict row-major order, so no cell is visited twice. */
  lemma {:induction false} GridCallsOrdered(art: seq<seq<char>>, pixels: Raster, states: seq<seq<int>>,
                                            x: nat, letterHeight: int, greyscale: bool)
    requires Aligned(art, pixels, states) && x <= |art|
    ensures InRowMajorOrder(GridCalls(art, pixels, states, x, letterHeight, greyscale))
  {
    if x > 0 {
      var g := GridCalls(art, pixels, states, x - 1, letterHeight, greyscale);
      var r := RowCalls(art, pixels, states, x - 1, |art[x - 1]|, letterHeight, greyscale);
      GridCallsOrdered(art, pixels, states, x - 1, letterHeight, greyscale);
      RowCallsOrdered(art, pixels, states, x - 1, |art[x - 1]|, letterHeight, greyscale);
      GridCallsWithin(art, pixels, states, x - 1, letterHeight, greyscale);
      RowCallsWithin(art, pixels, states, x - 1, |art[x - 1]|, letterHeight, greyscale);
      var calls: seq<Call> := g + r;
      forall i, j | 0 <= i < j < |calls|
        ensures CellBefore(calls[i].cell, calls[j].cell)
      {
        if j >= |g| {
          assert calls[j] == r[j - |g|];
          if i >= |g| {
            assert calls[i] == r[i - |g|];
          }
        }
      }
    }
  }

  lemma {:induction false} RowCallsOrdered(art: seq<seq<char>>, pixels: Raster, states: seq<seq<int>>,
                                           x: nat, y: nat, letterHeight: int, greyscale: bool)
    requires Aligned(art, pixels, states) && x < |art| && y <= |art[x]|
    ensures InRowMajorOrder(RowCalls(art, pixels, states, x, y, letterHeight, greyscale))
  {
    if y > 0 {
      RowCallsOrdered(art, pixels, states, x, y - 1, letterHeight, greyscale);
      RowCallsWithin(art, pixels, states, x, y - 1, letterHeight, greyscale);
    }
  }

  /** Every cell that is not a space has a call. */
  lemma {:induction false} GridCallsComplete(art: seq<seq<char>>, pixels: Raster, states: seq<seq<int>>,
                                             x: nat, a: nat, b: nat, letterHeight: int, greyscale: bool)
    returns (i: nat)
    requires Aligned(art, pixels, states) && a < x <= |art| && b < |art[a]| && art[a][b] != SPACE_CHAR
    ensures var calls := GridCalls(art, pixels, states, x, letterHeight, greyscale);
      i < |calls| && calls[i].cell == (a, b)
  {
    if a < x - 1 {
      i := GridCallsComplete(art, pixels, states, x - 1, a, b, letterHeight, greyscale);
    } else {
      var j := RowCallsComplete(art, pixels, states, a, |art[a]|, b, letterHeight, greyscale);
      i := |GridCalls(art, pixels, states, x - 1, letterHeight, greyscale)| + j;
    }
  }

  lemma {:induction false} RowCallsComplete(art: seq<seq<char>>, pixels: Raster, states: seq<seq<int>>,
                                            x: nat, y: nat, b: nat, letterHeight: int, greyscale: bool)
    returns (j: nat)
    requires Aligned(art, pixels, states) && x < |art| && b < y <= |art[x]| && art[x][b] != SPACE_CHAR
    ensures var calls := RowCalls(art, pixels, states, x, y, letterHeight, greyscale);
      j < |calls| && calls[j].cell == (x, b)
  {
    if b < y - 1 {
      j := RowCallsComplete(art, pixels, states, x, y - 1, b, letterHeight, greyscale);
    } else {
      j := |RowCalls(art, pixels, states, x, y - 1, letterHeight, greyscale)|;
    }
  }

  /** The states after one frame: cell by cell, `NextState` of the cell's character. */
  function NextStates(art: seq<seq<char>>, states: seq<seq<int>>, advance: (char, int) -> int)
    : (next: seq<seq<int>>)
    requires |art| == |states| && forall x :: 0 <= x < |art| ==> |art[x]| == |states[x]|
    ensures |next| == |states| && forall x :: 0 <= x < |states| ==> |next[x]| == |states[x]|
  {
    if |art| == 0 then []
    else
      NextStates(art[..|art| - 1], states[..|states| - 1], advance)
      + [NextRow(art[|art| - 1], states[|states| - 1], advance)]
  }

  function NextRow(art: seq<char>, states: seq<int>, advance: (char, int) -> int): (next: seq<int>)
    requires |art| == |states|
    ensures |next| == |states|
  {
    if |art| == 0 then []
    else
      NextRow(art[..|art| - 1], states[..|states| - 1], advance)
      + [NextState(art[|art| - 1], states[|states| - 1], advance)]
  }

  /** Cell by cell, the next state is `NextState` of the cell's character and state. */
  lemma {:induction false} NextStatesCells(art: seq<seq<char>>, states: seq<seq<int>>, advance: (char, int) -> int)
    requires |art| == |states| && forall x :: 0 <= x < |art| ==> |art[x]| == |states[x]|
    ensures var next := NextStates(art, states, advance);
      forall x, y :: 0 <= x < |states| && 0 <= y < |states[x]| ==>
        next[x][y] == NextState(art[x][y], states[x][y], advance)
  {
    if |art| > 0 {
      var n := |art| - 1;
      NextStatesCells(art[..n], states[..n], advance);
      NextRowCells(art[n], states[n], advance);
    }
  }

  lemma {:induction false} NextRowCells(art: seq<char>, states: seq<int>, advance: (char, int) -> int)
    requires |art| == |states|
    ensures var next := NextRow(art, states, advance);
      forall y :: 0 <= y < |states| ==> next[y] == NextState(art[y], states[y], advance)
  {
    if |art| > 0 {
      NextRowCells(art[..|art| - 1], states[..|states| - 1], advance);
    }
  }

  /** `np.apply_along_axis(__pixel_to_ascii, 2, image)` on a picture given as rows of pixels. */
  function AsciiOf(pixels: Raster, ramp: string): (art: seq<seq<char>>)
    requires |ramp| > 0
    ensures |art| == |pixels| && forall x :: 0 <= x < |pixels| ==> |art[x]| == |pixels[x]|
  {
    if |pixels| == 0 then []
    else AsciiOf(pixels[..|pixels| - 1], ramp) + [AsciiRow(pixels[|pixels| - 1], ramp)]
  }

  function AsciiRow(row: seq<Color>, ramp: string): (art: seq<char>)
    requires |ramp| > 0
    ensures |art| == |row|
  {
    if |row| == 0 then [] else AsciiRow(row[..|row| - 1], ramp) + [PixelToAscii(row[|row| - 1], ramp)]
  }

  /** Cell by cell, the art is the ramp character of the pixel. */
  lemma {:induction false} AsciiOfCells(pixels: Raster, ramp: string)
    requires |ramp| > 0
    ensures var art := AsciiOf(pixels, ramp);
      forall x, y :: 0 <= x < |pixels| && 0 <= y < |pixels[x]| ==> art[x][y] == PixelToAscii(pixels[x][y], ramp)
  {
    if |pixels| > 0 {
      var n := |pixels| - 1;
      AsciiOfCells(pixels[..n], ramp);
      AsciiRowCells(pixels[n], ramp);
    }
  }

  lemma {:induction false} AsciiRowCells(row: seq<Color>, ramp: string)
    requires |ramp| > 0
    ensures var art := AsciiRow(row, ramp);
      forall y :: 0 <= y < |row| ==> art[y] == PixelToAscii(row[y], ramp)
  {
    if |row| > 0 {
      AsciiRowCells(row[..|row| - 1], ramp);
    }
  }

  /** Every picture of the run is `rows` x `cols`. */
  predicate AllShaped(pictures: seq<Raster>, rows: nat, cols: nat) {
    forall n :: 0 <= n < |pictures| ==> Shaped(pictures[n], rows, cols)
  }

  /**
   * The calls of `write_raw_frames` for a run of pictures: the first picture's calls start
   * from `states`, and the states it leaves behind are where the rest of the run starts.
   */
  function RunCalls(pictures: seq<Raster>, ramp: string, states: seq<seq<int>>, rows: nat, cols: nat,
                    letterHeight: int, greyscale: bool, advance: (char, int) -> int): (calls: seq<seq<Call>>)
    requires |ramp| > 0 && Shaped(states, rows, cols) && AllShaped(pictures, rows, cols)
    ensures |calls| == |pictures|
  {
    if |pictures| == 0 then []
    else
      var art := AsciiOf(pictures[0], ramp);
      [GridCalls(art, pictures[0], states, rows, letterHeight, greyscale)]
      + RunCalls(pictures[1..], ramp, NextStates(art, states, advance), rows, cols, letterHeight, greyscale, advance)
  }

  /**
   * Moving picture `f`'s calls from the rest of the run to the calls drawn so far keeps
   * their concatenation: the rest then runs from `f + 1`, on the states picture `f` leaves.
   */
  lemma RunCallsStep(pictures: seq<Raster>, f: nat, ramp: string, states: seq<seq<int>>, rows: nat, cols: nat,
                     letterHeight: int, greyscale: bool, advance: (char, int) -> int,
                     drawn: seq<seq<Call>>, total: seq<seq<Call>>)
    requires |ramp| > 0 && Shaped(states, rows, cols) && AllShaped(pictures, rows, cols) && f < |pictures|
    requires drawn + RunCalls(pictures[f..], ramp, states, rows, cols, letterHeight, greyscale, advance) == total
    ensures (drawn + [GridCalls(AsciiOf(pictures[f], ramp), pictures[f], states, rows, letterHeight, greyscale)])
      + RunCalls(pictures[f + 1..], ramp, NextStates(AsciiOf(pictures[f], ramp), states, advance),
                 rows, cols, letterHeight, greyscale, advance) == total
  {
    var art := AsciiOf(pictures[f], ramp);
    DropConcat(pictures[f..f + 1], pictures[f + 1..]);
    assert pictures[f..] == pictures[f..f + 1] + pictures[f + 1..];
    ConcatAssoc(drawn, [GridCalls(art, pictures[f], states, rows, letterHeight, greyscale)],
                RunCalls(pictures[f + 1..], ramp, NextStates(art, states, advance), rows, cols, letterHeight, greyscale, advance));
  }

  /** Before any picture is drawn, the rest of the run is all of it. */
  lemma RunCallsStart(pictures: seq<Raster>, ramp: string, states: seq<seq<int>>, rows: nat, cols: nat,
                      letterHeight: int, greyscale: bool, advance: (char, int) -> int)
    requires |ramp| > 0 && Shaped(states, rows, cols) && AllShaped(pictures, rows, cols)
    ensures AllShaped(pictures[0..], rows, cols)
    ensures [] + RunCalls(pictures[0..], ramp, states, rows, cols, letterHeight, greyscale, advance)
      == RunCalls(pictures, ramp, states, rows, cols, letterHeight, greyscale, advance)
  {
    DropNone(pictures);
    EmptyConcat([], RunCalls(pictures, ramp, states, rows, cols, letterHeight, greyscale, advance));
  }

  /** Once no picture is left, the calls drawn so far are the whole run. */
  lemma RunCallsDone(pictures: seq<Raster>, ramp: string, states: seq<seq<int>>, rows: nat, cols: nat,
                     letterHeight: int, greyscale: bool, advance: (char, int) -> int,
                     drawn: seq<seq<Call>>, total: seq<seq<Call>>)
    requires |ramp| > 0 && Shaped(states, rows, cols) && AllShaped(pictures, rows, cols)
    requires drawn + RunCalls(pictures[|pictures|..], ramp, states, rows, cols, letterHeight, greyscale, advance) == total
    ensures drawn == total
  {
    EmptyConcat(RunCalls(pictures[|pictures|..], ramp, states, rows, cols, letterHeight, greyscale, advance), drawn);
    ConcatEmpty(drawn, RunCalls(pictures[|pictures|..], ramp, states, rows, cols, letterHeight, greyscale, advance));
  }

  lemma ConcatAssoc<T>(a: seq<T>, b: seq<T>, c: seq<T>)
    ensures (a + b) + c == a + (b + c)
  {
  }

  lemma DropConcat<T>(a: seq<T>, b: seq<T>)
    requires |a| > 0
    ensures (a + b)[0] == a[0] && (a + b)[1..] == a[1..] + b
  {
  }

  lemma EmptyConcat<T>(a: seq<T>, b: seq<T>)
    requires |a| == 0
    ensures a + b == b
  {
  }

  lemma DropNone<T>(xs: seq<T>)
    ensures xs[0..] == xs
  {
  }

  lemma ConcatEmpty<T>(a: seq<T>, b: seq<T>)
    requires |b| == 0
    ensures a + b == a
  {
  }

  /** The animation states after a run of pictures has been drawn from `states`. */
  function StatesAfter(pictures: seq<Raster>, ramp: string, states: seq<seq<int>>, rows: nat, cols: nat,
                       advance: (char, int) -> int): (after: seq<seq<int>>)
    requires |ramp| > 0 && Shaped(states, rows, cols) && AllShaped(pictures, rows, cols)
    ensures Shaped(after, rows, cols)
  {
    if |pictures| == 0 then states
    else StatesAfter(pictures[1..], ramp, NextStates(AsciiOf(pictures[0], ramp), states, advance), rows, cols, advance)
  }

  /**
   * Drawing a run in two parts gives the calls of drawing it at once: the second part starts
   * from the states the first part leaves.
   */
  lemma {:induction false} RunCallsSplit(p1: seq<Raster>, p2: seq<Raster>, ramp: string, states: seq<seq<int>>,
                                         rows: nat, cols: nat, letterHeight: int, greyscale: bool,
                                         advance: (char, int) -> int)
    requires |ramp| > 0 && Shaped(states, rows, cols) && AllShaped(p1, rows, cols) && AllShaped(p2, rows, cols)
    ensures AllShaped(p1 + p2, rows, cols)
    ensures RunCalls(p1 + p2, ramp, states, rows, cols, letterHeight, greyscale, advance)
      == RunCalls(p1, ramp, states, rows, cols, letterHeight, greyscale, advance)
         + RunCalls(p2, ramp, StatesAfter(p1, ramp, states, rows, cols, advance), rows, cols, letterHeight, greyscale, advance)
  {
    assert AllShaped(p1 + p2, rows, cols) by {
      forall n | 0 <= n < |p1 + p2|
        ensures Shaped((p1 + p2)[n], rows, cols)
      {
        if n >= |p1| {
          assert (p1 + p2)[n] == p2[n - |p1|];
        }
      }
    }
    if |p1| > 0 {
      var art := AsciiOf(p1[0], ramp);
      var next := NextStates(art, states, advance);
      DropConcat(p1, p2);
      RunCallsSplit(p1[1..], p2, ramp, next, rows, cols, letterHeight, greyscale, advance);
      ConcatAssoc([GridCalls(art, p1[0], states, rows, letterHeight, greyscale)],
                  RunCalls(p1[1..], ramp, next, rows, cols, letterHeight, greyscale, advance),
                  RunCalls(p2, ramp, StatesAfter(p1[1..], ramp, next, rows, cols, advance), rows, cols,
                           letterHeight, greyscale, advance));
    } else {
      EmptyConcat(p1, p2);
    }
  }

  /**
   * Entry `g` of a run is picture `g`'s calls (its non-space cells in row-major order),
   * drawn from the states the pictures before it left.
   */
  lemma RunCallsAt(pictures: seq<Raster>, ramp: string, states: seq<seq<int>>, rows: nat, cols: nat,
                   letterHeight: int, greyscale: bool, advance: (char, int) -> int, g: nat)
    requires |ramp| > 0 && Shaped(states, rows, cols) && AllShaped(pictures, rows, cols) && g < |pictures|
    ensures AllShaped(pictures[..g], rows, cols)
    ensures RunCalls(pictures, ramp, states, rows, cols, letterHeight, greyscale, advance)[g]
      == GridCalls(AsciiOf(pictures[g], ramp), pictures[g],
                   StatesAfter(pictures[..g], ramp, states, rows, cols, advance), rows, letterHeight, greyscale)
  {
    var p1, p2 := pictures[..g], pictures[g..];
    assert AllShaped(p1, rows, cols) && AllShaped(p2, rows, cols);
    assert p1 + p2 == pictures;
    RunCallsSplit(p1, p2, ramp, states, rows, cols, letterHeight, greyscale, advance);
    var before := StatesAfter(p1, ramp, states, rows, cols, advance);
    var first: seq<seq<Call>> := RunCalls(p1, ramp, states, rows, cols, letterHeight, greyscale, advance);
    var second: seq<seq<Call>> := RunCalls(p2, ramp, before, rows, cols, letterHeight, greyscale, advance);
    assert p2[0] == pictures[g];
    assert (first + second)[g] == second[0];
  }

  /** Every call draws a ramp character other than the space. */
  predicate DrawsRampLetters(calls: seq<seq<Call>>, ramp: string) {
    forall g, i :: 0 <= g < |calls| && 0 <= i < |calls[g]| ==> calls[g][i].letter in ramp && calls[g][i].letter != SPACE_CHAR
  }

  /** Every call of a run draws a ramp character other than the space. */
  lemma {:induction false} RunCallsLetters(pictures: seq<Raster>, ramp: string, states: seq<seq<int>>,
                                           rows: nat, cols: nat, letterHeight: int, greyscale: bool,
                                           advance: (char, int) -> int)
    requires |ramp| > 0 && Shaped(states, rows, cols) && AllShaped(pictures, rows, cols)
    ensures DrawsRampLetters(RunCalls(pictures, ramp, states, rows, cols, letterHeight, greyscale, advance), ramp)
  {
    if |pictures| > 0 {
      var art := AsciiOf(pictures[0], ramp);
      var next := NextStates(art, states, advance);
      var all: seq<seq<Call>> := RunCalls(pictures, ramp, states, rows, cols, letterHeight, greyscale, advance);
      var rest: seq<seq<Call>> := RunCalls(pictures[1..], ramp, next, rows, cols, letterHeight, greyscale, advance);
      var first: seq<Call> := GridCalls(art, pictures[0], states, rows, letterHeight, greyscale);
      RunCallsLetters(pictures[1..], ramp, next, rows, cols, letterHeight, greyscale, advance);
      GridCallsAreCellCalls(art, pictures[0], states, rows, letterHeight, greyscale);
      AsciiOfCells(pictures[0], ramp);
      assert all == [first] + rest;
      forall g, i | 0 <= g < |pictures| && 0 <= i < |all[g]|
        ensures all[g][i].letter in ramp && all[g][i].letter != SPACE_CHAR
      {
        if g == 0 {
          assert all[g][i] == first[i];
          assert first[i].letter == art[first[i].cell.0][first[i].cell.1];
        } else {
          assert all[g] == rest[g - 1];
        }
      }
    }
  }

  /** `AnimatedAsciiArt`: the downsampled pictures, their durations and the drawing options. */
  class AnimatedAsciiArt {
    const pixelsPerCharacter: int
    const greyscale: bool
    const colorRamp: string
    const backgroundColor: Color
    const images: seq<array2<Color>>
    const durations: seq<real>
    /** The pixels of each picture, as `__load_image` produced them. */
    ghost const pictures: seq<Raster>

    /**
     * Every picture has the size of the first, and there is one duration per picture; the
     * ramp is not empty and the block size is positive.
     */
    ghost predicate Valid() {
      && |colorRamp| > 0 && pixelsPerCharacter > 0
      && |images| > 0 && |images| == |durations| == |pictures|
      && forall n :: 0 <= n < |images| ==>
           && images[n].Length0 == images[0].Length0 && images[n].Length1 == images[0].Length1
           && Shaped(pictures[n], images[0].Length0, images[0].Length1)
    }

    /** The buffers hold the pictures. */
    ghost predicate Holds()
      requires Valid()
      reads images
    {
      forall n, x, y :: 0 <= n < |images| && 0 <= x < images[0].Length0 && 0 <= y < images[0].Length1 ==>
        images[n][x, y] == pictures[n][x][y]
    }

    constructor (pixelsPerCharacter: int, greyscale: bool, colorRamp: string, backgroundColor: Color,
                 images: seq<array2<Color>>, durations: seq<real>, ghost pictures: seq<Raster>)
      ensures this.pixelsPerCharacter == pixelsPerCharacter && this.greyscale == greyscale
      ensures this.colorRamp == colorRamp && this.backgroundColor == backgroundColor
      ensures this.images == images && this.durations == durations && this.pictures == pictures
    {
      this.pixelsPerCharacter := pixelsPerCharacter;
      this.greyscale := greyscale;
      this.colorRamp := colorRamp;
      this.backgroundColor := backgroundColor;
      this.images := images;
      this.durations := durations;
      this.pictures := pictures;
    }

    /**
     * The buffers of `__load_image`: one per frame of a picture with more than one frame,
     * each with the frame's duration; the one buffer of a still picture repeated
     * `ANIMATION_FRAME_COUNT` times with the default duration.
     */
    static method Downsample(frames: seq<SourceFrame>, rows: nat, cols: nat)
      returns (images: seq<array2<Color>>, durations: seq<real>, ghost pictures: seq<Raster>)
      requires |frames| > 0
      requires forall n :: 0 <= n < |frames| ==> IsRaster(frames[n].resized, rows, cols)
      ensures |images| == |durations| == |pictures| == if |frames| > 1 then |frames| else ANIMATION_FRAME_COUNT
      ensures forall n :: 0 <= n < |images| ==>
        && fresh(images[n]) && images[n].Length0 == rows && images[n].Length1 == cols
        && pictures[n] == frames[if |frames| > 1 then n else 0].resized && IsRaster(pictures[n], rows, cols)
        && durations[n] == (if |frames| > 1 then DurationOf(frames[n]) else DEFAULT_DURATION)
        && forall x, y :: 0 <= x < rows && 0 <= y < cols ==> images[n][x, y] == pictures[n][x][y]
      ensures |frames| == 1 ==> forall n :: 0 <= n < |images| ==> images[n] == images[0]
    {
      images, durations, pictures := [], [], [];
      if |frames| > 1 {
        for n := 0 to |frames|
          invariant |images| == |durations| == |pictures| == n
          invariant forall m :: 0 <= m < n ==>
            && fresh(images[m]) && images[m].Length0 == rows && images[m].Length1 == cols
            && pictures[m] == frames[m].resized && durations[m] == DurationOf(frames[m])
          invariant forall m, x, y :: 0 <= m < n && 0 <= x < rows && 0 <= y < cols ==>
            images[m][x, y] == pictures[m][x][y]
        {
          var image := FromRaster(frames[n].resized, rows, cols);
          images := images + [image];
          durations := durations + [DurationOf(frames[n])];
          pictures := pictures + [frames[n].resized];
        }
      } else {
        var image := FromRaster(frames[0].resized, rows, cols);
        images := Repeat(image, ANIMATION_FRAME_COUNT);
        durations := Repeat(DEFAULT_DURATION, ANIMATION_FRAME_COUNT);
        pictures := Repeat(frames[0].resized, ANIMATION_FRAME_COUNT);
      }
    }

    /**
     * The constructor. An empty ramp or a non-positive block size fails its assertion. A
     * picture narrower or lower than one block would be resized to no pixels at all, which
     * the image library refuses with a `ValueError`. Otherwise a picture with more than one
     * frame gives one downsampled picture and one duration per frame; a still picture is
     * downsampled once and that same buffer is repeated `ANIMATION_FRAME_COUNT` times, each
     * with the default duration.
     */
    static method Create(frames: seq<SourceFrame>, ppc: int, greyscale: bool, ramp: string, background: Color)
      returns (r: Result<AnimatedAsciiArt>)
      requires |frames| > 0
      requires forall n :: 0 <= n < |frames| ==>
        frames[n].width == frames[0].width && frames[n].height == frames[0].height
      requires ppc > 0 ==> forall n :: 0 <= n < |frames| ==>
        IsRaster(frames[n].resized, frames[0].height / ppc, frames[0].width / ppc)
      ensures r.Err? <==> |ramp| == 0 || ppc <= 0 || frames[0].width < ppc || frames[0].height < ppc
      ensures (|ramp| == 0 || ppc <= 0) ==> r == Err(AssertionError(""))
      ensures |ramp| > 0 && ppc > 0 && (frames[0].width < ppc || frames[0].height < ppc) ==>
        r == Err(ValueError(EMPTY_RESIZE_MESSAGE))
      ensures r.Ok? ==> |r.value.images| > 0 && r.value.images[0].Length0 > 0 && r.value.images[0].Length1 > 0
      ensures r.Ok? ==> r.value.Valid() && r.value.pixelsPerCharacter == ppc && r.value.greyscale == greyscale
      ensures r.Ok? ==> r.value.colorRamp == ramp && r.value.backgroundColor == background
      ensures r.Ok? ==> |r.value.images| == if |frames| > 1 then |frames| else ANIMATION_FRAME_COUNT
      ensures r.Ok? ==> r.value.Holds() && forall n :: 0 <= n < |r.value.images| ==>
        && fresh(r.value.images[n])
        && r.value.pictures[n] == frames[if |frames| > 1 then n else 0].resized
        && r.value.durations[n] == if |frames| > 1 then DurationOf(frames[n]) else DEFAULT_DURATION
      ensures r.Ok? && |frames| == 1 ==> forall n :: 0 <= n < |r.value.images| ==> r.value.images[n] == r.value.images[0]
    {
      if |ramp| == 0 || ppc <= 0 {
        return Err(AssertionError(""));
      }
      var size := DownsampleSize(frames[0].width, frames[0].height, ppc);
      if size.0 == 0 || size.1 == 0 {
        return Err(ValueError(EMPTY_RESIZE_MESSAGE));
      }
      var images, durations, pictures := Downsample(frames, size.1, size.0);
      var art := new AnimatedAsciiArt(ppc, greyscale, ramp, background, images, durations, pictures);
      r := Ok(art);
    }

    /** The GIF disposal: transparent exactly when the background is not fully opaque. */
    function GifDisposal(fullAlpha: byte): (d: Disposal)
      ensures d == DisposalTransparent <==> backgroundColor.a != fullAlpha
    {
      if backgroundColor.a != fullAlpha then DisposalTransparent else DisposalSolid
    }

    /** The ramp characters of picture `f`. */
    ghost function Art(f: nat): (art: seq<seq<char>>)
      requires Valid() && f < |images|
      ensures Shaped(art, images[0].Length0, images[0].Length1)
    {
      AsciiOf(pictures[f], colorRamp)
    }

    /**
     * `write_raw_frames`: for every picture, a fresh screen of `rows * H` x `cols * H` pixels
     * filled with the background colour, and the letter calls for its cells in row-major
     * order; the animation state of every cell starts from `initial` and is carried from
     * picture to picture.
     */
    method WriteRawFrames(letterHeight: nat, initial: seq<seq<int>>, advance: (char, int) -> int)
      returns (frames: seq<array2<Color>>, calls: seq<seq<Call>>)
      requires Valid() && Holds()
      requires Shaped(initial, images[0].Length0, images[0].Length1)
      requires forall x, y :: 0 <= x < |initial| && 0 <= y < |initial[x]| ==> 0 <= initial[x][y] < 3
      ensures |frames| == |images|
      ensures forall f :: 0 <= f < |frames| ==>
        && fresh(frames[f])
        && frames[f].Length0 == images[0].Length0 * letterHeight
        && frames[f].Length1 == images[0].Length1 * letterHeight
      ensures forall f, i, j :: 0 <= f < |frames| && 0 <= i < frames[f].Length0 && 0 <= j < frames[f].Length1 ==>
        frames[f][i, j] == backgroundColor
      ensures calls == RunCalls(pictures, colorRamp, initial, images[0].Length0, images[0].Length1,
                                letterHeight, greyscale, advance)
    {
      calls := DrawFrames(letterHeight, initial, advance);
      var rows, cols := images[0].Length0, images[0].Length1;
      frames := BlankScreens(|images|, rows * letterHeight, cols * letterHeight, backgroundColor);
    }

    /** The picture loop of `write_raw_frames`, with one animation state per cell carried along. */
    method DrawFrames(letterHeight: nat, initial: seq<seq<int>>, advance: (char, int) -> int)
      returns (calls: seq<seq<Call>>)
      requires Valid() && Holds()
      requires Shaped(initial, images[0].Length0, images[0].Length1)
      ensures calls == RunCalls(pictures, colorRamp, initial, images[0].Length0, images[0].Length1,
                                letterHeight, greyscale, advance)
    {
      var rows, cols := images[0].Length0, images[0].Length1;
      var states := StatesFrom(initial, rows, cols);
      ghost var S := initial;
      assert AllShaped(pictures, rows, cols);
      ghost var total := RunCalls(pictures, colorRamp, initial, rows, cols, letterHeight, greyscale, advance);
      calls := [];
      RunCallsStart(pictures, colorRamp, initial, rows, cols, letterHeight, greyscale, advance);
      var f := 0;
      while f < |images|
        invariant Drawing(f, S, letterHeight, advance, calls, total)
        invariant fresh(states) && states.Length0 == rows && states.Length1 == cols
        invariant HoldsGrid(states, S)
        modifies states
      {
        var drawn := DrawFrame(f, states, letterHeight, S, advance, calls, total);
        S := NextStates(Art(f), S, advance);
        calls := calls + [drawn];
        f := f + 1;
      }
      RunCallsDone(pictures, colorRamp, S, rows, cols, letterHeight, greyscale, advance, calls, total);
    }

    /** Part way through the picture loop: the calls `done` for the first `f` pictures, followed
        by the run of the others from the states `S`, make the calls `total` of the whole run. */
    ghost predicate Drawing(f: nat, S: seq<seq<int>>, letterHeight: int, advance: (char, int) -> int,
                            done: seq<seq<Call>>, total: seq<seq<Call>>)
    {
      && Valid() && f <= |images|
      && Shaped(S, images[0].Length0, images[0].Length1)
      && AllShaped(pictures[f..], images[0].Length0, images[0].Length1)
      && done + RunCalls(pictures[f..], colorRamp, S, images[0].Length0, images[0].Length1,
                         letterHeight, greyscale, advance) == total
    }

    /** One picture: its characters, then the cell loop over them, from the states `S`. */
    method DrawFrame(f: nat, states: array2<int>, letterHeight: int, ghost S: seq<seq<int>>,
                     advance: (char, int) -> int, ghost done: seq<seq<Call>>, ghost total: seq<seq<Call>>)
      returns (calls: seq<Call>)
      requires Drawing(f, S, letterHeight, advance, done, total) && Holds() && f < |images|
      requires states.Length0 == images[0].Length0 && states.Length1 == images[0].Length1
      requires HoldsGrid(states, S)
      modifies states
      ensures calls == GridCalls(Art(f), pictures[f], S, images[0].Length0, letterHeight, greyscale)
      ensures HoldsGrid(states, NextStates(Art(f), S, advance))
      ensures Drawing(f + 1, NextStates(Art(f), S, advance), letterHeight, advance, done + [calls], total)
    {
      var art := ToAscii(images[f], colorRamp, pictures[f]);
      calls := DrawCells(art, images[f], states, letterHeight, greyscale, Art(f), pictures[f], S, advance);
      assert AllShaped(pictures, images[0].Length0, images[0].Length1);
      RunCallsStep(pictures, f, colorRamp, S, images[0].Length0, images[0].Length1, letterHeight, greyscale, advance,
                   done, total);
    }

    /** Every call's letter has an entry in `available_letters`, so the lookup never fails. */
    lemma CallsHaveLetters(letterHeight: int, initial: seq<seq<int>>, advance: (char, int) -> int,
                           grey: Color, letterWidth: int)
      requires Valid() && Shaped(initial, images[0].Length0, images[0].Length1)
      ensures var calls := RunCalls(pictures, colorRamp, initial, images[0].Length0, images[0].Length1,
                                    letterHeight, greyscale, advance);
        forall f, i :: 0 <= f < |calls| && 0 <= i < |calls[f]| ==>
          calls[f][i].letter in AvailableLetters(colorRamp, grey, backgroundColor, letterWidth, letterHeight)
    {
      RunCallsLetters(pictures, colorRamp, initial, images[0].Length0, images[0].Length1, letterHeight, greyscale, advance);
    }
  }

  /** `np.apply_along_axis(__pixel_to_ascii, 2, image)`: the ramp character of every pixel. */
  method ToAscii(image: array2<Color>, ramp: string, ghost P: Raster) returns (art: array2<char>)
    requires |ramp| > 0 && Shaped(P, image.Length0, image.Length1)
    requires forall x, y :: 0 <= x < image.Length0 && 0 <= y < image.Length1 ==> image[x, y] == P[x][y]
    ensures fresh(art) && art.Length0 == image.Length0 && art.Length1 == image.Length1
    ensures forall x, y :: 0 <= x < image.Length0 && 0 <= y < image.Length1 ==>
      art[x, y] == AsciiOf(P, ramp)[x][y]
  {
    AsciiOfCells(P, ramp);
    art := new char[image.Length0, image.Length1]((x, y) reads image =>
      if 0 <= x < image.Length0 && 0 <= y < image.Length1 then PixelToAscii(image[x, y], ramp) else SPACE_CHAR);
  }

  /**
   * The cell loop of `write_raw_frames` over one picture whose characters, pixels and states
   * are the grids `A`, `P` and `S`: the calls are `GridCalls(A, P, S)` and the states become
   * `NextStates(A, S)`.
   */
  method DrawCells(art: array2<char>, image: array2<Color>, states: array2<int>, letterHeight: int,
                   greyscale: bool, ghost A: seq<seq<char>>, ghost P: Raster, ghost S: seq<seq<int>>,
                   advance: (char, int) -> int)
    returns (calls: seq<Call>)
    requires Shaped(A, art.Length0, art.Length1) && Aligned(A, P, S)
    requires image.Length0 == states.Length0 == art.Length0 && image.Length1 == states.Length1 == art.Length1
    requires forall x, y :: 0 <= x < art.Length0 && 0 <= y < art.Length1 ==>
      art[x, y] == A[x][y] && image[x, y] == P[x][y]
    requires HoldsGrid(states, S)
    modifies states
    ensures calls == GridCalls(A, P, S, |A|, letterHeight, greyscale)
    ensures HoldsGrid(states, NextStates(A, S, advance))
  {
    calls := [];
    for x := 0 to art.Length0
      invariant calls == GridCalls(A, P, S, x, letterHeight, greyscale)
      invariant forall a, b :: 0 <= a < art.Length0 && 0 <= b < art.Length1 ==>
        states[a, b] == if a < x then NextState(A[a][b], S[a][b], advance) else S[a][b]
    {
      var row := DrawRow(x, art, image, states, letterHeight, greyscale, A, P, S, advance);
      calls := calls + row;
    }
    NextStatesCells(A, S, advance);
  }

  /** One row of the cell loop: the calls of row `x`, and that row's states advanced. */
  method DrawRow(x: nat, art: array2<char>, image: array2<Color>, states: array2<int>, letterHeight: int,
                 greyscale: bool, ghost A: seq<seq<char>>, ghost P: Raster, ghost S: seq<seq<int>>,
                 advance: (char, int) -> int)
    returns (row: seq<Call>)
    requires Shaped(A, art.Length0, art.Length1) && Aligned(A, P, S) && x < art.Length0
    requires image.Length0 == states.Length0 == art.Length0 && image.Length1 == states.Length1 == art.Length1
    requires forall y :: 0 <= y < art.Length1 ==>
      art[x, y] == A[x][y] && image[x, y] == P[x][y] && states[x, y] == S[x][y]
    modifies states
    ensures row == RowCalls(A, P, S, x, |A[x]|, letterHeight, greyscale)
    ensures forall a, b :: 0 <= a < art.Length0 && 0 <= b < art.Length1 ==>
      states[a, b] == if a == x then NextState(A[a][b], S[a][b], advance) else old(states[a, b])
  {
    row := [];
    for y := 0 to art.Length1
      invariant row == RowCalls(A, P, S, x, y, letterHeight, greyscale)
      invariant forall a, b :: 0 <= a < art.Length0 && 0 <= b < art.Length1 ==>
        states[a, b] == if a == x && b < y then NextState(A[a][b], S[a][b], advance) else old(states[a, b])
    {
      var glyph := art[x, y];
      if glyph != SPACE_CHAR {
        var color := if greyscale then None else Some(image[x, y]);
        row := row + [Call((x, y), glyph, (y * letterHeight, x * letterHeight), color, states[x, y])];
        states[x, y] := advance(glyph, states[x, y]);
      }
    }
  }

  /** The `np.full` screens of `write_raw_frames`, one per picture, each filled with `c`. */
  method BlankScreens(n: nat, rows: nat, cols: nat, c: Color) returns (screens: seq<array2<Color>>)
    ensures |screens| == n
    ensures forall g :: 0 <= g < n ==> fresh(screens[g]) && screens[g].Length0 == rows && screens[g].Length1 == cols
    ensures forall g, i, j :: 0 <= g < n && 0 <= i < rows && 0 <= j < cols ==> screens[g][i, j] == c
  {
    screens := [];
    for g := 0 to n
      invariant |screens| == g
      invariant forall h :: 0 <= h < g ==> fresh(screens[h]) && screens[h].Length0 == rows && screens[h].Length1 == cols
      invariant forall h, i, j :: 0 <= h < g && 0 <= i < rows && 0 <= j < cols ==> screens[h][i, j] == c
    {
      var screen := Filled(rows, cols, c);
      screens := screens + [screen];
    }
  }

  /** `[x] * n`: `n` references to the same value. */
  function Repeat<T>(x: T, n: nat): (xs: seq<T>)
    ensures |xs| == n && forall k :: 0 <= k < n ==> xs[k] == x
  {
    if n == 0 then [] else [x] + Repeat(x, n - 1)
  }

  /** `np.random.randint(3, size=...)`: the random initial states, drawn by the caller. */
  method StatesFrom(initial: seq<seq<int>>, rows: nat, cols: nat) returns (states: array2<int>)
    requires Shaped(initial, rows, cols)
    ensures fresh(states) && states.Length0 == rows && states.Length1 == cols
    ensures forall x, y :: 0 <= x < rows && 0 <= y < cols ==> states[x, y] == initial[x][y]
  {
    states := new int[rows, cols]((x, y) =>
      if 0 <= x < |initial| && 0 <= y < |initial[x]| then initial[x][y] else 0);
  }
}
