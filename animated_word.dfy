/** animated_word.py: a word is a background tile with its letters packed into a grid on top. */
module Words {
  import opened Wrappers
  import opened Pixels
  import opened Geometry
  import opened Constants
  import opened AnimatedObjects
  import opened Letters

  /** `int(floor(sqrt(n)))`, computed exactly. */
  function IntSqrt(n: nat): (r: nat)
    ensures r * r <= n < (r + 1) * (r + 1)
  {
    SqrtFrom(n, 0)
  }

  /** The integer square root of `n`, searched upwards from a candidate `r` that is not too large. */
  function SqrtFrom(n: nat, r: nat): (s: nat)
    requires r * r <= n
    ensures s * s <= n < (s + 1) * (s + 1)
    decreases n - r
  {
    if (r + 1) * (r + 1) > n then r
    else
      assert r + 1 <= (r + 1) * (r + 1);
      SqrtFrom(n, r + 1)
  }

  /** `int(ceil(a / b))` for a positive divisor. */
  function CeilDiv(a: nat, b: nat): (q: nat)
    requires b > 0
    ensures (q - 1) * b < a <= q * b
  {
    (a + b - 1) / b
  }

  /** The "magic scale": full size up to four letters, three quarters beyond. */
  function Scale(n: nat): real {
    if n == 1 then 1.0
    else if n == 2 then 1.0
    else if 3 <= n <= 4 then 1.0
    else 0.75
  }

  /** Python's `min` on two numbers. */
  function Min(a: real, b: real): real {
    if b < a then b else a
  }

  /** The letter grid of `__fit_text_to_this_box` for `n` letters in a box of the given size. */
  datatype Layout = Layout(rows: nat, perRow: nat, letterWidth: real, letterHeight: real,
                           offsetX: real, offsetY: real)

  /** The letter height the box allows for `rows` rows. */
  function WantHeight(rows: nat, scale: real, boxHeight: int): real
    requires rows > 0
  {
    Min(boxHeight as real / rows as real * scale, MAX_LETTER_HEIGHT)
  }

  /** The letter width the box allows for `perRow` letters a row. */
  function WantWidth(perRow: nat, scale: real, boxWidth: int): real
    requires perRow > 0
  {
    Min(boxWidth as real / perRow as real * scale, MAX_LETTER_HEIGHT * LETTER_WIDTH_TO_HEIGHT_RATIO)
  }

  /** The letter size chosen from the wanted ones: the wanted height, unless that would make the
      letter wider than wanted, in which case the wanted width decides. */
  function LetterSize(wantHeight: real, wantWidth: real): (size: (real, real))
    ensures size.0 == size.1 * LETTER_WIDTH_TO_HEIGHT_RATIO
  {
    if wantHeight > wantWidth * (1.0 / LETTER_WIDTH_TO_HEIGHT_RATIO) then
      (wantWidth, wantWidth * (1.0 / LETTER_WIDTH_TO_HEIGHT_RATIO))
    else
      (wantHeight * LETTER_WIDTH_TO_HEIGHT_RATIO, wantHeight)
  }

  /** The chosen size fits both wanted sizes, reaches one of them, and is non-negative when
      both wanted sizes are. */
  lemma LetterSizeBounds(wantHeight: real, wantWidth: real)
    ensures var size := LetterSize(wantHeight, wantWidth);
      && size.0 <= wantWidth && size.1 <= wantHeight
      && (size.0 == wantWidth || size.1 == wantHeight)
      && (wantHeight >= 0.0 && wantWidth >= 0.0 ==> size.0 >= 0.0 && size.1 >= 0.0)
  {
  }

  /** A grid of `rows` x `perRow` letters, each of the size `LetterSize` chooses, centred in
      the box. */
  function Arrange(rows: nat, perRow: nat, scale: real, boxWidth: int, boxHeight: int): (g: Layout)
    requires rows > 0 && perRow > 0
    ensures g.rows == rows && g.perRow == perRow
    ensures g.letterWidth == g.letterHeight * LETTER_WIDTH_TO_HEIGHT_RATIO
  {
    var size := LetterSize(WantHeight(rows, scale, boxHeight), WantWidth(perRow, scale, boxWidth));
    Layout(rows, perRow, size.0, size.1,
           (boxWidth as real - perRow as real * size.0) / 2.0,
           (boxHeight as real - rows as real * size.1) / 2.0)
  }

  /** The grid of `__fit_text_to_this_box`: `floor(sqrt(n))` rows of `ceil(n / rows)` letters. */
  function Fit(n: nat, boxWidth: int, boxHeight: int): (g: Layout)
    requires n > 0
    ensures g.rows == IntSqrt(n) > 0 && g.perRow == CeilDiv(n, IntSqrt(n)) > 0
    ensures g.letterWidth == g.letterHeight * LETTER_WIDTH_TO_HEIGHT_RATIO
  {
    Arrange(IntSqrt(n), CeilDiv(n, IntSqrt(n)), Scale(n), boxWidth, boxHeight)
  }

  lemma NonNegativeShare(total: real, count: real, scale: real)
    requires total >= 0.0 && count > 0.0 && scale >= 0.0
    ensures total / count * scale >= 0.0
  {
    assert total / count >= 0.0;
  }

  lemma MulMonotone(a: real, x: real, y: real)
    requires a >= 0.0 && x <= y
    ensures a * x <= a * y
  {
  }

  /** `count` letters no larger than `total / count * scale` take at most `total * scale`. */
  lemma ScaledBound(count: real, x: real, total: real, scale: real)
    requires count > 0.0 && x <= total / count * scale
    ensures count * x <= total * scale
  {
    MulMonotone(count, x, total / count * scale);
    assert count * (total / count * scale) == total * scale;
  }

  lemma MulLe(a: int, x: int, y: int)
    requires a >= 0 && x <= y
    ensures a * x <= a * y
  {
  }

  lemma PerRowAtLeastRows(n: nat, rows: nat, perRow: nat)
    requires rows * rows <= n
    requires (perRow - 1) * rows < n <= perRow * rows
    ensures rows <= perRow
  {
    if perRow < rows {
      assert rows * (rows - 1) == rows * rows - rows;
      assert perRow * rows == rows * perRow;
      MulLe(rows, perRow, rows - 1);
    }
  }

  lemma OnlyLastRowShort(n: nat, rows: nat, perRow: nat)
    requires 0 < rows <= perRow
    requires (perRow - 1) * rows < n <= perRow * rows
    ensures (rows - 1) * perRow < n <= rows * perRow
  {
    assert (rows - 1) * perRow == rows * perRow - perRow;
    assert (perRow - 1) * rows == rows * perRow - rows;
    assert perRow * rows == rows * perRow;
  }

  /** There are at least as many letters per row as rows, and only the last row may be short. */
  lemma {:induction false} GridShape(n: nat)
    requires n > 0
    ensures 0 < IntSqrt(n) <= CeilDiv(n, IntSqrt(n))
    ensures (IntSqrt(n) - 1) * CeilDiv(n, IntSqrt(n)) < n <= IntSqrt(n) * CeilDiv(n, IntSqrt(n))
  {
    var rows := IntSqrt(n);
    var perRow := CeilDiv(n, rows);
    PerRowAtLeastRows(n, rows, perRow);
    OnlyLastRowShort(n, rows, perRow);
  }

  /** Neither letter dimension exceeds what the box allows, one of them reaches it, and the
      height stays within `MAX_LETTER_HEIGHT`. */
  lemma ArrangeWithinWanted(rows: nat, perRow: nat, scale: real, boxWidth: int, boxHeight: int)
    requires rows > 0 && perRow > 0
    ensures var g := Arrange(rows, perRow, scale, boxWidth, boxHeight);
      && g.letterHeight <= WantHeight(rows, scale, boxHeight)
      && g.letterWidth <= WantWidth(perRow, scale, boxWidth)
      && (g.letterHeight == WantHeight(rows, scale, boxHeight) || g.letterWidth == WantWidth(perRow, scale, boxWidth))
      && g.letterHeight <= MAX_LETTER_HEIGHT
  {
    LetterSizeBounds(WantHeight(rows, scale, boxHeight), WantWidth(perRow, scale, boxWidth));
  }

  /** The grid takes at most the scaled box, and its margins on either side are equal. */
  lemma ArrangeCentred(rows: nat, perRow: nat, scale: real, boxWidth: int, boxHeight: int)
    requires rows > 0 && perRow > 0
    ensures var g := Arrange(rows, perRow, scale, boxWidth, boxHeight);
      && g.rows as real * g.letterHeight <= boxHeight as real * scale
      && g.perRow as real * g.letterWidth <= boxWidth as real * scale
      && 2.0 * g.offsetX + g.perRow as real * g.letterWidth == boxWidth as real
      && 2.0 * g.offsetY + g.rows as real * g.letterHeight == boxHeight as real
  {
    var wantHeight, wantWidth := WantHeight(rows, scale, boxHeight), WantWidth(perRow, scale, boxWidth);
    LetterSizeBounds(wantHeight, wantWidth);
    var size := LetterSize(wantHeight, wantWidth);
    assert wantHeight <= boxHeight as real / rows as real * scale;
    assert wantWidth <= boxWidth as real / perRow as real * scale;
    ScaledBound(rows as real, size.1, boxHeight as real, scale);
    ScaledBound(perRow as real, size.0, boxWidth as real, scale);
  }

  /** With a scale of at most one, a box of non-negative size gives letters of non-negative size
      and non-negative offsets, so the source's offset assertions hold. */
  lemma ArrangeNonNegative(rows: nat, perRow: nat, scale: real, boxWidth: int, boxHeight: int)
    requires rows > 0 && perRow > 0 && 0.0 <= scale <= 1.0
    requires boxWidth >= 0 && boxHeight >= 0
    ensures var g := Arrange(rows, perRow, scale, boxWidth, boxHeight);
      g.letterWidth >= 0.0 && g.letterHeight >= 0.0 && g.offsetX >= 0.0 && g.offsetY >= 0.0
  {
    ArrangeSizeNonNegative(rows, perRow, scale, boxWidth, boxHeight);
    ArrangeCentred(rows, perRow, scale, boxWidth, boxHeight);
    CentredNonNegative(Arrange(rows, perRow, scale, boxWidth, boxHeight), scale, boxWidth, boxHeight);
  }

  /** A non-negative box gives letters of non-negative size. */
  lemma ArrangeSizeNonNegative(rows: nat, perRow: nat, scale: real, boxWidth: int, boxHeight: int)
    requires rows > 0 && perRow > 0 && 0.0 <= scale
    requires boxWidth >= 0 && boxHeight >= 0
    ensures var g := Arrange(rows, perRow, scale, boxWidth, boxHeight);
      g.letterWidth >= 0.0 && g.letterHeight >= 0.0
  {
    NonNegativeShare(boxHeight as real, rows as real, scale);
    NonNegativeShare(boxWidth as real, perRow as real, scale);
    LetterSizeBounds(WantHeight(rows, scale, boxHeight), WantWidth(perRow, scale, boxWidth));
  }

  /** A grid centred in a box, using at most `scale <= 1` of it, starts inside the box. */
  lemma CentredNonNegative(g: Layout, scale: real, boxWidth: int, boxHeight: int)
    requires 0.0 <= scale <= 1.0 && boxWidth >= 0 && boxHeight >= 0
    requires g.rows as real * g.letterHeight <= boxHeight as real * scale
    requires g.perRow as real * g.letterWidth <= boxWidth as real * scale
    requires 2.0 * g.offsetX + g.perRow as real * g.letterWidth == boxWidth as real
    requires 2.0 * g.offsetY + g.rows as real * g.letterHeight == boxHeight as real
    ensures g.offsetX >= 0.0 && g.offsetY >= 0.0
  {
    MulMonotone(boxWidth as real, scale, 1.0);
    MulMonotone(boxHeight as real, scale, 1.0);
  }

  /** The row of letter `k` when rows hold `perRow` letters: `k // perRow`. */
  function RowOf(k: nat, perRow: nat): nat
    requires perRow > 0
  {
    if k < perRow then 0 else 1 + RowOf(k - perRow, perRow)
  }

  /** The column of letter `k`: `k % perRow`. */
  function ColumnOf(k: nat, perRow: nat): nat
    requires perRow > 0
  {
    if k < perRow then k else ColumnOf(k - perRow, perRow)
  }

  /** Letter `row * perRow + col` sits in row `row`, column `col`. */
  lemma {:induction false} RowMajor(row: nat, col: nat, perRow: nat)
    requires col < perRow
    ensures RowOf(row * perRow + col, perRow) == row && ColumnOf(row * perRow + col, perRow) == col
  {
    if row > 0 {
      assert row * perRow + col - perRow == (row - 1) * perRow + col;
      RowMajor(row - 1, col, perRow);
    }
  }

  /** Every letter has a row and a column, and they give it back. */
  lemma {:induction false} RowColumnOf(k: nat, perRow: nat)
    requires perRow > 0
    ensures ColumnOf(k, perRow) < perRow
    ensures RowOf(k, perRow) * perRow + ColumnOf(k, perRow) == k
  {
    if k >= perRow {
      RowColumnOf(k - perRow, perRow);
      assert (RowOf(k - perRow, perRow) + 1) * perRow == RowOf(k - perRow, perRow) * perRow + perRow;
    }
  }

  /** Whether the last row holds fewer than `perRow` letters. */
  predicate ShortLastRow(g: Layout, n: nat) {
    n != g.rows * g.perRow
  }

  /** How far a short last row is shifted right: half the width it lacks. */
  function ShortRowShift(g: Layout, n: nat): real {
    var remaining := n - (g.rows - 1) * g.perRow;
    var widthOfRemaining := g.letterWidth * remaining as real;
    var widthOfFullRow := g.letterWidth * g.perRow as real;
    (widthOfFullRow - widthOfRemaining) / 2.0
  }

  /** The unrounded left edge of the letter in column `col` of a full row. */
  function FullRowLeft(g: Layout, boxLeft: int, col: nat): real {
    g.offsetX + boxLeft as real + col as real * g.letterWidth
  }

  /** The unrounded left edge of the letter in column `col` of a short last row. */
  function ShortRowLeft(g: Layout, n: nat, boxLeft: int, col: nat): real {
    ShortRowShift(g, n) + g.offsetX + boxLeft as real + col as real * g.letterWidth
  }

  /** The unrounded left edge of the letter in row `row`, column `col`. */
  function CellLeft(g: Layout, n: nat, boxLeft: int, row: nat, col: nat): real {
    if row == g.rows - 1 && ShortLastRow(g, n) then ShortRowLeft(g, n, boxLeft, col)
    else FullRowLeft(g, boxLeft, col)
  }

  /** The unrounded top edge of the letters in row `row`. */
  function CellTop(g: Layout, boxTop: int, row: nat): real {
    g.offsetY + boxTop as real + row as real * g.letterHeight
  }

  /** The `Rect` of letter `k`. */
  function Cell(g: Layout, n: nat, boxLeft: int, boxTop: int, k: nat): Bounds
    requires g.perRow > 0
  {
    var row, col := RowOf(k, g.perRow), ColumnOf(k, g.perRow);
    RoundedBounds(CellLeft(g, n, boxLeft, row, col), CellTop(g, boxTop, row), g.letterWidth, g.letterHeight)
  }

  /** Letter `row * perRow + col` is the one in row `row`, column `col`. */
  lemma CellAt(g: Layout, n: nat, boxLeft: int, boxTop: int, row: nat, col: nat, k: nat)
    requires col < g.perRow && k == row * g.perRow + col
    ensures Cell(g, n, boxLeft, boxTop, k)
      == RoundedBounds(CellLeft(g, n, boxLeft, row, col), CellTop(g, boxTop, row), g.letterWidth, g.letterHeight)
  {
    RowMajor(row, col, g.perRow);
  }

  /** A letter of a full row. */
  lemma FullRowCell(g: Layout, n: nat, boxLeft: int, boxTop: int, row: nat, col: nat, k: nat, x: real, y: real)
    requires col < g.perRow && k == row * g.perRow + col
    requires row < g.rows - 1 || !ShortLastRow(g, n)
    requires x == FullRowLeft(g, boxLeft, col) && y == CellTop(g, boxTop, row)
    ensures Cell(g, n, boxLeft, boxTop, k) == RoundedBounds(x, y, g.letterWidth, g.letterHeight)
  {
    CellAt(g, n, boxLeft, boxTop, row, col, k);
  }

  /** A letter of a short last row. */
  lemma ShortRowCell(g: Layout, n: nat, boxLeft: int, boxTop: int, row: nat, col: nat, k: nat, x: real, y: real)
    requires row == g.rows - 1 && col < g.perRow && ShortLastRow(g, n) && k == row * g.perRow + col
    requires x == ShortRowLeft(g, n, boxLeft, col) && y == CellTop(g, boxTop, row)
    ensures Cell(g, n, boxLeft, boxTop, k) == RoundedBounds(x, y, g.letterWidth, g.letterHeight)
  {
    CellAt(g, n, boxLeft, boxTop, row, col, k);
  }

  /** Letter `k` of `n` sits in one of the grid's rows, and in a short last row it is one of
      the `remaining` letters. */
  lemma {:induction false} CellInGrid(rows: nat, perRow: nat, n: nat, k: nat)
    requires 0 < rows && 0 < perRow && k < n <= rows * perRow
    ensures RowOf(k, perRow) < rows && ColumnOf(k, perRow) < perRow
    ensures RowOf(k, perRow) == rows - 1 ==> ColumnOf(k, perRow) < n - (rows - 1) * perRow
  {
    var row, col := RowOf(k, perRow), ColumnOf(k, perRow);
    RowColumnOf(k, perRow);
    if row >= rows {
      assert perRow * rows == rows * perRow && perRow * row == row * perRow;
      MulLe(perRow, rows, row);
    }
    if row == rows - 1 {
      MulEqual(row, rows - 1, perRow);
    }
  }

  lemma MulEqual(a: int, b: int, c: int)
    requires a == b
    ensures a * c == b * c
  {
  }

  /** A letter ends where the next one in its row starts. */
  lemma NextLeft(g: Layout, n: nat, boxLeft: int, row: nat, col: nat)
    ensures CellLeft(g, n, boxLeft, row, col) + g.letterWidth == CellLeft(g, n, boxLeft, row, col + 1)
  {
    assert (col + 1) as real * g.letterWidth == col as real * g.letterWidth + g.letterWidth;
  }

  /** Letters further right in a row start further right. */
  lemma LeftMonotone(g: Layout, n: nat, boxLeft: int, row: nat, a: nat, b: nat)
    requires a <= b && g.letterWidth >= 0.0
    ensures CellLeft(g, n, boxLeft, row, a) <= CellLeft(g, n, boxLeft, row, b)
  {
    MulMonotone(g.letterWidth, a as real, b as real);
  }

  /** A row ends where the next one starts. */
  lemma NextTop(g: Layout, boxTop: int, row: nat)
    ensures CellTop(g, boxTop, row) + g.letterHeight == CellTop(g, boxTop, row + 1)
  {
    assert (row + 1) as real * g.letterHeight == row as real * g.letterHeight + g.letterHeight;
  }

  /** Lower rows start lower. */
  lemma TopMonotone(g: Layout, boxTop: int, a: nat, b: nat)
    requires a <= b && g.letterHeight >= 0.0
    ensures CellTop(g, boxTop, a) <= CellTop(g, boxTop, b)
  {
    MulMonotone(g.letterHeight, a as real, b as real);
  }

  /** Letters of non-negative size, with equal, non-negative margins on either side of the
      grid: what `Fit` gives for a box of non-negative size. */
  predicate Centred(g: Layout, boxWidth: int, boxHeight: int) {
    && g.letterWidth >= 0.0 && g.letterHeight >= 0.0 && g.offsetX >= 0.0 && g.offsetY >= 0.0
    && 2.0 * g.offsetX + g.perRow as real * g.letterWidth == boxWidth as real
    && 2.0 * g.offsetY + g.rows as real * g.letterHeight == boxHeight as real
  }

  lemma ArrangeIsCentred(rows: nat, perRow: nat, scale: real, boxWidth: int, boxHeight: int)
    requires rows > 0 && perRow > 0 && 0.0 <= scale <= 1.0
    requires boxWidth >= 0 && boxHeight >= 0
    ensures Centred(Arrange(rows, perRow, scale, boxWidth, boxHeight), boxWidth, boxHeight)
  {
    ArrangeNonNegative(rows, perRow, scale, boxWidth, boxHeight);
    ArrangeCentred(rows, perRow, scale, boxWidth, boxHeight);
  }

  /** For a box of non-negative size the grid is centred, so the source's offset assertions
      never fail. */
  lemma FitCentred(n: nat, boxWidth: int, boxHeight: int)
    requires n > 0 && boxWidth >= 0 && boxHeight >= 0
    ensures Centred(Fit(n, boxWidth, boxHeight), boxWidth, boxHeight)
  {
    ArrangeIsCentred(IntSqrt(n), CeilDiv(n, IntSqrt(n)), Scale(n), boxWidth, boxHeight);
  }

  /** A short last row is shifted right by a non-negative amount. */
  lemma ShortRowShiftNonNegative(g: Layout, n: nat)
    requires 0 < g.rows && (g.rows - 1) * g.perRow < n <= g.rows * g.perRow && g.letterWidth >= 0.0
    ensures ShortRowShift(g, n) >= 0.0
  {
    var remaining := n - (g.rows - 1) * g.perRow;
    assert (g.rows - 1) * g.perRow == g.rows * g.perRow - g.perRow;
    MulMonotone(g.letterWidth, remaining as real, g.perRow as real);
  }

  /** A full row ends at the box's right edge less the margin. */
  lemma FullRowEnd(g: Layout, boxLeft: int, boxWidth: int)
    requires 2.0 * g.offsetX + g.perRow as real * g.letterWidth == boxWidth as real
    ensures FullRowLeft(g, boxLeft, g.perRow) + g.offsetX == boxLeft as real + boxWidth as real
  {
  }

  /** A short row, centred, ends before a full row does. */
  lemma ShortRowEnd(g: Layout, n: nat, boxLeft: int, remaining: nat)
    requires remaining == n - (g.rows - 1) * g.perRow && remaining <= g.perRow && g.letterWidth >= 0.0
    ensures ShortRowLeft(g, n, boxLeft, remaining) <= FullRowLeft(g, boxLeft, g.perRow)
  {
    MulMonotone(g.letterWidth, remaining as real, g.perRow as real);
  }

  /** The rows end at the box's bottom edge less the margin. */
  lemma LastRowEnd(g: Layout, boxTop: int, boxHeight: int)
    requires 2.0 * g.offsetY + g.rows as real * g.letterHeight == boxHeight as real
    ensures CellTop(g, boxTop, g.rows) + g.offsetY == boxTop as real + boxHeight as real
  {
  }

  /** A row starts at or below the box's top edge. */
  lemma RowStart(g: Layout, boxTop: int, row: nat)
    requires g.letterHeight >= 0.0 && g.offsetY >= 0.0
    ensures boxTop as real <= CellTop(g, boxTop, row)
  {
    TopMonotone(g, boxTop, 0, row);
  }

  /** A letter starts at or right of the box's left edge. */
  lemma ColumnStart(g: Layout, n: nat, boxLeft: int, row: nat, col: nat)
    requires g.letterWidth >= 0.0 && g.offsetX >= 0.0
    requires 0 < g.rows && (g.rows - 1) * g.perRow < n <= g.rows * g.perRow
    ensures boxLeft as real <= CellLeft(g, n, boxLeft, row, col)
  {
    LeftMonotone(g, n, boxLeft, row, 0, col);
    if row == g.rows - 1 && ShortLastRow(g, n) {
      ShortRowShiftNonNegative(g, n);
    }
  }

  /** Before rounding, the rectangle of every letter lies inside the box. */
  lemma {:induction false} CellInsideBox(g: Layout, n: nat, box: Bounds, k: nat)
    requires 0 < g.rows && 0 < g.perRow && k < n
    requires (g.rows - 1) * g.perRow < n <= g.rows * g.perRow
    requires Centred(g, box.width, box.height)
    ensures var row, col := RowOf(k, g.perRow), ColumnOf(k, g.perRow);
      && box.left as real <= CellLeft(g, n, box.left, row, col)
      && CellLeft(g, n, box.left, row, col) + g.letterWidth <= box.left as real + box.width as real
      && box.top as real <= CellTop(g, box.top, row)
      && CellTop(g, box.top, row) + g.letterHeight <= box.top as real + box.height as real
  {
    var row, col := RowOf(k, g.perRow), ColumnOf(k, g.perRow);
    CellInGrid(g.rows, g.perRow, n, k);
    RowStart(g, box.top, row);
    NextTop(g, box.top, row);
    TopMonotone(g, box.top, row + 1, g.rows);
    LastRowEnd(g, box.top, box.height);
    ColumnStart(g, n, box.left, row, col);
    NextLeft(g, n, box.left, row, col);
    FullRowEnd(g, box.left, box.width);
    if row == g.rows - 1 && ShortLastRow(g, n) {
      var remaining := n - (g.rows - 1) * g.perRow;
      assert (g.rows - 1) * g.perRow == g.rows * g.perRow - g.perRow;
      LeftMonotone(g, n, box.left, row, col + 1, remaining);
      ShortRowEnd(g, n, box.left, remaining);
    } else {
      LeftMonotone(g, n, box.left, row, col + 1, g.perRow);
    }
  }

  /** Letters come in reading order: a later letter is in a later row, or further right in
      the same row. */
  lemma {:induction false} ReadingOrder(perRow: nat, k1: nat, k2: nat)
    requires 0 < perRow && k1 < k2
    ensures RowOf(k1, perRow) < RowOf(k2, perRow)
      || (RowOf(k1, perRow) == RowOf(k2, perRow) && ColumnOf(k1, perRow) < ColumnOf(k2, perRow))
  {
    var r1, r2 := RowOf(k1, perRow), RowOf(k2, perRow);
    RowColumnOf(k1, perRow);
    RowColumnOf(k2, perRow);
    if r1 > r2 {
      assert perRow * (r2 + 1) == r2 * perRow + perRow && perRow * r1 == r1 * perRow;
      MulLe(perRow, r2 + 1, r1);
    }
  }

  /** Before rounding, two different letters do not overlap: an earlier one ends above or to
      the left of a later one. */
  lemma {:induction false} CellsDisjoint(g: Layout, n: nat, boxLeft: int, boxTop: int, k1: nat, k2: nat)
    requires 0 < g.perRow && k1 < k2 && g.letterWidth >= 0.0 && g.letterHeight >= 0.0
    ensures var r1, c1, r2, c2 := RowOf(k1, g.perRow), ColumnOf(k1, g.perRow), RowOf(k2, g.perRow), ColumnOf(k2, g.perRow);
      || CellTop(g, boxTop, r1) + g.letterHeight <= CellTop(g, boxTop, r2)
      || (r1 == r2 && CellLeft(g, n, boxLeft, r1, c1) + g.letterWidth <= CellLeft(g, n, boxLeft, r2, c2))
  {
    var r1, r2 := RowOf(k1, g.perRow), RowOf(k2, g.perRow);
    var c1, c2 := ColumnOf(k1, g.perRow), ColumnOf(k2, g.perRow);
    ReadingOrder(g.perRow, k1, k2);
    if r1 < r2 {
      NextTop(g, boxTop, r1);
      TopMonotone(g, boxTop, r1 + 1, r2);
    } else {
      NextLeft(g, n, boxLeft, r1, c1);
      LeftMonotone(g, n, boxLeft, r1, c1 + 1, c2);
    }
  }

  /**
   * `__fit_text_to_this_box`: one fresh rectangle per letter of `text`, in reading order. An
   * offset below zero (a box of negative size) fails the source's assertion, with the text as
   * its message.
   */
  method FitTextToBox(text: string, box: Rect) returns (r: Result<seq<Rect>>)
    requires |text| > 0
    ensures var g := Fit(|text|, box.width, box.height);
      r.Err? <==> g.offsetX < 0.0 || g.offsetY < 0.0
    ensures r.Err? ==> r.error == AssertionError(text)
    ensures r.Ok? ==> |r.value| == |text|
    ensures r.Ok? ==> forall k :: 0 <= k < |text| ==> fresh(r.value[k])
    ensures r.Ok? ==> forall k :: 0 <= k < |text| ==>
      r.value[k].Value() == Cell(Fit(|text|, box.width, box.height), |text|, box.left, box.top, k)
  {
    var n := |text|;
    var g := Fit(n, box.width, box.height);
    GridShape(n);
    if g.offsetX < 0.0 || g.offsetY < 0.0 {
      return Err(AssertionError(text));
    }
    var rects := PlaceLetters(g, n, box.left, box.top);
    assert |rects| > 0;
    r := Ok(rects);
  }

  /** The loops of `__fit_text_to_this_box`: the full rows, then the last row. */
  method PlaceLetters(g: Layout, n: nat, left: int, top: int) returns (rects: seq<Rect>)
    requires 0 < g.rows && 0 < g.perRow
    requires (g.rows - 1) * g.perRow < n <= g.rows * g.perRow
    ensures |rects| == n
    ensures forall k :: 0 <= k < n ==> fresh(rects[k]) && rects[k].Value() == Cell(g, n, left, top, k)
  {
    rects := PlaceFullRows(g, n, left, top);
    rects := PlaceLastRow(g, n, left, top, rects);
  }

  /** All rows but the last, row by row. */
  method PlaceFullRows(g: Layout, n: nat, left: int, top: int) returns (rects: seq<Rect>)
    requires 0 < g.rows && 0 < g.perRow
    ensures |rects| == (g.rows - 1) * g.perRow
    ensures forall k :: 0 <= k < |rects| ==> fresh(rects[k]) && rects[k].Value() == Cell(g, n, left, top, k)
  {
    rects := [];
    var i := 0;
    while i < g.rows - 1
      invariant 0 <= i <= g.rows - 1
      invariant |rects| == i * g.perRow
      invariant forall k :: 0 <= k < |rects| ==> fresh(rects[k]) && rects[k].Value() == Cell(g, n, left, top, k)
    {
      var j := 0;
      while j < g.perRow
        invariant 0 <= j <= g.perRow
        invariant |rects| == i * g.perRow + j
        invariant forall k :: 0 <= k < |rects| ==> fresh(rects[k]) && rects[k].Value() == Cell(g, n, left, top, k)
      {
        var x, y := FullRowLeft(g, left, j), CellTop(g, top, i);
        FullRowCell(g, n, left, top, i, j, |rects|, x, y);
        var rect := new Rect(x, y, g.letterWidth, g.letterHeight);
        rects := rects + [rect];
        j := j + 1;
      }
      assert i * g.perRow + g.perRow == (i + 1) * g.perRow;
      i := i + 1;
    }
  }

  /** The last row: shifted right by `ShortRowShift` when it is short, a full row otherwise. */
  method PlaceLastRow(g: Layout, n: nat, left: int, top: int, rows: seq<Rect>) returns (rects: seq<Rect>)
    requires 0 < g.rows && 0 < g.perRow
    requires (g.rows - 1) * g.perRow < n <= g.rows * g.perRow
    requires |rows| == (g.rows - 1) * g.perRow
    requires forall k :: 0 <= k < |rows| ==> rows[k].Value() == Cell(g, n, left, top, k)
    ensures |rects| == n && rects[..|rows|] == rows
    ensures forall k :: |rows| <= k < n ==> fresh(rects[k])
    ensures forall k :: 0 <= k < n ==> rects[k].Value() == Cell(g, n, left, top, k)
  {
    if ShortLastRow(g, n) {
      rects := PlaceShortRow(g, n, left, top, rows);
    } else {
      rects := PlaceFullLastRow(g, n, left, top, rows);
    }
  }

  /** A short last row: its `remaining` letters, shifted right by `ShortRowShift`. */
  method PlaceShortRow(g: Layout, n: nat, left: int, top: int, rows: seq<Rect>) returns (rects: seq<Rect>)
    requires 0 < g.rows && 0 < g.perRow && ShortLastRow(g, n)
    requires (g.rows - 1) * g.perRow < n <= g.rows * g.perRow
    requires |rows| == (g.rows - 1) * g.perRow
    requires forall k :: 0 <= k < |rows| ==> rows[k].Value() == Cell(g, n, left, top, k)
    ensures |rects| == n && rects[..|rows|] == rows
    ensures forall k :: |rows| <= k < n ==> fresh(rects[k])
    ensures forall k :: 0 <= k < n ==> rects[k].Value() == Cell(g, n, left, top, k)
  {
    var lastRow := g.rows - 1;
    var remaining := n - lastRow * g.perRow;
    var extraOffset := ShortRowShift(g, n);
    var row: seq<Rect> := [];
    for j := 0 to remaining
      invariant |row| == j
      invariant forall k :: 0 <= k < j ==> fresh(row[k]) && row[k].Value() == Cell(g, n, left, top, |rows| + k)
    {
      var x, y := extraOffset + g.offsetX + left as real + j as real * g.letterWidth, CellTop(g, top, lastRow);
      ShortRowCell(g, n, left, top, lastRow, j, |rows| + j, x, y);
      var rect := new Rect(x, y, g.letterWidth, g.letterHeight);
      row := row + [rect];
    }
    rects := rows + row;
  }

  /** A full last row: `perRow` letters from the grid's left edge. */
  method PlaceFullLastRow(g: Layout, n: nat, left: int, top: int, rows: seq<Rect>) returns (rects: seq<Rect>)
    requires 0 < g.rows && 0 < g.perRow && !ShortLastRow(g, n)
    requires |rows| == (g.rows - 1) * g.perRow
    requires forall k :: 0 <= k < |rows| ==> rows[k].Value() == Cell(g, n, left, top, k)
    ensures |rects| == n && rects[..|rows|] == rows
    ensures forall k :: |rows| <= k < n ==> fresh(rects[k])
    ensures forall k :: 0 <= k < n ==> rects[k].Value() == Cell(g, n, left, top, k)
  {
    var lastRow := g.rows - 1;
    var row: seq<Rect> := [];
    for j := 0 to g.perRow
      invariant |row| == j
      invariant forall k :: 0 <= k < j ==> fresh(row[k]) && row[k].Value() == Cell(g, n, left, top, |rows| + k)
    {
      var x, y := FullRowLeft(g, left, j), CellTop(g, top, lastRow);
      FullRowCell(g, n, left, top, lastRow, j, |rows| + j, x, y);
      var rect := new Rect(x, y, g.letterWidth, g.letterHeight);
      row := row + [rect];
    }
    rects := rows + row;
    assert lastRow * g.perRow + g.perRow == g.rows * g.perRow;
  }

  /** Which sprite each of `objs` shows. */
  ghost function Cursors(objs: set<AnimatedObject>): map<AnimatedObject, nat>
    reads objs
  {
    map o | o in objs :: o.cursor
  }

  /** Each of `objs` has a cursor in `cursors`, on one of its sprites, of the size of its box. */
  ghost predicate Showable(objs: seq<AnimatedObject>, cursors: map<AnimatedObject, nat>)
  {
    forall k :: 0 <= k < |objs| ==> objs[k] in cursors && objs[k].CanShow(cursors[objs[k]])
  }

  /** The pixel at row `i`, column `j` after drawing `layers` in order over a pixel `base`:
      the last layer covering it wins. */
  function Over(layers: seq<Layer>, i: int, j: int, base: Color): Color
    requires forall k :: 0 <= k < |layers| ==> layers[k].Fits()
  {
    if |layers| == 0 then base
    else
      var last := layers[|layers| - 1];
      if last.bounds.Covers(i, j) then last.At(i, j) else Over(layers[..|layers| - 1], i, j, base)
  }

  /** Drawing `p` and then `q` paints what drawing `q` over the result of `p` paints. */
  lemma {:induction false} OverConcat(p: seq<Layer>, q: seq<Layer>, i: int, j: int, base: Color)
    requires forall k :: 0 <= k < |p| ==> p[k].Fits()
    requires forall k :: 0 <= k < |q| ==> q[k].Fits()
    ensures forall k :: 0 <= k < |p + q| ==> (p + q)[k].Fits()
    ensures Over(p + q, i, j, base) == Over(q, i, j, Over(p, i, j, base))
  {
    if |q| == 0 {
      assert p + q == p;
    } else {
      assert (p + q)[..|p + q| - 1] == p + q[..|q| - 1];
      OverConcat(p, q[..|q| - 1], i, j, base);
    }
  }

  /** A pixel no layer covers keeps its colour. */
  lemma {:induction false} OverUncovered(layers: seq<Layer>, i: int, j: int, base: Color)
    requires forall k :: 0 <= k < |layers| ==> layers[k].Fits() && !layers[k].bounds.Covers(i, j)
    ensures Over(layers, i, j, base) == base
  {
    if |layers| > 0 {
      OverUncovered(layers[..|layers| - 1], i, j, base);
    }
  }

  /** What `objs` show, in order, each with the cursor `cursors` gives it. */
  ghost function Picture(objs: seq<AnimatedObject>, cursors: map<AnimatedObject, nat>): (p: seq<Layer>)
    requires Showable(objs, cursors)
    ensures |p| == |objs|
    ensures forall k :: 0 <= k < |objs| ==> p[k] == objs[k].Showing(cursors[objs[k]]) && p[k].Fits()
  {
    if |objs| == 0 then []
    else
      var last := objs[|objs| - 1];
      Picture(objs[..|objs| - 1], cursors) + [last.Showing(cursors[last])]
  }

  /** The picture of `a + b` is the picture of `a` and then that of `b`. */
  lemma PictureConcat(a: seq<AnimatedObject>, b: seq<AnimatedObject>, cursors: map<AnimatedObject, nat>)
    requires Showable(a, cursors) && Showable(b, cursors)
    ensures Showable(a + b, cursors)
    ensures Picture(a + b, cursors) == Picture(a, cursors) + Picture(b, cursors)
  {
    assert forall k :: 0 <= k < |a + b| ==> (a + b)[k] == if k < |a| then a[k] else b[k - |a|];
  }

  /** Draws each of `objs` on `surface` in order, each showing the sprite its cursor, recorded
      in `cursors`, picks. */
  method DrawLayers(objs: seq<AnimatedObject>, surface: array2<Color>, ghost cursors: map<AnimatedObject, nat>)
    requires forall k :: 0 <= k < |objs| ==> objs[k].Valid() && objs[k].FitsIn(surface)
    requires forall k :: 0 <= k < |objs| ==> objs[k] in cursors && cursors[objs[k]] == objs[k].cursor
    modifies surface
    ensures Showable(objs, cursors)
    ensures forall i, j :: 0 <= i < surface.Length0 && 0 <= j < surface.Length1 ==>
      surface[i, j] == Over(Picture(objs, cursors), i, j, old(surface[i, j]))
  {
    ghost var picture := Picture(objs, cursors);
    for n := 0 to |objs|
      invariant forall i, j :: 0 <= i < surface.Length0 && 0 <= j < surface.Length1 ==>
        surface[i, j] == Over(picture[..n], i, j, old(surface[i, j]))
    {
      objs[n].Draw(surface);
      assert objs[n].Showing(objs[n].cursor) == picture[n];
      assert picture[..n + 1][..n] == picture[..n];
    }
    assert picture[..|objs|] == picture;
  }

  /** Every letter has the rounded letter size. */
  lemma CellSize(g: Layout, n: nat, boxLeft: int, boxTop: int, k: nat)
    requires g.perRow > 0
    ensures Cell(g, n, boxLeft, boxTop, k).width == Round(g.letterWidth)
    ensures Cell(g, n, boxLeft, boxTop, k).height == Round(g.letterHeight)
  {
  }

  /** `AnimatedWord`: the background tile (the object the word is) and its letters. */
  class AnimatedWord {
    const text: string
    const box: Rect
    const tile: AnimatedObject
    const letters: seq<AnimatedObject>

    /** The tile and the letters are valid, distinct objects, one letter for each character. */
    ghost predicate Valid()
      reads this, tile, letters
    {
      && |text| > 0 && |letters| == |text|
      && tile.Valid()
      && (forall k :: 0 <= k < |letters| ==> letters[k].Valid())
      && tile !in letters
      && (forall a, b :: 0 <= a < b < |letters| ==> letters[a] != letters[b])
    }

    /** What `draw` paints, in order: the tile, then every letter. */
    function Layers(): (objs: seq<AnimatedObject>)
      ensures |objs| == |letters| + 1 && objs[0] == tile && objs[1..] == letters
    {
      [tile] + letters
    }

    /** The tile and the letters. */
    ghost function Objects(): set<AnimatedObject> {
      {tile} + set o | o in letters
    }

    constructor (text: string, box: Rect, tile: AnimatedObject, letters: seq<AnimatedObject>)
      ensures this.text == text && this.box == box && this.tile == tile && this.letters == letters
    {
      this.text := text;
      this.box := box;
      this.tile := tile;
      this.letters := letters;
    }

    /**
     * `AnimatedWord(text, box, text_color, background_color)`: the letters are made first,
     * one per character on the rectangles of `FitTextToBox`, then the background tile, the
     * object loaded as `BACKGROUND_SPRITE_FILENAME` in the background colour over
     * `BACKGROUND_COLOR`. `letterPictures[k]` holds the decoded sprites of letter `k` at the
     * letter size and `tilePictures` those of the tile at the box size. The first failure is
     * the result: an empty text, then the first character without sprites, then the tile.
     */
    static method Create(text: string, box: Rect, textColor: Color, backgroundColor: Color,
                         letterPictures: seq<seq<Raster>>, tilePictures: seq<Raster>)
      returns (r: Result<AnimatedWord>)
      requires box.width >= 0 && box.height >= 0 && |letterPictures| == |text|
      requires |text| > 0 ==> forall k, m :: 0 <= k < |text| && 0 <= m < |letterPictures[k]| ==>
        IsRaster(letterPictures[k][m], Round(Fit(|text|, box.width, box.height).letterHeight),
                 Round(Fit(|text|, box.width, box.height).letterWidth))
      requires forall m :: 0 <= m < |tilePictures| ==> IsRaster(tilePictures[m], box.height, box.width)
      ensures |text| == 0 ==> r == Err(AssertionError(""))
      ensures forall k ::
        (0 <= k < |text| && |letterPictures[k]| == 0 && forall m :: 0 <= m < k ==> |letterPictures[m]| > 0) ==>
        r == Err(FileNotFoundError("Got illegal character: " + [text[k]]))
      ensures |text| > 0 && (forall k :: 0 <= k < |text| ==> |letterPictures[k]| > 0) ==>
        if |tilePictures| == 0 then r == Err(FileNotFoundError("Did not find sprites for object: " + BACKGROUND_SPRITE_FILENAME))
        else r.Ok?
      ensures r.Ok? ==> fresh(r.value) && fresh(r.value.tile) && r.value.Valid()
      ensures r.Ok? ==> r.value.text == text && r.value.box == box && |r.value.letters| == |text|
      ensures r.Ok? ==> (r.value.tile.name == BACKGROUND_SPRITE_FILENAME && r.value.tile.box == box &&
        r.value.tile.foregroundColor == backgroundColor && r.value.tile.backgroundColor == BACKGROUND_COLOR)
      ensures r.Ok? ==> forall k :: 0 <= k < |text| ==>
        && fresh(r.value.letters[k]) && r.value.letters[k].name == SpriteName(text[k])
        && r.value.letters[k].foregroundColor == textColor && r.value.letters[k].backgroundColor == backgroundColor
        && r.value.letters[k].box.Value() == Cell(Fit(|text|, box.width, box.height), |text|, box.left, box.top, k)
    {
      if |text| == 0 {
        return Err(AssertionError(""));
      }
      var g := Fit(|text|, box.width, box.height);
      var fit := FitTextToBox(text, box);
      if fit.Err? {
        FitCentred(|text|, box.width, box.height);
        assert false;
      }
      var rects := fit.value;
      FitCentred(|text|, box.width, box.height);
      RoundNonNegative(g.letterWidth);
      RoundNonNegative(g.letterHeight);
      forall k | 0 <= k < |rects|
        ensures rects[k].width == Round(g.letterWidth) && rects[k].height == Round(g.letterHeight)
      {
        CellSize(g, |text|, box.left, box.top, k);
      }
      var letters := MakeLetters(text, rects, textColor, backgroundColor, letterPictures,
                                 Round(g.letterWidth), Round(g.letterHeight));
      if letters.Err? {
        return Err(letters.error);
      }
      var tile := AnimatedObject.Load(BACKGROUND_SPRITE_FILENAME, box, backgroundColor, BACKGROUND_COLOR, tilePictures);
      if tile.Err? {
        return Err(tile.error);
      }
      var word := new AnimatedWord(text, box, tile.value, letters.value);
      r := Ok(word);
    }

    /** The list comprehension over `zip(text, rectangles)`: one letter per character, in order. */
    static method MakeLetters(text: string, rects: seq<Rect>, textColor: Color, backgroundColor: Color,
                              letterPictures: seq<seq<Raster>>, width: int, height: int)
      returns (r: Result<seq<AnimatedObject>>)
      requires |rects| == |text| == |letterPictures| && width >= 0 && height >= 0
      requires forall k :: 0 <= k < |rects| ==> rects[k].width == width && rects[k].height == height
      requires forall k, m :: 0 <= k < |text| && 0 <= m < |letterPictures[k]| ==>
        IsRaster(letterPictures[k][m], height, width)
      ensures r.Err? <==> exists k :: 0 <= k < |text| && |letterPictures[k]| == 0
      ensures forall k ::
        (0 <= k < |text| && |letterPictures[k]| == 0 && forall m :: 0 <= m < k ==> |letterPictures[m]| > 0) ==>
        r == Err(FileNotFoundError("Got illegal character: " + [text[k]]))
      ensures r.Ok? ==> |r.value| == |text|
      ensures r.Ok? ==> forall k :: 0 <= k < |text| ==>
        && fresh(r.value[k]) && r.value[k].Valid() && r.value[k].name == SpriteName(text[k])
        && r.value[k].foregroundColor == textColor && r.value[k].backgroundColor == backgroundColor
        && r.value[k].box == rects[k]
      ensures r.Ok? ==> forall a, b :: 0 <= a < b < |text| ==> r.value[a] != r.value[b]
    {
      var letters: seq<AnimatedObject> := [];
      for k := 0 to |text|
        invariant |letters| == k
        invariant Pictured(letterPictures, k)
        invariant forall m :: 0 <= m < k ==>
          fresh(letters[m]) && IsLetter(letters[m], text[m], rects[m], textColor, backgroundColor)
        invariant forall a, b :: 0 <= a < b < k ==> letters[a] != letters[b]
      {
        var letter := NewLetter(text[k], rects[k], textColor, backgroundColor, letterPictures[k]);
        if letter.Err? {
          return Err(letter.error);
        }
        assert IsLetter(letter.value, text[k], rects[k], textColor, backgroundColor);
        letters := letters + [letter.value];
      }
      r := Ok(letters);
    }

    /** None of the first `k` characters lacks pictures. */
    static ghost predicate Pictured(letterPictures: seq<seq<Raster>>, k: nat)
      requires k <= |letterPictures|
    {
      forall m :: 0 <= m < k ==> |letterPictures[m]| > 0
    }

    /** `o` is the letter `c` drawn in `box`, in the word's colours. */
    static ghost predicate IsLetter(o: AnimatedObject, c: char, box: Rect, textColor: Color, backgroundColor: Color)
      reads o
    {
      && o.Valid() && o.name == SpriteName(c) && o.box == box
      && o.foregroundColor == textColor && o.backgroundColor == backgroundColor
    }

    /** `advance_animation()`: the tile steps, then each letter steps once. */
    method AdvanceAnimation()
      requires Valid()
      modifies tile, letters
      ensures Valid()
      ensures SteppedFrom(|tile.sprites|, old(tile.cursor), tile.cursor)
      ensures forall k :: 0 <= k < |letters| ==>
        SteppedFrom(|letters[k].sprites|, old(letters[k].cursor), letters[k].cursor)
    {
      tile.AdvanceAnimation();
      for n := 0 to |letters|
        invariant Valid()
        invariant SteppedFrom(|tile.sprites|, old(tile.cursor), tile.cursor)
        invariant forall k :: 0 <= k < n ==>
          SteppedFrom(|letters[k].sprites|, old(letters[k].cursor), letters[k].cursor)
        invariant forall k :: n <= k < |letters| ==> letters[k].cursor == old(letters[k].cursor)
      {
        letters[n].AdvanceAnimation();
      }
    }

    /** `draw(surface)`: every pixel ends as the tile and then the letters, in order, paint it,
        each showing the sprite its cursor, recorded in `cursors`, picks. */
    method Draw(surface: array2<Color>, ghost cursors: map<AnimatedObject, nat>)
      requires Valid()
      requires tile.FitsIn(surface) && forall k :: 0 <= k < |letters| ==> letters[k].FitsIn(surface)
      requires forall o :: o in Objects() ==> o in cursors && cursors[o] == o.cursor
      modifies surface
      ensures Showable(Layers(), cursors)
      ensures forall i, j :: 0 <= i < surface.Length0 && 0 <= j < surface.Length1 ==>
        surface[i, j] == Over(Picture(Layers(), cursors), i, j, old(surface[i, j]))
    {
      DrawLayers(Layers(), surface, cursors);
    }
  }
}
