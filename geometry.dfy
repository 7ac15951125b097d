/** The integer box of rect.py: coordinates are rounded on the way in. */
module Geometry {

  /** Python's built-in `round` on a number: the nearest integer, ties to the even one. */
  function Round(x: real): (n: int)
    ensures -0.5 <= x - n as real <= 0.5
    ensures x - n as real == 0.5 ==> n % 2 == 0
    ensures n as real - x == 0.5 ==> n % 2 == 0
  {
    var f := x.Floor;
    var d := x - f as real;
    if d < 0.5 then f
    else if d > 0.5 then f + 1
    else if f % 2 == 0 then f
    else f + 1
  }

  /** Rounding leaves an integer as it is. */
  lemma RoundOfInt(n: int)
    ensures Round(n as real) == n
  {
  }

  /** A non-negative number rounds to a non-negative integer. */
  lemma RoundNonNegative(x: real)
    requires x >= 0.0
    ensures Round(x) >= 0
  {
  }

  /** Rounding is monotone: a larger argument never rounds lower. */
  lemma RoundMonotone(x: real, y: real)
    requires x <= y
    ensures Round(x) <= Round(y)
  {
  }

  /** The value of a `Rect`: its four (already rounded) integers. */
  datatype Bounds = Bounds(left: int, top: int, width: int, height: int)
  {
    function Right(): int { left + width }
    function Bottom(): int { top + height }

    /** Whether pixel row `i`, column `j` lies in rows [top, bottom) x columns [left, right). */
    predicate Covers(i: int, j: int) {
      top <= i < Bottom() && left <= j < Right()
    }
  }

  /** The bounds `Rect(left, top, width, height)` stores: every coordinate rounded. */
  function RoundedBounds(left: real, top: real, width: real, height: real): (b: Bounds)
    ensures -0.5 <= left - b.left as real <= 0.5 && -0.5 <= top - b.top as real <= 0.5
    ensures -0.5 <= width - b.width as real <= 0.5 && -0.5 <= height - b.height as real <= 0.5
  {
    Bounds(Round(left), Round(top), Round(width), Round(height))
  }

  /** rect.py's `Rect`. Width and height have no setters, so they are constants here. */
  class Rect {
    var left: int
    var top: int
    const width: int
    const height: int

    constructor (left: real, top: real, width: real, height: real)
      ensures Value() == RoundedBounds(left, top, width, height)
    {
      this.left := Round(left);
      this.top := Round(top);
      this.width := Round(width);
      this.height := Round(height);
    }

    function Value(): Bounds
      reads this
    {
      Bounds(left, top, width, height)
    }

    function Right(): (r: int)
      reads this
      ensures r - left == width
    {
      left + width
    }

    function Bottom(): (b: int)
      reads this
      ensures b - top == height
    {
      top + height
    }

    /** The `(width, height)` pair PIL's resize is given. */
    function Size(): (s: (int, int))
      reads this
      ensures s.0 == Right() - left && s.1 == Bottom() - top
    {
      (width, height)
    }

    method SetLeft(value: real)
      modifies this`left
      ensures left == Round(value)
      ensures Right() == Round(value) + width
      ensures top == old(top)
    {
      left := Round(value);
    }

    method SetTop(value: real)
      modifies this`top
      ensures top == Round(value)
      ensures Bottom() == Round(value) + height
      ensures left == old(left)
    {
      top := Round(value);
    }
  }
}
