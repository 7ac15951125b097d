/** RGBA colours and the numpy pixel buffers of shape (rows, columns, 4). */
module Pixels {

  type byte = x: int | 0 <= x < 256

  /** How the GIF frames are disposed of (the disposal method of the Graphic Control
      Extension, section 23 of the GIF89a specification). */
  datatype Disposal = DisposalTransparent | DisposalSolid

  /** One RGBA pixel, each channel in [0, 255]. */
  datatype Color = Color(r: byte, g: byte, b: byte, a: byte)

  /** A decoded picture as rows of pixels, as numpy hands it over. */
  type Raster = seq<seq<Color>>

  /** `r` has `rows` rows of `cols` pixels each. */
  predicate IsRaster(r: Raster, rows: int, cols: int) {
    |r| == rows && forall i :: 0 <= i < |r| ==> |r[i]| == cols
  }

  /** `np.any(pixel != mask, axis=2)`: some channel differs from the mask colour. */
  predicate DiffersFrom(p: Color, mask: Color) {
    p.r != mask.r || p.g != mask.g || p.b != mask.b || p.a != mask.a
  }

  /** `np.all(pixel == mask, axis=2)`: every channel equals the mask colour. */
  predicate MatchesAll(p: Color, mask: Color) {
    p.r == mask.r && p.g == mask.g && p.b == mask.b && p.a == mask.a
  }

  /** The value of one pixel after `image[mask] = c`. */
  function Overwritten(p: Color, selected: bool, c: Color): Color {
    if selected then c else p
  }

  /** `np.full((rows, cols, 4), c)`: a fresh buffer with every pixel `c`. */
  method Filled(rows: nat, cols: nat, c: Color) returns (img: array2<Color>)
    ensures fresh(img) && img.Length0 == rows && img.Length1 == cols
    ensures forall i, j :: 0 <= i < rows && 0 <= j < cols ==> img[i, j] == c
  {
    img := new Color[rows, cols]((i, j) => c);
  }

  /** `np.array(picture)`: a fresh buffer holding the pixels of a raster. */
  method FromRaster(r: Raster, rows: nat, cols: nat) returns (img: array2<Color>)
    requires IsRaster(r, rows, cols)
    ensures fresh(img) && img.Length0 == rows && img.Length1 == cols
    ensures forall i, j :: 0 <= i < rows && 0 <= j < cols ==> img[i, j] == r[i][j]
  {
    img := new Color[rows, cols]((i, j) =>
      if 0 <= i < |r| && 0 <= j < |r[i]| then r[i][j] else Color(0, 0, 0, 0));
  }

  /** `image[mask] = c`: every selected pixel becomes `c`, the others keep their value. */
  method OverwriteWhere(img: array2<Color>, mask: array2<bool>, c: Color)
    requires mask.Length0 == img.Length0 && mask.Length1 == img.Length1
    modifies img
    ensures forall i, j :: 0 <= i < img.Length0 && 0 <= j < img.Length1 ==>
      img[i, j] == Overwritten(old(img[i, j]), mask[i, j], c)
  {
    var i := 0;
    while i < img.Length0
      invariant 0 <= i <= img.Length0
      invariant forall a, b :: 0 <= a < i && 0 <= b < img.Length1 ==>
        img[a, b] == Overwritten(old(img[a, b]), mask[a, b], c)
      invariant forall a, b :: i <= a < img.Length0 && 0 <= b < img.Length1 ==>
        img[a, b] == old(img[a, b])
    {
      var j := 0;
      while j < img.Length1
        invariant 0 <= j <= img.Length1
        invariant forall a, b :: 0 <= a < i && 0 <= b < img.Length1 ==>
          img[a, b] == Overwritten(old(img[a, b]), mask[a, b], c)
        invariant forall b :: 0 <= b < j ==> img[i, b] == Overwritten(old(img[i, b]), mask[i, b], c)
        invariant forall a, b :: i <= a < img.Length0 && 0 <= b < img.Length1 && (a > i || b >= j) ==>
          img[a, b] == old(img[a, b])
      {
        if mask[i, j] {
          img[i, j] := c;
        }
        j := j + 1;
      }
      i := i + 1;
    }
  }

  /** `np.any(image != mask_color, axis=2)`: the foreground mask of a buffer. */
  method ForegroundMask(img: array2<Color>, maskColor: Color) returns (m: array2<bool>)
    ensures fresh(m) && m.Length0 == img.Length0 && m.Length1 == img.Length1
    ensures forall i, j :: 0 <= i < img.Length0 && 0 <= j < img.Length1 ==>
      m[i, j] == DiffersFrom(img[i, j], maskColor)
  {
    m := new bool[img.Length0, img.Length1]((i, j) reads img =>
      0 <= i < img.Length0 && 0 <= j < img.Length1 && DiffersFrom(img[i, j], maskColor));
  }

  /** `np.all(image == mask_color, axis=2)`: the background mask of a buffer. */
  method BackgroundMask(img: array2<Color>, maskColor: Color) returns (m: array2<bool>)
    ensures fresh(m) && m.Length0 == img.Length0 && m.Length1 == img.Length1
    ensures forall i, j :: 0 <= i < img.Length0 && 0 <= j < img.Length1 ==>
      m[i, j] == MatchesAll(img[i, j], maskColor)
  {
    m := new bool[img.Length0, img.Length1]((i, j) reads img =>
      0 <= i < img.Length0 && 0 <= j < img.Length1 && MatchesAll(img[i, j], maskColor));
  }

  /** A pixel is foreground or background, never both: the two masks partition a sprite. */
  lemma MasksPartition(p: Color, mask: Color)
    ensures DiffersFrom(p, mask) != MatchesAll(p, mask)
    ensures MatchesAll(p, mask) <==> p == mask
  {
  }
}
