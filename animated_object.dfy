/** animated_object.py: a set of recoloured sprite frames, an animation cursor and a placement box. */
module AnimatedObjects {
  import opened Wrappers
  import opened Pixels
  import opened Geometry
  import opened Constants

  /** The glob `RESOURCE_DIR/<name>_*.png`, over the basenames of the resource directory. */
  function SpriteFiles(name: string, basenames: seq<string>): (files: seq<string>)
    ensures forall f :: f in files <==> f in basenames && StartsWith(f, name + "_") && EndsWithPng(f)
  {
    if |basenames| == 0 then []
    else
      var rest := SpriteFiles(name, basenames[1..]);
      if StartsWith(basenames[0], name + "_") && EndsWithPng(basenames[0]) then [basenames[0]] + rest
      else rest
  }

  predicate EndsWithPng(f: string) {
    |f| >= 4 && f[|f| - 4..] == ".png"
  }

  /** The offsets `advance_animation` may draw for `n` sprites: `randint(1, n - 1)` when
      there are more than two, otherwise always 1. */
  predicate ValidOffset(n: nat, offset: int) {
    if n > 2 then 1 <= offset <= n - 1 else offset == 1
  }

  /** One step of the cursor by `offset` around `n` sprites. */
  function Step(n: nat, cursor: nat, offset: int): (next: int)
    requires n > 0 && ValidOffset(n, offset)
  {
    (cursor + offset) % n
  }

  /** The cursor stays in range; with two or more sprites it always moves, with exactly two it
      alternates, and with one it stays at 0. */
  lemma StepProperties(n: nat, cursor: nat, offset: int)
    requires n > 0 && cursor < n && ValidOffset(n, offset)
    ensures 0 <= Step(n, cursor, offset) < n
    ensures n >= 2 ==> Step(n, cursor, offset) != cursor
    ensures n == 2 ==> Step(n, cursor, offset) == 1 - cursor
    ensures n == 1 ==> Step(n, cursor, offset) == 0
  {
    WrapOnce(cursor + offset, n);
  }

  /** A sum below twice the modulus wraps around at most once. */
  lemma WrapOnce(s: int, n: nat)
    requires n > 0 && 0 <= s < 2 * n
    ensures s % n == if s < n then s else s - n
  {
    if s >= n {
      assert s == 1 * n + (s - n);
    }
  }

  /** The cursor went from `before` to `after` by one step of an allowed offset. */
  ghost predicate SteppedFrom(n: nat, before: nat, after: nat) {
    n > 0 && exists offset :: ValidOffset(n, offset) && after == Step(n, before, offset)
  }

  /** A loaded pixel: foreground pixels take the foreground colour, the mask colour the background. */
  function Recoloured(p: Color, fg: Color, bg: Color): Color {
    if MatchesAll(p, MASK_COLOR) then bg else fg
  }

  /** Each pixel of `sprite` is the recoloured pixel of `raster` at the same place. */
  ghost predicate LoadedFrom(sprite: Raster, raster: Raster, fg: Color, bg: Color) {
    && |sprite| == |raster|
    && (forall i :: 0 <= i < |sprite| ==> |sprite[i]| == |raster[i]|)
    && forall i, j :: 0 <= i < |sprite| && 0 <= j < |sprite[i]| ==>
         sprite[i][j] == Recoloured(raster[i][j], fg, bg)
  }

  /** The pixels of a buffer, as a raster. */
  function Contents(img: array2<Color>): (r: Raster)
    reads img
    ensures IsRaster(r, img.Length0, img.Length1)
    ensures forall i, j :: 0 <= i < img.Length0 && 0 <= j < img.Length1 ==> r[i][j] == img[i, j]
  {
    seq(img.Length0, i requires 0 <= i < img.Length0 reads img =>
      seq(img.Length1, j requires 0 <= j < img.Length1 reads img => img[i, j]))
  }

  /** What one object puts on a surface: its bounds and the pixels of the sprite it shows. */
  datatype Layer = Layer(bounds: Bounds, image: Raster)
  {
    /** The image has the size of the bounds. */
    predicate Fits() {
      IsRaster(image, bounds.height, bounds.width)
    }

    /** The pixel the layer puts at row `i`, column `j`, which it covers. */
    function At(i: int, j: int): Color
      requires Fits() && bounds.Covers(i, j)
    {
      image[i - bounds.top][j - bounds.left]
    }
  }

  class AnimatedObject {
    const name: string
    const box: Rect
    const foregroundColor: Color
    const backgroundColor: Color
    /** The loaded sprites. Nothing writes into them after loading, so they are kept as rasters. */
    const sprites: seq<Raster>
    /** Where the box was when the object was made. */
    ghost const bounds: Bounds
    var cursor: nat

    /** At least one sprite, the cursor on one of them, and every sprite of the box's size. */
    ghost predicate Valid()
      reads this
    {
      && |sprites| > 0
      && cursor < |sprites|
      && bounds.width == box.width && bounds.height == box.height
      && box.width >= 0 && box.height >= 0
      && forall k :: 0 <= k < |sprites| ==> IsRaster(sprites[k], box.height, box.width)
    }

    constructor (name: string, box: Rect, foregroundColor: Color, backgroundColor: Color,
                 sprites: seq<Raster>)
      requires |sprites| > 0 && box.width >= 0 && box.height >= 0
      requires forall k :: 0 <= k < |sprites| ==> IsRaster(sprites[k], box.height, box.width)
      ensures Valid() && cursor == 0
      ensures this.name == name && this.box == box && this.sprites == sprites && bounds == box.Value()
      ensures this.foregroundColor == foregroundColor && this.backgroundColor == backgroundColor
    {
      this.name := name;
      this.box := box;
      this.foregroundColor := foregroundColor;
      this.backgroundColor := backgroundColor;
      this.sprites := sprites;
      this.bounds := box.Value();
      cursor := 0;
    }

    /**
     * The constructor with `__load_images`: `decoded` holds the pictures of the object's
     * sprite files, already resized to the box. Each is copied, split into foreground and
     * background by the mask colour, and recoloured. No sprite at all is an error.
     */
    static method Load(name: string, box: Rect, fg: Color, bg: Color, decoded: seq<Raster>)
      returns (r: Result<AnimatedObject>)
      requires box.width >= 0 && box.height >= 0
      requires forall k :: 0 <= k < |decoded| ==> IsRaster(decoded[k], box.height, box.width)
      ensures r.Err? <==> |decoded| == 0
      ensures r.Err? ==> r.error == FileNotFoundError("Did not find sprites for object: " + name)
      ensures r.Ok? ==> fresh(r.value) && r.value.Valid() && r.value.cursor == 0
      ensures r.Ok? ==> r.value.name == name && r.value.box == box
      ensures r.Ok? ==> r.value.foregroundColor == fg && r.value.backgroundColor == bg
      ensures r.Ok? ==> |r.value.sprites| == |decoded|
      ensures r.Ok? ==> forall k :: 0 <= k < |decoded| ==> LoadedFrom(r.value.sprites[k], decoded[k], fg, bg)
    {
      var images: seq<Raster> := [];
      for n := 0 to |decoded|
        invariant |images| == n
        invariant forall k :: 0 <= k < n ==> IsRaster(images[k], box.height, box.width)
        invariant forall k :: 0 <= k < n ==> LoadedFrom(images[k], decoded[k], fg, bg)
      {
        var image := FromRaster(decoded[n], box.height, box.width);
        var foregroundMask := ForegroundMask(image, MASK_COLOR);
        var backgroundMask := BackgroundMask(image, MASK_COLOR);
        OverwriteWhere(image, foregroundMask, fg);
        OverwriteWhere(image, backgroundMask, bg);
        forall i, j | 0 <= i < box.height && 0 <= j < box.width
          ensures image[i, j] == Recoloured(decoded[n][i][j], fg, bg)
        {
          MasksPartition(decoded[n][i][j], MASK_COLOR);
        }
        images := images + [Contents(image)];
      }
      if |images| == 0 {
        return Err(FileNotFoundError("Did not find sprites for object: " + name));
      }
      var obj := new AnimatedObject(name, box, fg, bg, images);
      r := Ok(obj);
    }

    /** `advance_animation()`: the cursor moves by an offset drawn from `ValidOffset`. */
    method AdvanceAnimation()
      requires Valid()
      modifies this`cursor
      ensures Valid()
      ensures SteppedFrom(|sprites|, old(cursor), cursor)
      ensures |sprites| >= 2 ==> cursor != old(cursor)
      ensures |sprites| == 2 ==> cursor == 1 - old(cursor)
      ensures |sprites| == 1 ==> cursor == 0
    {
      var offset: int;
      if |sprites| > 2 {
        offset :| 1 <= offset <= |sprites| - 1;
      } else {
        offset := 1;
      }
      StepProperties(|sprites|, cursor, offset);
      cursor := (cursor + offset) % |sprites|;
    }

    /** Whether `draw` may write into `surface`: the box is where it was when the object was
        made, and it lies inside the surface. */
    ghost predicate FitsIn(surface: array2<Color>)
      reads this, box
    {
      && box.Value() == bounds
      && 0 <= bounds.top && bounds.Bottom() <= surface.Length0
      && 0 <= bounds.left && bounds.Right() <= surface.Length1
    }

    /** Sprite `c` exists and has the size of the box. */
    ghost predicate CanShow(c: int) {
      0 <= c < |sprites| && IsRaster(sprites[c], bounds.height, bounds.width)
    }

    /** What the object shows when its cursor is `c`: its bounds and the pixels of sprite `c`. */
    ghost function Showing(c: nat): Layer
      requires c < |sprites|
    {
      Layer(bounds, sprites[c])
    }

    /** `draw(surface)`: rows [top, bottom) x columns [left, right) of the surface become the
        current sprite; every other pixel is unchanged. */
    method Draw(surface: array2<Color>)
      requires Valid() && FitsIn(surface)
      modifies surface
      ensures forall i, j :: 0 <= i < surface.Length0 && 0 <= j < surface.Length1 ==>
        surface[i, j] == if bounds.Covers(i, j) then Showing(cursor).At(i, j) else old(surface[i, j])
    {
      var sprite := sprites[cursor];
      var top, left := box.top, box.left;
      var y := 0;
      while y < box.height
        invariant 0 <= y <= box.height
        invariant forall i, j :: 0 <= i < surface.Length0 && 0 <= j < surface.Length1 ==>
          surface[i, j] == if bounds.Covers(i, j) && i < top + y then sprite[i - top][j - left]
                           else old(surface[i, j])
      {
        var x := 0;
        while x < box.width
          invariant 0 <= x <= box.width
          invariant forall i, j :: 0 <= i < surface.Length0 && 0 <= j < surface.Length1 ==>
            surface[i, j] == if bounds.Covers(i, j) && (i < top + y || (i == top + y && j < left + x))
                             then sprite[i - top][j - left]
                             else old(surface[i, j])
        {
          surface[top + y, left + x] := sprite[y][x];
          x := x + 1;
        }
        y := y + 1;
      }
    }
  }
}
