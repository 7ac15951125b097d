/** masked_image.py: a sprite buffer with its two precomputed masks, recoloured in place. */
module MaskedImages {
  import opened Pixels

  class MaskedImage {
    const resourceName: string
    const resourceUri: string
    const image: array2<Color>
    const foregroundMask: array2<bool>
    const backgroundMask: array2<bool>

    /** numpy indexes `image` with each mask, so all three share one shape. */
    ghost predicate Valid()
      reads this
    {
      && foregroundMask.Length0 == image.Length0 && foregroundMask.Length1 == image.Length1
      && backgroundMask.Length0 == image.Length0 && backgroundMask.Length1 == image.Length1
    }

    /** Masks are disjoint when no pixel is selected by both. */
    ghost predicate DisjointMasks()
      reads this, foregroundMask, backgroundMask
      requires Valid()
    {
      forall i, j :: 0 <= i < image.Length0 && 0 <= j < image.Length1 ==>
        !(foregroundMask[i, j] && backgroundMask[i, j])
    }

    constructor (resourceName: string, resourceUri: string, image: array2<Color>,
                 foregroundMask: array2<bool>, backgroundMask: array2<bool>)
      requires foregroundMask.Length0 == image.Length0 && foregroundMask.Length1 == image.Length1
      requires backgroundMask.Length0 == image.Length0 && backgroundMask.Length1 == image.Length1
      ensures Valid()
      ensures this.resourceName == resourceName && this.resourceUri == resourceUri
      ensures this.image == image && this.foregroundMask == foregroundMask
      ensures this.backgroundMask == backgroundMask
    {
      this.resourceName := resourceName;
      this.resourceUri := resourceUri;
      this.image := image;
      this.foregroundMask := foregroundMask;
      this.backgroundMask := backgroundMask;
    }

    /** Every foreground pixel becomes `c`; every other pixel and both masks are unchanged. */
    method SetForegroundColor(c: Color)
      requires Valid()
      modifies image
      ensures unchanged(foregroundMask, backgroundMask)
      ensures forall i, j :: 0 <= i < image.Length0 && 0 <= j < image.Length1 ==>
        image[i, j] == (if foregroundMask[i, j] then c else old(image[i, j]))
    {
      OverwriteWhere(image, foregroundMask, c);
    }

    /** Every background pixel becomes `c`; every other pixel and both masks are unchanged. */
    method SetBackgroundColor(c: Color)
      requires Valid()
      modifies image
      ensures unchanged(foregroundMask, backgroundMask)
      ensures forall i, j :: 0 <= i < image.Length0 && 0 <= j < image.Length1 ==>
        image[i, j] == (if backgroundMask[i, j] then c else old(image[i, j]))
    {
      OverwriteWhere(image, backgroundMask, c);
    }

    /** Setting the same foreground colour twice leaves the image as setting it once. */
    method SetForegroundColorTwice(c: Color)
      requires Valid()
      modifies image
      ensures forall i, j :: 0 <= i < image.Length0 && 0 <= j < image.Length1 ==>
        image[i, j] == (if foregroundMask[i, j] then c else old(image[i, j]))
    {
      SetForegroundColor(c);
      SetForegroundColor(c);
    }

    /** Setting the same background colour twice leaves the image as setting it once. */
    method SetBackgroundColorTwice(c: Color)
      requires Valid()
      modifies image
      ensures forall i, j :: 0 <= i < image.Length0 && 0 <= j < image.Length1 ==>
        image[i, j] == (if backgroundMask[i, j] then c else old(image[i, j]))
    {
      SetBackgroundColor(c);
      SetBackgroundColor(c);
    }

    /** With disjoint masks, painting the background after the foreground keeps every
        foreground pixel the foreground colour and leaves unmasked pixels alone. */
    method SetColors(fg: Color, bg: Color)
      requires Valid() && DisjointMasks()
      modifies image
      ensures forall i, j :: 0 <= i < image.Length0 && 0 <= j < image.Length1 ==>
        image[i, j] == (if foregroundMask[i, j] then fg
                        else if backgroundMask[i, j] then bg
                        else old(image[i, j]))
    {
      SetForegroundColor(fg);
      SetBackgroundColor(bg);
    }
  }
}
