/**
 * The target dimensions of a resize (ImageProcessorFunc/lambda_function.py:94-103):
 * the longer side becomes `size` and the shorter side is scaled in proportion
 * and truncated. The source computes the shorter side as
 * `int((float(size) / float(long)) * short)`; here it is the exact integer
 * quotient `size * short / long`, which that float expression approximates.
 */
module Dimensions {

  /** Width and height of an image in pixels. */
  datatype Dims = Dims(width: nat, height: nat)

  /** `q` is `a / b` rounded down. */
  ghost predicate IsFloorQuotient(q: int, a: int, b: int) {
    q * b <= a < (q + 1) * b
  }

  lemma FloorDivision(a: nat, b: nat, bound: nat)
    requires b > 0 && a <= bound * b
    ensures IsFloorQuotient(a / b, a, b) && a / b <= bound
  {
  }

  lemma MultiplyMonotone(x: nat, y: nat, b: nat)
    ensures x <= y ==> x * b <= y * b
  {
  }

  /** The shorter side `short` of an image whose longer side `long` is scaled to `size`, truncated. */
  function ScaleShorter(short: nat, long: nat, size: nat): (s: nat)
    requires short < long
    ensures s <= size && IsFloorQuotient(s, size * short, long)
  {
    MultiplyMonotone(short, long, size);
    FloorDivision(size * short, long, size);
    size * short / long
  }

  /** The dimensions `image` is resized to for a requested `size`. */
  function TargetDims(image: Dims, size: nat): (t: Dims)
    ensures image.width == image.height ==> t == Dims(size, size)
    ensures image.width > image.height ==>
      t.width == size && t.height <= size && IsFloorQuotient(t.height, size * image.height, image.width)
    ensures image.height > image.width ==>
      t.height == size && t.width <= size && IsFloorQuotient(t.width, size * image.width, image.height)
  {
    if image.width == image.height then
      Dims(size, size)
    else if image.width > image.height then
      Dims(size, ScaleShorter(image.height, image.width, size))
    else
      Dims(ScaleShorter(image.width, image.height, size), size)
  }

  /** The longer side of the result is exactly `size`, and the shape (landscape, portrait, square) is kept. */
  lemma LongerSideIsSize(image: Dims, size: nat)
    ensures var t := TargetDims(image, size);
      (if t.width >= t.height then t.width else t.height) == size
    ensures var t := TargetDims(image, size);
      (image.width > image.height ==> t.width >= t.height) && (image.height > image.width ==> t.height >= t.width)
  {
  }

  /** A scaled shorter side is zero exactly when `size * short < long`. */
  lemma ScaledToZero(short: nat, long: nat, size: nat)
    requires short < long
    ensures ScaleShorter(short, long, size) == 0 <==> size * short < long
  {
    var q := ScaleShorter(short, long, size);
    MultiplyMonotone(1, q, long);
  }

  /**
   * The shorter side truncates to zero exactly when `size * short < long`,
   * i.e. for an image more elongated than `size : 1`.
   */
  lemma ShorterSideVanishes(image: Dims, size: nat)
    requires image.width != image.height
    ensures var t := TargetDims(image, size);
      if image.width > image.height then (t.height == 0 <==> size * image.height < image.width)
      else (t.width == 0 <==> size * image.width < image.height)
  {
    if image.width > image.height {
      ScaledToZero(image.height, image.width, size);
    } else {
      ScaledToZero(image.width, image.height, size);
    }
  }
}
