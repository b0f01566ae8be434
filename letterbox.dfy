/** The size arithmetic of `resize_and_pad` (identical in both nodes) and the
    inverse factors the nodes apply to every detection. The pixel resampling
    (`cv::resize`) and the border fill (`cv::copyMakeBorder`) are not
    modelled, only the sizes they produce. */
module Letterbox {
  import opened Numeric

  /** Both nodes letterbox to `cv::Size(640, 640)`. */
  const TargetSide: nat := 640

  datatype Size = Size(width: int, height: int)

  /** The `Resize` struct without its image: the unpadded size the image is
      resampled to, and the padding added to the right (`dw`) and bottom (`dh`). */
  datatype Resize = Resize(newUnpadW: int, newUnpadH: int, dw: int, dh: int)

  /** `ResizeError` is the `cv::Exception` raised inside `resize_and_pad`:
      `cv::resize` refuses an empty source image or an empty destination
      size, and `cv::copyMakeBorder` refuses a negative border. */
  datatype Letterboxed = Resized(resize: Resize) | ResizeError

  /** `r = new_shape.width / std::max(width, height)`, a float division. */
  function ScaleFactor(cols: nat, rows: nat, newShape: Size): real
    requires cols > 0 || rows > 0
  {
    newShape.width as real / Max(cols, rows) as real
  }

  /** `resize_and_pad` on an image of `cols` x `rows` pixels. An image with
      no pixels is the `cv::resize` exception; for a 0 x 0 image the C++
      first converts `round(0 * inf)` to `int`, which is undefined. */
  function ResizeAndPad(cols: nat, rows: nat, newShape: Size): (o: Letterboxed)
    ensures o.Resized? ==> 0 < o.resize.newUnpadW && 0 < o.resize.newUnpadH
    ensures o.Resized? ==> 0 <= o.resize.dw && 0 <= o.resize.dh
  {
    if cols == 0 || rows == 0 then ResizeError
    else
      var u := Unpadded(cols, rows, ScaleFactor(cols, rows, newShape));
      PadTo(u.width, u.height, newShape)
  }

  /** `new_unpadW = int(round(width * r))`, `new_unpadH = int(round(height * r))`. */
  function Unpadded(cols: nat, rows: nat, r: real): Size
  {
    Size(Round(cols as real * r), Round(rows as real * r))
  }

  /** The pads that bring an unpadded size `w` x `h` to `newShape`; `cv::resize`
      refuses an empty size and `cv::copyMakeBorder` a negative border. */
  function PadTo(w: int, h: int, newShape: Size): (o: Letterboxed)
    ensures o.Resized? <==> 0 < w <= newShape.width && 0 < h <= newShape.height
    ensures o.Resized? ==> o.resize.newUnpadW == w && o.resize.newUnpadH == h
    ensures o.Resized? ==> PaddedSize(o.resize) == newShape
  {
    var dw := newShape.width - w;
    var dh := newShape.height - h;
    if w <= 0 || h <= 0 || dw < 0 || dh < 0 then ResizeError
    else Resized(Resize(w, h, dw, dh))
  }

  /** The size of `resize.resized_image` after `copyMakeBorder`. */
  function PaddedSize(z: Resize): Size
  {
    Size(z.newUnpadW + z.dw, z.newUnpadH + z.dh)
  }

  /** `rx = img.cols / (resized_image.cols - dw)`. */
  function InverseX(cols: nat, z: Resize): real
    requires z.newUnpadW > 0
  {
    cols as real / (PaddedSize(z).width - z.dw) as real
  }

  /** `ry = img.rows / (resized_image.rows - dh)`. */
  function InverseY(rows: nat, z: Resize): real
    requires z.newUnpadH > 0
  {
    rows as real / (PaddedSize(z).height - z.dh) as real
  }

  /** On one axis of an image whose longer side is `long`: the longer side
      scales to exactly `side`, the other one to an integer in [0, side]
      that is 0 exactly when the shorter side scales below half a pixel. */
  lemma ScaledSides(long: nat, short: nat, side: nat, r: real)
    requires 0 < short <= long && side > 0 && r == side as real / long as real
    ensures Round(long as real * r) == side
    ensures 0 <= Round(short as real * r) <= side
    ensures Round(short as real * r) == 0 <==> 2 * short * side < long
  {
    LongSideScaled(long, side, r);
    RoundOfIntegral(long as real * r, side);
    ShortSideScaled(long, short, side, r);
    RoundBetween(short as real * r, side);
    ThinSide(long, short, side, r);
  }

  lemma LongSideScaled(long: nat, side: nat, r: real)
    requires 0 < long && r == side as real / long as real
    ensures long as real * r == side as real
  {
  }

  lemma ShortSideScaled(long: nat, short: nat, side: nat, r: real)
    requires 0 < short <= long && r == side as real / long as real
    ensures 0.0 <= short as real * r <= side as real
  {
    assert (long as real - short as real) * r >= 0.0;
  }

  lemma RoundOfIntegral(x: real, k: int)
    requires x == k as real
    ensures Round(x) == k
  {
  }

  lemma RoundBetween(x: real, k: int)
    requires 0.0 <= x <= k as real
    ensures 0 <= Round(x) <= k
    ensures Round(x) == 0 <==> x < 0.5
  {
  }

  /** The shorter side scales below half a pixel exactly when twice its
      length times the target side is below the longer side. */
  lemma ThinSide(long: nat, short: nat, side: nat, r: real)
    requires 0 < short <= long && r == side as real / long as real
    ensures short as real * r < 0.5 <==> 2 * short * side < long
  {
    ThinProduct(short as real, long as real, side as real, short as real * r);
    assert (2 * short * side) as real == 2.0 * short as real * side as real by {
      assert (2 * short * side) as real == 2.0 * (short * side) as real;
    }
  }

  lemma ThinProduct(a: real, l: real, s: real, h: real)
    requires l > 0.0 && h == a * (s / l)
    ensures h < 0.5 <==> 2.0 * a * s < l
  {
    assert h * l == a * s;
    if h < 0.5 {
      assert h * l < 0.5 * l;
    } else {
      assert h * l >= 0.5 * l;
    }
  }

  /** With a square target of side `side` the letterboxed image is exactly
      `side` x `side`: both pads are non-negative, the longer side is not
      padded at all, and `resize_and_pad` fails only when the shorter side
      would shrink below half a pixel. */
  lemma LetterboxFillsSquare(cols: nat, rows: nat, side: nat)
    requires cols > 0 && rows > 0 && side > 0
    ensures var o := ResizeAndPad(cols, rows, Size(side, side));
            && (o.ResizeError? <==> 2 * Min(cols, rows) * side < Max(cols, rows))
            && (o.Resized? ==>
                  && PaddedSize(o.resize) == Size(side, side)
                  && (cols >= rows ==> o.resize.newUnpadW == side && o.resize.dw == 0)
                  && (rows >= cols ==> o.resize.newUnpadH == side && o.resize.dh == 0))
  {
    ScaleOfSquare(cols, rows, side);
    if cols >= rows {
      WiderSides(cols, rows, side, ScaleFactor(cols, rows, Size(side, side)));
    } else {
      TallerSides(cols, rows, side, ScaleFactor(cols, rows, Size(side, side)));
    }
  }

  /** The scale factor of a square target is its side over the longer side. */
  lemma ScaleOfSquare(cols: nat, rows: nat, side: nat)
    requires cols > 0 && rows > 0
    ensures cols >= rows ==> ScaleFactor(cols, rows, Size(side, side)) == side as real / cols as real
    ensures cols <= rows ==> ScaleFactor(cols, rows, Size(side, side)) == side as real / rows as real
  {
  }

  /** For a landscape image the width scales to the full side and the
      height into `0..side`. */
  lemma WiderSides(cols: nat, rows: nat, side: nat, r: real)
    requires 0 < rows <= cols && side > 0 && r == side as real / cols as real
    ensures Unpadded(cols, rows, r).width == side
    ensures 0 <= Unpadded(cols, rows, r).height <= side
    ensures Unpadded(cols, rows, r).height == 0 <==> 2 * rows * side < cols
  {
    ScaledSides(cols, rows, side, r);
  }

  /** For a portrait image the height scales to the full side and the
      width into `0..side`. */
  lemma TallerSides(cols: nat, rows: nat, side: nat, r: real)
    requires 0 < cols < rows && side > 0 && r == side as real / rows as real
    ensures Unpadded(cols, rows, r).height == side
    ensures 0 <= Unpadded(cols, rows, r).width <= side
    ensures Unpadded(cols, rows, r).width == 0 <==> 2 * cols * side < rows
  {
    ScaledSides(rows, cols, side, r);
  }

  /** The inverse factors undo the resize exactly: `rx * new_unpadW == cols`
      and `ry * new_unpadH == rows`, because the padded size minus the pad
      is the unpadded size. */
  lemma InverseScaleRestoresSize(cols: nat, rows: nat, newShape: Size)
    requires ResizeAndPad(cols, rows, newShape).Resized?
    ensures var z := ResizeAndPad(cols, rows, newShape).resize;
            && PaddedSize(z).width - z.dw == z.newUnpadW
            && PaddedSize(z).height - z.dh == z.newUnpadH
            && InverseX(cols, z) * z.newUnpadW as real == cols as real
            && InverseY(rows, z) * z.newUnpadH as real == rows as real
  {
  }
}
