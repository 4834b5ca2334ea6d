/** The size arithmetic of `resize_uploaded_image`: fit the upload inside a box
    keeping its aspect ratio, then upscale it when it came out narrower than
    a minimum width. Ratios are exact rationals and `int()` of a non-negative
    ratio is its floor; the pixels themselves are not modelled. */
module Resize {
  import opened Wrappers

  datatype Size = Size(width: nat, height: nat)

  /** Why the computation stops: `max_width / original_width` (or the height
      ratio) divides by zero, or PIL's `resize` is asked for a size with a
      side below one pixel, which it refuses with a `ValueError`. A fitted
      width of zero is refused by the first `resize` call, before
      `min_width / new_width` could divide by zero. */
  datatype ResizeError = EmptyImage | EmptyResize

  /** `int(x)` for a non-negative `x`: truncation is the floor there. */
  function Trunc(x: real): (n: nat)
    requires x >= 0.0
    ensures n as real <= x < n as real + 1.0
  {
    x.Floor
  }

  /** `min(max_width / original_width, max_height / original_height)`. */
  function ScaleFactor(size: Size, maxW: nat, maxH: nat): (s: real)
    requires size.width > 0 && size.height > 0
    ensures s >= 0.0
    ensures size.width as real * s <= maxW as real && size.height as real * s <= maxH as real
    ensures size.width as real * s == maxW as real || size.height as real * s == maxH as real
  {
    var w := size.width as real;
    var h := size.height as real;
    var wr := maxW as real / w;
    var hr := maxH as real / h;
    assert w * wr == maxW as real && h * hr == maxH as real;
    if wr <= hr then
      assert h * wr <= h * hr;
      wr
    else
      assert w * hr <= w * wr;
      hr
  }

  /** The first step: both sides scaled by the same factor and truncated. */
  function FitWithin(size: Size, maxW: nat, maxH: nat): (r: Size)
    requires size.width > 0 && size.height > 0
  {
    var s := ScaleFactor(size, maxW, maxH);
    Size(Trunc(size.width as real * s), Trunc(size.height as real * s))
  }

  lemma MulLe(a: real, b: real, c: real)
    requires a <= b && c >= 0.0
    ensures a * c <= b * c
  {
  }

  lemma MulLt(a: real, b: real, c: real)
    requires a < b && c > 0.0
    ensures a * c < b * c
  {
  }

  lemma MulDivCancel(a: real, b: real, d: real)
    requires d != 0.0
    ensures (a * (b / d)) * d == a * b
  {
  }

  /** A value between `t` and `t + 1`, scaled by a positive factor. */
  lemma ScaleBounds(t: nat, x: real, f: real, p: real)
    requires t as real <= x < t as real + 1.0
    requires f > 0.0
    requires x * f == p
    ensures t as real * f <= p < (t as real + 1.0) * f
  {
    ScaleLower(t, x, f, p);
    ScaleUpper(t, x, f, p);
  }

  lemma ScaleLower(t: nat, x: real, f: real, p: real)
    requires t as real <= x && f > 0.0 && x * f == p
    ensures t as real * f <= p
  {
    MulLe(t as real, x, f);
  }

  lemma ScaleUpper(t: nat, x: real, f: real, p: real)
    requires x < t as real + 1.0 && f > 0.0 && x * f == p
    ensures p < (t as real + 1.0) * f
  {
    MulLt(x, t as real + 1.0, f);
  }

  lemma CastMul(x: int, y: int)
    ensures (x * y) as real == x as real * y as real
  {
  }

  /** Truncating two sides scaled by one factor keeps the cross products in order:
      `a` truncated times `y` stays below `b` truncated plus one, times `x`. */
  lemma TruncCross(x: nat, y: nat, s: real, tx: nat, ty: nat)
    requires x > 0 && y > 0 && s >= 0.0
    requires tx == Trunc(x as real * s) && ty == Trunc(y as real * s)
    ensures tx * y < (ty + 1) * x
  {
    var fx := x as real * s;
    var fy := y as real * s;
    var xr := x as real;
    var yr := y as real;
    MulLe(tx as real, fx, yr);
    MulComm(xr, yr, s);
    MulLt(fy, ty as real + 1.0, xr);
    assert tx as real * yr < (ty as real + 1.0) * xr;
    CastMul(tx, y);
    CastMul(ty + 1, x);
    assert (tx * y) as real < ((ty + 1) * x) as real;
  }

  lemma MulComm(x: real, y: real, s: real)
    ensures (x * s) * y == (y * s) * x
  {
  }

  /** The fitted size lies inside the box and touches it on one side. */
  lemma FitWithinBox(size: Size, maxW: nat, maxH: nat)
    requires size.width > 0 && size.height > 0
    ensures var r := FitWithin(size, maxW, maxH);
            && r.width <= maxW && r.height <= maxH
            && (r.width == maxW || r.height == maxH)
  {
    var s := ScaleFactor(size, maxW, maxH);
    TruncBelow(size.width as real * s, maxW);
    TruncBelow(size.height as real * s, maxH);
  }

  /** Truncation moves the aspect ratio of the fitted size by less than one
      pixel on either side: the cross products stay in order. */
  lemma FitWithinAspect(size: Size, maxW: nat, maxH: nat)
    requires size.width > 0 && size.height > 0
    ensures var r := FitWithin(size, maxW, maxH);
            && r.width * size.height < (r.height + 1) * size.width
            && r.height * size.width < (r.width + 1) * size.height
  {
    var r := FitWithin(size, maxW, maxH);
    ScaledAspect(size, ScaleFactor(size, maxW, maxH), r.width, r.height);
  }

  /** Both sides scaled by any one factor and truncated keep the cross products in order. */
  lemma ScaledAspect(size: Size, s: real, tw: nat, th: nat)
    requires size.width > 0 && size.height > 0 && s >= 0.0
    requires tw == Trunc(size.width as real * s) && th == Trunc(size.height as real * s)
    ensures tw * size.height < (th + 1) * size.width && th * size.width < (tw + 1) * size.height
  {
    TruncCross(size.width, size.height, s, tw, th);
    TruncCross(size.height, size.width, s, th, tw);
  }

  /** Truncation stays at or below a whole bound, and reaches it when the value does. */
  lemma TruncBelow(x: real, n: nat)
    requires 0.0 <= x <= n as real
    ensures Trunc(x) <= n
    ensures x == n as real ==> Trunc(x) == n
  {
  }

  /** PIL's `image.resize(size)`: refused unless both sides are at least one pixel. */
  function PilResize(target: Size): Result<Size, ResizeError> {
    if target.width == 0 || target.height == 0 then Failure(EmptyResize) else Success(target)
  }

  /** The second step: both sides scaled by `min_width / new_width` and truncated. */
  function ScaleUp(fit: Size, minW: nat): Size
    requires fit.width > 0
  {
    var up := minW as real / fit.width as real;
    Size(Trunc(fit.width as real * up), Trunc(fit.height as real * up))
  }

  /** `resize_uploaded_image(image, max_width, max_height, min_width)` on the
      image's size. */
  function ResizeUploaded(size: Size, maxW: nat, maxH: nat, minW: nat): Result<Size, ResizeError> {
    if size.width == 0 || size.height == 0 then Failure(EmptyImage)
    else
      var fit := FitWithin(size, maxW, maxH);
      match PilResize(fit)
      case Failure(e) => Failure(e)
      case Success(resized) =>
        if resized.width < minW then PilResize(ScaleUp(resized, minW))
        else
          Success(resized)
  }

  /** The outcomes of `resize_uploaded_image`: it fails exactly on an empty
      image or a fitted size with a zero side; a fitted width that reaches the
      minimum is kept; a narrower one is scaled up to exactly the minimum
      width, with the height scaled by the same factor and truncated, which
      never shrinks it. */
  lemma ResizeCases(size: Size, maxW: nat, maxH: nat, minW: nat)
    ensures var r := ResizeUploaded(size, maxW, maxH, minW);
            r.Failure? <==> (size.width == 0 || size.height == 0
                             || FitWithin(size, maxW, maxH).width == 0 || FitWithin(size, maxW, maxH).height == 0)
    ensures var r := ResizeUploaded(size, maxW, maxH, minW);
            r.Failure? ==> (r.error == EmptyImage <==> size.width == 0 || size.height == 0)
    ensures var r := ResizeUploaded(size, maxW, maxH, minW);
            r.Success? && FitWithin(size, maxW, maxH).width >= minW ==> r == Success(FitWithin(size, maxW, maxH))
    ensures var r := ResizeUploaded(size, maxW, maxH, minW);
            r.Success? && FitWithin(size, maxW, maxH).width < minW
            ==> var fit := FitWithin(size, maxW, maxH);
                && r.value.width == minW
                && r.value.height * fit.width <= fit.height * minW < (r.value.height + 1) * fit.width
                && r.value.height >= fit.height
    ensures var r := ResizeUploaded(size, maxW, maxH, minW);
            r.Success? ==> r.value.width >= minW && r.value.width > 0 && r.value.height > 0
  {
    if size.width > 0 && size.height > 0 {
      var fit := FitWithin(size, maxW, maxH);
      if fit.width > 0 && fit.height > 0 && fit.width < minW {
        ScaleUpSpec(fit, minW);
        assert PilResize(fit) == Success(fit);
        assert ResizeUploaded(size, maxW, maxH, minW) == PilResize(ScaleUp(fit, minW));
      } else if fit.width == 0 || fit.height == 0 {
        assert ResizeUploaded(size, maxW, maxH, minW) == Failure(EmptyResize);
      } else {
        assert ResizeUploaded(size, maxW, maxH, minW) == Success(fit);
      }
    }
  }

  lemma IntMulLe(a: int, b: int, c: nat)
    requires a <= b
    ensures a * c <= b * c
  {
  }

  /** Scaling up by `min_width / new_width` never lowers the height. */
  lemma UpscaleKeepsHeight(fw: nat, fh: nat, minW: nat, th: nat)
    requires 0 < fw < minW
    requires th * fw <= fh * minW < (th + 1) * fw
    ensures th >= fh
  {
    IntMulLe(fw, minW, fh);
    assert fw * fh == fh * fw && minW * fh == fh * minW;
    if th + 1 <= fh {
      IntMulLe(th + 1, fh, fw);
    }
  }

  /** Scaling by `min_width / new_width` takes the width to exactly the minimum
      and the height to the truncation of the same ratio. */
  lemma Upscale(fw: nat, fh: nat, minW: nat, th: nat)
    requires fw > 0
    requires th == Trunc(fh as real * (minW as real / fw as real))
    ensures Trunc(fw as real * (minW as real / fw as real)) == minW
    ensures th * fw <= fh * minW < (th + 1) * fw
  {
    var fwr := fw as real;
    var x := fh as real * (minW as real / fwr);
    MulDivCancel(fh as real, minW as real, fwr);
    MulDivCancel(1.0, minW as real, fwr);
    ScaleBounds(th, x, fwr, fh as real * minW as real);
    CastMul(th, fw);
    CastMul(th + 1, fw);
    CastMul(fh, minW);
    assert (th * fw) as real <= (fh * minW) as real < ((th + 1) * fw) as real;
  }

  /** The second step lands on exactly the minimum width; the height is the
      floor of the proportional value, and an upscale never lowers it. */
  lemma ScaleUpSpec(fit: Size, minW: nat)
    requires fit.width > 0
    ensures var r := ScaleUp(fit, minW);
            && r.width == minW
            && r.height * fit.width <= fit.height * minW < (r.height + 1) * fit.width
            && (fit.width < minW ==> r.height >= fit.height)
  {
    var th := ScaleUp(fit, minW).height;
    Upscale(fit.width, fit.height, minW, th);
    if fit.width < minW {
      UpscaleKeepsHeight(fit.width, fit.height, minW, th);
    }
  }

  /** The box and minimum the service uses for uploads: 613 by 401, then at least 650 wide. */
  const UploadMaxWidth := 613
  const UploadMaxHeight := 401
  const UploadMinWidth := 650

  /** Comparing two ratios is comparing their cross products. */
  lemma RatioLe(a: nat, w: nat, b: nat, h: nat)
    requires w > 0 && h > 0
    ensures a as real / w as real <= b as real / h as real <==> a * h <= b * w
  {
    var p := a as real / w as real;
    var q := b as real / h as real;
    var wh := w as real * h as real;
    assert p * wh == a as real * h as real;
    assert q * wh == b as real * w as real;
    if p <= q {
      MulLe(p, q, wh);
    } else {
      MulLt(q, p, wh);
    }
    CastMul(a, h);
    CastMul(b, w);
  }

  /** `w` scaled by `b / h` is below one exactly when `w * b` is below `h`. */
  lemma ScaledBelowOne(w: nat, b: nat, h: nat)
    requires h > 0
    ensures w as real * (b as real / h as real) < 1.0 <==> w * b < h
  {
    var x := w as real * (b as real / h as real);
    assert x * h as real == w as real * b as real;
    if x < 1.0 {
      MulLt(x, 1.0, h as real);
    } else {
      MulLe(1.0, x, h as real);
    }
    CastMul(w, b);
  }

  /** The fitted width is zero exactly when the upload is more than 401 times
      taller than it is wide. */
  lemma UploadFitZeroWidth(size: Size)
    requires size.width > 0 && size.height > 0
    ensures FitWithin(size, UploadMaxWidth, UploadMaxHeight).width == 0 <==> UploadMaxHeight * size.width < size.height
  {
    var w := size.width;
    var h := size.height;
    var wr := UploadMaxWidth as real / w as real;
    var hr := UploadMaxHeight as real / h as real;
    var fit := FitWithin(size, UploadMaxWidth, UploadMaxHeight);
    RatioLe(UploadMaxWidth, w, UploadMaxHeight, h);
    if wr <= hr {
      assert w as real * wr == UploadMaxWidth as real;
      assert fit.width == UploadMaxWidth;
    } else {
      ScaledBelowOne(w, UploadMaxHeight, h);
      assert fit.width == Trunc(w as real * hr);
    }
  }

  /** The fitted height is zero exactly when the upload is more than 613 times
      wider than it is tall. */
  lemma UploadFitZeroHeight(size: Size)
    requires size.width > 0 && size.height > 0
    ensures FitWithin(size, UploadMaxWidth, UploadMaxHeight).height == 0 <==> UploadMaxWidth * size.height < size.width
  {
    var w := size.width;
    var h := size.height;
    var wr := UploadMaxWidth as real / w as real;
    var hr := UploadMaxHeight as real / h as real;
    var fit := FitWithin(size, UploadMaxWidth, UploadMaxHeight);
    RatioLe(UploadMaxWidth, w, UploadMaxHeight, h);
    if wr <= hr {
      ScaledBelowOne(h, UploadMaxWidth, w);
      assert fit.height == Trunc(h as real * wr);
    } else {
      assert h as real * hr == UploadMaxHeight as real;
      assert fit.height == UploadMaxHeight;
    }
  }

  /** With the service's constants every upload that does not fail comes out
      exactly 650 pixels wide, since the 613-pixel box is always narrower than
      the minimum, and its height is the fitted height scaled by the same
      factor and floored; it fails exactly on an empty image, one more than 401 times
      taller than wide (1 by 500 pixels, say) or one more than 613 times wider
      than tall (1000 by 1). */
  lemma UploadResize(size: Size)
    ensures var r := ResizeUploaded(size, UploadMaxWidth, UploadMaxHeight, UploadMinWidth);
            && (r.Failure? <==> size.width == 0 || size.height == 0
                                || UploadMaxHeight * size.width < size.height
                                || UploadMaxWidth * size.height < size.width)
            && (r.Success? ==> r.value.width == UploadMinWidth && r.value.height > 0)
    ensures var r := ResizeUploaded(size, UploadMaxWidth, UploadMaxHeight, UploadMinWidth);
            r.Success? ==> var fit := FitWithin(size, UploadMaxWidth, UploadMaxHeight);
                           && r.value.height * fit.width <= fit.height * UploadMinWidth < (r.value.height + 1) * fit.width
                           && r.value.height >= fit.height
  {
    ResizeCases(size, UploadMaxWidth, UploadMaxHeight, UploadMinWidth);
    if size.width > 0 && size.height > 0 {
      FitWithinBox(size, UploadMaxWidth, UploadMaxHeight);
      UploadFitZeroWidth(size);
      UploadFitZeroHeight(size);
    }
  }

  /** A 1 by 500 upload fits the box only at width zero, which the first `resize` refuses. */
  lemma TallSliverFails()
    ensures ResizeUploaded(Size(1, 500), UploadMaxWidth, UploadMaxHeight, UploadMinWidth) == Failure(EmptyResize)
  {
    UploadFitZeroWidth(Size(1, 500));
  }

  /** A 1000 by 1 upload fits the box at 613 by 0, which the first `resize` refuses. */
  lemma WideSliverFails()
    ensures ResizeUploaded(Size(1000, 1), UploadMaxWidth, UploadMaxHeight, UploadMinWidth) == Failure(EmptyResize)
  {
    UploadFitZeroHeight(Size(1000, 1));
  }

  /** A square upload fits the box at 401 by 401 and is scaled up to 650 by 650. */
  lemma SquareUpload()
    ensures ResizeUploaded(Size(100, 100), UploadMaxWidth, UploadMaxHeight, UploadMinWidth) == Success(Size(650, 650))
  {
  }

  /** A 2000 by 1000 upload fits the box at 613 by 306; scaling that up to
      650 wide gives a height of 306 * 650 / 613 = 324.47..., truncated to 324. */
  lemma WideUpload()
    ensures ResizeUploaded(Size(2000, 1000), UploadMaxWidth, UploadMaxHeight, UploadMinWidth) == Success(Size(650, 324))
  {
  }
}
