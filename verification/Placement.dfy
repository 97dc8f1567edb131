/** Cropping a page image and placing it on the device's canvas (`converter/pdf_upload.py`), over
    exact arithmetic with the rounding written out. */
module Placement {
  import opened Strings

  /** Python's `round`: to the nearest integer, a tie to the even one. */
  function Round(x: real): (n: int)
    ensures -0.5 <= n as real - x <= 0.5
  {
    var f := x.Floor;
    var d := x - f as real;
    if d < 0.5 then f else if d > 0.5 then f + 1 else if f % 2 == 0 then f else f + 1
  }

  lemma RoundBelow(x: real, n: int)
    requires x <= n as real
    ensures Round(x) <= n
  {
  }

  lemma RoundAbove(x: real, n: int)
    requires x >= n as real
    ensures Round(x) >= n
  {
  }

  // ----- Cropping -----

  datatype Crop = Crop(top: real, right: real, bottom: real, left: real)

  /** What option validation lets through. */
  predicate ValidCrop(c: Crop) {
    && 0.0 <= c.top <= 0.4 && 0.0 <= c.right <= 0.4 && 0.0 <= c.bottom <= 0.4 && 0.0 <= c.left <= 0.4
    && c.left + c.right < 0.8 && c.top + c.bottom < 0.8
  }

  datatype Box = Box(left: int, top: int, right: int, bottom: int)

  /** The pixels that a crop takes off one end of a side. */
  function Cut(size: int, part: real): int { Round(size as real * part) }

  /** The crop box, or `None` for the empty-crop error. */
  function CropBox(width: int, height: int, c: Crop): Option<Box> {
    var left, top := Cut(width, c.left), Cut(height, c.top);
    var right, bottom := width - Cut(width, c.right), height - Cut(height, c.bottom);
    if right - left < 1 || bottom - top < 1 then None else Some(Box(left, top, right, bottom))
  }

  lemma ScaledBounds(size: int, part: real)
    requires size >= 0 && 0.0 <= part <= 0.4
    ensures 0.0 <= size as real * part <= size as real * 0.4
    ensures Cut(size, part) >= 0
  {
  }

  /** A crop box lies inside the image. */
  lemma CropInside(width: int, height: int, c: Crop)
    requires width >= 1 && height >= 1 && ValidCrop(c) && CropBox(width, height, c).Some?
    ensures var b := CropBox(width, height, c).value;
            0 <= b.left < b.right <= width && 0 <= b.top < b.bottom <= height
  {
    ScaledBounds(width, c.left);
    ScaledBounds(width, c.right);
    ScaledBounds(height, c.top);
    ScaledBounds(height, c.bottom);
  }

  /** Cropping from both ends takes all of a side. */
  predicate TakesAll(size: int, a: real, b: real) {
    size - Cut(size, b) - Cut(size, a) < 1
  }

  /** A side of five pixels or more always keeps one. */
  lemma LongSideStays(size: int, a: real, b: real)
    requires size >= 5 && 0.0 <= a <= 0.4 && 0.0 <= b <= 0.4 && a + b < 0.8
    ensures !TakesAll(size, a, b)
  {
    Distribute(size as real, a, b);
    CutIsNear(size, a);
    CutIsNear(size, b);
  }

  lemma CutIsNear(size: int, part: real)
    ensures Cut(size, part) as real <= size as real * part + 0.5
  {
    var x := size as real * part;
    assert Round(x) as real <= x + 0.5;
  }

  lemma Distribute(s: real, a: real, b: real)
    requires s >= 5.0 && a + b < 0.8
    ensures s * a + s * b < s - 1.0
  {
    var gap := 0.8 - (a + b);
    assert s * gap > 0.0;
    assert s * a + s * b + s * gap == s * (a + b + gap);
    assert a + b + gap == 0.8;
    assert s * 0.8 <= s - 1.0;
  }

  lemma OddSideStays(size: int, a: real, b: real)
    requires (size == 1 || size == 3) && 0.0 <= a <= 0.4 && 0.0 <= b <= 0.4
    ensures !TakesAll(size, a, b)
  {
    if size == 1 {
      assert size as real * a == a && size as real * b == b;
      assert Round(a) <= 0 && Round(b) <= 0;
    } else {
      assert size as real * a == 3.0 * a && size as real * b == 3.0 * b;
      assert Round(3.0 * a) <= 1 && Round(3.0 * b) <= 1;
    }
  }

  /** The empty-crop error after validation is possible exactly for a side of two or of four pixels. */
  lemma EmptyCropSides(size: int)
    requires size >= 1
    ensures (exists a: real, b: real :: 0.0 <= a <= 0.4 && 0.0 <= b <= 0.4 && a + b < 0.8 && TakesAll(size, a, b))
       <==> size == 2 || size == 4
  {
    if size == 2 || size == 4 {
      assert Round(2.0 * 0.39) == 1 && Round(4.0 * 0.39) == 2;
      assert Cut(size, 0.39) == size / 2;
      assert TakesAll(size, 0.39, 0.39);
    } else {
      forall a: real, b: real | 0.0 <= a <= 0.4 && 0.0 <= b <= 0.4 && a + b < 0.8 ensures !TakesAll(size, a, b) {
        if size >= 5 {
          LongSideStays(size, a, b);
        } else {
          OddSideStays(size, a, b);
        }
      }
    }
  }

  lemma CropFailsOnlyOnSmallSides(width: int, height: int, c: Crop)
    requires width >= 1 && height >= 1 && ValidCrop(c) && CropBox(width, height, c) == None
    ensures width == 2 || width == 4 || height == 2 || height == 4
  {
    assert TakesAll(width, c.left, c.right) || TakesAll(height, c.top, c.bottom);
    EmptyCropSides(width);
    EmptyCropSides(height);
  }

  // ----- Placing -----

  datatype Fit = Contain | Cover

  /** The size of the resized image, the part of it that is shown, and where that goes. */
  datatype Place = Place(newW: int, newH: int, cropLeft: int, cropTop: int,
                         offsetX: int, offsetY: int, shownW: int, shownH: int)

  function Scale(fit: Fit, innerW: int, innerH: int, srcW: int, srcH: int): real
    requires srcW > 0 && srcH > 0
  {
    var x, y := innerW as real / srcW as real, innerH as real / srcH as real;
    match fit
    case Contain => if y < x then y else x
    case Cover => if y > x then y else x
  }

  function AtLeastOne(n: int): int { if n < 1 then 1 else n }

  function NewSide(src: int, scale: real): int { AtLeastOne(Round(src as real * scale)) }

  function PlaceOf(fit: Fit, margin: nat, canvasW: int, canvasH: int, srcW: int, srcH: int): Place
    requires srcW > 0 && srcH > 0
  {
    var innerW, innerH := canvasW - 2 * margin, canvasH - 2 * margin;
    var scale := Scale(fit, innerW, innerH, srcW, srcH);
    var newW, newH := NewSide(srcW, scale), NewSide(srcH, scale);
    match fit
    case Contain =>
      Place(newW, newH, 0, 0, margin + (innerW - newW) / 2, margin + (innerH - newH) / 2, newW, newH)
    case Cover =>
      var cropLeft := if newW - innerW < 0 then 0 else (newW - innerW) / 2;
      var cropTop := if newH - innerH < 0 then 0 else (newH - innerH) / 2;
      Place(newW, newH, cropLeft, cropTop, margin, margin, innerW, innerH)
  }

  lemma MulDiv(a: int, b: int)
    requires b > 0
    ensures b as real * (a as real / b as real) == a as real
  {
  }

  lemma MulAtMost(b: int, x: real, y: real)
    requires b > 0 && x <= y
    ensures b as real * x <= b as real * y
  {
  }

  lemma ContainedSide(inner: int, src: int, scale: real)
    requires src > 0 && inner >= 1 && scale <= inner as real / src as real
    ensures 1 <= NewSide(src, scale) <= inner
    ensures scale == inner as real / src as real ==> NewSide(src, scale) == inner
  {
    MulDiv(inner, src);
    MulAtMost(src, scale, inner as real / src as real);
    RoundBelow(src as real * scale, inner);
  }

  lemma CoveredSide(inner: int, src: int, scale: real)
    requires src > 0 && inner >= 1 && scale >= inner as real / src as real
    ensures NewSide(src, scale) >= inner
    ensures scale == inner as real / src as real ==> NewSide(src, scale) == inner
  {
    MulDiv(inner, src);
    MulAtMost(src, inner as real / src as real, scale);
    RoundAbove(src as real * scale, inner);
  }

  /** A contained image stays inside the margins, fills the inner area in one dimension at least, and is
      centred within a pixel. */
  lemma ContainFits(margin: nat, canvasW: int, canvasH: int, srcW: int, srcH: int)
    requires srcW > 0 && srcH > 0 && 2 * margin < canvasW && 2 * margin < canvasH
    ensures var p := PlaceOf(Contain, margin, canvasW, canvasH, srcW, srcH);
            && margin <= p.offsetX && p.offsetX + p.newW <= canvasW - margin
            && margin <= p.offsetY && p.offsetY + p.newH <= canvasH - margin
            && (p.newW == canvasW - 2 * margin || p.newH == canvasH - 2 * margin)
            && 0 <= (canvasW - p.offsetX - p.newW) - p.offsetX <= 1
            && 0 <= (canvasH - p.offsetY - p.newH) - p.offsetY <= 1
            && 1 <= p.newW && 1 <= p.newH
            && p.shownW == p.newW && p.shownH == p.newH
  {
    var innerW, innerH := canvasW - 2 * margin, canvasH - 2 * margin;
    var scale := Scale(Contain, innerW, innerH, srcW, srcH);
    ContainedSide(innerW, srcW, scale);
    ContainedSide(innerH, srcH, scale);
    Centred(innerW, NewSide(srcW, scale));
    Centred(innerH, NewSide(srcH, scale));
  }

  lemma Centred(inner: int, side: int)
    ensures 0 <= (inner - side) - 2 * ((inner - side) / 2) <= 1
  {
  }

  /** A covering image fills the inner area: the part shown lies inside the resized image, is as large as
      the inner area, and is centred within a pixel; one dimension is not cut at all. */
  lemma CoverFills(margin: nat, canvasW: int, canvasH: int, srcW: int, srcH: int)
    requires srcW > 0 && srcH > 0 && 2 * margin < canvasW && 2 * margin < canvasH
    ensures var p := PlaceOf(Cover, margin, canvasW, canvasH, srcW, srcH);
            && 0 <= p.cropLeft && p.cropLeft + p.shownW <= p.newW
            && 0 <= p.cropTop && p.cropTop + p.shownH <= p.newH
            && p.shownW == canvasW - 2 * margin && p.shownH == canvasH - 2 * margin
            && 0 <= (p.newW - p.cropLeft - p.shownW) - p.cropLeft <= 1
            && 0 <= (p.newH - p.cropTop - p.shownH) - p.cropTop <= 1
            && (p.newW == p.shownW || p.newH == p.shownH)
  {
    var innerW, innerH := canvasW - 2 * margin, canvasH - 2 * margin;
    var scale := Scale(Cover, innerW, innerH, srcW, srcH);
    CoveredSide(innerW, srcW, scale);
    CoveredSide(innerH, srcH, scale);
    Centred(NewSide(srcW, scale), innerW);
    Centred(NewSide(srcH, scale), innerH);
  }

  /** The pixel of the finished canvas: the resized image where it is shown, white elsewhere. */
  function PixelAt(p: Place, resized: (int, int) -> int, x: int, y: int): int {
    if p.offsetX <= x < p.offsetX + p.shownW && p.offsetY <= y < p.offsetY + p.shownH
    then resized(x - p.offsetX + p.cropLeft, y - p.offsetY + p.cropTop)
    else 255
  }

  /** Pastes the image on a white canvas. `resize` gives the pixels of the source resized to a size. */
  method PlaceOnCanvas(
    fit: Fit, margin: nat, canvasW: int, canvasH: int, srcW: int, srcH: int, resize: (int, int) -> (int, int) -> int)
    returns (canvas: array2<int>)
    requires srcW > 0 && srcH > 0 && 2 * margin < canvasW && 2 * margin < canvasH
    ensures canvas.Length0 == canvasW && canvas.Length1 == canvasH
    ensures var p := PlaceOf(fit, margin, canvasW, canvasH, srcW, srcH);
            forall x, y :: 0 <= x < canvasW && 0 <= y < canvasH ==>
              canvas[x, y] == PixelAt(p, resize(p.newW, p.newH), x, y)
  {
    var p := PlaceOf(fit, margin, canvasW, canvasH, srcW, srcH);
    if fit == Contain {
      ContainFits(margin, canvasW, canvasH, srcW, srcH);
    } else {
      CoverFills(margin, canvasW, canvasH, srcW, srcH);
    }
    var resized := resize(p.newW, p.newH);
    canvas := new int[canvasW, canvasH]((_, _) => 255);
    for i := 0 to p.shownW
      invariant forall x, y :: 0 <= x < canvasW && 0 <= y < canvasH ==>
        canvas[x, y] == if x < p.offsetX + i then PixelAt(p, resized, x, y) else 255
    {
      for j := 0 to p.shownH
        invariant forall x, y :: 0 <= x < canvasW && 0 <= y < canvasH ==>
          canvas[x, y] == if x < p.offsetX + i || (x == p.offsetX + i && y < p.offsetY + j)
                          then PixelAt(p, resized, x, y) else 255
      {
        canvas[p.offsetX + i, p.offsetY + j] := resized(i + p.cropLeft, j + p.cropTop);
      }
    }
  }
}
