/**
 * The dimension arithmetic of image compression: an image larger than the
 * 800 x 600 bounding box in either direction is scaled uniformly by the
 * smaller of the two ratios; a smaller image keeps its size.
 */
module ImageSizing {
  import opened Config

  /** The pair of dimensions stored in a photo record. */
  datatype Size = Size(width: real, height: real)

  predicate Exceeds(w: real, h: real) {
    w > MaxWidth || h > MaxHeight
  }

  /**
   * The scale factor `Math.min(maxWidth / w, maxHeight / h)`. In JavaScript a
   * zero side gives an infinite ratio, which `Math.min` never picks; when the
   * image exceeds the box at most one side can be zero.
   */
  function Ratio(w: real, h: real): (r: real)
    requires w >= 0.0 && h >= 0.0 && Exceeds(w, h)
    ensures 0.0 < r < 1.0
    ensures w > 0.0 ==> r <= MaxWidth / w
    ensures h > 0.0 ==> r <= MaxHeight / h
    ensures (w > 0.0 && r == MaxWidth / w) || (h > 0.0 && r == MaxHeight / h)
  {
    if w == 0.0 then MaxHeight / h
    else if h == 0.0 then MaxWidth / w
    else if MaxWidth / w <= MaxHeight / h then MaxWidth / w
    else MaxHeight / h
  }

  /** New dimensions of a decoded image of natural size `w` x `h`. */
  function Resize(w: real, h: real): (r: Size)
    requires w >= 0.0 && h >= 0.0
    ensures !Exceeds(w, h) ==> r == Size(w, h)
    ensures 0.0 <= r.width <= MaxWidth && 0.0 <= r.height <= MaxHeight
    ensures r.width <= w && r.height <= h
    ensures r.width * h == r.height * w
    ensures Exceeds(w, h) ==> r.width == MaxWidth || r.height == MaxHeight
    ensures w > 0.0 ==> r.width > 0.0
    ensures h > 0.0 ==> r.height > 0.0
  {
    if Exceeds(w, h) then
      var k := Ratio(w, h);
      ScaledWithinBox(w, h, k);
      Size(w * k, h * k)
    else
      Size(w, h)
  }

  /** Scaling by the ratio lands inside the box and meets one side exactly. */
  lemma ScaledWithinBox(w: real, h: real, k: real)
    requires w >= 0.0 && h >= 0.0 && Exceeds(w, h) && k == Ratio(w, h)
    ensures w * k <= MaxWidth && h * k <= MaxHeight
    ensures w * k == MaxWidth || h * k == MaxHeight
    ensures w * k <= w && h * k <= h
    ensures (w * k) * h == (h * k) * w
  {
    if w > 0.0 {
      assert w * k <= w * (MaxWidth / w);
    }
    if h > 0.0 {
      assert h * k <= h * (MaxHeight / h);
    }
  }

  /** Resizing an already resized image changes nothing: the output fits the box. */
  lemma {:induction false} ResizeIdempotent(w: real, h: real)
    requires w >= 0.0 && h >= 0.0
    ensures Resize(Resize(w, h).width, Resize(w, h).height) == Resize(w, h)
  {
    var r := Resize(w, h);
    assert !Exceeds(r.width, r.height);
  }
}
