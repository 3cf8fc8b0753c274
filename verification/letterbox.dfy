/** Letterbox geometry of `extract_frames`: the aspect-preserving target size of a
    frame, the centring offsets, and the square canvas the resized frame is placed on.
    The aspect ratio is computed exactly: `int(final_size / (w / h))` is the floor of
    `final_size * h / w`, and `int(final_size * (w / h))` the floor of `final_size * w / h`. */
module Letterbox {
  import opened Image

  /** A target size in OpenCV's (width, height) order. */
  datatype Size = Size(width: nat, height: nat)

  /** Where the resized frame goes on the canvas: its size and its top-left corner. */
  datatype Placement = Placement(size: Size, x: nat, y: nat)

  /** The canvas pixel (i, j) is covered by the resized frame. */
  predicate InBox(p: Placement, i: int, j: int) {
    p.y <= i < p.y + p.size.height && p.x <= j < p.x + p.size.width
  }

  /** `q` is the floor of `a / b`, stated without division. */
  predicate IsFloorQuotient(q: int, a: int, b: int) {
    q * b <= a < (q + 1) * b
  }

  /** A product of non-negative numbers is non-negative. */
  lemma ProductNonNegative(a: int, b: int)
    requires a >= 0 && b >= 0
    ensures a * b >= 0
  {
  }

  /** Multiplying by a positive factor preserves order: a product comparison on a common
      factor decides the comparison of the other factors. */
  lemma CancelFactor(a: int, b: int, n: int)
    requires n > 0
    ensures a * n <= b * n ==> a <= b
  {
    if a > b {
      var d := a - b - 1;
      ProductNonNegative(d, n);
      assert a * n == b * n + n + d * n;
    }
  }

  /** Integer division of a non-negative number is a non-negative floor quotient. */
  lemma DivIsFloorQuotient(a: int, b: int)
    requires a >= 0 && b > 0
    ensures a / b >= 0
    ensures IsFloorQuotient(a / b, a, b)
  {
    var q := a / b;
    var r := a % b;
    assert a == q * b + r && 0 <= r < b;
    assert (q + 1) * b == q * b + b;
    CancelFactor(q + 1, 0, b);
  }

  /** Multiplying by a larger factor gives a larger product. */
  lemma MulMonotone(s: int, a: int, b: int)
    requires s >= 0 && a <= b
    ensures s * a <= s * b
  {
    var d := b - a;
    ProductNonNegative(s, d);
    assert s * b == s * a + s * d;
  }

  /** Truncated scaling by `small / large` with `small <= large` is a non-negative floor
      quotient and never exceeds the scaled value. */
  lemma ScaleDownBounds(s: int, small: int, large: int)
    requires s >= 0 && 0 <= small <= large && 0 < large
    ensures 0 <= s * small / large <= s
    ensures IsFloorQuotient(s * small / large, s * small, large)
  {
    var a := s * small;
    ProductNonNegative(s, small);
    DivIsFloorQuotient(a, large);
    MulMonotone(s, small, large);
    CancelFactor(a / large, s, large);
  }

  /** `int(s * small / large)` for `small <= large`: the truncated scaled side, which is
      the floor quotient and never exceeds `s`. */
  function ScaleDown(s: nat, small: nat, large: nat): (q: nat)
    requires 0 < large && small <= large
    ensures IsFloorQuotient(q, s * small, large)
    ensures q <= s
  {
    ScaleDownBounds(s, small, large);
    s * small / large
  }

  /** The resized dimensions for a frame of height `h` and width `w`: a frame wider than
      tall gets the full canvas width and the truncated proportional height, any other
      frame the full canvas height and the truncated proportional width. */
  function ResizeDims(h: nat, w: nat, finalSize: nat): (s: Size)
    requires h > 0
    ensures w > h ==> s.width == finalSize
    ensures w <= h ==> s.height == finalSize
    ensures s.width <= finalSize && s.height <= finalSize
  {
    if w > h then Size(finalSize, ScaleDown(finalSize, h, w))
    else Size(ScaleDown(finalSize, w, h), finalSize)
  }

  /** The proportional side is the aspect-scaled canvas side truncated towards zero:
      the floor of `final_size * h / w` for a wide frame, of `final_size * w / h` otherwise. */
  lemma ResizeDimsTruncates(h: nat, w: nat, finalSize: nat)
    requires h > 0
    ensures var s := ResizeDims(h, w, finalSize);
      && (w > h ==> IsFloorQuotient(s.height, finalSize * h, w))
      && (w <= h ==> IsFloorQuotient(s.width, finalSize * w, h))
  {
  }

  /** The leading padding `(final_size - extent) // 2`: half the free space, rounded down,
      so the trailing padding is equal to it or one pixel larger. */
  function CenterOffset(finalSize: nat, extent: nat): (o: nat)
    requires extent <= finalSize
    ensures 2 * o <= finalSize - extent <= 2 * o + 1
  {
    (finalSize - extent) / 2
  }

  /** Size and position of a frame of height `h` and width `w` on a `finalSize` square. */
  function Place(h: nat, w: nat, finalSize: nat): (p: Placement)
    requires h > 0
    ensures p.size == ResizeDims(h, w, finalSize)
    ensures FitsCanvas(p, finalSize)
    ensures p.y <= finalSize - p.size.height - p.y <= p.y + 1
    ensures p.x <= finalSize - p.size.width - p.x <= p.x + 1
  {
    var s := ResizeDims(h, w, finalSize);
    Placement(s, CenterOffset(finalSize, s.width), CenterOffset(finalSize, s.height))
  }

  /** The placement box lies inside a `finalSize` square. */
  predicate FitsCanvas(p: Placement, finalSize: nat) {
    p.y + p.size.height <= finalSize && p.x + p.size.width <= finalSize
  }

  /** The square canvas: a black `finalSize` square with the resized frame written into
      the placement box. It is black outside the box and shows the resized frame inside it. */
  function Compose(finalSize: nat, p: Placement, resized: Grid): (canvas: Grid)
    requires FitsCanvas(p, finalSize)
    requires IsGrid(resized, p.size.height, p.size.width)
    ensures IsGrid(canvas, finalSize, finalSize)
    ensures forall i, j :: 0 <= i < finalSize && 0 <= j < finalSize && InBox(p, i, j) ==>
      canvas[i][j] == resized[i - p.y][j - p.x]
    ensures forall i, j :: 0 <= i < finalSize && 0 <= j < finalSize && !InBox(p, i, j) ==>
      canvas[i][j] == Black
  {
    Paste(Blank(finalSize, finalSize), resized, p.y, p.x, p.size.height, p.size.width)
  }

  /** Both dimensions fit on the canvas, so both paddings are non-negative and the
      placement box lies inside the canvas. */
  lemma PlacementInsideCanvas(h: nat, w: nat, finalSize: nat)
    requires h > 0
    ensures var p := Place(h, w, finalSize);
      && p.size.width <= finalSize && p.size.height <= finalSize
      && forall i, j :: InBox(p, i, j) ==> 0 <= i < finalSize && 0 <= j < finalSize
  {
  }

  /** A square frame fills the whole canvas with no padding. */
  lemma SquareFrameFillsCanvas(n: nat, finalSize: nat)
    requires n > 0
    ensures Place(n, n, finalSize) == Placement(Size(finalSize, finalSize), 0, 0)
  {
    var s := ResizeDims(n, n, finalSize);
    ResizeDimsTruncates(n, n, finalSize);
    CancelFactor(s.width + 1, finalSize, n);
  }

  /** The canvas holds every pixel of the resized frame at its offset position: the
      frame is neither cropped nor shifted by the composition. */
  lemma ComposeShowsWholeFrame(finalSize: nat, p: Placement, resized: Grid)
    requires FitsCanvas(p, finalSize)
    requires IsGrid(resized, p.size.height, p.size.width)
    ensures var canvas := Compose(finalSize, p, resized);
      forall r, c :: 0 <= r < p.size.height && 0 <= c < p.size.width ==>
        canvas[p.y + r][p.x + c] == resized[r][c]
  {
    var canvas := Compose(finalSize, p, resized);
    forall r, c | 0 <= r < p.size.height && 0 <= c < p.size.width
      ensures canvas[p.y + r][p.x + c] == resized[r][c]
    {
      assert InBox(p, p.y + r, p.x + c);
    }
  }

  /** A 1920 x 1080 landscape frame on a 1024 canvas becomes a 1024 x 576 band starting at row 224. */
  lemma LandscapeExample()
    ensures Place(1080, 1920, 1024) == Placement(Size(1024, 576), 0, 224)
  {
  }

  /** A 1080 x 1920 portrait frame on a 1024 canvas becomes a 576 x 1024 band starting at column 224. */
  lemma PortraitExample()
    ensures Place(1920, 1080, 1024) == Placement(Size(576, 1024), 224, 0)
  {
  }

  /** `int()` truncates: a 3:2 frame on a 1024 canvas is 682 rows high (1024 * 2 / 3 = 682.67),
      where rounding would give 683. */
  lemma TruncatesNotRounds()
    ensures ResizeDims(2, 3, 1024) == Size(1024, 682)
    ensures Place(2, 3, 1024).y == 171
  {
  }
}
