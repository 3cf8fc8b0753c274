/** Pixel buffers: an H x W x 3 array of unsigned bytes, as a sequence of rows. */
module Image {

  /** numpy's uint8 channel value. */
  newtype uint8 = x: int | 0 <= x < 256

  /** One pixel with its three colour channels (OpenCV stores them blue, green, red). */
  datatype Pixel = Pixel(blue: uint8, green: uint8, red: uint8)

  /** The padding colour: every channel zero. */
  const Black: Pixel := Pixel(0, 0, 0)

  /** An image as a sequence of rows of pixels. */
  type Grid = seq<seq<Pixel>>

  /** `g` has exactly `rows` rows of exactly `cols` pixels each. */
  predicate IsGrid(g: Grid, rows: nat, cols: nat) {
    |g| == rows && forall i :: 0 <= i < |g| ==> |g[i]| == cols
  }

  /** A single row of `n` black pixels. */
  function BlackRow(n: nat): (row: seq<Pixel>)
    ensures |row| == n
    ensures forall j :: 0 <= j < n ==> row[j] == Black
  {
    if n == 0 then [] else BlackRow(n - 1) + [Black]
  }

  /** `np.zeros((rows, cols, 3), dtype=np.uint8)`: a grid of the given shape, all black. */
  function Blank(rows: nat, cols: nat): (g: Grid)
    ensures IsGrid(g, rows, cols)
    ensures forall i, j :: 0 <= i < rows && 0 <= j < cols ==> g[i][j] == Black
  {
    seq(rows, _ => BlackRow(cols))
  }

  /** One row of the slice assignment: `src` written over `row` from column `x` on,
      every other pixel kept. */
  function PasteRow(row: seq<Pixel>, src: seq<Pixel>, x: nat): (r: seq<Pixel>)
    requires x + |src| <= |row|
    ensures |r| == |row|
    ensures forall j :: x <= j < x + |src| ==> r[j] == src[j - x]
    ensures forall j :: 0 <= j < |row| && !(x <= j < x + |src|) ==> r[j] == row[j]
  {
    row[..x] + src + row[x + |src|..]
  }

  /** A grid whose rows in the block are pasted rows, and whose other rows are kept,
      shows `src` inside the block and keeps every pixel outside it. */
  lemma PastedRows(dst: Grid, src: Grid, y: nat, x: nat, h: nat, w: nat, r: Grid)
    requires IsGrid(src, h, w) && y + h <= |dst| && |r| == |dst|
    requires forall i :: 0 <= i < |dst| ==> |r[i]| == |dst[i]|
    requires forall i :: y <= i < y + h ==> x + w <= |dst[i]| && r[i] == PasteRow(dst[i], src[i - y], x)
    requires forall i :: 0 <= i < |dst| && !(y <= i < y + h) ==> r[i] == dst[i]
    ensures forall i, j :: y <= i < y + h && x <= j < x + w ==> r[i][j] == src[i - y][j - x]
    ensures forall i, j :: 0 <= i < |r| && 0 <= j < |r[i]| && !(y <= i < y + h && x <= j < x + w) ==>
      r[i][j] == dst[i][j]
  {
  }

  /** The slice assignment `dst[y:y+h, x:x+w] = src` for a block that lies inside `dst`:
      the block is overwritten with `src` and every other pixel is kept. */
  function Paste(dst: Grid, src: Grid, y: nat, x: nat, h: nat, w: nat): (r: Grid)
    requires IsGrid(src, h, w)
    requires y + h <= |dst|
    requires forall i :: y <= i < y + h ==> x + w <= |dst[i]|
    ensures |r| == |dst|
    ensures forall i :: 0 <= i < |r| ==> |r[i]| == |dst[i]|
    ensures forall i, j :: y <= i < y + h && x <= j < x + w ==> r[i][j] == src[i - y][j - x]
    ensures forall i, j :: 0 <= i < |r| && 0 <= j < |r[i]| && !(y <= i < y + h && x <= j < x + w) ==>
      r[i][j] == dst[i][j]
  {
    var r := seq(|dst|, i requires 0 <= i < |dst| =>
      if y <= i < y + h then PasteRow(dst[i], src[i - y], x) else dst[i]);
    assert forall i :: y <= i < y + h ==> r[i] == PasteRow(dst[i], src[i - y], x);
    assert forall i :: 0 <= i < |dst| && !(y <= i < y + h) ==> r[i] == dst[i];
    assert forall i :: 0 <= i < |dst| ==> |r[i]| == |dst[i]|;
    PastedRows(dst, src, y, x, h, w, r);
    r
  }
}
