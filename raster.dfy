/** The pixel grid every stage of the landscape analysis works on: the bands
    read from the Hansen Global Forest Change image, the area of each pixel,
    positions on the grid and their 8-neighbourhood. */
module Raster {

  /** A band value that is either masked (None) or present. */
  datatype Option<T> = None | Some(value: T)

  /** The band values of one pixel: `treecover2000` (canopy cover in 2000,
      percent), `loss` (1 where forest was lost, else 0), `lossyear` (the
      loss-year code, 0 for no loss) and `pixelArea` (square metres). */
  datatype Pixel = Pixel(treecover2000: int, loss: nat, lossyear: nat, pixelArea: nat)

  /** An image as a sequence of rows; row `r` holds `|img[r]|` pixels. */
  type Image = seq<seq<Pixel>>

  datatype Pos = Pos(row: int, col: int)

  predicate InBounds(img: Image, p: Pos) {
    0 <= p.row < |img| && 0 <= p.col < |img[p.row]|
  }

  function At(img: Image, p: Pos): Pixel
    requires InBounds(img, p)
  {
    img[p.row][p.col]
  }

  /** The image with the pixel at `p` replaced by `px`. */
  function SetPixel(img: Image, p: Pos, px: Pixel): (img': Image)
    requires InBounds(img, p)
    ensures |img'| == |img| && forall r :: 0 <= r < |img| ==> |img'[r]| == |img[r]|
    ensures At(img', p) == px
    ensures forall q :: InBounds(img, q) && q != p ==> At(img', q) == At(img, q)
  {
    img[p.row := img[p.row][p.col := px]]
  }

  /** Two different pixels are neighbours when they touch at an edge or a
      corner (8-connectivity, the default of connectedPixelCount). */
  predicate Adjacent(p: Pos, q: Pos) {
    p != q && -1 <= p.row - q.row <= 1 && -1 <= p.col - q.col <= 1
  }

  /** The positions of rows `r` onwards, in row-major order. */
  function ScanFrom(img: Image, r: nat): (s: seq<Pos>)
    ensures forall p :: p in s <==> r <= p.row && InBounds(img, p)
    ensures forall i, j :: 0 <= i < j < |s| ==> s[i] != s[j]
    decreases |img| - r
  {
    if r >= |img| then []
    else
      var row := seq(|img[r]|, c => Pos(r, c));
      assert forall p :: p in row <==> p.row == r && 0 <= p.col < |img[r]| by {
        forall p: Pos | p.row == r && 0 <= p.col < |img[r]| ensures p in row {
          assert row[p.col] == p;
        }
      }
      row + ScanFrom(img, r + 1)
  }

  /** Every pixel of the image exactly once, row by row. */
  function Scan(img: Image): (s: seq<Pos>)
    ensures forall p :: p in s <==> InBounds(img, p)
    ensures forall i, j :: 0 <= i < j < |s| ==> s[i] != s[j]
  {
    ScanFrom(img, 0)
  }

  /** Images of the same shape are scanned alike. */
  lemma {:induction false} ScanFromSameShape(img1: Image, img2: Image, r: nat)
    requires |img1| == |img2| && forall k :: 0 <= k < |img1| ==> |img1[k]| == |img2[k]|
    ensures ScanFrom(img1, r) == ScanFrom(img2, r)
    decreases |img1| - r
  {
    if r < |img1| {
      ScanFromSameShape(img1, img2, r + 1);
    }
  }

  lemma ScanSameShape(img1: Image, img2: Image)
    requires |img1| == |img2| && forall k :: 0 <= k < |img1| ==> |img1[k]| == |img2[k]|
    ensures Scan(img1) == Scan(img2)
  {
    ScanFromSameShape(img1, img2, 0);
  }
}
