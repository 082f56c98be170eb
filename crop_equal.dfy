/** The equal-width cropper: the sheet is cut into four full-height vertical slices
    of width `w // 4`, written as `char_0` ... `char_3` from left to right. */
module CropEqual {
  import opened Images

  /** The number of slices. */
  const COLUMNS := 4

  /** `col_w = w // 4`: the largest width of which four fit into w. */
  function ColumnWidth(w: nat): (cw: nat)
    ensures COLUMNS * cw <= w < COLUMNS * (cw + 1)
  {
    w / COLUMNS
  }

  /** The box of slice i: columns [i * col_w, (i + 1) * col_w) and every row. */
  function SliceBox(i: nat, w: nat, h: nat): (b: Box)
    requires i < COLUMNS
    ensures InImage(b, w, h)
  {
    var cw := ColumnWidth(w);
    Box(i * cw, 0, (i + 1) * cw, h)
  }

  /** The four slices of the sheet, in order. */
  method SplitColumns(img: Image) returns (sprites: seq<Sprite>)
    requires ValidImage(img)
    ensures |sprites| == COLUMNS
    ensures forall i :: 0 <= i < COLUMNS ==>
              sprites[i] == Sprite(i, SliceBox(i, img.width, img.height),
                                   Crop(img, SliceBox(i, img.width, img.height)))
  {
    var h, w := img.height, img.width;
    var colW := w / 4;
    sprites := [];
    for i := 0 to 4
      invariant |sprites| == i
      invariant forall k :: 0 <= k < i ==>
                  sprites[k] == Sprite(k, SliceBox(k, w, h), Crop(img, SliceBox(k, w, h)))
    {
      var x1 := i * colW;
      var x2 := (i + 1) * colW;
      assert Box(x1, 0, x2, h) == SliceBox(i, w, h);
      var cropped := Crop(img, Box(x1, 0, x2, h));
      sprites := sprites + [Sprite(i, Box(x1, 0, x2, h), cropped)];
    }
  }

  /** The slices have equal width `w // 4`, span every row, and lie side by side:
      the first starts at column 0 and each starts where the previous one ends. */
  lemma SlicesTile(w: nat, h: nat)
    ensures SliceBox(0, w, h).x1 == 0
    ensures SliceBox(COLUMNS - 1, w, h).x2 == COLUMNS * ColumnWidth(w)
    ensures forall i :: 0 <= i < COLUMNS ==>
              SliceBox(i, w, h).x2 - SliceBox(i, w, h).x1 == ColumnWidth(w)
              && SliceBox(i, w, h).y1 == 0 && SliceBox(i, w, h).y2 == h
    ensures forall i :: 0 <= i < COLUMNS - 1 ==> SliceBox(i, w, h).x2 == SliceBox(i + 1, w, h).x1
  {
  }

  /** The slices cover [0, 4 * col_w) without overlap: column x lies in slice i exactly
      when i is x divided by the slice width, which names one of the four slices. */
  lemma SliceOfColumn(w: nat, h: nat, x: int, i: nat)
    requires i < COLUMNS && 0 <= x < COLUMNS * ColumnWidth(w)
    ensures x / ColumnWidth(w) < COLUMNS
    ensures SliceBox(i, w, h).x1 <= x < SliceBox(i, w, h).x2 <==> i == x / ColumnWidth(w)
  {
    var cw := ColumnWidth(w);
    QuotientOfSlice(x, cw, i);
    QuotientOfSlice(x, cw, x / cw);
  }

  /** Euclidean division: q is x / d exactly when x lies in [q * d, (q + 1) * d). */
  lemma QuotientOfSlice(x: int, d: int, q: int)
    requires d > 0
    ensures q * d <= x < (q + 1) * d <==> x / d == q
  {
    var k, r := x / d, x % d;
    assert x == k * d + r && 0 <= r < d;
    assert (k - q) * d == x - r - q * d;
    MulBound(k - q, d);
  }

  /** A non-zero multiple of d is at least d away from 0. */
  lemma MulBound(a: int, d: int)
    requires d > 0
    ensures a >= 1 ==> a * d >= d
    ensures a <= -1 ==> a * d <= -d
  {
  }

  /** The rightmost `w mod 4` columns are in no slice: they are never written. */
  lemma RemainderUncovered(w: nat, h: nat, x: int)
    requires COLUMNS * ColumnWidth(w) <= x < w
    ensures w - COLUMNS * ColumnWidth(w) == w % COLUMNS
    ensures forall i :: 0 <= i < COLUMNS ==> !(SliceBox(i, w, h).x1 <= x < SliceBox(i, w, h).x2)
  {
  }

  /** Pixel (dx, y) of slice i is pixel (i * col_w + dx, y) of the sheet. */
  lemma SlicePixel(img: Image, i: nat)
    requires ValidImage(img) && i < COLUMNS
    ensures forall y :: 0 <= y < img.height ==>
              |Crop(img, SliceBox(i, img.width, img.height))[y]| == ColumnWidth(img.width)
    ensures forall y, dx :: 0 <= y < img.height && 0 <= dx < ColumnWidth(img.width) ==>
              Crop(img, SliceBox(i, img.width, img.height))[y][dx]
                == img.pixels[y][i * ColumnWidth(img.width) + dx]
  {
    CropPixel(img, SliceBox(i, img.width, img.height));
  }
}
