/** Decoded images, bounding boxes and the crops written by both croppers.
    An image is indexed `pixels[y][x][c]`, as the numpy arrays of the Python scripts are. */
module Images {

  /** A decoded image: height × width pixels of `channels` values each. */
  datatype Image = Image(height: nat, width: nat, channels: nat, pixels: seq<seq<seq<int>>>)

  /** A box (x1, y1, x2, y2): columns [x1, x2) and rows [y1, y2). */
  datatype Box = Box(x1: int, y1: int, x2: int, y2: int)

  /** A written crop: the file `char_<index>.png`, the box it was cut from and its pixels. */
  datatype Sprite = Sprite(index: nat, box: Box, pixels: seq<seq<seq<int>>>)

  predicate IsByte(v: int) {
    0 <= v < 256
  }

  /** g has h rows of w entries each. */
  predicate IsGrid(g: seq<seq<int>>, h: nat, w: nat) {
    |g| == h && forall y :: 0 <= y < h ==> |g[y]| == w
  }

  ghost predicate IsByteGrid(g: seq<seq<int>>, h: nat, w: nat) {
    IsGrid(g, h, w) && forall y, x :: 0 <= y < h && 0 <= x < w ==> IsByte(g[y][x])
  }

  /** A colour image as `cv2.imread(..., cv2.IMREAD_UNCHANGED)` loads it: three or four
      channels per pixel. The sample depth is left open, since an unchanged load keeps
      16-bit data as it is. */
  ghost predicate ValidImage(img: Image) {
    && (img.channels == 3 || img.channels == 4)
    && |img.pixels| == img.height
    && (forall y :: 0 <= y < img.height ==> |img.pixels[y]| == img.width)
    && (forall y, x :: 0 <= y < img.height && 0 <= x < img.width ==>
          |img.pixels[y][x]| == img.channels)
  }

  /** An image with 8-bit samples. */
  ghost predicate IsByteImage(img: Image)
    requires ValidImage(img)
  {
    forall y, x, c :: 0 <= y < img.height && 0 <= x < img.width && 0 <= c < img.channels ==>
      IsByte(img.pixels[y][x][c])
  }

  /** The box lies inside a width × height image. */
  predicate InImage(b: Box, width: int, height: int) {
    0 <= b.x1 <= b.x2 <= width && 0 <= b.y1 <= b.y2 <= height
  }

  /** The array slice `img[y1:y2, x1:x2]`: the pixels of the box, keeping every
      channel, top row first. */
  function Crop(img: Image, b: Box): (c: seq<seq<seq<int>>>)
    requires ValidImage(img) && InImage(b, img.width, img.height)
    ensures |c| == b.y2 - b.y1
    decreases b.y2 - b.y1
  {
    if b.y1 == b.y2 then []
    else Crop(img, b.(y2 := b.y2 - 1)) + [img.pixels[b.y2 - 1][b.x1..b.x2]]
  }

  /** Pixel (dx, dy) of a crop is pixel (x1 + dx, y1 + dy) of the image, with all
      its channels. */
  lemma {:induction false} CropPixel(img: Image, b: Box)
    requires ValidImage(img) && InImage(b, img.width, img.height)
    ensures forall dy :: 0 <= dy < b.y2 - b.y1 ==> |Crop(img, b)[dy]| == b.x2 - b.x1
    ensures forall dy, dx :: 0 <= dy < b.y2 - b.y1 && 0 <= dx < b.x2 - b.x1 ==>
              Crop(img, b)[dy][dx] == img.pixels[b.y1 + dy][b.x1 + dx]
    decreases b.y2 - b.y1
  {
    if b.y1 < b.y2 {
      CropPixel(img, b.(y2 := b.y2 - 1));
    }
  }
}
