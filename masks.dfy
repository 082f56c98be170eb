/** The opacity mask the precise cropper segments: the alpha channel of a
    four-channel image, otherwise an inverted binary threshold of its grayscale
    version (near-white pixels are background). */
module Masks {
  import opened Images

  /** Gray levels above this are background in the fallback mask. */
  const GRAY_CUTOFF := 240
  /** The value the fallback mask gives to foreground pixels. */
  const FOREGROUND := 255

  /** The grayscale conversion of the image, which the mask needs only when there
      is no alpha channel. */
  ghost predicate GrayFits(img: Image, gray: seq<seq<int>>) {
    img.channels != 4 ==> IsGrid(gray, img.height, img.width)
  }

  /** The inverted binary threshold of one gray level. */
  function InvertedBinary(v: int): (m: int)
    ensures m == 0 || m == FOREGROUND
    ensures m == 0 <==> v > GRAY_CUTOFF
  {
    if v > GRAY_CUTOFF then 0 else FOREGROUND
  }

  /** The mask: channel 3 when the image has four channels, else the inverted
      binary threshold of the gray level at 240. */
  function MaskOf(img: Image, gray: seq<seq<int>>): (alpha: seq<seq<int>>)
    requires ValidImage(img) && GrayFits(img, gray)
    ensures IsGrid(alpha, img.height, img.width)
    ensures img.channels == 4 ==>
              forall y, x :: 0 <= y < img.height && 0 <= x < img.width ==>
                alpha[y][x] == img.pixels[y][x][3]
    ensures img.channels != 4 ==>
              forall y, x :: 0 <= y < img.height && 0 <= x < img.width ==>
                (alpha[y][x] == 0 <==> gray[y][x] > GRAY_CUTOFF) && (alpha[y][x] == 0 || alpha[y][x] == FOREGROUND)
  {
    if img.channels == 4 then
      seq(img.height, y requires 0 <= y < img.height =>
        seq(img.width, x requires 0 <= x < img.width => img.pixels[y][x][3]))
    else
      seq(img.height, y requires 0 <= y < img.height =>
        seq(img.width, x requires 0 <= x < img.width => InvertedBinary(gray[y][x])))
  }

  /** Every mask value is an 8-bit value: always for the fallback mask, and for the
      alpha mask when the image has 8-bit samples. */
  lemma MaskIsByteGrid(img: Image, gray: seq<seq<int>>)
    requires ValidImage(img) && GrayFits(img, gray)
    requires img.channels == 4 ==> IsByteImage(img)
    ensures IsByteGrid(MaskOf(img, gray), img.height, img.width)
  {
  }

  /** The mask is all zero exactly when the image is blank: fully transparent with
      an alpha channel, or near-white everywhere without one. */
  lemma BlankMask(img: Image, gray: seq<seq<int>>)
    requires ValidImage(img) && GrayFits(img, gray)
    ensures (forall y, x :: 0 <= y < img.height && 0 <= x < img.width ==> MaskOf(img, gray)[y][x] == 0)
        <==> if img.channels == 4
             then forall y, x :: 0 <= y < img.height && 0 <= x < img.width ==> img.pixels[y][x][3] == 0
             else forall y, x :: 0 <= y < img.height && 0 <= x < img.width ==> gray[y][x] > GRAY_CUTOFF
  {
    var alpha := MaskOf(img, gray);
    if forall y, x :: 0 <= y < img.height && 0 <= x < img.width ==> alpha[y][x] == 0 {
      forall y, x | 0 <= y < img.height && 0 <= x < img.width
        ensures if img.channels == 4 then img.pixels[y][x][3] == 0 else gray[y][x] > GRAY_CUTOFF
      {
        assert alpha[y][x] == 0;
      }
    }
  }
}
