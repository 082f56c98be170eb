/** Projections of a mask onto one axis (`np.sum(..., axis=...)` in the precise cropper)
    and the density threshold the segmenter compares their values against. */
module Projection {
  import opened Images
  import opened Segmenter

  /** The base density constant `threshold = 50`. */
  const THRESHOLD := 50
  /** The factor the base constant and the extent are scaled by. */
  const DENSITY_FACTOR: real := 0.005

  function Sum(s: seq<int>): int {
    if s == [] then 0 else Sum(s[..|s| - 1]) + s[|s| - 1]
  }

  /** Column x of a mask, top to bottom. */
  function Column(mask: seq<seq<int>>, x: nat): (c: seq<int>)
    requires forall y :: 0 <= y < |mask| ==> x < |mask[y]|
    ensures |c| == |mask| && forall y :: 0 <= y < |mask| ==> c[y] == mask[y][x]
  {
    seq(|mask|, y requires 0 <= y < |mask| => mask[y][x])
  }

  /** `np.sum(alpha, axis=0)`: one total per column, over all rows. */
  function ColumnSums(mask: seq<seq<int>>, h: nat, w: nat): (r: seq<int>)
    requires IsGrid(mask, h, w)
    ensures |r| == w
    ensures forall x :: 0 <= x < w ==> r[x] == Sum(Column(mask, x))
  {
    seq(w, x requires 0 <= x < w => Sum(Column(mask, x)))
  }

  /** `np.sum(alpha[:, xs:xe], axis=1)`: one total per row, over columns [xs, xe). */
  function RowSums(mask: seq<seq<int>>, h: nat, w: nat, xs: nat, xe: nat): (r: seq<int>)
    requires IsGrid(mask, h, w) && xs <= xe <= w
    ensures |r| == h
    ensures forall y :: 0 <= y < h ==> r[y] == Sum(mask[y][xs..xe])
  {
    seq(h, y requires 0 <= y < h => Sum(mask[y][xs..xe]))
  }

  /** The total of the mask over a box, row by row. */
  function BlockSum(mask: seq<seq<int>>, h: nat, w: nat, b: Box): int
    requires IsGrid(mask, h, w) && InImage(b, w, h)
    decreases b.y2 - b.y1
  {
    if b.y1 == b.y2 then 0
    else BlockSum(mask, h, w, b.(y2 := b.y2 - 1)) + Sum(mask[b.y2 - 1][b.x1..b.x2])
  }

  /** `threshold * extent * 0.005`, computed exactly: a quarter of the extent. */
  function DensityThreshold(extent: int): (t: real)
    ensures 4.0 * t == extent as real
  {
    (THRESHOLD * extent) as real * DENSITY_FACTOR
  }

  /** The density test is exactly the integer comparison 4 * v > extent. */
  lemma AboveDensityThreshold(v: int, extent: int)
    ensures Above(v, DensityThreshold(extent)) <==> 4 * v > extent
  {
  }

  lemma {:induction false} SumBounds(s: seq<int>, hi: int)
    requires forall i :: 0 <= i < |s| ==> 0 <= s[i] <= hi
    ensures 0 <= Sum(s) <= hi * |s|
  {
    if s != [] {
      SumBounds(s[..|s| - 1], hi);
    }
  }

  lemma {:induction false} SumZero(s: seq<int>)
    requires forall i :: 0 <= i < |s| ==> s[i] == 0
    ensures Sum(s) == 0
  {
    if s != [] {
      SumZero(s[..|s| - 1]);
    }
  }

  /** Summing a pointwise sum of two profiles gives the sum of their sums. */
  lemma {:induction false} SumPointwise(a: seq<int>, b: seq<int>, c: seq<int>)
    requires |a| == |b| == |c|
    requires forall i :: 0 <= i < |c| ==> c[i] == a[i] + b[i]
    ensures Sum(c) == Sum(a) + Sum(b)
  {
    if c != [] {
      var n := |c| - 1;
      SumPointwise(a[..n], b[..n], c[..n]);
    }
  }

  /** Each profile value of an 8-bit mask lies between 0 and 255 times the extent summed over. */
  lemma ProfileBounds(mask: seq<seq<int>>, h: nat, w: nat, xs: nat, xe: nat)
    requires IsByteGrid(mask, h, w) && xs <= xe <= w
    ensures forall x :: 0 <= x < w ==> 0 <= ColumnSums(mask, h, w)[x] <= 255 * h
    ensures forall y :: 0 <= y < h ==> 0 <= RowSums(mask, h, w, xs, xe)[y] <= 255 * (xe - xs)
  {
    forall x | 0 <= x < w
      ensures 0 <= ColumnSums(mask, h, w)[x] <= 255 * h
    {
      SumBounds(Column(mask, x), 255);
    }
    forall y | 0 <= y < h
      ensures 0 <= RowSums(mask, h, w, xs, xe)[y] <= 255 * (xe - xs)
    {
      SumBounds(mask[y][xs..xe], 255);
    }
  }

  /** Dropping the bottom row of a mask takes that row's values off the column totals. */
  lemma ColumnSumsDropLast(mask: seq<seq<int>>, h: nat, w: nat, x: nat)
    requires h > 0 && IsGrid(mask, h, w) && x < w
    ensures IsGrid(mask[..h - 1], h - 1, w)
    ensures ColumnSums(mask, h, w)[x] == ColumnSums(mask[..h - 1], h - 1, w)[x] + mask[h - 1][x]
  {
    assert Column(mask, x)[..h - 1] == Column(mask[..h - 1], x);
  }

  /** The mass of the vertical strip [xs, xe) is the same whether the column
      profile or the strip's row profile is summed. */
  lemma {:induction false} StripMass(mask: seq<seq<int>>, h: nat, w: nat, xs: nat, xe: nat)
    requires IsGrid(mask, h, w) && xs <= xe <= w
    ensures Sum(ColumnSums(mask, h, w)[xs..xe]) == Sum(RowSums(mask, h, w, xs, xe))
    decreases h
  {
    var cols := ColumnSums(mask, h, w)[xs..xe];
    if h == 0 {
      SumZero(cols);
    } else {
      var top := mask[..h - 1];
      var last := mask[h - 1][xs..xe];
      assert IsGrid(top, h - 1, w);
      var topCols := ColumnSums(top, h - 1, w)[xs..xe];
      forall i | 0 <= i < xe - xs
        ensures cols[i] == topCols[i] + last[i]
      {
        ColumnSumsDropLast(mask, h, w, xs + i);
      }
      SumPointwise(topCols, last, cols);
      StripMass(top, h - 1, w, xs, xe);
      assert RowSums(mask, h, w, xs, xe)[..h - 1] == RowSums(top, h - 1, w, xs, xe);
    }
  }

  /** The block sum of a box is the total of the strip's row profile over the box's rows. */
  lemma {:induction false} BlockSumIsRowTotal(mask: seq<seq<int>>, h: nat, w: nat, b: Box)
    requires IsGrid(mask, h, w) && InImage(b, w, h)
    ensures BlockSum(mask, h, w, b) == Sum(RowSums(mask, h, w, b.x1, b.x2)[b.y1..b.y2])
    decreases b.y2 - b.y1
  {
    var rows := RowSums(mask, h, w, b.x1, b.x2);
    if b.y1 == b.y2 {
      assert rows[b.y1..b.y2] == [];
    } else {
      BlockSumIsRowTotal(mask, h, w, b.(y2 := b.y2 - 1));
      assert rows[b.y1..b.y2][..b.y2 - 1 - b.y1] == rows[b.y1..b.y2 - 1];
    }
  }

  /** Summing the row profile of a strip gives the block sum of the full-height strip. */
  lemma StripRowsAreBlock(mask: seq<seq<int>>, h: nat, w: nat, xs: nat, xe: nat)
    requires IsGrid(mask, h, w) && xs <= xe <= w
    ensures Sum(RowSums(mask, h, w, xs, xe)) == BlockSum(mask, h, w, Box(xs, 0, xe, h))
  {
    var rows := RowSums(mask, h, w, xs, xe);
    BlockSumIsRowTotal(mask, h, w, Box(xs, 0, xe, h));
    assert rows[0..h] == rows;
  }

  /** An all-zero mask gives no column regions and no row regions: a blank sheet
      has nothing to segment. */
  lemma ZeroMaskNoRegions(mask: seq<seq<int>>, h: nat, w: nat, xs: nat, xe: nat, minSize: int)
    requires IsGrid(mask, h, w) && xs <= xe <= w
    requires forall y, x :: 0 <= y < h && 0 <= x < w ==> mask[y][x] == 0
    ensures Regions(ColumnSums(mask, h, w), DensityThreshold(h), minSize) == []
    ensures Regions(RowSums(mask, h, w, xs, xe), DensityThreshold(xe - xs), minSize) == []
  {
    forall x | 0 <= x < w
      ensures ColumnSums(mask, h, w)[x] == 0
    {
      SumZero(Column(mask, x));
    }
    forall y | 0 <= y < h
      ensures RowSums(mask, h, w, xs, xe)[y] == 0
    {
      SumZero(mask[y][xs..xe]);
    }
    RegionsSound(ColumnSums(mask, h, w), DensityThreshold(h), minSize);
    RegionsSound(RowSums(mask, h, w, xs, xe), DensityThreshold(xe - xs), minSize);
  }
}
