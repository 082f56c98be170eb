/** The precise sprite cropper: project the mask onto columns and segment it, then
    within each column region project onto rows and segment again; pad and clamp each
    (column × row) box, drop boxes whose alpha mass is below MIN_MASS, and number the
    rest `char_0`, `char_1`, ... in column-major discovery order. */
module CropPrecise {
  import opened Images
  import opened Masks
  import opened Projection
  import opened Segmenter

  /** Margin added on every side of a detected box. */
  const PAD := 5
  /** Crops whose alpha channel sums to less than this are skipped. */
  const MIN_MASS := 5000
  /** Minimum width of a column region. */
  const COLUMN_MIN_SIZE := 30
  /** Minimum height of a row region inside a column. */
  const ROW_MIN_SIZE := 40

  /** A candidate crop: a column region and one of the row regions found inside it. */
  datatype Candidate = Candidate(column: Region, row: Region)

  /** The outcome of a run: the crops written, or the failure of the mass check on
      an image without an alpha channel (the mass check at line 63 of the precise
      cropper indexes channel 3). */
  datatype Outcome = Exported(sprites: seq<Sprite>) | MissingAlphaChannel

  predicate InSheet(c: Candidate, w: int, h: int) {
    0 <= c.column.start < c.column.end <= w && 0 <= c.row.start < c.row.end <= h
  }

  predicate AllInSheet(cs: seq<Candidate>, w: int, h: int) {
    forall i :: 0 <= i < |cs| ==> InSheet(cs[i], w, h)
  }

  lemma AllInSheetConcat(a: seq<Candidate>, b: seq<Candidate>, k: nat, w: int, h: int)
    requires AllInSheet(a, w, h) && AllInSheet(b, w, h) && k <= |b|
    ensures AllInSheet(a + b[..k], w, h)
  {
    forall i | 0 <= i < |a + b[..k]|
      ensures InSheet((a + b[..k])[i], w, h)
    {
      if i >= |a| {
        assert (a + b[..k])[i] == b[i - |a|];
      }
    }
  }

  /** Non-empty regions inside [0, extent): columns within the width, or rows within
      the height. */
  predicate WithinExtent(rs: seq<Region>, extent: int) {
    forall i :: 0 <= i < |rs| ==> 0 <= rs[i].start < rs[i].end <= extent
  }

  /** `x1 = max(0, x_start - pad)`, ...: the detected box widened by PAD on every side
      and cut back to the image. */
  function PadClamp(column: Region, row: Region, w: int, h: int): (b: Box)
    requires 0 <= column.start < column.end <= w && 0 <= row.start < row.end <= h
    ensures InImage(b, w, h)
    ensures b.x1 <= column.start && column.end <= b.x2 && b.y1 <= row.start && row.end <= b.y2
    ensures column.start - PAD <= b.x1 && b.x2 <= column.end + PAD
    ensures row.start - PAD <= b.y1 && b.y2 <= row.end + PAD
    ensures (b.x1 == 0 || b.x1 == column.start - PAD) && (b.x2 == w || b.x2 == column.end + PAD)
    ensures (b.y1 == 0 || b.y1 == row.start - PAD) && (b.y2 == h || b.y2 == row.end + PAD)
  {
    Box(if column.start - PAD > 0 then column.start - PAD else 0,
        if row.start - PAD > 0 then row.start - PAD else 0,
        if column.end + PAD < w then column.end + PAD else w,
        if row.end + PAD < h then row.end + PAD else h)
  }

  /** The padded and clamped box of a candidate. */
  function BoxOf(c: Candidate, w: int, h: int): (b: Box)
    requires InSheet(c, w, h)
    ensures InImage(b, w, h) && b.x1 < b.x2 && b.y1 < b.y2
    ensures b.x1 <= c.column.start && c.column.end <= b.x2 && b.y1 <= c.row.start && c.row.end <= b.y2
  {
    PadClamp(c.column, c.row, w, h)
  }

  /** The column regions: density above h/4 for at least COLUMN_MIN_SIZE columns. */
  function ColumnRegions(alpha: seq<seq<int>>, h: nat, w: nat): (rs: seq<Region>)
    requires IsGrid(alpha, h, w)
    ensures WithinExtent(rs, w)
    ensures forall i :: 0 <= i < |rs| ==> rs[i].end - rs[i].start >= COLUMN_MIN_SIZE
    ensures StrictlyOrdered(rs)
  {
    RegionsSound(ColumnSums(alpha, h, w), DensityThreshold(h), COLUMN_MIN_SIZE);
    Regions(ColumnSums(alpha, h, w), DensityThreshold(h), COLUMN_MIN_SIZE)
  }

  /** The row regions inside one column region: density above a quarter of the
      column's width for at least ROW_MIN_SIZE rows. */
  function RowRegions(alpha: seq<seq<int>>, h: nat, w: nat, column: Region): (rs: seq<Region>)
    requires IsGrid(alpha, h, w) && 0 <= column.start <= column.end <= w
    ensures WithinExtent(rs, h)
    ensures forall i :: 0 <= i < |rs| ==> rs[i].end - rs[i].start >= ROW_MIN_SIZE
    ensures StrictlyOrdered(rs)
  {
    var profile := RowSums(alpha, h, w, column.start, column.end);
    RegionsSound(profile, DensityThreshold(column.end - column.start), ROW_MIN_SIZE);
    Regions(profile, DensityThreshold(column.end - column.start), ROW_MIN_SIZE)
  }

  /** The column paired with each of its row regions, in row order. */
  function Pair(column: Region, rows: seq<Region>): (cs: seq<Candidate>)
    ensures |cs| == |rows|
    ensures forall i :: 0 <= i < |cs| ==> cs[i] == Candidate(column, rows[i])
  {
    seq(|rows|, k requires 0 <= k < |rows| => Candidate(column, rows[k]))
  }

  /** The candidates of one column, in row order. */
  function ColumnCandidates(alpha: seq<seq<int>>, h: nat, w: nat, column: Region): (cs: seq<Candidate>)
    requires IsGrid(alpha, h, w) && 0 <= column.start < column.end <= w
    ensures AllInSheet(cs, w, h)
    ensures forall i :: 0 <= i < |cs| ==> cs[i].column == column
  {
    Pair(column, RowRegions(alpha, h, w, column))
  }

  /** The candidates of the given column regions, column after column. */
  function Candidates(alpha: seq<seq<int>>, h: nat, w: nat, columns: seq<Region>): (cs: seq<Candidate>)
    requires IsGrid(alpha, h, w)
    requires WithinExtent(columns, w)
    ensures AllInSheet(cs, w, h)
  {
    if columns == [] then []
    else Candidates(alpha, h, w, columns[..|columns| - 1])
         + ColumnCandidates(alpha, h, w, columns[|columns| - 1])
  }

  /** Every pixel of p has a channel 3. */
  ghost predicate HasAlpha(p: seq<seq<seq<int>>>) {
    forall y, x :: 0 <= y < |p| && 0 <= x < |p[y]| ==> |p[y][x]| > 3
  }

  /** The total of channel 3 along one row of pixels. */
  function RowAlpha(r: seq<seq<int>>): int
    requires forall x :: 0 <= x < |r| ==> |r[x]| > 3
  {
    if r == [] then 0 else RowAlpha(r[..|r| - 1]) + r[|r| - 1][3]
  }

  /** `np.sum(cropped[:, :, 3])`: the total of channel 3 over a crop. */
  function AlphaMass(p: seq<seq<seq<int>>>): int
    requires HasAlpha(p)
  {
    if p == [] then 0 else AlphaMass(p[..|p| - 1]) + RowAlpha(p[|p| - 1])
  }

  /** The channel-3 total of the box, read straight from the image row by row; the
      lemma CropMass shows it is `np.sum(cropped[:, :, 3])` of the box's crop. */
  function Mass(img: Image, b: Box): int
    requires ValidImage(img) && img.channels == 4 && InImage(b, img.width, img.height)
    decreases b.y2 - b.y1
  {
    if b.y1 == b.y2 then 0
    else Mass(img, b.(y2 := b.y2 - 1)) + RowAlpha(img.pixels[b.y2 - 1][b.x1..b.x2])
  }

  /** The mass check that decides whether a candidate box is written: its channel-3
      total reaches MIN_MASS. */
  predicate PassesMassCheck(img: Image, b: Box)
    requires ValidImage(img) && img.channels == 4 && InImage(b, img.width, img.height)
  {
    Mass(img, b) >= MIN_MASS
  }

  /** The candidates that pass the mass check, in their original order. */
  function Accepted(img: Image, cs: seq<Candidate>): (r: seq<Candidate>)
    requires ValidImage(img) && img.channels == 4
    requires AllInSheet(cs, img.width, img.height)
    ensures AllInSheet(r, img.width, img.height)
  {
    if cs == [] then []
    else
      var c := cs[|cs| - 1];
      Accepted(img, cs[..|cs| - 1])
      + (if PassesMassCheck(img, BoxOf(c, img.width, img.height)) then [c] else [])
  }

  /** The files written for the accepted candidates: `char_<k>` for the k-th one. */
  function Numbered(img: Image, cs: seq<Candidate>): (r: seq<Sprite>)
    requires ValidImage(img)
    requires AllInSheet(cs, img.width, img.height)
    ensures |r| == |cs|
    ensures forall k :: 0 <= k < |r| ==> r[k].index == k && r[k].box == BoxOf(cs[k], img.width, img.height)
  {
    seq(|cs|, k requires 0 <= k < |cs| =>
      Sprite(k, BoxOf(cs[k], img.width, img.height), Crop(img, BoxOf(cs[k], img.width, img.height))))
  }

  /** The candidates of a whole sheet in discovery order. */
  function SheetCandidates(img: Image, gray: seq<seq<int>>): (cs: seq<Candidate>)
    requires ValidImage(img) && GrayFits(img, gray)
    ensures AllInSheet(cs, img.width, img.height)
  {
    var alpha := MaskOf(img, gray);
    Candidates(alpha, img.height, img.width, ColumnRegions(alpha, img.height, img.width))
  }

  /** The crops the cropper's loop writes for the candidates cs, one candidate after
      the other, when `char_count` starts at base: each candidate's box is cropped
      and, if it passes the mass check, written under the current count, which then
      goes up by one. At most one file per candidate is written, and the files are
      numbered base, base + 1, ... without gaps. */
  function Exports(img: Image, base: nat, cs: seq<Candidate>): (r: seq<Sprite>)
    requires ValidImage(img) && img.channels == 4
    requires AllInSheet(cs, img.width, img.height)
    ensures |r| <= |cs|
    ensures forall k :: 0 <= k < |r| ==> r[k].index == base + k
  {
    if cs == [] then []
    else
      var prev := Exports(img, base, cs[..|cs| - 1]);
      var b := BoxOf(cs[|cs| - 1], img.width, img.height);
      prev + (if PassesMassCheck(img, b) then [Sprite(base + |prev|, b, Crop(img, b))] else [])
  }

  /** What one run of the cropper produces. */
  function Run(img: Image, gray: seq<seq<int>>): (r: Outcome)
    requires ValidImage(img) && GrayFits(img, gray)
    ensures r.MissingAlphaChannel? <==> img.channels != 4 && SheetCandidates(img, gray) != []
  {
    var cs := SheetCandidates(img, gray);
    if img.channels == 4 then Exported(Exports(img, 0, cs))
    else if cs == [] then Exported([])
    else MissingAlphaChannel
  }

  /** A candidate is kept exactly when it is one of cs and passes the mass check. */
  lemma {:induction false} AcceptedMembers(img: Image, cs: seq<Candidate>)
    requires ValidImage(img) && img.channels == 4
    requires AllInSheet(cs, img.width, img.height)
    ensures forall c :: c in Accepted(img, cs) <==> c in cs && PassesMassCheck(img, BoxOf(c, img.width, img.height))
    ensures |Accepted(img, cs)| <= |cs|
  {
    if cs != [] {
      var init := cs[..|cs| - 1];
      AcceptedMembers(img, init);
      assert cs == init + [cs[|cs| - 1]];
    }
  }

  /** One more candidate appends its file, numbered by the count so far, exactly
      when it passes the mass check. */
  lemma ExportsSnoc(img: Image, base: nat, cs: seq<Candidate>, c: Candidate)
    requires ValidImage(img) && img.channels == 4
    requires AllInSheet(cs, img.width, img.height)
    requires InSheet(c, img.width, img.height)
    ensures Exports(img, base, cs + [c])
         == Exports(img, base, cs)
            + (if PassesMassCheck(img, BoxOf(c, img.width, img.height))
               then [Sprite(base + |Exports(img, base, cs)|, BoxOf(c, img.width, img.height),
                            Crop(img, BoxOf(c, img.width, img.height)))]
               else [])
  {
    assert (cs + [c])[..|cs|] == cs;
  }

  /** The loop's output is the declarative one: the k-th file written is `char_k`,
      the crop of the k-th candidate that passes the mass check. */
  lemma {:induction false} ExportsAreNumbered(img: Image, cs: seq<Candidate>)
    requires ValidImage(img) && img.channels == 4
    requires AllInSheet(cs, img.width, img.height)
    ensures Exports(img, 0, cs) == Numbered(img, Accepted(img, cs))
  {
    if cs != [] {
      var init := cs[..|cs| - 1];
      var c := cs[|cs| - 1];
      assert cs == init + [c];
      ExportsAreNumbered(img, init);
      NumberedSnoc(img, init, c);
    }
  }

  /** The files written are `char_0` ... `char_{n-1}`, each a non-empty crop inside
      the image whose alpha mass reaches MIN_MASS; crops are only ever written from
      a four-channel image. */
  lemma ExportedSprites(img: Image, gray: seq<seq<int>>)
    requires ValidImage(img) && GrayFits(img, gray)
    ensures Run(img, gray).Exported? ==>
              forall k :: 0 <= k < |Run(img, gray).sprites| ==>
                var s := Run(img, gray).sprites[k];
                && s.index == k
                && InImage(s.box, img.width, img.height)
                && s.box.x1 < s.box.x2 && s.box.y1 < s.box.y2
                && s.pixels == Crop(img, s.box)
                && img.channels == 4
                && PassesMassCheck(img, s.box)
  {
    if img.channels == 4 {
      var cs := SheetCandidates(img, gray);
      var accepted := Accepted(img, cs);
      ExportsAreNumbered(img, cs);
      AcceptedMembers(img, cs);
      var sprites := Numbered(img, accepted);
      forall k | 0 <= k < |sprites|
        ensures sprites[k].index == k
        ensures InImage(sprites[k].box, img.width, img.height)
        ensures sprites[k].box.x1 < sprites[k].box.x2 && sprites[k].box.y1 < sprites[k].box.y2
        ensures sprites[k].pixels == Crop(img, sprites[k].box)
        ensures PassesMassCheck(img, sprites[k].box)
      {
        var c := accepted[k];
        assert c in accepted;
        assert sprites[k] == Sprite(k, BoxOf(c, img.width, img.height), Crop(img, BoxOf(c, img.width, img.height)));
      }
    }
  }

  /** Two candidates in discovery order: an earlier column, or the same column
      and an earlier row. */
  ghost predicate ColumnMajor(a: Candidate, b: Candidate) {
    a.column.end < b.column.start || (a.column == b.column && a.row.end < b.row.start)
  }

  ghost predicate DiscoveryOrdered(cs: seq<Candidate>) {
    forall i, j :: 0 <= i < j < |cs| ==> ColumnMajor(cs[i], cs[j])
  }

  lemma DiscoveryOrderedAppend(a: seq<Candidate>, b: seq<Candidate>)
    requires DiscoveryOrdered(a) && DiscoveryOrdered(b)
    requires forall x, y :: x in a && y in b ==> ColumnMajor(x, y)
    ensures DiscoveryOrdered(a + b)
  {
    forall i, j | 0 <= i < j < |a + b|
      ensures ColumnMajor((a + b)[i], (a + b)[j])
    {
      if i < |a| && j >= |a| {
        assert (a + b)[i] in a && (a + b)[j] in b;
      }
    }
  }

  /** Every candidate comes from one of the column regions it was built from. */
  lemma {:induction false} CandidateColumns(alpha: seq<seq<int>>, h: nat, w: nat, columns: seq<Region>)
    requires IsGrid(alpha, h, w)
    requires WithinExtent(columns, w)
    ensures forall c :: c in Candidates(alpha, h, w, columns) ==> c.column in columns
  {
    if columns != [] {
      var init := columns[..|columns| - 1];
      assert forall r :: r in init ==> r in columns;
      CandidateColumns(alpha, h, w, init);
    }
  }

  /** The candidates are exactly the pairs of a column region and one of the row
      regions found inside that column. */
  lemma {:induction false} CandidatesMembers(alpha: seq<seq<int>>, h: nat, w: nat, columns: seq<Region>, c: Candidate)
    requires IsGrid(alpha, h, w)
    requires WithinExtent(columns, w)
    ensures c in Candidates(alpha, h, w, columns)
        <==> c.column in columns && c.row in RowRegions(alpha, h, w, c.column)
  {
    if columns != [] {
      var n := |columns| - 1;
      var init, last := columns[..n], columns[n];
      var here := ColumnCandidates(alpha, h, w, last);
      var rows := RowRegions(alpha, h, w, last);
      CandidatesMembers(alpha, h, w, init, c);
      assert columns == init + [last];
      if c in here {
        var k :| 0 <= k < |here| && here[k] == c;
        assert c == Candidate(last, rows[k]);
      }
      if c.column == last && c.row in rows {
        var k :| 0 <= k < |rows| && rows[k] == c.row;
        assert here[k] == c;
      }
    }
  }

  /** Within one column the candidates come in row order. */
  lemma ColumnCandidatesOrdered(alpha: seq<seq<int>>, h: nat, w: nat, column: Region)
    requires IsGrid(alpha, h, w) && 0 <= column.start < column.end <= w
    ensures DiscoveryOrdered(ColumnCandidates(alpha, h, w, column))
  {
    var here := ColumnCandidates(alpha, h, w, column);
    var rows := RowRegions(alpha, h, w, column);
    forall i, j | 0 <= i < j < |here|
      ensures ColumnMajor(here[i], here[j])
    {
      assert here[i].row == rows[i] && here[j].row == rows[j];
    }
  }

  /** Candidates come out column-major, then in row order within a column. */
  lemma {:induction false} CandidatesOrdered(alpha: seq<seq<int>>, h: nat, w: nat, columns: seq<Region>)
    requires IsGrid(alpha, h, w)
    requires WithinExtent(columns, w)
    requires StrictlyOrdered(columns)
    ensures DiscoveryOrdered(Candidates(alpha, h, w, columns))
  {
    if columns != [] {
      var n := |columns| - 1;
      var init := columns[..n];
      var before := Candidates(alpha, h, w, init);
      var here := ColumnCandidates(alpha, h, w, columns[n]);
      CandidatesOrdered(alpha, h, w, init);
      CandidateColumns(alpha, h, w, init);
      ColumnCandidatesOrdered(alpha, h, w, columns[n]);
      forall x, y | x in before && y in here
        ensures ColumnMajor(x, y)
      {
        var m :| 0 <= m < n && init[m] == x.column;
        assert columns[m].end < columns[n].start;
      }
      DiscoveryOrderedAppend(before, here);
    }
  }

  /** The written crops keep discovery order. */
  lemma {:induction false} AcceptedOrdered(img: Image, cs: seq<Candidate>)
    requires ValidImage(img) && img.channels == 4
    requires AllInSheet(cs, img.width, img.height)
    requires DiscoveryOrdered(cs)
    ensures DiscoveryOrdered(Accepted(img, cs))
  {
    if cs != [] {
      var n := |cs| - 1;
      var init := cs[..n];
      var last := cs[n];
      AcceptedOrdered(img, init);
      AcceptedMembers(img, init);
      var before := Accepted(img, init);
      var tail := if PassesMassCheck(img, BoxOf(last, img.width, img.height)) then [last] else [];
      forall x, y | x in before && y in tail
        ensures ColumnMajor(x, y)
      {
        var m :| 0 <= m < n && init[m] == x;
      }
      DiscoveryOrderedAppend(before, tail);
    }
  }

  /** The sheet's crops are written in discovery order. */
  lemma SheetOrdered(img: Image, gray: seq<seq<int>>)
    requires ValidImage(img) && GrayFits(img, gray) && img.channels == 4
    ensures DiscoveryOrdered(SheetCandidates(img, gray))
    ensures DiscoveryOrdered(Accepted(img, SheetCandidates(img, gray)))
  {
    var alpha := MaskOf(img, gray);
    CandidatesOrdered(alpha, img.height, img.width, ColumnRegions(alpha, img.height, img.width));
    AcceptedOrdered(img, SheetCandidates(img, gray));
  }

  /** A row's channel-3 total is the total of the mask values that mirror it. */
  lemma {:induction false} RowAlphaIsMaskRow(r: seq<seq<int>>, m: seq<int>)
    requires forall x :: 0 <= x < |r| ==> |r[x]| > 3
    requires |m| == |r| && forall x :: 0 <= x < |r| ==> m[x] == r[x][3]
    ensures RowAlpha(r) == Sum(m)
  {
    if r != [] {
      RowAlphaIsMaskRow(r[..|r| - 1], m[..|m| - 1]);
    }
  }

  /** Appending a row of pixels adds that row's channel-3 total to the mass. */
  lemma AlphaMassSnoc(p: seq<seq<seq<int>>>, row: seq<seq<int>>, q: seq<seq<seq<int>>>)
    requires HasAlpha(p) && forall x :: 0 <= x < |row| ==> |row[x]| > 3
    requires q == p + [row]
    ensures HasAlpha(q)
    ensures AlphaMass(q) == AlphaMass(p) + RowAlpha(row)
  {
    assert q[..|q| - 1] == p;
  }

  /** Every pixel of a row segment of a four-channel image has a channel 3. */
  lemma RowHasAlpha(img: Image, y: int, x1: int, x2: int)
    requires ValidImage(img) && img.channels == 4
    requires 0 <= y < img.height && 0 <= x1 <= x2 <= img.width
    ensures forall x :: 0 <= x < x2 - x1 ==> |img.pixels[y][x1..x2][x]| > 3
  {
    assert forall x :: 0 <= x < x2 - x1 ==> img.pixels[y][x1..x2][x] == img.pixels[y][x1 + x];
  }

  /** The mass of a box is `np.sum(cropped[:, :, 3])` of its crop. */
  lemma {:induction false} CropMass(img: Image, b: Box)
    requires ValidImage(img) && img.channels == 4 && InImage(b, img.width, img.height)
    ensures HasAlpha(Crop(img, b))
    ensures AlphaMass(Crop(img, b)) == Mass(img, b)
    decreases b.y2 - b.y1
  {
    if b.y1 < b.y2 {
      var b' := b.(y2 := b.y2 - 1);
      var row := img.pixels[b.y2 - 1][b.x1..b.x2];
      CropMass(img, b');
      RowHasAlpha(img, b.y2 - 1, b.x1, b.x2);
      AlphaMassSnoc(Crop(img, b'), row, Crop(img, b));
      assert Mass(img, b) == Mass(img, b') + RowAlpha(row);
    }
  }

  /** On a four-channel image the mass of a box is the total of the mask over it. */
  lemma {:induction false} MassIsMaskMass(img: Image, gray: seq<seq<int>>, b: Box)
    requires ValidImage(img) && GrayFits(img, gray) && img.channels == 4
    requires InImage(b, img.width, img.height)
    ensures Mass(img, b) == BlockSum(MaskOf(img, gray), img.height, img.width, b)
    decreases b.y2 - b.y1
  {
    if b.y1 < b.y2 {
      var b' := b.(y2 := b.y2 - 1);
      var y := b.y2 - 1;
      var mask := MaskOf(img, gray);
      MassIsMaskMass(img, gray, b');
      RowAlphaIsMaskRow(img.pixels[y][b.x1..b.x2], mask[y][b.x1..b.x2]);
      assert Mass(img, b) == Mass(img, b') + RowAlpha(img.pixels[y][b.x1..b.x2]);
      assert BlockSum(mask, img.height, img.width, b)
          == BlockSum(mask, img.height, img.width, b') + Sum(mask[y][b.x1..b.x2]);
    }
  }

  /** The mass check on a four-channel image sums the mask over the box. */
  lemma AlphaMassIsMaskMass(img: Image, gray: seq<seq<int>>, b: Box)
    requires ValidImage(img) && GrayFits(img, gray) && img.channels == 4
    requires InImage(b, img.width, img.height)
    ensures HasAlpha(Crop(img, b))
    ensures AlphaMass(Crop(img, b)) == BlockSum(MaskOf(img, gray), img.height, img.width, b)
  {
    CropMass(img, b);
    MassIsMaskMass(img, gray, b);
  }

  /** A sheet whose mask is all zero (fully transparent, or near-white everywhere)
      yields no crops and no failure. */
  lemma BlankSheetExportsNothing(img: Image, gray: seq<seq<int>>)
    requires ValidImage(img) && GrayFits(img, gray)
    requires forall y, x :: 0 <= y < img.height && 0 <= x < img.width ==> MaskOf(img, gray)[y][x] == 0
    ensures Run(img, gray) == Exported([])
  {
    var alpha := MaskOf(img, gray);
    ZeroMaskNoRegions(alpha, img.height, img.width, 0, 0, COLUMN_MIN_SIZE);
  }

  lemma CandidatesSnoc(alpha: seq<seq<int>>, h: nat, w: nat, columns: seq<Region>, j: nat)
    requires IsGrid(alpha, h, w)
    requires WithinExtent(columns, w)
    requires j < |columns|
    ensures Candidates(alpha, h, w, columns[..j + 1])
         == Candidates(alpha, h, w, columns[..j]) + ColumnCandidates(alpha, h, w, columns[j])
  {
    assert columns[..j + 1][..j] == columns[..j];
  }

  lemma {:induction false} CandidatesPrefix(alpha: seq<seq<int>>, h: nat, w: nat, columns: seq<Region>, j: nat)
    requires IsGrid(alpha, h, w)
    requires WithinExtent(columns, w)
    requires j <= |columns|
    ensures |Candidates(alpha, h, w, columns[..j])| <= |Candidates(alpha, h, w, columns)|
    decreases |columns| - j
  {
    if j < |columns| {
      CandidatesSnoc(alpha, h, w, columns, j);
      CandidatesPrefix(alpha, h, w, columns, j + 1);
    } else {
      assert columns[..j] == columns;
    }
  }

  /** Numbering one more candidate appends its crop, named by the count so far,
      exactly when it passes the mass check. */
  lemma NumberedSnoc(img: Image, cs: seq<Candidate>, c: Candidate)
    requires ValidImage(img) && img.channels == 4
    requires AllInSheet(cs, img.width, img.height)
    requires InSheet(c, img.width, img.height)
    ensures Numbered(img, Accepted(img, cs + [c]))
         == Numbered(img, Accepted(img, cs))
            + (if PassesMassCheck(img, BoxOf(c, img.width, img.height))
               then [Sprite(|Accepted(img, cs)|, BoxOf(c, img.width, img.height),
                            Crop(img, BoxOf(c, img.width, img.height)))]
               else [])
  {
    assert (cs + [c])[..|cs|] == cs;
    var before := Accepted(img, cs);
    var after := Accepted(img, cs + [c]);
    var b := BoxOf(c, img.width, img.height);
    if PassesMassCheck(img, b) {
      assert after == before + [c];
      var lhs := Numbered(img, after);
      var rhs := Numbered(img, before) + [Sprite(|before|, b, Crop(img, b))];
      assert |lhs| == |rhs|;
      forall k | 0 <= k < |lhs|
        ensures lhs[k] == rhs[k]
      {
        if k < |before| {
          assert after[k] == before[k];
        }
      }
      assert lhs == rhs;
    } else {
      assert after == before;
    }
  }

  /** Extending a prefix of b by one element, behind a. */
  lemma AppendPrefixSnoc<T>(a: seq<T>, b: seq<T>, i: nat)
    requires i < |b|
    ensures a + b[..i + 1] == (a + b[..i]) + [b[i]]
  {
    assert b[..i + 1] == b[..i] + [b[i]];
  }

  /** The body of the cropper's inner loop for one candidate of a four-channel image:
      pad and clamp the box, crop it, and write the crop under `char_count` if its
      alpha mass reaches MIN_MASS. `before` holds the candidates handled so far. */
  method ExportCandidate(img: Image, column: Region, row: Region, ghost before: seq<Candidate>,
                         sprites: seq<Sprite>, charCount: nat)
    returns (sprites': seq<Sprite>, charCount': nat)
    requires ValidImage(img) && img.channels == 4
    requires InSheet(Candidate(column, row), img.width, img.height)
    requires AllInSheet(before, img.width, img.height)
    requires sprites == Exports(img, 0, before) && charCount == |sprites|
    ensures sprites' == Exports(img, 0, before + [Candidate(column, row)])
    ensures charCount' == |sprites'|
  {
    var box := PadClamp(column, row, img.width, img.height);
    ExportsSnoc(img, 0, before, Candidate(column, row));
    var cropped := Crop(img, box);
    CropMass(img, box);
    if AlphaMass(cropped) < MIN_MASS {
      return sprites, charCount;
    }
    sprites' := sprites + [Sprite(charCount, box, cropped)];
    charCount' := charCount + 1;
  }

  /** The cropper's inner loop over the row regions of one column, top to bottom.
      The mass check fails on an image without an alpha channel at the first
      candidate. `done` holds the candidates of the earlier columns. */
  method ExportRows(img: Image, column: Region, rows: seq<Region>, ghost done: seq<Candidate>,
                    sprites: seq<Sprite>, charCount: nat)
    returns (failed: bool, sprites': seq<Sprite>, charCount': nat)
    requires ValidImage(img)
    requires 0 <= column.start < column.end <= img.width && WithinExtent(rows, img.height)
    requires AllInSheet(done, img.width, img.height)
    requires charCount == |sprites|
    requires img.channels == 4 ==> sprites == Exports(img, 0, done)
    ensures failed <==> img.channels != 4 && rows != []
    ensures charCount' == |sprites'|
    ensures AllInSheet(Pair(column, rows), img.width, img.height)
    ensures img.channels == 4 ==> sprites' == Exports(img, 0, done + Pair(column, rows))
    ensures img.channels != 4 ==> sprites' == sprites
  {
    var h, w := img.height, img.width;
    ghost var here := Pair(column, rows);
    assert AllInSheet(here, w, h);
    failed, sprites', charCount' := false, sprites, charCount;
    assert done + here[..0] == done;
    for rowIdx := 0 to |rows|
      invariant charCount' == |sprites'|
      invariant AllInSheet(done + here[..rowIdx], w, h)
      invariant img.channels == 4 ==> sprites' == Exports(img, 0, done + here[..rowIdx])
      invariant img.channels != 4 ==> rowIdx == 0 && sprites' == sprites
    {
      var row := rows[rowIdx];
      if img.channels != 4 {
        failed := true;
        return;
      }
      ghost var before := done + here[..rowIdx];
      AppendPrefixSnoc(done, here, rowIdx);
      AllInSheetConcat(done, here, rowIdx + 1, w, h);
      sprites', charCount' := ExportCandidate(img, column, row, before, sprites', charCount');
    }
    assert here[..|rows|] == here;
  }

  /** The body of the cropper's outer loop for one column region: segment the
      column's rows, then export each candidate in row order. */
  method ExportColumn(img: Image, alpha: seq<seq<int>>, column: Region, ghost done: seq<Candidate>,
                      sprites: seq<Sprite>, charCount: nat)
    returns (failed: bool, sprites': seq<Sprite>, charCount': nat)
    requires ValidImage(img) && IsGrid(alpha, img.height, img.width)
    requires 0 <= column.start < column.end <= img.width
    requires AllInSheet(done, img.width, img.height)
    requires charCount == |sprites|
    requires img.channels == 4 ==> sprites == Exports(img, 0, done)
    ensures failed <==> img.channels != 4 && ColumnCandidates(alpha, img.height, img.width, column) != []
    ensures charCount' == |sprites'|
    ensures img.channels == 4 ==>
              sprites' == Exports(img, 0, done + ColumnCandidates(alpha, img.height, img.width, column))
    ensures img.channels != 4 ==> sprites' == sprites
  {
    var h, w := img.height, img.width;
    var rowSums := RowSums(alpha, h, w, column.start, column.end);
    var yRegions := GetRegions(rowSums, DensityThreshold(column.end - column.start), ROW_MIN_SIZE);
    assert yRegions == RowRegions(alpha, h, w, column);
    failed, sprites', charCount' := ExportRows(img, column, yRegions, done, sprites, charCount);
  }

  /** The cropper's outer loop over the column regions, left to right. */
  method ExportColumns(img: Image, alpha: seq<seq<int>>, columns: seq<Region>) returns (result: Outcome)
    requires ValidImage(img) && IsGrid(alpha, img.height, img.width)
    requires WithinExtent(columns, img.width)
    ensures result.MissingAlphaChannel? <==> img.channels != 4 && Candidates(alpha, img.height, img.width, columns) != []
    ensures img.channels == 4 ==> result == Exported(Exports(img, 0, Candidates(alpha, img.height, img.width, columns)))
    ensures img.channels != 4 && result.Exported? ==> result.sprites == []
  {
    var h, w := img.height, img.width;
    var sprites: seq<Sprite> := [];
    var charCount := 0;
    for colIdx := 0 to |columns|
      invariant charCount == |sprites|
      invariant img.channels == 4 ==> sprites == Exports(img, 0, Candidates(alpha, h, w, columns[..colIdx]))
      invariant img.channels != 4 ==> Candidates(alpha, h, w, columns[..colIdx]) == [] && sprites == []
    {
      CandidatesSnoc(alpha, h, w, columns, colIdx);
      var failed;
      failed, sprites, charCount :=
        ExportColumn(img, alpha, columns[colIdx], Candidates(alpha, h, w, columns[..colIdx]), sprites, charCount);
      if failed {
        CandidatesPrefix(alpha, h, w, columns, colIdx + 1);
        assert columns[..|columns|] == columns;
        return MissingAlphaChannel;
      }
    }
    assert columns[..|columns|] == columns;
    return Exported(sprites);
  }

  /** The cropper's main procedure: build the mask, segment its column profile,
      and export the candidates column by column. */
  method CropSprites(img: Image, gray: seq<seq<int>>) returns (result: Outcome)
    requires ValidImage(img) && GrayFits(img, gray)
    ensures result == Run(img, gray)
  {
    var h, w := img.height, img.width;
    var alpha := MaskOf(img, gray);
    var colSums := ColumnSums(alpha, h, w);
    var xRegions := GetRegions(colSums, DensityThreshold(h), COLUMN_MIN_SIZE);
    assert xRegions == ColumnRegions(alpha, h, w);
    result := ExportColumns(img, alpha, xRegions);
  }
}
