# Sprite-sheet croppers, modelled in Dafny

The repository cuts a character sprite sheet into one image per expression. It has two
croppers.

The precise cropper (`myakuari_ai/crop_sprites_precise.py`) builds an opacity mask. It
uses the alpha channel, or an inverted gray threshold when there is no alpha channel.
It then works in these steps:

1. It sums the mask down every column and segments that column profile with
   `get_regions`: a left-to-right scan for maximal runs that are dense enough and
   long enough.
2. Inside each column region, it sums the mask along every row and segments that row
   profile in the same way.
3. It pads every (column region × row region) box by 5 pixels and clamps it to the
   image.
4. It drops the box when the alpha channel of its crop sums to less than 5000.
5. It writes each surviving crop as `char_<count>`. The count rises only when a crop is
   written.

The equal-width cropper (`myakuari_ai/crop_sprites.py`) cuts the sheet into four
full-height slices of width `w // 4`.

The modules follow that structure:

- `Segmenter` (`segmenter.dfy`) holds the scan. The scan is the method
  `GetRegions`, with its loop invariants. It is proved equal to a recursive reference,
  `Regions`. Lemmas then characterise `Regions` declaratively: exactly the maximal runs
  above the threshold that are at least `minSize` long, strictly ordered, and at most
  `(n + 1) / (minSize + 1)` of them.
- `Images` (`images.dfy`) holds images, boxes, written crops and the array slice.
- `Masks` (`masks.dfy`) holds the mask choice.
- `Projection` (`projection.dfy`) holds the column and row sums and the density
  threshold.
- `CropPrecise` (`crop_precise.dfy`) holds the precise cropper's two nested loops as
  methods:
  - the main procedure `CropSprites`;
  - the outer loop `ExportColumns` and its body `ExportColumn`;
  - the inner loop `ExportRows` and its body `ExportCandidate`.

  The main procedure is proved to return `Run`. `Run` is defined through `Exports`, the
  step-by-step meaning of the loop with its counter. `ExportsAreNumbered` proves that
  this equals the declarative description `Numbered(Accepted(...))`: the k-th file is
  `char_k`, the k-th candidate in discovery order that passes the mass check.
- `CropEqual` (`crop_equal.dfy`) holds the equal-width split.

## Model

| member | source | states |
|---|---|---|
| Segmenter.RunEnd | myakuari_ai/crop_sprites_precise.py:33-39 | a run opened at i closes at the first index e whose value is not above the threshold (or at the end): every value in [i, e) is above |
| Segmenter.RegionsFromSound | myakuari_ai/crop_sprites_precise.py:34-41 | every region a scan from i reports lies in [i, n), is at least minSize long, is above the threshold throughout and is closed by a value at or below it (or the end); the regions are strictly increasing |
| Segmenter.RegionsSound | myakuari_ai/crop_sprites_precise.py:30-42 | every returned region is a maximal run (0 <= start < end <= n, all values above, the values just before and just after are not) with end - start >= min_size; the regions are strictly ordered, so they are disjoint; a profile with no value above the threshold gives no region |
| Segmenter.RegionsFromComplete | myakuari_ai/crop_sprites_precise.py:34-41 | a maximal run of length >= min_size at or after the scan's starting point is reported, including a run still open at the end |
| Segmenter.RegionsCharacterized | myakuari_ai/crop_sprites_precise.py:30-42 | (s, e) is returned if and only if [s, e) is a maximal run above the threshold with e - s >= min_size |
| Segmenter.RegionsFromCount | myakuari_ai/crop_sprites_precise.py:34-41 | a scan from i reports at most (n - i + 1) / (min_size + 1) regions |
| Segmenter.RegionsCount | myakuari_ai/crop_sprites_precise.py:30-42 | with min_size >= 1, the number of regions times (min_size + 1) is at most n + 1 |
| Segmenter.RegionsFromSkip | myakuari_ai/crop_sprites_precise.py:36-39 | a value at or below the threshold, with no run open, is skipped |
| Segmenter.RegionsFromRun | myakuari_ai/crop_sprites_precise.py:36-41 | a run opened at s and closed at e (by a low value or the end) is reported, if long enough, ahead of everything found from e on |
| Segmenter.RegionsFrom | myakuari_ai/crop_sprites_precise.py:33-41 | the regions a scan reports when it reaches index i with no run open; RegionsFromSound, RegionsFromComplete and RegionsFromCount describe it |
| Segmenter.Regions | myakuari_ai/crop_sprites_precise.py:30-42 | the functional `get_regions`; RegionsSound and RegionsCharacterized state that it returns exactly the maximal runs of length >= min_size, strictly ordered |
| Segmenter.GetRegions | myakuari_ai/crop_sprites_precise.py:30-42 | the open/closed scan returns exactly the reference regions that RegionsSound and RegionsCharacterized describe |
| Images.Crop | myakuari_ai/crop_sprites_precise.py:62 | the slice `img[y1:y2, x1:x2]` has y2 - y1 rows |
| Images.CropPixel | myakuari_ai/crop_sprites_precise.py:62 | each crop row has x2 - x1 pixels, and crop pixel (dx, dy) is image pixel (x1 + dx, y1 + dy) with all its channels |
| Masks.InvertedBinary | myakuari_ai/crop_sprites_precise.py:25 | the inverted binary threshold at 240 is 0 exactly when the gray level exceeds 240, and 255 otherwise |
| Masks.MaskOf | myakuari_ai/crop_sprites_precise.py:25 | the mask has the image's shape; on a 4-channel image it is channel 3; otherwise it is 0 where gray > 240 and 255 elsewhere |
| Masks.MaskIsByteGrid | myakuari_ai/crop_sprites_precise.py:25 | either way every mask value is an 8-bit value |
| Masks.BlankMask | myakuari_ai/crop_sprites_precise.py:25 | the mask is all zero if and only if the image is fully transparent (4 channels) or near-white everywhere (otherwise) |
| Projection.Column | myakuari_ai/crop_sprites_precise.py:45 | column x of the mask holds `alpha[y][x]` for every row y |
| Projection.ColumnSums | myakuari_ai/crop_sprites_precise.py:45 | `col_sums` has one entry per column, the sum of `alpha[y][x]` over all rows |
| Projection.RowSums | myakuari_ai/crop_sprites_precise.py:51-52 | `row_sums` has one entry per row, the sum of `alpha[y][x]` for x in [x_start, x_end) |
| Projection.Sum | myakuari_ai/crop_sprites_precise.py:45 | `np.sum` of a profile; SumBounds, SumZero and SumPointwise give its bounds, the zero case and additivity |
| Projection.BlockSum | myakuari_ai/crop_sprites_precise.py:63 | the mask total over a box; BlockSumIsRowTotal ties it to the strip's row sums, MassIsMaskMass to the mass check |
| Projection.DensityThreshold | myakuari_ai/crop_sprites_precise.py:46 | `threshold * extent * 0.005` is exactly a quarter of the extent (the same expression with the column width at line 53) |
| Projection.AboveDensityThreshold | myakuari_ai/crop_sprites_precise.py:46 | `v > 50 * extent * 0.005` holds exactly when 4 * v > extent; this gives the column test (extent h) and the row test at line 53 (extent x_end - x_start) |
| Projection.ProfileBounds | myakuari_ai/crop_sprites_precise.py:45-52 | over an 8-bit mask every column sum lies in [0, 255 h] and every row sum in [0, 255 (x_end - x_start)] |
| Projection.StripMass | myakuari_ai/crop_sprites_precise.py:45-52 | the column sums over [x_start, x_end) and the strip's row sums have the same total |
| Projection.BlockSumIsRowTotal | myakuari_ai/crop_sprites_precise.py:51-52 | the mask total over a box is the total of the strip's row sums over the box's rows |
| Projection.StripRowsAreBlock | myakuari_ai/crop_sprites_precise.py:51-52 | the strip's row sums add up to the mask total over the full-height strip |
| Projection.ZeroMaskNoRegions | myakuari_ai/crop_sprites_precise.py:45-53 | an all-zero mask yields no column region and no row region in any strip |
| CropPrecise.PadClamp | myakuari_ai/crop_sprites_precise.py:57-60 | the padded box lies inside the image, contains the raw region box, moves each side by at most 5, and each side is either padded by exactly 5 or at the image edge |
| CropPrecise.ColumnRegions | myakuari_ai/crop_sprites_precise.py:45-46 | the column regions lie in [0, w), are at least 30 wide and are strictly ordered |
| CropPrecise.RowRegions | myakuari_ai/crop_sprites_precise.py:51-53 | the row regions of a column lie in [0, h), are at least 40 high and are strictly ordered |
| CropPrecise.ColumnCandidates | myakuari_ai/crop_sprites_precise.py:50-56 | each candidate of a column lies in the sheet and belongs to that column |
| CropPrecise.Candidates | myakuari_ai/crop_sprites_precise.py:50-56 | every candidate box lies inside the sheet; CandidatesMembers states that the candidates are exactly the (column region × row region of that column) pairs and CandidatesOrdered gives their order |
| CropPrecise.CandidatesMembers | myakuari_ai/crop_sprites_precise.py:50-56 | a candidate is built if and only if its column is a detected column region and its row is one of the row regions found inside that column |
| CropPrecise.SheetCandidates | myakuari_ai/crop_sprites_precise.py:44-56 | every candidate of the sheet lies inside the sheet |
| CropPrecise.BoxOf | myakuari_ai/crop_sprites_precise.py:57-60 | a candidate's padded box lies inside the image, is non-empty and contains the candidate's column and row region |
| CropPrecise.RowAlpha | myakuari_ai/crop_sprites_precise.py:63 | the channel-3 total of one pixel row; RowAlphaIsMaskRow equates it with the mask row's sum |
| CropPrecise.AlphaMass | myakuari_ai/crop_sprites_precise.py:63 | `np.sum(cropped[:, :, 3])`; CropMass equates it, for the crop of a box, with Mass of that box |
| CropPrecise.Mass | myakuari_ai/crop_sprites_precise.py:62-63 | the channel-3 total of a box read from the image; CropMass shows it is the crop's alpha sum and MassIsMaskMass that it is the mask total over the box |
| CropPrecise.PassesMassCheck | myakuari_ai/crop_sprites_precise.py:63-65 | a box is written exactly when its channel-3 total is at least 5000 (not below it); AcceptedMembers and ExportedSprites use it |
| CropPrecise.Accepted | myakuari_ai/crop_sprites_precise.py:62-65 | the candidates that pass the mass check, in order, all inside the sheet; AcceptedMembers gives membership (if and only if) and AcceptedOrdered the order |
| CropPrecise.Numbered | myakuari_ai/crop_sprites_precise.py:67-70 | one file per given candidate, the k-th named `char_k` with that candidate's padded box |
| CropPrecise.Exports | myakuari_ai/crop_sprites_precise.py:49-70 | the counter loop's meaning: at most one file per candidate, numbered from the starting count without gaps; ExportsAreNumbered equates it with Numbered(Accepted(...)) |
| CropPrecise.Run | myakuari_ai/crop_sprites_precise.py:49-70 | a run fails at the mass check if and only if the image has no alpha channel and some candidate exists |
| CropPrecise.AcceptedMembers | myakuari_ai/crop_sprites_precise.py:62-65 | a candidate is written if and only if it was found and its crop's alpha mass is at least 5000; no more crops are written than there are candidates |
| CropPrecise.ExportsSnoc | myakuari_ai/crop_sprites_precise.py:62-70 | one more candidate appends exactly one file, named by the count so far, when its crop passes the mass check, and nothing otherwise |
| CropPrecise.ExportsAreNumbered | myakuari_ai/crop_sprites_precise.py:49-70 | the loop's output equals the declarative numbering: the k-th file is `char_k`, the crop of the k-th candidate that passes the mass check |
| CropPrecise.ExportedSprites | myakuari_ai/crop_sprites_precise.py:49-70 | the files written are `char_0` … `char_{n-1}` in that order; each is a non-empty crop of its box; the box lies inside the image; the alpha mass is at least 5000; files are only written from 4-channel images |
| CropPrecise.CandidateColumns | myakuari_ai/crop_sprites_precise.py:50-56 | every candidate belongs to one of the detected column regions |
| CropPrecise.ColumnCandidatesOrdered | myakuari_ai/crop_sprites_precise.py:56 | within one column the candidates come in row order |
| CropPrecise.CandidatesOrdered | myakuari_ai/crop_sprites_precise.py:50-56 | candidates come column by column, left to right, and top to bottom within a column |
| CropPrecise.AcceptedOrdered | myakuari_ai/crop_sprites_precise.py:62-70 | dropping light candidates keeps discovery order |
| CropPrecise.SheetOrdered | myakuari_ai/crop_sprites_precise.py:49-70 | the sheet's candidates, and the crops written from them, are in column-major, then row, order |
| CropPrecise.RowAlphaIsMaskRow | myakuari_ai/crop_sprites_precise.py:63 | the channel-3 total of a pixel row equals the sum of the mask values that mirror it |
| CropPrecise.CropMass | myakuari_ai/crop_sprites_precise.py:62-63 | `np.sum(cropped[:, :, 3])` of a box's crop is the box's channel-3 mass read straight from the image |
| CropPrecise.MassIsMaskMass | myakuari_ai/crop_sprites_precise.py:63 | on a 4-channel image the mass of a box is the total of the mask (line 25) over it |
| CropPrecise.AlphaMassIsMaskMass | myakuari_ai/crop_sprites_precise.py:63 | the mass check sums the opacity mask over [y1, y2) × [x1, x2) |
| CropPrecise.BlankSheetExportsNothing | myakuari_ai/crop_sprites_precise.py:45-70 | a sheet whose mask is all zero writes nothing and does not fail |
| CropPrecise.NumberedSnoc | myakuari_ai/crop_sprites_precise.py:67-70 | one more candidate appends the file named by the number accepted so far exactly when it passes the mass check |
| CropPrecise.ExportCandidate | myakuari_ai/crop_sprites_precise.py:57-70 | one inner-loop step appends the candidate's padded crop under the current count when it passes the mass check, and the count stays the number of files |
| CropPrecise.ExportRows | myakuari_ai/crop_sprites_precise.py:56-70 | the inner loop exports the column's candidates in row order; on an image without alpha it fails exactly when there is a row region, writing nothing |
| CropPrecise.ExportColumn | myakuari_ai/crop_sprites_precise.py:50-70 | one outer-loop step segments the column's rows and exports its candidates; it fails exactly when the image lacks alpha and the column has a candidate |
| CropPrecise.ExportColumns | myakuari_ai/crop_sprites_precise.py:49-70 | the outer loop exports every candidate, column after column, starting from no files; it fails exactly when the image lacks alpha and a candidate exists |
| CropPrecise.CropSprites | myakuari_ai/crop_sprites_precise.py:25-70 | the whole procedure (mask, column segmentation, nested export loops) returns Run |
| CropEqual.ColumnWidth | myakuari_ai/crop_sprites.py:18 | `col_w = w // 4` is the largest width of which four fit into w |
| CropEqual.SliceBox | myakuari_ai/crop_sprites.py:20-23 | the box of slice i lies inside the image |
| CropEqual.SplitColumns | myakuari_ai/crop_sprites.py:17-26 | exactly 4 crops are written, indexed 0..3, crop i being the full-height slice over columns [i·col_w, (i+1)·col_w) |
| CropEqual.SlicesTile | myakuari_ai/crop_sprites.py:21-23 | slice 0 starts at column 0 and slice 3 ends at 4·col_w; every slice is col_w wide and spans all h rows; each slice ends where the next begins |
| CropEqual.SliceOfColumn | myakuari_ai/crop_sprites.py:18-22 | every column x < 4·col_w lies in slice i exactly when i = x div col_w, which is one of the four, so the slices cover [0, 4·col_w) without overlap |
| CropEqual.RemainderUncovered | myakuari_ai/crop_sprites.py:18-22 | the rightmost w mod 4 columns lie in no slice |
| CropEqual.SlicePixel | myakuari_ai/crop_sprites.py:23 | pixel (dx, y) of slice i is pixel (i·col_w + dx, y) of the sheet |

## Left out

- File I/O is not modelled. This covers `cv2.imread`, `cv2.imwrite`, `os.makedirs`, `os.listdir`, `os.remove` and the exit on a failed load. The image arrives as a value, and the written files are returned as a sequence of sprites, each with its number, box and pixels.
- The directory clear before the precise cropper runs is modelled only by its effect: the output starts empty.
- The BGR-to-gray conversion is an input. `cv2.cvtColor` uses OpenCV's fixed-point luminance, so the gray levels are taken as given and only the threshold at 240 is modelled.
- Printing is left out. It has no effect on the result.
- Images with one or two channels are not modelled; images have 3 or 4 channels. A grayscale load would make `img.shape[2]` fail at line 25 of the precise cropper. The equal-width split (CropEqual.SplitColumns) is also modelled only for 3- and 4-channel images, although `myakuari_ai/crop_sprites.py` uses only `img.shape[:2]` and a column slice and so accepts a grayscale sheet.
- A 3-channel image makes the mass check index a channel 3 that does not exist, so the program stops at the first candidate. That is modelled as the outcome `MissingAlphaChannel`. No fallback is invented.
- Projection.AboveDensityThreshold: the threshold `50 * extent * 0.005` is computed in double precision by the Python script and exactly here. The double nearest 0.005 lies slightly above 0.005 and the rounded product stays within one unit in the last place of extent / 4. An integer sum therefore exceeds it exactly when 4 * v > extent, provided the sums and extents stay below 2^50.
- Sample depth is not modelled: sample values are unbounded integers, so 8-bit and 16-bit images (both kept by an unchanged load) are covered alike. Only Masks.MaskIsByteGrid and Projection.ProfileBounds assume 8-bit samples, and say so in their requires.
- Sums are unbounded integers. numpy accumulates unsigned sums in the platform's unsigned integer, which is at least 32 bits wide. For 8-bit samples that cannot overflow while fewer than about 16 million values are summed; for 16-bit samples the bound is about 65 thousand values. Wrap-around beyond those sizes is not modelled.
- CropEqual.SplitColumns: a sheet narrower than 4 pixels gives empty slices, which the image writer rejects. The model returns the empty crops, because writing files is out of scope.
- `myakuari_ai/train_model.py` and `myakuari_ai/generate_voice_assets.py` are not part of this model. They are model training and speech-synthesis plumbing over external libraries and a network service.
- Only the nested column/row segmentation exists, and its constants are fixed: threshold 50, pad 5, minimum sizes 30 and 40, minimum mass 5000. The model uses the same constants.
