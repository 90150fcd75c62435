# Annual forest loss per landscape, FAO forest definition

This project models the per-landscape body of a Google Earth Engine script.
The script measures how much forest each landscape lost in each year of the
Hansen Global Forest Change data. It builds a baseline forest mask for the
year 2000. A pixel is forest when its canopy cover (`treecover2000`) is at
least `cc = 30` percent and its 8-connected patch of such pixels has at least
`pixels = 6` pixels (about 0.5 ha). It then sums the loss area
(`loss × pixelArea`) of the forest pixels inside the landscape, grouped by
the `lossyear` code. Each group becomes a row: the year is the code formatted
with `"20%02d"`, and the loss area is the group's sum. The table is exported
under the asset's name followed by `_FAOforestdef`.

The model works on values. It uses no engine.

- `Raster` (raster.dfy): a pixel holds the four band values
  `treecover2000`, `loss`, `lossyear` and `pixelArea`. An image is a
  sequence of rows. `Pos` is a (row, column) position. `Adjacent` is the
  8-neighbourhood. `Scan` lists every pixel once, row by row.
- `BaselineForest` (forest_mask.dfy): `Canopy` is the set of pixels left by
  `gte(cc).selfMask()`. `Fill` is a flood fill; it computes a pixel's
  component. `ConnectedPixelCount` and `ForestMask` are built on it. The
  flood fill is proved equal to reachability by 8-neighbour paths
  through canopy pixels (`Reach`). That proof gives the meaning of the mask,
  its monotonicity in both parameters, and the fact that it is a union of
  whole components.
- `AnnualLoss` (loss_by_year.dfy): `Kept` is the forest mask intersected with
  the area of interest. `KeptEntries` pairs each kept pixel's code with its
  loss area. `GroupSum` is the grouped sum reducer and `LossByYear` is the
  `reduceRegion` result. Direct, ungrouped sums (`MaskedLoss`,
  `MaskedLossFor`) are the reference the groups are proved against.
- `Formatting` (formatting.dfy): `Decimal`, `ZeroPad` and `YearLabel`
  implement `"20%02d"`. `ParseDigits` reads a label back. `StatsFormatted`
  builds the rows.
- `ExportNaming` (asset_name.dfy): `Split` and `Join` implement
  `split('/')` and its inverse, `AssetName` implements `split('/').pop()`,
  and `Description` appends the suffix.
- `Landscape` (landscape.dfy): the two constants and `AnalyseLandscape`, which
  chains the steps for one asset. The end-to-end lemmas are here too.

Inputs the engine would supply are parameters: the image's band values, the
per-pixel area in whole square metres, and the set of pixels in the area of
interest.

Points where the script's behaviour may be unexpected, as the model states
them:

- The code does not drop loss-year code 0 or out-of-range codes. It also does
  not drop groups whose sum is zero. The forest pixels that had no loss
  (code 0) therefore form a group, and it is emitted as year "2000" with
  loss area 0. `CodeZeroSumsToZero` proves that sum is 0 whenever pixels
  with code 0 have no loss.
- The year is fixed text, not a configurable base year plus the code. It is the
  text `"20"` followed by the code padded to two digits. For codes 0–99 that
  is the year 2000 + code. A code of 100 or more would give `"20"` followed
  by all of its digits.
- Connectivity is fixed at 8 neighbours, the `connectedPixelCount` default.
  Nothing configures it.

## Model

| member | source | states |
|---|---|---|
| `Raster.Scan` | 01_scripts/GEE_forest_change_analyses.js:46-53 | the region reduction visits every pixel of the image exactly once |
| `BaselineForest.Canopy` | 01_scripts/GEE_forest_change_analyses.js:28-30 | a pixel is unmasked exactly when it is on the image and its `treecover2000` is at least `cc` |
| `BaselineForest.Fill` | 01_scripts/GEE_forest_change_analyses.js:32 | the flood fill contains its seed, stays within the canopy pixels and is closed under 8-adjacency within them |
| `BaselineForest.ComponentIsReach` | 01_scripts/GEE_forest_change_analyses.js:32 | the flood fill from a canopy pixel is exactly the set of canopy pixels reachable from it by 8-neighbour steps through canopy pixels |
| `BaselineForest.ConnectedPixelCountIsReach` | 01_scripts/GEE_forest_change_analyses.js:30-32 | `connectedPixelCount` is masked off the canopy; on a canopy pixel it is the size of that pixel's 8-connected component, uncapped (see `maxSize` under Left out) |
| `BaselineForest.SameComponent` | 01_scripts/GEE_forest_change_analyses.js:32 | every pixel of a component has the same component, so all of them get the same count |
| `BaselineForest.ForestMask` | 01_scripts/GEE_forest_change_analyses.js:30-34 | every pixel of the forest mask is on the image and has `treecover2000 >= cc` |
| `BaselineForest.ForestMaskIsReach` | 01_scripts/GEE_forest_change_analyses.js:32-34 | a pixel is in the mask if and only if it meets the canopy threshold and its component of canopy pixels has at least `pixels` members; the comparison is inclusive |
| `BaselineForest.ForestMaskWholeComponents` | 01_scripts/GEE_forest_change_analyses.js:32-34 | the mask holds the whole component of each of its pixels |
| `BaselineForest.ComponentMonotone` | 01_scripts/GEE_forest_change_analyses.js:30-32 | within fewer canopy pixels, a pixel's component is a subset of its component within more, so it is no larger |
| `BaselineForest.ForestMaskMonotoneInThreshold` | 01_scripts/GEE_forest_change_analyses.js:24-34 | raising `cc` never adds a pixel to the mask |
| `BaselineForest.ForestMaskMonotoneInPixels` | 01_scripts/GEE_forest_change_analyses.js:26-34 | raising `pixels` never adds a pixel to the mask |
| `BaselineForest.ForestMaskWithoutAreaFilter` | 01_scripts/GEE_forest_change_analyses.js:26-34 | with `pixels <= 1` the mask is exactly the canopy-threshold mask |
| `AnnualLoss.Insert` | 01_scripts/GEE_forest_change_analyses.js:47-49 | adding one pixel's value to the groups adds its code to the codes, adds its value to its own group's total and to no other group, and keeps the groups in ascending order of code |
| `AnnualLoss.GroupSum` | 01_scripts/GEE_forest_change_analyses.js:47-49 | the grouped sum has one group per code present, in strictly ascending order; each code's total is the sum of its entries, and all totals add up to the sum of all entries |
| `AnnualLoss.KeptMeaning` | 01_scripts/GEE_forest_change_analyses.js:24-50 | for any `cc` and `pixels`, a pixel reaches the reducer if and only if it is in the area of interest, has `treecover2000 >= cc`, and its 8-connected patch of canopy pixels has at least `pixels` members |
| `AnnualLoss.KeptEntriesSums` | 01_scripts/GEE_forest_change_analyses.js:38-50 | the reducer's inputs carry exactly the kept pixels' codes, their loss areas in total, and for each code the loss area of the kept pixels with that code |
| `AnnualLoss.LossByYearTotal` | 01_scripts/GEE_forest_change_analyses.js:44-49 | the group sums add up to the ungrouped loss area (`loss × pixelArea`) of the forest pixels in the area of interest |
| `AnnualLoss.LossByYearGroups` | 01_scripts/GEE_forest_change_analyses.js:44-53 | the groups are the loss-year codes of the kept pixels, each once, in ascending order, and each group's sum is the loss area of the kept pixels with its code |
| `AnnualLoss.CodeZeroSumsToZero` | 01_scripts/GEE_forest_change_analyses.js:38-49 | when pixels with code 0 have no loss, the group of code 0, which is not filtered out, sums to 0 |
| `AnnualLoss.ExcludedPixelIrrelevant` | 01_scripts/GEE_forest_change_analyses.js:44-53 | a pixel outside the mask or outside the area of interest contributes to no group: changing its loss, loss year or area leaves the result unchanged |
| `AnnualLoss.ZeroLossIrrelevant` | 01_scripts/GEE_forest_change_analyses.js:38-39 | a pixel with `loss = 0` contributes 0: changing its pixel area leaves the result unchanged |
| `Formatting.Decimal` | 01_scripts/GEE_forest_change_analyses.js:60 | the decimal text of a number is one or more digits, at least two for numbers of 10 or more, and without a leading zero unless the number is 0 |
| `Formatting.DecimalRoundTrip` | 01_scripts/GEE_forest_change_analyses.js:60 | reading the decimal text of `n` gives back `n` |
| `Formatting.ZeroPadValue` | 01_scripts/GEE_forest_change_analyses.js:60 | zero padding (`%02d`) keeps the text all digits and does not change its value |
| `Formatting.YearLabelMeaning` | 01_scripts/GEE_forest_change_analyses.js:60 | the label is "20" followed by digits that read back as the code; for codes 0–99 it has four characters and reads as the year 2000 + code; from 100 on it is "20" followed by the code's digits |
| `Formatting.YearLabelInjective` | 01_scripts/GEE_forest_change_analyses.js:60 | different codes give different year labels |
| `Formatting.YearLabelExamples` | 01_scripts/GEE_forest_change_analyses.js:60 | code 3 gives "2003" and code 22 gives "2022" |
| `Formatting.StatsFormattedRows` | 01_scripts/GEE_forest_change_analyses.js:57-66 | there is one row per group, in order; a row's year reads back as its group's code and its loss area is that group's sum |
| `Formatting.StatsFormattedTotal` | 01_scripts/GEE_forest_change_analyses.js:57-66 | the rows' loss areas add up to the groups' total |
| `Formatting.StatsFormattedDistinctYears` | 01_scripts/GEE_forest_change_analyses.js:57-66 | groups in strictly ascending order of code give rows with pairwise different years |
| `ExportNaming.Find` | 01_scripts/GEE_forest_change_analyses.js:9 | when no separator is found the string has none; when one is found at `i`, `s[i]` is the separator and none comes before it |
| `ExportNaming.Split` | 01_scripts/GEE_forest_change_analyses.js:9 | `split('/')` gives at least one part, even for an empty id |
| `ExportNaming.SplitPartsFree` | 01_scripts/GEE_forest_change_analyses.js:9 | no part of the split contains '/' |
| `ExportNaming.JoinSplit` | 01_scripts/GEE_forest_change_analyses.js:9 | joining the parts with '/' gives back the asset id |
| `ExportNaming.SplitJoin` | 01_scripts/GEE_forest_change_analyses.js:9 | splitting '/'-joined parts that contain no '/' gives back the parts |
| `ExportNaming.AssetName` | 01_scripts/GEE_forest_change_analyses.js:9 | `pop()` of the split is a suffix of the id with no '/', and is either the whole id or directly preceded by '/' |
| `ExportNaming.AssetNameIsLastSegment` | 01_scripts/GEE_forest_change_analyses.js:9 | the name of `prefix + "/" + name` is `name`, whatever the prefix; an id without '/' is its own name |
| `ExportNaming.DescriptionOfLastSegment` | 01_scripts/GEE_forest_change_analyses.js:76 | the description of an id `prefix/name`, where `name` has no '/', is `name_FAOforestdef`, whatever the prefix |
| `Landscape.AnalyseLandscape` | 01_scripts/GEE_forest_change_analyses.js:8-78 | the export's description is `_FAOforestdef` preceded by the id's text after its last '/', or by the whole id if it has no '/'; each row is the year of a loss-year code found among the forest pixels (`cc = 30`, `pixels = 6`) in the area of interest, and carries exactly those pixels' loss area; every such code has a row; no year repeats; the rows add up to the ungrouped forest loss area |
| `Landscape.LandscapeForestMeaning` | 01_scripts/GEE_forest_change_analyses.js:24-50 | a pixel is summed for the landscape if and only if it is in the area of interest, has at least 30 % canopy cover, and its 8-connected canopy patch has at least 6 pixels |
| `Landscape.LandscapeRowsDistinctYears` | 01_scripts/GEE_forest_change_analyses.js:44-66 | no year appears twice in a landscape's table |
| `Landscape.LandscapeRowsReportCodes` | 01_scripts/GEE_forest_change_analyses.js:44-66 | every row is the year label of a loss-year code found among the landscape's forest pixels, and its loss area is the loss area of exactly those pixels with that code |
| `Landscape.LandscapeRowsCoverCodes` | 01_scripts/GEE_forest_change_analyses.js:44-66 | every loss-year code found among the landscape's forest pixels has a row |
| `Landscape.LandscapeRowsTotal` | 01_scripts/GEE_forest_change_analyses.js:44-66 | the rows add up to the landscape's whole forest loss area, summed without grouping |

## Left out

- Listing the assets (line 4) and loading the feature collection and the image (lines 13, 16): these are storage I/O. The image's band values and the area of interest are parameters.
- The `forEach` over the assets (line 7): each iteration only runs `AnalyseLandscape` and issues an export. Iterations share nothing.
- `Export.table.toDrive` (lines 74-78): this is delivery to external storage. The model gives only the description and the rows it receives, as `TableExport`; the CSV format is not modelled.
- `reduceRegion` execution details: `scale: 30`, `maxPixels`, tiling and distributed evaluation are engine internals.
- Rasterising the area-of-interest polygon, including the fractional weighting of pixels the polygon only partly covers: a pixel is simply in or out.
- Computing `ee.Image.pixelArea()` from the projection: the area is a per-pixel input.
- Floating-point areas and float accumulation: areas are whole square metres (`nat`), and sums are exact.
- The `maxSize` cap of `connectedPixelCount` (default 100): the model's count is the component's full size. The mask the script builds (`pixels = 6`) is the same either way, because a capped count is at least 6 exactly when the size is. For `pixels > 100`, though, `ForestMask`, `ForestMaskIsReach`, `KeptMeaning` and the monotonicity lemmas describe a mask that the capped count would not produce.
- The image's extent: the script's image is global, but the model finds components inside the finite grid it is given and treats positions off the grid as non-canopy. The model's mask agrees with the script's only when the grid reaches at least `pixels - 1` pixels beyond the area of interest on every side, or when positions off the grid really are non-canopy. A patch cut by the grid edge is counted smaller than it is.
- No-data (masked) pixels in the dataset's own bands: every pixel carries all four values.
- The order of the reducer's `groups` list is decided by the engine, not by the script. The model lists groups in ascending order of code.
- The script has no error handling, retries or parallelism, and nothing in it configures the connectivity or the base year, so the model has none either.
