/** The body run for each landscape asset: the FAO-style forest mask with a
    30 % canopy threshold and a 6-pixel minimum patch, the loss area grouped
    by loss year over the landscape, the formatted rows and the name of the
    table they are exported under. */
module Landscape {
  import opened Raster
  import opened BaselineForest
  import opened AnnualLoss
  import opened Formatting
  import opened ExportNaming

  /** cc: minimum canopy cover, percent. */
  const CanopyThreshold: int := 30
  /** pixels: minimum forest patch, in pixels (about 0.5 ha at 30 m). */
  const MinForestPixels: int := 6

  /** What Export.table.toDrive receives: the description and the rows. */
  datatype TableExport = TableExport(description: string, rows: seq<Row>)

  /** The forest pixels of the landscape that the reducer sums. */
  function LandscapeForest(img: Image, aoi: set<Pos>): set<Pos> {
    Kept(img, aoi, CanopyThreshold, MinForestPixels)
  }

  /** One landscape, from its asset id, the image and the pixels of its
      area of interest to the table it exports. */
  function AnalyseLandscape(assetId: string, img: Image, aoi: set<Pos>): (t: TableExport)
    // the description: the asset's own name, then the suffix
    ensures var n := |t.description| - |Suffix|;
      && n >= 0 && t.description[n..] == "_FAOforestdef"
      && Free(t.description[..n], '/')
      && n <= |assetId| && assetId[|assetId| - n..] == t.description[..n]
      && (n == |assetId| || assetId[|assetId| - n - 1] == '/')
    // the rows: one per loss-year code of the forest pixels, distinct years
    ensures forall i :: 0 <= i < |t.rows| ==> RowReportsCode(img, aoi, t.rows[i])
    ensures forall c :: c in LandscapeCodes(img, aoi) ==>
      exists i :: 0 <= i < |t.rows| && t.rows[i].year == YearLabel(c)
    ensures forall i, j :: 0 <= i < j < |t.rows| ==> t.rows[i].year != t.rows[j].year
    ensures RowsTotal(t.rows) == MaskedLoss(img, Scan(img), LandscapeForest(img, aoi))
  {
    LandscapeRowsReportCodes(img, aoi);
    LandscapeRowsDistinctYears(img, aoi);
    LandscapeRowsTotal(img, aoi);
    forall c | c in LandscapeCodes(img, aoi)
      ensures exists i :: 0 <= i < |LandscapeRows(img, aoi)| && LandscapeRows(img, aoi)[i].year == YearLabel(c)
    {
      LandscapeRowsCoverCodes(img, aoi, c);
    }
    var d := Description(assetId);
    assert d[..|d| - |Suffix|] == AssetName(assetId);
    TableExport(d, LandscapeRows(img, aoi))
  }

  /** The rows of the exported table: statsFormatted of the grouped sum. */
  function LandscapeRows(img: Image, aoi: set<Pos>): seq<Row> {
    StatsFormatted(LossByYear(img, aoi, CanopyThreshold, MinForestPixels))
  }

  /** The loss-year codes of the landscape's forest pixels. */
  function LandscapeCodes(img: Image, aoi: set<Pos>): set<nat> {
    KeptCodes(img, Scan(img), LandscapeForest(img, aoi))
  }

  /** The loss area of the landscape's forest pixels with code `c`. */
  function LandscapeLossFor(img: Image, aoi: set<Pos>, c: nat): nat {
    MaskedLossFor(img, Scan(img), LandscapeForest(img, aoi), c)
  }

  /** The row is the year of a loss-year code found among the landscape's
      forest pixels and carries the loss area of exactly those pixels. */
  ghost predicate RowReportsCode(img: Image, aoi: set<Pos>, row: Row) {
    exists c :: c in LandscapeCodes(img, aoi) && row.year == YearLabel(c) &&
      row.lossArea == LandscapeLossFor(img, aoi, c)
  }

  /** Row `i` reports group `i` of the grouped sum. */
  lemma LandscapeRowAt(img: Image, aoi: set<Pos>, i: nat)
    requires i < |LandscapeRows(img, aoi)|
    ensures var gs := LossByYear(img, aoi, CanopyThreshold, MinForestPixels);
      var row := LandscapeRows(img, aoi)[i];
      && i < |gs|
      && gs[i].group in LandscapeCodes(img, aoi)
      && row.year == YearLabel(gs[i].group)
      && row.lossArea == LandscapeLossFor(img, aoi, gs[i].group)
  {
    var gs := LossByYear(img, aoi, CanopyThreshold, MinForestPixels);
    LossByYearGroups(img, aoi, CanopyThreshold, MinForestPixels);
    assert gs[i] in gs;
  }

  /** No year appears twice in the table. */
  lemma LandscapeRowsDistinctYears(img: Image, aoi: set<Pos>)
    ensures var rows := LandscapeRows(img, aoi);
      forall i, j :: 0 <= i < j < |rows| ==> rows[i].year != rows[j].year
  {
    var gs := LossByYear(img, aoi, CanopyThreshold, MinForestPixels);
    LossByYearGroups(img, aoi, CanopyThreshold, MinForestPixels);
    StatsFormattedDistinctYears(gs);
  }

  /** Every row is the year of a code found among the landscape's forest
      pixels, with the loss area of exactly those pixels. */
  lemma LandscapeRowsReportCodes(img: Image, aoi: set<Pos>)
    ensures forall i :: 0 <= i < |LandscapeRows(img, aoi)| ==> RowReportsCode(img, aoi, LandscapeRows(img, aoi)[i])
  {
    var rows := LandscapeRows(img, aoi);
    forall i | 0 <= i < |rows| ensures RowReportsCode(img, aoi, rows[i])
    {
      LandscapeRowAt(img, aoi, i);
      var c := LossByYear(img, aoi, CanopyThreshold, MinForestPixels)[i].group;
      assert c in LandscapeCodes(img, aoi) && rows[i].year == YearLabel(c) &&
        rows[i].lossArea == LandscapeLossFor(img, aoi, c);
    }
  }

  /** Every code found among the landscape's forest pixels has its row. */
  lemma LandscapeRowsCoverCodes(img: Image, aoi: set<Pos>, c: nat)
    requires c in LandscapeCodes(img, aoi)
    ensures exists i ::
      0 <= i < |LandscapeRows(img, aoi)| &&
      LandscapeRows(img, aoi)[i].year == YearLabel(c)
  {
    var gs := LossByYear(img, aoi, CanopyThreshold, MinForestPixels);
    LossByYearGroups(img, aoi, CanopyThreshold, MinForestPixels);
    var i := CodeIndex(gs, c);
    assert LandscapeRows(img, aoi)[i].year == YearLabel(c);
  }

  /** The rows add up to the loss area of all the landscape's forest
      pixels, summed without grouping. */
  lemma LandscapeRowsTotal(img: Image, aoi: set<Pos>)
    ensures RowsTotal(LandscapeRows(img, aoi)) ==
      MaskedLoss(img, Scan(img), LandscapeForest(img, aoi))
  {
    var gs := LossByYear(img, aoi, CanopyThreshold, MinForestPixels);
    LossByYearTotal(img, aoi, CanopyThreshold, MinForestPixels);
    StatsFormattedTotal(gs);
  }

  /** Forest pixels of the landscape meet the 30 % canopy threshold, lie in
      the area of interest and belong to an 8-connected canopy patch of at
      least six pixels. */
  lemma LandscapeForestMeaning(img: Image, aoi: set<Pos>, p: Pos)
    ensures p in LandscapeForest(img, aoi) <==>
      && p in aoi
      && InBounds(img, p)
      && At(img, p).treecover2000 >= 30
      && |Reach(Canopy(img, 30), p)| >= 6
  {
    KeptMeaning(img, aoi, CanopyThreshold, MinForestPixels, p);
  }
}
