/** Annual loss aggregation: the loss-area band (`loss` times the pixel
    area) alongside the `lossyear` band, masked by the baseline forest mask,
    summed over the pixels of the area of interest and grouped by loss-year
    code, as the grouped sum reducer returns it: one group per code present,
    in ascending order of code. */
module AnnualLoss {
  import opened Raster
  import opened BaselineForest

  /** lossImage.multiply(ee.Image.pixelArea()) at one pixel. */
  function LossArea(px: Pixel): nat {
    px.loss * px.pixelArea
  }

  /** What one unmasked pixel feeds the reducer: its group field (band 1,
      the loss-year code) and its summed value (band 0, the loss area). */
  datatype Entry = Entry(group: nat, value: nat)

  /** One element of the reducer's 'groups' list. */
  datatype Group = Group(group: nat, sum: nat)

  // ---------------------------------------------------------------------
  // Sums over entries and over groups.

  function SumAll(es: seq<Entry>): nat {
    if es == [] then 0 else es[0].value + SumAll(es[1..])
  }

  /** The sum of the values of the entries in group `c`. */
  function SumFor(es: seq<Entry>, c: nat): nat {
    if es == [] then 0
    else (if es[0].group == c then es[0].value else 0) + SumFor(es[1..], c)
  }

  function Keys(es: seq<Entry>): set<nat> {
    set e | e in es :: e.group
  }

  function Total(gs: seq<Group>): nat {
    if gs == [] then 0 else gs[0].sum + Total(gs[1..])
  }

  /** The sum of the sums of every group labelled `c`. */
  function GroupTotal(gs: seq<Group>, c: nat): nat {
    if gs == [] then 0
    else (if gs[0].group == c then gs[0].sum else 0) + GroupTotal(gs[1..], c)
  }

  function Codes(gs: seq<Group>): set<nat> {
    set g | g in gs :: g.group
  }

  /** Group codes strictly ascending, so no code appears twice. */
  predicate Sorted(gs: seq<Group>) {
    forall i, j :: 0 <= i < j < |gs| ==> gs[i].group < gs[j].group
  }

  // ---------------------------------------------------------------------
  // The grouped sum.

  /** Adds one entry to a list of groups: to its group's running sum when
      the group exists, otherwise as a new group in code order. */
  function Insert(gs: seq<Group>, e: Entry): (r: seq<Group>)
    ensures Codes(r) == Codes(gs) + {e.group}
    ensures Total(r) == Total(gs) + e.value
    ensures forall c :: GroupTotal(r, c) == GroupTotal(gs, c) + (if c == e.group then e.value else 0)
    ensures Sorted(gs) ==> Sorted(r)
  {
    if gs == [] then
      [Group(e.group, e.value)]
    else if e.group == gs[0].group then
      var r := [Group(e.group, gs[0].sum + e.value)] + gs[1..];
      InsertHere(gs, e, r);
      r
    else if e.group < gs[0].group then
      var r := [Group(e.group, e.value)] + gs;
      InsertBefore(gs, e, r);
      r
    else
      var r := [gs[0]] + Insert(gs[1..], e);
      InsertAfter(gs, e, Insert(gs[1..], e), r);
      r
  }

  lemma CodesCons(g: Group, gs: seq<Group>)
    ensures Codes([g] + gs) == {g.group} + Codes(gs)
  {
    assert forall x :: x in [g] + gs <==> x == g || x in gs;
  }

  lemma CodesUncons(gs: seq<Group>)
    requires gs != []
    ensures Codes(gs) == {gs[0].group} + Codes(gs[1..])
  {
    assert gs == [gs[0]] + gs[1..];
    CodesCons(gs[0], gs[1..]);
  }

  /** The entry joins the first group, which has its code. */
  lemma InsertHere(gs: seq<Group>, e: Entry, r: seq<Group>)
    requires gs != [] && e.group == gs[0].group
    requires r == [Group(e.group, gs[0].sum + e.value)] + gs[1..]
    ensures Codes(r) == Codes(gs) + {e.group}
    ensures Total(r) == Total(gs) + e.value
    ensures forall c :: GroupTotal(r, c) == GroupTotal(gs, c) + (if c == e.group then e.value else 0)
    ensures Sorted(gs) ==> Sorted(r)
  {
    assert r[1..] == gs[1..];
    CodesUncons(gs);
    CodesUncons(r);
  }

  /** The entry opens a new group before the first one. */
  lemma InsertBefore(gs: seq<Group>, e: Entry, r: seq<Group>)
    requires gs != [] && e.group < gs[0].group
    requires r == [Group(e.group, e.value)] + gs
    ensures Codes(r) == Codes(gs) + {e.group}
    ensures Total(r) == Total(gs) + e.value
    ensures forall c :: GroupTotal(r, c) == GroupTotal(gs, c) + (if c == e.group then e.value else 0)
    ensures Sorted(gs) ==> Sorted(r)
  {
    assert r[1..] == gs;
    CodesUncons(r);
  }

  /** The entry goes somewhere after the first group. */
  lemma InsertAfter(gs: seq<Group>, e: Entry, rest: seq<Group>, r: seq<Group>)
    requires gs != [] && e.group > gs[0].group
    requires Codes(rest) == Codes(gs[1..]) + {e.group}
    requires Total(rest) == Total(gs[1..]) + e.value
    requires forall c :: GroupTotal(rest, c) == GroupTotal(gs[1..], c) + (if c == e.group then e.value else 0)
    requires Sorted(gs[1..]) ==> Sorted(rest)
    requires r == [gs[0]] + rest
    ensures Codes(r) == Codes(gs) + {e.group}
    ensures Total(r) == Total(gs) + e.value
    ensures forall c :: GroupTotal(r, c) == GroupTotal(gs, c) + (if c == e.group then e.value else 0)
    ensures Sorted(gs) ==> Sorted(r)
  {
    assert r[1..] == rest;
    CodesUncons(gs);
    CodesUncons(r);
    if Sorted(gs) {
      assert Sorted(gs[1..]);
      SortedCons(gs, e, rest, r);
    }
  }

  /** Putting the first group back in front of the rest keeps the order. */
  lemma SortedCons(gs: seq<Group>, e: Entry, rest: seq<Group>, r: seq<Group>)
    requires gs != [] && e.group > gs[0].group && Sorted(gs) && Sorted(rest)
    requires Codes(rest) == Codes(gs[1..]) + {e.group}
    requires r == [gs[0]] + rest
    ensures Sorted(r)
  {
    forall k | 0 <= k < |rest| ensures gs[0].group < rest[k].group {
      assert rest[k].group in Codes(rest);
      if rest[k].group != e.group {
        var g :| g in gs[1..] && g.group == rest[k].group;
        var i :| 0 <= i < |gs[1..]| && gs[1..][i] == g;
        assert gs[i + 1] == g;
      }
    }
    forall i, j | 0 <= i < j < |r| ensures r[i].group < r[j].group {
      if i > 0 {
        assert r[i] == rest[i - 1] && r[j] == rest[j - 1];
      } else {
        assert r[j] == rest[j - 1];
      }
    }
  }

  /** ee.Reducer.sum().group(): one group per code among the entries, in
      ascending order, each holding the sum of its entries' values. */
  function GroupSum(es: seq<Entry>): (gs: seq<Group>)
    ensures Sorted(gs)
    ensures Codes(gs) == Keys(es)
    ensures Total(gs) == SumAll(es)
    ensures forall c :: GroupTotal(gs, c) == SumFor(es, c)
  {
    if es == [] then []
    else
      var gs := Insert(GroupSum(es[1..]), es[0]);
      assert Keys(es) == {es[0].group} + Keys(es[1..]) by {
        assert forall e :: e in es <==> e == es[0] || e in es[1..];
      }
      gs
  }

  /** Where a code sits in a list of groups. */
  function CodeIndex(gs: seq<Group>, c: nat): (i: nat)
    requires c in Codes(gs)
    ensures i < |gs| && gs[i].group == c
  {
    if gs[0].group == c then 0
    else
      CodesUncons(gs);
      CodeIndex(gs[1..], c) + 1
  }

  /** In a sorted list, a group's own sum is the total for its code. */
  lemma {:induction false} GroupTotalOfSorted(gs: seq<Group>, j: nat)
    requires Sorted(gs) && j < |gs|
    ensures GroupTotal(gs, gs[j].group) == gs[j].sum
  {
    if j == 0 {
      GroupTotalAbsent(gs[1..], gs[0].group);
    } else {
      assert gs[1..][j - 1] == gs[j];
      GroupTotalOfSorted(gs[1..], j - 1);
    }
  }

  /** A code below every group's code has total zero. */
  lemma {:induction false} GroupTotalAbsent(gs: seq<Group>, c: nat)
    requires forall k :: 0 <= k < |gs| ==> c < gs[k].group
    ensures GroupTotal(gs, c) == 0
  {
    if gs != [] {
      GroupTotalAbsent(gs[1..], c);
    }
  }

  // ---------------------------------------------------------------------
  // From pixels to entries.

  /** updateMask(minArea.eq(1)) restricted to the area of interest: the
      pixels the reducer sees. */
  function Kept(img: Image, aoi: set<Pos>, cc: int, pixels: int): (k: set<Pos>)
    ensures forall p :: p in k <==> p in ForestMask(img, cc, pixels) && p in aoi
  {
    ForestMask(img, cc, pixels) * aoi
  }

  /** A pixel reaches the reducer exactly when it is in the area of
      interest, meets the canopy threshold and its 8-connected patch of
      canopy pixels has at least `pixels` members. */
  lemma KeptMeaning(img: Image, aoi: set<Pos>, cc: int, pixels: int, p: Pos)
    ensures p in Kept(img, aoi, cc, pixels) <==>
      && p in aoi
      && InBounds(img, p)
      && At(img, p).treecover2000 >= cc
      && |Reach(Canopy(img, cc), p)| >= pixels
  {
    ForestMaskIsReach(img, cc, pixels, p);
  }

  /** The entries of the pixels of `ps` that are in `keep`, in order. */
  function KeptEntries(img: Image, ps: seq<Pos>, keep: set<Pos>): seq<Entry>
    requires forall p :: p in ps ==> InBounds(img, p)
  {
    if ps == [] then []
    else
      var px := At(img, ps[0]);
      (if ps[0] in keep then [Entry(px.lossyear, LossArea(px))] else [])
        + KeptEntries(img, ps[1..], keep)
  }

  /** The reduceRegion result: loss area of the forest pixels of the area
      of interest, grouped by loss-year code. */
  function LossByYear(img: Image, aoi: set<Pos>, cc: int, pixels: int): seq<Group> {
    GroupSum(KeptEntries(img, Scan(img), Kept(img, aoi, cc, pixels)))
  }

  // ---------------------------------------------------------------------
  // Direct sums over pixels, without grouping.

  /** The loss area of the pixels of `ps` in `keep`. */
  function MaskedLoss(img: Image, ps: seq<Pos>, keep: set<Pos>): nat
    requires forall p :: p in ps ==> InBounds(img, p)
  {
    if ps == [] then 0
    else (if ps[0] in keep then LossArea(At(img, ps[0])) else 0) + MaskedLoss(img, ps[1..], keep)
  }

  /** The loss area of the pixels of `ps` in `keep` whose loss-year code is `c`. */
  function MaskedLossFor(img: Image, ps: seq<Pos>, keep: set<Pos>, c: nat): nat
    requires forall p :: p in ps ==> InBounds(img, p)
  {
    if ps == [] then 0
    else
      var px := At(img, ps[0]);
      (if ps[0] in keep && px.lossyear == c then LossArea(px) else 0) + MaskedLossFor(img, ps[1..], keep, c)
  }

  /** The loss-year codes of the pixels of `ps` in `keep`. */
  function KeptCodes(img: Image, ps: seq<Pos>, keep: set<Pos>): set<nat>
    requires forall p :: p in ps ==> InBounds(img, p)
  {
    set p | p in ps && p in keep :: At(img, p).lossyear
  }

  /** The entries carry exactly the kept pixels' codes and loss areas. */
  lemma {:induction false} KeptEntriesSums(img: Image, ps: seq<Pos>, keep: set<Pos>)
    requires forall p :: p in ps ==> InBounds(img, p)
    ensures SumAll(KeptEntries(img, ps, keep)) == MaskedLoss(img, ps, keep)
    ensures forall c :: SumFor(KeptEntries(img, ps, keep), c) == MaskedLossFor(img, ps, keep, c)
    ensures Keys(KeptEntries(img, ps, keep)) == KeptCodes(img, ps, keep)
  {
    if ps != [] {
      KeptEntriesSums(img, ps[1..], keep);
      var es := KeptEntries(img, ps, keep);
      var rest := KeptEntries(img, ps[1..], keep);
      var px := At(img, ps[0]);
      if ps[0] in keep {
        assert es == [Entry(px.lossyear, LossArea(px))] + rest;
        assert es[1..] == rest;
        assert Keys(es) == {px.lossyear} + Keys(rest) by {
          assert forall e :: e in es <==> e == es[0] || e in rest;
        }
      } else {
        assert es == rest;
      }
      assert KeptCodes(img, ps, keep) ==
        (if ps[0] in keep then {px.lossyear} else {}) + KeptCodes(img, ps[1..], keep) by {
        assert forall p :: p in ps <==> p == ps[0] || p in ps[1..];
      }
    }
  }

  /** Two images that agree on the code and loss area of every kept pixel
      give the same entries. */
  lemma {:induction false} KeptEntriesAgree(img1: Image, img2: Image, ps: seq<Pos>, keep: set<Pos>)
    requires forall p :: p in ps ==> InBounds(img1, p) && InBounds(img2, p)
    requires forall p :: p in ps && p in keep ==>
      At(img1, p).lossyear == At(img2, p).lossyear && LossArea(At(img1, p)) == LossArea(At(img2, p))
    ensures KeptEntries(img1, ps, keep) == KeptEntries(img2, ps, keep)
  {
    if ps != [] {
      KeptEntriesAgree(img1, img2, ps[1..], keep);
    }
  }

  // ---------------------------------------------------------------------
  // What the grouped result means.

  /** Grouping by loss-year code partitions the kept pixels: the group sums
      add up to the ungrouped loss area of the forest pixels in the area of
      interest. */
  lemma LossByYearTotal(img: Image, aoi: set<Pos>, cc: int, pixels: int)
    ensures Total(LossByYear(img, aoi, cc, pixels)) ==
      MaskedLoss(img, Scan(img), Kept(img, aoi, cc, pixels))
  {
    KeptEntriesSums(img, Scan(img), Kept(img, aoi, cc, pixels));
  }

  /** The groups are the loss-year codes of the forest pixels of the area of
      interest, each code once, in ascending order; each group's sum is the
      loss area of exactly those pixels with its code. */
  lemma LossByYearGroups(img: Image, aoi: set<Pos>, cc: int, pixels: int)
    ensures Sorted(LossByYear(img, aoi, cc, pixels))
    ensures Codes(LossByYear(img, aoi, cc, pixels)) == KeptCodes(img, Scan(img), Kept(img, aoi, cc, pixels))
    ensures forall j :: 0 <= j < |LossByYear(img, aoi, cc, pixels)| ==>
      LossByYear(img, aoi, cc, pixels)[j].sum ==
        MaskedLossFor(img, Scan(img), Kept(img, aoi, cc, pixels), LossByYear(img, aoi, cc, pixels)[j].group)
  {
    var keep := Kept(img, aoi, cc, pixels);
    var gs := LossByYear(img, aoi, cc, pixels);
    KeptEntriesSums(img, Scan(img), keep);
    forall j | 0 <= j < |gs| ensures gs[j].sum == MaskedLossFor(img, Scan(img), keep, gs[j].group) {
      GroupTotalOfSorted(gs, j);
    }
  }

  /** Where every pixel without a loss year has no loss (as in the Hansen
      data), the group of code 0, which the reducer still emits, sums to 0. */
  lemma CodeZeroSumsToZero(img: Image, aoi: set<Pos>, cc: int, pixels: int, j: nat)
    requires forall p :: InBounds(img, p) && At(img, p).lossyear == 0 ==> At(img, p).loss == 0
    requires j < |LossByYear(img, aoi, cc, pixels)| && LossByYear(img, aoi, cc, pixels)[j].group == 0
    ensures LossByYear(img, aoi, cc, pixels)[j].sum == 0
  {
    LossByYearGroups(img, aoi, cc, pixels);
    NoLossForCodeZero(img, Scan(img), Kept(img, aoi, cc, pixels));
  }

  lemma {:induction false} NoLossForCodeZero(img: Image, ps: seq<Pos>, keep: set<Pos>)
    requires forall p :: p in ps ==> InBounds(img, p)
    requires forall p :: p in ps && At(img, p).lossyear == 0 ==> At(img, p).loss == 0
    ensures MaskedLossFor(img, ps, keep, 0) == 0
  {
    if ps != [] {
      NoLossForCodeZero(img, ps[1..], keep);
    }
  }

  /** A pixel outside the forest mask or outside the area of interest
      contributes to no group: its loss, loss year and area can be anything
      (its canopy cover stays, since the mask is built from it). */
  lemma ExcludedPixelIrrelevant(img: Image, aoi: set<Pos>, cc: int, pixels: int, p: Pos, px: Pixel)
    requires InBounds(img, p) && px.treecover2000 == At(img, p).treecover2000
    requires p !in ForestMask(img, cc, pixels) || p !in aoi
    ensures LossByYear(SetPixel(img, p, px), aoi, cc, pixels) == LossByYear(img, aoi, cc, pixels)
  {
    var img' := SetPixel(img, p, px);
    assert Canopy(img', cc) == Canopy(img, cc);
    ScanSameShape(img', img);
    KeptEntriesAgree(img', img, Scan(img), Kept(img, aoi, cc, pixels));
  }

  /** A pixel without loss contributes nothing: its area does not matter. */
  lemma ZeroLossIrrelevant(img: Image, aoi: set<Pos>, cc: int, pixels: int, p: Pos, area: nat)
    requires InBounds(img, p) && At(img, p).loss == 0
    ensures LossByYear(SetPixel(img, p, At(img, p).(pixelArea := area)), aoi, cc, pixels) ==
      LossByYear(img, aoi, cc, pixels)
  {
    var img' := SetPixel(img, p, At(img, p).(pixelArea := area));
    assert Canopy(img', cc) == Canopy(img, cc);
    ScanSameShape(img', img);
    KeptEntriesAgree(img', img, Scan(img), Kept(img, aoi, cc, pixels));
  }
}
