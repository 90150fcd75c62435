/** The baseline forest mask of the year 2000: canopy cover at or above a
    threshold `cc`, then only the pixels whose 8-connected patch of such
    pixels holds at least `pixels` pixels.

    The mask depends on the image only through the set of canopy pixels,
    so the connectivity functions take that set as their argument. */
module BaselineForest {
  import opened Raster

  /** canopyCover.gte(cc).selfMask(): the pixels left unmasked. */
  function Canopy(img: Image, cc: int): (q: set<Pos>)
    ensures forall p :: p in q <==> InBounds(img, p) && At(img, p).treecover2000 >= cc
  {
    set p | p in Scan(img) && At(img, p).treecover2000 >= cc
  }

  /** The pixels of `q` that touch some pixel of `s`. */
  function Neighbours(q: set<Pos>, s: set<Pos>): set<Pos> {
    set y | y in q && exists x :: x in s && Adjacent(x, y)
  }

  /** A set strictly inside another is strictly smaller. */
  lemma CardSubset<T>(a: set<T>, b: set<T>)
    requires a <= b
    ensures |a| <= |b|
    ensures a != b ==> |a| < |b|
  {
    assert b == a + (b - a);
    assert a * (b - a) == {};
    if a != b {
      var x :| x in b - a;
      assert |b - a| >= 1 by {
        assert {x} <= b - a;
        assert b - a == {x} + (b - a - {x});
      }
    }
  }

  /** Flood fill: grows `s` by neighbouring pixels of `q` until nothing is
      added. The result contains `s`, lies in `q` and is closed under
      adjacency within `q`. */
  function Fill(q: set<Pos>, s: set<Pos>): (r: set<Pos>)
    requires s <= q
    ensures s <= r <= q
    ensures forall x, y :: x in r && y in q && Adjacent(x, y) ==> y in r
    decreases |q - s|
  {
    var t := s + Neighbours(q, s);
    if t == s then
      assert forall x, y :: x in s && y in q && Adjacent(x, y) ==> y in Neighbours(q, s);
      s
    else
      CardSubset(q - t, q - s);
      Fill(q, t)
  }

  /** The connected component of canopy pixel `p`. */
  function Component(q: set<Pos>, p: Pos): set<Pos>
    requires p in q
  {
    Fill(q, {p})
  }

  /** canopyCover10.connectedPixelCount(): masked outside the canopy,
      otherwise the size of the pixel's component. */
  function ConnectedPixelCount(img: Image, cc: int, p: Pos): Option<nat> {
    var q := Canopy(img, cc);
    if p in q then Some(|Component(q, p)|) else None
  }

  /** contArea.gte(pixels).selfMask(): the baseline forest mask. */
  function ForestMask(img: Image, cc: int, pixels: int): (m: set<Pos>)
    ensures forall p :: p in m ==> InBounds(img, p) && At(img, p).treecover2000 >= cc
  {
    var q := Canopy(img, cc);
    set p | p in q && |Component(q, p)| >= pixels
  }

  // ---------------------------------------------------------------------
  // Reachability: the definition of a connected component the flood fill
  // is checked against.

  /** A walk through pixels of `q`, each step to an 8-neighbour. */
  ghost predicate IsPath(q: set<Pos>, path: seq<Pos>) {
    && |path| > 0
    && (forall i :: 0 <= i < |path| ==> path[i] in q)
    && (forall i :: 0 <= i < |path| - 1 ==> Adjacent(path[i], path[i + 1]))
  }

  ghost predicate Connected(q: set<Pos>, x: Pos, y: Pos) {
    exists path :: IsPath(q, path) && path[0] == x && path[|path| - 1] == y
  }

  /** Every pixel of `q` reachable from `x` within `q`. */
  ghost function Reach(q: set<Pos>, x: Pos): set<Pos> {
    set y | y in q && Connected(q, x, y)
  }

  lemma ConnectedRefl(q: set<Pos>, x: Pos)
    requires x in q
    ensures Connected(q, x, x)
  {
    assert IsPath(q, [x]);
  }

  /** A path can be walked backwards. */
  lemma {:induction false} ConnectedSymmetric(q: set<Pos>, x: Pos, y: Pos)
    requires Connected(q, x, y)
    ensures Connected(q, y, x)
  {
    var path :| IsPath(q, path) && path[0] == x && path[|path| - 1] == y;
    var back := seq(|path|, i requires 0 <= i < |path| => path[|path| - 1 - i]);
    forall i | 0 <= i < |back| - 1 ensures Adjacent(back[i], back[i + 1]) {
      assert Adjacent(path[|path| - 2 - i], path[|path| - 1 - i]);
    }
    assert IsPath(q, back);
  }

  /** Two paths meeting end to start make one. */
  lemma {:induction false} ConnectedTransitive(q: set<Pos>, x: Pos, y: Pos, z: Pos)
    requires Connected(q, x, y) && Connected(q, y, z)
    ensures Connected(q, x, z)
  {
    var p1 :| IsPath(q, p1) && p1[0] == x && p1[|p1| - 1] == y;
    var p2 :| IsPath(q, p2) && p2[0] == y && p2[|p2| - 1] == z;
    var path := p1 + p2[1..];
    assert forall i :: |p1| <= i < |path| ==> path[i] == p2[i - |p1| + 1];
    assert IsPath(q, path);
  }

  /** A path inside the smaller of two sets is a path inside the larger. */
  lemma ConnectedWithin(q1: set<Pos>, q2: set<Pos>, x: Pos, y: Pos)
    requires q2 <= q1 && Connected(q2, x, y)
    ensures Connected(q1, x, y)
  {
    var path :| IsPath(q2, path) && path[0] == x && path[|path| - 1] == y;
    assert IsPath(q1, path);
  }

  /** Everything the flood fill adds is reachable from `x`. */
  lemma {:induction false} FillReachable(q: set<Pos>, x: Pos, s: set<Pos>)
    requires s <= q
    requires forall y :: y in s ==> Connected(q, x, y)
    ensures forall y :: y in Fill(q, s) ==> Connected(q, x, y)
    decreases |q - s|
  {
    var t := s + Neighbours(q, s);
    if t != s {
      forall y | y in t ensures Connected(q, x, y) {
        if y !in s {
          var w :| w in s && Adjacent(w, y);
          var path :| IsPath(q, path) && path[0] == x && path[|path| - 1] == w;
          assert IsPath(q, path + [y]);
        }
      }
      CardSubset(q - t, q - s);
      FillReachable(q, x, t);
    }
  }

  /** A set closed under adjacency within `q` holds the whole of every
      path that starts in it. */
  lemma {:induction false} ClosedHoldsPath(q: set<Pos>, c: set<Pos>, path: seq<Pos>)
    requires IsPath(q, path) && path[0] in c
    requires forall x, y :: x in c && y in q && Adjacent(x, y) ==> y in c
    ensures path[|path| - 1] in c
    decreases |path|
  {
    if |path| > 1 {
      var front := path[..|path| - 1];
      assert IsPath(q, front);
      ClosedHoldsPath(q, c, front);
      assert Adjacent(path[|path| - 2], path[|path| - 1]);
    }
  }

  /** The flood fill from `x` is exactly the set of pixels reachable from `x`. */
  lemma ComponentIsReach(q: set<Pos>, x: Pos)
    requires x in q
    ensures Component(q, x) == Reach(q, x)
  {
    ConnectedRefl(q, x);
    FillReachable(q, x, {x});
    var c := Component(q, x);
    forall y | y in Reach(q, x) ensures y in c {
      var path :| IsPath(q, path) && path[0] == x && path[|path| - 1] == y;
      ClosedHoldsPath(q, c, path);
    }
  }

  /** Every pixel of a component has that same component, so
      connectedPixelCount gives all of them the same count. */
  lemma SameComponent(q: set<Pos>, x: Pos, y: Pos)
    requires x in q && y in Component(q, x)
    ensures y in q && Component(q, y) == Component(q, x)
  {
    ComponentIsReach(q, x);
    ComponentIsReach(q, y);
    forall z | z in Reach(q, y) ensures z in Reach(q, x) {
      ConnectedTransitive(q, x, y, z);
    }
    forall z | z in Reach(q, x) ensures z in Reach(q, y) {
      ConnectedSymmetric(q, x, y);
      ConnectedTransitive(q, y, x, z);
    }
  }

  /** A smaller canopy set never yields a larger component. */
  lemma ComponentMonotone(q1: set<Pos>, q2: set<Pos>, x: Pos)
    requires q2 <= q1 && x in q2
    ensures Component(q2, x) <= Component(q1, x)
    ensures |Component(q2, x)| <= |Component(q1, x)|
  {
    ComponentIsReach(q1, x);
    ComponentIsReach(q2, x);
    forall y | y in Reach(q2, x) ensures y in Reach(q1, x) {
      ConnectedWithin(q1, q2, x, y);
    }
    CardSubset(Component(q2, x), Component(q1, x));
  }

  // ---------------------------------------------------------------------
  // What the mask means.

  /** connectedPixelCount is masked off the canopy and otherwise gives the
      number of canopy pixels 8-connected to the pixel. */
  lemma ConnectedPixelCountIsReach(img: Image, cc: int, p: Pos)
    ensures ConnectedPixelCount(img, cc, p) ==
      if InBounds(img, p) && At(img, p).treecover2000 >= cc
      then Some(|Reach(Canopy(img, cc), p)|) else None
  {
    var q := Canopy(img, cc);
    if p in q {
      ComponentIsReach(q, p);
    }
  }

  /** A pixel is forest exactly when its canopy cover meets the threshold
      and its 8-connected patch of canopy pixels has at least `pixels`
      members (inclusive: a patch of exactly `pixels` is kept). */
  lemma ForestMaskIsReach(img: Image, cc: int, pixels: int, p: Pos)
    ensures p in ForestMask(img, cc, pixels) <==>
      && InBounds(img, p)
      && At(img, p).treecover2000 >= cc
      && |Reach(Canopy(img, cc), p)| >= pixels
  {
    var q := Canopy(img, cc);
    if p in q {
      ComponentIsReach(q, p);
    }
  }

  /** The mask is a union of whole components. */
  lemma ForestMaskWholeComponents(img: Image, cc: int, pixels: int, x: Pos, y: Pos)
    requires x in ForestMask(img, cc, pixels)
    requires y in Component(Canopy(img, cc), x)
    ensures y in ForestMask(img, cc, pixels)
  {
    SameComponent(Canopy(img, cc), x, y);
  }

  /** Raising the canopy threshold never adds a pixel to the mask. */
  lemma ForestMaskMonotoneInThreshold(img: Image, cc1: int, cc2: int, pixels: int)
    requires cc1 <= cc2
    ensures ForestMask(img, cc2, pixels) <= ForestMask(img, cc1, pixels)
  {
    var q1, q2 := Canopy(img, cc1), Canopy(img, cc2);
    forall p | p in ForestMask(img, cc2, pixels) ensures p in ForestMask(img, cc1, pixels) {
      ComponentMonotone(q1, q2, p);
    }
  }

  /** Raising the minimum patch size never adds a pixel to the mask. */
  lemma ForestMaskMonotoneInPixels(img: Image, cc: int, pixels1: int, pixels2: int)
    requires pixels1 <= pixels2
    ensures ForestMask(img, cc, pixels2) <= ForestMask(img, cc, pixels1)
  {
  }

  /** With a minimum of one pixel the area filter does nothing. */
  lemma ForestMaskWithoutAreaFilter(img: Image, cc: int, pixels: int)
    requires pixels <= 1
    ensures ForestMask(img, cc, pixels) == Canopy(img, cc)
  {
    var q := Canopy(img, cc);
    forall p | p in q ensures |Component(q, p)| >= 1 {
      assert p in Component(q, p);
    }
  }
}
