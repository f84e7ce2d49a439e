/** remove_countors_roi: erase (fill with 0) every contour whose tested
    vertices all lie strictly inside a rectangular region of interest. */
module ContourSuppression {
  import opened Raster

  /** A rectangular ROI polygon, given by its corner coordinates. */
  datatype Rect = Rect(left: int, top: int, right: int, bottom: int)

  /** A contour: its polygon vertices, and the pixels cv2.drawContours paints
      (thickness -1) for this contour's index, given the list's hierarchy; the
      rasterisation itself belongs to OpenCV and is taken as given. */
  datatype Contour = Contour(vertices: seq<Point>, interior: set<Point>)

  /** cv2.pointPolygonTest without distance, against a rectangle:
      1 strictly inside, 0 on an edge, -1 outside. */
  function PointPolygonTest(roi: Rect, p: Point): (t: int)
    ensures t == 1 || t == 0 || t == -1
    ensures t == 1 <==> roi.left < p.x < roi.right && roi.top < p.y < roi.bottom
    ensures t == -1 <==> !(roi.left <= p.x <= roi.right && roi.top <= p.y <= roi.bottom)
  {
    if roi.left < p.x < roi.right && roi.top < p.y < roi.bottom then 1
    else if roi.left <= p.x <= roi.right && roi.top <= p.y <= roi.bottom then 0
    else -1
  }

  /** Number of vertices the source tests: range(0, len(contour) - 1). */
  function TestedCount(c: Contour): (n: nat)
    ensures n < |c.vertices| || |c.vertices| == 0
  {
    if |c.vertices| == 0 then 0 else |c.vertices| - 1
  }

  /** The erase decision: every tested vertex scores exactly 1. */
  predicate ShouldErase(c: Contour, roi: Rect) {
    forall i :: 0 <= i < TestedCount(c) ==> PointPolygonTest(roi, c.vertices[i]) == 1
  }

  /** Python's all(t == 1 for t in tests). */
  predicate AllOnes(tests: seq<int>) {
    forall i :: 0 <= i < |tests| ==> tests[i] == 1
  }

  /** The pixels filled with 0 by one pass over `cs`: the interiors of the
      contours it decides to erase. */
  function ErasedRegion(cs: seq<Contour>, roi: Rect): set<Point>
  {
    if cs == [] then {}
    else
      var last := cs[|cs| - 1];
      ErasedRegion(cs[..|cs| - 1], roi) + (if ShouldErase(last, roi) then last.interior else {})
  }

  /** The value of remove_countors_roi's result. */
  function Suppress(mask: Image, cs: seq<Contour>, roi: Rect): (out: Image)
    requires mask.Valid()
    ensures out.Valid() && out.height == mask.height && out.width == mask.width
  {
    ZeroOut(mask, ErasedRegion(cs, roi))
  }

  // ---------------------------------------------------------------------
  // The decision rule

  /** A contour is erased iff no tested vertex is on the ROI's edge or outside it. */
  lemma EraseIffTestedStrictlyInside(c: Contour, roi: Rect)
    ensures ShouldErase(c, roi) <==>
              forall i :: 0 <= i < TestedCount(c) ==>
                roi.left < c.vertices[i].x < roi.right && roi.top < c.vertices[i].y < roi.bottom
    ensures !ShouldErase(c, roi) <==>
              exists i :: 0 <= i < TestedCount(c) &&
                (PointPolygonTest(roi, c.vertices[i]) == 0 || PointPolygonTest(roi, c.vertices[i]) == -1)
  {
  }

  /** The last vertex is never tested: it does not influence the decision. */
  lemma LastVertexIgnored(vs: seq<Point>, p: Point, q: Point, a: set<Point>, b: set<Point>, roi: Rect)
    ensures ShouldErase(Contour(vs + [p], a), roi) == ShouldErase(Contour(vs + [q], b), roi)
  {
    var cp, cq := Contour(vs + [p], a), Contour(vs + [q], b);
    assert forall i :: 0 <= i < |vs| ==> cp.vertices[i] == vs[i] == cq.vertices[i];
  }

  /** A contour with at most one vertex has no tested vertex and is erased.
      Only the one-vertex case occurs in remove_countors_roi: an empty contour
      never reaches the decision, because np.vstack raises on it first (see the
      precondition of RemoveContoursRoi). */
  lemma ShortContourErased(c: Contour, roi: Rect)
    requires |c.vertices| <= 1
    ensures ShouldErase(c, roi)
  {
  }

  /** A contour whose tested vertices are all strictly inside is erased even
      when its last vertex lies outside the ROI. */
  lemma UntestedLastVertexOutside()
    ensures ShouldErase(Contour([Point(5, 5), Point(20, 20)], {}), Rect(0, 0, 10, 10))
    ensures PointPolygonTest(Rect(0, 0, 10, 10), Point(20, 20)) == -1
  {
  }

  // ---------------------------------------------------------------------
  // Properties of the erased region and of Suppress

  /** A pixel is erased iff some contour of the list is flagged and fills it. */
  lemma {:induction false} ErasedRegionMembers(cs: seq<Contour>, roi: Rect, p: Point)
    ensures p in ErasedRegion(cs, roi) <==>
              exists i :: 0 <= i < |cs| && ShouldErase(cs[i], roi) && p in cs[i].interior
  {
    if cs != [] {
      var init := cs[..|cs| - 1];
      ErasedRegionMembers(init, roi, p);
      if p in ErasedRegion(init, roi) {
        var i :| 0 <= i < |init| && ShouldErase(init[i], roi) && p in init[i].interior;
        assert cs[i] == init[i];
      }
      if exists i :: 0 <= i < |cs| && ShouldErase(cs[i], roi) && p in cs[i].interior {
        var i :| 0 <= i < |cs| && ShouldErase(cs[i], roi) && p in cs[i].interior;
        if i < |init| {
          assert init[i] == cs[i];
        }
      }
    }
  }

  /** Only the contours and the ROI decide what is erased, not their order nor
      repetitions: two lists with the same elements erase the same pixels. */
  lemma SuppressOrderIrrelevant(mask: Image, cs1: seq<Contour>, cs2: seq<Contour>, roi: Rect)
    requires mask.Valid()
    requires forall c :: c in cs1 <==> c in cs2
    ensures Suppress(mask, cs1, roi) == Suppress(mask, cs2, roi)
  {
    forall p
      ensures p in ErasedRegion(cs1, roi) <==> p in ErasedRegion(cs2, roi)
    {
      ErasedRegionMembers(cs1, roi, p);
      ErasedRegionMembers(cs2, roi, p);
      if p in ErasedRegion(cs1, roi) {
        var i :| 0 <= i < |cs1| && ShouldErase(cs1[i], roi) && p in cs1[i].interior;
        assert cs1[i] in cs2;
      }
      if p in ErasedRegion(cs2, roi) {
        var i :| 0 <= i < |cs2| && ShouldErase(cs2[i], roi) && p in cs2[i].interior;
        assert cs2[i] in cs1;
      }
    }
    assert ErasedRegion(cs1, roi) == ErasedRegion(cs2, roi);
  }

  /** Suppression writes only 0: a pixel of the result is 0 inside the
      interior of a flagged contour and bit-identical to the input elsewhere. */
  lemma SuppressPixels(mask: Image, cs: seq<Contour>, roi: Rect)
    requires mask.Valid()
    ensures forall r, c :: 0 <= r < mask.height && 0 <= c < mask.width ==>
              Suppress(mask, cs, roi).At(r, c) ==
                if exists i :: 0 <= i < |cs| && ShouldErase(cs[i], roi) && Point(c, r) in cs[i].interior
                then 0 else mask.At(r, c)
  {
    forall r, c | 0 <= r < mask.height && 0 <= c < mask.width {
      ErasedRegionMembers(cs, roi, Point(c, r));
    }
  }

  /** When no contour is flagged, in particular when there are no contours,
      the mask comes back unchanged. */
  lemma SuppressNothingFlagged(mask: Image, cs: seq<Contour>, roi: Rect)
    requires mask.Valid()
    requires forall i :: 0 <= i < |cs| ==> !ShouldErase(cs[i], roi)
    ensures Suppress(mask, cs, roi) == mask
  {
    forall r, c | 0 <= r < mask.height && 0 <= c < mask.width
      ensures Point(c, r) !in ErasedRegion(cs, roi)
    {
      ErasedRegionMembers(cs, roi, Point(c, r));
    }
    Ext(Suppress(mask, cs, roi), mask);
  }

  /** The foreground only shrinks, by exactly the erased pixels, and a 0/255
      mask stays a 0/255 mask. */
  lemma SuppressShrinksForeground(mask: Image, cs: seq<Contour>, roi: Rect)
    requires mask.Valid()
    ensures Foreground(Suppress(mask, cs, roi)) == Foreground(mask) - ErasedRegion(cs, roi)
    ensures IsBinary(mask) ==> IsBinary(Suppress(mask, cs, roi))
  {
    ZeroOutForeground(mask, ErasedRegion(cs, roi));
  }

  /** Applying the same contours and ROI again changes nothing. */
  lemma SuppressIdempotent(mask: Image, cs: seq<Contour>, roi: Rect)
    requires mask.Valid()
    ensures Suppress(Suppress(mask, cs, roi), cs, roi) == Suppress(mask, cs, roi)
  {
    var e := ErasedRegion(cs, roi);
    ZeroOutTwice(mask, e, e);
    assert e + e == e;
  }

  /** Successive passes with one contour list on different ROIs erase the union
      of the flagged interiors at once. */
  lemma SuppressChain(mask: Image, cs: seq<Contour>, roi1: Rect, roi2: Rect)
    requires mask.Valid()
    ensures Suppress(Suppress(mask, cs, roi1), cs, roi2) ==
              ZeroOut(mask, ErasedRegion(cs, roi1) + ErasedRegion(cs, roi2))
  {
    ZeroOutTwice(mask, ErasedRegion(cs, roi1), ErasedRegion(cs, roi2));
  }

  // ---------------------------------------------------------------------
  // The imperative procedure

  /** The inner loop: the point-polygon test of each tested vertex, in order. */
  method VertexTests(c: Contour, roi: Rect) returns (tests: seq<int>)
    ensures |tests| == TestedCount(c)
    ensures forall i :: 0 <= i < |tests| ==> tests[i] == PointPolygonTest(roi, c.vertices[i])
    ensures AllOnes(tests) <==> ShouldErase(c, roi)
  {
    var contourPoints := |c.vertices| - 1;
    tests := [];
    var i := 0;
    while i < contourPoints
      invariant 0 <= i == |tests| && (i <= contourPoints || i == 0)
      invariant forall k :: 0 <= k < i ==> tests[k] == PointPolygonTest(roi, c.vertices[k])
    {
      tests := tests + [PointPolygonTest(roi, c.vertices[i])];
      i := i + 1;
    }
  }

  /** remove_countors_roi: copy the mask, then fill every contour whose tested
      vertices are all strictly inside `roi` with 0 in the copy. The input mask
      is never written. */
  method RemoveContoursRoi(mask: array2<int>, contours: seq<Contour>, roi: Rect) returns (clean: array2<int>)
    requires forall n :: 0 <= n < |contours| ==> |contours[n].vertices| > 0
    ensures fresh(clean)
    ensures unchanged(mask)
    ensures Snapshot(clean) == Suppress(Snapshot(mask), contours, roi)
  {
    clean := Copy(mask);
    for n := 0 to |contours|
      invariant clean.Length0 == mask.Length0 && clean.Length1 == mask.Length1
      invariant forall r, c :: 0 <= r < mask.Length0 && 0 <= c < mask.Length1 ==>
                  clean[r, c] == if Point(c, r) in ErasedRegion(contours[..n], roi) then 0 else mask[r, c]
    {
      var tests := VertexTests(contours[n], roi);
      if AllOnes(tests) {
        FillZero(clean, contours[n].interior);
      }
      assert contours[..n + 1][..n] == contours[..n];
    }
    assert contours[..|contours|] == contours;
    SnapshotIs(clean, Suppress(Snapshot(mask), contours, roi));
  }
}
