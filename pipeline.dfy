/** The mask bookkeeping of the side-view workflow (`main`): the plant window
    that survives the blur filter, the chained cabinet-hardware suppressions,
    and the gate that skips analysis and NIR transfer when no plant is left.
    The plantcv and OpenCV steps in between (thresholds, blurs, fill,
    find_objects, roi_objects, object_composition, dilate, resize) are given
    to these members as their results. */
module Pipeline {
  import opened Raster
  import opened ContourSuppression
  import opened CropSides

  /** The plant window [250:2000, 250:2250] preserved through the blur filter. */
  const PlantTop: nat := 250
  const PlantBottom: nat := 2000
  const PlantLeft: nat := 250
  const PlantRight: nat := 2250

  /** Pixel (r, c) lies in rows 250..1999 and columns 250..2249. */
  predicate InPlantWindow(r: int, c: int) {
    PlantTop <= r < PlantBottom && PlantLeft <= c < PlantRight
  }

  /** The value of the filtered mask after the plant window of the pre-blur
      mask has been written back into it. */
  function RestoredMask(preBlur: Image, filtered: Image): (out: Image)
    requires preBlur.Valid() && filtered.Valid()
    requires preBlur.height == filtered.height && preBlur.width == filtered.width
  {
    Paste(filtered, Window(preBlur, PlantTop, PlantBottom, PlantLeft, PlantRight),
          PlantTop, PlantBottom, PlantLeft, PlantRight)
  }

  /** The restored mask is piecewise: the pre-blur mask inside the plant
      window, the blurred and re-thresholded mask everywhere else; so two 0/255
      masks give a 0/255 mask. */
  lemma RestoredMaskPiecewise(preBlur: Image, filtered: Image)
    requires preBlur.Valid() && filtered.Valid()
    requires preBlur.height == filtered.height && preBlur.width == filtered.width
    ensures RestoredMask(preBlur, filtered).height == filtered.height
    ensures RestoredMask(preBlur, filtered).width == filtered.width
    ensures forall r, c :: 0 <= r < filtered.height && 0 <= c < filtered.width ==>
              RestoredMask(preBlur, filtered).At(r, c) ==
                if InPlantWindow(r, c) then preBlur.At(r, c) else filtered.At(r, c)
    ensures IsBinary(preBlur) && IsBinary(filtered) ==> IsBinary(RestoredMask(preBlur, filtered))
  {
    PasteWindowPiecewise(preBlur, filtered, PlantTop, PlantBottom, PlantLeft, PlantRight);
    forall r, c | 0 <= r < filtered.height && 0 <= c < filtered.width
      ensures InSlice(r, c, PlantTop, PlantBottom, PlantLeft, PlantRight, filtered.height, filtered.width) <==>
              InPlantWindow(r, c)
    {
    }
  }

  /** The filter leaves the plant window as it was before the blur: the
      restored mask reads back exactly the pre-blur window. */
  lemma RestoredWindowIsPreBlur(preBlur: Image, filtered: Image)
    requires preBlur.Valid() && filtered.Valid()
    requires preBlur.height == filtered.height && preBlur.width == filtered.width
    ensures Window(RestoredMask(preBlur, filtered), PlantTop, PlantBottom, PlantLeft, PlantRight) ==
              Window(preBlur, PlantTop, PlantBottom, PlantLeft, PlantRight)
  {
    WindowOfPaste(filtered, Window(preBlur, PlantTop, PlantBottom, PlantLeft, PlantRight),
                  PlantTop, PlantBottom, PlantLeft, PlantRight);
  }

  /** Extract the plant window of the pre-blur mask, then (once the foreign blur
      and threshold have produced `filtered`) write it back in place. */
  method RestorePlantRegion(preBlur: array2<int>, filtered: array2<int>)
    requires preBlur.Length0 == filtered.Length0 && preBlur.Length1 == filtered.Length1
    modifies filtered
    ensures Snapshot(filtered) == RestoredMask(old(Snapshot(preBlur)), old(Snapshot(filtered)))
  {
    var plantRegion := ExtractWindow(preBlur, PlantTop, PlantBottom, PlantLeft, PlantRight);
    PasteWindow(filtered, plantRegion, PlantTop, PlantBottom, PlantLeft, PlantRight);
  }

  /** The three hardware passes of the second round (brass stopper, then the
      two screw holes) reuse one contour list; together they erase the union
      of the three flagged regions, whatever order the passes run in. */
  lemma HardwarePassesErasedUnion(mask: Image, cs: seq<Contour>, stopper: Rect, screw1: Rect, screw2: Rect)
    requires mask.Valid()
    ensures Suppress(Suppress(Suppress(mask, cs, stopper), cs, screw1), cs, screw2) ==
              ZeroOut(mask, ErasedRegion(cs, stopper) + ErasedRegion(cs, screw1) + ErasedRegion(cs, screw2))
    ensures Suppress(Suppress(Suppress(mask, cs, stopper), cs, screw1), cs, screw2) ==
              Suppress(Suppress(Suppress(mask, cs, screw2), cs, screw1), cs, stopper)
  {
    var a, b, c := ErasedRegion(cs, stopper), ErasedRegion(cs, screw1), ErasedRegion(cs, screw2);
    SuppressChain(mask, cs, stopper, screw1);
    ZeroOutTwice(mask, a + b, c);
    SuppressChain(mask, cs, screw2, screw1);
    ZeroOutTwice(mask, c + b, a);
    assert a + b + c == c + b + a;
  }

  /** Lines 195-215: stopper, screw-hole and screw-hole suppression in turn,
      each on the previous pass's result. */
  method SuppressCabinetHardware(filled: array2<int>, contours: seq<Contour>,
                                 stopper: Rect, screw1: Rect, screw2: Rect) returns (out: array2<int>)
    requires forall n :: 0 <= n < |contours| ==> |contours[n].vertices| > 0
    ensures fresh(out)
    ensures unchanged(filled)
    ensures Snapshot(out) ==
              ZeroOut(Snapshot(filled),
                      ErasedRegion(contours, stopper) + ErasedRegion(contours, screw1) + ErasedRegion(contours, screw2))
  {
    var removeStopper := RemoveContoursRoi(filled, contours, stopper);
    var removeScrew := RemoveContoursRoi(removeStopper, contours, screw1);
    out := RemoveContoursRoi(removeScrew, contours, screw2);
    HardwarePassesErasedUnion(Snapshot(filled), contours, stopper, screw1, screw2);
  }

  /** What the workflow does with an image pair once the plant contours are
      selected. */
  datatype PairOutcome = NoPlantFound | NirMask(mask: Image)

  /** Line 234: only with at least one selected contour are the contours
      combined and the plant mask carried to the NIR frame; `toNirScale` stands
      for object_composition, dilate, resize and the re-threshold, and the
      result is cropped to the NIR frame by crop_sides_equally. */
  function TransferToNir(roiContours: seq<Contour>, toNirScale: seq<Contour> -> Image, nir: Image): (r: PairOutcome)
    requires |roiContours| > 0 ==>
               toNirScale(roiContours).Valid() &&
               nir.height <= toNirScale(roiContours).height && nir.width <= toNirScale(roiContours).width
    ensures r.NoPlantFound? <==> |roiContours| == 0
    ensures r.NirMask? ==> r.mask == CropSidesEqually(toNirScale(roiContours), nir)
    ensures r.NirMask? ==> r.mask.Valid() && r.mask.height == nir.height && r.mask.width == nir.width
    ensures r.NirMask? && IsBinary(toNirScale(roiContours)) ==> IsBinary(r.mask)
  {
    if |roiContours| > 0 then
      var bmask := toNirScale(roiContours);
      NirMask(CropSidesEqually(bmask, nir))
    else
      NoPlantFound
  }
}
