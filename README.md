# Mask bookkeeping of the TERRA-REF LT2 side-view workflow

This project models in Dafny the part of `scripts/terra_lt2_tv_z1000.py` that works on
binary masks directly rather than through plantcv or OpenCV. It proves properties of that model.

- **`crop_sides_equally`** fits the resized VIS plant mask onto the NIR frame. It takes each
  axis's size difference `d` and crops `d/2` (floor) from the leading side and `d/2 + d%2`
  from the trailing side (module `CropSides`, pure functions).
- **`remove_countors_roi`** copies the mask. It then fills with 0, in the copy, every contour
  whose tested vertices all score 1 ("strictly inside") in the point-polygon test against
  the ROI rectangle (module `ContourSuppression`). This part is imperative:
  - `np.copy` is `Raster.Copy`, over an `array2<int>`.
  - The inner loop that builds `tests` is `VertexTests`.
  - The `drawContours` fill is `Raster.FillZero`.
  - The value of the result is the function `Suppress`.
- **`main`'s bookkeeping** (module `Pipeline`):
  - The window `[250:2000, 250:2250]` of the pre-blur mask is saved and written back into
    the blurred and re-thresholded mask (numpy slice read and slice assignment, with
    Python's bound clamping).
  - The second round runs the stopper and two screw-hole suppressions in turn over one
    contour list.
  - The gate `len(roi_contours) > 0` decides whether the plant mask is carried to the NIR
    frame.

Images are values of `Raster.Image` (height, width, rows of pixels). The mutable numpy
buffers are `array2<int>`, tied to their value by `Raster.Snapshot`. A point is
`Point(x, y)`, as in OpenCV: x is the column and y is the row.

Two behaviours of the code that the model keeps as written:

- `crop_sides_equally` (lines 35-50) has no guard for a negative size difference, that is,
  for a mask smaller than the NIR image on some axis. The model makes
  `nir.height <= mask.height && nir.width <= mask.width` a precondition.
- The comment at line 69 ("Remove contours completely contained within a region of
  interest") and the comment at line 88 ("all the contour vertices are in the ROI") promise
  that every vertex is tested. The loop at line 80 runs over `range(0, len(contour) - 1)`,
  so the last vertex is never tested, and a single-vertex contour is erased whatever the
  ROI. The model keeps that behaviour (`TestedCount`, `LastVertexIgnored`,
  `UntestedLastVertexOutside`).

## Model

| member | source | states |
|---|---|---|
| CropSides.SplitDifference | scripts/terra_lt2_tv_z1000.py:35-49 | the leading and trailing crops of an axis difference d >= 0 add up to d, and the trailing crop is never smaller than the leading one and at most one larger |
| CropSides.CropSidesEqually | scripts/terra_lt2_tv_z1000.py:28-57 | when the mask is at least as large as the NIR image on both axes, the crop has exactly the NIR image's height and width, and crop pixel (i, j) is mask pixel (i + dy/2, j + dx/2) |
| CropSides.CropSameShapeIdentity | scripts/terra_lt2_tv_z1000.py:50 | a mask that already has the NIR image's shape (both differences zero) is returned unchanged |
| CropSides.CropBinary | scripts/terra_lt2_tv_z1000.py:50 | cropping a 0/255 mask gives a 0/255 mask |
| ContourSuppression.PointPolygonTest | scripts/terra_lt2_tv_z1000.py:81-85 | the test against the ROI rectangle yields only 1, 0 or -1: 1 exactly when the point is strictly inside, -1 exactly when it is outside the closed rectangle, otherwise 0 |
| ContourSuppression.VertexTests | scripts/terra_lt2_tv_z1000.py:75-87 | `tests` holds one result per tested vertex (len - 1 of them, none for an empty contour), in vertex order, and all(t == 1) holds exactly when the contour is flagged for erasure |
| ContourSuppression.EraseIffTestedStrictlyInside | scripts/terra_lt2_tv_z1000.py:85-89 | a contour is erased iff every tested vertex is strictly inside the ROI; it is kept iff some tested vertex scores 0 (on the edge) or -1 (outside) |
| ContourSuppression.LastVertexIgnored | scripts/terra_lt2_tv_z1000.py:75-80 | the decision is the same whatever the last vertex is, because that vertex is never tested |
| ContourSuppression.ShortContourErased | scripts/terra_lt2_tv_z1000.py:75-89 | a contour with exactly one vertex has no tested vertex, so it is erased vacuously (an empty contour never reaches the decision: `np.vstack` raises first, see RemoveContoursRoi) |
| ContourSuppression.UntestedLastVertexOutside | scripts/terra_lt2_tv_z1000.py:80-89 | a two-vertex contour whose last vertex lies outside the ROI is still erased |
| ContourSuppression.ErasedRegionMembers | scripts/terra_lt2_tv_z1000.py:73-92 | a pixel is zeroed by one pass iff some contour of the list is flagged and its fill covers that pixel |
| ContourSuppression.RemoveContoursRoi | scripts/terra_lt2_tv_z1000.py:70-98 | returns a fresh array and leaves the input mask unchanged; the result is the input with the fills of the flagged contours set to 0 |
| ContourSuppression.SuppressPixels | scripts/terra_lt2_tv_z1000.py:89-92 | suppression writes only 0: a pixel is 0 where a flagged contour's fill covers it and is bit-identical to the input everywhere else |
| ContourSuppression.SuppressNothingFlagged | scripts/terra_lt2_tv_z1000.py:89-92 | with no flagged contour (or no contour at all) the mask is returned unchanged |
| ContourSuppression.SuppressShrinksForeground | scripts/terra_lt2_tv_z1000.py:91 | the foreground of the result is the input's foreground minus the erased pixels, so a 0/255 mask stays 0/255 |
| ContourSuppression.SuppressIdempotent | scripts/terra_lt2_tv_z1000.py:85-91 | suppressing again with the same contours and ROI changes nothing |
| ContourSuppression.SuppressOrderIrrelevant | scripts/terra_lt2_tv_z1000.py:73-91 | two contour lists with the same elements, in any order and with any repetitions, give the same result |
| ContourSuppression.SuppressChain | scripts/terra_lt2_tv_z1000.py:195-206 | two successive passes with one contour list on two ROIs zero the union of the two erased regions in one step |
| Raster.Copy | scripts/terra_lt2_tv_z1000.py:71 | np.copy gives a fresh array of the same shape and pixels |
| Raster.FillZero | scripts/terra_lt2_tv_z1000.py:91 | filling a contour sets the pixels of its fill to 0 in place and leaves every other pixel as it was |
| Raster.ExtractWindow | scripts/terra_lt2_tv_z1000.py:121 | the extracted plant region is the numpy slice [250:2000, 250:2250] of the mask, with bounds clamped to the image |
| Raster.PasteWindow | scripts/terra_lt2_tv_z1000.py:135 | the slice assignment overwrites exactly the sliced pixels with the region and keeps all other pixels |
| Raster.WindowOfPaste | scripts/terra_lt2_tv_z1000.py:135 | reading back a slice that was just assigned gives the assigned region |
| Raster.PasteOfWindow | scripts/terra_lt2_tv_z1000.py:121 | assigning a slice of an image back to the same place leaves the image unchanged |
| Pipeline.RestoredMaskPiecewise | scripts/terra_lt2_tv_z1000.py:120-135 | after the paste, pixels in rows 250..1999 and columns 250..2249 equal the pre-blur mask and all others equal the blurred, re-thresholded mask; two 0/255 masks give a 0/255 mask |
| Pipeline.RestoredWindowIsPreBlur | scripts/terra_lt2_tv_z1000.py:160-175 | the plant window of the restored mask equals the plant window of the pre-blur mask |
| Pipeline.RestorePlantRegion | scripts/terra_lt2_tv_z1000.py:160-177 | the filtered mask, updated in place, becomes the piecewise composite of the pre-blur window and its own old pixels |
| Pipeline.HardwarePassesErasedUnion | scripts/terra_lt2_tv_z1000.py:195-215 | the stopper, screw and screw passes over one contour list equal a single zeroing of the union of the three erased regions, and running them in the reverse order gives the same mask |
| Pipeline.SuppressCabinetHardware | scripts/terra_lt2_tv_z1000.py:190-215 | the chained suppressions return a fresh mask, leave their input unchanged, and zero exactly the union of the three flagged regions |
| Pipeline.TransferToNir | scripts/terra_lt2_tv_z1000.py:233-285 | no plant is reported exactly when no contour was selected; otherwise the NIR mask is the crop of the rescaled plant mask, has the NIR image's shape, and is 0/255 when that mask is |

## Left out

- Argument parsing (`options`), debug printing and plotting, and the `device` counter exist
  only for the command line and for numbering debug files.
- Writing the result and co-result files is I/O.
- The plantcv and OpenCV calls are library code whose bodies are not part of this model.
  These are `readimage`, `rgb2gray_lab`, `binary_threshold`, `gaussian_blur`, `median_blur`,
  `logical_or`, `fill`, `find_objects`, `define_roi`, `roi_objects`, `object_composition`,
  `analyze_*`, `get_nir`, `dilate`, `resize`, `crop_position_mask` and `cv2.imread`. Their
  results are parameters of the modelled members:
  - the blurred, re-thresholded mask of `RestorePlantRegion`;
  - the contour list and the ROI rectangles of `RemoveContoursRoi` and
    `SuppressCabinetHardware`;
  - the selected contours, and the function `toNirScale` standing for composition, dilation,
    resize and re-threshold, in `TransferToNir`.
- `define_roi` turns the adjustment offsets (for example x_adj=1480, y_adj=850, w_adj=-870,
  h_adj=-1075 for the stopper) into a rectangle. That conversion is library code, so an ROI
  enters the model as its rectangle's corner coordinates (`Rect`).
- `cv2.pointPolygonTest` is modelled for a rectangular ROI only, which is the only shape the
  workflow uses.
- The `cv2.drawContours` fill is an abstract pixel set carried by each contour
  (`Contour.interior`). Rasterising a polygon is not modelled. `FillZero` visits the whole
  image and zeroes the pixels in that set; OpenCV visits only the polygon.
- The first-round stopper suppression (lines 139-150) is one call of `RemoveContoursRoi`
  with no extra logic, so it has no member of its own.
- `conv_ratio` is floating-point arithmetic on fixed constants.
- `crop_sides_equally` with a mask smaller than the NIR frame on some axis is excluded by
  its precondition, because the source does not handle that case.
- Raster.ExtractWindow: returns a fresh copy, while lines 121 and 162 take a numpy view of
  `green_thresh` and `green_merged`. Nothing writes to either array before the pastes at
  lines 135 and 175, so the copy has the same value as the view. Aliasing through the view
  is not modelled.
- Raster.PasteWindow: requires the region to have exactly the slice's shape. numpy would
  also broadcast some smaller shapes, but the workflow only pastes a window of a mask of the
  same shape.
- ContourSuppression.RemoveContoursRoi: requires every contour to have at least one vertex,
  since `np.vstack` raises on an empty contour. OpenCV never returns an empty contour.
- Pixel values are unbounded integers. The uint8 range is not modelled, because suppression
  and pasting only copy pixels or write 0.
