/** crop_sides_equally: fit a resized VIS mask onto the NIR frame by cropping
    each axis' size difference, half from the leading side and the rest from
    the trailing side. */
module CropSides {
  import opened Raster

  /** The crops (leading, trailing) taken from one axis whose size exceeds the
      NIR frame's by d; Python 2's `/` on these non-negative ints is floor
      division, as Dafny's is. */
  function SplitDifference(d: nat): (crops: (nat, nat))
    ensures crops.0 + crops.1 == d
    ensures crops.0 <= crops.1 <= crops.0 + 1
  {
    if d % 2 == 0 then (d / 2, d / 2) else (d / 2, d / 2 + 1)
  }

  /** mask[y1:final_y - y2, x1:final_x - x2] for the splits of the two axis
      differences. The source does not guard against a mask smaller than the
      NIR frame, so that case is excluded here. */
  function CropSidesEqually(mask: Image, nir: Image): (crop: Image)
    requires mask.Valid()
    requires nir.height <= mask.height && nir.width <= mask.width
    ensures crop.Valid() && crop.height == nir.height && crop.width == nir.width
    ensures forall i, j :: 0 <= i < nir.height && 0 <= j < nir.width ==>
              crop.At(i, j) == mask.At(i + (mask.height - nir.height) / 2, j + (mask.width - nir.width) / 2)
  {
    var (x1, x2) := SplitDifference(mask.width - nir.width);
    var (y1, y2) := SplitDifference(mask.height - nir.height);
    Window(mask, y1, mask.height - y2, x1, mask.width - x2)
  }

  /** A mask already of the NIR frame's shape is returned unchanged. */
  lemma CropSameShapeIdentity(mask: Image, nir: Image)
    requires mask.Valid()
    requires nir.height == mask.height && nir.width == mask.width
    ensures CropSidesEqually(mask, nir) == mask
  {
    Ext(CropSidesEqually(mask, nir), mask);
  }

  /** Cropping keeps a 0/255 mask a 0/255 mask. */
  lemma CropBinary(mask: Image, nir: Image)
    requires mask.Valid() && IsBinary(mask)
    requires nir.height <= mask.height && nir.width <= mask.width
    ensures IsBinary(CropSidesEqually(mask, nir))
  {
  }
}
