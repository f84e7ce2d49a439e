/** Single-channel images (numpy arrays of shape (height, width)) as values,
    the two numpy slice operations the pipeline uses, and the zero-fill
    that contour suppression performs. */
module Raster {

  /** An OpenCV point: x is the column, y the row. */
  datatype Point = Point(x: int, y: int)

  /** A grayscale image or mask of `height` rows of `width` pixels. */
  datatype Image = Image(height: nat, width: nat, px: seq<seq<int>>)
  {
    predicate Valid() {
      |px| == height && forall r :: 0 <= r < |px| ==> |px[r]| == width
    }

    /** The pixel in row r, column c (0 outside the stored rows). */
    function At(r: int, c: int): int {
      if 0 <= r < |px| && 0 <= c < |px[r]| then px[r][c] else 0
    }
  }

  /** The image of the given shape whose pixel (r, c) is f(r, c). */
  function Tabulate(height: nat, width: nat, f: (int, int) -> int): (img: Image)
    ensures img.Valid() && img.height == height && img.width == width
    ensures forall r, c :: 0 <= r < height && 0 <= c < width ==> img.At(r, c) == f(r, c)
  {
    Image(height, width, seq(height, r => seq(width, c => f(r, c))))
  }

  /** Two well-formed images of one shape that agree on every pixel are equal. */
  lemma {:induction false} Ext(a: Image, b: Image)
    requires a.Valid() && b.Valid() && a.height == b.height && a.width == b.width
    requires forall r, c :: 0 <= r < a.height && 0 <= c < a.width ==> a.At(r, c) == b.At(r, c)
    ensures a == b
  {
    forall r | 0 <= r < a.height
      ensures a.px[r] == b.px[r]
    {
      forall c | 0 <= c < a.width
        ensures a.px[r][c] == b.px[r][c]
      {
        assert a.At(r, c) == b.At(r, c);
      }
    }
  }

  /** A binary mask: every pixel is 0 or 255. */
  predicate IsBinary(img: Image)
    requires img.Valid()
  {
    forall r, c :: 0 <= r < img.height && 0 <= c < img.width ==> img.At(r, c) == 0 || img.At(r, c) == 255
  }

  /** The positions of the non-zero (foreground) pixels. */
  function Foreground(img: Image): set<Point>
    requires img.Valid()
  {
    set r, c | 0 <= r < img.height && 0 <= c < img.width && img.At(r, c) != 0 :: Point(c, r)
  }

  // ---------------------------------------------------------------------
  // numpy slicing a[start:stop] along one axis of length n (start, stop >= 0)

  /** Python clamps a non-negative slice bound to the axis length. */
  function Clamp(k: nat, n: nat): (b: nat)
    ensures b <= n && b <= k && (b == k || b == n)
  {
    if k < n then k else n
  }

  /** Number of indices selected by [start:stop] on an axis of length n. */
  function SliceLen(start: nat, stop: nat, n: nat): (len: nat)
    ensures Clamp(start, n) + len <= n
    ensures start <= stop <= n ==> len == stop - start
  {
    if Clamp(stop, n) <= Clamp(start, n) then 0 else Clamp(stop, n) - Clamp(start, n)
  }

  /** img[top:bottom, left:right]: the sub-image the slice selects. */
  function Window(img: Image, top: nat, bottom: nat, left: nat, right: nat): (w: Image)
    requires img.Valid()
    ensures w.Valid()
    ensures w.height == SliceLen(top, bottom, img.height) && w.width == SliceLen(left, right, img.width)
    ensures forall r, c :: 0 <= r < w.height && 0 <= c < w.width ==>
              w.At(r, c) == img.At(Clamp(top, img.height) + r, Clamp(left, img.width) + c)
  {
    var r0, c0 := Clamp(top, img.height), Clamp(left, img.width);
    Tabulate(SliceLen(top, bottom, img.height), SliceLen(left, right, img.width),
             (r, c) => img.At(r0 + r, c0 + c))
  }

  /** Whether pixel (r, c) of an image of the given shape lies in the slice
      [top:bottom, left:right]. */
  predicate InSlice(r: int, c: int, top: nat, bottom: nat, left: nat, right: nat, height: nat, width: nat) {
    Clamp(top, height) <= r < Clamp(top, height) + SliceLen(top, bottom, height) &&
    Clamp(left, width) <= c < Clamp(left, width) + SliceLen(left, right, width)
  }

  /** dst[top:bottom, left:right] = region, for a region of exactly the slice's shape. */
  function Paste(dst: Image, region: Image, top: nat, bottom: nat, left: nat, right: nat): (out: Image)
    requires dst.Valid() && region.Valid()
    requires region.height == SliceLen(top, bottom, dst.height)
    requires region.width == SliceLen(left, right, dst.width)
    ensures out.Valid() && out.height == dst.height && out.width == dst.width
  {
    var r0, c0 := Clamp(top, dst.height), Clamp(left, dst.width);
    Tabulate(dst.height, dst.width,
             (r, c) => if InSlice(r, c, top, bottom, left, right, dst.height, dst.width)
                       then region.At(r - r0, c - c0) else dst.At(r, c))
  }

  /** Reading back the slice just written gives the pasted region. */
  lemma WindowOfPaste(dst: Image, region: Image, top: nat, bottom: nat, left: nat, right: nat)
    requires dst.Valid() && region.Valid()
    requires region.height == SliceLen(top, bottom, dst.height)
    requires region.width == SliceLen(left, right, dst.width)
    ensures Window(Paste(dst, region, top, bottom, left, right), top, bottom, left, right) == region
  {
    var w := Window(Paste(dst, region, top, bottom, left, right), top, bottom, left, right);
    Ext(w, region);
  }

  /** Writing a slice back into the image it was read from changes nothing. */
  lemma PasteOfWindow(img: Image, top: nat, bottom: nat, left: nat, right: nat)
    requires img.Valid()
    ensures Paste(img, Window(img, top, bottom, left, right), top, bottom, left, right) == img
  {
    Ext(Paste(img, Window(img, top, bottom, left, right), top, bottom, left, right), img);
  }

  /** After dst[slice] = src[slice] (src and dst of one shape), pixels inside the
      slice come from src and all others from dst. */
  lemma PasteWindowPiecewise(src: Image, dst: Image, top: nat, bottom: nat, left: nat, right: nat)
    requires src.Valid() && dst.Valid() && src.height == dst.height && src.width == dst.width
    ensures forall r, c :: 0 <= r < dst.height && 0 <= c < dst.width ==>
              Paste(dst, Window(src, top, bottom, left, right), top, bottom, left, right).At(r, c) ==
                (if InSlice(r, c, top, bottom, left, right, dst.height, dst.width) then src.At(r, c) else dst.At(r, c))
  {
  }

  // ---------------------------------------------------------------------
  // Filling a set of pixels with 0 (cv2.drawContours with color 0, thickness -1)

  /** The image with every pixel whose position is in `region` set to 0. */
  function ZeroOut(img: Image, region: set<Point>): (out: Image)
    requires img.Valid()
    ensures out.Valid() && out.height == img.height && out.width == img.width
  {
    Tabulate(img.height, img.width, (r, c) => if Point(c, r) in region then 0 else img.At(r, c))
  }

  /** Zeroing twice is zeroing the union once. */
  lemma ZeroOutTwice(img: Image, a: set<Point>, b: set<Point>)
    requires img.Valid()
    ensures ZeroOut(ZeroOut(img, a), b) == ZeroOut(img, a + b)
  {
    Ext(ZeroOut(ZeroOut(img, a), b), ZeroOut(img, a + b));
  }

  /** Zeroing removes exactly the region from the foreground. */
  lemma ZeroOutForeground(img: Image, region: set<Point>)
    requires img.Valid()
    ensures Foreground(ZeroOut(img, region)) == Foreground(img) - region
  {
    var out := ZeroOut(img, region);
    forall p | p in Foreground(img) - region
      ensures p in Foreground(out)
    {
      var r, c :| 0 <= r < img.height && 0 <= c < img.width && img.At(r, c) != 0 && p == Point(c, r);
      assert out.At(r, c) != 0;
    }
  }

  // ---------------------------------------------------------------------
  // Arrays: the mutable numpy buffers of the imperative parts

  /** The value of a 2-D array as an image. */
  ghost function Snapshot(a: array2<int>): (img: Image)
    reads a
    ensures img.Valid() && img.height == a.Length0 && img.width == a.Length1
    ensures forall r, c :: 0 <= r < a.Length0 && 0 <= c < a.Length1 ==> img.At(r, c) == a[r, c]
  {
    Image(a.Length0, a.Length1,
          seq(a.Length0, r requires 0 <= r < a.Length0 reads a =>
            seq(a.Length1, c requires 0 <= c < a.Length1 reads a => a[r, c])))
  }

  /** An array equals an image when it has its shape and its pixels. */
  lemma SnapshotIs(a: array2<int>, img: Image)
    requires img.Valid() && img.height == a.Length0 && img.width == a.Length1
    requires forall r, c :: 0 <= r < a.Length0 && 0 <= c < a.Length1 ==> a[r, c] == img.At(r, c)
    ensures Snapshot(a) == img
  {
    Ext(Snapshot(a), img);
  }

  /** np.copy: a fresh array holding the same pixels. */
  method Copy(a: array2<int>) returns (b: array2<int>)
    ensures fresh(b)
    ensures b.Length0 == a.Length0 && b.Length1 == a.Length1
    ensures forall r, c :: 0 <= r < a.Length0 && 0 <= c < a.Length1 ==> b[r, c] == a[r, c]
  {
    b := new int[a.Length0, a.Length1];
    for r := 0 to a.Length0
      invariant forall i, j :: 0 <= i < r && 0 <= j < a.Length1 ==> b[i, j] == a[i, j]
    {
      for c := 0 to a.Length1
        invariant forall i, j :: 0 <= i < r && 0 <= j < a.Length1 ==> b[i, j] == a[i, j]
        invariant forall j :: 0 <= j < c ==> b[r, j] == a[r, j]
      {
        b[r, c] := a[r, c];
      }
    }
  }

  /** In-place fill with 0 of the pixels of `region` that lie in the image. */
  method FillZero(a: array2<int>, region: set<Point>)
    modifies a
    ensures forall r, c :: 0 <= r < a.Length0 && 0 <= c < a.Length1 ==>
              a[r, c] == if Point(c, r) in region then 0 else old(a[r, c])
  {
    for r := 0 to a.Length0
      invariant forall i, j :: 0 <= i < r && 0 <= j < a.Length1 ==>
                  a[i, j] == if Point(j, i) in region then 0 else old(a[i, j])
      invariant forall i, j :: r <= i < a.Length0 && 0 <= j < a.Length1 ==> a[i, j] == old(a[i, j])
    {
      for c := 0 to a.Length1
        invariant forall i, j :: 0 <= i < r && 0 <= j < a.Length1 ==>
                    a[i, j] == if Point(j, i) in region then 0 else old(a[i, j])
        invariant forall j :: 0 <= j < c ==> a[r, j] == if Point(j, r) in region then 0 else old(a[r, j])
        invariant forall i, j :: r <= i < a.Length0 && 0 <= j < a.Length1 && (i > r || j >= c) ==> a[i, j] == old(a[i, j])
      {
        if Point(c, r) in region {
          a[r, c] := 0;
        }
      }
    }
  }
  /** a[top:bottom, left:right] as a fresh array (the pipeline never writes
      through the numpy view, so a copy has the same value). */
  method ExtractWindow(a: array2<int>, top: nat, bottom: nat, left: nat, right: nat) returns (w: array2<int>)
    ensures fresh(w)
    ensures Snapshot(w) == Window(Snapshot(a), top, bottom, left, right)
  {
    var r0, c0 := Clamp(top, a.Length0), Clamp(left, a.Length1);
    w := new int[SliceLen(top, bottom, a.Length0), SliceLen(left, right, a.Length1)];
    for r := 0 to w.Length0
      invariant forall i, j :: 0 <= i < r && 0 <= j < w.Length1 ==> w[i, j] == a[r0 + i, c0 + j]
    {
      for c := 0 to w.Length1
        invariant forall i, j :: 0 <= i < r && 0 <= j < w.Length1 ==> w[i, j] == a[r0 + i, c0 + j]
        invariant forall j :: 0 <= j < c ==> w[r, j] == a[r0 + r, c0 + j]
      {
        w[r, c] := a[r0 + r, c0 + c];
      }
    }
    SnapshotIs(w, Window(Snapshot(a), top, bottom, left, right));
  }

  /** The slice assignment dst[top:bottom, left:right] = region, in place. */
  method PasteWindow(dst: array2<int>, region: array2<int>, top: nat, bottom: nat, left: nat, right: nat)
    requires dst != region
    requires region.Length0 == SliceLen(top, bottom, dst.Length0)
    requires region.Length1 == SliceLen(left, right, dst.Length1)
    modifies dst
    ensures Snapshot(dst) == Paste(old(Snapshot(dst)), Snapshot(region), top, bottom, left, right)
  {
    var r0, c0 := Clamp(top, dst.Length0), Clamp(left, dst.Length1);
    for r := 0 to region.Length0
      invariant forall i, j :: 0 <= i < dst.Length0 && 0 <= j < dst.Length1 ==>
                  dst[i, j] == if r0 <= i < r0 + r && c0 <= j < c0 + region.Length1
                               then region[i - r0, j - c0] else old(dst[i, j])
    {
      for c := 0 to region.Length1
        invariant forall i, j :: 0 <= i < dst.Length0 && 0 <= j < dst.Length1 ==>
                    dst[i, j] == if (r0 <= i < r0 + r && c0 <= j < c0 + region.Length1) || (i == r0 + r && c0 <= j < c0 + c)
                                 then region[i - r0, j - c0] else old(dst[i, j])
      {
        dst[r0 + r, c0 + c] := region[r, c];
      }
    }
    SnapshotIs(dst, Paste(old(Snapshot(dst)), Snapshot(region), top, bottom, left, right));
  }
}
