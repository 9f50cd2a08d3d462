/** The older stand-alone compositor (`add_qr_to_image` in the repository's
    top-level qr_utils.py): the marker goes to the bottom-right corner, 20
    pixels in from both edges, and is blended into the page through a
    threshold mask. Index arithmetic follows numpy's slicing, negative
    bounds included. */
module LegacyQrUtils {
  import opened Common

  /** Distance of the marker from the right and bottom edges. */
  const EdgeOffset: nat := 20

  /** numpy/Python normalisation of one slice bound against an axis of
      length len: a negative bound counts from the end, and the result is
      clamped to [0, len]. */
  function SliceBound(i: int, len: nat): (b: nat)
    ensures b <= len
  {
    if i < 0 then (if i + len < 0 then 0 else i + len) else if i > len then len else i
  }

  /** Number of indices that `a[start:stop]` selects on an axis of length len. */
  function SliceLength(start: int, stop: int, len: nat): nat
  {
    var lo, hi := SliceBound(start, len), SliceBound(stop, len);
    if hi < lo then 0 else hi - lo
  }

  /** `cv2.threshold(v, 127, 255, THRESH_BINARY)`. */
  function Threshold(v: Byte): Byte { if v > 127 then 255 else 0 }

  /** `cv2.bitwise_not` on a byte. */
  function BitwiseNot(v: Byte): Byte { 255 - v }

  /** `cv2.bitwise_and(src, src, mask=m)` on one pixel: src where the mask is
      set, 0 elsewhere. */
  function MaskedCopy(src: Byte, m: Byte): Byte { if m != 0 then src else 0 }

  /** `cv2.add` on uint8: saturating addition. */
  function SaturatingAdd(a: Byte, b: Byte): Byte { if a + b > 255 then 255 else a + b }

  /** One pixel of `dst`: the page pixel under the marker's dark modules, the
      marker pixel where the marker is light. */
  function BlendPixel(page: Byte, marker: Byte): (v: Byte)
    ensures v == if marker > 127 then marker else page
  {
    var mask := Threshold(marker);
    SaturatingAdd(MaskedCopy(page, BitwiseNot(mask)), MaskedCopy(marker, mask))
  }

  /** The region of interest `image[y:y+qrH, x:x+qrW]` has the marker's
      shape. */
  predicate RoiMatches(w: nat, h: nat, qrW: nat, qrH: nat)
  {
    var x, y := w - qrW - EdgeOffset, h - qrH - EdgeOffset;
    SliceLength(y, y + qrH, h) == qrH && SliceLength(x, x + qrW, w) == qrW
  }

  /** `add_qr_to_image`. `image` is null when it cannot be read; `detectorOk`
      tells whether constructing the detector, running its detection and
      rendering the marker went through without an exception (the
      detections themselves are unused). The marker is a qrW x qrH raster. */
  method AddQrToImage(image: array2?<Byte>, qr: Grid, qrW: nat, qrH: nat, detectorOk: bool) returns (ok: bool)
    requires IsGrid(qr, qrW, qrH)
    modifies image
    ensures image == null ==> !ok
    ensures image != null ==> (ok <==> detectorOk && RoiMatches(image.Length1, image.Length0, qrW, qrH))
    ensures ok ==>
      var y0 := SliceBound(image.Length0 - qrH - EdgeOffset, image.Length0);
      var x0 := SliceBound(image.Length1 - qrW - EdgeOffset, image.Length1);
      forall r, c :: 0 <= r < image.Length0 && 0 <= c < image.Length1 ==>
        image[r, c] == if InRect(r, c, x0, y0, qrW, qrH) then BlendPixel(old(image[r, c]), qr[r - y0][c - x0])
                       else old(image[r, c])
    ensures image != null && !ok ==> unchanged(image)
  {
    if image == null {
      return false;
    }
    if !detectorOk {
      return false;
    }
    var h, w := image.Length0, image.Length1;
    var x := w - qrW - EdgeOffset;
    var y := h - qrH - EdgeOffset;
    if !(SliceLength(y, y + qrH, h) == qrH && SliceLength(x, x + qrW, w) == qrW) {
      return false;
    }
    var y0, x0 := SliceBound(y, h), SliceBound(x, w);
    var r := y0;
    while r < y0 + qrH
      invariant y0 <= r <= y0 + qrH
      invariant forall i, j :: 0 <= i < h && 0 <= j < w ==>
        image[i, j] == if y0 <= i < r && x0 <= j < x0 + qrW then BlendPixel(old(image[i, j]), qr[i - y0][j - x0])
                       else old(image[i, j])
    {
      var c := x0;
      while c < x0 + qrW
        invariant x0 <= c <= x0 + qrW
        invariant forall i, j :: 0 <= i < h && 0 <= j < w ==>
          image[i, j] == if (y0 <= i < r && x0 <= j < x0 + qrW) || (i == r && x0 <= j < c)
                         then BlendPixel(old(image[i, j]), qr[i - y0][j - x0])
                         else old(image[i, j])
      {
        image[r, c] := BlendPixel(image[r, c], qr[r - y0][c - x0]);
        c := c + 1;
      }
      r := r + 1;
    }
    ok := true;
  }

  /** For a marker at least 20 pixels on a side, the slice along one axis
      has the marker's extent exactly when the axis is at least the marker
      plus the offset long, and then starts at len - q - 20 with no
      wrap-around. */
  lemma SliceFitsIff(len: nat, q: nat)
    requires q >= EdgeOffset
    ensures SliceLength(len - q - EdgeOffset, len - EdgeOffset, len) == q <==> len >= q + EdgeOffset
    ensures len >= q + EdgeOffset ==> SliceBound(len - q - EdgeOffset, len) == len - q - EdgeOffset
  {
  }

  /** The composite happens exactly on pages at least the marker plus 20
      pixels wide and high, at (w - qrW - 20, h - qrH - 20). */
  lemma RoiMatchesIff(w: nat, h: nat, qrW: nat, qrH: nat)
    requires qrW >= EdgeOffset && qrH >= EdgeOffset
    ensures RoiMatches(w, h, qrW, qrH) <==> w >= qrW + EdgeOffset && h >= qrH + EdgeOffset
    ensures RoiMatches(w, h, qrW, qrH) ==>
      SliceBound(w - qrW - EdgeOffset, w) == w - qrW - EdgeOffset &&
      SliceBound(h - qrH - EdgeOffset, h) == h - qrH - EdgeOffset
  {
    SliceFitsIff(w, qrW);
    SliceFitsIff(h, qrH);
  }

  /** Below 20 pixels the iff fails: a 1-pixel-high marker on a 15-pixel-high
      page gives y = -6, and `image[-6:-5]` selects row 9, so the shape test
      passes although the page is lower than marker plus offset. */
  lemma TinyMarkerWrapsAround()
    ensures SliceLength(15 - 1 - EdgeOffset, 15 - 1 - EdgeOffset + 1, 15) == 1
    ensures SliceBound(15 - 1 - EdgeOffset, 15) == 9
  {
  }
}
