/** The in-place compositing step of `add_qr_to_image`: a white backing patch
    and then the marker raster are pasted onto the page at the chosen slot.
    Pages are single-channel `array2<Byte>` rasters indexed [row, column]. */
module Compositor {
  import opened Common

  function Max(a: int, b: int): int { if a < b then b else a }
  function Min(a: int, b: int): int { if a < b then a else b }

  /** PIL's `Image.paste` of an opaque w x h patch with its top-left corner at
      (x, y): the part of the patch that lies on the image replaces the
      pixels under it, the part that does not is clipped, and every other
      pixel keeps its value. */
  method Paste(img: array2<Byte>, patch: Grid, w: nat, h: nat, x: int, y: int)
    requires IsGrid(patch, w, h)
    modifies img
    ensures forall r, c :: 0 <= r < img.Length0 && 0 <= c < img.Length1 ==>
      img[r, c] == if InRect(r, c, x, y, w, h) then patch[r - y][c - x] else old(img[r, c])
  {
    var r0, r1 := Max(0, y), Min(img.Length0, y + h);
    var c0, c1 := Max(0, x), Min(img.Length1, x + w);
    var r := r0;
    while r < r1
      invariant r0 <= r
      invariant r <= r1 || r == r0
      invariant forall i, j :: 0 <= i < img.Length0 && 0 <= j < img.Length1 ==>
        img[i, j] == if r0 <= i < r && c0 <= j < c1 then patch[i - y][j - x] else old(img[i, j])
    {
      var c := c0;
      while c < c1
        invariant c0 <= c
        invariant c <= c1 || c == c0
        invariant forall i, j :: 0 <= i < img.Length0 && 0 <= j < img.Length1 ==>
          img[i, j] == if (r0 <= i < r && c0 <= j < c1) || (i == r && c0 <= j < c) then patch[i - y][j - x] else old(img[i, j])
      {
        img[r, c] := patch[r - y][c - x];
        c := c + 1;
      }
      r := r + 1;
    }
  }

  /** The two `paste` calls of `add_qr_to_image`: the white 150 x 150 patch
      and then the 150 x 150 marker raster at (x, y). The marker covers the
      whole patch, so inside the slot, where it lies on the page, the page
      shows the marker; outside the slot nothing changes. */
  method StampMarker(img: array2<Byte>, qr: Grid, x: int, y: int)
    requires IsGrid(qr, QrSize, QrSize)
    modifies img
    ensures forall r, c :: 0 <= r < img.Length0 && 0 <= c < img.Length1 ==>
      img[r, c] == if InRect(r, c, x, y, QrSize, QrSize) then qr[r - y][c - x] else old(img[r, c])
  {
    Paste(img, Filled(QrSize, QrSize, White), QrSize, QrSize, x, y);
    Paste(img, qr, QrSize, QrSize, x, y);
  }
}
