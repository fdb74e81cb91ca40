/** Placement of the QR bitmap at its native resolution, centred on the OLED. */
module QrLayout {
  import opened Config

  /**
   * Offset that centres an extent of `inner` pixels in `outer` pixels, rounding down
   * (floor division by 2; when the image is larger than the display it is negative).
   */
  function CenterOffset(outer: int, inner: int): (r: int)
    // r is the floor of the half of the free space
    ensures 2 * r <= outer - inner < 2 * r + 2
    // an extent that fits stays inside, with the far margin at most one pixel wider
    ensures inner <= outer ==> 0 <= r && r + inner <= outer
    ensures r <= outer - inner - r <= r + 1
  {
    (outer - inner) / 2
  }

  /** Top-left corner at which a `width` by `height` QR bitmap is drawn. */
  function QrPosition(width: nat, height: nat): (p: (int, int))
    ensures width <= OledWidth ==> 0 <= p.0 && p.0 + width <= OledWidth
    ensures height <= OledHeight ==> 0 <= p.1 && p.1 + height <= OledHeight
    ensures p.0 <= OledWidth - width - p.0 <= p.0 + 1
    ensures p.1 <= OledHeight - height - p.1 <= p.1 + 1
  {
    (CenterOffset(OledWidth, width), CenterOffset(OledHeight, height))
  }
}
