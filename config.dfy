/** Configuration constants of the card monitor (Main.py, configuration section). */
module Config {
  /** RFID tag identifiers are the reader's non-negative integer UIDs. */
  type CardId = nat

  /** The single tag that is treated as authorized. */
  const AuthorizedId: CardId := 1047839255856

  /** Display size of the SH1106 OLED, in pixels. */
  const OledWidth: int := 128
  const OledHeight: int := 64

  /** Delays after a removal, on a millisecond clock (5 s and 6 s). */
  const CaptureDelayMs: int := 5000
  const QrDelayMs: int := 6000
}
