# RFID presence monitor: removal-episode state machine

This project models the core of a Raspberry Pi card monitor (`Main.py`). A reader
thread polls an RFID reader. When a new tag arrives it shows "AUTHORIZED" or
"UNAUTHORIZED" on an OLED display. When the tag leaves it records the removal time.
A timeout thread watches that timestamp. Five seconds after a removal it starts one
camera capture. Six seconds after the removal of the authorized tag it starts one QR
code display. When the capture thread finishes normally, it closes the removal
*episode*; a capture that raises never reaches that reset.

All shared variables (`current_card`, `last_removed_time`, `last_removed_authorized`,
`image_captured`, `qr_displayed`) are changed only inside three blocks that hold one
lock. Each block is therefore modelled as one atomic transition, and any thread
interleaving is some sequence of them.

- `wrappers.dfy`, `config.dfy`: the `Option` type and the constants. These are the
  authorized id 1047839255856, the 128×64 display, and the 5000 ms and 6000 ms delays.
- `episode.dfy` (module `Episode`): the shared variables as a `State` value, and the
  three critical sections as pure transitions `ReaderTick`, `TimeoutTick` and
  `EndEpisode`. Each one returns what the source goes on to do (the message to show,
  the threads to spawn) instead of doing it. `Valid` is the state invariant: a present
  card means no open episode; a started capture means an open episode; a started QR
  display means an authorized removal whose capture has also started.
- `traces.dfy` (module `Traces`): sequences of those atomic events (reader ticks,
  timeout polls, capture completions). It counts the capture and QR threads they spawn,
  and proves invariance, exactly-once firing per episode, cancellation by re-arrival,
  and that presence follows the latest reading.
- `shared_state.dfy` (module `Monitor`): class `SharedState` with the five variables
  as mutable fields. Its methods carry out the three locked blocks in place, and each
  is proved equal to the matching transition.
- `qr_layout.dfy` (module `QrLayout`): the offsets that centre the QR bitmap on the
  display.

The clock is an integer number of milliseconds, passed to each operation as `now`.
Card ids are unbounded naturals, like the Python integers the reader returns.

## Model

| member | source | states |
|---|---|---|
| Episode.ReaderTick | Main.py:133-151 | The tracked card becomes the reading. A reading equal to the tracked card, or an empty reading with no card tracked, changes nothing and shows nothing. A different card clears the removal time and both flags, leaves the authorization flag alone, and yields AUTHORIZED exactly when it is the authorized id (UNAUTHORIZED otherwise); these are the texts drawn on the display. Removing the tracked card records `now` and whether that card was authorized, and leaves both flags untouched. A message appears exactly on arrival of a different card. The transition preserves the invariant. |
| Episode.TimeoutTick | Main.py:158-168 | Capture fires iff an episode is open, at least 5000 ms have elapsed and capture has not fired. QR fires iff an episode is open, the removed card was authorized, at least 6000 ms have elapsed and QR has not fired. Presence, the removal time and the authorization flag are unchanged. Each flag becomes true exactly when its action fires and never goes back to false. After QR fires, capture has fired too. The invariant is preserved. |
| Episode.EndEpisode | Main.py:120-123 | Clears the removal time and both flags. Keeps the tracked card and the authorization flag. Afterwards no timeout tick fires anything, at any time. Preserves the invariant. |
| Traces.RunKeepsValid | Main.py:120-168 | Any interleaving of reader ticks, timeout polls and capture completions keeps the invariant. |
| Traces.ReachableStatesValid | Main.py:46-50 | From the start-up values, every reachable state is valid. In particular, a present card never has a removal pending. |
| Traces.EpisodeFiresOnce | Main.py:158-168 | Within one open episode (timeout polls and empty readings only), capture fires exactly once if some poll comes 5000 ms after the removal and capture had not fired, and otherwise never. QR fires exactly once if the removed card was authorized, some poll comes 6000 ms later and QR had not fired, and otherwise never. The episode's time, authorization and absent card are kept. |
| Traces.UnauthorizedEpisodeShowsNoQr | Main.py:166-168 | An episode opened by an unauthorized removal never starts the QR display. |
| Traces.RemovalThenPolls | Main.py:146-168 | Removing the tracked card at time t and then polling starts one capture iff some poll is at t+5000 or later. It starts one QR display iff the card was the authorized one and some poll is at t+6000 or later. |
| Traces.NoEpisodeNoFire | Main.py:159-168 | With no episode open and no empty reading to open one, no capture or QR display fires and no episode opens. |
| Traces.ArrivalCancelsEpisode | Main.py:136-145 | A different card arriving (also during an open episode) means no stale capture or QR display fires until the next removal. |
| Traces.PresenceIsLatestReading | Main.py:134-151 | After any interleaving, the tracked card is the reading of the last reader tick. If there was no reader tick, it is the card tracked at the start. |
| Monitor.SharedState.constructor | Main.py:46-50 | The shared variables start with no card, no removal and all flags false, which is a valid state. |
| Monitor.SharedState.OnReading | Main.py:133-151 | Updates the fields in place exactly as `ReaderTick` and returns its message. The card field becomes the reading, and a message is returned exactly on arrival of a different card. The invariant is kept. |
| Monitor.SharedState.OnTimeoutPoll | Main.py:158-168 | Updates only the two flags, exactly as `TimeoutTick`. Returns whether to spawn the capture and QR threads. Flags never go back to false, and the invariant is kept. |
| Monitor.SharedState.CompleteCapture | Main.py:120-123 | Updates only the removal time and the two flags, exactly as `EndEpisode`, and clears them. |
| QrLayout.CenterOffset | Main.py:84-85 | The offset is the floor of half the free space. A fitting extent stays inside with a non-negative offset, and the far margin is at most one pixel wider than the near one. |
| QrLayout.QrPosition | Main.py:83-85 | For a QR bitmap of at most 128×64 pixels, the drawing position keeps it entirely on the display. Left and right margins, and top and bottom margins, differ by at most one pixel. |

## Left out

- Hardware and drivers are not modelled: the MFRC522 reader, the luma I2C/SH1106 canvas drawing, the Picamera2 start/capture/stop, the image directory creation and `GPIO.cleanup` (Main.py:29-41, 57-64, 114-117, 187). They are foreign calls with no logic of their own. The reader's `text` payload is unused by the core and is dropped.
- Threads, the `while True` polling loops, the `time.sleep` delays and the thread spawns are not modelled as such (Main.py:128-132, 152, 164, 168-169, 174-183). Each locked block is one atomic method or transition, an interleaving is a sequence of them, and a spawn is a returned boolean. The 2-second notification that `display_message` shows while still holding the lock (Main.py:139-141) is a timing matter. The model only returns the message.
- QR encoding and imaging with the `qrcode` library and PIL (Main.py:66-79, 86) is not modelled: it is library internals. Only the bitmap's width and height enter the model.
- The model assumes that `display_message` and the camera calls return normally. In the source, the reader block sets `current_card` (Main.py:137) before it calls `display_message` (Main.py:139-141), and it resets the removal time and both flags only afterwards (Main.py:143-145). If the display call raises, the lock is released with a card present while `last_removed_time` and possibly `image_captured` are still set. That state violates `Valid`, so the timeout thread can then start a capture while a card is present. The exception also ends the reader thread. `ReaderTick` and `Traces.ReachableStatesValid` do not cover this half-updated state. Likewise, a `capture_image` that raises in the camera calls (Main.py:114-117) never reaches its reset (Main.py:120-123). The episode then stays open with `image_captured` true until the next arrival. The traces cover this case only because a `CaptureCompleted` event may never happen.
- Reading the log file and the catch-all exception handler of `display_qr` (Main.py:93-103) are left out as I/O.
- The clock is modelled as integer milliseconds, where `time.time()` gives floating-point seconds (Main.py:149, 160). Elapsed times that differ from the 5 s and 6 s thresholds by less than a millisecond are not distinguished. The timestamped capture file name (Main.py:112-113) depends on wall-clock formatting and is left out.
- The capture-completion reset closes whatever episode is open when it runs, including a newer episode that began after a re-arrival while the capture thread was still running. This is how the source sequences it, and the model keeps that behaviour (`EndEpisode` is unconditional).
- Lines 190-379 of Main.py repeat lines 1-189 and are not modelled separately.
