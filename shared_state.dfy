/**
 * The module-level shared variables of the monitor and the three blocks that update
 * them in place under the state lock. Each method is one whole critical section, so
 * concurrent threads are modelled by calling the methods in any order.
 */
module Monitor {
  import opened Wrappers
  import opened Config
  import opened Episode

  class SharedState {
    var currentCard: Option<CardId>
    var lastRemovedTime: Option<int>
    var lastRemovedAuthorized: bool
    var imageCaptured: bool
    var qrDisplayed: bool

    /** The variables as one state value. */
    function Snapshot(): State
      reads this
    {
      State(currentCard, lastRemovedTime, lastRemovedAuthorized, imageCaptured, qrDisplayed)
    }

    ghost predicate Valid()
      reads this
    {
      Episode.Valid(Snapshot())
    }

    /** The start-up values of the shared variables. */
    constructor ()
      ensures Snapshot() == Initial
      ensures Valid()
    {
      currentCard := None;
      lastRemovedTime := None;
      lastRemovedAuthorized := false;
      imageCaptured := false;
      qrDisplayed := false;
    }

    /**
     * The reader thread's locked block for one non-blocking reading; returns the
     * message to display instead of displaying it.
     */
    method OnReading(reading: Option<CardId>, now: int) returns (message: Option<Message>)
      requires Valid()
      modifies this
      ensures Valid()
      ensures Snapshot() == ReaderTick(old(Snapshot()), reading, now).next
      ensures message == ReaderTick(old(Snapshot()), reading, now).message
      ensures currentCard == reading
      ensures message.Some? <==> reading.Some? && reading != old(currentCard)
    {
      message := None;
      if reading.Some? {
        var id := reading.value;
        if currentCard != Some(id) {
          currentCard := Some(id);
          if id == AuthorizedId {
            message := Some(Authorized);
          } else {
            message := Some(Unauthorized);
          }
          lastRemovedTime := None;
          imageCaptured := false;
          qrDisplayed := false;
        }
      } else {
        if currentCard.Some? {
          lastRemovedTime := Some(now);
          lastRemovedAuthorized := currentCard.value == AuthorizedId;
          currentCard := None;
        }
      }
    }

    /**
     * The timeout thread's locked block at clock reading `now`; returns whether to
     * spawn the capture thread and the QR display thread.
     */
    method OnTimeoutPoll(now: int) returns (fireCapture: bool, fireQr: bool)
      requires Valid()
      modifies this`imageCaptured, this`qrDisplayed
      ensures Valid()
      ensures Snapshot() == TimeoutTick(old(Snapshot()), now).next
      ensures fireCapture == TimeoutTick(old(Snapshot()), now).fireCapture
      ensures fireQr == TimeoutTick(old(Snapshot()), now).fireQr
      ensures old(imageCaptured) ==> imageCaptured
      ensures old(qrDisplayed) ==> qrDisplayed
    {
      fireCapture, fireQr := false, false;
      if lastRemovedTime.Some? {
        var elapsed := now - lastRemovedTime.value;
        if elapsed >= CaptureDelayMs && !imageCaptured {
          imageCaptured := true;
          fireCapture := true;
        }
        if lastRemovedAuthorized && elapsed >= QrDelayMs && !qrDisplayed {
          qrDisplayed := true;
          fireQr := true;
        }
      }
    }

    /** The capture thread's final locked block: the removal episode is over. */
    method CompleteCapture()
      requires Valid()
      modifies this`lastRemovedTime, this`imageCaptured, this`qrDisplayed
      ensures Valid()
      ensures Snapshot() == EndEpisode(old(Snapshot()))
      ensures lastRemovedTime.None? && !imageCaptured && !qrDisplayed
    {
      lastRemovedTime := None;
      imageCaptured := false;
      qrDisplayed := false;
    }
  }
}
