/**
 * The shared presence / removal-episode state and the three critical sections that
 * change it while holding the state lock, as pure transitions on a state value.
 *
 * Each transition returns what the source would go on to do (the message to show,
 * whether to spawn the capture thread, whether to spawn the QR thread) instead of
 * doing it.
 */
module Episode {
  import opened Wrappers
  import opened Config

  /** The notification the reader thread shows when a new tag arrives. */
  datatype Message = Authorized | Unauthorized

  /** The text drawn on the display for each message. */
  function MessageText(m: Message): string {
    match m
    case Authorized => "AUTHORIZED"
    case Unauthorized => "UNAUTHORIZED"
  }

  /**
   * The five shared variables: the tracked card, the removal timestamp (milliseconds),
   * whether the removed card was the authorized one, and the two once-per-episode flags.
   */
  datatype State = State(
    currentCard: Option<CardId>,
    lastRemovedTime: Option<int>,
    lastRemovedAuthorized: bool,
    imageCaptured: bool,
    qrDisplayed: bool)

  /** The values the variables hold at start-up. */
  const Initial: State := State(None, None, false, false, false)

  /**
   * The state invariant: while a card is present no removal episode is open; a capture
   * has only been started inside an open episode; and the QR display has only been
   * started for an authorized removal whose capture has also been started.
   */
  predicate Valid(s: State) {
    && (s.currentCard.Some? ==> s.lastRemovedTime.None?)
    && (s.imageCaptured ==> s.lastRemovedTime.Some?)
    && (s.qrDisplayed ==> s.imageCaptured && s.lastRemovedAuthorized)
  }

  /** What one reader tick yields: the new state and the message to display, if any. */
  datatype ReaderOutcome = ReaderOutcome(next: State, message: Option<Message>)

  /** The reader thread's critical section for one non-blocking reading. */
  function ReaderTick(s: State, reading: Option<CardId>, now: int): (r: ReaderOutcome)
    // presence always follows the latest reading
    ensures r.next.currentCard == reading
    // a reading that matches what is tracked (same card, or still no card) does nothing
    ensures reading == s.currentCard ==> r == ReaderOutcome(s, None)
    // a different card arrives: the episode is dropped and a message is chosen
    ensures reading.Some? && reading != s.currentCard ==>
      && r.message == Some(if reading.value == AuthorizedId then Authorized else Unauthorized)
      && r.next.lastRemovedTime.None?
      && !r.next.imageCaptured && !r.next.qrDisplayed
      && r.next.lastRemovedAuthorized == s.lastRemovedAuthorized
    // the tracked card leaves: a removal episode opens at `now`, flags untouched
    ensures reading.None? && s.currentCard.Some? ==>
      && r.message.None?
      && r.next.lastRemovedTime == Some(now)
      && r.next.lastRemovedAuthorized == (s.currentCard.value == AuthorizedId)
      && r.next.imageCaptured == s.imageCaptured
      && r.next.qrDisplayed == s.qrDisplayed
    // the message is shown exactly on arrival, and says AUTHORIZED exactly for the authorized tag
    ensures r.message.Some? <==> reading.Some? && reading != s.currentCard
    ensures r.message == Some(Authorized) <==> reading == Some(AuthorizedId) && reading != s.currentCard
    // the text handed to the display
    ensures r.message.Some? ==>
      MessageText(r.message.value) == if reading == Some(AuthorizedId) then "AUTHORIZED" else "UNAUTHORIZED"
    ensures Valid(s) ==> Valid(r.next)
  {
    match reading
    case Some(id) =>
      if s.currentCard != Some(id) then
        var message := if id == AuthorizedId then Authorized else Unauthorized;
        ReaderOutcome(
          s.(currentCard := Some(id), lastRemovedTime := None, imageCaptured := false, qrDisplayed := false),
          Some(message))
      else
        ReaderOutcome(s, None)
    case None =>
      if s.currentCard.Some? then
        ReaderOutcome(
          s.(lastRemovedTime := Some(now),
             lastRemovedAuthorized := s.currentCard.value == AuthorizedId,
             currentCard := None),
          None)
      else
        ReaderOutcome(s, None)
  }

  /** What one timeout tick yields: the new state and which action threads to spawn. */
  datatype TimeoutOutcome = TimeoutOutcome(next: State, fireCapture: bool, fireQr: bool)

  /** The timeout thread's critical section at clock reading `now`. */
  function TimeoutTick(s: State, now: int): (r: TimeoutOutcome)
    // capture fires exactly when an episode is open, 5 s have passed and it has not fired yet
    ensures r.fireCapture <==>
      s.lastRemovedTime.Some? && now - s.lastRemovedTime.value >= CaptureDelayMs && !s.imageCaptured
    // the QR display fires exactly for an authorized removal, after 6 s, once
    ensures r.fireQr <==>
      && s.lastRemovedTime.Some? && s.lastRemovedAuthorized
      && now - s.lastRemovedTime.value >= QrDelayMs && !s.qrDisplayed
    // presence and the episode itself are left alone
    ensures r.next.currentCard == s.currentCard
    ensures r.next.lastRemovedTime == s.lastRemovedTime
    ensures r.next.lastRemovedAuthorized == s.lastRemovedAuthorized
    // flags only go from false to true, and exactly when their action fires
    ensures r.next.imageCaptured == (s.imageCaptured || r.fireCapture)
    ensures r.next.qrDisplayed == (s.qrDisplayed || r.fireQr)
    // once the QR display has fired the capture has fired too
    ensures r.fireQr ==> r.next.imageCaptured
    ensures Valid(s) ==> Valid(r.next)
  {
    match s.lastRemovedTime
    case None => TimeoutOutcome(s, false, false)
    case Some(removedAt) =>
      var elapsed := now - removedAt;
      var fireCapture := elapsed >= CaptureDelayMs && !s.imageCaptured;
      var fireQr := s.lastRemovedAuthorized && elapsed >= QrDelayMs && !s.qrDisplayed;
      TimeoutOutcome(
        s.(imageCaptured := if fireCapture then true else s.imageCaptured,
           qrDisplayed := if fireQr then true else s.qrDisplayed),
        fireCapture, fireQr)
  }

  /** The critical section at the end of the capture thread: the episode is over. */
  function EndEpisode(s: State): (r: State)
    ensures r.lastRemovedTime.None? && !r.imageCaptured && !r.qrDisplayed
    ensures r.currentCard == s.currentCard && r.lastRemovedAuthorized == s.lastRemovedAuthorized
    // with the episode closed, no timeout tick fires anything until the next removal
    ensures forall now :: !TimeoutTick(r, now).fireCapture && !TimeoutTick(r, now).fireQr
    ensures Valid(s) ==> Valid(r)
  {
    s.(lastRemovedTime := None, imageCaptured := false, qrDisplayed := false)
  }
}
