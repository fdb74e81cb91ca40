/**
 * Interleavings of the three critical sections. Each section runs entirely under the
 * one state lock, so any concurrent execution of the reader thread, the timeout thread
 * and the capture threads is some sequence of these atomic events.
 */
module Traces {
  import opened Wrappers
  import opened Config
  import opened Episode

  datatype Event =
    | Reading(reading: Option<CardId>, now: int)  // one reader tick
    | TimeoutPoll(now: int)                       // one timeout tick
    | CaptureCompleted                            // the reset at the end of a capture thread

  datatype StepOutcome = StepOutcome(next: State, message: Option<Message>, fireCapture: bool, fireQr: bool)

  function Step(s: State, e: Event): StepOutcome {
    match e
    case Reading(reading, now) =>
      var r := ReaderTick(s, reading, now);
      StepOutcome(r.next, r.message, false, false)
    case TimeoutPoll(now) =>
      var r := TimeoutTick(s, now);
      StepOutcome(r.next, None, r.fireCapture, r.fireQr)
    case CaptureCompleted =>
      StepOutcome(EndEpisode(s), None, false, false)
  }

  /** The state after running the events in order. */
  function Run(s: State, es: seq<Event>): State
    decreases |es|
  {
    if es == [] then s else Run(Step(s, es[0]).next, es[1..])
  }

  /** How many capture threads the events spawn. */
  function Captures(s: State, es: seq<Event>): nat
    decreases |es|
  {
    if es == [] then 0
    else (if Step(s, es[0]).fireCapture then 1 else 0) + Captures(Step(s, es[0]).next, es[1..])
  }

  /** How many QR display threads the events spawn. */
  function QrShows(s: State, es: seq<Event>): nat
    decreases |es|
  {
    if es == [] then 0
    else (if Step(s, es[0]).fireQr then 1 else 0) + QrShows(Step(s, es[0]).next, es[1..])
  }

  /** Events that cannot close or replace an open episode: timeout polls and empty readings. */
  predicate KeepsEpisode(e: Event) {
    e.TimeoutPoll? || (e.Reading? && e.reading.None?)
  }

  /** Events that cannot open an episode: anything but an empty reading. */
  predicate OpensNoEpisode(e: Event) {
    !(e.Reading? && e.reading.None?)
  }

  /** Some timeout poll among the events happens at least `delay` after `removedAt`. */
  predicate PolledAfter(es: seq<Event>, removedAt: int, delay: int) {
    exists i :: 0 <= i < |es| && es[i].TimeoutPoll? && es[i].now - removedAt >= delay
  }

  lemma PolledAfterCons(es: seq<Event>, removedAt: int, delay: int)
    requires es != []
    ensures PolledAfter(es, removedAt, delay) <==>
      (es[0].TimeoutPoll? && es[0].now - removedAt >= delay) || PolledAfter(es[1..], removedAt, delay)
  {
  }

  /** The invariant holds in every state reachable by any interleaving. */
  lemma {:induction false} RunKeepsValid(s: State, es: seq<Event>)
    requires Valid(s)
    ensures Valid(Run(s, es))
    decreases |es|
  {
    if es != [] {
      RunKeepsValid(Step(s, es[0]).next, es[1..]);
    }
  }

  /**
   * From start-up, whatever the interleaving, every state is valid. The second
   * postcondition is the first conjunct of `Valid`, restated as a named corollary:
   * a present card never has a removal pending.
   */
  lemma ReachableStatesValid(es: seq<Event>)
    ensures Valid(Run(Initial, es))
    ensures Run(Initial, es).currentCard.Some? ==> Run(Initial, es).lastRemovedTime.None?
  {
    RunKeepsValid(Initial, es);
  }

  /**
   * Within one open episode (only timeout polls and empty readings happen) the capture
   * fires exactly once if some poll comes 5 s after the removal and it has not fired
   * yet, and never otherwise; the QR display likewise, after 6 s and only when the
   * removed card was authorized.
   */
  lemma {:induction false} EpisodeFiresOnce(s: State, es: seq<Event>, removedAt: int)
    requires Valid(s) && s.lastRemovedTime == Some(removedAt)
    requires forall i :: 0 <= i < |es| ==> KeepsEpisode(es[i])
    ensures Captures(s, es) == if !s.imageCaptured && PolledAfter(es, removedAt, CaptureDelayMs) then 1 else 0
    ensures QrShows(s, es) ==
      if !s.qrDisplayed && s.lastRemovedAuthorized && PolledAfter(es, removedAt, QrDelayMs) then 1 else 0
    ensures Run(s, es).currentCard.None?
    ensures Run(s, es).lastRemovedTime == Some(removedAt)
    ensures Run(s, es).lastRemovedAuthorized == s.lastRemovedAuthorized
    ensures Run(s, es).imageCaptured == (s.imageCaptured || PolledAfter(es, removedAt, CaptureDelayMs))
    ensures Run(s, es).qrDisplayed ==
      (s.qrDisplayed || (s.lastRemovedAuthorized && PolledAfter(es, removedAt, QrDelayMs)))
    decreases |es|
  {
    if es != [] {
      var next := Step(s, es[0]).next;
      assert KeepsEpisode(es[0]);
      EpisodeFiresOnce(next, es[1..], removedAt);
      PolledAfterCons(es, removedAt, CaptureDelayMs);
      PolledAfterCons(es, removedAt, QrDelayMs);
    }
  }

  /** An episode opened by removing an unauthorized card never shows the QR code. */
  lemma UnauthorizedEpisodeShowsNoQr(s: State, es: seq<Event>)
    requires Valid(s) && s.lastRemovedTime.Some? && !s.lastRemovedAuthorized
    requires forall i :: 0 <= i < |es| ==> KeepsEpisode(es[i])
    ensures QrShows(s, es) == 0
  {
    EpisodeFiresOnce(s, es, s.lastRemovedTime.value);
  }

  /**
   * End to end: removing the tracked card at `removedAt` and then polling starts the
   * capture exactly once if a poll comes 5 s later, and the QR display exactly once
   * if the card was the authorized one and a poll comes 6 s later.
   */
  lemma RemovalThenPolls(s: State, removedAt: int, es: seq<Event>)
    requires Valid(s) && s.currentCard.Some?
    requires forall i :: 0 <= i < |es| ==> KeepsEpisode(es[i])
    ensures Captures(s, [Reading(None, removedAt)] + es) ==
      if PolledAfter(es, removedAt, CaptureDelayMs) then 1 else 0
    ensures QrShows(s, [Reading(None, removedAt)] + es) ==
      if s.currentCard.value == AuthorizedId && PolledAfter(es, removedAt, QrDelayMs) then 1 else 0
  {
    var all := [Reading(None, removedAt)] + es;
    assert all[1..] == es;
    var afterRemoval := Step(s, all[0]).next;
    EpisodeFiresOnce(afterRemoval, es, removedAt);
  }

  /** Without an empty reading no episode opens, so nothing fires. */
  lemma {:induction false} NoEpisodeNoFire(s: State, es: seq<Event>)
    requires s.lastRemovedTime.None?
    requires forall i :: 0 <= i < |es| ==> OpensNoEpisode(es[i])
    ensures Captures(s, es) == 0 && QrShows(s, es) == 0
    ensures Run(s, es).lastRemovedTime.None?
    decreases |es|
  {
    if es != [] {
      assert OpensNoEpisode(es[0]);
      NoEpisodeNoFire(Step(s, es[0]).next, es[1..]);
    }
  }

  /**
   * A card arriving while an episode is open cancels it: until the next removal no
   * stale capture or QR display fires, however many polls and resets follow.
   */
  lemma ArrivalCancelsEpisode(s: State, id: CardId, now: int, es: seq<Event>)
    requires s.currentCard != Some(id)
    requires forall i :: 0 <= i < |es| ==> OpensNoEpisode(es[i])
    ensures Captures(s, [Reading(Some(id), now)] + es) == 0
    ensures QrShows(s, [Reading(Some(id), now)] + es) == 0
  {
    var all := [Reading(Some(id), now)] + es;
    assert all[1..] == es;
    NoEpisodeNoFire(Step(s, all[0]).next, es);
  }

  /** Index of a reader tick after which no further reader tick happens. */
  predicate IsLastReading(es: seq<Event>, j: int) {
    0 <= j < |es| && es[j].Reading? && forall k :: j < k < |es| ==> !es[k].Reading?
  }

  /**
   * The tracked card is always the latest reading: the reading of the last reader tick,
   * or the card tracked at the start when there was no reader tick.
   */
  lemma {:induction false} PresenceIsLatestReading(s: State, es: seq<Event>)
    ensures forall j :: IsLastReading(es, j) ==> Run(s, es).currentCard == es[j].reading
    ensures (forall k :: 0 <= k < |es| ==> !es[k].Reading?) ==> Run(s, es).currentCard == s.currentCard
    decreases |es|
  {
    if es != [] {
      var next := Step(s, es[0]).next;
      var rest := es[1..];
      PresenceIsLatestReading(next, rest);
      forall j | IsLastReading(es, j)
        ensures Run(s, es).currentCard == es[j].reading
      {
        if j == 0 {
          assert forall k :: 0 <= k < |rest| ==> !rest[k].Reading? by {
            forall k | 0 <= k < |rest| ensures !rest[k].Reading? {
              assert rest[k] == es[k + 1];
            }
          }
        } else {
          assert IsLastReading(rest, j - 1) by {
            forall k | j - 1 < k < |rest| ensures !rest[k].Reading? {
              assert rest[k] == es[k + 1];
            }
          }
        }
      }
      if forall k :: 0 <= k < |es| ==> !es[k].Reading? {
        assert !es[0].Reading?;
        forall k | 0 <= k < |rest| ensures !rest[k].Reading? {
          assert rest[k] == es[k + 1];
        }
      }
    }
  }
}
