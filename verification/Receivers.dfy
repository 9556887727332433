/**
 * One receiver program and the server's reader thread for it.  The user's mutex is a token that every
 * delivery puts back and the reader takes before each read; the receiver sends one empty packet before each
 * of its own reads.
 */
module Receivers {
  datatype Reader = Waiting | Reading | Stopped

  /**
   * `sent` lists the scheduled messages written to the receiver, of which it has read the first `got`.
   * Of the `readies` it sent, the server has read `finished`.  `lost` counts releases of a token that was
   * already free.  `since` and `early` record what had been scheduled, and what was still on its way to this
   * user, when the receiver attached.
   */
  datatype Channel = Channel(
    token: bool, reader: Reader, started: nat, finished: nat, lost: nat, closing: bool,
    readies: nat, listening: bool, sent: seq<nat>, got: nat,
    since: nat, early: set<nat>)

  function Attached(since: nat, early: set<nat>): Channel {
    Channel(true, Waiting, 0, 0, 0, false, 0, false, [], 0, since, early)
  }

  function Count(b: bool): nat {
    if b then 1 else 0
  }

  /** pthread_mutex_unlock on the user's mutex: a second release is lost. */
  function Release(c: Channel): Channel {
    c.(token := true, lost := c.lost + Count(c.token))
  }

  /** The receiver branch of broad_send_message. */
  function Deliver(c: Channel, m: nat): Channel {
    Release(c.(sent := c.sent + [m]))
  }

  /** The end of communicate_user: suspend the reader and wake it. */
  function Close(c: Channel): Channel {
    Release(c.(closing := true))
  }

  datatype Step = Acquire | FinishRead | SendReady | Take

  predicate Enabled(c: Channel, e: Step) {
    match e
    case Acquire => c.reader == Waiting && c.token
    case FinishRead => c.reader == Reading && c.finished < c.readies
    case SendReady => !c.listening
    case Take => c.listening && c.got < |c.sent|
  }

  function Next(c: Channel, e: Step): Channel {
    match e
    case Acquire =>
      if c.closing then c.(token := false, reader := Stopped)
      else c.(token := false, reader := Reading, started := c.started + 1)
    case FinishRead => c.(reader := Waiting, finished := c.finished + 1)
    case SendReady => c.(readies := c.readies + 1, listening := true)
    case Take => c.(got := c.got + 1, listening := false)
  }

  ghost predicate Inv(c: Channel) {
    && c.started == c.finished + Count(c.reader == Reading)
    && c.finished <= c.readies
    && c.got <= |c.sent|
    && c.readies == c.got + Count(c.listening)
    // every token that was ever put in is free, taken or lost
    && c.started + Count(c.reader == Stopped) + Count(c.token) + c.lost == 1 + |c.sent| + Count(c.closing)
    && c.started <= 1 + |c.sent|
    && (c.reader == Stopped ==> c.closing)
  }

  lemma StepKeeps(c: Channel, e: Step)
    requires Inv(c) && Enabled(c, e)
    ensures Inv(Next(c, e))
    ensures Next(c, e).sent == c.sent && Next(c, e).since == c.since && Next(c, e).early == c.early
  {
  }

  lemma DeliverAndCloseKeep(c: Channel, m: nat)
    requires Inv(c)
    ensures Inv(Deliver(c, m)) && (!c.closing ==> Inv(Close(c)))
  {
  }

  /** Reads started, plus a free token, do not exceed the deliveries plus the initial token. */
  predicate WithinCredit(c: Channel) {
    c.started + Count(c.token) <= 1 + |c.sent|
  }

  /**
   * The credit bound, with the release at the end of a session counted; without it, the bound fails exactly
   * while the closed reader has not taken that release and no release was lost.
   */
  lemma Credit(c: Channel)
    requires Inv(c)
    ensures c.started + Count(c.token) <= 1 + |c.sent| + Count(c.closing)
    ensures WithinCredit(c) <==> !(c.closing && c.lost == 0 && c.reader != Stopped)
    ensures c.started <= 1 + |c.sent| && c.started - c.finished <= 1
    ensures c.closing ==> forall e | Enabled(c, e) :: Next(c, e).started == c.started
  {
  }

  /** Closing keeps the bound exactly when the mutex is free already, or a release was lost before. */
  lemma CloseCredit(c: Channel)
    requires Inv(c) && !c.closing
    ensures WithinCredit(c)
    ensures WithinCredit(Close(c)) <==> c.token || c.lost > 0
  {
  }

  /** Once the receiver has read everything and is listening again, the server's read has a packet to read. */
  lemma DrainedReceiverFeedsReader(c: Channel)
    requires Inv(c) && c.got == |c.sent| && c.listening
    ensures c.readies >= c.started
    ensures c.reader == Reading ==> Enabled(c, FinishRead)
  {
  }

  /** A read that finds no packet is never stuck: the receiver itself has a step. */
  lemma ReaderNeverDeadlocks(c: Channel)
    requires Inv(c) && c.reader == Reading && !Enabled(c, FinishRead)
    ensures Enabled(c, SendReady) || Enabled(c, Take)
  {
  }

  // ----- Any run of the receiver settles -----

  function Work(c: Channel): nat
    requires Inv(c)
  {
    2 * (|c.sent| - c.got) + Count(!c.listening)
  }

  /**
   * However the two programs interleave, if nothing new is delivered the receiver has only `Work(c)` steps
   * left, and when they are done it has read everything.
   */
  lemma ReceiverProgress(c: Channel, e: Step)
    requires Inv(c) && Enabled(c, e)
    ensures Inv(Next(c, e))
    ensures Work(Next(c, e)) == if e in {SendReady, Take} then Work(c) - 1 else Work(c)
    ensures Work(c) == 0 <==> c.got == |c.sent| && c.listening
  {
  }
}
