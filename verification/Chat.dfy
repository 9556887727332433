/** The whole server with all its clients and receivers, as a state machine over interleaved steps. */
module Chat {
  import opened CText
  import opened Codec
  import opened Replies
  import opened Users
  import opened Handlers
  import opened Sessions
  import opened Scheduled
  import Receivers

  /** The accepting thread: looking at a slot, or holding the index it chose until it commits a user there. */
  datatype Acceptor = Idle | Scanning(i: nat) | Chosen(i: nat)

  /**
   * `table` maps slots to users, `sessions` holds every user ever committed and `msgs` every scheduled
   * message, both named by their position.  A user stays in `sessions` after it was freed.
   */
  datatype State = State(table: seq<Option<nat>>, sessions: seq<Session>, acceptor: Acceptor, msgs: seq<Sched>)

  datatype Event =
    | BeginAccept | ScanSlot | AbortAccept | Commit(name: Text)
    | Local(u: nat, step: Step)
    | Serve(u: nat)
    | Free(u: nat)
    | Attach(u: nat)
    | Deliver(m: nat, u: nat)

  function Initial(): State {
    State(seq(TABLE_SIZE, _ => None), [], Idle, [])
  }

  predicate Tabled(s: State) {
    |s.table| == TABLE_SIZE
    && forall i | 0 <= i < TABLE_SIZE :: s.table[i].Some? ==> s.table[i].value < |s.sessions|
  }

  predicate Occupies(s: State, u: nat) {
    u < |s.sessions| && s.sessions[u].slot < |s.table| && s.table[s.sessions[u].slot] == Some(u)
  }

  /** The table as a handler sees it. */
  function View(s: State): (t: Table)
    requires Tabled(s)
    ensures forall i | 0 <= i < TABLE_SIZE ::
              t[i] == match s.table[i] case None => None case Some(u) => Some(UserOf(s.sessions[u]))
  {
    seq(TABLE_SIZE, i requires 0 <= i < TABLE_SIZE =>
      match s.table[i] case None => None case Some(u) => Some(UserOf(s.sessions[u])))
  }

  /** The generated names: 12 characters over a-z and 0-9. */
  predicate Generated(name: Text) {
    |name| == 12 && forall i | 0 <= i < 12 :: 'a' <= name[i] <= 'z' || '0' <= name[i] <= '9'
  }

  /** The server can run the packet at the head of the request channel, or reject it. */
  predicate Servable(s: Session) {
    && CanServe(s)
    && Readable(s.link.requests[0], PACKET_SIZE)
    && (Incoming(s).Valid? ==> Runnable(Incoming(s).msg))
  }

  /** The session thread of `u` waits for a packet, and the next one decodes. */
  predicate HasRequest(s: State, u: nat) {
    u < |s.sessions| && CanServe(s.sessions[u]) && Incoming(s.sessions[u]).Valid?
  }

  function Request(s: State, u: nat): Message
    requires HasRequest(s, u)
  {
    Incoming(s.sessions[u]).msg
  }

  predicate Enabled(s: State, e: Event) {
    Tabled(s) &&
    match e
    case BeginAccept => s.acceptor == Idle
    case ScanSlot => s.acceptor.Scanning? && s.acceptor.i <= SCANNED
    case AbortAccept => s.acceptor.Chosen?
    case Commit(name) => s.acceptor.Chosen? && s.acceptor.i < SCANNED && Generated(name)
    case Local(u, step) => u < |s.sessions| && Sessions.Enabled(s.sessions[u], step)
    case Serve(u) => Occupies(s, u) && Servable(s.sessions[u])
    case Free(u) => Occupies(s, u) && s.sessions[u].pc == Closing
    case Attach(u) =>
      && Occupies(s, u) && s.sessions[u].slot < MAX_USER
      && IsJoined(Some(UserOf(s.sessions[u]))) && s.sessions[u].channel == None
    case Deliver(m, u) => m < |s.msgs| && u < |s.sessions| && u in s.msgs[m].waiting
  }

  /** current_user_index, one slot at a time. */
  function Scan(s: State): Acceptor
    requires Tabled(s) && s.acceptor.Scanning? && s.acceptor.i <= SCANNED
  {
    var i := s.acceptor.i;
    if i == SCANNED then Idle else if s.table[i] == None then Chosen(i) else Scanning(i + 1)
  }

  function Uids(s: State, slots: seq<nat>): (r: seq<nat>)
    ensures |r| == |slots|
    ensures forall k | 0 <= k < |slots| ::
              r[k] == if slots[k] < |s.table| && s.table[slots[k]].Some? then s.table[slots[k]].value else 0
  {
    seq(|slots|, k requires 0 <= k < |slots| =>
      if slots[k] < |s.table| && s.table[slots[k]].Some? then s.table[slots[k]].value else 0)
  }

  /** The messages a handler scheduled, with a sender thread for every target. */
  function Scheduling(s: State, o: Outcome): seq<Sched> {
    if o.spawn.None? then []
    else [Create(o.spawn.value.saying, o.spawn.value.limit, Uids(s, o.spawn.value.targets))]
  }

  function RunCommand(s: State, u: nat): State
    requires Tabled(s) && Occupies(s, u) && Servable(s.sessions[u])
  {
    var session := s.sessions[u];
    match Incoming(session)
    case Invalid => s.(sessions := s.sessions[u := Rejected(session)])
    case Valid(m) =>
      var o := Execute(View(s), session.slot, m);
      s.(sessions := s.sessions[u := Served(session, m, o)], msgs := s.msgs + Scheduling(s, o))
  }

  /** The messages whose thread for `u` has not run. */
  function Underway(s: State, u: nat): set<nat> {
    set m | 0 <= m < |s.msgs| && u in s.msgs[m].waiting
  }

  function SendTo(s: Session, m: nat): Session {
    match s.channel
    case None => s
    case Some(c) => s.(channel := Some(Receivers.Deliver(c, m)))
  }

  /** broad_send_message: the packet goes out if a receiver is attached, and the message is counted. */
  function Delivered(s: State, m: nat, u: nat): State
    requires m < |s.msgs| && u < |s.sessions|
  {
    s.(sessions := s.sessions[u := SendTo(s.sessions[u], m)], msgs := s.msgs[m := Finish(s.msgs[m], u)])
  }

  function Next(s: State, e: Event): State
    requires Enabled(s, e)
  {
    match e
    case BeginAccept => s.(acceptor := Scanning(0))
    case ScanSlot => s.(acceptor := Scan(s))
    case AbortAccept => s.(acceptor := Idle)
    case Commit(name) =>
      var i := s.acceptor.i;
      s.(table := s.table[i := Some(|s.sessions|)], sessions := s.sessions + [Fresh(i, name)], acceptor := Idle)
    case Local(u, step) => s.(sessions := s.sessions[u := Sessions.Next(s.sessions[u], step)])
    case Serve(u) => RunCommand(s, u)
    case Free(u) =>
      s.(sessions := s.sessions[u := Freed(s.sessions[u])], table := s.table[s.sessions[u].slot := None])
    case Attach(u) =>
      var c := Receivers.Attached(|s.msgs|, Underway(s, u));
      s.(sessions := s.sessions[u := s.sessions[u].(channel := Some(c))])
    case Deliver(m, u) => Delivered(s, m, u)
  }

  // ----- Runs -----

  /** The state after a run of events, or None if one of them could not happen. */
  function Run(s: State, es: seq<Event>): Option<State>
    decreases |es|
  {
    if es == [] then Some(s)
    else match Run(s, es[..|es| - 1])
         case None => None
         case Some(r) => if Enabled(r, es[|es| - 1]) then Some(Next(r, es[|es| - 1])) else None
  }

  ghost predicate Reachable(s: State) {
    exists es :: Run(Initial(), es) == Some(s)
  }

  // ----- Invariants -----

  ghost predicate SlotsInv(s: State) {
    && Tabled(s)
    && (forall i | 0 <= i < TABLE_SIZE :: s.table[i].Some? ==>
          var session := s.sessions[s.table[i].value]; session.slot == i && session.pc != Gone)
    && (forall u | 0 <= u < |s.sessions| :: s.sessions[u].pc != Gone ==> Occupies(s, u))
    && (s.acceptor.Scanning? ==> s.acceptor.i <= SCANNED)
    && (s.acceptor.Chosen? ==> s.acceptor.i < SCANNED && s.table[s.acceptor.i] == None)
  }

  ghost predicate SessionsInv(s: State) {
    forall u | 0 <= u < |s.sessions| :: Sessions.Inv(s.sessions[u])
  }

  ghost predicate MessagesInv(s: State) {
    forall m | 0 <= m < |s.msgs| ::
      Scheduled.Inv(s.msgs[m]) && forall u | u in s.msgs[m].targets :: u < |s.sessions|
  }

  /** A message the receiver of `u` is to get: scheduled to `u` after it attached, or still underway then. */
  predicate Due(c: Receivers.Channel, m: Sched, id: nat, u: nat) {
    u in m.targets && (id >= c.since || id in c.early)
  }

  /** Every due message is either on the channel or still waiting for its thread, once. */
  ghost predicate Balanced(c: Receivers.Channel, m: Sched, id: nat, u: nat) {
    multiset(c.sent)[id] + m.waiting[u] == if Due(c, m, id, u) then 1 else 0
  }

  ghost predicate TrafficOf(c: Receivers.Channel, msgs: seq<Sched>, u: nat) {
    && c.since <= |msgs|
    && (forall id | id in c.sent :: id < |msgs|)
    && (forall id | id in c.early :: id < c.since && u in msgs[id].targets)
    && (forall id | 0 <= id < |msgs| :: Balanced(c, msgs[id], id, u))
  }

  ghost predicate TrafficInv(s: State) {
    forall u | 0 <= u < |s.sessions| ::
      s.sessions[u].channel.Some? ==> TrafficOf(s.sessions[u].channel.value, s.msgs, u)
  }

  ghost predicate Inv(s: State) {
    SlotsInv(s) && SessionsInv(s) && MessagesInv(s) && TrafficInv(s)
  }
}
