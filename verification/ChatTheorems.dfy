/** What holds in every reachable state, and along every run. */
module ChatTheorems {
  import opened CText
  import opened Codec
  import opened Replies
  import opened Users
  import opened Handlers
  import opened Sessions
  import opened Scheduled
  import opened Chat
  import opened ChatProofs
  import SessionProofs
  import Receivers
  import Phrases
  import Kinds

  // ----- Scheduled messages -----

  /** The access count and the pending threads always add up, and the last access frees, once. */
  lemma MessageLifetime(s: State, id: nat)
    requires Reachable(s) && id < |s.msgs|
    ensures var m := s.msgs[id];
            && m.current + |m.waiting| == m.max
            && m.frees <= 1
            && (m.frees == 1 <==> m.max >= 1 && m.waiting == multiset{})
  {
    ReachableInv(s);
    assert Scheduled.Inv(s.msgs[id]);
  }

  /** No thread reads a freed message, and a step frees a message exactly when it is its last thread's. */
  lemma NoUseAfterFree(s: State, e: Event, id: nat)
    requires Reachable(s) && Chat.Enabled(s, e) && id < |s.msgs|
    ensures e.Deliver? && e.m == id ==> s.msgs[id].frees == 0
    ensures var last := e.Deliver? && e.m == id && s.msgs[id].waiting == multiset{e.u};
            Chat.Next(s, e).msgs[id].frees == s.msgs[id].frees + (if last then 1 else 0)
  {
    LiveMessage(s, id);
    if e.Deliver? && e.m == id {
      FinishKeeps(s.msgs[id], e.u);
      assert Chat.Next(s, e).msgs[id] == Finish(s.msgs[id], e.u);
    } else {
      OtherMessagesStay(s, e, id);
    }
  }

  lemma LiveMessage(s: State, id: nat)
    requires Reachable(s) && id < |s.msgs|
    ensures Scheduled.Inv(s.msgs[id])
  {
    ReachableInv(s);
  }

  lemma OtherMessagesStay(s: State, e: Event, id: nat)
    requires Chat.Enabled(s, e) && id < |s.msgs| && !(e.Deliver? && e.m == id)
    ensures id < |Chat.Next(s, e).msgs| && Chat.Next(s, e).msgs[id] == s.msgs[id]
  {
  }

  lemma StepFixesTargets(s: State, e: Event, id: nat)
    requires Chat.Enabled(s, e) && id < |s.msgs|
    ensures var r := Chat.Next(s, e);
            && id < |r.msgs| && r.msgs[id].targets == s.msgs[id].targets && r.msgs[id].saying == s.msgs[id].saying
            && r.msgs[id].max == s.msgs[id].max
  {
  }

  /** Who a message is for is settled when it is scheduled. */
  lemma {:induction false} TargetsAreFixed(s: State, es: seq<Event>, id: nat)
    requires Run(s, es).Some? && id < |s.msgs|
    ensures var r := Run(s, es).value;
            && id < |r.msgs| && r.msgs[id].targets == s.msgs[id].targets && r.msgs[id].saying == s.msgs[id].saying
            && r.msgs[id].max == s.msgs[id].max
    decreases |es|
  {
    if es != [] {
      TargetsAreFixed(s, es[..|es| - 1], id);
      StepFixesTargets(Run(s, es[..|es| - 1]).value, es[|es| - 1], id);
    }
  }

  // ----- Delivery -----

  /** What a receiver program has read so far. */
  function Got(c: Receivers.Channel): seq<nat>
    requires c.got <= |c.sent|
  {
    c.sent[..c.got]
  }

  /** The messages scheduled to a user since its receiver attached. */
  function ScheduledSince(s: State, c: Receivers.Channel, u: nat): set<nat> {
    set id | 0 <= id < |s.msgs| && id >= c.since && u in s.msgs[id].targets
  }

  /** No thread is on its way to `u`, and its receiver has read all packets. */
  ghost predicate Settled(s: State, u: nat) {
    && u < |s.sessions| && s.sessions[u].channel.Some?
    && s.sessions[u].channel.value.got == |s.sessions[u].channel.value.sent|
    && forall id | 0 <= id < |s.msgs| :: u !in s.msgs[id].waiting
  }

  /** Nothing is ever sent twice, nor to anyone but a target. */
  lemma OnlyTargetsOnce(s: State, u: nat, id: nat)
    requires Reachable(s) && u < |s.sessions| && s.sessions[u].channel.Some?
    ensures var c := s.sessions[u].channel.value;
            && c.got <= |c.sent|
            && multiset(c.sent)[id] <= 1
            && (id in c.sent ==> id < |s.msgs| && u in s.msgs[id].targets)
  {
    ReachableInv(s);
    var c := s.sessions[u].channel.value;
    assert Sessions.Inv(s.sessions[u]);
    assert TrafficOf(c, s.msgs, u);
    if id in c.sent {
      assert Balanced(c, s.msgs[id], id, u);
    }
  }

  /** When all deliveries are done, each due message has been read exactly once, and nothing else. */
  lemma ExactlyOnce(s: State, u: nat, id: nat)
    requires Reachable(s) && Settled(s, u)
    ensures var c := s.sessions[u].channel.value;
            multiset(Got(c))[id] == if id in ScheduledSince(s, c, u) + c.early then 1 else 0
  {
    ReachableInv(s);
    var c := s.sessions[u].channel.value;
    assert TrafficOf(c, s.msgs, u);
    assert Got(c) == c.sent;
    if id < |s.msgs| {
      assert Balanced(c, s.msgs[id], id, u);
    } else {
      assert id !in c.sent;
    }
  }

  /**
   * What the receiver read is exactly what was scheduled to its user while it was attached, if and only if
   * no thread for the user was pending when it attached.
   */
  lemma ReceivedIsScheduledWhileAttached(s: State, u: nat)
    requires Reachable(s) && Settled(s, u)
    ensures var c := s.sessions[u].channel.value;
            multiset(Got(c)) == multiset(ScheduledSince(s, c, u)) <==> c.early == {}
  {
    ReachableInv(s);
    var c := s.sessions[u].channel.value;
    assert TrafficOf(c, s.msgs, u);
    forall id: nat ensures multiset(Got(c))[id] == if id in ScheduledSince(s, c, u) + c.early then 1 else 0 {
      ExactlyOnce(s, u, id);
    }
    if id :| id in c.early {
      assert id !in ScheduledSince(s, c, u);
      assert multiset(Got(c))[id] != multiset(ScheduledSince(s, c, u))[id];
    }
  }

  /** Attaching fixes that condition: it is the absence of a pending thread, which the server could check. */
  lemma AttachRecordsPending(s: State, u: nat)
    requires Reachable(s) && Chat.Enabled(s, Attach(u))
    ensures var c := Chat.Next(s, Attach(u)).sessions[u].channel.value;
            && c.since == |s.msgs|
            && (c.early == {} <==> forall id | 0 <= id < |s.msgs| :: u !in s.msgs[id].waiting)
  {
    var early := Underway(s, u);
    if id :| 0 <= id < |s.msgs| && u in s.msgs[id].waiting {
      assert id in early;
    }
  }

  // ----- What one command schedules -----

  ghost predicate JoinedNow(s: State, v: nat) {
    Occupies(s, v) && s.sessions[v].slot < MAX_USER && IsJoined(Some(UserOf(s.sessions[v])))
  }

  /** The state after a packet is taken: its request was run, or it was rejected. */
  lemma ServedState(s: State, u: nat)
    requires Chat.Inv(s) && Chat.Enabled(s, Serve(u)) && HasRequest(s, u)
    ensures var x, m := s.sessions[u], Request(s, u);
            && Occupies(s, u) && CanServe(x) && Runnable(m)
            && var o := Execute(View(s), x.slot, m);
               Chat.Next(s, Serve(u)) == Put(s, u, Served(x, m, o)).(msgs := s.msgs + Scheduling(s, o))
  {
    ServedIs(s, u, Request(s, u));
  }

  lemma RejectedState(s: State, u: nat)
    requires Chat.Inv(s) && Chat.Enabled(s, Serve(u)) && !HasRequest(s, u)
    ensures Occupies(s, u) && CanServe(s.sessions[u])
    ensures Chat.Next(s, Serve(u)) == Put(s, u, Rejected(s.sessions[u]))
  {
  }

  /** The users at the joined slots of the table after a command are the users joined after it. */
  lemma UidsOfJoined(s: State, s': State, t': Table)
    requires SlotsInv(s) && SlotsInv(s') && s'.table == s.table && |s'.sessions| == |s.sessions| && View(s') == t'
    ensures forall v: nat :: v in Uids(s, JoinedSlots(t')) <==> JoinedNow(s', v)
  {
    var slots := JoinedSlots(t');
    var uids := Uids(s, slots);
    forall v: nat ensures v in uids <==> JoinedNow(s', v) {
      if v in uids {
        var k :| 0 <= k < |slots| && uids[k] == v;
        assert slots[k] in slots;
      }
      if JoinedNow(s', v) {
        var i := s'.sessions[v].slot;
        assert i in slots;
        var k :| 0 <= k < |slots| && slots[k] == i;
        assert uids[k] == v;
      }
    }
  }

  /**
   * A packet schedules at most one message, none if it does not decode, and a message that is not a secret is
   * for exactly the users joined after it was served.
   */
  lemma BroadcastReachesJoined(s: State, u: nat)
    requires Reachable(s) && Chat.Enabled(s, Serve(u))
    ensures var s' := Chat.Next(s, Serve(u));
            && s.msgs <= s'.msgs && |s'.msgs| <= |s.msgs| + 1
            && (|s'.msgs| > |s.msgs| ==> HasRequest(s, u))
            && (|s'.msgs| > |s.msgs| && Request(s, u).kind != Kinds.SECRET ==>
                  forall v: nat :: v in s'.msgs[|s.msgs|].targets <==> JoinedNow(s', v))
  {
    ReachableInv(s);
    if HasRequest(s, u) {
      ServedState(s, u);
      if Request(s, u).kind != Kinds.SECRET {
        BroadcastTargets(s, u, Request(s, u));
      }
    }
  }

  lemma BroadcastTargets(s: State, u: nat, m: Message)
    requires Chat.Inv(s) && Chat.Enabled(s, Serve(u)) && Incoming(s.sessions[u]) == Valid(m) && m.kind != Kinds.SECRET
    ensures var s' := Chat.Next(s, Serve(u));
            |s'.msgs| > |s.msgs| ==> forall v: nat :: v in s'.msgs[|s.msgs|].targets <==> JoinedNow(s', v)
  {
    ServedIs(s, u, m);
    StepKeeps(s, Serve(u));
    var x := s.sessions[u];
    var o := Execute(View(s), x.slot, m);
    var s' := Chat.Next(s, Serve(u));
    if o.spawn.Some? {
      ExecuteSpawn(View(s), x.slot, m);
      ExecuteReceiver(View(s), x.slot, m);
      UpdatedView(s, u, m, o);
      assert View(s') == View(Put(s, u, Served(x, m, o)));
      UidsOfJoined(s, s', View(s)[x.slot := Some(o.me)]);
    }
  }

  lemma ExecuteReceiver(t: Table, me: nat, m: Message)
    requires me < |t| && t[me].Some? && Runnable(m)
    ensures Execute(t, me, m).me.receiver == t[me].value.receiver
  {
  }

  /** The table after a command is the table before with the caller replaced. */
  lemma UpdatedView(s: State, u: nat, m: Message, o: Outcome)
    requires SlotsInv(s) && Occupies(s, u) && CanServe(s.sessions[u])
    requires o.me.receiver == s.sessions[u].channel.Some?
    ensures View(Put(s, u, Served(s.sessions[u], m, o))) == View(s)[s.sessions[u].slot := Some(o.me)]
  {
    var s' := Put(s, u, Served(s.sessions[u], m, o));
    forall i | 0 <= i < TABLE_SIZE ensures View(s')[i] == View(s)[s.sessions[u].slot := Some(o.me)][i] {
      if s.table[i].Some? && s.table[i].value == u {
        assert i == s.sessions[u].slot;
      }
    }
  }

  // ----- Credit -----

  /**
   * In every reachable state the reads started are covered by the deliveries and the first token, together with
   * a free token also by the release at the end of the session, after which no read starts; at most one read is
   * open, and an open read either has its packet or waits for a receiver that can move.
   */
  lemma CreditAlways(s: State, u: nat)
    requires Reachable(s) && u < |s.sessions| && s.sessions[u].channel.Some?
    ensures var c := s.sessions[u].channel.value;
            && c.started <= 1 + |c.sent|
            && c.started + Receivers.Count(c.token) <= 1 + |c.sent| + Receivers.Count(c.closing)
            && (c.closing ==> forall e | Receivers.Enabled(c, e) :: Receivers.Next(c, e).started == c.started)
            && (Receivers.WithinCredit(c) <==> !(c.closing && c.lost == 0 && c.reader != Receivers.Stopped))
            && c.started - c.finished <= 1
            && (c.got == |c.sent| && c.listening ==> c.readies >= c.started)
            && (c.reader == Receivers.Reading ==>
                  exists e :: e in {Receivers.FinishRead, Receivers.SendReady, Receivers.Take} && Receivers.Enabled(c, e))
  {
    ReachableInv(s);
    var c := s.sessions[u].channel.value;
    assert Sessions.Inv(s.sessions[u]);
    Receivers.Credit(c);
    if c.got == |c.sent| && c.listening {
      Receivers.DrainedReceiverFeedsReader(c);
    }
    if c.reader == Receivers.Reading && !Receivers.Enabled(c, Receivers.FinishRead) {
      Receivers.ReaderNeverDeadlocks(c);
    }
  }

  /**
   * The end of a session leaves reads and token within the deliveries exactly when the mutex is free before
   * its last release, or an earlier release was lost; until then they always are.
   */
  lemma CreditAtClose(s: State, u: nat)
    requires Reachable(s) && Chat.Enabled(s, Local(u, Close)) && s.sessions[u].channel.Some?
    ensures var c := s.sessions[u].channel.value;
            && Receivers.WithinCredit(c)
            && Chat.Next(s, Local(u, Close)).sessions[u].channel == Some(Receivers.Close(c))
            && (Receivers.WithinCredit(Receivers.Close(c)) <==> c.token || c.lost > 0)
  {
    ReachableInv(s);
    assert Sessions.Inv(s.sessions[u]);
    Receivers.CloseCredit(s.sessions[u].channel.value);
  }

  // ----- Requests and replies -----

  /**
   * Whatever the client sends and when: each request a handler was run for has one reply, written in order
   * or still owed, and every reply on its way says what the server answered.
   */
  lemma OneReplyEach(s: State, u: nat)
    requires Reachable(s) && u < |s.sessions|
    ensures var l := s.sessions[u].link;
            && l.taken == |l.served| + Receivers.Count(Owes(s.sessions[u].pc))
            && |l.served| == |l.heard| + |l.replies|
            && forall j | 0 <= j < |l.replies| :: Understood(l.replies[j]) == l.served[|l.heard| + j].1
  {
    ReachableInv(s);
    assert Sessions.Inv(s.sessions[u]);
    SessionProofs.RepliesReadable(s.sessions[u].link, s.sessions[u].pc);
  }

  /** A packet is taken as one more request if and only if it decodes; otherwise it ends the session unanswered. */
  lemma TakenIfDecoded(s: State, u: nat)
    requires Reachable(s) && Chat.Enabled(s, Serve(u))
    ensures var x, y := s.sessions[u], Chat.Next(s, Serve(u)).sessions[u];
            && y.link.taken == x.link.taken + (if HasRequest(s, u) then 1 else 0)
            && (!HasRequest(s, u) ==> x.link.client == Foreign && y.status == Suspended && y.pc == Ending)
  {
    ReachableInv(s);
    assert Sessions.Inv(s.sessions[u]);
    if HasRequest(s, u) {
      ServedState(s, u);
    } else {
      SessionProofs.RejectKeeps(s.sessions[u]);
    }
  }

  /** A console client: one reply for each request, in order, and never more than one request open. */
  lemma Lockstep(s: State, u: nat)
    requires Reachable(s) && u < |s.sessions| && s.sessions[u].link.client != Foreign
    ensures var l := s.sessions[u].link;
            && |l.heard| <= |l.served| <= |l.asked| <= |l.heard| + 1
            && |l.requests| + |l.replies| <= 1
            && (forall j | 0 <= j < |l.served| :: l.served[j].0 == l.asked[j])
            && (forall j | 0 <= j < |l.heard| :: l.heard[j] == (l.asked[j], l.served[j].1))
  {
    ReachableInv(s);
    assert Sessions.Inv(s.sessions[u]);
  }

  /** Reading a reply, the client takes it for the answer to its latest request, and it is that answer. */
  lemma ClientHearsLatestReply(s: State, u: nat)
    requires Reachable(s) && Chat.Enabled(s, Local(u, Hear))
    ensures var l := s.sessions[u].link;
            var h := Chat.Next(s, Local(u, Hear)).sessions[u].link.heard;
            && |h| == |l.asked| && |l.served| == |l.asked| && h[..|h| - 1] == l.heard
            && h[|h| - 1] == (l.asked[|l.asked| - 1], l.served[|l.asked| - 1].1)
  {
    ReachableInv(s);
    var x := s.sessions[u];
    assert Sessions.Inv(x);
    SessionProofs.HearsTheLatest(x.link, x.pc);
  }

  /** The client goes on after its greeting is accepted, and until BYE. */
  lemma ClientGoesOn(s: State, u: nat)
    requires Reachable(s) && Chat.Enabled(s, Local(u, Hear))
    ensures var l := s.sessions[u].link;
            var y := Chat.Next(s, Local(u, Hear)).sessions[u].link;
            && 0 < |l.served| == |l.asked|
            && y.client == SessionProofs.After(l.heard == [], l.served[|l.asked| - 1].1)
  {
    ReachableInv(s);
    var x := s.sessions[u];
    assert Sessions.Inv(x);
    LocalIsPut(s, u, Hear);
    SessionProofs.ClientAfter(x.link, x.pc);
  }

  /** A waiting client is never stuck while its session lasts: the reply is there or the server has a step. */
  lemma WaitingClientProgress(s: State, u: nat)
    requires Reachable(s) && u < |s.sessions| && s.sessions[u].link.client == Waiting
    requires s.sessions[u].pc == Looping || s.sessions[u].pc.Answering?
    ensures Chat.Enabled(s, Local(u, Hear)) || Chat.Enabled(s, Local(u, Answer)) || Chat.Enabled(s, Serve(u))
  {
    ReachableInv(s);
    var x := s.sessions[u];
    assert Sessions.Inv(x);
    SessionProofs.WaitingHasStep(x);
    if CanServe(x) {
      ServeEnabled(s, u);
    } else if Sessions.Enabled(x, Hear) {
      LocalEnabled(s, u, Hear);
    } else {
      LocalEnabled(s, u, Answer);
    }
  }

  lemma ServeEnabled(s: State, u: nat)
    requires SlotsInv(s) && SessionsInv(s) && u < |s.sessions| && CanServe(s.sessions[u])
    requires s.sessions[u].link.client != Foreign
    ensures Chat.Enabled(s, Serve(u)) && HasRequest(s, u)
  {
    RequestsAreServable(s, u);
  }

  lemma LocalEnabled(s: State, u: nat, step: Step)
    requires Tabled(s) && u < |s.sessions| && Sessions.Enabled(s.sessions[u], step)
    ensures Chat.Enabled(s, Local(u, step))
  {
  }

  // ----- Slots -----

  /** Occupied slots hold live users, each at its own index, and the chosen slot is still empty. */
  lemma SlotTable(s: State)
    requires Reachable(s)
    ensures |s.table| == 129
    ensures forall i | 0 <= i < 129 :: s.table[i].Some? ==>
              var u := s.table[i].value; u < |s.sessions| && s.sessions[u].slot == i && s.sessions[u].frees == 0
    ensures forall i, j | 0 <= i < j < 129 :: s.table[i].Some? ==> s.table[i] != s.table[j]
    ensures s.acceptor.Chosen? ==> s.acceptor.i < 128 && s.table[s.acceptor.i] == None
  {
    ReachableInv(s);
    forall i | 0 <= i < TABLE_SIZE && s.table[i].Some? ensures s.sessions[s.table[i].value].frees == 0 {
      assert Sessions.Inv(s.sessions[s.table[i].value]);
    }
  }

  /** The lowest empty slot of those scanned, or all of them occupied. */
  function LowestFree(table: seq<Option<nat>>, i: nat): (r: Option<nat>)
    requires |table| == TABLE_SIZE && i <= SCANNED
    ensures r.Some? ==> i <= r.value < SCANNED && table[r.value] == None
    ensures forall k | i <= k < (if r.Some? then r.value else SCANNED) :: table[k].Some?
    decreases SCANNED - i
  {
    if i == SCANNED then None else if table[i] == None then Some(i) else LowestFree(table, i + 1)
  }

  /** A scan that nobody interrupts is the atomic choice of the lowest empty slot. */
  lemma {:induction false} UninterruptedScan(s: State, i: nat) returns (es: seq<Event>)
    requires SlotsInv(s) && s.acceptor == Scanning(i) && i <= SCANNED
    ensures var r := LowestFree(s.table, i);
            Run(s, es) == Some(s.(acceptor := if r == None then Idle else Chosen(r.value)))
    decreases SCANNED - i
  {
    var s1 := Chat.Next(s, ScanSlot);
    if i == SCANNED || s.table[i] == None {
      es := [ScanSlot];
      assert Run(s, es[..0]) == Some(s);
    } else {
      var rest := UninterruptedScan(s1, i + 1);
      es := [ScanSlot] + rest;
      RunCons(s, ScanSlot, rest);
    }
  }

  lemma RunCons(s: State, e: Event, es: seq<Event>)
    requires Chat.Enabled(s, e)
    ensures Run(s, [e] + es) == Run(Chat.Next(s, e), es)
  {
    assert Run(s, ([e])[..0]) == Some(s);
    RunAppend(s, [e], es);
  }

  /** A run can be cut anywhere. */
  lemma {:induction false} RunAppend(s: State, es: seq<Event>, fs: seq<Event>)
    ensures Run(s, es + fs) == match Run(s, es) case None => None case Some(r) => Run(r, fs)
    decreases |fs|
  {
    if fs == [] {
      assert es + fs == es;
    } else {
      assert (es + fs)[..|es + fs| - 1] == es + fs[..|fs| - 1];
      RunAppend(s, es, fs[..|fs| - 1]);
    }
  }

  lemma RunTwo(s: State, e: Event, f: Event)
    requires Chat.Enabled(s, e) && Chat.Enabled(Chat.Next(s, e), f)
    ensures Run(s, [e, f]) == Some(Chat.Next(Chat.Next(s, e), f))
  {
    assert [e, f][..1] == [e] && ([e])[..0] == [];
    assert Run(s, [e]) == Some(Chat.Next(s, e));
  }

  /** A run's first event can happen, and the rest is a run from there. */
  lemma RunUncons(s: State, e: Event, es: seq<Event>)
    requires Run(s, [e] + es).Some?
    ensures Chat.Enabled(s, e) && Run(Chat.Next(s, e), es) == Run(s, [e] + es)
  {
    RunAppend(s, [e], es);
    assert ([e])[..0] == [];
    assert Run(s, [e]).Some?;
  }

  lemma ReachableNext(s: State, e: Event)
    requires Reachable(s) && Chat.Enabled(s, e)
    ensures Reachable(Chat.Next(s, e))
  {
    assert ([e])[..0] == [];
    assert Run(s, [e]) == Some(Chat.Next(s, e));
    RunAppendReachable(s, [e]);
  }

  lemma RunAppendReachable(s: State, es: seq<Event>)
    requires Reachable(s) && Run(s, es).Some?
    ensures Reachable(Run(s, es).value)
  {
    var before :| Run(Initial(), before) == Some(s);
    RunAppend(Initial(), before, es);
  }

  // ----- Sessions -----

  /** One step moves no status back, moves no user, and unfrees none. */
  lemma StepAdvances(s: State, e: Event, u: nat)
    requires Chat.Inv(s) && Chat.Enabled(s, e) && u < |s.sessions|
    ensures u < |Chat.Next(s, e).sessions|
    ensures var x, y := s.sessions[u], Chat.Next(s, e).sessions[u];
            && Phase(x.status) <= Phase(y.status) && x.slot == y.slot && (x.verified ==> y.verified)
            && x.closes <= y.closes && x.frees <= y.frees
  {
    assert Sessions.Inv(s.sessions[u]);
    match e {
      case Local(v, step) =>
        assert Sessions.Inv(s.sessions[v]);
        SessionProofs.StepAdvances(s.sessions[v], step);
      case Serve(v) => ServeAdvances(s, v, u);
      case _ => OtherAdvances(s, e, u);
    }
  }

  lemma OtherAdvances(s: State, e: Event, u: nat)
    requires Chat.Inv(s) && Chat.Enabled(s, e) && !e.Local? && !e.Serve? && u < |s.sessions|
    ensures u < |Chat.Next(s, e).sessions|
    ensures var x, y := s.sessions[u], Chat.Next(s, e).sessions[u];
            && x.status == y.status && x.slot == y.slot && x.verified == y.verified
            && x.closes == y.closes && x.frees <= y.frees
  {
  }

  lemma ServeAdvances(s: State, v: nat, u: nat)
    requires Chat.Inv(s) && Chat.Enabled(s, Serve(v)) && u < |s.sessions|
    ensures u < |Chat.Next(s, Serve(v)).sessions|
    ensures var x, y := s.sessions[u], Chat.Next(s, Serve(v)).sessions[u];
            && Phase(x.status) <= Phase(y.status) && x.slot == y.slot && (x.verified ==> y.verified)
            && x.closes <= y.closes && x.frees <= y.frees
  {
    if HasRequest(s, v) {
      ServedState(s, v);
      if v == u {
        assert Sessions.Inv(s.sessions[u]);
        ExecuteSession(View(s), s.sessions[u].slot, Request(s, u));
      }
    } else {
      assert Sessions.Inv(s.sessions[v]);
      RejectedState(s, v);
    }
  }

  /** Established, joined, suspended, disconnected: along every run a session only moves forward. */
  lemma {:induction false} PhaseNeverGoesBack(s: State, es: seq<Event>, u: nat)
    requires Reachable(s) && Run(s, es).Some? && u < |s.sessions|
    ensures var r := Run(s, es).value;
            && u < |r.sessions|
            && Phase(s.sessions[u].status) <= Phase(r.sessions[u].status)
            && r.sessions[u].slot == s.sessions[u].slot
            && s.sessions[u].closes <= r.sessions[u].closes && s.sessions[u].frees <= r.sessions[u].frees
    decreases |es|
  {
    if es != [] {
      var before := es[..|es| - 1];
      PhaseNeverGoesBack(s, before, u);
      ReachableInv(s);
      RunKeeps(s, before);
      StepAdvances(Run(s, before).value, es[|es| - 1], u);
    }
  }

  /** Once a session is suspended, no run ever executes another of its commands. */
  lemma NoCommandAfterSuspend(s: State, es: seq<Event>, u: nat)
    requires Reachable(s) && Run(s, es).Some? && u < |s.sessions|
    requires Phase(s.sessions[u].status) >= Phase(Suspended)
    ensures !Chat.Enabled(Run(s, es).value, Serve(u))
  {
    PhaseNeverGoesBack(s, es, u);
    ReachableInv(s);
    RunKeeps(s, es);
    assert Sessions.Inv(Run(s, es).value.sessions[u]);
  }

  /** At most one welcome and one join announcement; closed once, then freed once, which empties its slot. */
  lemma OnceEach(s: State, u: nat)
    requires Reachable(s) && u < |s.sessions|
    ensures var x := s.sessions[u];
            && x.welcomes <= x.announcements <= 1
            && x.frees <= x.closes <= 1
            && (x.closes == 1 <==> x.status == Disconnected)
            && (x.frees == 1 <==> forall i | 0 <= i < |s.table| :: s.table[i] != Some(u))
  {
    ReachableInv(s);
    var x := s.sessions[u];
    assert Sessions.Inv(x);
    if x.frees == 0 {
      assert Occupies(s, u);
      assert s.table[x.slot] == Some(u);
    }
  }

  /** A suspended session can always be closed and freed, whatever it is doing, and then it was, once. */
  lemma SuspendedIsFreed(s: State, u: nat) returns (es: seq<Event>, r: State)
    requires Reachable(s) && u < |s.sessions| && s.sessions[u].status == Suspended
    ensures es == (if s.sessions[u].pc.Answering? then [Local(u, Answer)] else []) + [Local(u, Close), Free(u)]
    ensures Run(s, es) == Some(r) && u < |r.sessions|
    ensures r.sessions[u].closes == 1 && r.sessions[u].frees == 1 && r.sessions[u].status == Disconnected
    ensures forall i | 0 <= i < |r.table| :: r.table[i] != Some(u)
  {
    ReachableInv(s);
    assert Sessions.Inv(s.sessions[u]);
    var last := [Local(u, Close), Free(u)];
    if s.sessions[u].pc.Answering? {
      var s1 := AnswerStep(s, u);
      r := CloseAndFree(s1, u);
      es := [Local(u, Answer)] + last;
      RunCons(s, Local(u, Answer), last);
    } else {
      r := CloseAndFree(s, u);
      es := last;
      assert [] + last == last;
    }
    FreedOnce(s, es, u, r);
  }

  lemma FreedOnce(s: State, es: seq<Event>, u: nat, r: State)
    requires Reachable(s) && Run(s, es) == Some(r) && u < |r.sessions| && r.sessions[u].frees > 0
    ensures r.sessions[u].closes == 1 && r.sessions[u].frees == 1
    ensures forall i | 0 <= i < |r.table| :: r.table[i] != Some(u)
  {
    RunAppendReachable(s, es);
    OnceEach(r, u);
  }

  lemma AnswerStep(s: State, u: nat) returns (s1: State)
    requires Reachable(s) && Chat.Inv(s) && u < |s.sessions|
    requires s.sessions[u].status == Suspended && s.sessions[u].pc.Answering?
    ensures Chat.Enabled(s, Local(u, Answer)) && s1 == Chat.Next(s, Local(u, Answer)) && Chat.Inv(s1)
    ensures |s1.sessions| == |s.sessions| && s1.sessions[u].pc == Ending
  {
    s1 := Chat.Next(s, Local(u, Answer));
    LocalKeeps(s, u, Answer);
  }

  lemma CloseAndFree(s: State, u: nat) returns (r: State)
    requires Chat.Inv(s) && u < |s.sessions| && s.sessions[u].pc == Ending
    ensures Run(s, [Local(u, Close), Free(u)]) == Some(r)
    ensures |r.sessions| == |s.sessions| && r.sessions[u].pc == Gone && r.sessions[u].frees == s.sessions[u].frees + 1
    ensures r.sessions[u].closes == s.sessions[u].closes + 1 && r.sessions[u].status == Disconnected
  {
    assert Sessions.Inv(s.sessions[u]);
    LocalEnabled(s, u, Close);
    LocalKeeps(s, u, Close);
    var s1 := Chat.Next(s, Local(u, Close));
    assert s1.sessions[u].pc == Closing && Occupies(s1, u);
    r := Chat.Next(s1, Free(u));
    RunTwo(s, Local(u, Close), Free(u));
  }

  // ----- Capacity -----

  function JoinedUsers(s: State): set<nat> {
    set u | 0 <= u < |s.sessions| && s.sessions[u].status == Joined
  }

  /** Distinct users sit in distinct slots, so a set of users below slot `n` has at most `n` members. */
  lemma {:induction false} Pigeonhole(s: State, us: set<nat>, n: nat)
    requires SlotsInv(s) && forall u | u in us :: Occupies(s, u) && s.sessions[u].slot < n
    ensures |us| <= n
    decreases n
  {
    if n == 0 {
      if u :| u in us {
        assert false;
      }
    } else {
      var lower := set u | u in us && s.sessions[u].slot != n - 1;
      Pigeonhole(s, lower, n - 1);
      if v :| v in us && s.sessions[v].slot == n - 1 {
        assert us == lower + {v};
      } else {
        assert us == lower;
      }
    }
  }

  /** A joined user passed the handshake and sits below slot 64, so no more than 64 are joined. */
  lemma Capacity(s: State)
    requires Reachable(s)
    ensures forall u | u in JoinedUsers(s) :: s.sessions[u].verified && s.sessions[u].slot < 64
    ensures |JoinedUsers(s)| <= 64
  {
    ReachableInv(s);
    forall u | u in JoinedUsers(s)
      ensures s.sessions[u].verified && s.sessions[u].slot < MAX_USER && Occupies(s, u)
    {
      assert Sessions.Inv(s.sessions[u]);
    }
    Pigeonhole(s, JoinedUsers(s), MAX_USER);
  }

  /**
   * A connection accepted by an uninterrupted scan can never join exactly when slots 0 to 63 were all
   * occupied at that moment.
   */
  lemma RefusedWhenFull(s: State)
    requires SlotsInv(s)
    ensures var r := LowestFree(s.table, 0);
            r == None || r.value >= 64 <==> forall i | 0 <= i < 64 :: s.table[i].Some?
  {
    var r := LowestFree(s.table, 0);
    if r.Some? && r.value < MAX_USER {
      assert s.table[r.value] == None;
    }
  }
}
