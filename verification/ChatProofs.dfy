/** Every interleaved step keeps the invariant of the whole system. */
module ChatProofs {
  import opened CText
  import opened Codec
  import opened Replies
  import opened Users
  import opened Handlers
  import opened Sessions
  import opened Scheduled
  import opened Chat
  import SessionProofs
  import Receivers

  // ----- Frames: what one changed session leaves alone -----

  function Put(s: State, u: nat, x: Session): State
    requires u < |s.sessions|
  {
    s.(sessions := s.sessions[u := x])
  }

  lemma LocalIsPut(s: State, u: nat, step: Step)
    requires u < |s.sessions| && Chat.Enabled(s, Local(u, step))
    ensures Sessions.Enabled(s.sessions[u], step)
    ensures Chat.Next(s, Local(u, step)) == Put(s, u, Sessions.Next(s.sessions[u], step))
  {
  }

  /** The parts of a session the other users' invariants depend on. */
  predicate SamePlace(x: Session, y: Session) {
    && x.slot == y.slot && (x.pc == Gone <==> y.pc == Gone)
    && (x.channel.Some? <==> y.channel.Some?)
    && (x.channel.Some? ==>
          && x.channel.value.sent == y.channel.value.sent
          && x.channel.value.since == y.channel.value.since
          && x.channel.value.early == y.channel.value.early)
  }

  lemma PutKeeps(s: State, u: nat, x: Session)
    requires Chat.Inv(s) && u < |s.sessions| && SamePlace(s.sessions[u], x) && Sessions.Inv(x)
    ensures Chat.Inv(Put(s, u, x))
  {
    var s' := Put(s, u, x);
    assert s'.sessions[u].channel.Some? ==>
        TrafficOf(s.sessions[u].channel.value, s.msgs, u) && TrafficOf(x.channel.value, s.msgs, u) by {
      if x.channel.Some? {
        SameTraffic(s.sessions[u].channel.value, x.channel.value, s.msgs, u);
      }
    }
  }

  lemma SameTraffic(c: Receivers.Channel, d: Receivers.Channel, msgs: seq<Sched>, u: nat)
    requires TrafficOf(c, msgs, u) && d.sent == c.sent && d.since == c.since && d.early == c.early
    ensures TrafficOf(d, msgs, u)
  {
    forall id | 0 <= id < |msgs| ensures Balanced(d, msgs[id], id, u) {
      assert Balanced(c, msgs[id], id, u);
    }
  }

  // ----- One lemma for each kind of event -----

  lemma LocalKeeps(s: State, u: nat, step: Step)
    requires Chat.Inv(s) && Chat.Enabled(s, Local(u, step))
    ensures Chat.Inv(Chat.Next(s, Local(u, step)))
  {
    SessionProofs.StepKeeps(s.sessions[u], step);
    SessionProofs.StepAdvances(s.sessions[u], step);
    PutKeeps(s, u, Sessions.Next(s.sessions[u], step));
  }

  lemma AcceptKeeps(s: State, e: Event)
    requires Chat.Inv(s) && Chat.Enabled(s, e) && e in {BeginAccept, ScanSlot, AbortAccept}
    ensures Chat.Inv(Chat.Next(s, e))
  {
  }

  lemma FreshInv(slot: nat, name: Text)
    requires slot < SCANNED && Generated(name)
    ensures Sessions.Inv(Fresh(slot, name))
  {
  }

  lemma CommitKeeps(s: State, name: Text)
    requires Chat.Inv(s) && Chat.Enabled(s, Commit(name))
    ensures Chat.Inv(Chat.Next(s, Commit(name)))
  {
    FreshInv(s.acceptor.i, name);
    var s' := Chat.Next(s, Commit(name));
    forall u | 0 <= u < |s'.sessions| && s'.sessions[u].pc != Gone ensures Occupies(s', u) {
      if u < |s.sessions| {
        assert Occupies(s, u);
      }
    }
  }

  lemma FreeKeeps(s: State, u: nat)
    requires Chat.Inv(s) && Chat.Enabled(s, Free(u))
    ensures Chat.Inv(Chat.Next(s, Free(u)))
  {
    var s' := Chat.Next(s, Free(u));
    forall v | 0 <= v < |s'.sessions| && s'.sessions[v].pc != Gone ensures Occupies(s', v) {
      assert Occupies(s, v);
    }
    assert s'.sessions[u].channel == s.sessions[u].channel;
    FreedSession(s.sessions[u]);
  }

  lemma FreedSession(x: Session)
    requires Sessions.Inv(x) && x.pc == Closing
    ensures Sessions.Inv(Freed(x))
  {
  }

  /** A receiver that attaches owes nothing but what is underway to its user. */
  lemma AttachedTraffic(s: State, u: nat)
    requires MessagesInv(s) && u < |s.sessions|
    ensures TrafficOf(Receivers.Attached(|s.msgs|, Underway(s, u)), s.msgs, u)
  {
    var c := Receivers.Attached(|s.msgs|, Underway(s, u));
    forall id | 0 <= id < |s.msgs| ensures Balanced(c, s.msgs[id], id, u) {
      CountDistinct(s.msgs[id].targets, u);
    }
  }

  lemma AttachedSession(x: Session, since: nat, early: set<nat>)
    requires Sessions.Inv(x) && x.slot < MAX_USER
    ensures Sessions.Inv(x.(channel := Some(Receivers.Attached(since, early))))
  {
  }

  lemma AttachKeeps(s: State, u: nat)
    requires Chat.Inv(s) && Chat.Enabled(s, Attach(u))
    ensures Chat.Inv(Chat.Next(s, Attach(u)))
  {
    var early := Underway(s, u);
    var x := s.sessions[u].(channel := Some(Receivers.Attached(|s.msgs|, early)));
    AttachedTraffic(s, u);
    AttachedSession(s.sessions[u], |s.msgs|, early);
    SlotsFrame(s, u, x, s.msgs);
  }

  lemma SendToKeeps(x: Session, m: nat)
    requires Sessions.Inv(x)
    ensures Sessions.Inv(SendTo(x, m)) && SendTo(x, m).slot == x.slot && SendTo(x, m).pc == x.pc
  {
    if x.channel.Some? {
      Receivers.DeliverAndCloseKeep(x.channel.value, m);
    }
  }

  /** The slot table does not depend on messages, nor on anything of a session but its slot and its end. */
  lemma SlotsFrame(s: State, u: nat, x: Session, msgs: seq<Sched>)
    requires SlotsInv(s) && u < |s.sessions| && x.slot == s.sessions[u].slot && x.pc == s.sessions[u].pc
    ensures SlotsInv(s.(sessions := s.sessions[u := x], msgs := msgs))
  {
    var s' := s.(sessions := s.sessions[u := x], msgs := msgs);
    forall v | 0 <= v < |s'.sessions| && s'.sessions[v].pc != Gone ensures Occupies(s', v) {
      assert Occupies(s, v);
    }
  }

  lemma DeliveredTraffic(s: State, m: nat, u: nat)
    requires TrafficInv(s) && m < |s.msgs| && u < |s.sessions| && u in s.msgs[m].waiting
    ensures TrafficInv(Delivered(s, m, u))
  {
    var s' := Delivered(s, m, u);
    forall v | 0 <= v < |s'.sessions| && s'.sessions[v].channel.Some?
      ensures TrafficOf(s'.sessions[v].channel.value, s'.msgs, v)
    {
      DeliverKeepsTraffic(s.sessions[v].channel.value, s.msgs, m, u, v);
    }
  }

  lemma DeliveredMessages(s: State, m: nat, u: nat)
    requires MessagesInv(s) && m < |s.msgs| && u < |s.sessions| && u in s.msgs[m].waiting
    ensures MessagesInv(Delivered(s, m, u))
  {
    FinishKeeps(s.msgs[m], u);
  }

  lemma DeliverKeeps(s: State, m: nat, u: nat)
    requires Chat.Inv(s) && m < |s.msgs| && u < |s.sessions| && u in s.msgs[m].waiting
    ensures Chat.Inv(Delivered(s, m, u))
  {
    SendToKeeps(s.sessions[u], m);
    SlotsFrame(s, u, SendTo(s.sessions[u], m), Delivered(s, m, u).msgs);
    DeliveredMessages(s, m, u);
    DeliveredTraffic(s, m, u);
  }

  lemma DeliverKeepsTraffic(c: Receivers.Channel, msgs: seq<Sched>, m: nat, u: nat, v: nat)
    requires TrafficOf(c, msgs, v) && m < |msgs| && u in msgs[m].waiting
    ensures TrafficOf(if v == u then Receivers.Deliver(c, m) else c, msgs[m := Finish(msgs[m], u)], v)
  {
    var d := if v == u then Receivers.Deliver(c, m) else c;
    var msgs' := msgs[m := Finish(msgs[m], u)];
    forall id | 0 <= id < |msgs'| ensures Balanced(d, msgs'[id], id, v) {
      assert Balanced(c, msgs[id], id, v);
    }
  }

  // ----- Serving a request -----

  lemma ViewNames(s: State)
    requires SlotsInv(s) && SessionsInv(s)
    ensures NamesOk(View(s))
  {
  }

  lemma ServedPlace(s: Session, request: Message, o: Outcome)
    requires CanServe(s)
    ensures SamePlace(s, Served(s, request, o))
  {
  }

  /** A console client's request always decodes to what it asked, and can be run. */
  lemma RequestsAreServable(s: State, u: nat)
    requires SlotsInv(s) && SessionsInv(s) && u < |s.sessions| && CanServe(s.sessions[u])
    requires s.sessions[u].link.client != Foreign
    ensures Occupies(s, u) && Servable(s.sessions[u])
    ensures var l := s.sessions[u].link;
            |l.served| < |l.asked| && Incoming(s.sessions[u]) == Valid(l.asked[|l.served|])
  {
    SessionProofs.IncomingIsAsked(s.sessions[u]);
  }

  lemma ScheduledOk(s: State, me: nat, m: Message)
    requires SlotsInv(s) && me < TABLE_SIZE && s.table[me].Some? && Runnable(m)
    requires Execute(View(s), me, m).spawn.Some?
    ensures var x := Scheduling(s, Execute(View(s), me, m))[0];
            Scheduled.Inv(x) && x.waiting == multiset(x.targets) && forall u | u in x.targets :: u < |s.sessions|
  {
    var t := View(s);
    ExecuteSpawn(t, me, m);
    var spawn := Execute(t, me, m).spawn.value;
    var uids := Uids(s, spawn.targets);
    forall j, k | 0 <= j < k < |uids| ensures uids[j] != uids[k] {
      assert t[spawn.targets[j]].Some? && t[spawn.targets[k]].Some?;
    }
    forall u | u in uids ensures u < |s.sessions| {
      var k :| 0 <= k < |uids| && uids[k] == u;
      assert t[spawn.targets[k]].Some?;
    }
    CreateInv(spawn.saying, spawn.limit, uids);
  }

  /** A new message is on its way to all its targets. */
  lemma AppendKeepsTraffic(c: Receivers.Channel, msgs: seq<Sched>, x: Sched, u: nat)
    requires TrafficOf(c, msgs, u) && Distinct(x.targets) && x.waiting == multiset(x.targets)
    ensures TrafficOf(c, msgs + [x], u)
  {
    forall id | 0 <= id < |msgs + [x]| ensures Balanced(c, (msgs + [x])[id], id, u) {
      if id < |msgs| {
        assert Balanced(c, msgs[id], id, u);
      } else {
        CountDistinct(x.targets, u);
        assert id !in c.sent;
      }
    }
  }

  lemma AppendKeeps(s: State, x: Sched)
    requires Chat.Inv(s) && Scheduled.Inv(x) && x.waiting == multiset(x.targets)
    requires forall u | u in x.targets :: u < |s.sessions|
    ensures Chat.Inv(s.(msgs := s.msgs + [x]))
  {
    var s' := s.(msgs := s.msgs + [x]);
    forall u | 0 <= u < |s'.sessions| && s'.sessions[u].channel.Some?
      ensures TrafficOf(s'.sessions[u].channel.value, s'.msgs, u)
    {
      AppendKeepsTraffic(s.sessions[u].channel.value, s.msgs, x, u);
    }
    forall u | 0 <= u < |s'.sessions| && s'.sessions[u].pc != Gone ensures Occupies(s', u) {
      assert Occupies(s, u);
    }
  }

  lemma ServeKeeps(s: State, u: nat)
    requires Chat.Inv(s) && Chat.Enabled(s, Serve(u))
    ensures Chat.Inv(Chat.Next(s, Serve(u)))
  {
    if HasRequest(s, u) {
      RunKeepsInv(s, u, Request(s, u));
    } else {
      SessionProofs.RejectKeeps(s.sessions[u]);
      PutKeeps(s, u, Rejected(s.sessions[u]));
    }
  }

  lemma RunKeepsInv(s: State, u: nat, m: Message)
    requires Chat.Inv(s) && Chat.Enabled(s, Serve(u)) && Incoming(s.sessions[u]) == Valid(m)
    ensures Chat.Inv(Chat.Next(s, Serve(u)))
  {
    var x, t := s.sessions[u], View(s);
    ViewNames(s);
    SessionProofs.ServeKeeps(x, t, m);
    var o := Execute(t, x.slot, m);
    ServedPlace(x, m, o);
    PutKeeps(s, u, Served(x, m, o));
    ScheduleKeeps(s, u, m);
  }

  /** The state after a request was run: its caller, and the message it scheduled. */
  lemma ServedIs(s: State, u: nat, m: Message)
    requires Chat.Enabled(s, Serve(u)) && Incoming(s.sessions[u]) == Valid(m)
    ensures Runnable(m) && Occupies(s, u)
    ensures var o := Execute(View(s), s.sessions[u].slot, m);
            Chat.Next(s, Serve(u)) == Put(s, u, Served(s.sessions[u], m, o)).(msgs := s.msgs + Scheduling(s, o))
  {
  }

  lemma ScheduleKeeps(s: State, u: nat, m: Message)
    requires Chat.Inv(s) && Chat.Enabled(s, Serve(u)) && Incoming(s.sessions[u]) == Valid(m)
    requires Chat.Inv(Put(s, u, Served(s.sessions[u], m, Execute(View(s), s.sessions[u].slot, m))))
    ensures Chat.Inv(Chat.Next(s, Serve(u)))
  {
    ServedIs(s, u, m);
    var x := s.sessions[u];
    var o := Execute(View(s), x.slot, m);
    var s1 := Put(s, u, Served(x, m, o));
    if o.spawn.Some? {
      ScheduledOk(s, x.slot, m);
      AppendKeeps(s1, Scheduling(s, o)[0]);
    } else {
      assert s.msgs + [] == s.msgs;
    }
  }

  // ----- Runs -----

  lemma StepKeeps(s: State, e: Event)
    requires Chat.Inv(s) && Chat.Enabled(s, e)
    ensures Chat.Inv(Chat.Next(s, e))
  {
    match e {
      case Commit(name) => CommitKeeps(s, name);
      case Local(u, step) => LocalKeeps(s, u, step);
      case Serve(u) => ServeKeeps(s, u);
      case Free(u) => FreeKeeps(s, u);
      case Attach(u) => AttachKeeps(s, u);
      case Deliver(m, u) => DeliverKeeps(s, m, u);
      case _ => AcceptKeeps(s, e);
    }
  }

  lemma {:induction false} RunKeeps(s: State, es: seq<Event>)
    requires Chat.Inv(s) && Run(s, es).Some?
    ensures Chat.Inv(Run(s, es).value)
    decreases |es|
  {
    if es != [] {
      RunKeeps(s, es[..|es| - 1]);
      StepKeeps(Run(s, es[..|es| - 1]).value, es[|es| - 1]);
    }
  }

  lemma ReachableInv(s: State)
    requires Reachable(s)
    ensures Chat.Inv(s)
  {
    var es :| Run(Initial(), es) == Some(s);
    RunKeeps(Initial(), es);
  }
}
