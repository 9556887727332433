/** What a session's client is sent for each request, in every reachable state, down to the bytes. */
module Answers {
  import opened CText
  import opened Codec
  import opened Replies
  import opened Users
  import opened Phrases
  import opened Handlers
  import opened Sessions
  import opened Scheduled
  import opened Chat
  import opened ChatProofs
  import opened ChatTheorems
  import opened Names
  import opened StrTok
  import opened RosterProofs
  import Outcomes
  import Secrets
  import ClientPrograms
  import Console
  import Receivers
  import SessionProofs

  /** The request at the head of `u`'s channel, the table it is run on, and its outcome. */
  function OutcomeOf(s: State, u: nat): Outcome
    requires Tabled(s) && Occupies(s, u) && HasRequest(s, u) && Runnable(Request(s, u))
  {
    Execute(View(s), s.sessions[u].slot, Request(s, u))
  }

  ghost predicate Serving(s: State, u: nat) {
    Reachable(s) && Chat.Enabled(s, Serve(u)) && HasRequest(s, u)
  }

  lemma ServingOk(s: State, u: nat)
    requires Serving(s, u)
    ensures Chat.Inv(s) && Tabled(s) && Occupies(s, u) && Runnable(Request(s, u)) && NulFree(Request(s, u).text)
    ensures View(s)[s.sessions[u].slot] == Some(UserOf(s.sessions[u])) && NamesOk(View(s))
    ensures s.sessions[u].status in {Established, Joined}
  {
    ReachableInv(s);
    assert Sessions.Inv(s.sessions[u]);
    ReadBackText(s.sessions[u].link.requests[0], PACKET_SIZE);
    ViewNames(s);
  }

  function Written(s: State, u: nat): seq<Text>
    requires u < |s.sessions|
  {
    s.sessions[u].link.replies
  }

  /** `u` is now `user`, what was scheduled is `msgs`, and no other session changed. */
  ghost predicate Became(s: State, s': State, u: nat, user: User, msgs: seq<Sched>) {
    && u < |s.sessions| == |s'.sessions| && UserOf(s'.sessions[u]) == user && s'.msgs == s.msgs + msgs
    && s'.sessions[u].slot == s.sessions[u].slot && s'.sessions[u].channel == s.sessions[u].channel
    && forall v | 0 <= v < |s.sessions| && v != u :: s'.sessions[v] == s.sessions[v]
  }

  /** Running a request: the caller, the messages, and the acknowledgement if there is one. */
  lemma ServedBecomes(s: State, u: nat, o: Outcome)
    requires Serving(s, u) && Tabled(s) && Occupies(s, u) && Runnable(Request(s, u)) && o == OutcomeOf(s, u)
    ensures var s' := Chat.Next(s, Serve(u));
            && Became(s, s', u, o.me, Scheduling(s, o))
            && s'.sessions[u].pc == Answering(o.code, Request(s, u))
            && Written(s', u) == Written(s, u) +
                 (if o.ack == None then [] else [Encode(AckMessage(o.ack.value).kind, AckMessage(o.ack.value).text)])
  {
    ServingOk(s, u);
    ServedState(s, u);
    ExecuteReceiver(View(s), s.sessions[u].slot, Request(s, u));
  }

  /** After a reply word, the client has that word and nothing else. */
  lemma WordWritten(s: State, u: nat, user: User, word: Text)
    requires Serving(s, u) && Tabled(s) && Occupies(s, u) && Runnable(Request(s, u))
    requires var o := OutcomeOf(s, u);
             o.code != Skip && CodeWord(o.code) == word && o.ack == None && o.me == user
    requires OutcomeOf(s, u).code == Bye ==> user.status == Suspended
    ensures var s' := Chat.Next(s, Serve(u));
            && Chat.Enabled(s', Local(u, Answer))
            && Became(s, s', u, user, Scheduling(s, OutcomeOf(s, u)))
            && Became(s, Chat.Next(s', Local(u, Answer)), u, user, Scheduling(s, OutcomeOf(s, u)))
            && Written(Chat.Next(s', Local(u, Answer)), u) == Written(s, u) + [word]
  {
    var o := OutcomeOf(s, u);
    ServedBecomes(s, u, o);
    ServingOk(s, u);
    var s' := Chat.Next(s, Serve(u));
    ReachableNext(s, Serve(u));
    ReachableInv(s');
    LocalEnabled(s', u, Answer);
    LocalIsPut(s', u, Answer);
    AnswerWrites(s'.sessions[u], o.code);
  }

  lemma AnswerWrites(x: Session, code: Code)
    requires x.pc.Answering? && x.pc.code == code && code != Skip
    ensures var y := Sessions.Next(x, Answer);
            && y.link.replies == x.link.replies + [CodeWord(code)]
            && UserOf(y) == UserOf(x).(status := if code == Bye then Suspended else x.status)
            && y.slot == x.slot && y.channel == x.channel
  {
  }

  /** After an acknowledgement, the client has a packet it reads as that acknowledgement. */
  lemma AckWritten(s: State, u: nat, user: User, a: Ack) returns (w: Text)
    requires Serving(s, u) && Tabled(s) && Occupies(s, u) && Runnable(Request(s, u))
    requires OutcomeOf(s, u) == Acknowledge(user, a)
    ensures var s' := Chat.Next(s, Serve(u));
            && Became(s, s', u, user, []) && Written(s', u) == Written(s, u) + [w]
            && Understood(w) == Packet(AckMessage(a))
  {
    ServingOk(s, u);
    ServedBecomes(s, u, Acknowledge(user, a));
    var m := AckMessage(a);
    w := Encode(m.kind, m.text);
    SessionAck(s, u, a);
    AckIsRead(m, w);
  }

  lemma AckIsRead(m: Message, w: Text)
    requires Sendable(Packet(m)) && m.length == |m.text| && w == Encode(m.kind, m.text)
    ensures Understood(w) == Packet(m)
  {
    ReplyRecovered(Packet(m), w);
  }

  lemma SessionAck(s: State, u: nat, a: Ack)
    requires Serving(s, u) && Tabled(s) && Occupies(s, u) && Runnable(Request(s, u)) && OutcomeOf(s, u).ack == Some(a)
    ensures Sendable(Packet(AckMessage(a)))
  {
    ServingOk(s, u);
    SessionProofs.ExecuteAck(View(s), s.sessions[u].slot, Request(s, u));
  }



  // ----- `/status` -----

  /** A status request of a user that is not verified is answered FAIL, and changes nothing. */
  lemma StatusRefused(s: State, u: nat)
    requires Serving(s, u) && Request(s, u).kind == 4 && !s.sessions[u].verified
    ensures var s' := Chat.Next(s, Serve(u));
            && Chat.Enabled(s', Local(u, Answer))
            && Became(s, Chat.Next(s', Local(u, Answer)), u, UserOf(s.sessions[u]), [])
            && Written(Chat.Next(s', Local(u, Answer)), u) == Written(s, u) + ["FAIL"]
  {
    ServingOk(s, u);
    Outcomes.StatusOutcome(View(s), s.sessions[u].slot, Request(s, u));
    WordWritten(s, u, UserOf(s.sessions[u]), "FAIL");
  }

  /**
   * A status request of a verified user is answered by one type 4 packet; if no joined name holds a newline,
   * and only then, the console shows it as a head that counts the joined users and one line for each, by
   * number and name.
   */
  lemma StatusAnswered(s: State, u: nat) returns (w: Text, m: Message, head: Text, lines: seq<Text>)
    requires Serving(s, u) && Request(s, u).kind == 4 && s.sessions[u].verified
    ensures var s' := Chat.Next(s, Serve(u));
            && Became(s, s', u, UserOf(s.sessions[u]), []) && Written(s', u) == Written(s, u) + [w]
    ensures Understood(w) == Packet(m) && m.kind == 4 && m.length == |m.text|
    ensures Tabled(s) && ListsJoined(head, lines, "현재 접속한 인원 정보 [", View(s), s.sessions[u].slot)
    ensures NewlineFree(View(s)) <==> ClientPrograms.Displayed(m) == [head] + lines
  {
    ServingOk(s, u);
    var t, me := View(s), s.sessions[u].slot;
    Outcomes.StatusOutcome(t, me, Request(s, u));
    var a := Roster(t, me);
    w := AckWritten(s, u, UserOf(s.sessions[u]), a);
    m, head, lines := AckMessage(a), RosterHead(a), Lines(t, me);
    StatusPacket(a, AckString(a));
  }

  lemma StatusPacket(a: Ack, title: string)
    requires a.Roster? && title == AckString(a)
    ensures title == "현재 접속한 인원 정보 ["
    ensures AckMessage(a).kind == 4 && AckMessage(a).length == |AckMessage(a).text|
    ensures ListsJoined(RosterHead(a), Lines(a.table, a.you), title, a.table, a.you)
    ensures NewlineFree(a.table) <==> Tokens(AckMessage(a).text, '\n') == [RosterHead(a)] + Lines(a.table, a.you)
  {
    RosterTitle(a);
    RosterLists(a, title);
    RosterSplits(a);
  }

  // ----- A full server -----

  /**
   * The right greeting from slot 64 or above: one refusal is written, nothing scheduled, the session is
   * suspended, no run serves it again, and it has a run that frees it.
   */
  lemma FullServerTurnsAway(s: State, u: nat) returns (w: Text, es: seq<Event>, r: State)
    requires Serving(s, u) && Request(s, u).kind == 0 && Hello(Request(s, u).text) == "CLIENT_VERSION 1.0.0"
    requires s.sessions[u].slot >= 64
    ensures var s' := Chat.Next(s, Serve(u));
            && Became(s, s', u, UserOf(s.sessions[u]).(status := Suspended), []) && Written(s', u) == Written(s, u) + [w]
            && Understood(w) == Packet(AckMessage(Refused(ServerFull)))
            && (forall fs | Run(s', fs).Some? :: !Chat.Enabled(Run(s', fs).value, Serve(u)))
            && Run(s', es) == Some(r) && u < |r.sessions| && r.sessions[u].closes == 1 && r.sessions[u].frees == 1
  {
    ServingOk(s, u);
    Outcomes.GreetingOutcome(View(s), s.sessions[u].slot, Request(s, u));
    var gone := UserOf(s.sessions[u]).(status := Suspended);
    w := AckWritten(s, u, gone, Refused(ServerFull));
    var s' := Chat.Next(s, Serve(u));
    ReachableNext(s, Serve(u));
    forall fs | Run(s', fs).Some? ensures !Chat.Enabled(Run(s', fs).value, Serve(u)) {
      NoCommandAfterSuspend(s', fs, u);
    }
    es, r := SuspendedIsFreed(s', u);
  }

  // ----- Chat lines -----

  ghost predicate JoinedAre(s: State, targets: seq<nat>) {
    forall v: nat :: v in targets <==> JoinedNow(s, v)
  }

  /** Exactly one message was scheduled: `saying`, for exactly the users joined now, its limit their number. */
  ghost predicate ScheduledForJoined(s: State, s': State, saying: Saying) {
    && |s'.msgs| == |s.msgs| + 1 && s.msgs <= s'.msgs
    && var x := s'.msgs[|s.msgs|];
       x.saying == saying && x.max == |x.targets| && JoinedAre(s', x.targets)
  }

  /** A chat message of any client is scheduled with its text for all joined users, and answered OK. */
  lemma ChatServed(s: State, u: nat)
    requires Serving(s, u) && Request(s, u).kind == 1
    ensures var s', user := Chat.Next(s, Serve(u)), UserOf(s.sessions[u]);
            && ScheduledForJoined(s, s', Chat(NameOf(s, u), Request(s, u).text))
            && Chat.Enabled(s', Local(u, Answer))
            && Became(s, s', u, user, s'.msgs[|s.msgs|..])
            && Became(s, Chat.Next(s', Local(u, Answer)), u, user, s'.msgs[|s.msgs|..])
            && Written(Chat.Next(s', Local(u, Answer)), u) == Written(s, u) + ["OK"]
  {
    ServingOk(s, u);
    var t, me := View(s), s.sessions[u].slot;
    Outcomes.ChatOutcome(t, me, Request(s, u));
    WordWritten(s, u, UserOf(s.sessions[u]), "OK");
    var s' := Chat.Next(s, Serve(u));
    BroadcastReachesJoined(s, u);
    ScheduledNow(s, u, OutcomeOf(s, u));
  }

  /** A handler that schedules for all joined users schedules one message for exactly those. */
  lemma ScheduledNow(s: State, u: nat, o: Outcome)
    requires Serving(s, u) && Tabled(s) && Occupies(s, u) && Runnable(Request(s, u)) && o == OutcomeOf(s, u)
    requires Request(s, u).kind != 3 && o.spawn.Some?
    ensures var s' := Chat.Next(s, Serve(u));
            ScheduledForJoined(s, s', o.spawn.value.saying) && s'.msgs[|s.msgs|..] == Scheduling(s, o)
  {
    ServedBecomes(s, u, o);
    BroadcastReachesJoined(s, u);
    ServingOk(s, u);
    ExecuteSpawn(View(s), s.sessions[u].slot, Request(s, u));
  }

  /**
   * Message `id` of `r` is `saying`, for exactly the users joined in `d`; those attached then have read it
   * exactly once when all is delivered to them, and nobody else was sent it.
   */
  ghost predicate ReachedJoined(d: State, r: State, id: nat, saying: Saying) {
    && id < |r.msgs| && r.msgs[id].saying == saying && JoinedAre(d, r.msgs[id].targets)
    && (forall v | 0 <= v < |d.sessions| && d.sessions[v].channel.Some? :: Secrets.AttachedBy(r, v, id))
    && Secrets.OnlyTargetsGot(r, id, r.msgs[id].targets)
  }

  lemma LineRequest(s: State, u: nat, line: Text, es: seq<Event>, d: State)
    requires Reachable(s) && u < |s.sessions| && s.sessions[u].link.client == Ready && line != [] && line[0] != '/'
    requires Run(s, [Local(u, Ask(line))] + es) == Some(d) && Serve(u) !in es && Chat.Enabled(d, Serve(u))
    ensures Serving(d, u) && Request(d, u) == Message(1, |line|, line)
  {
    Secrets.LineIsServed(s, u, line, es, d);
    Console.ParseIs(line);
  }

  /**
   * From the keyboard to the receivers.  A line that does not start with a slash is typed, any steps follow,
   * the server serves it in state `d`, and any steps follow: the users joined then get it, each exactly once,
   * nobody else does, and its packet reads "[sender]: line".
   */
  lemma ChatArrives(s: State, u: nat, line: Text, es: seq<Event>, d: State, fs: seq<Event>, r: State)
    requires Reachable(s) && u < |s.sessions| && s.sessions[u].link.client == Ready && line != [] && line[0] != '/'
    requires Run(s, [Local(u, Ask(line))] + es) == Some(d) && Serve(u) !in es && Chat.Enabled(d, Serve(u))
    requires 4 + |NameOf(d, u)| + |line| <= 16371 && Run(Chat.Next(d, Serve(u)), fs) == Some(r)
    ensures Serving(d, u) && Request(d, u) == Message(1, |line|, line)
    ensures ReachedJoined(Chat.Next(d, Serve(u)), r, |d.msgs|, Chat(NameOf(d, u), line))
    ensures ReadsAs(Chat(NameOf(d, u), line), "[" + NameOf(d, u) + "]: " + line)
  {
    LineRequest(s, u, line, es, d);
    ChatReached(d, u, line, fs, r);
    ServingOk(d, u);
    SenderName(d, u);
    ChatReads(NameOf(d, u), line);
  }

  lemma SenderName(d: State, u: nat)
    requires Chat.Inv(d) && u < |d.sessions|
    ensures NameOk(NameOf(d, u))
  {
    assert Sessions.Inv(d.sessions[u]);
  }

  /** The same from the dispatch on, for a chat message of any client. */
  lemma ChatReached(d: State, u: nat, line: Text, fs: seq<Event>, r: State)
    requires Serving(d, u) && Request(d, u).kind == 1 && Request(d, u).text == line
    requires Run(Chat.Next(d, Serve(u)), fs) == Some(r)
    ensures ReachedJoined(Chat.Next(d, Serve(u)), r, |d.msgs|, Chat(NameOf(d, u), line))
  {
    ChatServed(d, u);
    SpawnArrives(d, u, Chat.Next(d, Serve(u)), fs, r);
  }

  /** What was scheduled in one step keeps its text and its targets, and they get it. */
  lemma SpawnArrives(d: State, u: nat, d': State, fs: seq<Event>, r: State)
    requires Serving(d, u) && d' == Chat.Next(d, Serve(u)) && |d'.msgs| > |d.msgs| && Run(d', fs) == Some(r)
    requires |d'.sessions| == |d.sessions|
    requires forall v | 0 <= v < |d.sessions| :: d'.sessions[v].channel == d.sessions[v].channel
    ensures |d.msgs| < |r.msgs| && r.msgs[|d.msgs|].saying == d'.msgs[|d.msgs|].saying
    ensures r.msgs[|d.msgs|].targets == d'.msgs[|d.msgs|].targets
    ensures forall v | 0 <= v < |d'.sessions| && d'.sessions[v].channel.Some? :: Secrets.AttachedBy(r, v, |d.msgs|)
    ensures Secrets.OnlyTargetsGot(r, |d.msgs|, r.msgs[|d.msgs|].targets)
  {
    ReachableInv(d);
    ReachableNext(d, Serve(u));
    ReachableInv(d');
    RunAppendReachable(d', fs);
    TargetsAreFixed(d', fs, |d.msgs|);
    forall v | 0 <= v < |d'.sessions| && d'.sessions[v].channel.Some? ensures Secrets.AttachedBy(r, v, |d.msgs|) {
      Secrets.AttachedAtServe(d, d', v);
      Secrets.StaysAttached(d', fs, v, |d.msgs|);
    }
    Secrets.TargetsReceive(r, |d.msgs|);
  }
}
