/** Runs that show what the theorems' conditions are for. */
module Witness {
  import opened CText
  import opened Codec
  import opened Replies
  import opened Users
  import opened Handlers
  import opened Sessions
  import opened Scheduled
  import opened Chat
  import opened ChatProofs
  import opened ChatTheorems
  import opened Names
  import Secrets
  import SessionProofs
  import Receivers
  import Phrases
  import Console
  import Kinds

  lemma ReachableStep(s: State, e: Event)
    requires Reachable(s) && Chat.Enabled(s, e)
    ensures Reachable(Chat.Next(s, e)) && Chat.Inv(Chat.Next(s, e))
  {
    var es :| Run(Initial(), es) == Some(s);
    assert (es + [e])[..|es + [e]| - 1] == es;
    assert Run(Initial(), es + [e]) == Some(Chat.Next(s, e));
    ReachableInv(Chat.Next(s, e));
  }

  /** One user, alone in slot 0. */
  ghost predicate Alone(s: State) {
    && Reachable(s) && s.acceptor == Idle && |s.sessions| == 1 && s.sessions[0].slot == 0
    && |s.table| == TABLE_SIZE && s.table[0] == Some(0) && forall i | 1 <= i < TABLE_SIZE :: s.table[i] == None
  }

  ghost predicate JustConnected(s: State, client: Client) {
    && Alone(s) && s.msgs == []
    && s.sessions[0].pc == Looping && s.sessions[0].status == Established
    && s.sessions[0].channel == None && s.sessions[0].link.client == client
  }

  lemma InitialReachable()
    ensures Reachable(Initial()) && LowestFree(Initial().table, 0) == Some(0)
  {
    assert Run(Initial(), []) == Some(Initial());
  }

  lemma Connected() returns (s: State)
    ensures JustConnected(s, Greeting)
  {
    InitialReachable();
    var name := seq(12, _ => 'a');
    s := Accepted(Initial(), name, 0);
  }

  /** The session `x` after its client sent the request `m`. */
  ghost predicate AskedOf(x: Session, y: Session, m: Message) {
    && y == x.(link := y.link) && y.link.client == Waiting && y.link.requests != []
    && y.link.asked == [m] && y.link.served == []
  }

  lemma AskedGreeting(x: Session, line: Text)
    requires Sessions.Inv(x) && x.link.client == Greeting
    ensures AskedOf(x, Sessions.Next(x, Ask(line)), RequestFor(Greeting, line))
  {
  }

  lemma Greeted(line: Text) returns (s: State)
    ensures JustConnected(s, Waiting) && s.sessions[0].link.requests != []
    ensures s.sessions[0].link.asked == [RequestFor(Greeting, line)] && s.sessions[0].link.served == []
  {
    var r := Connected();
    AloneSession(r);
    AskedGreeting(r.sessions[0], line);
    s := LocalStep(r, Ask(line));
  }

  lemma {:induction false} OnlySlotZero(t: Table, n: nat)
    requires 1 <= n <= |t| && IsJoined(t[0]) && forall i | 1 <= i < |t| :: t[i] == None
    ensures JoinedBelow(t, n) == [0]
  {
    if n > 1 {
      OnlySlotZero(t, n - 1);
    } else {
      assert JoinedBelow(t, 0) == [];
    }
  }

  /** A client that greets an empty server is welcomed and announced to itself. */
  lemma GreetingOutcome(t: Table, m: Message)
    requires m == Console.Make(Kinds.HANDSHAKE, HELLO) && t[0].Some? && t[0].value.status == Established && forall i | 1 <= i < |t| :: t[i] == None
    ensures Runnable(m)
    ensures var o := Execute(t, 0, m);
            && o.code == Welcome && o.me == t[0].value.(status := Joined, verified := true) && o.ack == None
            && o.spawn == Some(Spawn(Phrases.Joins(t[0].value.name), 1, [0]))
  {
    HelloIsGreeting();
    WelcomeFirst(t, HELLO, CLIENT_PREFIX, PROGRAM_VERSION);
  }

  lemma WelcomeFirst(t: Table, text: Text, prefix: Text, version: Text)
    requires t[0].Some? && t[0].value.status == Established && forall i | 1 <= i < |t| :: t[i] == None
    requires text == prefix + " " + version && |prefix| == 14 && |version| < 32
    requires ' ' !in prefix && NulFree(version) && NulFree(prefix)
    requires prefix == CLIENT_PREFIX && version == PROGRAM_VERSION
    ensures HelloReadable(text)
    ensures var o := Handshake(t, 0, text);
            && o.code == Welcome && o.me == t[0].value.(status := Joined, verified := true) && o.ack == None
            && o.spawn == Some(Spawn(Phrases.Joins(t[0].value.name), 1, [0]))
  {
    SessionProofs.GreetingFields(text, prefix, version);
    HandshakeVerdict(t, 0, text);
    OnlySlotZero(t[0 := Some(t[0].value.(status := Joined, verified := true))], MAX_USER);
  }

  /** The user has joined, and its welcome is not sent yet. */
  predicate Welcomed(x: Session, served: seq<(Message, Reply)>) {
    && x.status == Joined && x.verified && x.channel == None && x.pc.Answering? && x.pc.code == Welcome
    && x.link.client == Waiting && x.link.served == served
  }

  lemma ServeGreeting(r: State) returns (s: State)
    requires JustConnected(r, Waiting) && Chat.Inv(r) && Chat.Enabled(r, Serve(0))
    requires HasRequest(r, 0) && Runnable(Request(r, 0))
    requires var o := Execute(View(r), 0, Request(r, 0));
             && o.code == Welcome && o.me == UserOf(r.sessions[0]).(status := Joined, verified := true) && o.ack == None
             && o.spawn == Some(Spawn(Phrases.Joins(r.sessions[0].name), 1, [0]))
    ensures s == Chat.Next(r, Serve(0)) && s.table == r.table && |s.sessions| == 1
    ensures Welcomed(s.sessions[0], r.sessions[0].link.served) && s.sessions[0].slot == 0
    ensures |s.msgs| == 1 && s.msgs[0].waiting == multiset{0} && s.acceptor == r.acceptor
  {
    ServedState(r, 0);
    s := Chat.Next(r, Serve(0));
    assert Uids(r, [0]) == [0];
    assert multiset([0]) == multiset{0};
  }

  lemma Announced() returns (s: State)
    ensures Alone(s) && Welcomed(s.sessions[0], [])
    ensures |s.msgs| == 1 && s.msgs[0].waiting == multiset{0}
  {
    var r := Greeted([]);
    GreetingServable(r);
    s := ServeGreeting(r);
    ReachableStep(r, Serve(0));
  }

  lemma GreetingServable(r: State)
    requires JustConnected(r, Waiting) && r.sessions[0].link.requests != []
    requires r.sessions[0].link.asked == [RequestFor(Greeting, [])] && r.sessions[0].link.served == []
    ensures Chat.Inv(r) && Chat.Enabled(r, Serve(0)) && HasRequest(r, 0) && Runnable(Request(r, 0))
    ensures var o := Execute(View(r), 0, Request(r, 0));
            && o.code == Welcome && o.me == UserOf(r.sessions[0]).(status := Joined, verified := true) && o.ack == None
            && o.spawn == Some(Spawn(Phrases.Joins(r.sessions[0].name), 1, [0]))
  {
    GreetingIsNext(r);
    GreetingOutcome(View(r), Request(r, 0));
  }

  lemma GreetingIsNext(r: State)
    requires JustConnected(r, Waiting) && r.sessions[0].link.requests != []
    requires r.sessions[0].link.asked == [RequestFor(Greeting, [])] && r.sessions[0].link.served == []
    ensures Chat.Inv(r) && Chat.Enabled(r, Serve(0)) && HasRequest(r, 0)
    ensures Request(r, 0) == RequestFor(Greeting, [])
  {
    ReachableInv(r);
    ServeEnabled(r, 0);
    Secrets.HeadIsAsked(r, 0);
  }

  lemma AttachedEarly() returns (s: State)
    ensures Alone(s) && |s.msgs| == 1 && s.msgs[0].waiting == multiset{0}
    ensures s.sessions[0].channel == Some(Receivers.Attached(1, {0}))
    ensures s.sessions[0].pc.Answering? && s.sessions[0].pc.code == Welcome && s.sessions[0].status == Joined
  {
    var r := Announced();
    ReachableInv(r);
    assert Occupies(r, 0);
    ReachableStep(r, Attach(0));
    s := Chat.Next(r, Attach(0));
    assert Underway(r, 0) == {0};
  }

  lemma DeliveredEarly() returns (s: State)
    ensures Alone(s) && |s.msgs| == 1 && s.msgs[0].waiting == multiset{}
    ensures s.sessions[0].channel == Some(Receivers.Deliver(Receivers.Attached(1, {0}), 0))
  {
    var r := AttachedEarly();
    ReachableStep(r, Deliver(0, 0));
    s := Chat.Next(r, Deliver(0, 0));
    assert multiset{0} - multiset{0} == multiset{};
  }

  lemma LocalStep(s: State, step: Step) returns (s': State)
    requires Alone(s) && Sessions.Enabled(s.sessions[0], step)
    ensures Chat.Enabled(s, Local(0, step)) && s' == Chat.Next(s, Local(0, step))
    ensures s' == Put(s, 0, Sessions.Next(s.sessions[0], step)) && Alone(s')
  {
    AloneSession(s);
    LocalEnabled(s, 0, step);
    ReachableNext(s, Local(0, step));
    LocalIsPut(s, 0, step);
    SlotStays(s.sessions[0], step);
    s' := Put(s, 0, Sessions.Next(s.sessions[0], step));
    StillAlone(s, s', Sessions.Next(s.sessions[0], step));
  }

  lemma AloneSession(s: State)
    requires Alone(s)
    ensures Sessions.Inv(s.sessions[0]) && Tabled(s)
  {
    ReachableInv(s);
  }

  lemma SlotStays(x: Session, step: Step)
    requires Sessions.Inv(x) && Sessions.Enabled(x, step)
    ensures Sessions.Next(x, step).slot == x.slot
  {
    SessionProofs.StepAdvances(x, step);
  }

  lemma StillAlone(s: State, s': State, y: Session)
    requires Alone(s) && y.slot == 0 && s' == Put(s, 0, y) && Reachable(s')
    ensures Alone(s')
  {
  }

  lemma ReadEarly() returns (s: State)
    ensures Alone(s) && |s.msgs| == 1 && s.msgs[0].waiting == multiset{} && s.sessions[0].channel.Some?
    ensures var c := s.sessions[0].channel.value; c.early == {0} && c.since == 1 && c.sent == [0] && c.got == 1
  {
    s := DeliveredEarly();
    s := LocalStep(s, Receiver(Receivers.SendReady));
    s := LocalStep(s, Receiver(Receivers.Take));
  }

  /** The announcement is still on its way when the receiver attaches, and is read all the same. */
  lemma EarlyDeliveryHappens() returns (s: State, u: nat)
    ensures Reachable(s) && Settled(s, u)
    ensures s.sessions[u].channel.value.early != {}
    ensures multiset(Got(s.sessions[u].channel.value)) != multiset(ScheduledSince(s, s.sessions[u].channel.value, u))
  {
    u := 0;
    s := ReadEarly();
    assert 0 in s.sessions[0].channel.value.early;
    ReceivedIsScheduledWhileAttached(s, 0);
  }

  // ----- The release at the end of a session -----

  /** A reader has taken the first token and waits for a packet; nothing was delivered. */
  lemma ReadingBeforeClose() returns (s: State)
    ensures Alone(s) && s.sessions[0].pc == Ending && s.sessions[0].channel.Some?
    ensures var c := s.sessions[0].channel.value; !c.token && c.lost == 0 && c.reader == Receivers.Reading && !c.closing
    ensures s.sessions[0].channel.value.sent == [] && s.sessions[0].channel.value.started == 1
  {
    s := AttachedEarly();
    s := LocalStep(s, Answer);
    s := LocalStep(s, Receiver(Receivers.Acquire));
    s := LocalStep(s, Break);
  }

  /** The end of that session puts a token back that no delivery accounts for. */
  lemma ExtraTokenHappens() returns (s: State, u: nat)
    ensures Reachable(s) && u < |s.sessions| && s.sessions[u].channel.Some?
    ensures var c := s.sessions[u].channel.value;
            c.sent == [] && c.started == 1 && c.token && c.closing && !Receivers.WithinCredit(c)
  {
    u := 0;
    var r := ReadingBeforeClose();
    LocalEnabled(r, 0, Close);
    CreditAtClose(r, 0);
    s := LocalStep(r, Close);
  }

  // ----- Two joined users of one name -----

  /** The client of the first user has read its welcome. */
  lemma ReadyClient() returns (s: State)
    ensures Alone(s) && s.sessions[0].status == Joined && s.sessions[0].verified
    ensures s.sessions[0].pc == Looping && s.sessions[0].link.client == Ready
  {
    s := Announced();
    ReachableInv(s);
    assert Sessions.Inv(s.sessions[0]);
    s := LocalStep(s, Answer);
    WelcomeIsHeard(s.sessions[0]);
    s := LocalStep(s, Hear);
  }

  lemma WelcomeIsHeard(x: Session)
    requires x.link.client == Waiting && x.link.asked != [] && x.link.heard == [] && x.link.replies == [CodeWord(Welcome)]
    ensures Sessions.Enabled(x, Hear) && Sessions.Next(x, Hear).link.client == Ready
  {
    ReplyRecovered(Word(Welcome), CodeWord(Welcome));
  }

  /** A connection accepted without interruption takes the lowest empty slot. */
  lemma Accepted(s: State, name: Text, i: nat) returns (s': State)
    requires Reachable(s) && s.acceptor == Idle && |s.table| == TABLE_SIZE && Generated(name)
    requires LowestFree(s.table, 0) == Some(i)
    ensures Reachable(s')
    ensures s' == s.(table := s.table[i := Some(|s.sessions|)], sessions := s.sessions + [Fresh(i, name)])
  {
    ReachableInv(s);
    ReachableStep(s, BeginAccept);
    var s1 := Chat.Next(s, BeginAccept);
    var es := UninterruptedScan(s1, 0);
    RunAppendReachable(s1, es);
    var s2 := s1.(acceptor := Chosen(i));
    ReachableInv(s2);
    ReachableStep(s2, Commit(name));
    s' := Chat.Next(s2, Commit(name));
  }

  lemma SlotOneIsFree(table: seq<Option<nat>>)
    requires |table| == TABLE_SIZE && table[0].Some? && table[1] == None
    ensures LowestFree(table, 0) == Some(1)
  {
    assert LowestFree(table, 1) == Some(1);
  }

  /** A joined user that types in slot 0, and a new connection named `name` in slot 1. */
  ghost predicate JoinedAndNew(s: State, name: Text) {
    && Reachable(s) && |s.sessions| == 2 && |s.table| == TABLE_SIZE
    && s.sessions[0].status == Joined && s.sessions[0].verified && s.sessions[0].slot == 0
    && s.sessions[1] == Fresh(1, name)
    && s.table[0] == Some(0) && s.table[1] == Some(1) && forall i | 2 <= i < TABLE_SIZE :: s.table[i] == None
  }

  lemma Joining(name: Text) returns (s: State)
    requires Generated(name)
    ensures JoinedAndNew(s, name) && s.sessions[0].pc == Looping && s.sessions[0].link.client == Ready
  {
    var r := ReadyClient();
    SlotOneIsFree(r.table);
    s := Accepted(r, name, 1);
  }

  /** The name of a connection that has not greeted is free for a rename. */
  lemma NobodyNamed(s: State, name: Text)
    requires JoinedAndNew(s, name)
    ensures Tabled(s) && forall k | 0 <= k < MAX_USER :: !Named(View(s), 0, name, k)
  {
  }

  lemma RenameServed(s: State, name: Text)
    requires JoinedAndNew(s, name) && NameOk(name) && Chat.Enabled(s, Serve(0)) && HasRequest(s, 0)
    requires Request(s, 0) == Console.Make(Kinds.CHANGE_NAME, name)
    ensures var s' := Chat.Next(s, Serve(0)); JoinedAndNew(s', name) && s'.sessions[0].name == name
  {
    ReachableInv(s);
    ServedState(s, 0);
    NobodyNamed(s, name);
    RenameAccepted(View(s), 0, name);
    ReachableNext(s, Serve(0));
  }

  lemma TypedRename(s: State, name: Text, line: Text) returns (s': State)
    requires JoinedAndNew(s, name) && s.sessions[0].pc == Looping && s.sessions[0].link.client == Ready
    requires Typable(line) && Console.Parse(line) == Console.Make(Kinds.CHANGE_NAME, name)
    ensures JoinedAndNew(s', name) && Chat.Enabled(s', Serve(0)) && HasRequest(s', 0)
    ensures Request(s', 0) == Console.Make(Kinds.CHANGE_NAME, name)
  {
    ReachableInv(s);
    assert Sessions.Inv(s.sessions[0]);
    SessionProofs.AskThenServable(s.sessions[0], line);
    LocalEnabled(s, 0, Ask(line));
    ReachableStep(s, Local(0, Ask(line)));
    s' := Chat.Next(s, Local(0, Ask(line)));
    ReachableInv(s');
    ServeEnabled(s', 0);
  }

  lemma NameLine(name: Text)
    requires Generated(name)
    ensures var line := "/name " + name;
            Typable(line) && Console.Parse(line) == Console.Make(Kinds.CHANGE_NAME, name)
  {
    var line := "/name " + name;
    FindIs(line, ' ', 5);
    assert line[..5] == "/name" && line[6..] == name;
  }

  /** Serving its rename, `u` takes the name of `v`, which has not joined. */
  ghost predicate TakesName(r: State, s: State, u: nat, v: nat) {
    && Chat.Enabled(r, Serve(u)) && s == Chat.Next(r, Serve(u)) && JoinedNow(r, u)
    && HasRequest(r, u) && Request(r, u) == Console.Make(Kinds.CHANGE_NAME, NameOf(r, v))
    && !JoinedNow(r, v) && NameOf(s, u) == NameOf(r, v) == NameOf(s, v)
  }

  /** The joined user has taken the name of the connection in slot 1. */
  lemma Renamed(name: Text) returns (r: State, s: State)
    requires Generated(name)
    ensures Reachable(r) && TakesName(r, s, 0, 1) && JoinedAndNew(s, name) && s.sessions[0].name == name
  {
    r := Joining(name);
    NameLine(name);
    r := TypedRename(r, name, "/name " + name);
    RenameServed(r, name);
    s := Chat.Next(r, Serve(0));
    ReachableInv(r);
    OnlyOneJoined(r, name);
  }

  /** That connection breaks, and two users of one name count as joined. */
  lemma ClashHappens() returns (r: State, s: State, e: Event)
    ensures Reachable(r) && TakesName(r, s, 0, 1) && e == Local(1, Break)
    ensures Reachable(s) && NamesDistinct(s) && Chat.Enabled(s, e)
    ensures NewcomerClashes(s, e) && !NamesDistinct(Chat.Next(s, e))
  {
    var name := seq(12, _ => 'b');
    r, s := Renamed(name);
    e := Local(1, Break);
    ReachableInv(s);
    ClashFollows(s, name);
    StepKeepsNamesDistinct(s, e);
  }

  lemma ClashFollows(s: State, name: Text)
    requires JoinedAndNew(s, name) && s.sessions[0].name == name
    ensures NamesDistinct(s) && Chat.Enabled(s, Local(1, Break)) && NewcomerClashes(s, Local(1, Break))
  {
    ReachableInv(s);
    OnlyOneJoined(s, name);
    LocalEnabled(s, 1, Break);
    assert StartsToCount(s, Local(1, Break), 1) && JoinedNow(s, 0);
    assert NameOf(s, 1) == NameOf(s, 0);
  }

  lemma OnlyOneJoined(s: State, name: Text)
    requires JoinedAndNew(s, name) && SlotsInv(s)
    ensures forall u: nat :: JoinedNow(s, u) <==> u == 0
  {
  }

  // ----- Foreign clients -----

  const STRAY: Text := "GET / HTTP/1.1"

  /** A packet without the magic is taken, and does not decode. */
  lemma StrayPacket(w: Text)
    requires 4 <= |w| <= 100 && w[0] != MAGIC[0]
    ensures Readable(w, PACKET_SIZE) && ReadBack(w, PACKET_SIZE) == Invalid
  {
    assert Received(w, PACKET_SIZE)[..4][0] == w[0];
  }

  lemma Injected(s: State, u: nat, w: Text) returns (s': State)
    requires Reachable(s) && u < |s.sessions| && s.sessions[u].link.client == Greeting && s.sessions[u].link.requests == []
    ensures Chat.Enabled(s, Local(u, Inject(w))) && s' == Chat.Next(s, Local(u, Inject(w))) && Reachable(s')
    ensures s' == Put(s, u, s.sessions[u].(link := s.sessions[u].link.(client := Foreign, requests := [w])))
  {
    ReachableInv(s);
    LocalEnabled(s, u, Inject(w));
    LocalIsPut(s, u, Inject(w));
    ReachableNext(s, Local(u, Inject(w)));
    s' := Chat.Next(s, Local(u, Inject(w)));
    assert [] + [w] == [w];
  }

  /** The same clash from a packet that does not decode. */
  lemma RejectedClashHappens() returns (s: State, e: Event)
    ensures e == Serve(1) && Reachable(s) && NamesDistinct(s) && Chat.Enabled(s, e)
    ensures CanServe(s.sessions[1]) && Incoming(s.sessions[1]) == Invalid && s.sessions[1].status == Established
    ensures NewcomerClashes(s, e) && !NamesDistinct(Chat.Next(s, e))
  {
    var name := seq(12, _ => 'b');
    var r0, r := Renamed(name);
    ClashFollows(r, name);
    s := StrayTyped(r, name, STRAY);
    e := Serve(1);
    ReachableInv(s);
    StepKeepsNamesDistinct(s, e);
  }

  lemma StrayTyped(r: State, name: Text, w: Text) returns (s: State)
    requires JoinedAndNew(r, name) && r.sessions[0].name == name && NamesDistinct(r)
    requires 4 <= |w| <= 100 && w[0] != MAGIC[0]
    ensures Reachable(s) && NamesDistinct(s) && Chat.Enabled(s, Serve(1)) && NewcomerClashes(s, Serve(1))
    ensures CanServe(s.sessions[1]) && Incoming(s.sessions[1]) == Invalid && s.sessions[1].status == Established
  {
    ReachableInv(r);
    OnlyOneJoined(r, name);
    s := Injected(r, 1, w);
    StrayPacket(w);
    forall v: nat ensures NameOf(s, v) == NameOf(r, v) && (JoinedNow(s, v) <==> JoinedNow(r, v)) {}
    assert StartsToCount(s, Serve(1), 1) && JoinedNow(s, 0) && NameOf(s, 1) == NameOf(s, 0);
  }

  /** A suspended session can have packets left, whatever they are, and no run ever takes one of them. */
  lemma UnservedHappens(w: Text) returns (s: State)
    ensures Reachable(s) && |s.sessions| == 1
    ensures s.sessions[0].status == Suspended && s.sessions[0].link.requests == [w]
    ensures forall es | Run(s, es).Some? :: !Chat.Enabled(Run(s, es).value, Serve(0))
  {
    var r := Connected();
    AloneSession(r);
    r := LocalStep(r, Inject(w));
    s := LocalStep(r, Break);
    forall es | Run(s, es).Some? ensures !Chat.Enabled(Run(s, es).value, Serve(0)) {
      NoCommandAfterSuspend(s, es, 0);
    }
  }

  /** A chat message sent when nobody has joined is scheduled for nobody. */
  lemma UnheardChat(s: State, m: Message)
    requires Chat.Inv(s) && Chat.Enabled(s, Serve(0)) && Incoming(s.sessions[0]) == Valid(m) && m.kind == Kinds.BROADCAST
    requires forall u: nat :: !JoinedNow(s, u)
    ensures var s' := Chat.Next(s, Serve(0));
            |s'.msgs| == |s.msgs| + 1 && s'.msgs[|s.msgs|].max == 0 && s'.msgs[|s.msgs|].frees == 0
  {
    ServedIs(s, 0, m);
    if JoinedSlots(View(s)) != [] {
      var i := JoinedSlots(View(s))[0];
      assert i in JoinedSlots(View(s));
      JoinedSlotUser(s, i);
    }
  }

  /** Such a message is never freed, and a client that did not greet can cause it. */
  lemma LeakHappens() returns (s: State, id: nat)
    ensures Reachable(s) && id < |s.msgs| && s.msgs[id].max == 0
    ensures forall es | Run(s, es).Some? :: id < |Run(s, es).value.msgs| && Run(s, es).value.msgs[id].frees == 0
  {
    var text := "hi";
    id := 0;
    s := UnheardState(text);
    forall es | Run(s, es).Some? ensures id < |Run(s, es).value.msgs| && Run(s, es).value.msgs[id].frees == 0 {
      TargetsAreFixed(s, es, id);
      RunAppendReachable(s, es);
      MessageLifetime(Run(s, es).value, id);
    }
  }

  lemma UnheardState(text: Text) returns (s: State)
    requires NulFree(text) && |text| <= 100
    ensures Reachable(s) && |s.msgs| == 1 && s.msgs[0].max == 0
  {
    var r := Connected();
    ReachableInv(r);
    assert Sessions.Inv(r.sessions[0]);
    var m := Message(Kinds.BROADCAST, |text|, text);
    r := Injected(r, 0, Encode(m.kind, m.text));
    SessionProofs.RequestDecoded(Encode(m.kind, m.text), m);
    HeadServable(r, m);
    UnheardChat(r, m);
    ReachableNext(r, Serve(0));
    s := Chat.Next(r, Serve(0));
  }

  lemma HeadServable(s: State, m: Message)
    requires Reachable(s) && s.sessions != [] && CanServe(s.sessions[0]) && Runnable(m)
    requires Readable(s.sessions[0].link.requests[0], PACKET_SIZE)
    requires ReadBack(s.sessions[0].link.requests[0], PACKET_SIZE) == Valid(m)
    ensures Chat.Inv(s) && Chat.Enabled(s, Serve(0)) && Incoming(s.sessions[0]) == Valid(m)
  {
    ReachableInv(s);
  }
}
