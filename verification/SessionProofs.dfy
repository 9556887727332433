/** What every step of a session keeps, and what the client may rely on. */
module SessionProofs {
  import opened CText
  import opened Codec
  import opened Replies
  import opened Users
  import opened Phrases
  import opened Handlers
  import opened Sessions
  import opened StrTok
  import Receivers
  import Console
  import Kinds

  /** The two fields the handshake reads off a well-formed greeting. */
  lemma GreetingFields(text: Text, prefix: Text, version: Text)
    requires text == prefix + " " + version && |prefix| == 14 && |version| < 32
    requires ' ' !in prefix && NulFree(version)
    ensures Hello(text) == text && Find(text, ' ') == 14 && text[..14] == prefix
    ensures HelloReadable(text) && HelloVersion(text) == version
  {
    assert text[0] == prefix[0] && prefix[0] in prefix;
    forall i | 0 <= i < 14 ensures text[i] != ' ' {
      assert prefix[i] in prefix;
    }
    FindIs(text, ' ', 14);
    assert text[14 := NUL][15..] == version;
    CStrIs(version, version);
  }

  lemma GreetingRequestOk(text: Text, prefix: Text, version: Text)
    requires text == prefix + " " + version && |prefix| == 14 && |version| < 32
    requires ' ' !in prefix && NulFree(version) && NulFree(prefix)
    ensures RequestOk(Console.Make(Kinds.HANDSHAKE, text))
  {
    GreetingFields(text, prefix, version);
  }

  lemma ParsedRequestOk(line: Text)
    requires Typable(line)
    ensures RequestOk(Console.Parse(line)) && Console.Parse(line).kind != Kinds.HANDSHAKE
  {
  }

  lemma RequestForOk(client: Client, line: Text)
    requires client == Ready ==> Typable(line)
    ensures RequestOk(RequestFor(client, line))
  {
    if client == Ready {
      ParsedRequestOk(line);
    } else {
      HelloIsGreeting();
      GreetingRequestOk(HELLO, CLIENT_PREFIX, PROGRAM_VERSION);
    }
  }

  lemma AskKeepsLink(l: Link, pc: Pc, line: Text)
    requires LinkInv(l, pc) && (l.client == Greeting || (l.client == Ready && Typable(line)))
    ensures LinkInv(Asked(l, line), pc)
  {
    RequestForOk(l.client, line);
    AppendKeepsLink(l, pc, RequestFor(l.client, line));
  }

  lemma AppendKeepsLink(l: Link, pc: Pc, m: Message)
    requires LinkInv(l, pc) && l.client in {Greeting, Ready} && RequestOk(m)
    ensures LinkInv(l.(client := Waiting, asked := l.asked + [m], requests := l.requests + [Encode(m.kind, m.text)]), pc)
  {
    assert |l.asked| == |l.heard| == l.taken;
    var asked := l.asked + [m];
    assert asked[l.taken..] == [m] && l.requests == [];
    forall j | 0 <= j < |asked| ensures RequestOk(asked[j]) {}
  }

  /** The client's verdict on the first reply is the answer the server gave to the oldest unheard request. */
  lemma NextReply(l: Link, pc: Pc)
    requires LinkInv(l, pc) && l.replies != []
    ensures |l.heard| < |l.served| && Understood(l.replies[0]) == l.served[|l.heard|].1
  {
    ReplyRecovered(l.served[|l.heard|].1, l.replies[0]);
  }

  lemma RepliesReadable(l: Link, pc: Pc)
    requires RepliesInv(l, pc)
    ensures forall j | 0 <= j < |l.replies| :: Understood(l.replies[j]) == l.served[|l.heard| + j].1
  {
    forall j | 0 <= j < |l.replies| ensures Understood(l.replies[j]) == l.served[|l.heard| + j].1 {
      ReplyRecovered(l.served[|l.heard| + j].1, l.replies[j]);
    }
  }

  /** It reads the reply to its latest request, and reads it as the server meant it. */
  lemma HearsTheLatest(l: Link, pc: Pc)
    requires LinkInv(l, pc) && l.client == Waiting && l.replies != []
    ensures |l.served| == |l.asked|
    ensures Heard(l).heard == l.served
    ensures Heard(l).heard[|l.heard|] == (l.asked[|l.asked| - 1], l.served[|l.served| - 1].1)
  {
    NextReply(l, pc);
    assert l.served[|l.heard|].0 == l.asked[|l.heard|];
    assert |l.served| == |l.heard| + 1;
    assert l.served == l.served[..|l.heard|] + [l.served[|l.heard|]];
  }

  /** What the console does next: the greeting must get OK, WELCOME, NOSUPPORT or BYE; later only BYE stops it. */
  function After(first: bool, r: Reply): Client {
    match r
    case Word(code) =>
      if first then (if code in {Ok, Welcome, NoSupport, Bye} then Ready else Quit)
      else if code == Bye then Quit
      else Ready
    case _ => if first then Quit else Ready
  }

  lemma ClientAfter(l: Link, pc: Pc)
    requires LinkInv(l, pc) && l.client == Waiting && l.replies != []
    ensures 0 < |l.served| == |l.asked|
    ensures Heard(l).client == After(l.heard == [], l.served[|l.asked| - 1].1)
  {
    NextReply(l, pc);
    HearsTheLatest(l, pc);
  }

  /** A waiting client has a reply to read, or its request is with the server. */
  lemma WaitingHasStep(s: Session)
    requires Inv(s) && s.link.client == Waiting && (s.pc == Looping || s.pc.Answering?)
    ensures Enabled(s, Hear) || Enabled(s, Answer) || CanServe(s)
  {
  }

  lemma HearKeepsLink(l: Link, pc: Pc)
    requires LinkInv(l, pc) && l.client == Waiting && l.replies != []
    ensures LinkInv(Heard(l), pc)
  {
    NextReply(l, pc);
    HearsTheLatest(l, pc);
  }

  /** The server puts a reply to the oldest request it has not answered on the channel. */
  lemma ReplyKeepsLink(l: Link, pc: Pc, pc': Pc, m: Message, r: Reply, w: Text)
    requires LinkInv(l, pc) && Owes(pc) && pc.request == m && !Owes(pc')
    requires Sendable(r) && WrittenAs(r, w)
    ensures LinkInv(l.(replies := l.replies + [w], served := l.served + [(m, r)]), pc')
  {
    var served, replies := l.served + [(m, r)], l.replies + [w];
    forall j | 0 <= j < |replies| ensures WrittenAs(served[|l.heard| + j].1, replies[j]) {}
  }

  lemma WordIsReply(code: Code, w: Text)
    requires code != Skip && w == CodeWord(code)
    ensures Sendable(Word(code)) && WrittenAs(Word(code), w)
  {
  }

  lemma AnswerKeepsLink(l: Link, pc: Pc, pc': Pc)
    requires LinkInv(l, pc) && pc.Answering? && !Owes(pc')
    ensures LinkInv(Answered(l, pc.code, pc.request), pc')
  {
    if Owes(pc) {
      WordIsReply(pc.code, CodeWord(pc.code));
      ReplyKeepsLink(l, pc, pc', pc.request, Word(pc.code), CodeWord(pc.code));
    } else {
      IdleKeepsLink(l, pc, l.client, pc');
    }
  }

  lemma RequestDecoded(w: Text, m: Message)
    requires RequestOk(m) && w == Encode(m.kind, m.text)
    ensures Readable(w, PACKET_SIZE) && ReadBack(w, PACKET_SIZE) == Valid(m)
  {
    RoundTrip(m.kind, m.text, PACKET_SIZE);
  }

  /** Taking a request off a console client's channel gives back exactly what the client asked. */
  lemma IncomingIsAsked(s: Session)
    requires LinkInv(s.link, s.pc) && s.link.client != Foreign && CanServe(s)
    ensures Readable(s.link.requests[0], PACKET_SIZE)
    ensures |s.link.served| < |s.link.asked|
    ensures Incoming(s) == Valid(s.link.asked[|s.link.served|])
    ensures RequestOk(s.link.asked[|s.link.served|])
  {
    RequestDecoded(s.link.requests[0], s.link.asked[|s.link.served|]);
  }

  ghost predicate AckOk(o: Outcome) {
    && (o.code == Skip <==> o.ack.Some?)
    && (o.ack.Some? ==> Sendable(Packet(AckMessage(o.ack.value))))
  }

  /** The server takes a request off the channel and owes its answer. */
  lemma TakeKeepsLink(l: Link, pc: Pc, pc': Pc)
    requires LinkInv(l, pc) && !Owes(pc) && l.requests != [] && Owes(pc')
    requires l.client != Foreign ==> |l.served| < |l.asked| && pc'.request == l.asked[|l.served|]
    ensures LinkInv(l.(requests := l.requests[1..], taken := l.taken + 1), pc')
  {
    if l.client != Foreign {
      assert l.asked[l.taken..][1..] == l.asked[l.taken + 1..];
    }
  }

  lemma ServeKeepsLink(s: Session, m: Message, o: Outcome)
    requires LinkInv(s.link, s.pc) && CanServe(s) && AckOk(o)
    requires s.link.client != Foreign ==> |s.link.served| < |s.link.asked| && m == s.link.asked[|s.link.served|]
    ensures LinkInv(Served(s, m, o).link, Answering(o.code, m))
  {
    var owing := Answering(Ok, m);
    TakeKeepsLink(s.link, s.pc, if o.ack.Some? then owing else Answering(o.code, m));
    if o.ack.Some? {
      var a := AckMessage(o.ack.value);
      var l := s.link.(requests := s.link.requests[1..], taken := s.link.taken + 1);
      ReplyKeepsLink(l, owing, Answering(Skip, m), m, Packet(a), Encode(a.kind, a.text));
    }
  }

  /** Only a foreign client's packet is rejected. */
  lemma RejectKeeps(s: Session)
    requires Inv(s) && CanServe(s) && Incoming(s).Invalid?
    ensures s.link.client == Foreign && Inv(Rejected(s))
  {
    if s.link.client != Foreign {
      IncomingIsAsked(s);
    }
  }

  lemma StepKeepsLink(s: Session, e: Step)
    requires LinkInv(s.link, s.pc) && StatusInv(s) && Enabled(s, e)
    ensures LinkInv(Next(s, e).link, Next(s, e).pc)
  {
    match e {
      case Ask(line) => AskKeepsLink(s.link, s.pc, line);
      case Hear => HearKeepsLink(s.link, s.pc);
      case Answer => AnswerKeepsLink(s.link, s.pc, Next(s, e).pc);
      case Inject(w) =>
      case HangUp => IdleKeepsLink(s.link, s.pc, Quit, s.pc);
      case Break => IdleKeepsLink(s.link, s.pc, s.link.client, Ending);
      case Close => IdleKeepsLink(s.link, s.pc, s.link.client, Closing);
      case Receiver(r) =>
    }
  }

  lemma IdleKeepsLink(l: Link, pc: Pc, client: Client, pc': Pc)
    requires LinkInv(l, pc) && (client == l.client || (client == Quit && l.client != Foreign)) && (pc' == pc || (!Owes(pc) && !Owes(pc')))
    ensures LinkInv(l.(client := client), pc')
  {
    ClientKeepsLink(l, pc, client);
    if pc' != pc {
      PcKeepsLink(l.(client := client), pc, pc');
    }
  }

  lemma ClientKeepsLink(l: Link, pc: Pc, client: Client)
    requires LinkInv(l, pc) && (client == l.client || (client == Quit && l.client != Foreign))
    ensures LinkInv(l.(client := client), pc)
  {
  }

  lemma PcKeepsLink(l: Link, pc: Pc, pc': Pc)
    requires LinkInv(l, pc) && !Owes(pc) && !Owes(pc')
    ensures LinkInv(l, pc')
  {
  }

  lemma StepKeepsChannel(s: Session, e: Step)
    requires ChannelInv(s) && StatusInv(s) && Enabled(s, e)
    ensures ChannelInv(Next(s, e))
  {
    match e {
      case Receiver(r) => Receivers.StepKeeps(s.channel.value, r);
      case Close =>
        if s.channel.Some? {
          Receivers.DeliverAndCloseKeep(s.channel.value, 0);
        }
      case _ => assert Next(s, e).channel == s.channel;
    }
  }

  lemma StepKeepsStatus(s: Session, e: Step)
    requires StatusInv(s) && Enabled(s, e)
    ensures StatusInv(Next(s, e))
  {
  }

  /** Every step of a session keeps its invariant. */
  lemma StepKeeps(s: Session, e: Step)
    requires Inv(s) && Enabled(s, e)
    ensures Inv(Next(s, e))
  {
    StepKeepsLink(s, e);
    StepKeepsChannel(s, e);
    StepKeepsStatus(s, e);
  }

  /** A session's status never goes back, whoever takes the step. */
  lemma StepAdvances(s: Session, e: Step)
    requires Inv(s) && Enabled(s, e)
    ensures Phase(s.status) <= Phase(Next(s, e).status)
    ensures Next(s, e).slot == s.slot && Next(s, e).name == s.name && Next(s, e).verified == s.verified
    ensures Next(s, e).pc == Gone <==> s.pc == Gone
    ensures Next(s, e).channel.Some? <==> s.channel.Some?
    ensures s.channel.Some? ==>
      var c, c' := s.channel.value, Next(s, e).channel.value;
      c'.sent == c.sent && c'.since == c.since && c'.early == c.early
  {
  }

  /** What a session needs of the outcome of a command. */
  ghost predicate OutcomeOk(s: Session, o: Outcome) {
    && AckOk(o) && NameOk(o.me.name)
    && o.me.status in {Established, Joined, Suspended}
    && (o.me.status == Established ==> !o.me.verified)
    && (o.me.status == Joined ==> o.me.verified)
    && (o.me.status == Suspended ==> o.code == Bye || o.code == Skip)
    && (o.code == Bye ==> o.me.status == Suspended)
    && (o.code == Welcome ==> o.me.status == Joined && !s.verified && s.slot < MAX_USER)
    && (o.me.verified <==> s.verified || o.code == Welcome)
  }

  lemma ServeKeepsStatus(s: Session, m: Message, o: Outcome)
    requires StatusInv(s) && CanServe(s) && OutcomeOk(s, o)
    ensures StatusInv(Served(s, m, o))
  {
  }

  lemma ExecuteOk(s: Session, t: Table, m: Message)
    requires StatusInv(s) && s.pc == Looping && s.slot < |t| && t[s.slot] == Some(UserOf(s)) && NamesOk(t)
    requires Runnable(m) && NulFree(m.text)
    ensures OutcomeOk(s, Execute(t, s.slot, m))
  {
    ExecuteSession(t, s.slot, m);
    ExecuteName(t, s.slot, m);
    SkipIffAck(t, s.slot, m);
    ExecuteAck(t, s.slot, m);
  }

  /** Serving any packet the server can serve, whoever sent it, keeps the invariant. */
  lemma ServeKeeps(s: Session, t: Table, m: Message)
    requires Inv(s) && CanServe(s) && Incoming(s) == Valid(m) && Runnable(m)
    requires s.slot < |t| && t[s.slot] == Some(UserOf(s)) && NamesOk(t)
    ensures Inv(Served(s, m, Execute(t, s.slot, m)))
  {
    ReadBackText(s.link.requests[0], PACKET_SIZE);
    if s.link.client != Foreign {
      IncomingIsAsked(s);
    }
    var o := Execute(t, s.slot, m);
    ExecuteOk(s, t, m);
    ServeKeepsStatus(s, m, o);
    ServeKeepsLink(s, m, o);
  }

  lemma ExecuteAck(t: Table, me: nat, m: Message)
    requires me < |t| && t[me].Some? && Runnable(m) && NamesOk(t)
    ensures var a := Execute(t, me, m).ack; a.Some? ==> Sendable(Packet(AckMessage(a.value)))
  {
    var a := Execute(t, me, m).ack;
    if a.Some? {
      AckSendable(a.value);
    }
  }

  /** An idle session whose client types a line has exactly that line's request to serve. */
  lemma AskThenServable(s: Session, line: Text)
    requires Inv(s) && s.pc == Looping && s.link.client == Ready && Typable(line)
    ensures Enabled(s, Ask(line))
    ensures var y := Next(s, Ask(line));
            CanServe(y) && y == s.(link := y.link) && Incoming(y) == Valid(Console.Parse(line))
  {
    ParsedRequestOk(line);
    var m := Console.Parse(line);
    assert s.link.requests == [] && ([] + [Encode(m.kind, m.text)])[0] == Encode(m.kind, m.text);
    RequestDecoded(Encode(m.kind, m.text), m);
  }
}
