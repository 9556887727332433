/** One client, its connection, and the server thread that serves it. */
module Sessions {
  import opened CText
  import opened Codec
  import opened Replies
  import opened Users
  import opened Phrases
  import opened Handlers
  import Receivers
  import Console
  import Kinds

  /** Where communicate_user is: in its loop, between a handler and its reply, or on the way out. */
  datatype Pc = Looping | Answering(code: Code, request: Message) | Ending | Closing | Gone

  /** Where the console client is; `Foreign` is any other program, which sends what it likes when it likes. */
  datatype Client = Greeting | Waiting | Ready | Quit | Foreign

  /**
   * The connection's two byte channels, one packet an element.  `taken` counts the requests a handler was run
   * for, `served` lists those the server answered, each with its answer.  `asked` lists the requests a console
   * client sent, `heard` what it made of the answers it read.
   */
  datatype Link = Link(
    client: Client, requests: seq<Text>, replies: seq<Text>, taken: nat,
    asked: seq<Message>, served: seq<(Message, Reply)>, heard: seq<(Message, Reply)>)

  datatype Session = Session(
    slot: nat, name: Text, status: Status, verified: bool, pc: Pc, link: Link,
    channel: Option<Receivers.Channel>,
    welcomes: nat, announcements: nat, closes: nat, frees: nat)

  /** A user context as the acceptor commits it. */
  function Fresh(slot: nat, name: Text): Session {
    Session(slot, name, Established, false, Looping, Link(Greeting, [], [], 0, [], [], []), None, 0, 0, 0, 0)
  }

  function UserOf(s: Session): User {
    User(s.name, s.status, s.verified, s.channel.Some?)
  }

  // ----- Steps -----

  datatype Step =
    | Ask(line: Text) | Hear | HangUp
    | Inject(packet: Text)
    | Answer | Break | Close
    | Receiver(step: Receivers.Step)

  function RequestFor(client: Client, line: Text): Message
    requires client == Ready ==> line != []
  {
    if client == Ready then Console.Parse(line) else Console.Make(Kinds.HANDSHAKE, HELLO)
  }

  /** A line fgets can deliver, and whose payload the client's packet buffer holds. */
  predicate Typable(line: Text) {
    line != [] && NulFree(line) && '\n' !in line && |line| <= MAX_PAYLOAD
  }

  predicate Enabled(s: Session, e: Step) {
    match e
    case Ask(line) => s.link.client == Greeting || (s.link.client == Ready && Typable(line))
    case Hear => s.link.client == Waiting && s.link.replies != [] && s.link.asked != []
    case HangUp => s.link.client !in {Quit, Foreign}
    case Inject(w) => s.link.client in {Greeting, Foreign}
    case Answer => s.pc.Answering?
    case Break => s.pc == Looping
    case Close => s.pc == Ending
    case Receiver(r) => s.channel.Some? && Receivers.Enabled(s.channel.value, r)
  }

  /** The client sends a request and waits. */
  function Asked(l: Link, line: Text): Link
    requires l.client == Greeting || (l.client == Ready && Typable(line))
  {
    var m := RequestFor(l.client, line);
    l.(client := Waiting, asked := l.asked + [m], requests := l.requests + [Encode(m.kind, m.text)])
  }

  /** The first reply must welcome the client; later only BYE ends its loop. */
  function AfterReply(first: bool, r: Reply): Client {
    if first then (if r.Word? && r.code != Skip && r.code != Fail then Ready else Quit)
    else if r == Word(Bye) then Quit
    else Ready
  }

  /** The client reads a reply and takes it for the reply to its latest request. */
  function Heard(l: Link): Link
    requires l.replies != [] && l.asked != []
  {
    var r := Understood(l.replies[0]);
    l.(replies := l.replies[1..], heard := l.heard + [(l.asked[|l.asked| - 1], r)],
       client := AfterReply(|l.heard| == 0, r))
  }

  /** send_response_code: nothing for Skip. */
  function Answered(l: Link, code: Code, request: Message): Link {
    if code == Skip then l
    else l.(replies := l.replies + [CodeWord(code)], served := l.served + [(request, Word(code))])
  }

  function Next(s: Session, e: Step): Session
    requires Enabled(s, e)
  {
    match e
    case Ask(line) => s.(link := Asked(s.link, line))
    case Hear => s.(link := Heard(s.link))
    case HangUp => s.(link := s.link.(client := Quit))
    case Inject(w) => s.(link := s.link.(client := Foreign, requests := s.link.requests + [w]))
    case Answer =>
      var status := if s.pc.code == Bye then Suspended else s.status;
      s.(link := Answered(s.link, s.pc.code, s.pc.request), status := status,
         welcomes := s.welcomes + Receivers.Count(s.pc.code == Welcome),
         pc := if status == Suspended then Ending else Looping)
    case Break => s.(status := Suspended, pc := Ending)
    case Close =>
      s.(status := Disconnected, pc := Closing, closes := s.closes + 1,
         channel := if s.channel.Some? then Some(Receivers.Close(s.channel.value)) else None)
    case Receiver(r) => s.(channel := Some(Receivers.Next(s.channel.value, r)))
  }

  // ----- A command is run between two steps of the others -----

  predicate CanServe(s: Session) {
    s.pc == Looping && s.link.requests != []
  }

  function Incoming(s: Session): Decoded
    requires CanServe(s)
  {
    ReadBack(s.link.requests[0], PACKET_SIZE)
  }

  /** The caller after its handler returned: its own fields, and the acknowledgement if it wrote one. */
  function Served(s: Session, request: Message, o: Outcome): Session
    requires CanServe(s)
  {
    var l := s.link.(requests := s.link.requests[1..], taken := s.link.taken + 1);
    s.(name := o.me.name, status := o.me.status, verified := o.me.verified,
       pc := Answering(o.code, request),
       announcements := s.announcements + Receivers.Count(o.code == Welcome),
       link := match o.ack
               case None => l
               case Some(a) =>
                 var m := AckMessage(a);
                 l.(replies := l.replies + [Encode(m.kind, m.text)], served := l.served + [(request, Packet(m))]))
  }

  /** A packet that does not decode ends the session without a reply. */
  function Rejected(s: Session): Session
    requires CanServe(s)
  {
    s.(status := Suspended, pc := Ending, link := s.link.(requests := s.link.requests[1..]))
  }

  /** user_free. */
  function Freed(s: Session): Session {
    s.(pc := Gone, frees := s.frees + 1)
  }

  // ----- Invariants -----

  ghost predicate RequestOk(m: Message) {
    && 0 <= m.kind < 65536 && m.length == |m.text| && NulFree(m.text) && |m.text| <= MAX_PAYLOAD
    && Runnable(m)
  }

  /** A word the server still owes for the request it has taken. */
  predicate Owes(pc: Pc) {
    pc.Answering? && pc.code != Skip
  }

  /** Whatever the client: every request taken has one reply, written or owed, in order. */
  ghost predicate RepliesInv(l: Link, pc: Pc) {
    && l.taken == |l.served| + Receivers.Count(Owes(pc))
    && l.heard <= l.served
    && |l.served| == |l.heard| + |l.replies|
    && (forall j | 0 <= j < |l.served| :: Sendable(l.served[j].1))
    && (forall j | 0 <= j < |l.replies| :: WrittenAs(l.served[|l.heard| + j].1, l.replies[j]))
  }

  /** The packets on the request channel are those of the requests not taken yet. */
  ghost predicate InTransit(requests: seq<Text>, asked: seq<Message>) {
    |requests| == |asked| && forall j | 0 <= j < |asked| :: requests[j] == Encode(asked[j].kind, asked[j].text)
  }

  /** The console client: its requests are served in order, and it waits for each reply. */
  ghost predicate ConsoleInv(l: Link, pc: Pc) {
    && l.taken <= |l.asked|
    && InTransit(l.requests, l.asked[l.taken..])
    && (forall j | 0 <= j < |l.asked| :: RequestOk(l.asked[j]))
    && |l.served| <= |l.asked|
    && (forall j | 0 <= j < |l.served| :: l.served[j].0 == l.asked[j])
    && (Owes(pc) ==> |l.served| < |l.asked| && pc.request == l.asked[|l.served|])
    && |l.asked| <= |l.heard| + 1
    && (l.client == Waiting ==> |l.asked| == |l.heard| + 1)
    && (l.client == Ready ==> |l.asked| == |l.heard| && l.heard != [])
    && (l.client == Greeting ==> l.asked == [])
  }

  ghost predicate LinkInv(l: Link, pc: Pc) {
    RepliesInv(l, pc) && (l.client != Foreign ==> ConsoleInv(l, pc))
  }

  ghost predicate StatusInv(s: Session) {
    && s.slot < SCANNED && NameOk(s.name)
    && (s.status == Established ==> !s.verified)
    && (s.status == Joined ==> s.verified)
    && (s.verified ==> s.slot < MAX_USER)
    && (match s.pc
        case Looping => s.status in {Established, Joined}
        case Answering(code, _) =>
          && s.status != Disconnected
          && (s.status == Suspended ==> code == Bye || code == Skip)
          && (code == Bye ==> s.status == Suspended)
          && (code == Welcome ==> s.status == Joined)
        case Ending => s.status == Suspended
        case Closing => s.status == Disconnected
        case Gone => s.status == Disconnected)
    && s.announcements == Receivers.Count(s.verified)
    && s.announcements == s.welcomes + Receivers.Count(s.pc.Answering? && s.pc.code == Welcome)
    && s.closes == Receivers.Count(s.pc in {Closing, Gone})
    && s.frees == Receivers.Count(s.pc == Gone)
  }

  ghost predicate ChannelInv(s: Session) {
    s.channel.Some? ==>
      && s.slot < MAX_USER
      && Receivers.Inv(s.channel.value)
      && (s.channel.value.closing ==> s.pc in {Closing, Gone})
  }

  ghost predicate Inv(s: Session) {
    StatusInv(s) && ChannelInv(s) && LinkInv(s.link, s.pc)
  }
}
