/** The main loops of the two client programs, over the packets their connection delivers. */
module ClientPrograms {
  import opened CText
  import opened Codec
  import opened PacketBuffers
  import opened Replies
  import opened StrTok
  import opened Users
  import opened Phrases
  import opened Handlers
  import Console
  import Kinds
  import Receivers

  // ----- Console client -----

  /** What the program sends: its greeting, then one request for every line that is not empty. */
  function RequestsOf(lines: seq<Text>): (r: seq<Message>)
    ensures |r| >= 1
  {
    if lines == [] then [Console.Make(Kinds.HANDSHAKE, HELLO)]
    else if lines[|lines| - 1] == [] then RequestsOf(lines[..|lines| - 1])
    else RequestsOf(lines[..|lines| - 1]) + [Console.Parse(lines[|lines| - 1])]
  }

  lemma {:induction false} RequestsPrefix(lines: seq<Text>, n: nat)
    requires n <= |lines|
    ensures RequestsOf(lines[..n]) <= RequestsOf(lines)
    decreases |lines|
  {
    if n < |lines| {
      var shorter := lines[..|lines| - 1];
      RequestsPrefix(shorter, n);
      assert shorter[..n] == lines[..n];
    } else {
      assert lines[..n] == lines;
    }
  }

  lemma RequestsNext(lines: seq<Text>, k: nat)
    requires k < |lines|
    ensures RequestsOf(lines[..k + 1])
         == RequestsOf(lines[..k]) + if lines[k] == [] then [] else [Console.Parse(lines[k])]
  {
    assert lines[..k + 1][..k] == lines[..k];
  }

  /** The lines that are not empty, in order. */
  function NonEmpty(lines: seq<Text>): seq<Text> {
    if lines == [] then [] else (if lines[0] == [] then [] else [lines[0]]) + NonEmpty(lines[1..])
  }

  lemma {:induction false} NonEmptyNext(lines: seq<Text>, line: Text)
    ensures NonEmpty(lines + [line]) == NonEmpty(lines) + (if line == [] then [] else [line])
  {
    if lines == [] {
      assert ([] + [line])[1..] == [];
    } else {
      assert (lines + [line])[1..] == lines[1..] + [line];
      NonEmptyNext(lines[1..], line);
    }
  }

  /** What the program asks for: the greeting, then what each line that is not empty parses to. */
  lemma {:induction false} RequestsAre(lines: seq<Text>)
    ensures var asked, typed := RequestsOf(lines), NonEmpty(lines);
            && |asked| == 1 + |typed| && asked[0] == Message(0, 20, "CLIENT_VERSION 1.0.0")
            && forall k | 0 <= k < |typed| :: typed[k] != [] && asked[1 + k] == Console.Parse(typed[k])
    decreases |lines|
  {
    if lines != [] {
      var k := |lines| - 1;
      assert lines == lines[..k] + [lines[k]];
      NonEmptyNext(lines[..k], lines[k]);
      RequestsAre(lines[..k]);
    }
  }

  method SendGreeting() returns (w: Text)
    ensures EncodedAs(w, Console.Make(Kinds.HANDSHAKE, HELLO))
  {
    var hello := HELLO;
    assert NulFree(hello) && |hello| == 20;
    w := PackingMessageSend(Console.Make(Kinds.HANDSHAKE, hello));
  }

  /** fgets into a cleared buffer, the newline cut off, and the line turned into a packet. */
  method SendLine(line: Text) returns (w: Text)
    requires line != [] && NulFree(line) && |line| <= MAX_PAYLOAD
    ensures EncodedAs(w, Console.Parse(line))
  {
    var buf := new char[TEXT_SIZE](_ => NUL);
    Fill(buf, line + "\n");
    CutNewline(buf, line);
    var m := Console.MsgPackingMessage(buf, line);
    w := PackingMessageSend(m);
  }

  /** `buf[strlen(buf) - 1] = 0`. */
  method CutNewline(buf: array<char>, ghost line: Text)
    requires buf.Length == TEXT_SIZE && |line| <= MAX_PAYLOAD && HoldsAt(buf[..], 0, line + "\n")
    modifies buf
    ensures HoldsAt(buf[..], 0, line) && buf[|line| + 1] == NUL
  {
    HoldsCStr(buf[..], 0, line + "\n");
    assert buf[..][0..] == buf[..];
    var n := |CStr(buf[..])|;
    ghost var b := buf[..];
    assert b[0 + (n - 1)] == (line + "\n")[n - 1];
    buf[n - 1] := NUL;
    forall i | 0 <= i < |line| ensures buf[..][0 + i] == line[i] {
      assert b[0 + i] == (line + "\n")[i];
    }
  }

  /** The lines printed for an acknowledgement: a roster is split, anything else is one message. */
  function Displayed(m: Message): seq<Text> {
    if m.kind == 4 then Tokens(m.text, '\n') else [m.text]
  }

  method ShowPacket(m: Message) returns (shown: seq<Text>)
    requires NulFree(m.text) && |m.text| < TEXT_SIZE
    ensures shown == Displayed(m)
  {
    if m.kind == Kinds.CURRENT_USER {
      var buf := new char[TEXT_SIZE](_ => NUL);
      Fill(buf, m.text);
      shown := Split(buf, '\n', m.text);
    } else {
      shown := [m.text];
    }
  }

  predicate Accepted(r: Reply) {
    r.Word? && r.code != Skip && r.code != Fail
  }

  lemma AcceptedWords(r: Reply)
    ensures Accepted(r) <==> r in {Word(Ok), Word(Welcome), Word(NoSupport), Word(Bye)}
  {
  }

  /** The packets sent are the first of the requests asked for, in order. */
  ghost predicate Requested(sent: seq<Text>, asked: seq<Message>) {
    |sent| <= |asked| && forall i | 0 <= i < |sent| :: EncodedAs(sent[i], asked[i])
  }

  /** What the replies say. */
  function RepliesRead(replies: seq<Text>): (r: seq<Reply>)
    ensures |r| == |replies|
  {
    seq(|replies|, i requires 0 <= i < |replies| => Understood(replies[i]))
  }

  lemma RequestedLonger(sent: seq<Text>, asked: seq<Message>, more: seq<Message>)
    requires Requested(sent, asked) && asked <= more
    ensures Requested(sent, more)
  {
  }

  lemma RequestedNext(sent: seq<Text>, asked: seq<Message>, w: Text, m: Message)
    requires Requested(sent, asked) && |sent| == |asked| && EncodedAs(w, m)
    ensures Requested(sent + [w], asked + [m])
  {
  }

  method ReadReply(replies: seq<Text>, k: nat) returns (r: Reply)
    requires k < |replies| && Readable(replies[k], TEXT_SIZE)
    ensures r == RepliesRead(replies)[k]
  {
    var w := replies[k];
    var buf := Receive(w, TEXT_SIZE);
    var code := ResponseCodeConvert(CStr(buf[..]));
    if code != Skip {
      return Word(code);
    }
    var d := PackingMessageConvert(buf, |w|);
    r := match d case Invalid => Garbled case Valid(m) => Packet(m);
  }

  lemma HeardNext(heard: seq<Reply>, due: seq<Reply>, r: Reply)
    requires heard <= due && |heard| < |due| && r == due[|heard|]
    ensures heard + [r] <= due
  {
  }

  /** Why the program stops before its input ends. */
  predicate Stopped(sent: seq<Text>, heard: seq<Reply>, delivered: nat) {
    || |heard| == delivered
    || (heard != [] && !Accepted(heard[0]))
    || (|heard| > 1 && heard[|heard| - 1] == Word(Bye))
  }

  /** Every request sent has its reply, the greeting was accepted, and no later reply was BYE. */
  ghost predicate InStep(sent: seq<Text>, heard: seq<Reply>, asked: seq<Message>, replies: seq<Text>) {
    && Requested(sent, asked) && |sent| == |heard| == |asked| && heard <= RepliesRead(replies)
    && heard != [] && Accepted(heard[0]) && forall i | 1 <= i < |heard| :: heard[i] != Word(Bye)
  }

  /** What holds whenever the program stops after an accepted greeting. */
  ghost predicate Conversed(sent: seq<Text>, heard: seq<Reply>, asked: seq<Message>, replies: seq<Text>) {
    && Requested(sent, asked) && heard <= RepliesRead(replies)
    && |heard| <= |sent| <= |heard| + 1 && heard != [] && Accepted(heard[0])
    && (|sent| > |heard| ==> |heard| == |replies|)
    && forall i | 1 <= i < |heard| :: heard[i] == Word(Bye) ==> i == |sent| - 1
  }

  lemma ConversedLonger(
      sent: seq<Text>, heard: seq<Reply>, asked: seq<Message>, more: seq<Message>, replies: seq<Text>)
    requires Conversed(sent, heard, asked, replies) && asked <= more
    ensures Conversed(sent, heard, more, replies)
  {
    RequestedLonger(sent, asked, more);
  }

  /** One round of the loop: the request goes out and its reply is read; `going` if another round may follow. */
  method Exchange(line: Text, replies: seq<Text>, sent: seq<Text>, heard: seq<Reply>, ghost asked: seq<Message>)
    returns (sent': seq<Text>, heard': seq<Reply>, going: bool)
    requires line != [] && NulFree(line) && |line| <= MAX_PAYLOAD && InStep(sent, heard, asked, replies)
    requires |heard| < |replies| ==> Readable(replies[|heard|], TEXT_SIZE)
    ensures Conversed(sent', heard', asked + [Console.Parse(line)], replies)
    ensures going ==> InStep(sent', heard', asked + [Console.Parse(line)], replies)
    ensures !going ==> Stopped(sent', heard', |replies|)
  {
    var w := SendLine(line);
    RequestedNext(sent, asked, w, Console.Parse(line));
    sent', heard' := sent + [w], heard;
    if |heard| == |replies| {
      return sent', heard', false;
    }
    var r := ReadReply(replies, |heard|);
    HeardNext(heard, RepliesRead(replies), r);
    heard' := heard + [r];
    going := r != Word(Bye);
  }

  /**
   * execute_client_manager: each request waits for one reply, the reply read is the reply in turn, and the
   * program stops at a refused greeting, at BYE, when a reply does not come, or when the input ends.
   */
  method ExecuteClientManager(lines: seq<Text>, replies: seq<Text>) returns (sent: seq<Text>, heard: seq<Reply>)
    requires forall i | 0 <= i < |lines| :: NulFree(lines[i]) && |lines[i]| <= MAX_PAYLOAD
    requires forall i | 0 <= i < |replies| :: Readable(replies[i], TEXT_SIZE)
    ensures Requested(sent, RequestsOf(lines)) && heard <= RepliesRead(replies)
    ensures |heard| <= |sent| <= |heard| + 1
    ensures |sent| > |heard| ==> |heard| == |replies|
    ensures |sent| > 1 ==> |heard| > 0 && Accepted(heard[0])
    ensures forall i | 1 <= i < |heard| :: heard[i] == Word(Bye) ==> i == |sent| - 1
    ensures |sent| < |RequestsOf(lines)| ==> Stopped(sent, heard, |replies|)
  {
    var w := SendGreeting();
    sent, heard := [w], [];
    RequestsPrefix(lines, 0);
    assert lines[..0] == [];
    RequestedLonger(sent, RequestsOf([]), RequestsOf(lines));
    if replies == [] {
      return;
    }
    var r := ReadReply(replies, 0);
    heard := [r];
    if !Accepted(r) {
      return;
    }
    sent, heard := Converse(lines, replies, sent, heard);
  }

  /** The loop: a request for every line that is not empty, until BYE or a reply that does not come. */
  method Converse(lines: seq<Text>, replies: seq<Text>, sent0: seq<Text>, heard0: seq<Reply>)
    returns (sent: seq<Text>, heard: seq<Reply>)
    requires forall i | 0 <= i < |lines| :: NulFree(lines[i]) && |lines[i]| <= MAX_PAYLOAD
    requires forall i | 0 <= i < |replies| :: Readable(replies[i], TEXT_SIZE)
    requires InStep(sent0, heard0, RequestsOf([]), replies)
    ensures Conversed(sent, heard, RequestsOf(lines), replies)
    ensures |sent| < |RequestsOf(lines)| ==> Stopped(sent, heard, |replies|)
  {
    sent, heard := sent0, heard0;
    ghost var asked := RequestsOf([]);
    assert lines[..0] == [];
    var k := 0;
    while k < |lines|
      invariant k <= |lines| && asked == RequestsOf(lines[..k]) && InStep(sent, heard, asked, replies)
    {
      RequestsPrefix(lines, k + 1);
      RequestsNext(lines, k);
      if lines[k] != [] {
        var going;
        sent, heard, going := Exchange(lines[k], replies, sent, heard, asked);
        asked := RequestsOf(lines[..k + 1]);
        if !going {
          ConversedLonger(sent, heard, asked, RequestsOf(lines), replies);
          return;
        }
      }
      k := k + 1;
    }
    assert lines[..k] == lines;
  }

  // ----- Receiver -----

  /** The packets as decoded. */
  function Arrivals(ws: seq<Text>): (ds: seq<Decoded>)
    ensures |ds| == |ws| && forall i | 0 <= i < |ds| :: ds[i] == ReadBack(ws[i], PACKET_SIZE)
  {
    seq(|ws|, i requires 0 <= i < |ws| => ReadBack(ws[i], PACKET_SIZE))
  }

  /** What the program does, in order; the last read may fail because nothing more is delivered. */
  datatype Act = SendReady | Read | FailToRead | Show(text: Text)

  predicate Ends(d: Decoded) {
    d.Invalid? || d.msg.kind == Kinds.DISCONNECT
  }

  /** One turn: a ready packet, a read, and the line shown for a chat message. */
  function Turn(d: Decoded): seq<Act> {
    [SendReady, Read] + if d.Valid? && d.msg.kind == Kinds.BROADCAST then [Show(d.msg.text)] else []
  }

  /** Turns up to the first disconnect request or invalid packet, or until a read fails. */
  function Script(ds: seq<Decoded>): seq<Act> {
    if ds == [] then [SendReady, FailToRead]
    else Turn(ds[0]) + if Ends(ds[0]) then [] else Script(ds[1..])
  }

  function Count(act: Act, acts: seq<Act>): nat {
    if acts == [] then 0 else (if acts[0] == act then 1 else 0) + Count(act, acts[1..])
  }

  const READY: Message := Message(Kinds.BROADCAST, 0, "")

  ghost predicate AllReady(ws: seq<Text>) {
    forall w | w in ws :: EncodedAs(w, READY)
  }

  /** The packets sent are the ready packets of the acts, one for each. */
  ghost predicate Log(acts: seq<Act>, readies: seq<Text>) {
    AllReady(readies) && |readies| == Count(SendReady, acts)
  }

  lemma {:induction false} CountAppend(act: Act, a: seq<Act>, b: seq<Act>)
    ensures Count(act, a + b) == Count(act, a) + Count(act, b)
  {
    if a == [] {
      assert a + b == b;
    } else {
      assert (a + b)[1..] == a[1..] + b;
      CountAppend(act, a[1..], b);
    }
  }

  lemma LogOther(acts: seq<Act>, readies: seq<Text>, act: Act)
    requires Log(acts, readies) && act != SendReady
    ensures Log(acts + [act], readies)
  {
    CountAppend(SendReady, acts, [act]);
  }

  /** Another ready packet, after those already sent. */
  method SendAnother(ghost acts: seq<Act>, readies: seq<Text>) returns (more: seq<Text>)
    requires Log(acts, readies)
    ensures Log(acts + [SendReady], more)
  {
    var w := PackingMessageSend(READY);
    more := readies + [w];
    CountAppend(SendReady, acts, [SendReady]);
  }

  /** The script from packet `k` on. */
  lemma ScriptNext(acts: seq<Act>, ds: seq<Decoded>, k: nat)
    requires k < |ds|
    ensures acts + Script(ds[k..]) == acts + Turn(ds[k]) + if Ends(ds[k]) then [] else Script(ds[k + 1..])
  {
    assert ds[k..][0] == ds[k] && ds[k..][1..] == ds[k + 1..];
  }

  lemma ScriptEnd(acts: seq<Act>, ds: seq<Decoded>)
    ensures acts + Script(ds[|ds|..]) == acts + [SendReady] + [FailToRead]
  {
    assert ds[|ds|..] == [];
  }

  lemma TurnActs(acts: seq<Act>, d: Decoded)
    ensures acts + Turn(d) ==
      acts + [SendReady] + [Read] + if d.Valid? && d.msg.kind == Kinds.BROADCAST then [Show(d.msg.text)] else []
  {
  }

  /** One turn of the loop: a ready packet, a read, and what is made of the packet. */
  method TakeTurn(p: Text, acts: seq<Act>, readies: seq<Text>)
    returns (d: Decoded, acts': seq<Act>, readies': seq<Text>)
    requires Log(acts, readies) && Readable(p, PACKET_SIZE)
    ensures d == ReadBack(p, PACKET_SIZE) && acts' == acts + Turn(d) && Log(acts', readies')
  {
    readies' := SendAnother(acts, readies);
    acts' := acts + [SendReady];
    d := ReadPacket(p, PACKET_SIZE);
    LogOther(acts', readies', Read);
    acts' := acts' + [Read];
    if d.Valid? && d.msg.kind == Kinds.BROADCAST {
      LogOther(acts', readies', Show(d.msg.text));
      acts' := acts' + [Show(d.msg.text)];
    }
    TurnActs(acts, d);
  }

  /** client_broad's main: the acts it goes through, and the packets it sends. */
  method RunReceiver(inbound: seq<Text>) returns (acts: seq<Act>, readies: seq<Text>)
    requires forall i | 0 <= i < |inbound| :: Readable(inbound[i], PACKET_SIZE)
    ensures acts == Script(Arrivals(inbound)) && Log(acts, readies)
  {
    acts, readies := [], [];
    ghost var ds := Arrivals(inbound);
    var isSuspend, k := false, 0;
    while !isSuspend
      invariant k <= |inbound| && Log(acts, readies)
      invariant Script(ds) == if isSuspend then acts else acts + Script(ds[k..])
      decreases |inbound| - k, !isSuspend
    {
      if k == |inbound| {
        ScriptEnd(acts, ds);
        readies := SendAnother(acts, readies);
        LogOther(acts + [SendReady], readies, FailToRead);
        acts := acts + [SendReady] + [FailToRead];
        return;
      }
      var d;
      ScriptNext(acts, ds, k);
      d, acts, readies := TakeTurn(inbound[k], acts, readies);
      k := k + 1;
      if d == Invalid {
        break;
      }
      isSuspend := d.msg.kind == Kinds.DISCONNECT;
    }
  }

  // ----- The program is the receiver of the credit protocol -----

  /** The number of packets the program reads. */
  function Reads(ds: seq<Decoded>): nat {
    if ds == [] then 0 else if Ends(ds[0]) then 1 else 1 + Reads(ds[1..])
  }

  /** The receiver's steps in `acts`, taken on its channel; a read that fails finds no packet there. */
  function Follow(c: Receivers.Channel, acts: seq<Act>): Option<Receivers.Channel>
    decreases |acts|
  {
    if acts == [] then Some(c)
    else
      match acts[0]
      case SendReady =>
        if Receivers.Enabled(c, Receivers.SendReady) then Follow(Receivers.Next(c, Receivers.SendReady), acts[1..]) else None
      case Read =>
        if Receivers.Enabled(c, Receivers.Take) then Follow(Receivers.Next(c, Receivers.Take), acts[1..]) else None
      case FailToRead =>
        if c.listening && c.got == |c.sent| then Follow(c, acts[1..]) else None
      case Show(_) => Follow(c, acts[1..])
  }

  lemma {:induction false} FollowAppend(c: Receivers.Channel, a: seq<Act>, b: seq<Act>)
    ensures Follow(c, a + b) == match Follow(c, a) case None => None case Some(d) => Follow(d, b)
    decreases |a|
  {
    if a == [] {
      assert a + b == b;
    } else {
      assert (a + b)[1..] == a[1..] + b;
      match a[0] {
        case SendReady => FollowAppend(Receivers.Next(c, Receivers.SendReady), a[1..], b);
        case Read =>
          if Receivers.Enabled(c, Receivers.Take) {
            FollowAppend(Receivers.Next(c, Receivers.Take), a[1..], b);
          }
        case _ => FollowAppend(c, a[1..], b);
      }
    }
  }

  lemma FollowTurn(c: Receivers.Channel, d: Decoded)
    requires !c.listening && c.got < |c.sent|
    ensures Follow(c, Turn(d)) == Some(c.(readies := c.readies + 1, got := c.got + 1, listening := false))
  {
    var c1 := Receivers.Next(c, Receivers.SendReady);
    var c2 := Receivers.Next(c1, Receivers.Take);
    assert Turn(d)[1..][1..] == Turn(d)[2..];
    assert |Turn(d)[2..]| <= 1;
    assert |Turn(d)[2..]| == 1 ==> Turn(d)[2..][0].Show? && Follow(c2, Turn(d)[2..]) == Follow(c2, Turn(d)[2..][1..]);
    assert Follow(c2, Turn(d)[2..]) == Some(c2);
  }

  lemma FollowStarved(c: Receivers.Channel)
    requires !c.listening && c.got == |c.sent|
    ensures Follow(c, [SendReady, FailToRead]) == Some(c.(readies := c.readies + 1, listening := true))
  {
    assert [SendReady, FailToRead][1..] == [FailToRead] && ([FailToRead])[1..] == [];
  }

  /**
   * The whole run is one of the receiver's half of the credit protocol: every act is possible when the program
   * does it, and it sends one ready packet for each packet it reads, and one more if it ends by a failing read.
   */
  lemma {:induction false} ReceiverConforms(c: Receivers.Channel, ds: seq<Decoded>)
    requires !c.listening && c.got + |ds| == |c.sent|
    ensures var starved := forall i | 0 <= i < |ds| :: !Ends(ds[i]);
            Follow(c, Script(ds)) == Some(c.(
              readies := c.readies + Reads(ds) + (if starved then 1 else 0), got := c.got + Reads(ds), listening := starved))
    decreases |ds|
  {
    if ds == [] {
      FollowStarved(c);
    } else {
      FollowTurn(c, ds[0]);
      if Ends(ds[0]) {
        assert Turn(ds[0]) + [] == Turn(ds[0]);
      } else {
        FollowAppend(c, Turn(ds[0]), Script(ds[1..]));
        ReceiverConforms(c.(readies := c.readies + 1, got := c.got + 1), ds[1..]);
        assert (forall i | 0 <= i < |ds| :: !Ends(ds[i])) <==> forall i | 0 <= i < |ds[1..]| :: !Ends(ds[1..][i]);
      }
    }
  }

  // ----- What it shows -----

  function Shown(acts: seq<Act>): seq<Text> {
    if acts == [] then [] else (if acts[0].Show? then [acts[0].text] else []) + Shown(acts[1..])
  }

  function TextsOf(sayings: seq<Saying>): seq<Text> {
    seq(|sayings|, i requires 0 <= i < |sayings| => SayingText(sayings[i]))
  }

  /** A receiver shows the text of every scheduled message it is sent, in the order of its channel. */
  lemma {:induction false} ReceiverShowsSayings(sayings: seq<Saying>, ws: seq<Text>)
    requires |ws| == |sayings| && forall i | 0 <= i < |ws| :: PacketOf(ws[i], sayings[i])
    ensures Shown(Script(Arrivals(ws))) == TextsOf(sayings)
    ensures forall i | 0 <= i < |sayings| :: Spells(sayings[i], TextsOf(sayings)[i])
    decreases |ws|
  {
    forall i | 0 <= i < |sayings| ensures Spells(sayings[i], TextsOf(sayings)[i]) {
      SayingSpells(sayings[i]);
    }
    if ws == [] {
      NothingShown();
    } else {
      SayingArrives(sayings[0], ws);
      ReceiverShowsSayings(sayings[1..], ws[1..]);
      TextsCons(sayings);
    }
  }

  lemma TextsCons(sayings: seq<Saying>)
    requires sayings != []
    ensures TextsOf(sayings) == [SayingText(sayings[0])] + TextsOf(sayings[1..])
  {
  }

  lemma SayingArrives(s: Saying, ws: seq<Text>)
    requires ws != [] && PacketOf(ws[0], s)
    ensures Shown(Script(Arrivals(ws))) == [SayingText(s)] + Shown(Script(Arrivals(ws[1..])))
  {
    SayingDecoded(s, SayingMessage(s), ws[0]);
    assert Arrivals(ws)[1..] == Arrivals(ws[1..]);
    ShownFirst(Arrivals(ws));
  }

  lemma {:induction false} ShownAppend(a: seq<Act>, b: seq<Act>)
    ensures Shown(a + b) == Shown(a) + Shown(b)
  {
    if a == [] {
      assert a + b == b;
    } else {
      assert (a + b)[1..] == a[1..] + b;
      ShownAppend(a[1..], b);
    }
  }

  lemma TurnShown(d: Decoded)
    requires d.Valid? && d.msg.kind == Kinds.BROADCAST
    ensures Shown(Turn(d)) == [d.msg.text]
  {
    var show := [Show(d.msg.text)];
    assert show[1..] == [] && Shown(show) == [d.msg.text];
    assert Turn(d)[1..] == [Read] + show && ([Read] + show)[1..] == show;
    assert Shown([Read] + show) == [] + Shown(show);
    assert Shown(Turn(d)) == [] + Shown([Read] + show);
  }

  lemma ShownFirst(ds: seq<Decoded>)
    requires ds != [] && ds[0].Valid? && ds[0].msg.kind == Kinds.BROADCAST
    ensures Shown(Script(ds)) == [ds[0].msg.text] + Shown(Script(ds[1..]))
  {
    TurnShown(ds[0]);
    ShownAppend(Turn(ds[0]), Script(ds[1..]));
  }

  /** The texts of the type 1 messages. */
  function TypeOne(ds: seq<Decoded>): seq<Text> {
    if ds == [] then []
    else (if ds[0].Valid? && ds[0].msg.kind == 1 then [ds[0].msg.text] else []) + TypeOne(ds[1..])
  }

  /** The first packet that is invalid or a type 5 message, if any. */
  function FirstEnd(ds: seq<Decoded>): (k: nat)
    ensures k <= |ds|
    ensures forall i | 0 <= i < k :: ds[i].Valid? && ds[i].msg.kind != 5
    ensures k < |ds| ==> ds[k].Invalid? || ds[k].msg.kind == 5
  {
    if ds == [] || ds[0].Invalid? || ds[0].msg.kind == 5 then 0 else 1 + FirstEnd(ds[1..])
  }

  lemma TurnShows(d: Decoded)
    ensures Shown(Turn(d)) == if d.Valid? && d.msg.kind == 1 then [d.msg.text] else []
  {
    if d.Valid? && d.msg.kind == 1 {
      TurnShown(d);
    } else {
      assert Turn(d)[1..] == [Read] && ([Read])[1..] == [];
      assert Shown(Turn(d)) == [] + Shown([Read]);
    }
  }

  /** Whatever arrives, the texts of the type 1 messages before the end are shown, in order, and nothing else. */
  lemma {:induction false} ShowsTypeOne(ds: seq<Decoded>)
    ensures Shown(Script(ds)) == TypeOne(ds[..FirstEnd(ds)])
    decreases |ds|
  {
    if ds == [] {
      NothingShown();
    } else {
      TurnShows(ds[0]);
      if FirstEnd(ds) == 0 {
        ShownAppend(Turn(ds[0]), []);
        EndShowsNothing(ds[0]);
        assert Turn(ds[0]) + [] == Turn(ds[0]);
      } else {
        var k := FirstEnd(ds[1..]);
        ShownAppend(Turn(ds[0]), Script(ds[1..]));
        ShowsTypeOne(ds[1..]);
        assert ds[..1 + k][1..] == ds[1..][..k];
      }
    }
  }

  lemma EndShowsNothing(d: Decoded)
    requires d.Invalid? || d.msg.kind == 5
    ensures Shown(Turn(d)) == [] && Ends(d)
  {
    TurnShows(d);
  }

  lemma NothingShown()
    ensures Shown(Script([])) == []
  {
    assert Script([])[1..] == [FailToRead] && Script([])[1..][1..] == [];
  }
}
