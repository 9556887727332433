/** The command handlers of server_cmd.c as functions of the user table, the caller's slot and the message. */
module Handlers {
  import opened CText
  import opened Codec
  import opened Replies
  import opened StrTok
  import opened Users
  import opened Phrases
  import Kinds

  // ----- Outcomes -----

  /** A scheduled message, its access limit, and the slots of the users it is sent to, one thread each. */
  datatype Spawn = Spawn(saying: Saying, limit: nat, targets: seq<nat>)

  datatype Outcome = Outcome(code: Code, me: User, ack: Option<Ack>, spawn: Option<Spawn>)

  function Acknowledge(me: User, ack: Ack): Outcome {
    Outcome(Skip, me, Some(ack), None)
  }

  function Refuse(me: User, why: Refusal): Outcome {
    Acknowledge(me, Refused(why))
  }

  /** cmd_broadcast_message, with `t` the table the handler sees when it counts and spawns. */
  function Broadcast(t: Table, me: nat, saying: Saying): Outcome
    requires me < |t| && t[me].Some?
  {
    Outcome(Ok, t[me].value, None, Some(Spawn(saying, |JoinedSlots(t)|, JoinedSlots(t))))
  }

  const CLIENT_PREFIX: Text := "CLIENT_VERSION"
  const PROGRAM_VERSION: Text := "1.0.0"
  const HELLO: Text := "CLIENT_VERSION 1.0.0"

  /** The text from the first byte that is not a space, which is where strtok starts. */
  function Hello(text: Text): Text {
    DropLeading(text, ' ')
  }

  /** What strcpy finds 15 bytes behind the first word, after strtok put a NUL at its end. */
  function HelloVersion(text: Text): Text
    requires |Hello(text)| >= 15
  {
    var h := Hello(text);
    var k := Find(h, ' ');
    CStr((if k < |h| then h[k := NUL] else h)[15..])
  }

  /** The two 32-byte buffers hold what the handshake copies, and the copy starts inside the text. */
  predicate HelloReadable(text: Text) {
    && |Hello(text)| >= 15 && Find(Hello(text), ' ') < 32 && |HelloVersion(text)| < 32
  }

  predicate Greets(text: Text)
    requires HelloReadable(text)
  {
    Hello(text)[..Find(Hello(text), ' ')] == CLIENT_PREFIX && HelloVersion(text) == PROGRAM_VERSION
  }

  /** cmd_welcome_handshake, given its verdict on the greeting. */
  function Verdict(t: Table, me: nat, good: bool): Outcome
    requires me < |t| && t[me].Some?
  {
    var user := t[me].value;
    if !good then
      Outcome(Fail, user, None, None)
    else if me + 1 > MAX_USER then
      Refuse(user.(status := Suspended), ServerFull)
    else if user.status == Established then
      var joined := user.(status := Joined, verified := true);
      Broadcast(t[me := Some(joined)], me, Joins(user.name)).(code := Welcome)
    else
      Outcome(Ok, user, None, None)
  }

  function Handshake(t: Table, me: nat, text: Text): Outcome
    requires me < |t| && t[me].Some? && HelloReadable(text)
  {
    Verdict(t, me, Greets(text))
  }

  /** cmd_change_name. */
  function ChangeName(t: Table, me: nat, name: Text): Outcome
    requires me < |t| && t[me].Some?
  {
    var user := t[me].value;
    if !user.verified then Outcome(Fail, user, None, None)
    else if |name| == 0 then Acknowledge(user, CurrentName(user.name))
    else if NAME_SIZE <= |name| then Refuse(user, NameTooLong)
    else if ' ' in name || '\"' in name then Refuse(user, NameRule)
    else if FindNamed(t, me, name, 0).Some? then Refuse(user, NameInUse)
    else
      Broadcast(t[me := Some(user.(name := name))], me, Renames(user.name, name))
  }

  /** cmd_secret_message: strsep cuts the text at its first space. */
  function SecretMessage(t: Table, me: nat, text: Text): Outcome
    requires me < |t| && t[me].Some?
  {
    var user := t[me].value;
    var to := text[..Find(text, ' ')];
    var body := AfterToken(text, ' ');
    if |text| == 0 then Refuse(user, SendUsage)
    else if |to| == 0 then Refuse(user, SendNoUser)
    else if |body| == 0 then Refuse(user, SendNoText)
    else if Fold(to) == Fold(user.name) then Refuse(user, SendSelf)
    else
      match FindNamed(t, me, to, 0)
      case None => Refuse(user, SendNotFound)
      case Some(i) =>
        if !t[i].value.receiver then Refuse(user, SendNoReceiver)
        else Outcome(Ok, user, None, Some(Spawn(Saying.Secret(user.name, body), 2, [i, me])))
  }

  /** cmd_current_user. */
  function CurrentUser(t: Table, me: nat): Outcome
    requires me < |t| && t[me].Some?
  {
    if !t[me].value.verified then Outcome(Fail, t[me].value, None, None)
    else Acknowledge(t[me].value, Roster(t, me))
  }

  /** cmd_disconnect. */
  function Leave(t: Table, me: nat): Outcome
    requires me < |t| && t[me].Some?
  {
    Broadcast(t[me := Some(t[me].value.(status := Suspended))], me, Leaves(t[me].value.name)).(code := Bye)
  }

  predicate Runnable(m: Message) {
    0 <= m.kind && (m.kind == Kinds.HANDSHAKE ==> HelloReadable(m.text))
  }

  /** execute_command over the table filled by initialize_command_loader. */
  function Execute(t: Table, me: nat, m: Message): Outcome
    requires me < |t| && t[me].Some? && Runnable(m)
  {
    if m.kind == Kinds.HANDSHAKE then Handshake(t, me, m.text)
    else if m.kind == Kinds.BROADCAST then Broadcast(t, me, Chat(t[me].value.name, m.text))
    else if m.kind == Kinds.CHANGE_NAME then ChangeName(t, me, m.text)
    else if m.kind == Kinds.SECRET then SecretMessage(t, me, m.text)
    else if m.kind == Kinds.CURRENT_USER then CurrentUser(t, me)
    else if m.kind == Kinds.DISCONNECT then Leave(t, me)
    else Outcome(NoSupport, t[me].value, None, None)
  }

  // ----- What every command keeps -----

  /** A handler returns Skip exactly when it wrote an acknowledgement, and only a leaving user gets Bye. */
  lemma SkipIffAck(t: Table, me: nat, m: Message)
    requires me < |t| && t[me].Some? && Runnable(m)
    ensures var o := Execute(t, me, m);
            && (o.code == Skip <==> o.ack.Some?)
            && (o.code == Bye <==> m.kind == Kinds.DISCONNECT)
            && (o.ack.Some? ==> o.spawn.None?)
  {
    var o := Execute(t, me, m);
    if m.kind == Kinds.HANDSHAKE {
      assert o == Verdict(t, me, Greets(m.text));
    } else if m.kind == Kinds.CHANGE_NAME {
      assert o == ChangeName(t, me, m.text);
    } else if m.kind == Kinds.SECRET {
      assert o == SecretMessage(t, me, m.text);
    }
  }

  /** The session part of a command: what may change in the caller, and when. */
  lemma ExecuteSession(t: Table, me: nat, m: Message)
    requires me < |t| && t[me].Some? && Runnable(m)
    requires t[me].value.status in {Established, Joined}
    requires t[me].value.verified <==> t[me].value.status == Joined
    ensures var was, o := t[me].value, Execute(t, me, m);
            && Phase(was.status) <= Phase(o.me.status) <= Phase(Suspended)
            && o.me.receiver == was.receiver
            && (o.me.status == Joined ==> o.me.verified)
            && (o.me.status == Established ==> !o.me.verified)
            && (o.me.verified != was.verified <==> o.code == Welcome)
            && (o.code == Welcome ==> o.me.status == Joined && o.me.verified && was.status == Established && me < MAX_USER)
            && (o.me.status == Suspended ==> o.code == Bye || o.code == Skip)
            && (o.code == Bye ==> o.me.status == Suspended)
            && (o.me.name != was.name ==> m.kind == Kinds.CHANGE_NAME && was.status == Joined)
  {
  }

  /** A live session stays alive or is suspended, and BYE suspends it. */
  lemma StatusAfter(t: Table, me: nat, m: Message)
    requires me < |t| && t[me].Some? && Runnable(m) && t[me].value.status != Disconnected
    ensures var o := Execute(t, me, m); o.me.status != Disconnected && (o.code == Bye ==> o.me.status == Suspended)
  {
    var o := Execute(t, me, m);
    if m.kind == Kinds.HANDSHAKE {
      assert o == Verdict(t, me, Greets(m.text));
    } else if m.kind == Kinds.DISCONNECT {
      assert o == Leave(t, me);
    } else {
      assert o.me.status == t[me].value.status && o.code != Bye;
    }
  }

  lemma HelloIsGreeting()
    ensures HELLO == CLIENT_PREFIX + " " + PROGRAM_VERSION
    ensures |CLIENT_PREFIX| == 14 && |PROGRAM_VERSION| < 32 && ' ' !in CLIENT_PREFIX
    ensures NulFree(PROGRAM_VERSION) && NulFree(CLIENT_PREFIX)
  {
  }

  lemma GreetingParts(h: Text, hello: Text, prefix: Text, version: Text)
    requires hello == prefix + " " + version && |prefix| == 14 && ' ' !in prefix
    requires |h| >= 15 && NulFree(h)
    ensures var k := Find(h, ' ');
            h[..k] == prefix && CStr((if k < |h| then h[k := NUL] else h)[15..]) == version <==> h == hello
  {
    var k := Find(h, ' ');
    CStrIs(h[15..], h[15..]);
    if h == hello {
      forall i | 0 <= i < 14 ensures h[i] != ' ' {
        assert h[i] == prefix[i] && prefix[i] in prefix;
      }
      FindIs(h, ' ', 14);
      assert h[..14] == prefix && h[15..] == version;
    }
    if h[..k] == prefix {
      assert k == 14 && h[k := NUL][15..] == h[15..];
      assert h == h[..14] + [h[14]] + h[15..];
    }
  }

  /** The greetings it accepts: any number of spaces, then the one text the clients send. */
  lemma GreetsExactly(text: Text)
    requires HelloReadable(text) && NulFree(text)
    ensures Greets(text) <==> Hello(text) == HELLO
  {
    HelloIsGreeting();
    GreetingParts(Hello(text), HELLO, CLIENT_PREFIX, PROGRAM_VERSION);
  }

  /** Whom the handshake welcomes, in terms of the text received. */
  lemma HandshakeVerdict(t: Table, me: nat, text: Text)
    requires me < |t| && t[me].Some? && HelloReadable(text) && NulFree(text)
    ensures var good, o := Hello(text) == HELLO, Handshake(t, me, text);
            && (o.code == Welcome <==> good && me < MAX_USER && t[me].value.status == Established)
            && (o.code == Skip <==> good && me >= MAX_USER)
            && (o.code == Fail <==> !good)
            && (o.code in {Fail, Ok} ==> o.me == t[me].value && o.ack == None && o.spawn == None)
            && (o.code == Skip ==>
                  o.me == t[me].value.(status := Suspended) && o.ack == Some(Refused(ServerFull)) && o.spawn == None)
            && (o.code == Welcome ==>
                  var joined := t[me].value.(status := Joined, verified := true);
                  var slots := JoinedSlots(t[me := Some(joined)]);
                  o.me == joined && o.ack == None && o.spawn == Some(Spawn(Joins(joined.name), |slots|, slots)))
  {
    GreetsExactly(text);
    assert Handshake(t, me, text) == Verdict(t, me, Greets(text));
  }

  /** A rename succeeds exactly for a verified user, a well-formed name, and no other joined user of that name. */
  lemma RenameAccepted(t: Table, me: nat, name: Text)
    requires me < |t| && t[me].Some? && NulFree(name)
    ensures var was, o := t[me].value, ChangeName(t, me, name);
            && (o.spawn.Some? <==> was.verified && NameOk(name) && forall k | 0 <= k < MAX_USER :: !Named(t, me, name, k))
            && (o.spawn.Some? ==> o.code == Ok && o.me == was.(name := name) && o.spawn.value.saying == Renames(was.name, name))
            && (o.spawn.None? ==> o.me == was && (o.code == Fail <==> !was.verified))
  {
    assert forall i | 0 <= i < |name| :: name[i] in name;
  }

  /** The text names, before its first space, the user in slot `i`: the first of that name, with a receiver. */
  ghost predicate Addresses(t: Table, me: nat, text: Text, to: Text, body: Text, i: nat)
    requires me < |t| && t[me].Some?
  {
    && text == to + " " + body && to != [] && ' ' !in to && body != []
    && Fold(to) != Fold(t[me].value.name)
    && i < MAX_USER && Named(t, me, to, i) && t[i].value.receiver
    && forall k | 0 <= k < i :: !Named(t, me, to, k)
  }

  /** A text that addresses somebody is a secret for exactly that user and the sender. */
  lemma AddressedIsSent(t: Table, me: nat, text: Text, to: Text, body: Text, i: nat)
    requires me < |t| && t[me].Some? && Addresses(t, me, text, to, body, i)
    ensures SecretMessage(t, me, text)
         == Outcome(Ok, t[me].value, None, Some(Spawn(Saying.Secret(t[me].value.name, body), 2, [i, me])))
  {
    forall j | 0 <= j < |to| ensures text[j] != ' ' {
      assert text[j] == to[j] && to[j] in to;
    }
    FindIs(text, ' ', |to|);
    assert text[..|to|] == to && text[|to| + 1..] == body;
  }

  /** Any other text is refused, and nothing is scheduled. */
  lemma SentIsAddressed(t: Table, me: nat, text: Text)
    requires me < |t| && t[me].Some? && SecretMessage(t, me, text).code != Skip
    ensures exists to, body, i :: Addresses(t, me, text, to, body, i)
  {
    var k := Find(text, ' ');
    var to, body := text[..k], AfterToken(text, ' ');
    assert text == to + " " + body;
    var i := FindNamed(t, me, to, 0).value;
    assert Addresses(t, me, text, to, body, i);
  }

  /** Names stay well formed: the rename rules are the ones `/send` relies on. */
  lemma ExecuteName(t: Table, me: nat, m: Message)
    requires me < |t| && t[me].Some? && Runnable(m) && NulFree(m.text)
    requires NameOk(t[me].value.name)
    ensures NameOk(Execute(t, me, m).me.name)
  {
    if m.kind == Kinds.CHANGE_NAME {
      var name := Execute(t, me, m).me.name;
      if name != t[me].value.name {
        assert name == m.text && 1 <= |name| < NAME_SIZE && ' ' !in name && '\"' !in name;
        assert forall i | 0 <= i < |name| :: name[i] in name;
      }
    } else {
      assert Execute(t, me, m).me.name == t[me].value.name;
    }
  }

  /**
   * As many threads as the access limit: one for every slot below 64 that is joined once the handler has
   * changed its caller, or the two ends of a secret.
   */
  lemma ExecuteSpawn(t: Table, me: nat, m: Message)
    requires me < |t| && t[me].Some? && Runnable(m)
    requires Execute(t, me, m).spawn.Some?
    ensures var o := Execute(t, me, m);
            var s := o.spawn.value;
            && |s.targets| == s.limit
            && (forall j, k | 0 <= j < k < |s.targets| :: s.targets[j] != s.targets[k])
            && (forall k | 0 <= k < |s.targets| :: s.targets[k] < |t| && t[s.targets[k]].Some?)
            && (m.kind != Kinds.SECRET ==> s.targets == JoinedSlots(t[me := Some(o.me)]))
            && (m.kind == Kinds.SECRET ==>
                  && s.targets == [s.targets[0], me] && s.targets[0] < MAX_USER
                  && IsJoined(t[s.targets[0]]) && t[s.targets[0]].value.receiver)
  {
    var o := Execute(t, me, m);
    var s := o.spawn.value;
    if m.kind != Kinds.SECRET {
      assert t[me := Some(t[me].value)] == t;
      assert s.targets == JoinedSlots(t[me := Some(o.me)]);
      forall k | 0 <= k < |s.targets| ensures s.targets[k] < |t| && t[s.targets[k]].Some? {
        assert s.targets[k] in s.targets;
      }
    }
  }

  predicate RoomFor(o: Outcome) {
    o.spawn.Some? ==> Room(o.spawn.value.saying)
  }

  lemma ShortRequestRoom(t: Table, me: nat, m: Message)
    requires me < |t| && t[me].Some? && Runnable(m) && NamesOk(t) && |m.text| <= MAX_CHAT
    ensures RoomFor(Execute(t, me, m))
  {
    var o := Execute(t, me, m);
    if o.spawn.Some? {
      SayingRoom(o.spawn.value.saying);
    }
  }
}
