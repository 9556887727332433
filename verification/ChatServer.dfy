/**
 * The server's own objects.  Handlers change the caller, scan the user array and start sender threads; each
 * is proved against the outcome Handlers defines for the table the array shows.
 */
module ChatServer {
  import opened CText
  import opened Codec
  import opened Replies
  import opened PacketBuffers
  import opened StrTok
  import opened Users
  import opened Phrases
  import opened Handlers
  import Scheduled
  import Kinds

  /** One packet for `m` was written. */
  ghost predicate Appended(was: seq<Text>, now: seq<Text>, m: Message) {
    |now| == |was| + 1 && was <= now && EncodedAs(now[|was|], m)
  }

  class ScheduleMessage {
    const max: nat
    const msg: Message
    var current: nat
    var frees: nat

    constructor (maxim: nat, message: Message)
      ensures max == maxim && msg == message && current == 0 && frees == 0
    {
      max, msg := maxim, message;
      current, frees := 0, 0;
    }

    ghost predicate Shows(m: Scheduled.Sched)
      reads this
    {
      m.max == max && m.current == current && m.frees == frees
    }

    /** schedule_message_increase. */
    method Increase()
      modifies this
      ensures forall m: Scheduled.Sched | old(Shows(m)) :: Shows(Scheduled.Increase(m))
    {
      current := current + 1;
      if max <= current {
        frees := frees + 1;
      }
    }
  }

  /** A user context with the parts of its connections that change: status, packets written, mutex. */
  class UserContext {
    const alloc: nat
    var uname: Text
    var status: Status
    var verified: bool
    var written: seq<Text>
    var receiver: bool
    var broadcast: seq<Text>
    var mutexFree: bool

    constructor (alloc: nat, name: Text)
      ensures this.alloc == alloc && Value() == User(name, Established, false, false)
      ensures written == [] && broadcast == [] && mutexFree
    {
      this.alloc, uname, status, verified, receiver := alloc, name, Established, false, false;
      written, broadcast, mutexFree := [], [], true;
    }

    function Value(): User
      reads this
    {
      User(uname, status, verified, receiver)
    }

    /** send_ack_packing_message. */
    method SendMessage(m: Message)
      requires Sendable(Packet(m))
      modifies this`written
      ensures Appended(old(written), written, m)
    {
      var w := PackingMessageSend(m);
      written := written + [w];
    }

    method SendAck(a: Ack)
      requires Sendable(Packet(AckMessage(a)))
      modifies this`written
      ensures Appended(old(written), written, AckMessage(a))
    {
      SendMessage(AckMessage(a));
    }

    /** send_response_code. */
    method SendResponseCode(code: Code)
      modifies this`written, this`status
      ensures written == old(written) + (if code == Skip then [] else [CodeWord(code)])
      ensures status == if code == Bye then Suspended else old(status)
    {
      if code != Skip {
        written := written + [CodeWord(code)];
      }
      if code == Bye {
        status := Suspended;
      }
    }

    /** broad_send_message, one thread from start to end. */
    method BroadSendMessage(smsg: ScheduleMessage)
      requires Fits(smsg.msg, PACKET_SIZE) && this as object != smsg
      modifies this`broadcast, this`mutexFree, smsg
      ensures forall m: Scheduled.Sched | old(smsg.Shows(m)) :: smsg.Shows(Scheduled.Increase(m))
      ensures !receiver ==> broadcast == old(broadcast) && mutexFree == old(mutexFree)
      ensures receiver ==> mutexFree && Appended(old(broadcast), broadcast, smsg.msg)
    {
      if !receiver {
        smsg.Increase();
        return;
      }
      var w := PackingMessageSend(smsg.msg);
      broadcast := broadcast + [w];
      smsg.Increase();
      mutexFree := true;
    }
  }

  datatype Thread = Thread(user: UserContext, message: ScheduleMessage)

  class ConnectManager {
    const userArr: array<UserContext?>
    var threads: seq<Thread>

    constructor ()
      ensures fresh(userArr) && Matches(seq(TABLE_SIZE, _ => None)) && threads == []
    {
      userArr := new UserContext?[TABLE_SIZE](_ => null);
      threads := [];
    }

    /** The array shows the table `t`, and every user sits at the index it was given. */
    ghost predicate Matches(t: Table)
      reads userArr, set i | 0 <= i < userArr.Length && userArr[i] != null :: userArr[i]
    {
      && userArr.Length == TABLE_SIZE
      && forall i | 0 <= i < TABLE_SIZE ::
           if userArr[i] == null then t[i] == None
           else userArr[i].alloc == i && t[i] == Some(userArr[i].Value())
    }

    ghost predicate Holds(user: UserContext)
      reads userArr
    {
      user.alloc < userArr.Length && userArr[user.alloc] == user
    }

    method IsJoinedAt(i: nat, ghost t: Table) returns (b: bool)
      requires Matches(t) && i < TABLE_SIZE
      ensures b == IsJoined(t[i])
    {
      b := userArr[i] != null && StatusCode(userArr[i].status) >= StatusCode(Joined);
    }

    // ----- server_net.c -----

    /** current_user_index: the lowest empty slot the acceptor may fill, or -1. */
    method CurrentUserIndex() returns (idx: int)
      requires userArr.Length == TABLE_SIZE
      ensures idx == -1 || (0 <= idx < 128 && userArr[idx] == null)
      ensures forall k | 0 <= k < (if idx == -1 then 128 else idx) :: userArr[k] != null
      ensures idx == -1 || idx >= 64 <==> forall k | 0 <= k < 64 :: userArr[k] != null
    {
      idx := 0;
      while idx < SCANNED
        invariant 0 <= idx <= SCANNED
        invariant forall k | 0 <= k < idx :: userArr[k] != null
      {
        if userArr[idx] == null {
          return;
        }
        idx := idx + 1;
      }
      idx := -1;
    }

    /** get_current_joined_user. */
    method GetCurrentJoinedUser(ghost t: Table) returns (count: nat)
      requires Matches(t)
      ensures count == |JoinedSlots(t)|
    {
      var idx := 0;
      count := 0;
      while idx < MAX_USER
        invariant idx <= MAX_USER && count == |JoinedBelow(t, idx)|
      {
        var joined := IsJoinedAt(idx, t);
        if joined {
          count := count + 1;
        }
        idx := idx + 1;
      }
    }

    /** get_current_established_user. */
    method GetCurrentEstablishedUser(ghost t: Table) returns (count: nat)
      requires Matches(t)
      ensures count == |set i | 0 <= i < MAX_USER && t[i].Some? && t[i].value.status == Established|
      ensures count <= MAX_USER
    {
      count := 0;
      ghost var seen: set<nat> := {};
      var idx := 0;
      while idx < MAX_USER
        invariant idx <= MAX_USER && count == |seen| <= idx
        invariant seen == set i | 0 <= i < idx && t[i].Some? && t[i].value.status == Established
      {
        if userArr[idx] != null && userArr[idx].status == Established {
          count := count + 1;
          seen := seen + {idx};
        }
        idx := idx + 1;
      }
    }

    /** user_disconnect and user_free: the status goes to its end and the slot is emptied. */
    method UserDisconnect(user: UserContext, ghost t: Table) returns (done: bool)
      requires Matches(t) && Holds(user)
      modifies user`status, userArr
      ensures done == (old(user.status) != Disconnected)
      ensures !done ==> Matches(t) && Holds(user)
      ensures done ==> user.status == Disconnected && Matches(t[user.alloc := None])
    {
      if user.status == Disconnected {
        return false;
      }
      user.status := Disconnected;
      userArr[user.alloc] := null;
      return true;
    }

    // ----- server_cmd.c -----

    /** The threads a command started: one for each target slot, all with the same message. */
    ghost predicate Started(was: seq<Thread>, now: seq<Thread>, targets: seq<nat>, smsg: ScheduleMessage)
      reads userArr
    {
      && |now| == |was| + |targets| && was <= now
      && forall k | 0 <= k < |targets| ::
           && targets[k] < userArr.Length && userArr[targets[k]] != null
           && now[|was| + k] == Thread(userArr[targets[k]], smsg)
    }

    lemma StartOneMore(was: seq<Thread>, now: seq<Thread>, targets: seq<nat>, i: nat, smsg: ScheduleMessage)
      requires Started(was, now, targets, smsg) && i < userArr.Length && userArr[i] != null
      ensures Started(was, now + [Thread(userArr[i], smsg)], targets + [i], smsg)
    {
    }

    ghost predicate Carries(smsg: ScheduleMessage, spawn: Spawn)
      reads smsg
    {
      && smsg.max == spawn.limit && smsg.current == 0 && smsg.frees == 0
      && smsg.msg == SayingMessage(spawn.saying)
    }

    /** The loop of cmd_broadcast_message that starts a thread for every joined user. */
    method SpawnJoined(smsg: ScheduleMessage, ghost t: Table)
      requires Matches(t)
      modifies this`threads
      ensures Started(old(threads), threads, JoinedSlots(t), smsg)
    {
      ghost var was := threads;
      for i := 0 to MAX_USER
        invariant Matches(t) && Started(was, threads, JoinedBelow(t, i), smsg)
      {
        var joined := IsJoinedAt(i, t);
        assert JoinedBelow(t, i + 1) == if joined then JoinedBelow(t, i) + [i] else JoinedBelow(t, i);
        if joined {
          StartOneMore(was, threads, JoinedBelow(t, i), i, smsg);
          threads := threads + [Thread(userArr[i], smsg)];
        }
      }
    }

    /** What a handler did: its code, the caller's new fields, its acknowledgement and its threads. */
    twostate predicate Did(user: UserContext, o: Outcome, code: Code, new smsg: ScheduleMessage?)
      reads this, userArr, user, smsg
    {
      && code == o.code
      && user.Value() == o.me
      && (o.ack == None ==> user.written == old(user.written))
      && (o.ack.Some? ==> Appended(old(user.written), user.written, AckMessage(o.ack.value)))
      && (o.spawn == None <==> smsg == null)
      && (o.spawn == None ==> threads == old(threads))
      && (o.spawn.Some? ==> Carries(smsg, o.spawn.value) && Started(old(threads), threads, o.spawn.value.targets, smsg))
    }

    /** The caller sits in its slot of the table the array shows. */
    ghost predicate Seated(user: UserContext, t: Table)
      reads userArr, user, set i | 0 <= i < userArr.Length && userArr[i] != null :: userArr[i]
    {
      Matches(t) && Holds(user) && user.alloc < TABLE_SIZE && t[user.alloc] == Some(user.Value())
    }

    ghost predicate Ready(user: UserContext, t: Table)
      reads userArr, user, set i | 0 <= i < userArr.Length && userArr[i] != null :: userArr[i]
    {
      Seated(user, t) && NamesOk(t)
    }

    /** cmd_broadcast_message: count, create, and start the threads. */
    method CmdBroadcastMessage(user: UserContext, saying: Saying, ghost t: Table)
      returns (code: Code, smsg: ScheduleMessage)
      requires Seated(user, t) && Room(saying)
      modifies this`threads
      ensures fresh(smsg) && Matches(t) && Did(user, Broadcast(t, user.alloc, saying), code, smsg)
    {
      var count := GetCurrentJoinedUser(t);
      smsg := new ScheduleMessage(count, SayingMessage(saying));
      SpawnJoined(smsg, t);
      code := Ok;
    }

    /** send_ack_packing_message and `return RESPONSE_CONN_SKIP`. */
    method Acknowledging(user: UserContext, a: Ack, ghost t: Table)
      returns (code: Code, smsg: ScheduleMessage?)
      requires Ready(user, t)
      requires (a.CurrentName? ==> NameOk(a.name)) && (a.Roster? ==> RosterOf(a.table, a.you))
      modifies user`written
      ensures Did(user, Acknowledge(t[user.alloc].value, a), code, smsg)
      ensures Matches(t[user.alloc := Some(user.Value())]) && smsg == null
    {
      AckSendable(a);
      user.SendAck(a);
      code, smsg := Skip, null;
    }

    /** The strtok and the two comparisons of the handshake. */
    method CheckGreeting(text: Text) returns (good: bool)
      requires HelloReadable(text)
      ensures good == Greets(text)
    {
      var h := Hello(text);
      var prefix := h[..Find(h, ' ')];
      good := prefix == CLIENT_PREFIX && HelloVersion(text) == PROGRAM_VERSION;
    }

    /** A verified client joins and is announced. */
    method Admit(user: UserContext, ghost t: Table) returns (code: Code, smsg: ScheduleMessage?)
      requires Seated(user, t) && Room(Joins(t[user.alloc].value.name))
      modifies user, this`threads
      ensures var joined := t[user.alloc].value.(status := Joined, verified := true);
              var t' := t[user.alloc := Some(joined)];
              && Did(user, Broadcast(t', user.alloc, Joins(joined.name)).(code := Welcome), code, smsg)
              && Matches(t')
    {
      user.verified := true;
      user.status := Joined;
      code, smsg := CmdBroadcastMessage(user, Joins(user.uname), t[user.alloc := Some(user.Value())]);
      code := Welcome;
    }

    /** Acknowledge, then suspend the session. */
    method TurnAway(user: UserContext, a: Ack, ghost t: Table) returns (code: Code, smsg: ScheduleMessage?)
      requires Seated(user, t) && a.Refused?
      modifies user, this`threads
      ensures var o := Acknowledge(t[user.alloc].value.(status := Suspended), a);
              Did(user, o, code, smsg) && Matches(t[user.alloc := Some(o.me)])
    {
      AckSendable(a);
      user.SendAck(a);
      user.status := Suspended;
      code, smsg := Skip, null;
    }

    method GiveVerdict(user: UserContext, good: bool, ghost t: Table)
      returns (code: Code, smsg: ScheduleMessage?)
      requires Ready(user, t) && RoomFor(Verdict(t, user.alloc, good))
      modifies user, this`threads
      ensures var o := Verdict(t, user.alloc, good);
              Did(user, o, code, smsg) && Matches(t[user.alloc := Some(o.me)])
    {
      smsg := null;
      if !good {
        code := Fail;
      } else if user.alloc + 1 > MAX_USER {
        code, smsg := TurnAway(user, Refused(ServerFull), t);
      } else if user.status == Established {
        code, smsg := Admit(user, t);
      } else {
        code := Ok;
      }
    }

    method CmdWelcomeHandshake(user: UserContext, text: Text, ghost t: Table)
      returns (code: Code, smsg: ScheduleMessage?)
      requires Ready(user, t) && HelloReadable(text) && RoomFor(Handshake(t, user.alloc, text))
      modifies user, this`threads
      ensures var o := Handshake(t, user.alloc, text);
              Did(user, o, code, smsg) && Matches(t[user.alloc := Some(o.me)])
    {
      var good := CheckGreeting(text);
      code, smsg := GiveVerdict(user, good, t);
    }

    /** The scan both cmd_change_name and cmd_secret_message make, from slot 0 to the first match. */
    method ScanForName(user: UserContext, name: Text, ghost t: Table) returns (found: Option<nat>)
      requires Matches(t) && Holds(user)
      ensures found == FindNamed(t, user.alloc, name, 0)
    {
      var i := 0;
      while i < MAX_USER
        invariant i <= MAX_USER && FindNamed(t, user.alloc, name, i) == FindNamed(t, user.alloc, name, 0)
      {
        var joined := IsJoinedAt(i, t);
        if joined && userArr[i] != user && Fold(name) == Fold(userArr[i].uname) {
          return Some(i);
        }
        i := i + 1;
      }
      found := None;
    }

    method CmdChangeName(user: UserContext, name: Text, ghost t: Table)
      returns (code: Code, smsg: ScheduleMessage?)
      requires Ready(user, t) && RoomFor(ChangeName(t, user.alloc, name))
      modifies user, this`threads
      ensures var o := ChangeName(t, user.alloc, name);
              Did(user, o, code, smsg) && Matches(t[user.alloc := Some(o.me)])
    {
      smsg := null;
      if !user.verified {
        return Fail, null;
      }
      if |name| == 0 {
        code, smsg := Acknowledging(user, CurrentName(user.uname), t);
        return;
      }
      if NAME_SIZE <= |name| {
        code, smsg := Acknowledging(user, Refused(NameTooLong), t);
        return;
      }
      if ' ' in name || '\"' in name {
        code, smsg := Acknowledging(user, Refused(NameRule), t);
        return;
      }
      var found := ScanForName(user, name, t);
      if found.Some? {
        code, smsg := Acknowledging(user, Refused(NameInUse), t);
        return;
      }
      var was := user.uname;
      user.uname := name;
      code, smsg := CmdBroadcastMessage(user, Renames(was, name), t[user.alloc := Some(user.Value())]);
    }

    /** One thread for the user found and one for the sender. */
    method StartSecret(user: UserContext, to: nat, saying: Saying, ghost t: Table)
      returns (code: Code, smsg: ScheduleMessage?)
      requires Seated(user, t) && to < MAX_USER && userArr[to] != null && Room(saying)
      modifies this`threads
      ensures Did(user, Outcome(Ok, t[user.alloc].value, None, Some(Spawn(saying, 2, [to, user.alloc]))), code, smsg)
      ensures Matches(t) && t[user.alloc := Some(user.Value())] == t
    {
      smsg := new ScheduleMessage(2, SayingMessage(saying));
      threads := threads + [Thread(userArr[to], smsg)];
      threads := threads + [Thread(user, smsg)];
      code := Ok;
    }

    method CmdSecretMessage(user: UserContext, text: Text, ghost t: Table)
      returns (code: Code, smsg: ScheduleMessage?, ghost o: Outcome)
      requires Ready(user, t) && RoomFor(SecretMessage(t, user.alloc, text))
      modifies user`written, this`threads
      ensures Did(user, o, code, smsg) && Matches(t[user.alloc := Some(o.me)])
      ensures o == SecretMessage(t, user.alloc, text)
    {
      o := SecretMessage(t, user.alloc, text);
      smsg := null;
      var to := text[..Find(text, ' ')];
      var body := AfterToken(text, ' ');
      if |text| == 0 {
        code, smsg := Acknowledging(user, Refused(SendUsage), t);
      } else if |to| == 0 {
        code, smsg := Acknowledging(user, Refused(SendNoUser), t);
      } else if |body| == 0 {
        code, smsg := Acknowledging(user, Refused(SendNoText), t);
      } else if Fold(to) == Fold(user.uname) {
        code, smsg := Acknowledging(user, Refused(SendSelf), t);
      } else {
        var found := ScanForName(user, to, t);
        if found == None {
          code, smsg := Acknowledging(user, Refused(SendNotFound), t);
        } else if !userArr[found.value].receiver {
          code, smsg := Acknowledging(user, Refused(SendNoReceiver), t);
        } else {
          code, smsg := StartSecret(user, found.value, Saying.Secret(user.uname, body), t);
        }
      }
    }

    /** One line of the roster, in the handler's 512-byte buffer. */
    method FormatLine(user: UserContext, i: nat, ghost t: Table) returns (line: Text)
      requires Ready(user, t) && i < MAX_USER && IsJoined(t[i])
      ensures line == RosterLine(t, user.alloc, i)
    {
      DecDigits(i + 1);
      var name := userArr[i].uname;
      var buf2 := new char[512](_ => NUL);
      Fill(buf2, "[" + Dec(i + 1) + "] " + name);
      line := "[" + Dec(i + 1) + "] " + name;
      if user == userArr[i] {
        Append(buf2, line, YOU);
        line := line + YOU;
      }
      line := StringAt(buf2, 0, line);
    }

    /** The loop of cmd_current_user over its 8188-byte buffer. */
    method FormatBody(user: UserContext, ghost t: Table) returns (body: Text)
      requires Ready(user, t)
      ensures body == RosterBody(t, user.alloc, 0)
    {
      var m := new char[TEXT_SIZE / 2](_ => NUL);
      ghost var done: Text := [];
      var i := 0;
      while i < MAX_USER
        invariant i <= MAX_USER && HoldsAt(m[..], 0, done) && |done| <= 76 * i
        invariant done + RosterBody(t, user.alloc, i) == RosterBody(t, user.alloc, 0)
      {
        var joined := IsJoinedAt(i, t);
        if joined {
          var line := FormatLine(user, i, t);
          RosterLineSize(t, user.alloc, i);
          var end := if i + 1 < MAX_USER then "\n" else "";
          Append(m, done, line + end);
          BodyStep(t, user.alloc, i, done, end);
          done := done + (line + end);
        }
        i := i + 1;
      }
      assert done + [] == done;
      body := StringAt(m, 0, done);
    }

    lemma BodyStep(t: Table, me: nat, i: nat, done: Text, end: Text)
      requires i < MAX_USER && IsJoined(t[i]) && end == if i + 1 < MAX_USER then "\n" else ""
      ensures done + RosterBody(t, me, i) == done + (RosterLine(t, me, i) + end) + RosterBody(t, me, i + 1)
    {
    }

    method CmdCurrentUser(user: UserContext, ghost t: Table) returns (code: Code, smsg: ScheduleMessage?)
      requires Ready(user, t)
      modifies user`written
      ensures var o := CurrentUser(t, user.alloc);
              Did(user, o, code, smsg) && Matches(t[user.alloc := Some(o.me)])
    {
      if !user.verified {
        return Fail, null;
      }
      var body := FormatBody(user, t);
      var count := GetCurrentJoinedUser(t);
      ghost var a := Roster(t, user.alloc);
      RosterHeadSize(a);
      RosterBodySize(t, user.alloc, 0);
      var head := FormatHead(count, a);
      code, smsg := SendRoster(user, head, body, a, t);
    }

    /** Send head and body, put together in the 16376-byte buffer. */
    method SendRoster(user: UserContext, head: Text, body: Text, ghost a: Ack, ghost t: Table)
      returns (code: Code, smsg: ScheduleMessage?)
      requires Seated(user, t) && a.Roster? && AckText(a) == head + "\n" + body
      requires NulFree(head) && NulFree(body) && |head| + 1 + |body| < 5000
      modifies user`written
      ensures Did(user, Acknowledge(t[user.alloc].value, a), code, smsg)
      ensures Matches(t[user.alloc := Some(user.Value())]) && smsg == null
    {
      var m := JoinRoster(head, body, a);
      user.SendMessage(m);
      code, smsg := Skip, null;
    }

    method JoinRoster(head: Text, body: Text, ghost a: Ack) returns (m: Message)
      requires a.Roster? && AckText(a) == head + "\n" + body
      requires NulFree(head) && NulFree(body) && |head| + 1 + |body| < 5000
      ensures m == AckMessage(a) && Sendable(Packet(m))
    {
      var out := new char[TEXT_SIZE](_ => NUL);
      Fill(out, head + "\n");
      Append(out, head + "\n", body);
      var text := StringAt(out, 0, head + "\n" + body);
      m := Message(Kinds.CURRENT_USER, |text|, text);
    }

    /** The sprintf of the roster's first line. */
    method FormatHead(count: nat, ghost a: Ack) returns (head: Text)
      requires a.Roster? && count == |JoinedSlots(a.table)|
      ensures head == RosterHead(a)
    {
      var kind := Kinds.CURRENT_USER;
      head := Literal(Title(kind)) + Dec(count) + "/" + Dec(MAX_USER) + "]";
    }

    method CmdDisconnect(user: UserContext, ghost t: Table) returns (code: Code, smsg: ScheduleMessage?)
      requires Ready(user, t) && RoomFor(Leave(t, user.alloc))
      modifies user`status, this`threads
      ensures var o := Leave(t, user.alloc);
              Did(user, o, code, smsg) && Matches(t[user.alloc := Some(o.me)])
    {
      user.status := Suspended;
      code, smsg := CmdBroadcastMessage(user, Leaves(user.uname), t[user.alloc := Some(user.Value())]);
      code := Bye;
    }

    // ----- server_comm.c -----

    /** execute_command. */
    method ExecuteCommand(user: UserContext, m: Message, ghost t: Table)
      returns (code: Code, smsg: ScheduleMessage?)
      requires Ready(user, t) && Runnable(m) && RoomFor(Execute(t, user.alloc, m))
      modifies user, this`threads
      ensures var o := Execute(t, user.alloc, m);
              Did(user, o, code, smsg) && Matches(t[user.alloc := Some(o.me)])
    {
      if m.kind == Kinds.HANDSHAKE {
        code, smsg := CmdWelcomeHandshake(user, m.text, t);
      } else if m.kind == Kinds.BROADCAST {
        code, smsg := CmdBroadcastMessage(user, Chat(user.uname, m.text), t);
        assert t[user.alloc := Some(user.Value())] == t;
      } else if m.kind == Kinds.CHANGE_NAME {
        code, smsg := CmdChangeName(user, m.text, t);
      } else if m.kind == Kinds.SECRET {
        ghost var o;
        code, smsg, o := CmdSecretMessage(user, m.text, t);
      } else if m.kind == Kinds.CURRENT_USER {
        code, smsg := CmdCurrentUser(user, t);
      } else if m.kind == Kinds.DISCONNECT {
        code, smsg := CmdDisconnect(user, t);
      } else {
        code, smsg := NoSupport, null;
        assert t[user.alloc := Some(user.Value())] == t;
      }
    }

    /** One round of the session loop: run the command and send its response code. */
    method ServeRequest(user: UserContext, m: Message, ghost t: Table) returns (ghost t': Table)
      requires Ready(user, t) && Runnable(m) && NulFree(m.text) && RoomFor(Execute(t, user.alloc, m))
      requires user.status in {Established, Joined}
      modifies user, this`threads
      ensures Ready(user, t') && t' == AfterOne(t, user.alloc, m)
      ensures |user.written| == |old(user.written)| + 1 && old(user.written) <= user.written
      ensures Answers(user.written[|old(user.written)|], t, user.alloc, m)
      ensures user.status != Disconnected
    {
      SkipIffAck(t, user.alloc, m);
      ExecuteName(t, user.alloc, m);
      StatusAfter(t, user.alloc, m);
      var code, smsg := ExecuteCommand(user, m, t);
      user.SendResponseCode(code);
      t' := t[user.alloc := Some(user.Value())];
    }

    /** The request in packet `n` of `inbox`, served after those before it. */
    method ServeNext(
        user: UserContext, inbox: seq<Text>, n: nat, m: Message, ghost base: nat, ghost t: Table, ghost prior: Table)
      returns (ghost cur: Table)
      requires Ready(user, prior) && user.status in {Established, Joined} && t[user.alloc].Some?
      requires n < |inbox| && CanTake(t, user.alloc, inbox, n) && prior == After(t, user.alloc, inbox[..n])
      requires ReadBack(inbox[n], PACKET_SIZE) == Valid(m) && NulFree(m.text) && |user.written| == base + n
      modifies user, this`threads
      ensures Ready(user, cur) && user.status != Disconnected
      ensures |user.written| == |old(user.written)| + 1 && old(user.written) <= user.written
      ensures AnswersAt(user.written, base, t, user.alloc, inbox, n) && cur == After(t, user.alloc, inbox[..n + 1])
    {
      MayServe(t, user.alloc, inbox, n, prior, m);
      cur := ServeRequest(user, m, prior);
      TurnTaken(base, user.written, t, user.alloc, inbox, n, prior, m, cur);
    }

    /** One turn of the session loop, for packet `n` of `inbox`: true if it was answered. */
    method TakeTurn(
        user: UserContext, inbox: seq<Text>, n: nat, ghost was: seq<Text>, ghost t: Table, ghost prior: Table)
      returns (valid: bool, ghost cur: Table)
      requires Ready(user, prior) && user.status in {Established, Joined} && t[user.alloc].Some?
      requires n < |inbox| && CanTake(t, user.alloc, inbox, n)
      requires InTurn(was, user.written, t, user.alloc, inbox, n, prior, user.status)
      modifies user, this`threads
      ensures Ready(user, cur) && user.status != Disconnected
      ensures !valid ==> user.status == Suspended
      ensures InTurn(was, user.written, t, user.alloc, inbox, if valid then n + 1 else n, cur, user.status)
    {
      ghost var before := user.written;
      assert AllAnswered(was, before, t, user.alloc, inbox, n) && GetsTo(t, user.alloc, inbox, n);
      var d := ReadPacket(inbox[n], PACKET_SIZE);
      valid := d.Valid?;
      if valid {
        cur := ServeNext(user, inbox, n, d.msg, |was|, t, prior);
        NextTurn(was, before, user.written, t, user.alloc, inbox, n, cur, user.status);
      } else {
        cur := Suspend(user, prior);
      }
    }

    /** A packet that does not decode, or a failed read, ends the session. */
    method Suspend(user: UserContext, ghost t: Table) returns (ghost t': Table)
      requires Ready(user, t)
      modifies user`status
      ensures Ready(user, t') && user.status == Suspended
    {
      user.status := Suspended;
      t' := t[user.alloc := Some(user.Value())];
    }

    /**
     * communicate_user, alone: `inbox` is what the connection delivers before a read fails.  Every packet it
     * takes and can decode is answered by exactly one packet, the one for that request after the earlier
     * ones, and the user is gone at the end.
     */
    method CommunicateUser(user: UserContext, inbox: seq<Text>, ghost t: Table) returns (served: nat)
      requires Ready(user, t) && user.status in {Established, Joined}
      requires forall i | 0 <= i < |inbox| && GetsTo(t, user.alloc, inbox, i) :: CanTake(t, user.alloc, inbox, i)
      modifies user, this`threads, userArr
      ensures served <= |inbox| && AllAnswered(old(user.written), user.written, t, user.alloc, inbox, served)
      ensures served < |inbox| ==> MayStop(t, user.alloc, inbox, served)
      ensures user.status == Disconnected && userArr[user.alloc] == null
    {
      ghost var cur: Table;
      served, cur := ServeAll(user, inbox, t);
      var done := UserDisconnect(user, cur);
    }

    /** The loop of communicate_user. */
    method ServeAll(user: UserContext, inbox: seq<Text>, ghost t: Table) returns (served: nat, ghost cur: Table)
      requires Ready(user, t) && user.status in {Established, Joined}
      requires forall i | 0 <= i < |inbox| && GetsTo(t, user.alloc, inbox, i) :: CanTake(t, user.alloc, inbox, i)
      modifies user, this`threads
      ensures Ready(user, cur) && user.status == Suspended && served <= |inbox|
      ensures InTurn(old(user.written), user.written, t, user.alloc, inbox, served, cur, Suspended)
    {
      served, cur := 0, t;
      ghost var was := user.written;
      while user.status != Suspended
        invariant Ready(user, cur) && user.status != Disconnected && served <= |inbox|
        invariant InTurn(was, user.written, t, user.alloc, inbox, served, cur, user.status)
        decreases |inbox| - served, user.status != Suspended
      {
        if served == |inbox| {
          cur := Suspend(user, cur);
          break;
        }
        var valid;
        valid, cur := TakeTurn(user, inbox, served, was, t, cur);
        served := if valid then served + 1 else served;
      }
    }
  }

  /** The packet that answers a request on the table `t`. */
  ghost predicate Answers(w: Text, t: Table, me: nat, m: Message)
    requires me < |t| && t[me].Some?
  {
    Runnable(m) && AnswersOutcome(w, Execute(t, me, m))
  }

  ghost predicate AnswersOutcome(w: Text, o: Outcome) {
    if o.code != Skip then w == CodeWord(o.code) else o.ack.Some? && EncodedAs(w, AckMessage(o.ack.value))
  }

  ghost function AfterOne(t: Table, me: nat, m: Message): (r: Table)
    requires me < |t| && t[me].Some?
    ensures r[me].Some?
  {
    if Runnable(m) then t[me := Some(Execute(t, me, m).me)] else t
  }

  /** The table after one user's packets, served one after the other. */
  ghost function After(t: Table, me: nat, ws: seq<Text>): (r: Table)
    requires me < |t| && t[me].Some?
    ensures r[me].Some?
    decreases |ws|
  {
    if ws == [] then t
    else
      var r := After(t, me, ws[..|ws| - 1]);
      match ReadBack(ws[|ws| - 1], PACKET_SIZE)
      case Invalid => r
      case Valid(m) => AfterOne(r, me, m)
  }

  /** The packet written `i` places after the first `base` answers packet `i` of `ws`, served after those before it. */
  ghost predicate AnswersAt(written: seq<Text>, base: nat, t: Table, me: nat, ws: seq<Text>, i: nat)
    requires me < |t| && t[me].Some? && i < |ws| && base + i < |written|
  {
    ReadBack(ws[i], PACKET_SIZE).Valid? && Answers(written[base + i], After(t, me, ws[..i]), me, ReadBack(ws[i], PACKET_SIZE).msg)
  }

  /** One packet was written for each of the first `n` packets of `ws`, in order. */
  ghost predicate AllAnswered(was: seq<Text>, now: seq<Text>, t: Table, me: nat, ws: seq<Text>, n: nat)
    requires me < |t| && t[me].Some? && n <= |ws|
  {
    was <= now && |now| == |was| + n && forall i | 0 <= i < n :: AnswersAt(now, |was|, t, me, ws, i)
  }

  /** The loop has answered the first `n` packets; if it stopped early, it had a reason to. */
  ghost predicate InTurn(
      was: seq<Text>, now: seq<Text>, t: Table, me: nat, ws: seq<Text>, n: nat, cur: Table, status: Status)
    requires me < |t| && t[me].Some? && n <= |ws|
  {
    && AllAnswered(was, now, t, me, ws, n)
    && (status != Suspended ==> cur == After(t, me, ws[..n]) && GetsTo(t, me, ws, n))
    && (status == Suspended && n < |ws| ==> MayStop(t, me, ws, n))
  }

  /** The loop gets to packet `n`: those before it decode, and none of them suspends the user. */
  ghost predicate GetsTo(t: Table, me: nat, ws: seq<Text>, n: nat)
    requires me < |t| && t[me].Some? && n <= |ws|
  {
    forall i | 0 <= i < n ::
      ReadBack(ws[i], PACKET_SIZE).Valid? && After(t, me, ws[..i + 1])[me].value.status != Suspended
  }

  /** The buffers of the server hold packet `n` and all its handler makes of it. */
  ghost predicate CanTake(t: Table, me: nat, ws: seq<Text>, n: nat)
    requires me < |t| && t[me].Some? && n < |ws|
  {
    Readable(ws[n], PACKET_SIZE) &&
    match ReadBack(ws[n], PACKET_SIZE)
    case Invalid => true
    case Valid(m) => Runnable(m) && RoomFor(Execute(After(t, me, ws[..n]), me, m))
  }

  ghost predicate MayStop(t: Table, me: nat, ws: seq<Text>, n: nat)
    requires me < |t| && t[me].Some? && n < |ws|
  {
    ReadBack(ws[n], PACKET_SIZE) == Invalid || After(t, me, ws[..n])[me].value.status == Suspended
  }

  /** The turn just taken answered packet `n` and left the table after it. */
  lemma {:induction false} TurnTaken(
      base: nat, now: seq<Text>, t: Table, me: nat, ws: seq<Text>, n: nat, prior: Table, m: Message, cur: Table)
    requires me < |t| && t[me].Some? && n < |ws| && |now| == base + n + 1 && ReadBack(ws[n], PACKET_SIZE) == Valid(m)
    requires prior == After(t, me, ws[..n]) && Answers(now[base + n], prior, me, m)
    requires cur == AfterOne(prior, me, m)
    ensures AnswersAt(now, base, t, me, ws, n) && cur == After(t, me, ws[..n + 1])
  {
    AfterStep(t, me, ws, n);
  }

  lemma {:induction false} MayServe(t: Table, me: nat, ws: seq<Text>, n: nat, prior: Table, m: Message)
    requires me < |t| && t[me].Some? && n < |ws| && CanTake(t, me, ws, n) && ReadBack(ws[n], PACKET_SIZE) == Valid(m)
    requires prior == After(t, me, ws[..n])
    ensures Runnable(m) && RoomFor(Execute(prior, me, m))
  {
  }

  lemma {:induction false} NextTurn(
      was: seq<Text>, before: seq<Text>, now: seq<Text>, t: Table, me: nat, ws: seq<Text>, n: nat,
      cur: Table, status: Status)
    requires me < |t| && t[me].Some? && n < |ws|
    requires AllAnswered(was, before, t, me, ws, n) && GetsTo(t, me, ws, n)
    requires |now| == |before| + 1 && before <= now && AnswersAt(now, |was|, t, me, ws, n)
    requires cur == After(t, me, ws[..n + 1]) && cur[me].value.status == status
    ensures InTurn(was, now, t, me, ws, n + 1, cur, status)
  {
    AnswerOneMore(was, before, now, t, me, ws, n);
  }

  lemma {:induction false} AnswerOneMore(was: seq<Text>, before: seq<Text>, now: seq<Text>, t: Table, me: nat, ws: seq<Text>, n: nat)
    requires me < |t| && t[me].Some? && n < |ws|
    requires AllAnswered(was, before, t, me, ws, n)
    requires |now| == |before| + 1 && before <= now && AnswersAt(now, |was|, t, me, ws, n)
    ensures AllAnswered(was, now, t, me, ws, n + 1)
  {
    forall i | 0 <= i < n ensures AnswersAt(now, |was|, t, me, ws, i) {
      assert AnswersAt(before, |was|, t, me, ws, i);
      assert before[|was| + i] == now[|was| + i];
    }
  }

  lemma {:induction false} AfterStep(t: Table, me: nat, ws: seq<Text>, n: nat)
    requires me < |t| && t[me].Some? && n < |ws| && ReadBack(ws[n], PACKET_SIZE).Valid?
    ensures After(t, me, ws[..n + 1]) == AfterOne(After(t, me, ws[..n]), me, ReadBack(ws[n], PACKET_SIZE).msg)
  {
    assert ws[..n + 1][..n] == ws[..n];
  }
}
