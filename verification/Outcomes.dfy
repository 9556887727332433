/** What each request is answered and what it schedules, case by case, in the order of the source's tests. */
module Outcomes {
  import opened CText
  import opened Codec
  import opened Replies
  import opened StrTok
  import opened Users
  import opened Phrases
  import opened Handlers

  /** An acknowledgement and nothing else. */
  predicate Refuses(o: Outcome, user: User, why: Refusal) {
    o.code == Skip && o.me == user && o.spawn == None && o.ack == Some(Refused(why))
  }

  /** A reply word and nothing else. */
  predicate OnlyWord(o: Outcome, user: User, word: Text) {
    o.code != Skip && CodeWord(o.code) == word && o.me == user && o.ack == None && o.spawn == None
  }

  /** A reply word, and one message for every user joined on the table `t`. */
  predicate Announces(o: Outcome, user: User, word: Text, saying: Saying, t: Table) {
    && o.code != Skip && CodeWord(o.code) == word && o.me == user && o.ack == None
    && o.spawn == Some(Spawn(saying, |JoinedSlots(t)|, JoinedSlots(t)))
  }

  /** What a refusal is sent as: a packet of its command's type that says its sentence. */
  lemma RefusalSays(why: Refusal)
    ensures var m := AckMessage(Refused(why));
            && m.kind == (if why in {ServerFull, NameTooLong, NameRule, NameInUse} then 2 else 3)
            && m.length == |m.text| && Says(m.text, AckString(Refused(why)))
  {
    AckSpells(Refused(why));
  }

  /** The sentence of each refusal of a greeting or a rename. */
  lemma NameSentence(why: Refusal, s: string)
    requires s == AckString(Refused(why))
    ensures why == ServerFull ==> s == "참여 가능 인원이 없습니다. 인원이 꽉찼습니다.\n"
    ensures why == NameTooLong ==> s == "바꾸고자 하는 닉네임은 63자를 초과할 수 없습니다."
    ensures why == NameRule ==>
              s == "사용이 금지된 문자가 포함되어 있습니다 (띄어쓰기, \"), 사용법: /name <바꿀이름>"
    ensures why == NameInUse ==> s == "이미 사용중인 닉네임입니다."
  {
  }

  /** The sentence of each refusal of a secret. */
  lemma SecretSentence(why: Refusal, s: string)
    requires s == AckString(Refused(why))
    ensures why == SendUsage ==> s == "정보가 없습니다, 사용법: /send <사용자 닉네임> <메시지>"
    ensures why == SendNoUser ==> s == "보내고자 하는 유저가 없습니다, 사용법: /send <사용자 닉네임> <메시지>"
    ensures why == SendNoText ==> s == "보내고자 하는 메시지가 없습니다, 사용법: /send <사용자 닉네임> <메시지 ...>"
    ensures why == SendSelf ==> s == "자기 자신한테는 1:1 메시지를 보낼 수 없습니다."
    ensures why == SendNoReceiver ==>
              s == "해당 유저는 현재 메시지 수신기가 켜져있지 않습니다. 메시지를 전달할 수 없습니다."
    ensures why == SendNotFound ==> s == "해당 유저를 찾을 수 없습니다."
  {
  }

  /** What an empty rename is answered with: a type 2 packet that ends in the caller's name. */
  lemma CurrentNameSays(name: Text, title: string)
    requires title == AckString(CurrentName(name))
    ensures var m := AckMessage(CurrentName(name));
            m.kind == 2 && m.length == |m.text| && exists p :: m.text == p + name && Says(p, title)
    ensures title == "현재 닉네임 - "
  {
    AckSpells(CurrentName(name));
  }

  /** Type 1: the caller's line, for all joined users, answered OK. */
  lemma ChatOutcome(t: Table, me: nat, m: Message)
    requires me < |t| && t[me].Some? && m.kind == 1
    ensures var user := t[me].value; Announces(Execute(t, me, m), user, "OK", Chat(user.name, m.text), t)
  {
  }

  /** Type 5: the caller is suspended, which all joined users are told, and answered BYE. */
  lemma LeaveOutcome(t: Table, me: nat, m: Message)
    requires me < |t| && t[me].Some? && m.kind == 5
    ensures var gone := t[me].value.(status := Suspended);
            Announces(Execute(t, me, m), gone, "BYE", Leaves(gone.name), t[me := Some(gone)])
  {
  }

  /** Any type but 0 to 5. */
  lemma UnsupportedOutcome(t: Table, me: nat, m: Message)
    requires me < |t| && t[me].Some? && m.kind > 5
    ensures OnlyWord(Execute(t, me, m), t[me].value, "NOSUPPORT")
  {
  }

  /** Type 0, the greeting: four cases, and in each what becomes of the caller. */
  lemma GreetingOutcome(t: Table, me: nat, m: Message)
    requires me < |t| && t[me].Some? && m.kind == 0 && Runnable(m) && NulFree(m.text)
    ensures var user, o, good := t[me].value, Execute(t, me, m), Hello(m.text) == "CLIENT_VERSION 1.0.0";
            && (!good ==> OnlyWord(o, user, "FAIL"))
            && (good && me >= 64 ==> Refuses(o, user.(status := Suspended), ServerFull))
            && (good && me < 64 && user.status == Established ==>
                  var joined := user.(status := Joined, verified := true);
                  Announces(o, joined, "WELCOME", Joins(user.name), t[me := Some(joined)]))
            && (good && me < 64 && user.status != Established ==> OnlyWord(o, user, "OK"))
  {
    GreetsExactly(m.text);
    assert Execute(t, me, m) == Verdict(t, me, Greets(m.text));
  }

  /** Another joined user has that name, up to the case of letters. */
  ghost predicate NameTaken(t: Table, me: nat, name: Text) {
    exists k :: 0 <= k < 64 && k != me && IsJoined(t[k]) && SameName(name, t[k].value.name)
  }

  ghost predicate SameName(a: Text, b: Text) {
    |a| == |b| && forall i | 0 <= i < |a| :: SameLetter(a[i], b[i])
  }

  lemma TakenIsNamed(t: Table, me: nat, name: Text)
    ensures NameTaken(t, me, name) <==> FindNamed(t, me, name, 0).Some?
  {
    forall k | 0 <= k < 64 && t[k].Some? ensures SameName(name, t[k].value.name) <==> Fold(name) == Fold(t[k].value.name) {
      FoldMatches(name, t[k].value.name);
    }
    if FindNamed(t, me, name, 0).Some? {
      assert Named(t, me, name, FindNamed(t, me, name, 0).value);
    }
    if NameTaken(t, me, name) {
      var k :| 0 <= k < 64 && k != me && IsJoined(t[k]) && SameName(name, t[k].value.name);
      assert Named(t, me, name, k);
    }
  }

  /** Type 2, a rename: the tests in order, what each refusal says, and the rename. */
  lemma RenameOutcome(t: Table, me: nat, m: Message)
    requires me < |t| && t[me].Some? && m.kind == 2
    ensures var user, o, name := t[me].value, Execute(t, me, m), m.text;
            if !user.verified then OnlyWord(o, user, "FAIL")
            else if name == [] then
              o.code == Skip && o.me == user && o.spawn == None && o.ack == Some(CurrentName(user.name))
            else if |name| >= 64 then Refuses(o, user, NameTooLong)
            else if exists i :: 0 <= i < |name| && name[i] in {' ', '\"'} then
              Refuses(o, user, NameRule)
            else if NameTaken(t, me, name) then Refuses(o, user, NameInUse)
            else
              var now := user.(name := name);
              Announces(o, now, "OK", Renames(user.name, name), t[me := Some(now)])
  {
    var user, o, name := t[me].value, Execute(t, me, m), m.text;
    assert o == ChangeName(t, me, name);
    TakenIsNamed(t, me, name);
  }

  /** Type 3, a secret: the tests in order, and what each refusal says. */
  lemma SecretOutcome(t: Table, me: nat, m: Message)
    requires me < |t| && t[me].Some? && m.kind == 3
    ensures var user, o, text := t[me].value, Execute(t, me, m), m.text;
            var k := Find(text, ' ');
            var to, body := text[..k], if k < |text| then text[k + 1..] else [];
            if text == [] then Refuses(o, user, SendUsage)
            else if to == [] then Refuses(o, user, SendNoUser)
            else if body == [] then Refuses(o, user, SendNoText)
            else if SameName(to, user.name) then Refuses(o, user, SendSelf)
            else if !NameTaken(t, me, to) then Refuses(o, user, SendNotFound)
            else exists i :: FirstNamed(t, me, to, i) && Whispered(o, t, me, body, i)
  {
    var user, o, text := t[me].value, Execute(t, me, m), m.text;
    var to := text[..Find(text, ' ')];
    assert o == SecretMessage(t, me, text);
    FoldMatches(to, user.name);
    TakenIsNamed(t, me, to);
    if NameTaken(t, me, to) {
      FirstIsFound(t, me, to);
    }
  }

  /** A secret for the user in slot `i`: it goes to that user and the sender, if there is a receiver. */
  ghost predicate Whispered(o: Outcome, t: Table, me: nat, body: Text, i: nat)
    requires me < |t| && t[me].Some? && i < |t| && t[i].Some?
  {
    var user := t[me].value;
    if !t[i].value.receiver then Refuses(o, user, SendNoReceiver)
    else
      && o.code != Skip && CodeWord(o.code) == "OK" && o.me == user && o.ack == None
      && o.spawn == Some(Spawn(Saying.Secret(user.name, body), 2, [i, me]))
  }

  /** The lowest slot of another joined user of that name. */
  ghost predicate FirstNamed(t: Table, me: nat, name: Text, i: nat) {
    && i < 64 && i != me && IsJoined(t[i]) && SameName(name, t[i].value.name)
    && forall k | 0 <= k < i && k != me && IsJoined(t[k]) :: !SameName(name, t[k].value.name)
  }

  lemma FirstIsFound(t: Table, me: nat, name: Text)
    requires FindNamed(t, me, name, 0).Some?
    ensures FirstNamed(t, me, name, FindNamed(t, me, name, 0).value)
  {
    var i := FindNamed(t, me, name, 0).value;
    forall k | 0 <= k < 64 && t[k].Some? ensures SameName(name, t[k].value.name) <==> Fold(name) == Fold(t[k].value.name) {
      FoldMatches(name, t[k].value.name);
    }
    assert Named(t, me, name, i);
    forall k | 0 <= k < i && k != me && IsJoined(t[k]) ensures !SameName(name, t[k].value.name) {
      assert !Named(t, me, name, k);
    }
  }

  /** Type 4: the roster, for a verified user only; nothing changes. */
  lemma StatusOutcome(t: Table, me: nat, m: Message)
    requires me < |t| && t[me].Some? && m.kind == 4
    ensures var user, o := t[me].value, Execute(t, me, m);
            if !user.verified then OnlyWord(o, user, "FAIL")
            else o.code == Skip && o.me == user && o.spawn == None && o.ack == Some(Roster(t, me))
  {
  }
}
