/** Whom a secret message reaches, and what `/send` makes of a typed line. */
module Secrets {
  import opened CText
  import opened Codec
  import opened Replies
  import opened Users
  import opened Handlers
  import opened Sessions
  import opened Scheduled
  import opened Chat
  import opened ChatProofs
  import opened ChatTheorems
  import opened Names
  import opened StrTok
  import Phrases
  import SessionProofs
  import Receivers
  import Console
  import Kinds

  // ----- The two ends of a secret -----

  /**
   * The request of `u` names `w` before its first space, ignoring case: of the other joined users of that
   * name the one in the lowest slot, which has a receiver.
   */
  ghost predicate SecretFor(s: State, u: nat, to: Text, body: Text, w: nat)
    requires HasRequest(s, u)
  {
    && Request(s, u).kind == Kinds.SECRET && Request(s, u).text == to + " " + body
    && to != [] && ' ' !in to && body != [] && Fold(to) != Fold(NameOf(s, u))
    && Called(s, u, to, w) && s.sessions[w].channel.Some?
    && forall v: nat | Called(s, u, to, v) :: s.sessions[w].slot <= s.sessions[v].slot
  }

  ghost predicate Called(s: State, u: nat, to: Text, w: nat) {
    w != u && JoinedNow(s, w) && Fold(to) == Fold(NameOf(s, w))
  }

  lemma CalledIsNamed(s: State, u: nat, to: Text, w: nat)
    requires SlotsInv(s) && Occupies(s, u) && Called(s, u, to, w)
    ensures s.sessions[w].slot != s.sessions[u].slot
    ensures View(s)[s.sessions[w].slot] == Some(UserOf(s.sessions[w]))
    ensures Named(View(s), s.sessions[u].slot, to, s.sessions[w].slot)
  {
    JoinedUserSlot(s, w, s.sessions[u].slot, to);
  }

  lemma NamedIsCalled(s: State, u: nat, to: Text, i: nat)
    requires SlotsInv(s) && Occupies(s, u) && i < MAX_USER && Named(View(s), s.sessions[u].slot, to, i)
    ensures s.table[i].Some? && s.table[i].value < |s.sessions|
    ensures Called(s, u, to, s.table[i].value) && s.sessions[s.table[i].value].slot == i
    ensures View(s)[i] == Some(UserOf(s.sessions[s.table[i].value]))
  {
    JoinedSlotUser(s, i);
  }

  lemma SecretAddresses(s: State, u: nat, to: Text, body: Text, w: nat)
    requires SlotsInv(s) && Occupies(s, u) && HasRequest(s, u) && SecretFor(s, u, to, body, w)
    ensures s.sessions[u].slot < TABLE_SIZE && View(s)[s.sessions[u].slot] == Some(UserOf(s.sessions[u]))
    ensures Addresses(View(s), s.sessions[u].slot, Request(s, u).text, to, body, s.sessions[w].slot)
  {
    CalledIsNamed(s, u, to, w);
    forall k | 0 <= k < s.sessions[w].slot ensures !Named(View(s), s.sessions[u].slot, to, k) {
      if Named(View(s), s.sessions[u].slot, to, k) {
        NamedIsCalled(s, u, to, k);
      }
    }
  }

  lemma AddressedSecret(s: State, u: nat, to: Text, body: Text, i: nat)
    requires SlotsInv(s) && Occupies(s, u) && HasRequest(s, u) && Request(s, u).kind == Kinds.SECRET
    requires s.sessions[u].slot < TABLE_SIZE && View(s)[s.sessions[u].slot] == Some(UserOf(s.sessions[u]))
    requires Addresses(View(s), s.sessions[u].slot, Request(s, u).text, to, body, i)
    ensures s.table[i].Some? && SecretFor(s, u, to, body, s.table[i].value)
  {
    NamedIsCalled(s, u, to, i);
    forall v: nat | Called(s, u, to, v) ensures i <= s.sessions[v].slot {
      CalledIsNamed(s, u, to, v);
    }
  }

  /** A command that only schedules a message and answers OK. */
  ghost predicate OnlySchedules(o: Outcome, me: User, saying: Phrases.Saying, targets: seq<nat>) {
    o == Outcome(Ok, me, None, Some(Spawn(saying, |targets|, targets)))
  }

  lemma ScheduleStep(s: State, u: nat, saying: Phrases.Saying, targets: seq<nat>)
    requires Chat.Inv(s) && Chat.Enabled(s, Serve(u)) && HasRequest(s, u)
    requires Runnable(Request(s, u)) && s.sessions[u].slot < TABLE_SIZE && View(s)[s.sessions[u].slot].Some?
    requires OnlySchedules(Execute(View(s), s.sessions[u].slot, Request(s, u)), UserOf(s.sessions[u]), saying, targets)
    ensures var s' := Chat.Next(s, Serve(u));
            && s'.msgs == s.msgs + [Create(saying, |targets|, Uids(s, targets))]
            && |s'.sessions| == |s.sessions|
            && (forall w | 0 <= w < |s.sessions| && w != u :: s'.sessions[w] == s.sessions[w])
            && s'.sessions[u].pc == Answering(Ok, Request(s, u))
            && s'.sessions[u].channel == s.sessions[u].channel
  {
    ServedState(s, u);
  }

  /** What a secret leaves behind: one message for its two ends, and no other session changed. */
  ghost predicate SecretScheduled(s: State, s': State, u: nat, body: Text, w: nat)
    requires HasRequest(s, u)
  {
    && s'.msgs == s.msgs + [Create(Phrases.Secret(NameOf(s, u), body), 2, [w, u])]
    && |s'.sessions| == |s.sessions|
    && (forall v | 0 <= v < |s.sessions| && v != u :: s'.sessions[v] == s.sessions[v])
    && s'.sessions[u].pc == Answering(Ok, Request(s, u))
    && s'.sessions[u].channel == s.sessions[u].channel
  }

  lemma SecretExecutes(t: Table, me: nat, m: Message, to: Text, body: Text, i: nat)
    requires me < |t| && t[me].Some? && m.kind == Kinds.SECRET && Runnable(m)
    requires Addresses(t, me, m.text, to, body, i)
    ensures OnlySchedules(Execute(t, me, m), t[me].value, Phrases.Secret(t[me].value.name, body), [i, me])
  {
    AddressedIsSent(t, me, m.text, to, body, i);
  }

  /** A secret that addresses somebody is scheduled for that user and its sender, and answered OK. */
  lemma SecretGoesTo(s: State, u: nat, to: Text, body: Text, w: nat)
    requires Reachable(s) && Chat.Enabled(s, Serve(u)) && HasRequest(s, u) && SecretFor(s, u, to, body, w)
    ensures SecretScheduled(s, Chat.Next(s, Serve(u)), u, body, w)
  {
    ReachableInv(s);
    ServedState(s, u);
    SecretAddresses(s, u, to, body, w);
    var targets := [s.sessions[w].slot, s.sessions[u].slot];
    SecretExecutes(View(s), s.sessions[u].slot, Request(s, u), to, body, s.sessions[w].slot);
    ScheduleStep(s, u, Phrases.Secret(NameOf(s, u), body), targets);
    UidsOfEnds(s, u, w);
  }

  lemma UidsOfEnds(s: State, u: nat, w: nat)
    requires Occupies(s, u) && Occupies(s, w)
    ensures Uids(s, [s.sessions[w].slot, s.sessions[u].slot]) == [w, u]
  {
  }

  lemma RefusedSchedulesNothing(s: State, u: nat)
    requires Chat.Inv(s) && Chat.Enabled(s, Serve(u)) && HasRequest(s, u) && Request(s, u).kind == Kinds.SECRET
    requires |Chat.Next(s, Serve(u)).msgs| > |s.msgs|
    ensures Occupies(s, u) && s.sessions[u].slot < TABLE_SIZE
    ensures View(s)[s.sessions[u].slot] == Some(UserOf(s.sessions[u]))
    ensures SecretMessage(View(s), s.sessions[u].slot, Request(s, u).text).code != Skip
  {
    ServedState(s, u);
    SkipIffAck(View(s), s.sessions[u].slot, Request(s, u));
  }

  /** A secret request schedules a message exactly when it addresses somebody. */
  lemma SecretNeedsAddressee(s: State, u: nat)
    requires Reachable(s) && Chat.Enabled(s, Serve(u)) && HasRequest(s, u) && Request(s, u).kind == Kinds.SECRET
    ensures |Chat.Next(s, Serve(u)).msgs| > |s.msgs| <==> exists to, body, w :: SecretFor(s, u, to, body, w)
  {
    ReachableInv(s);
    if |Chat.Next(s, Serve(u)).msgs| > |s.msgs| {
      RefusedSchedulesNothing(s, u);
      SentIsAddressed(View(s), s.sessions[u].slot, Request(s, u).text);
      var to, body, i :| Addresses(View(s), s.sessions[u].slot, Request(s, u).text, to, body, i);
      AddressedSecret(s, u, to, body, i);
    }
    if to, body, w :| SecretFor(s, u, to, body, w) {
      SecretGoesTo(s, u, to, body, w);
    }
  }

  // ----- Delivery -----

  lemma StepKeepsChannel(s: State, e: Event, v: nat)
    requires Chat.Inv(s) && Chat.Enabled(s, e) && v < |s.sessions| && s.sessions[v].channel.Some?
    ensures v < |Chat.Next(s, e).sessions| && Chat.Next(s, e).sessions[v].channel.Some?
    ensures Chat.Next(s, e).sessions[v].channel.value.since == s.sessions[v].channel.value.since
  {
    if e.Local? {
      LocalKeepsChannel(s, e.u, e.step, v);
    } else if e.Serve? {
      ServeKeepsChannel(s, e.u, v);
    }
  }

  lemma LocalKeepsChannel(s: State, u: nat, step: Step, v: nat)
    requires Chat.Inv(s) && Chat.Enabled(s, Local(u, step)) && v < |s.sessions| && s.sessions[v].channel.Some?
    ensures var s' := Chat.Next(s, Local(u, step));
            && v < |s'.sessions| && s'.sessions[v].channel.Some?
            && s'.sessions[v].channel.value.since == s.sessions[v].channel.value.since
  {
    LocalIsPut(s, u, step);
    if u == v {
      assert Sessions.Inv(s.sessions[u]);
      SinceStays(s.sessions[u], step);
    }
  }

  lemma SinceStays(x: Session, step: Step)
    requires Sessions.Inv(x) && Sessions.Enabled(x, step) && x.channel.Some?
    ensures Sessions.Next(x, step).channel.Some? && Sessions.Next(x, step).channel.value.since == x.channel.value.since
  {
    SessionProofs.StepAdvances(x, step);
  }

  lemma ServeKeepsChannel(s: State, u: nat, v: nat)
    requires Chat.Inv(s) && Chat.Enabled(s, Serve(u)) && v < |s.sessions|
    ensures v < |Chat.Next(s, Serve(u)).sessions|
    ensures Chat.Next(s, Serve(u)).sessions[v].channel == s.sessions[v].channel
  {
    if HasRequest(s, u) {
      ServedState(s, u);
    } else {
      RejectedState(s, u);
    }
  }

  /** An attached receiver stays attached, remembering when. */
  lemma {:induction false} ChannelPersists(s: State, es: seq<Event>, v: nat)
    requires Chat.Inv(s) && Run(s, es).Some? && v < |s.sessions| && s.sessions[v].channel.Some?
    ensures var r := Run(s, es).value;
            && v < |r.sessions| && r.sessions[v].channel.Some?
            && r.sessions[v].channel.value.since == s.sessions[v].channel.value.since
    decreases |es|
  {
    if es != [] {
      var before := es[..|es| - 1];
      ChannelPersists(s, before, v);
      RunKeeps(s, before);
      StepKeepsChannel(Run(s, before).value, es[|es| - 1], v);
    }
  }

  ghost predicate AttachedBy(r: State, v: nat, id: nat) {
    v < |r.sessions| && r.sessions[v].channel.Some? && r.sessions[v].channel.value.since <= id
  }

  /**
   * Each target that was attached in time has, once all is delivered to it, read the message exactly once,
   * and nobody else was sent it.
   */
  ghost predicate OnlyTargetsGot(r: State, id: nat, targets: seq<nat>) {
    && (forall v | v in targets && AttachedBy(r, v, id) && Settled(r, v) ::
          multiset(Got(r.sessions[v].channel.value))[id] == 1)
    && (forall v | 0 <= v < |r.sessions| && v !in targets && r.sessions[v].channel.Some? ::
          id !in r.sessions[v].channel.value.sent)
  }

  lemma TargetsReceive(r: State, id: nat)
    requires Reachable(r) && id < |r.msgs|
    ensures OnlyTargetsGot(r, id, r.msgs[id].targets)
  {
    forall v | v in r.msgs[id].targets && AttachedBy(r, v, id) && Settled(r, v)
      ensures multiset(Got(r.sessions[v].channel.value))[id] == 1
    {
      ExactlyOnce(r, v, id);
    }
    forall v | 0 <= v < |r.sessions| && v !in r.msgs[id].targets && r.sessions[v].channel.Some?
      ensures id !in r.sessions[v].channel.value.sent
    {
      OnlyTargetsOnce(r, v, id);
    }
  }

  /**
   * Each end that was attached in time has, once all is delivered to it, read the message exactly once, and
   * no third user was sent it.
   */
  ghost predicate OnlyEndsGot(r: State, id: nat, w: nat, u: nat) {
    && (forall v | v in {w, u} && AttachedBy(r, v, id) && Settled(r, v) ::
          multiset(Got(r.sessions[v].channel.value))[id] == 1)
    && (forall v | 0 <= v < |r.sessions| && v != w && v != u && r.sessions[v].channel.Some? ::
          id !in r.sessions[v].channel.value.sent)
  }

  lemma EndsReceive(r: State, id: nat, w: nat, u: nat)
    requires Reachable(r) && id < |r.msgs| && r.msgs[id].targets == [w, u]
    ensures OnlyEndsGot(r, id, w, u)
  {
    TargetsReceive(r, id);
    assert forall v :: v in r.msgs[id].targets <==> v in {w, u};
  }

  lemma BodyIsNulFree(s: State, u: nat, to: Text, body: Text, w: nat)
    requires Chat.Inv(s) && HasRequest(s, u) && SecretFor(s, u, to, body, w)
    ensures NameOk(NameOf(s, u)) && NulFree(body)
  {
    assert Sessions.Inv(s.sessions[u]);
    ReadBackText(s.sessions[u].link.requests[0], PACKET_SIZE);
    TailIsNulFree(Request(s, u).text, to, body);
  }

  lemma TailIsNulFree(text: Text, to: Text, body: Text)
    requires NulFree(text) && text == to + " " + body
    ensures NulFree(body)
  {
    assert body == text[|to| + 1..];
  }

  /**
   * However the run goes on after a secret was served, its two ends get it exactly once, nobody else gets it,
   * and what they get says who sent which text.
   */
  lemma SecretArrives(s: State, u: nat, to: Text, body: Text, w: nat, es: seq<Event>, r: State)
    requires Reachable(s) && Chat.Enabled(s, Serve(u)) && HasRequest(s, u) && SecretFor(s, u, to, body, w)
    requires Phrases.SecretFits(NameOf(s, u), body)
    requires Run(Chat.Next(s, Serve(u)), es) == Some(r)
    ensures |s.msgs| < |r.msgs| && r.msgs[|s.msgs|].saying == Phrases.Secret(NameOf(s, u), body)
    ensures Phrases.ReadsAs(r.msgs[|s.msgs|].saying, Phrases.SECRET_PREFIX + NameOf(s, u) + "]: " + body)
    ensures AttachedBy(r, w, |s.msgs|) && (s.sessions[u].channel.Some? ==> AttachedBy(r, u, |s.msgs|))
    ensures OnlyEndsGot(r, |s.msgs|, w, u)
  {
    var s' := Chat.Next(s, Serve(u));
    SecretGoesTo(s, u, to, body, w);
    ReachableInv(s);
    BodyIsNulFree(s, u, to, body, w);
    Phrases.SecretReads(NameOf(s, u), body);
    ReachableNext(s, Serve(u));
    ReachableInv(s');
    RunAppendReachable(s', es);
    TargetsAreFixed(s', es, |s.msgs|);
    AttachedAtServe(s, s', w);
    StaysAttached(s', es, w, |s.msgs|);
    if s.sessions[u].channel.Some? {
      AttachedAtServe(s, s', u);
      StaysAttached(s', es, u, |s.msgs|);
    }
    EndsReceive(r, |s.msgs|, w, u);
  }

  lemma AttachedAtServe(s: State, s': State, v: nat)
    requires Chat.Inv(s) && v < |s.sessions| && s.sessions[v].channel.Some?
    requires v < |s'.sessions| && s'.sessions[v].channel == s.sessions[v].channel
    ensures AttachedBy(s', v, |s.msgs|)
  {
    assert TrafficOf(s.sessions[v].channel.value, s.msgs, v);
  }

  lemma StaysAttached(s: State, es: seq<Event>, v: nat, id: nat)
    requires Chat.Inv(s) && Run(s, es).Some? && AttachedBy(s, v, id)
    ensures AttachedBy(Run(s, es).value, v, id)
  {
    ChannelPersists(s, es, v);
  }

  // ----- From the typed line to the dispatch -----

  function SendLine(n: Text, text: Text): Text {
    "/send " + n + " " + text
  }

  lemma SendParses(n: Text, text: Text)
    ensures Console.Parse(SendLine(n, text)) == Console.Make(Kinds.SECRET, n + " " + text)
  {
    var line := SendLine(n, text);
    FindIs(line, ' ', 5);
    assert line[..5] == "/send" && line[6..] == n + " " + text;
  }

  /** A console client that asked and was not answered asks nothing else. */
  ghost predicate Unanswered(x: Session) {
    && |x.link.served| < |x.link.asked| && x.link.client in {Waiting, Quit} && !Owes(x.pc)
  }

  lemma StepKeepsUnanswered(x: Session, step: Step)
    requires Sessions.Inv(x) && Unanswered(x) && Sessions.Enabled(x, step)
    ensures Unanswered(Sessions.Next(x, step))
    ensures Sessions.Next(x, step).link.asked == x.link.asked && Sessions.Next(x, step).link.served == x.link.served
  {
  }

  lemma EventKeepsUnanswered(s: State, e: Event, u: nat)
    requires Chat.Inv(s) && Chat.Enabled(s, e) && e != Serve(u) && u < |s.sessions| && Unanswered(s.sessions[u])
    ensures var s' := Chat.Next(s, e);
            && u < |s'.sessions| && Unanswered(s'.sessions[u])
            && s'.sessions[u].link.asked == s.sessions[u].link.asked
            && s'.sessions[u].link.served == s.sessions[u].link.served
  {
    if e.Local? && e.u == u {
      assert Sessions.Inv(s.sessions[u]);
      StepKeepsUnanswered(s.sessions[u], e.step);
    }
  }

  lemma {:induction false} RunKeepsUnanswered(s: State, es: seq<Event>, u: nat)
    requires Chat.Inv(s) && Run(s, es).Some? && Serve(u) !in es && u < |s.sessions| && Unanswered(s.sessions[u])
    ensures var r := Run(s, es).value;
            && u < |r.sessions| && Unanswered(r.sessions[u])
            && r.sessions[u].link.asked == s.sessions[u].link.asked
            && r.sessions[u].link.served == s.sessions[u].link.served
    decreases |es|
  {
    if es != [] {
      var before := es[..|es| - 1];
      RunKeepsUnanswered(s, before, u);
      RunKeeps(s, before);
      EventKeepsUnanswered(Run(s, before).value, es[|es| - 1], u);
    }
  }

  lemma AskedIsUnanswered(x: Session, line: Text)
    requires Sessions.Inv(x) && x.link.client == Ready && Sessions.Enabled(x, Ask(line))
    ensures var y := Sessions.Next(x, Ask(line));
            && Unanswered(y) && y.link.asked[|y.link.served|] == Console.Parse(line)
            && RequestOk(y.link.asked[|y.link.served|])
  {
    SessionProofs.ParsedRequestOk(line);
  }

  /** Whatever the others do after a line was typed, until it is served it is the request served next. */
  lemma LineIsServed(s: State, u: nat, line: Text, es: seq<Event>, d: State)
    requires Reachable(s) && u < |s.sessions| && s.sessions[u].link.client == Ready && line != []
    requires Run(s, [Local(u, Ask(line))] + es) == Some(d) && Serve(u) !in es
    ensures Reachable(d) && (Chat.Enabled(d, Serve(u)) ==> HasRequest(d, u) && Request(d, u) == Console.Parse(line))
  {
    ReachableInv(s);
    RunAppendReachable(s, [Local(u, Ask(line))] + es);
    RunUncons(s, Local(u, Ask(line)), es);
    assert Sessions.Inv(s.sessions[u]);
    AskedIsUnanswered(s.sessions[u], line);
    var s1 := Chat.Next(s, Local(u, Ask(line)));
    LocalKeeps(s, u, Ask(line));
    RunKeepsUnanswered(s1, es, u);
    if Chat.Enabled(d, Serve(u)) {
      ReachableInv(d);
      HeadIsAsked(d, u);
    }
  }

  lemma HeadIsAsked(d: State, u: nat)
    requires Chat.Inv(d) && Chat.Enabled(d, Serve(u)) && d.sessions[u].link.client != Foreign
    ensures HasRequest(d, u) && |d.sessions[u].link.served| < |d.sessions[u].link.asked|
    ensures Request(d, u) == d.sessions[u].link.asked[|d.sessions[u].link.served|]
  {
    assert Sessions.Inv(d.sessions[u]);
    SessionProofs.IncomingIsAsked(d.sessions[u]);
  }

  // ----- `/send` -----

  /** The name typed is that of another joined user with a receiver, and not the sender's own. */
  ghost predicate CanSend(s: State, u: nat, v: nat, n: Text, text: Text) {
    && u < |s.sessions| && Called(s, u, n, v) && s.sessions[v].channel.Some?
    && (s.sessions[u].status == Established ==> Fold(n) != Fold(NameOf(s, u)))
    && text != [] && Phrases.SecretFits(NameOf(s, u), text)
  }

  /** Among distinct names the first match is the only one, wherever it sits. */
  lemma SendIsSecretFor(s: State, u: nat, v: nat, n: Text, text: Text)
    requires Chat.Inv(s) && NamesDistinct(s) && CanSend(s, u, v, n, text)
    requires Chat.Enabled(s, Serve(u)) && HasRequest(s, u) && Request(s, u) == Console.Parse(SendLine(n, text))
    ensures SecretFor(s, u, n, text, v)
  {
    SendParses(n, text);
    if s.sessions[u].status != Established {
      SenderJoined(s, u);
    }
    NameTyped(s, v, n);
  }

  lemma SenderJoined(s: State, u: nat)
    requires Chat.Inv(s) && Chat.Enabled(s, Serve(u)) && s.sessions[u].status != Established
    ensures JoinedNow(s, u)
  {
    assert Sessions.Inv(s.sessions[u]);
  }

  lemma NameTyped(s: State, v: nat, n: Text)
    requires Chat.Inv(s) && v < |s.sessions| && Fold(n) == Fold(NameOf(s, v))
    ensures n != [] && ' ' !in n
  {
    assert Sessions.Inv(s.sessions[v]);
    forall i | 0 <= i < |n| ensures n[i] != ' ' {
      assert Fold(n)[i] == Fold(NameOf(s, v))[i];
    }
  }

  /**
   * `/send n text` at the moment it is served, whatever happened since it was typed: it schedules `text` for
   * exactly the user named `n`, whatever its case, and the sender.
   */
  lemma SendSchedules(s: State, u: nat, v: nat, n: Text, text: Text)
    requires Reachable(s) && NamesDistinct(s) && CanSend(s, u, v, n, text)
    requires Chat.Enabled(s, Serve(u)) && HasRequest(s, u) && Request(s, u) == Console.Parse(SendLine(n, text))
    ensures SecretScheduled(s, Chat.Next(s, Serve(u)), u, text, v)
  {
    ReachableInv(s);
    SendIsSecretFor(s, u, v, n, text);
    SecretGoesTo(s, u, n, text, v);
  }

  /**
   * From the keyboard to the receivers.  The line is typed, any steps follow, the server serves it in state
   * `d`, and any steps follow: the user named `n` in `d` and the sender get `text` exactly once, nobody else.
   */
  lemma SendArrives(
      s: State, u: nat, v: nat, n: Text, text: Text, es: seq<Event>, d: State, fs: seq<Event>, r: State)
    requires Reachable(s) && u < |s.sessions| && s.sessions[u].link.client == Ready
    requires Run(s, [Local(u, Ask(SendLine(n, text)))] + es) == Some(d) && Serve(u) !in es
    requires Chat.Enabled(d, Serve(u)) && NamesDistinct(d) && CanSend(d, u, v, n, text)
    requires Run(Chat.Next(d, Serve(u)), fs) == Some(r)
    ensures |d.msgs| < |r.msgs| && r.msgs[|d.msgs|].saying == Phrases.Secret(NameOf(d, u), text)
    ensures Phrases.ReadsAs(r.msgs[|d.msgs|].saying, Phrases.SECRET_PREFIX + NameOf(d, u) + "]: " + text)
    ensures AttachedBy(r, v, |d.msgs|) && (d.sessions[u].channel.Some? ==> AttachedBy(r, u, |d.msgs|))
    ensures OnlyEndsGot(r, |d.msgs|, v, u)
  {
    LineIsServed(s, u, SendLine(n, text), es, d);
    ReachableInv(d);
    SendIsSecretFor(d, u, v, n, text);
    SecretArrives(d, u, n, text, v, fs, r);
  }
}
