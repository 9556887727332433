/** Nicknames along every run, and what `/send` makes of them. */
module Names {
  import opened CText
  import opened Codec
  import opened Replies
  import opened Users
  import opened Handlers
  import opened Sessions
  import opened Scheduled
  import opened Chat
  import opened ChatProofs
  import opened ChatTheorems
  import opened StrTok
  import Phrases
  import SessionProofs
  import Receivers
  import Console
  import Kinds

  function NameOf(s: State, u: nat): Text {
    if u < |s.sessions| then s.sessions[u].name else []
  }

  /** strcasecmp finds no two joined users of the same name. */
  ghost predicate NamesDistinct(s: State) {
    forall u, v | JoinedNow(s, u) && JoinedNow(s, v) && u != v :: Fold(NameOf(s, u)) != Fold(NameOf(s, v))
  }

  /**
   * `u` has not joined yet and sits below slot 64, and the step is the service of its accepted greeting, of
   * its disconnect request or of a packet that does not decode, or its connection breaking: from then on the
   * scans count it as joined.
   */
  ghost predicate StartsToCount(s: State, e: Event, u: nat) {
    && u < |s.sessions| && s.sessions[u].status == Established && s.sessions[u].slot < MAX_USER
    && (e == Local(u, Break) || (e == Serve(u) && CanServe(s.sessions[u]) && Introduces(Incoming(s.sessions[u]))))
  }

  predicate Introduces(d: Decoded) {
    match d
    case Invalid => true
    case Valid(m) => m.kind == Kinds.DISCONNECT || (m.kind == Kinds.HANDSHAKE && HelloReadable(m.text) && Greets(m.text))
  }

  /** A user starts to count as joined under a name that a joined user has. */
  ghost predicate NewcomerClashes(s: State, e: Event) {
    exists u, v :: StartsToCount(s, e, u) && JoinedNow(s, v) && Fold(NameOf(s, u)) == Fold(NameOf(s, v))
  }

  /** The user a step acts on; only that user's session changes, except that a commit adds one. */
  function Actor(s: State, e: Event): nat {
    match e
    case Local(u, _) => u
    case Serve(u) => u
    case Free(u) => u
    case Attach(u) => u
    case Deliver(_, u) => u
    case _ => |s.sessions|
  }

  lemma OthersUnchanged(s: State, e: Event, v: nat)
    requires Chat.Inv(s) && Chat.Enabled(s, e) && v != Actor(s, e)
    ensures NameOf(Chat.Next(s, e), v) == NameOf(s, v)
    ensures JoinedNow(Chat.Next(s, e), v) <==> JoinedNow(s, v)
  {
    var s' := Chat.Next(s, e);
    if v < |s.sessions| && v < |s'.sessions| {
      assert s'.sessions[v] == s.sessions[v];
      assert Occupies(s', v) <==> Occupies(s, v);
    }
  }

  lemma OnlyCommandsRename(s: State, e: Event, u: nat)
    requires Chat.Enabled(s, e) && u < |s.sessions| && e != Serve(u)
    ensures NameOf(Chat.Next(s, e), u) == NameOf(s, u)
  {
  }

  /** The slots the handlers scan and the users they find there. */
  lemma JoinedSlotUser(s: State, i: nat)
    requires SlotsInv(s) && i < MAX_USER && IsJoined(View(s)[i])
    ensures var w := s.table[i].value;
            JoinedNow(s, w) && s.sessions[w].slot == i && NameOf(s, w) == View(s)[i].value.name
  {
  }

  lemma JoinedUserSlot(s: State, v: nat, me: nat, n: Text)
    requires SlotsInv(s) && JoinedNow(s, v) && s.sessions[v].slot != me
    ensures View(s)[s.sessions[v].slot] == Some(UserOf(s.sessions[v]))
    ensures Named(View(s), me, n, s.sessions[v].slot) <==> Fold(n) == Fold(NameOf(s, v))
  {
  }

  /** A successful rename takes a name that no other joined user has. */
  lemma RenameIsFresh(t: Table, me: nat, m: Message)
    requires me < |t| && t[me].Some? && Runnable(m) && Execute(t, me, m).me.name != t[me].value.name
    ensures t[me].value.verified
    ensures FindNamed(t, me, Execute(t, me, m).me.name, 0) == None
  {
    if m.kind == Kinds.CHANGE_NAME {
      assert Execute(t, me, m) == ChangeName(t, me, m.text);
    }
  }

  /** A user that was joined keeps its name or got one that no other joined user has. */
  lemma ActorName(s: State, e: Event, u: nat)
    requires Chat.Inv(s) && Chat.Enabled(s, e) && u < |s.sessions|
    requires NameOf(Chat.Next(s, e), u) != NameOf(s, u)
    ensures JoinedNow(s, u)
    ensures forall v | JoinedNow(s, v) && v != u :: Fold(NameOf(Chat.Next(s, e), u)) != Fold(NameOf(s, v))
  {
    if e != Serve(u) {
      OnlyCommandsRename(s, e, u);
    }
    if !HasRequest(s, u) {
      RejectedState(s, u);
    }
    ServedState(s, u);
    var x, m, t := s.sessions[u], Request(s, u), View(s);
    RenameIsFresh(t, x.slot, m);
    var name := Execute(t, x.slot, m).me.name;
    assert Sessions.Inv(x) && x.pc == Looping && x.verified;
    forall v | JoinedNow(s, v) && v != u ensures Fold(name) != Fold(NameOf(s, v)) {
      JoinedUserSlot(s, v, x.slot, name);
    }
  }

  /** Serving a request makes its established caller count as joined exactly for these requests. */
  lemma ExecuteIntroduces(t: Table, me: nat, m: Message)
    requires me < MAX_USER && t[me].Some? && Runnable(m)
    requires t[me].value.status == Established && !t[me].value.verified
    ensures IsJoined(Some(Execute(t, me, m).me)) <==> Introduces(Valid(m))
  {
    if m.kind == Kinds.HANDSHAKE {
      assert Execute(t, me, m) == Verdict(t, me, Greets(m.text));
    }
  }

  lemma ServeIntroduces(s: State, u: nat)
    requires Chat.Inv(s) && Chat.Enabled(s, Serve(u)) && !JoinedNow(s, u)
    ensures JoinedNow(Chat.Next(s, Serve(u)), u) <==> StartsToCount(s, Serve(u), u)
  {
    var x := s.sessions[u];
    assert Sessions.Inv(x);
    if HasRequest(s, u) {
      ServedState(s, u);
      if x.slot < MAX_USER {
        ExecuteIntroduces(View(s), x.slot, Request(s, u));
      }
    } else {
      RejectedState(s, u);
    }
  }

  lemma LocalIntroduces(s: State, u: nat, step: Step)
    requires Chat.Inv(s) && Chat.Enabled(s, Local(u, step)) && !JoinedNow(s, u)
    ensures JoinedNow(Chat.Next(s, Local(u, step)), u) <==> StartsToCount(s, Local(u, step), u)
  {
    var x := s.sessions[u];
    assert Sessions.Inv(x);
    assert x.pc != Gone ==> Occupies(s, u);
  }

  /** A step makes a user count as joined exactly if it is one of those four. */
  lemma JoinsExactly(s: State, e: Event, u: nat)
    requires Chat.Inv(s) && Chat.Enabled(s, e) && !JoinedNow(s, u)
    ensures JoinedNow(Chat.Next(s, e), u) <==> StartsToCount(s, e, u)
  {
    if u != Actor(s, e) {
      OthersUnchanged(s, e, u);
    } else {
      match e {
        case Serve(_) => ServeIntroduces(s, u);
        case Local(_, step) => LocalIntroduces(s, u, step);
        case _ => OnlyTwoIntroduce(s, e, u);
      }
    }
  }

  lemma OnlyTwoIntroduce(s: State, e: Event, u: nat)
    requires Chat.Inv(s) && Chat.Enabled(s, e) && !JoinedNow(s, u) && !e.Serve? && !e.Local?
    ensures !JoinedNow(Chat.Next(s, e), u)
  {
    if u == |s.sessions| {
      FreshIsNotJoined(s, e);
    }
  }

  lemma StartsUnjoined(s: State, e: Event, u: nat)
    requires StartsToCount(s, e, u)
    ensures !JoinedNow(s, u)
  {
  }

  /** One user's name or presence has changed among distinct names. */
  lemma DistinctAfter(s: State, s': State, a: nat)
    requires NamesDistinct(s)
    requires forall v: nat | v != a :: NameOf(s', v) == NameOf(s, v) && (JoinedNow(s', v) <==> JoinedNow(s, v))
    requires JoinedNow(s, a) ==> forall v | JoinedNow(s, v) && v != a :: Fold(NameOf(s', a)) != Fold(NameOf(s, v))
    ensures NamesDistinct(s') <==> JoinedNow(s, a) || !JoinedNow(s', a) || Unused(s, NameOf(s', a))
  {
  }

  /** No joined user has the name. */
  ghost predicate Unused(s: State, name: Text) {
    forall v | JoinedNow(s, v) :: Fold(name) != Fold(NameOf(s, v))
  }

  lemma ClashesByActor(s: State, e: Event, a: nat)
    requires forall v | v != a :: !StartsToCount(s, e, v)
    ensures NewcomerClashes(s, e) <==> StartsToCount(s, e, a) && !Unused(s, NameOf(s, a))
  {
  }

  lemma OthersDoNotStart(s: State, e: Event, v: nat)
    requires v != Actor(s, e)
    ensures !StartsToCount(s, e, v)
  {
  }

  /** Among distinct names, a step leaves them distinct exactly when no clashing newcomer joins. */
  lemma StepKeepsNamesDistinct(s: State, e: Event)
    requires Chat.Inv(s) && Chat.Enabled(s, e) && NamesDistinct(s)
    ensures NamesDistinct(Chat.Next(s, e)) <==> !NewcomerClashes(s, e)
  {
    var s', a := Chat.Next(s, e), Actor(s, e);
    forall v: nat | v != a ensures NameOf(s', v) == NameOf(s, v) && (JoinedNow(s', v) <==> JoinedNow(s, v)) {
      OthersUnchanged(s, e, v);
    }
    forall v | v != a ensures !StartsToCount(s, e, v) {
      OthersDoNotStart(s, e, v);
    }
    ClashesByActor(s, e, a);
    if JoinedNow(s, a) {
      JoinedActorKeeps(s, e, a);
    } else {
      JoinsExactly(s, e, a);
      NewcomerName(s, e, a);
    }
    DistinctAfter(s, s', a);
  }

  /** A joined user does not start to count, and a rename leaves its name distinct from the others. */
  lemma JoinedActorKeeps(s: State, e: Event, a: nat)
    requires Chat.Inv(s) && Chat.Enabled(s, e) && NamesDistinct(s) && JoinedNow(s, a)
    ensures !StartsToCount(s, e, a)
    ensures forall v | JoinedNow(s, v) && v != a :: Fold(NameOf(Chat.Next(s, e), a)) != Fold(NameOf(s, v))
  {
    if NameOf(Chat.Next(s, e), a) != NameOf(s, a) {
      ActorName(s, e, a);
    }
  }

  lemma NewcomerName(s: State, e: Event, a: nat)
    requires Chat.Inv(s) && Chat.Enabled(s, e) && !JoinedNow(s, a)
    ensures a < |s.sessions| ==> NameOf(Chat.Next(s, e), a) == NameOf(s, a)
  {
    if a < |s.sessions| && NameOf(Chat.Next(s, e), a) != NameOf(s, a) {
      ActorName(s, e, a);
    }
  }

  lemma FreshIsNotJoined(s: State, e: Event)
    requires Chat.Inv(s) && Chat.Enabled(s, e)
    ensures !JoinedNow(Chat.Next(s, e), |s.sessions|)
  {
  }

  // ----- Runs -----

  /** No user whose name is taken joins along the run. */
  ghost predicate FreshNewcomers(s: State, es: seq<Event>)
    requires Run(s, es).Some?
    decreases |es|
  {
    es == [] || (
      && FreshNewcomers(s, es[..|es| - 1])
      && !NewcomerClashes(Run(s, es[..|es| - 1]).value, es[|es| - 1]))
  }

  /** Names of joined users are well formed in every state, and distinct if every newcomer's was. */
  lemma {:induction false} NicknamesAlongRuns(es: seq<Event>)
    requires Run(Initial(), es).Some?
    ensures var s := Run(Initial(), es).value;
            && Chat.Inv(s)
            && (forall u | 0 <= u < |s.sessions| :: NameOk(s.sessions[u].name))
            && (FreshNewcomers(Initial(), es) ==> NamesDistinct(s))
    decreases |es|
  {
    RunKeeps(Initial(), es);
    var s := Run(Initial(), es).value;
    forall u | 0 <= u < |s.sessions| ensures NameOk(s.sessions[u].name) {
      assert Sessions.Inv(s.sessions[u]);
    }
    if es != [] {
      var before := es[..|es| - 1];
      NicknamesAlongRuns(before);
      if FreshNewcomers(Initial(), es) {
        StepKeepsNamesDistinct(Run(Initial(), before).value, es[|es| - 1]);
      }
    }
  }
}
