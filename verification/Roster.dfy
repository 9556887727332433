/** The `/status` roster: what it lists, and what the client's line splitting makes of it. */
module RosterProofs {
  import opened CText
  import opened Users
  import opened Phrases
  import opened StrTok
  import opened Handlers

  function LinesOf(t: Table, me: nat, slots: seq<nat>): (r: seq<Text>)
    requires forall k | 0 <= k < |slots| :: slots[k] < |t| && t[slots[k]].Some?
    ensures |r| == |slots| && forall k | 0 <= k < |slots| :: r[k] == RosterLine(t, me, slots[k])
  {
    seq(|slots|, k requires 0 <= k < |slots| => RosterLine(t, me, slots[k]))
  }

  /** The listed slots are the joined ones below 64, in order. */
  function Lines(t: Table, me: nat): seq<Text> {
    JoinedSlotsExist(t);
    LinesOf(t, me, JoinedSlots(t))
  }

  lemma JoinedSlotsExist(t: Table)
    ensures forall k | 0 <= k < |JoinedSlots(t)| :: JoinedSlots(t)[k] < MAX_USER && IsJoined(t[JoinedSlots(t)[k]])
  {
    forall k | 0 <= k < |JoinedSlots(t)| ensures JoinedSlots(t)[k] < MAX_USER && IsJoined(t[JoinedSlots(t)[k]]) {
      assert JoinedSlots(t)[k] in JoinedSlots(t);
    }
  }

  function LinesFrom(t: Table, me: nat, i: nat): seq<Text>
    requires i <= MAX_USER
    decreases MAX_USER - i
  {
    if i == MAX_USER then []
    else (if IsJoined(t[i]) then [RosterLine(t, me, i)] else []) + LinesFrom(t, me, i + 1)
  }

  lemma BelowExists(t: Table, n: nat)
    requires n <= |t|
    ensures forall k | 0 <= k < |JoinedBelow(t, n)| :: JoinedBelow(t, n)[k] < |t| && t[JoinedBelow(t, n)[k]].Some?
  {
    forall k | 0 <= k < |JoinedBelow(t, n)| ensures JoinedBelow(t, n)[k] < |t| && t[JoinedBelow(t, n)[k]].Some? {
      assert JoinedBelow(t, n)[k] in JoinedBelow(t, n);
    }
  }

  function LinesBelow(t: Table, me: nat, n: nat): seq<Text>
    requires n <= |t|
  {
    BelowExists(t, n);
    LinesOf(t, me, JoinedBelow(t, n))
  }

  lemma LinesBelowNext(t: Table, me: nat, i: nat)
    requires i < |t|
    ensures LinesBelow(t, me, i + 1) == LinesBelow(t, me, i) + (if IsJoined(t[i]) then [RosterLine(t, me, i)] else [])
  {
    BelowExists(t, i);
    BelowExists(t, i + 1);
  }

  lemma {:induction false} LinesFromBelow(t: Table, me: nat, i: nat)
    requires i <= MAX_USER
    ensures LinesBelow(t, me, i) + LinesFrom(t, me, i) == LinesBelow(t, me, MAX_USER)
    decreases MAX_USER - i
  {
    if i < MAX_USER {
      LinesFromBelow(t, me, i + 1);
      LinesBelowNext(t, me, i);
      Associative(LinesBelow(t, me, i), if IsJoined(t[i]) then [RosterLine(t, me, i)] else [], LinesFrom(t, me, i + 1));
    }
  }

  lemma Associative(a: seq<Text>, b: seq<Text>, c: seq<Text>)
    ensures a + (b + c) == (a + b) + c
  {
  }

  lemma LinesFromStart(t: Table, me: nat)
    ensures LinesFrom(t, me, 0) == Lines(t, me)
  {
    LinesFromBelow(t, me, 0);
    assert LinesBelow(t, me, 0) == [];
  }

  predicate NewlineFree(t: Table) {
    forall i | 0 <= i < MAX_USER :: IsJoined(t[i]) ==> '\n' !in t[i].value.name
  }

  lemma LineHasNewline(t: Table, me: nat, i: nat)
    requires i < |t| && t[i].Some?
    ensures '\n' in RosterLine(t, me, i) <==> '\n' in t[i].value.name
    ensures RosterLine(t, me, i) != []
  {
    DecDigits(i + 1);
    var line := RosterLine(t, me, i);
    var head := "[" + Dec(i + 1) + "] ";
    var name := t[i].value.name;
    assert line == head + name + (if i == me then YOU else "");
    assert '\n' !in head && '\n' !in YOU;
    assert name == line[|head|..|head| + |name|];
  }

  lemma {:induction false} BodySplits(t: Table, me: nat, i: nat)
    requires i <= MAX_USER && NewlineFree(t)
    ensures Tokens(RosterBody(t, me, i), '\n') == LinesFrom(t, me, i)
    decreases MAX_USER - i
  {
    if i < MAX_USER {
      BodySplits(t, me, i + 1);
      if IsJoined(t[i]) {
        LineHasNewline(t, me, i);
        BodyIs(t, me, i);
        LineTokens(RosterBody(t, me, i), RosterLine(t, me, i), RosterBody(t, me, i + 1), i + 1 == MAX_USER);
      }
      LinesFromIs(t, me, i);
    }
  }

  lemma BodyIs(t: Table, me: nat, i: nat)
    requires i < MAX_USER
    ensures RosterBody(t, me, i) ==
      if IsJoined(t[i]) then RosterLine(t, me, i) + (if i + 1 == MAX_USER then "" else "\n") + RosterBody(t, me, i + 1)
      else RosterBody(t, me, i + 1)
    ensures i + 1 == MAX_USER ==> RosterBody(t, me, i + 1) == []
  {
  }

  lemma LinesFromIs(t: Table, me: nat, i: nat)
    requires i < MAX_USER
    ensures LinesFrom(t, me, i) == (if IsJoined(t[i]) then [RosterLine(t, me, i)] else []) + LinesFrom(t, me, i + 1)
  {
  }

  lemma LineTokens(body: Text, line: Text, rest: Text, last: bool)
    requires line != [] && '\n' !in line && (last ==> rest == [])
    requires body == line + (if last then "" else "\n") + rest
    ensures Tokens(body, '\n') == [line] + Tokens(rest, '\n')
  {
    if last {
      assert body == line;
      TokensLast(line, '\n');
    } else {
      HeadedTokens(body, line, rest);
    }
  }

  lemma RosterTokens(a: Ack)
    requires a.Roster?
    ensures Tokens(AckText(a), '\n') == [RosterHead(a)] + Tokens(RosterBody(a.table, a.you, 0), '\n')
  {
    RosterHeadSize(a);
    HeadedTokens(AckText(a), RosterHead(a), RosterBody(a.table, a.you, 0));
  }

  lemma HeadedTokens(text: Text, head: Text, body: Text)
    requires text == head + "\n" + body && head != [] && '\n' !in head
    ensures Tokens(text, '\n') == [head] + Tokens(body, '\n')
  {
    TokensCons(head, body, '\n');
  }

  lemma LineWithNewline(t: Table, me: nat)
    requires !NewlineFree(t)
    ensures exists k :: 0 <= k < |Lines(t, me)| && '\n' in Lines(t, me)[k]
  {
    var i :| 0 <= i < MAX_USER && IsJoined(t[i]) && '\n' in t[i].value.name;
    JoinedSlotsExist(t);
    assert i in JoinedSlots(t);
    var k :| 0 <= k < |JoinedSlots(t)| && JoinedSlots(t)[k] == i;
    LineHasNewline(t, me, i);
    assert '\n' in Lines(t, me)[k];
  }

  lemma NeverTokens(body: Text, lines: seq<Text>)
    requires exists k :: 0 <= k < |lines| && '\n' in lines[k]
    ensures Tokens(body, '\n') != lines
  {
    var k :| 0 <= k < |lines| && '\n' in lines[k];
    TokensHaveNoDelimiter(body, '\n');
    assert !Clean(lines[k], '\n');
  }

  /**
   * Splitting at newlines recovers the head line and one line for each joined slot, in order, exactly when
   * no joined user's name contains a newline.
   */
  lemma RosterSplits(a: Ack)
    requires a.Roster?
    ensures Tokens(AckText(a), '\n') == [RosterHead(a)] + Lines(a.table, a.you) <==> NewlineFree(a.table)
  {
    var t, me := a.table, a.you;
    var body := RosterBody(t, me, 0);
    RosterTokens(a);
    if NewlineFree(t) {
      LinesFromStart(t, me);
      BodySplits(t, me, 0);
    } else {
      LineWithNewline(t, me);
      NeverTokens(body, Lines(t, me));
      assert ([RosterHead(a)] + Tokens(body, '\n'))[1..] == Tokens(body, '\n');
      assert ([RosterHead(a)] + Lines(t, me))[1..] == Lines(t, me);
    }
  }

  /** A rename to a name with a newline is accepted, and the roster no longer splits back into its lines. */
  lemma NewlineNameHappens() returns (t: Table, name: Text, o: Outcome)
    ensures t[0].Some? && '\n' in name && o == ChangeName(t, 0, name) && o.spawn.Some? && o.me.name == name
    ensures var a := Roster(t[0 := Some(o.me)], 0); Tokens(AckText(a), '\n') != [RosterHead(a)] + Lines(a.table, a.you)
  {
    name := "a\nb";
    t := seq(TABLE_SIZE, i => if i == 0 then Some(User("a", Joined, true, false)) else None);
    o := ChangeName(t, 0, name);
    assert NameOk(name) && name[1] == '\n';
    RenameAccepted(t, 0, name);
    NewlineInRoster(t[0 := Some(o.me)], 0);
  }

  lemma NewlineInRoster(t: Table, i: nat)
    requires i < MAX_USER && IsJoined(t[i]) && '\n' in t[i].value.name
    ensures var a := Roster(t, i); Tokens(AckText(a), '\n') != [RosterHead(a)] + Lines(a.table, a.you)
  {
    RosterSplits(Roster(t, i));
  }

  predicate EndsWith(s: Text, suffix: Text) {
    |s| >= |suffix| && s[|s| - |suffix|..] == suffix
  }

  lemma OneSpace(t: Table, me: nat, i: nat, k: nat)
    requires i < |t| && t[i].Some? && NameOk(t[i].value.name) && i != me
    requires k < |RosterLine(t, me, i)| && RosterLine(t, me, i)[k] == ' '
    ensures k == |Dec(i + 1)| + 2
  {
    DecDigits(i + 1);
  }

  /** A name has no space, so a line ends with the mark only where the builder put it. */
  lemma MarkedLine(t: Table, me: nat, i: nat)
    requires i < |t| && t[i].Some? && NameOk(t[i].value.name)
    ensures EndsWith(RosterLine(t, me, i), YOU) <==> i == me
  {
    var line := RosterLine(t, me, i);
    var n := |line|;
    if i == me {
      assert line[n - |YOU|..] == YOU;
    } else {
      assert EndsWith(line, YOU) ==> line[n - 7..][0] == ' ' && line[n - 7..][3] == ' ';
      if n >= 7 && line[n - 7] == ' ' && line[n - 4] == ' ' {
        OneSpace(t, me, i, n - 7);
        OneSpace(t, me, i, n - 4);
      }
    }
  }

  /** Line `k` carries the mark and no other line does. */
  ghost predicate OnlyMarked(lines: seq<Text>, k: nat) {
    k < |lines| && forall j | 0 <= j < |lines| :: EndsWith(lines[j], YOU) <==> j == k
  }

  /**
   * The counts agree: the number in the head reads as the number of lines, which are the joined slots, and
   * exactly the caller's line is marked.
   */
  lemma RosterAgrees(a: Ack)
    requires a.Roster? && RosterOf(a.table, a.you)
    ensures ListsJoined(RosterHead(a), Lines(a.table, a.you), AckString(a), a.table, a.you)
    ensures MarksCaller(Lines(a.table, a.you), JoinedSlots(a.table), a.you)
    ensures a.you < MAX_USER && IsJoined(a.table[a.you]) ==> exists k :: OnlyMarked(Lines(a.table, a.you), k)
  {
    var slots := JoinedSlots(a.table);
    RosterLists(a, AckString(a));
    CallerMarked(a.table, a.you);
    if a.you < MAX_USER && IsJoined(a.table[a.you]) {
      assert a.you in slots;
      var k :| 0 <= k < |slots| && slots[k] == a.you;
      assert OnlyMarked(Lines(a.table, a.you), k);
    }
  }

  ghost predicate MarksCaller(lines: seq<Text>, slots: seq<nat>, me: nat) {
    |lines| == |slots| && forall k | 0 <= k < |slots| :: EndsWith(lines[k], YOU) <==> slots[k] == me
  }

  lemma CallerMarked(t: Table, me: nat)
    requires NamesOk(t)
    ensures MarksCaller(Lines(t, me), JoinedSlots(t), me)
  {
    var slots := JoinedSlots(t);
    JoinedSlotsExist(t);
    forall k | 0 <= k < |slots| ensures EndsWith(Lines(t, me)[k], YOU) <==> slots[k] == me {
      MarkedLine(t, me, slots[k]);
    }
  }

  // ----- What the client reads -----

  /** The title, the number of users, the bound of 64. */
  ghost predicate HeadSpells(head: Text, title: string, count: nat) {
    exists p, d, b :: Says(p, title) && Numeral(d, count) && Numeral(b, 64) && head == p + d + "/" + b + "]"
  }

  /** The number of the slot, the name, and the mark on the caller's own line. */
  ghost predicate LineSpells(line: Text, slot: nat, name: Text, mine: bool) {
    exists d :: Numeral(d, slot + 1) && line == "[" + d + "] " + name + (if mine then " <- you" else "")
  }

  /** A head, and one line for each joined slot below 64, in order. */
  ghost predicate ListsJoined(head: Text, lines: seq<Text>, title: string, t: Table, me: nat) {
    var slots := JoinedSlots(t);
    && |lines| == |slots| && HeadSpells(head, title, |slots|)
    && forall k | 0 <= k < |slots| ::
         slots[k] < 64 && IsJoined(t[slots[k]])
         && LineSpells(lines[k], slots[k], t[slots[k]].value.name, slots[k] == me)
  }

  lemma HeadIsSpelled(a: Ack, title: string)
    requires a.Roster? && title == AckString(a)
    ensures HeadSpells(RosterHead(a), title, |JoinedSlots(a.table)|)
  {
    var p, d, b := Literal(AckString(a)), Dec(|JoinedSlots(a.table)|), Dec(MAX_USER);
    AckSentenceSays(a, p);
    DecIsNumeral(|JoinedSlots(a.table)|);
    DecIsNumeral(MAX_USER);
    assert RosterHead(a) == p + d + "/" + b + "]";
  }

  lemma LineIsSpelled(t: Table, me: nat, i: nat)
    requires i < |t| && t[i].Some?
    ensures LineSpells(RosterLine(t, me, i), i, t[i].value.name, i == me)
  {
    var d := Dec(i + 1);
    DecIsNumeral(i + 1);
    assert RosterLine(t, me, i) == "[" + d + "] " + t[i].value.name + (if i == me then " <- you" else "");
  }

  /** The lines of a roster list the joined users by number and name. */
  lemma RosterLists(a: Ack, title: string)
    requires a.Roster? && title == AckString(a)
    ensures ListsJoined(RosterHead(a), Lines(a.table, a.you), title, a.table, a.you)
  {
    var t, me := a.table, a.you;
    var slots := JoinedSlots(t);
    HeadIsSpelled(a, title);
    JoinedSlotsExist(t);
    LinesAreSpelled(t, me, slots, Lines(t, me));
  }

  lemma LinesAreSpelled(t: Table, me: nat, slots: seq<nat>, lines: seq<Text>)
    requires forall k | 0 <= k < |slots| :: slots[k] < |t| && t[slots[k]].Some?
    requires lines == LinesOf(t, me, slots)
    ensures forall k | 0 <= k < |slots| :: LineSpells(lines[k], slots[k], t[slots[k]].value.name, slots[k] == me)
  {
    forall k | 0 <= k < |slots| ensures LineSpells(lines[k], slots[k], t[slots[k]].value.name, slots[k] == me) {
      LineIsSpelled(t, me, slots[k]);
    }
  }

  lemma RosterTitle(a: Ack)
    requires a.Roster?
    ensures AckString(a) == "현재 접속한 인원 정보 ["
  {
  }
}
