/** What the server says: to one client in an acknowledgement, and to receivers in scheduled messages. */
module Phrases {
  import opened CText
  import opened Codec
  import opened Replies
  import opened StrTok
  import opened Users
  import Kinds

  datatype Refusal =
    | ServerFull | NameTooLong | NameRule | NameInUse
    | SendUsage | SendNoUser | SendNoText | SendSelf | SendNoReceiver | SendNotFound

  datatype Ack = Refused(why: Refusal) | CurrentName(name: Text) | Roster(table: Table, you: nat)

  datatype Saying =
    | Chat(from: Text, text: Text)
    | Joins(from: Text)
    | Leaves(from: Text)
    | Renames(was: Text, from: Text)
    | Secret(from: Text, text: Text)

  // ----- Roster -----

  const YOU: Text := " <- you"

  ghost predicate RosterOf(t: Table, me: nat) {
    me < |t| && NamesOk(t)
  }

  function RosterLine(t: Table, me: nat, i: nat): Text
    requires i < |t| && t[i].Some?
  {
    "[" + Dec(i + 1) + "] " + t[i].value.name + (if i == me then YOU else "")
  }

  /** The lines of the joined slots from `i` on; every slot but the last ends its line. */
  function RosterBody(t: Table, me: nat, i: nat): Text
    requires i <= MAX_USER
    decreases MAX_USER - i
  {
    if i == MAX_USER then []
    else if !IsJoined(t[i]) then RosterBody(t, me, i + 1)
    else RosterLine(t, me, i) + (if i + 1 < MAX_USER then "\n" else "") + RosterBody(t, me, i + 1)
  }

  /** The first line of a roster, which counts the joined users. */
  function RosterHead(a: Ack): Text
    requires a.Roster?
  {
    Literal(AckString(a)) + Dec(|JoinedSlots(a.table)|) + "/" + Dec(MAX_USER) + "]"
  }

  function RosterText(a: Ack): Text
    requires a.Roster?
  {
    RosterHead(a) + "\n" + RosterBody(a.table, a.you, 0)
  }

  // ----- Rendering -----

  /** What an acknowledgement that reports something starts with. */
  function Title(kind: int): string {
    if kind == Kinds.CURRENT_USER then "현재 접속한 인원 정보 [" else "현재 닉네임 - "
  }

  function AckString(a: Ack): string {
    match a
    case CurrentName(_) => Title(AckKind(a))
    case Roster(_, _) => Title(AckKind(a))
    case Refused(why) =>
      match why
      case ServerFull => "참여 가능 인원이 없습니다. 인원이 꽉찼습니다.\n"
      case NameTooLong => "바꾸고자 하는 닉네임은 63자를 초과할 수 없습니다."
      case NameRule => "사용이 금지된 문자가 포함되어 있습니다 (띄어쓰기, \"), 사용법: /name <바꿀이름>"
      case NameInUse => "이미 사용중인 닉네임입니다."
      case SendUsage => "정보가 없습니다, 사용법: /send <사용자 닉네임> <메시지>"
      case SendNoUser => "보내고자 하는 유저가 없습니다, 사용법: /send <사용자 닉네임> <메시지>"
      case SendNoText => "보내고자 하는 메시지가 없습니다, 사용법: /send <사용자 닉네임> <메시지 ...>"
      case SendSelf => "자기 자신한테는 1:1 메시지를 보낼 수 없습니다."
      case SendNoReceiver => "해당 유저는 현재 메시지 수신기가 켜져있지 않습니다. 메시지를 전달할 수 없습니다."
      case SendNotFound => "해당 유저를 찾을 수 없습니다."
  }

  function AckText(a: Ack): Text {
    match a
    case Refused(why) => Literal(AckString(a))
    case CurrentName(name) => Literal(AckString(a)) + name
    case Roster(t, you) => RosterText(a)
  }

  function AckKind(a: Ack): int {
    match a
    case Refused(why) =>
      if why in {ServerFull, NameTooLong, NameRule, NameInUse} then Kinds.CHANGE_NAME else Kinds.SECRET
    case CurrentName(_) => Kinds.CHANGE_NAME
    case Roster(_, _) => Kinds.CURRENT_USER
  }

  function AckMessage(a: Ack): Message {
    Message(AckKind(a), |AckText(a)|, AckText(a))
  }

  function ChatText(name: Text, text: Text): Text {
    "[" + name + "]: " + text
  }

  function SayingString(s: Saying): string {
    match s
    case Chat(_, _) => ""
    case Joins(_) => "채팅 서버에 참가하였습니다!"
    case Leaves(_) => "채팅 서버에서 나갔습니다."
    case Renames(_, _) => " 님이 닉네임을 다음과 같이 변경하였습니다 - ["
    case Secret(_, _) => "(1:1 메시지) ["
  }

  /** The payload of the type 1 packet a receiver gets. */
  function SayingText(s: Saying): Text {
    match s
    case Chat(from, text) => ChatText(from, text)
    case Joins(from) => ChatText(from, Literal(SayingString(s)))
    case Leaves(from) => ChatText(from, Literal(SayingString(s)))
    case Renames(was, from) => ChatText(from, was + Literal(SayingString(s)) + from + "]")
    case Secret(from, text) => Literal(SayingString(s)) + from + "]: " + text
  }

  /** The packet every sender thread of a scheduled message writes. */
  function SayingMessage(s: Saying): Message {
    Message(Kinds.BROADCAST, |SayingText(s)|, SayingText(s))
  }

  /** packing_message_create copies the text into the message's own buffer; fixed sentences always fit. */
  predicate Room(s: Saying) {
    match s
    case Chat(from, text) => 4 + |from| + |text| < TEXT_SIZE
    case Secret(from, text) => 20 + |from| + |text| < TEXT_SIZE
    case Joins(from) => |from| < NAME_SIZE
    case Leaves(from) => |from| < NAME_SIZE
    case Renames(was, from) => |was| < NAME_SIZE && |from| < NAME_SIZE
  }

  // ----- Sizes -----

  lemma AckStringSize(a: Ack)
    ensures |AckString(a)| <= 100
    ensures a.Roster? ==> 1 <= |AckString(a)| <= 20 && '\n' !in AckString(a)
  {
  }

  lemma RosterLineSize(t: Table, me: nat, i: nat)
    requires i < MAX_USER && t[i].Some? && NameOk(t[i].value.name)
    ensures NulFree(RosterLine(t, me, i)) && |RosterLine(t, me, i)| <= 75
  {
    DecDigits(i + 1);
  }

  lemma {:induction false} RosterBodySize(t: Table, me: nat, i: nat)
    requires i <= MAX_USER && NamesOk(t)
    ensures NulFree(RosterBody(t, me, i)) && |RosterBody(t, me, i)| <= 76 * (MAX_USER - i)
    decreases MAX_USER - i
  {
    if i < MAX_USER {
      RosterBodySize(t, me, i + 1);
      if IsJoined(t[i]) {
        RosterLineSize(t, me, i);
      }
    }
  }

  lemma {:induction false} JoinedBelowSize(t: Table, n: nat)
    requires n <= |t|
    ensures |JoinedBelow(t, n)| <= n
  {
    if n > 0 {
      JoinedBelowSize(t, n - 1);
    }
  }

  lemma RosterHeadSize(a: Ack)
    requires a.Roster?
    ensures NulFree(RosterHead(a)) && '\n' !in RosterHead(a) && 1 <= |RosterHead(a)| <= 100
  {
    JoinedBelowSize(a.table, MAX_USER);
    DecDigits(|JoinedSlots(a.table)|);
    DecDigits(MAX_USER);
    AckStringSize(a);
    LiteralText(AckString(a));
  }

  /** Every acknowledgement fits the client's buffer and is recovered by it. */
  lemma AckSendable(a: Ack)
    requires a.CurrentName? ==> NameOk(a.name)
    requires a.Roster? ==> RosterOf(a.table, a.you)
    ensures Sendable(Packet(AckMessage(a)))
  {
    if a.Roster? {
      RosterHeadSize(a);
      RosterBodySize(a.table, a.you, 0);
    } else {
      AckStringSize(a);
      LiteralText(AckString(a));
    }
  }

  lemma SayingStringSize(s: Saying)
    ensures |SayingString(s)| <= 40
  {
  }

  lemma SecretPrefixSize(s: Saying)
    requires s.Secret?
    ensures |Literal(SayingString(s))| == 17
  {
    MixedLiteral(SayingString(s), "(1:1 ", "메시지", ") [");
  }

  /** Room says exactly when a chat or a secret fits, and the fixed sentences do fit. */
  lemma RoomIsExact(s: Saying)
    ensures Room(s) ==> |SayingText(s)| < TEXT_SIZE
    ensures s.Chat? || s.Secret? ==> (Room(s) <==> |SayingText(s)| < TEXT_SIZE)
  {
    if s.Secret? {
      SecretPrefixSize(s);
    } else if !s.Chat? {
      SayingStringSize(s);
      LiteralText(SayingString(s));
    }
  }

  const MAX_CHAT: nat := 16288 // MAX_PAYLOAD - 20 - 63

  /** A text within MAX_CHAT makes a packet every buffer on its way holds, whoever sends it. */
  lemma SayingRoom(s: Saying)
    requires |s.from| < NAME_SIZE
    requires s.Chat? || s.Secret? ==> |s.text| <= MAX_CHAT
    requires s.Renames? ==> |s.was| < NAME_SIZE
    ensures Room(s) && |SayingText(s)| <= MAX_PAYLOAD
  {
    if s.Secret? {
      SecretPrefixSize(s);
    } else {
      SayingStringSize(s);
      LiteralText(SayingString(s));
    }
  }

  // ----- What receivers read, byte by byte -----

  /** "[name]: rest". */
  ghost predicate Quotes(t: Text, name: Text, rest: Text) {
    && |t| == |name| + 4 + |rest|
    && t[0] == '[' && t[1..1 + |name|] == name
    && t[1 + |name|] == ']' && t[2 + |name|] == ':' && t[3 + |name|] == ' '
    && t[4 + |name|..] == rest
  }

  /** "(1:1 ", three Hangul syllables of three bytes each, ") [". */
  const SECRET_PREFIX: Text := "(1:1 \U{EB}\U{A9}\U{94}\U{EC}\U{8B}\U{9C}\U{EC}\U{A7}\U{80}) ["

  /**
   * The text a receiver is to read: who speaks stands in the bracket, which for a rename is the new name
   * already, and the rest follows.
   */
  ghost predicate Spells(s: Saying, t: Text) {
    match s
    case Chat(from, text) => Quotes(t, from, text)
    case Joins(from) => exists rest :: Quotes(t, from, rest) && Says(rest, SayingString(s))
    case Leaves(from) => exists rest :: Quotes(t, from, rest) && Says(rest, SayingString(s))
    case Renames(was, now) => exists rest :: Quotes(t, now, was + rest + now + "]") && Says(rest, SayingString(s))
    case Secret(from, text) =>
      && |t| == 20 + |from| + |text|
      && t[..17] == SECRET_PREFIX && t[17..17 + |from|] == from
      && t[17 + |from|] == ']' && t[18 + |from|] == ':' && t[19 + |from|] == ' '
      && t[20 + |from|..] == text
  }

  /** The sentences of the announcements. */
  lemma AnnouncementSentence(s: Saying, sentence: string)
    requires sentence == SayingString(s)
    ensures s.Joins? ==> sentence == "채팅 서버에 참가하였습니다!"
    ensures s.Leaves? ==> sentence == "채팅 서버에서 나갔습니다."
    ensures s.Renames? ==> sentence == " 님이 닉네임을 다음과 같이 변경하였습니다 - ["
  {
  }

  lemma ChatTextQuotes(name: Text, rest: Text)
    ensures Quotes(ChatText(name, rest), name, rest)
  {
  }

  lemma Utf8One(c: char)
    ensures Utf8([c]) == Utf8Char(c)
  {
    assert [c][1..] == [];
  }

  lemma SyllableBytes(s: string)
    requires s == ['메'] + ['시'] + ['지']
    ensures Utf8(s) == "\U{EB}\U{A9}\U{94}\U{EC}\U{8B}\U{9C}\U{EC}\U{A7}\U{80}"
  {
    Utf8Append(['메'] + ['시'], ['지']);
    Utf8Append(['메'], ['시']);
    Utf8One('메');
    Utf8One('시');
    Utf8One('지');
  }

  lemma SecretPrefixBytes(s: string, a: string, mid: string, b: string)
    requires s == a + mid + b && a == "(1:1 " && mid == ['메'] + ['시'] + ['지'] && b == ") ["
    ensures Literal(s) == SECRET_PREFIX
  {
    Utf8Append(a + mid, b);
    Utf8Append(a, mid);
    Utf8OfAscii(a);
    Utf8OfAscii(b);
    SyllableBytes(mid);
    PrefixParts(a, Utf8(mid), b);
    CStrIs(Utf8(s), Utf8(s));
  }

  lemma PrefixParts(a: Text, mid: Text, b: Text)
    requires a == "(1:1 " && mid == "\U{EB}\U{A9}\U{94}\U{EC}\U{8B}\U{9C}\U{EC}\U{A7}\U{80}" && b == ") ["
    ensures a + mid + b == SECRET_PREFIX && NulFree(a + mid + b)
  {
  }

  lemma Slices(t: Text, p: Text, from: Text, text: Text)
    requires t == p + from + "]: " + text && |p| == 17
    ensures |t| == 20 + |from| + |text| && t[..17] == p && t[17..17 + |from|] == from
    ensures t[17 + |from|] == ']' && t[18 + |from|] == ':' && t[19 + |from|] == ' '
    ensures t[20 + |from|..] == text
  {
  }

  lemma SecretSpells(s: Saying)
    requires s.Secret?
    ensures Spells(s, SayingText(s))
  {
    var p := Literal(SayingString(s));
    SecretPrefixBytes(SayingString(s), "(1:1 ", "메시지", ") [");
    SecretPrefixSize(s);
    Slices(SayingText(s), p, s.from, s.text);
  }

  lemma SentenceSays(s: Saying, rest: Text)
    requires rest == Literal(SayingString(s))
    ensures Says(rest, SayingString(s))
  {
    SentencesHaveNoNul(s);
    LiteralSays(SayingString(s));
  }

  lemma SentencesHaveNoNul(s: Saying)
    ensures NUL !in SayingString(s)
  {
  }

  lemma RenameSpells(s: Saying, rest: Text)
    requires s.Renames? && rest == Literal(SayingString(s))
    ensures Spells(s, SayingText(s))
  {
    SentenceSays(s, rest);
    ChatTextQuotes(s.from, s.was + rest + s.from + "]");
    assert Quotes(SayingText(s), s.from, s.was + rest + s.from + "]");
  }

  lemma SentenceSpells(s: Saying, rest: Text)
    requires s.Joins? || s.Leaves?
    requires rest == Literal(SayingString(s))
    ensures Spells(s, SayingText(s))
  {
    SentenceSays(s, rest);
    ChatTextQuotes(s.from, rest);
    assert Quotes(SayingText(s), s.from, rest);
  }

  /** Every scheduled message spells what it says. */
  lemma SayingSpells(s: Saying)
    ensures Spells(s, SayingText(s))
  {
    if s.Chat? {
      ChatTextQuotes(s.from, s.text);
    } else if s.Secret? {
      SecretSpells(s);
    } else {
      SentenceOrRename(s, Literal(SayingString(s)));
    }
  }

  lemma SentenceOrRename(s: Saying, rest: Text)
    requires !s.Chat? && !s.Secret? && rest == Literal(SayingString(s))
    ensures Spells(s, SayingText(s))
  {
    if s.Renames? {
      RenameSpells(s, rest);
    } else {
      SentenceSpells(s, rest);
    }
  }

  /** A secret whose packet fits every buffer on its way. */
  predicate SecretFits(from: Text, text: Text) {
    20 + |from| + |text| <= MAX_PAYLOAD
  }

  lemma SecretFitsExactly(s: Saying)
    requires s.Secret?
    ensures SecretFits(s.from, s.text) <==> |SayingText(s)| <= MAX_PAYLOAD
    ensures SecretFits(s.from, s.text) ==> Room(s)
  {
    SecretPrefixSize(s);
  }

  /** A packet that carries a scheduled message whose text the buffers hold. */
  ghost predicate PacketOf(w: Text, s: Saying) {
    var m := SayingMessage(s);
    EncodedAs(w, m) && NulFree(m.text) && |m.text| <= MAX_PAYLOAD
  }

  /** Whoever reads it gets that message back, a type 1 packet that spells what was said. */
  lemma SayingDecoded(s: Saying, m: Message, w: Text)
    requires m == SayingMessage(s) && PacketOf(w, s)
    ensures Readable(w, PACKET_SIZE) && ReadBack(w, PACKET_SIZE) == Valid(m)
    ensures m.kind == 1 && m.length == |m.text| && Spells(s, m.text)
  {
    EncodedReadBack(w, m, PACKET_SIZE);
    SayingSpells(s);
  }

  /** Whatever packet is written for it, a reader of the packet finds the payload `text` in it. */
  ghost predicate ReadsAs(s: Saying, text: Text) {
    forall p | EncodedAs(p, SayingMessage(s)) :: ReadBack(p, PACKET_SIZE) == Valid(Message(1, |text|, text))
  }

  lemma SpelledReads(s: Saying, text: Text)
    requires SayingMessage(s).text == text && NulFree(text) && |text| <= MAX_PAYLOAD
    ensures ReadsAs(s, text)
  {
    var m := SayingMessage(s);
    assert m == Message(1, |text|, text);
    forall p | EncodedAs(p, m) ensures ReadBack(p, PACKET_SIZE) == Valid(m) {
      EncodedReadBack(p, m, PACKET_SIZE);
    }
  }

  lemma QuotesAre(t: Text, name: Text, rest: Text)
    requires Quotes(t, name, rest)
    ensures t == "[" + name + "]: " + rest
  {
    var u := "[" + name + "]: " + rest;
    forall i | 0 <= i < |t| ensures t[i] == u[i] {
      if 1 <= i < 1 + |name| {
        assert t[1..1 + |name|][i - 1] == name[i - 1];
      } else if 4 + |name| <= i {
        assert t[4 + |name|..][i - 4 - |name|] == rest[i - 4 - |name|];
      }
    }
  }

  /** A chat line that fits is read as "[sender]: line". */
  lemma ChatReads(from: Text, line: Text)
    requires NameOk(from) && NulFree(line) && 4 + |from| + |line| <= 16371
    ensures ReadsAs(Chat(from, line), "[" + from + "]: " + line)
  {
    var s := Chat(from, line);
    SayingSpells(s);
    QuotesAre(SayingText(s), from, line);
    SpelledReads(s, SayingText(s));
  }

  lemma SpelledSecret(t: Text, from: Text, text: Text)
    requires |t| == 20 + |from| + |text|
    requires t[..17] == SECRET_PREFIX && t[17..17 + |from|] == from
    requires t[17 + |from|] == ']' && t[18 + |from|] == ':' && t[19 + |from|] == ' '
    requires t[20 + |from|..] == text
    ensures t == SECRET_PREFIX + from + "]: " + text
  {
    assert t == t[..17] + t[17..17 + |from|] + t[17 + |from|..20 + |from|] + t[20 + |from|..];
    assert t[17 + |from|..20 + |from|] == "]: ";
  }

  /** A secret that fits is read as its prefix, "[sender]: " and the text. */
  lemma SecretReads(from: Text, text: Text)
    requires NameOk(from) && NulFree(text) && SecretFits(from, text)
    ensures ReadsAs(Saying.Secret(from, text), SECRET_PREFIX + from + "]: " + text)
  {
    var s := Saying.Secret(from, text);
    SayingSpells(s);
    SpelledSecret(SayingText(s), from, text);
    SecretFitsExactly(s);
    LiteralText(SayingString(s));
    SpelledReads(s, SayingText(s));
  }

  // ----- What acknowledgements say -----

  lemma NoNulInParts(s: string, a: string, b: string, c: string)
    requires s == a + b + c && NUL !in a && NUL !in b && NUL !in c
    ensures NUL !in s
  {
  }

  lemma NameRuleHasNoNul(s: string)
    requires s == AckString(Refused(NameRule))
    ensures NUL !in s
  {
    NoNulInParts(s, "사용이 금지된 문자가 ", "포함되어 있습니다 (띄어쓰기, \")", ", 사용법: /name <바꿀이름>");
  }

  lemma SendUsageHasNoNul(s: string)
    requires s == AckString(Refused(SendUsage))
    ensures NUL !in s
  {
    NoNulInParts(s, "정보가 없습니다, ", "사용법: /send ", "<사용자 닉네임> <메시지>");
  }

  lemma SendNoUserHasNoNul(s: string)
    requires s == AckString(Refused(SendNoUser))
    ensures NUL !in s
  {
    NoNulInParts(s, "보내고자 하는 유저가 없습니다, ", "사용법: /send ", "<사용자 닉네임> <메시지>");
  }

  lemma SendNoTextHasNoNul(s: string)
    requires s == AckString(Refused(SendNoText))
    ensures NUL !in s
  {
    NoNulInParts(s, "보내고자 하는 메시지가 없습니다, ", "사용법: /send ", "<사용자 닉네임> <메시지 ...>");
  }

  lemma SendNoReceiverHasNoNul(s: string)
    requires s == AckString(Refused(SendNoReceiver))
    ensures NUL !in s
  {
    NoNulInParts(s, "해당 유저는 현재 메시지 ", "수신기가 켜져있지 않습니다. ", "메시지를 전달할 수 없습니다.");
  }

  lemma ShortSentenceHasNoNul(why: Refusal, s: string)
    requires why in {NameInUse, SendSelf, SendNotFound} && s == AckString(Refused(why))
    ensures NUL !in s
  {
  }

  lemma HandshakeOrLengthHasNoNul(why: Refusal, s: string)
    requires why in {ServerFull, NameTooLong} && s == AckString(Refused(why))
    ensures NUL !in s
  {
  }

  lemma TitleHasNoNul(kind: int, s: string)
    requires s == Title(kind)
    ensures NUL !in s
  {
  }

  lemma SentenceHasNoNul(a: Ack, s: string)
    requires s == AckString(a)
    ensures NUL !in s
  {
    if !a.Refused? {
      TitleHasNoNul(AckKind(a), s);
    } else {
      match a.why {
        case NameRule => NameRuleHasNoNul(s);
        case SendUsage => SendUsageHasNoNul(s);
        case SendNoUser => SendNoUserHasNoNul(s);
        case SendNoText => SendNoTextHasNoNul(s);
        case SendNoReceiver => SendNoReceiverHasNoNul(s);
        case ServerFull => HandshakeOrLengthHasNoNul(a.why, s);
        case NameTooLong => HandshakeOrLengthHasNoNul(a.why, s);
        case _ => ShortSentenceHasNoNul(a.why, s);
      }
    }
  }

  lemma AckSentenceSays(a: Ack, p: Text)
    requires p == Literal(AckString(a))
    ensures Says(p, AckString(a))
  {
    SentenceHasNoNul(a, AckString(a));
    LiteralSays(AckString(a));
  }

  /** A refusal says its sentence, and the answer to an empty `/name` ends in the name. */
  lemma AckSpells(a: Ack)
    ensures a.Refused? ==> Says(AckText(a), AckString(a))
    ensures a.CurrentName? ==> exists p :: AckText(a) == p + a.name && Says(p, AckString(a))
    ensures AckMessage(a).length == |AckMessage(a).text| && AckMessage(a).text == AckText(a)
  {
    AckSentenceSays(a, Literal(AckString(a)));
    if a.CurrentName? {
      assert AckText(a) == Literal(AckString(a)) + a.name;
    }
  }
}
