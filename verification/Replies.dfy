/** Response codes and how the client tells a code word from an acknowledgement packet. */
module Replies {
  import opened CText
  import opened Codec

  datatype Code = Ok | Welcome | NoSupport | Bye | Skip | Fail

  /** `Garbled` is the client's own verdict on bytes it cannot decode. */
  datatype Reply = Word(code: Code) | Packet(msg: Message) | Garbled

  /** send_response_code writes this; for Skip it writes nothing. */
  function CodeWord(code: Code): Text {
    match code
    case Ok => "OK"
    case Welcome => "WELCOME"
    case NoSupport => "NOSUPPORT"
    case Bye => "BYE"
    case Fail => "FAIL"
    case Skip => ""
  }

  function ResponseCodeConvert(buf: Text): Code {
    if buf == "OK" then Ok
    else if buf == "WELCOME" then Welcome
    else if buf == "FAIL" then Fail
    else if buf == "NOSUPPORT" then NoSupport
    else if buf == "SKIP" then Skip
    else if buf == "BYE" then Bye
    else Skip
  }

  /** The replies a server writes, within what the client's 16376-byte buffer holds. */
  ghost predicate Sendable(r: Reply) {
    match r
    case Word(code) => code != Skip
    case Packet(m) => 0 <= m.kind < 65536 && Fits(m, TEXT_SIZE)
    case Garbled => false
  }

  /** The bytes that may go out for a reply. */
  ghost predicate WrittenAs(r: Reply, w: Text) {
    match r
    case Word(code) => w == CodeWord(code)
    case Packet(m) => EncodedAs(w, m)
    case Garbled => false
  }

  /** The client's reading of a zeroed buffer. */
  function Classify(buf: Text, bytes: int): Reply {
    var code := ResponseCodeConvert(CStr(buf));
    if code != Skip then Word(code)
    else if !Decodable(buf, bytes) || Decode(buf, bytes) == Invalid then Garbled
    else Packet(Decode(buf, bytes).msg)
  }

  /** What the client makes of a reply it reads into its cleared buffer. */
  function Understood(w: Text): Reply {
    if Readable(w, TEXT_SIZE) then Classify(Received(w, TEXT_SIZE), |w|) else Garbled
  }

  lemma PacketIsNoWord(buf: Text)
    requires |buf| >= 4 && buf[..4] == MAGIC
    ensures ResponseCodeConvert(CStr(buf)) == Skip
  {
    assert buf[0] == MAGIC[0] && buf[..4][1] == MAGIC[1];
    assert CStr(buf)[0] == MAGIC[0];
  }

  lemma CodeWords(code: Code)
    requires code != Skip
    ensures NulFree(CodeWord(code)) && |CodeWord(code)| <= 9 && ResponseCodeConvert(CodeWord(code)) == code
    ensures CodeWord(code)[0] != MAGIC[0]
  {
  }

  lemma WordRecovered(code: Code, w: Text)
    requires code != Skip && NulFree(w) && |w| <= 9 && ResponseCodeConvert(w) == code
    requires |w| < 8 || w[0] != MAGIC[0]
    ensures Readable(w, TEXT_SIZE) && Understood(w) == Word(code)
  {
    CStrIs(Received(w, TEXT_SIZE), w);
    assert |w| >= 8 ==> Received(w, TEXT_SIZE)[..4][0] == w[0];
  }

  lemma PacketRecovered(m: Message, w: Text)
    requires EncodedAs(w, m) && Fits(m, TEXT_SIZE) && 0 <= m.kind < 65536
    ensures Readable(w, TEXT_SIZE) && Understood(w) == Packet(m)
  {
    EncodedReadBack(w, m, TEXT_SIZE);
    EncodedIsNoWord(w, m, Received(w, TEXT_SIZE));
  }

  /** Every reply is recovered: its kind, its exact code, or its exact message. */
  lemma ReplyRecovered(r: Reply, w: Text)
    requires Sendable(r) && WrittenAs(r, w)
    ensures Readable(w, TEXT_SIZE) && Understood(w) == r
  {
    match r {
      case Word(code) =>
        CodeWords(code);
        WordRecovered(code, w);
      case Packet(m) => PacketRecovered(m, w);
    }
  }

  lemma EncodedIsNoWord(w: Text, m: Message, b: Text)
    requires EncodedAs(w, m) && w <= b
    ensures ResponseCodeConvert(CStr(b)) == Skip
  {
    assert w[..HEADER_SIZE][..4] == MAGIC;
    assert b[..4] == w[..4] == w[..HEADER_SIZE][..4];
    PacketIsNoWord(b);
  }

  /** Two different replies never share their bytes. */
  lemma RepliesUnambiguous(r1: Reply, r2: Reply, w: Text)
    requires Sendable(r1) && Sendable(r2) && WrittenAs(r1, w) && WrittenAs(r2, w)
    ensures r1 == r2
  {
    ReplyRecovered(r1, w);
    ReplyRecovered(r2, w);
  }
}
