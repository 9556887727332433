/** The codec as comm.c and util.c run it: loops over fixed `char` buffers, proved against Codec. */
module PacketBuffers {
  import opened CText
  import opened Codec
  import opened StrTok

  lemma CStrTerminated(x: Text)
    ensures CStr(x + [NUL]) == CStr(x)
  {
    FindIs(x + [NUL], NUL, Find(x, NUL));
  }

  /** substring: `length` bytes from the 1-based `position`, and a NUL. */
  method Substring(s: array<char>, position: nat, length: nat) returns (p: array<char>)
    requires 1 <= position && position - 1 + length <= s.Length
    ensures fresh(p) && p[..] == s[position - 1..position - 1 + length] + [NUL]
  {
    p := new char[length + 1](_ => NUL);
    for c := 0 to length
      invariant forall k | 0 <= k < c :: p[k] == s[position - 1 + k]
      invariant forall k | c <= k <= length :: p[k] == NUL
      invariant s[..] == old(s[..])
    {
      p[c] := s[position - 1 + c];
    }
  }

  /** sprintf and strcpy into a buffer: the bytes of `t`, then a NUL. */
  method Print(pkt: array<char>, at: nat, t: Text)
    requires at + |t| < pkt.Length
    modifies pkt
    ensures pkt[..] == old(pkt[..at]) + t + [NUL] + old(pkt[at + |t| + 1..])
  {
    for k := 0 to |t|
      invariant forall i | 0 <= i < k :: pkt[at + i] == t[i]
      invariant forall i | 0 <= i < pkt.Length && !(at <= i < at + k) :: pkt[i] == old(pkt[i])
    {
      pkt[at + k] := t[k];
    }
    pkt[at + |t|] := NUL;
  }

  /** strcat(pkt + at, t): `t` goes where the string at `at` ended. */
  method StrCat(pkt: array<char>, at: nat, t: Text)
    requires at <= pkt.Length && at + |CStr(pkt[at..])| + |t| < pkt.Length
    modifies pkt
    ensures var e := at + |old(CStr(pkt[at..]))|;
            pkt[..] == old(pkt[..])[..e] + t + [NUL] + old(pkt[..])[e + |t| + 1..]
  {
    var e := at;
    while e < pkt.Length && pkt[e] != NUL
      invariant at <= e <= pkt.Length
      invariant forall i | at <= i < e :: pkt[i] != NUL
      invariant pkt[..] == old(pkt[..])
    {
      e := e + 1;
    }
    FindIs(pkt[at..], NUL, e - at);
    Print(pkt, e, t);
  }

  /** strcat on a buffer that holds the string `s`; on a cleared buffer this is also sprintf and strcpy. */
  method Append(buf: array<char>, ghost s: Text, t: Text)
    requires HoldsAt(buf[..], 0, s) && NulFree(t) && |s| + |t| < buf.Length
    modifies buf
    ensures HoldsAt(buf[..], 0, s + t)
  {
    HoldsCStr(buf[..], 0, s);
    assert buf[0..] == buf[..][0..];
    StrCat(buf, 0, t);
  }

  /** The first string of a cleared buffer. */
  method Fill(buf: array<char>, t: Text)
    requires buf.Length > 0 && buf[0] == NUL && NulFree(t) && |t| < buf.Length
    modifies buf
    ensures HoldsAt(buf[..], 0, t)
  {
    Append(buf, [], t);
    assert [] + t == t;
  }

  /** packing_message_send: builds the packet in a buffer nobody cleared and hands `length + 12` bytes over. */
  method PackingMessageSend(m: Message) returns (w: Text)
    requires NulFree(m.text) && |m.text| <= MAX_PAYLOAD
    requires 0 <= m.length <= PACKET_SIZE - HEADER_SIZE
    ensures EncodedAs(w, m)
  {
    var pkt := new char[PACKET_SIZE];
    Print(pkt, 0, MAGIC + Hex4(m.kind) + Hex4(m.length));
    assert pkt[..HEADER_SIZE] == Header(m.kind, m.length);
    assert pkt[HEADER_SIZE] == NUL;
    FindIs(pkt[HEADER_SIZE..], NUL, 0);
    StrCat(pkt, HEADER_SIZE, m.text);
    w := pkt[..m.length + HEADER_SIZE];
  }

  /** The C string of a slice, through a copy that is terminated once more, as `message[length] = 0` does. */
  method SliceString(buffer: array<char>, position: nat, length: nat) returns (t: Text)
    requires 1 <= position && position - 1 + length <= buffer.Length
    ensures t == CStr(buffer[position - 1..position - 1 + length])
  {
    ghost var slice := buffer[position - 1..position - 1 + length];
    var message := Substring(buffer, position, length);
    message[length] := NUL;
    assert message[..] == slice + [NUL];
    CStrTerminated(slice);
    t := CStr(message[..]);
  }

  /** packing_message_convert. */
  method PackingMessageConvert(buffer: array<char>, bytes: int) returns (r: Decoded)
    requires Decodable(buffer[..], bytes)
    ensures r == Decode(buffer[..], bytes)
  {
    if bytes <= 0 || (bytes >= 0 && bytes < 8) {
      return Invalid;
    }
    var magic := SliceString(buffer, 1, 4);
    CStrIs(MAGIC, MAGIC);
    if magic != MAGIC {
      return Invalid;
    }
    assert buffer[..4] == MAGIC;

    var commandText := SliceString(buffer, 5, 4);
    var command := StrTol16(commandText);
    var lengthText := SliceString(buffer, 9, 4);
    var length := StrTol16(lengthText);
    assert command == KindField(buffer[..]) by {
      assert buffer[..][4..8] == buffer[4..8];
    }
    assert length == LengthField(buffer[..]) by {
      assert buffer[..][8..12] == buffer[8..12];
    }
    if length > TEXT_SIZE {
      return Invalid;
    }

    if length == 0 {
      return Valid(Message(command, length, ""));
    }
    var message := SliceString(buffer, 13, length);
    assert buffer[..][HEADER_SIZE..HEADER_SIZE + length] == buffer[HEADER_SIZE..HEADER_SIZE + length];
    r := Valid(Message(command, length, message));
  }

  /** SSL_read of the packet `w` into a cleared buffer. */
  method Receive(w: Text, size: nat) returns (buf: array<char>)
    requires |w| <= size
    ensures fresh(buf) && buf[..] == Received(w, size)
  {
    buf := new char[size](i => if 0 <= i < |w| then w[i] else NUL);
  }

  /** SSL_read, then packing_message_convert. */
  method ReadPacket(w: Text, size: nat) returns (d: Decoded)
    requires Readable(w, size)
    ensures d == ReadBack(w, size) && (d.Valid? ==> NulFree(d.msg.text))
  {
    var buf := Receive(w, size);
    d := PackingMessageConvert(buf, |w|);
    if d.Valid? {
      DecodedText(buf[..], |w|);
    }
  }
}
