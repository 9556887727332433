/** The packet format of comm.c: magic, four hex digits of type, four of length, payload. */
module Codec {
  import opened CText

  const PACKET_SIZE: nat := 16384 // MAX_LENGTH_MESSAGE
  const TEXT_SIZE: nat := 16376   // MAX_LENGTH_STR_MESSAGE
  const HEADER_SIZE: nat := 12
  const MAX_PAYLOAD: nat := 16371 // header, payload and NUL fill a packet buffer

  const MAGIC: Text := "\U{99}\U{88}wf"

  datatype Message = Message(kind: int, length: int, text: Text)

  datatype Decoded = Invalid | Valid(msg: Message)

  // ----- Hexadecimal fields -----

  function HexDigit(d: nat): (c: char)
    requires d < 16
    ensures IsHex(c) && HexValue(c) == d && c == Lower(c) && c != NUL
  {
    if d < 10 then (48 + d) as char else (87 + d) as char
  }

  predicate IsHex(c: char) {
    '0' <= c <= '9' || 'a' <= c <= 'f' || 'A' <= c <= 'F'
  }

  function HexValue(c: char): (v: nat)
    requires IsHex(c)
    ensures v < 16
  {
    if c <= '9' then c as int - 48 else if c <= 'F' then c as int - 55 else c as int - 87
  }

  /** The last `digits` hexadecimal digits of `n`. */
  function HexN(n: nat, digits: nat): (t: Text)
    ensures |t| == digits
    ensures forall i | 0 <= i < digits :: IsHex(t[i]) && t[i] != NUL
  {
    if digits == 0 then [] else HexN(n / 16, digits - 1) + [HexDigit(n % 16)]
  }

  /** `%04hx`: the argument is first converted to an unsigned short. */
  function Hex4(n: int): (t: Text) {
    HexN(n % 65536, 4)
  }

  predicate IsSpace(c: char) {
    c == ' ' || '\t' <= c <= '\r'
  }

  function SkipSpace(s: Text): Text {
    if s != [] && IsSpace(s[0]) then SkipSpace(s[1..]) else s
  }

  function HexPrefix(s: Text, acc: nat): nat {
    if s == [] || !IsHex(s[0]) then acc else HexPrefix(s[1..], acc * 16 + HexValue(s[0]))
  }

  /** strtol in base 16 (ISO C11, section 7.22.1.4): white space, sign, optional 0x, digits. */
  function StrTol16(s: Text): int {
    var t := SkipSpace(s);
    var signed := t != [] && (t[0] == '-' || t[0] == '+');
    var u := if signed then t[1..] else t;
    var prefixed := |u| >= 3 && u[0] == '0' && (u[1] == 'x' || u[1] == 'X') && IsHex(u[2]);
    var n: int := HexPrefix(if prefixed then u[2..] else u, 0);
    if signed && t[0] == '-' then -n else n
  }

  predicate AllHex(s: Text) {
    forall i | 0 <= i < |s| :: IsHex(s[i])
  }

  /** The number 16 * (...) + digit of hex digits, from the left. */
  lemma {:induction false} PrefixStops(digits: Text, tail: Text, acc: nat)
    requires AllHex(digits) && (tail == [] || !IsHex(tail[0]))
    ensures HexPrefix(digits + tail, acc) == HexPrefix(digits, acc)
    decreases |digits|
  {
    if digits == [] {
      assert [] + tail == tail;
    } else {
      assert (digits + tail)[1..] == digits[1..] + tail;
      PrefixStops(digits[1..], tail, acc * 16 + HexValue(digits[0]));
    }
  }

  lemma {:induction false} SpacesSkipped(spaces: Text, rest: Text)
    requires forall i | 0 <= i < |spaces| :: spaces[i] in {' ', '\t', '\n', '\r', 11 as char, 12 as char}
    requires rest != [] && !IsSpace(rest[0])
    ensures SkipSpace(spaces + rest) == rest
    decreases |spaces|
  {
    if spaces == [] {
      assert [] + rest == rest;
    } else {
      assert (spaces + rest)[1..] == spaces[1..] + rest;
      SpacesSkipped(spaces[1..], rest);
    }
  }

  /** strtol in base 16: white space, a sign, 0x, the digits, and whatever is no digit after them. */
  lemma StrTolReads(spaces: Text, sign: Text, zerox: Text, digits: Text, tail: Text)
    requires forall i | 0 <= i < |spaces| :: spaces[i] in {' ', '\t', '\n', '\r', 11 as char, 12 as char}
    requires sign in {"", "+", "-"} && zerox in {"0x", "0X"}
    requires digits != [] && AllHex(digits) && (tail == [] || !IsHex(tail[0]))
    ensures StrTol16(spaces + (sign + zerox + digits + tail)) == (if sign == "-" then -1 else 1) * HexPrefix(digits, 0)
  {
    var t := sign + zerox + digits + tail;
    var u := zerox + (digits + tail);
    assert t[0] == if sign == "" then zerox[0] else sign[0];
    SpacesSkipped(spaces, t);
    assert (if sign == "" then t else t[1..]) == u;
    assert u[0] == '0' && u[1] == zerox[1] && u[2] == digits[0] && u[2..] == digits + tail;
    PrefixStops(digits, tail, 0);
  }

  predicate HexField(s: Text) {
    |s| == 4 && forall i | 0 <= i < 4 :: IsHex(s[i])
  }

  lemma FieldValue(s: Text)
    requires HexField(s)
    ensures CStr(s) == s && StrTol16(s) == HexPrefix(s, 0)
  {
    CStrIs(s, s);
    assert SkipSpace(s) == s;
  }

  /** Reading one more digit. */
  lemma {:induction false} HexPrefixSnoc(s: Text, c: char, acc: nat)
    requires IsHex(c) && forall i | 0 <= i < |s| :: IsHex(s[i])
    ensures HexPrefix(s + [c], acc) == HexPrefix(s, acc) * 16 + HexValue(c)
    decreases s
  {
    if s == [] {
      assert ([c])[1..] == [];
    } else {
      assert (s + [c])[1..] == s[1..] + [c];
      HexPrefixSnoc(s[1..], c, acc * 16 + HexValue(s[0]));
    }
  }

  lemma {:induction false} HexNValue(n: nat, digits: nat)
    requires n < Pow16(digits)
    ensures HexPrefix(HexN(n, digits), 0) == n
  {
    if digits > 0 {
      HexNValue(n / 16, digits - 1);
      HexPrefixSnoc(HexN(n / 16, digits - 1), HexDigit(n % 16), 0);
    }
  }

  lemma {:induction false} HexNOfValue(s: Text)
    requires forall i | 0 <= i < |s| :: IsHex(s[i])
    ensures HexN(HexPrefix(s, 0), |s|) == Fold(s)
    ensures HexPrefix(s, 0) < Pow16(|s|)
    decreases |s|
  {
    if |s| > 0 {
      var t, c := s[..|s| - 1], s[|s| - 1];
      assert s == t + [c];
      HexNOfValue(t);
      HexPrefixSnoc(t, c, 0);
      HexNStep(HexPrefix(t, 0), c, |t|);
      assert Fold(s) == Fold(t) + [Lower(c)];
    }
  }

  lemma HexNStep(v: nat, c: char, digits: nat)
    requires IsHex(c)
    ensures HexN(v * 16 + HexValue(c), digits + 1) == HexN(v, digits) + [Lower(c)]
  {
    assert (v * 16 + HexValue(c)) / 16 == v && (v * 16 + HexValue(c)) % 16 == HexValue(c);
  }

  function Pow16(n: nat): (p: nat)
    ensures p >= 1
  {
    if n == 0 then 1 else 16 * Pow16(n - 1)
  }

  /** Printing a field and reading it back. */
  lemma HexRoundTrip(n: int)
    ensures HexField(Hex4(n)) && CStr(Hex4(n)) == Hex4(n) && StrTol16(Hex4(n)) == n % 65536
  {
    assert Pow16(4) == 65536;
    HexNValue(n % 65536, 4);
    FieldValue(Hex4(n));
  }

  lemma FieldRange(v: nat)
    requires v < Pow16(4)
    ensures v < 65536 && v % 65536 == v
  {
    assert Pow16(4) == 65536;
  }

  lemma PrintedNormalForm(s: Text, v: nat)
    requires HexField(s) && v == HexPrefix(s, 0)
    ensures v < 65536 && Hex4(v) == Fold(s)
  {
    HexNOfValue(s);
    FieldRange(v);
  }

  /** Reading a field and printing it back gives it in lower case. */
  lemma HexNormalForm(s: Text)
    requires HexField(s)
    ensures 0 <= StrTol16(s) < 65536 && Hex4(StrTol16(s)) == Fold(s)
  {
    FieldValue(s);
    PrintedNormalForm(s, StrTol16(s));
  }

  // ----- Packets as byte sequences -----

  function Header(kind: int, length: int): (h: Text)
    ensures |h| == HEADER_SIZE
  {
    MAGIC + Hex4(kind) + Hex4(length)
  }

  /**
   * The packets packing_message_send may write for `m`: `length + 12` bytes of a buffer holding the
   * header, the text and a NUL.  Bytes after the NUL were never set.
   */
  ghost predicate EncodedAs(w: Text, m: Message) {
    && 0 <= m.length
    && |w| == HEADER_SIZE + m.length
    && w[..HEADER_SIZE] == Header(m.kind, m.length)
    && (forall i | 0 <= i < |m.text| && i < m.length :: w[HEADER_SIZE + i] == m.text[i])
    && (|m.text| < m.length ==> w[HEADER_SIZE + |m.text|] == NUL)
  }

  /** The packet of a message whose length field is its string length. */
  function Encode(kind: int, text: Text): (w: Text)
    ensures |w| == HEADER_SIZE + |text|
    ensures EncodedAs(w, Message(kind, |text|, text))
  {
    Header(kind, |text|) + text
  }

  function KindField(buf: Text): int
    requires HEADER_SIZE <= |buf|
  {
    StrTol16(CStr(buf[4..8]))
  }

  function LengthField(buf: Text): int
    requires HEADER_SIZE <= |buf|
  {
    StrTol16(CStr(buf[8..12]))
  }

  /** The decoder stays inside the buffer it was given. */
  predicate Decodable(buf: Text, bytes: int) {
    && HEADER_SIZE <= |buf| <= PACKET_SIZE
    && (bytes >= 8 && buf[..4] == MAGIC ==>
          LengthField(buf) > TEXT_SIZE || 0 <= LengthField(buf) <= |buf| - HEADER_SIZE)
  }

  function Decode(buf: Text, bytes: int): Decoded
    requires Decodable(buf, bytes)
  {
    if bytes < 8 || buf[..4] != MAGIC || LengthField(buf) > TEXT_SIZE then
      Invalid
    else
      Valid(Message(KindField(buf), LengthField(buf),
                    CStr(buf[HEADER_SIZE..HEADER_SIZE + LengthField(buf)])))
  }

  /** A packet whose declared length stays inside the buffer of `size` bytes it is read into. */
  predicate Readable(w: Text, size: nat) {
    |w| <= size && HEADER_SIZE <= size <= PACKET_SIZE && Decodable(Received(w, size), |w|)
  }

  /** What a program makes of a packet it reads into a cleared buffer of `size` bytes. */
  function ReadBack(w: Text, size: nat): Decoded {
    if Readable(w, size) then Decode(Received(w, size), |w|) else Invalid
  }

  lemma ReadBackText(w: Text, size: nat)
    ensures ReadBack(w, size).Valid? ==> NulFree(ReadBack(w, size).msg.text)
  {
    if ReadBack(w, size).Valid? {
      DecodedText(Received(w, size), |w|);
    }
  }

  /** Messages both buffers can hold: the encoder's 16384 bytes and the receiver's `size` bytes. */
  ghost predicate Fits(m: Message, size: nat) {
    && NulFree(m.text) && |m.text| <= m.length && |m.text| <= MAX_PAYLOAD
    && HEADER_SIZE + m.length <= size <= PACKET_SIZE
  }

  lemma HeaderFields(b: Text, kind: int, length: int)
    requires HEADER_SIZE <= |b| && b[..HEADER_SIZE] == Header(kind, length)
    ensures b[..4] == MAGIC && KindField(b) == kind % 65536 && LengthField(b) == length % 65536
  {
    var h := Header(kind, length);
    assert b[..4] == h[..4] && b[4..8] == h[4..8] && b[8..12] == h[8..12];
    HexRoundTrip(kind);
    HexRoundTrip(length);
  }

  lemma PayloadText(w: Text, m: Message, b: Text)
    requires EncodedAs(w, m) && NulFree(m.text) && |m.text| <= m.length && w <= b
    ensures CStr(b[HEADER_SIZE..HEADER_SIZE + m.length]) == m.text
  {
    CStrIs(b[HEADER_SIZE..HEADER_SIZE + m.length], m.text);
  }

  lemma DecodeFields(b: Text, bytes: int, m: Message)
    requires HEADER_SIZE <= |b| <= PACKET_SIZE && 8 <= bytes && b[..4] == MAGIC
    requires KindField(b) == m.kind && LengthField(b) == m.length && 0 <= m.length <= |b| - HEADER_SIZE
    requires m.length <= TEXT_SIZE && CStr(b[HEADER_SIZE..HEADER_SIZE + m.length]) == m.text
    ensures Decodable(b, bytes) && Decode(b, bytes) == Valid(m)
  {
  }

  const HEX_DIGITS: Text := "0123456789abcdef"

  /** The field of four lower-case hex digits, most significant first. */
  predicate SpellsField(f: Text, n: nat)
    requires n < 65536
  {
    && |f| == 4
    && f[0] == HEX_DIGITS[n / 4096] && f[1] == HEX_DIGITS[n / 256 % 16]
    && f[2] == HEX_DIGITS[n / 16 % 16] && f[3] == HEX_DIGITS[n % 16]
  }

  lemma DigitIs(d: nat)
    requires d < 16
    ensures HexDigit(d) == HEX_DIGITS[d]
  {
  }

  lemma FieldDigits(n: nat, digits: nat)
    requires n < 65536 && digits == 4
    ensures HexN(n, digits) ==
      [HexDigit(n / 4096)] + [HexDigit(n / 256 % 16)] + [HexDigit(n / 16 % 16)] + [HexDigit(n % 16)]
  {
    assert n / 16 / 16 == n / 256 && n / 256 / 16 == n / 4096 && n / 4096 < 16;
    assert HexN(n, digits) == HexN(n / 16, digits - 1) + [HexDigit(n % 16)];
    assert HexN(n / 16, digits - 1) == HexN(n / 256, digits - 2) + [HexDigit(n / 16 % 16)];
    assert HexN(n / 256, digits - 2) == HexN(n / 4096, digits - 3) + [HexDigit(n / 256 % 16)];
    assert HexN(n / 4096, digits - 3) == HexN(n / 4096 / 16, digits - 4) + [HexDigit(n / 4096 % 16)];
  }

  lemma FieldSpelled(n: nat, digits: nat)
    requires n < 65536 && digits == 4
    ensures SpellsField(HexN(n, digits), n)
  {
    FieldDigits(n, digits);
    DigitIs(n / 4096);
    DigitIs(n / 256 % 16);
    DigitIs(n / 16 % 16);
    DigitIs(n % 16);
  }

  lemma HeaderBytes(h: Text, kind: nat, length: nat)
    requires kind < 65536 && length < 65536 && h == Header(kind, length)
    ensures h[0] as int == 0x99 && h[1] as int == 0x88 && h[2] as int == 0x77 && h[3] as int == 0x66
    ensures SpellsField(h[4..8], kind) && SpellsField(h[8..12], length)
  {
    assert kind % 65536 == kind && length % 65536 == length;
    FieldSpelled(kind, 4);
    FieldSpelled(length, 4);
    assert h[4..8] == Hex4(kind) && h[8..12] == Hex4(length);
    assert h[0] == MAGIC[0] && h[1] == MAGIC[1] && h[2] == MAGIC[2] && h[3] == MAGIC[3];
  }

  /** Every packet, byte by byte: 99 88 77 66, the type, the length, the text. */
  lemma PacketBytes(w: Text, m: Message)
    requires EncodedAs(w, m) && 0 <= m.kind < 65536 && 0 <= m.length < 65536
    ensures |w| == 12 + m.length
    ensures w[0] as int == 0x99 && w[1] as int == 0x88 && w[2] as int == 0x77 && w[3] as int == 0x66
    ensures SpellsField(w[4..8], m.kind) && SpellsField(w[8..12], m.length)
    ensures forall i | 0 <= i < |m.text| && i < m.length :: w[12 + i] == m.text[i]
  {
    var h := w[..HEADER_SIZE];
    HeaderBytes(h, m.kind, m.length);
    assert w[4..8] == h[4..8] && w[8..12] == h[8..12];
    assert w[0] == h[0] && w[1] == h[1] && w[2] == h[2] && w[3] == h[3];
  }

  /** What the decoder turns down: too few bytes, another magic, a declared length above 16376. */
  lemma InvalidExactly(buf: Text, bytes: int)
    requires Decodable(buf, bytes)
    ensures Decode(buf, bytes) == Invalid <==>
      || bytes < 8
      || buf[0] as int != 0x99 || buf[1] as int != 0x88 || buf[2] as int != 0x77 || buf[3] as int != 0x66
      || StrTol16(CStr(buf[8..12])) > 16376
  {
    assert |MAGIC| == 4 && buf[..4] == [buf[0], buf[1], buf[2], buf[3]];
  }

  /** Whatever the encoder wrote for a message, the decoder reads that message back, its type as unsigned short. */
  lemma DecodeEncoded(w: Text, m: Message, size: nat)
    requires EncodedAs(w, m) && Fits(m, size)
    ensures Decodable(Received(w, size), |w|)
    ensures Decode(Received(w, size), |w|) == Valid(m.(kind := m.kind % 65536))
  {
    var b := Received(w, size);
    assert b[..HEADER_SIZE] == w[..HEADER_SIZE];
    HeaderFields(b, m.kind, m.length);
    PayloadText(w, m, b);
    DecodeFields(b, |w|, m.(kind := m.kind % 65536));
  }

  /** For a 16-bit type, exactly that message. */
  lemma EncodedReadBack(w: Text, m: Message, size: nat)
    requires EncodedAs(w, m) && Fits(m, size) && 0 <= m.kind < 65536
    ensures Readable(w, size) && ReadBack(w, size) == Valid(m)
  {
    DecodeEncoded(w, m, size);
  }

  /** Encoding then decoding is the identity, for every type and every payload that fits. */
  lemma RoundTrip(kind: int, text: Text, size: nat)
    requires 0 <= kind < 65536 && NulFree(text) && |text| <= 16371
    requires 12 + |text| <= size <= 16384
    ensures var w := Encode(kind, text);
            && |w| == 12 + |text|
            && Decodable(Received(w, size), |w|)
            && Decode(Received(w, size), |w|) == Valid(Message(kind, |text|, text))
  {
    DecodeEncoded(Encode(kind, text), Message(kind, |text|, text), size);
  }

  lemma EncodingInjective(w: Text, m1: Message, m2: Message)
    requires EncodedAs(w, m1) && EncodedAs(w, m2)
    requires Fits(m1, PACKET_SIZE) && Fits(m2, PACKET_SIZE)
    requires 0 <= m1.kind < 65536 && 0 <= m2.kind < 65536
    ensures m1 == m2
  {
    EncodedReadBack(w, m1, PACKET_SIZE);
    EncodedReadBack(w, m2, PACKET_SIZE);
  }

  /** The decoder looks at nothing after the declared payload. */
  lemma DecodeIgnoresTail(b1: Text, b2: Text, bytes1: int, bytes2: int)
    requires Decodable(b1, bytes1) && 8 <= bytes1 && 8 <= bytes2 && Decode(b1, bytes1).Valid?
    requires HEADER_SIZE <= |b2| <= PACKET_SIZE
    requires var n := HEADER_SIZE + Decode(b1, bytes1).msg.length; n <= |b2| && b1[..n] == b2[..n]
    ensures Decodable(b2, bytes2) && Decode(b2, bytes2) == Decode(b1, bytes1)
  {
    var n := HEADER_SIZE + LengthField(b1);
    assert forall k | 0 <= k < n :: b1[..n][k] == b1[k] && b2[..n][k] == b2[k];
    assert b1[..4] == b2[..4] && b1[4..8] == b2[4..8] && b1[8..12] == b2[8..12];
    assert b1[HEADER_SIZE..n] == b2[HEADER_SIZE..n];
  }

  /** The text of a decoded message is a C string no longer than the declared length. */
  lemma DecodedText(buf: Text, bytes: int)
    requires Decodable(buf, bytes) && Decode(buf, bytes).Valid?
    ensures var m := Decode(buf, bytes).msg;
            && NulFree(m.text) && |m.text| <= m.length <= |buf| - HEADER_SIZE
            && (|m.text| == m.length <==> NulFree(buf[HEADER_SIZE..HEADER_SIZE + m.length]))
  {
    var t := buf[HEADER_SIZE..HEADER_SIZE + LengthField(buf)];
    if NulFree(t) {
      CStrIs(t, t);
    } else {
      assert Find(t, NUL) < |t|;
    }
  }

  /**
   * Decode, encode, decode is decode, for any buffer at all, exactly when the type field was not negative
   * (strtol reads "-1" but the encoder prints an unsigned short).
   */
  lemma DecodeEncodeDecode(buf: Text, bytes: int, w: Text)
    requires Decodable(buf, bytes) && Decode(buf, bytes).Valid?
    requires |Decode(buf, bytes).msg.text| <= MAX_PAYLOAD
    requires EncodedAs(w, Decode(buf, bytes).msg)
    ensures Decodable(Received(w, PACKET_SIZE), |w|)
    ensures Decode(Received(w, PACKET_SIZE), |w|) == Decode(buf, bytes) <==> Decode(buf, bytes).msg.kind >= 0
  {
    var m := Decode(buf, bytes).msg;
    DecodedText(buf, bytes);
    DecodeEncoded(w, m, PACKET_SIZE);
    KindRange(buf);
  }

  lemma NegativeField()
    ensures StrTol16(CStr("  -1")) == -1 && StrTol16(CStr("0000")) == 0
  {
    var s: Text := "  -1";
    CStrIs(s, s);
    assert SkipSpace(s[1..]) == s[1..][1..];
    assert s[1..][1..] == "-1" && "-1"[1..] == "1" && "1"[1..] == [];
    assert HexPrefix("1", 0) == HexPrefix([], 1);
    HexRoundTrip(0);
    assert HexN(0, 4) == "0000";
  }

  /** A type field that reads as -1: such a packet decodes, and does not survive encoding it again. */
  lemma NegativeTypeHappens() returns (buf: Text, w: Text)
    ensures Decodable(buf, |buf|) && buf[4..8] == "  -1" && Decode(buf, |buf|) == Valid(Message(-1, 0, []))
    ensures EncodedAs(w, Decode(buf, |buf|).msg) && Readable(w, PACKET_SIZE)
    ensures ReadBack(w, PACKET_SIZE) != Decode(buf, |buf|)
  {
    buf := MAGIC + "  -1" + "0000";
    w := Header(-1, 0);
    NegativeField();
    assert buf[..4] == MAGIC && buf[4..8] == "  -1" && buf[8..12] == "0000";
    DecodeEncodeDecode(buf, |buf|, w);
  }

  /** Re-encoding a decoded packet gives its prefix back, up to the case of the hex letters. */
  lemma ReencodeGivesPrefix(buf: Text, bytes: int)
    requires Decodable(buf, bytes) && Decode(buf, bytes).Valid?
    requires HexField(buf[4..8]) && HexField(buf[8..12])
    requires |Decode(buf, bytes).msg.text| == Decode(buf, bytes).msg.length
    ensures var m := Decode(buf, bytes).msg;
            && Encode(m.kind, m.text) == buf[..4] + Fold(buf[4..12]) + buf[HEADER_SIZE..HEADER_SIZE + m.length]
  {
    var m := Decode(buf, bytes).msg;
    FieldValue(buf[4..8]);
    FieldValue(buf[8..12]);
    HexNormalForm(buf[4..8]);
    HexNormalForm(buf[8..12]);
    assert Fold(buf[4..12]) == Fold(buf[4..8]) + Fold(buf[8..12]);
  }

  // ----- Range of the type field -----

  lemma {:induction false} HexPrefixBound(s: Text, acc: nat, bound: nat)
    requires acc < bound
    ensures HexPrefix(s, acc) < bound * Pow16(|s|)
    decreases s
  {
    if s == [] {
    } else if IsHex(s[0]) {
      HexPrefixBound(s[1..], acc * 16 + HexValue(s[0]), bound * 16);
      assert bound * 16 * Pow16(|s| - 1) == bound * Pow16(|s|);
    } else {
      assert Pow16(|s|) >= 1;
      assert bound <= bound * Pow16(|s|);
    }
  }

  lemma {:induction false} Pow16Mono(m: nat, n: nat)
    requires m <= n
    ensures Pow16(m) <= Pow16(n)
  {
    if m < n {
      Pow16Mono(m, n - 1);
    }
  }

  lemma {:induction false} SkipSpaceShrinks(s: Text)
    ensures |SkipSpace(s)| <= |s|
  {
    if s != [] && IsSpace(s[0]) {
      SkipSpaceShrinks(s[1..]);
    }
  }

  lemma KindRange(buf: Text)
    requires HEADER_SIZE <= |buf|
    ensures -65536 < KindField(buf) < 65536
  {
    var s := CStr(buf[4..8]);
    var t := SkipSpace(s);
    SkipSpaceShrinks(s);
    var signed := t != [] && (t[0] == '-' || t[0] == '+');
    var u := if signed then t[1..] else t;
    var prefixed := |u| >= 3 && u[0] == '0' && (u[1] == 'x' || u[1] == 'X') && IsHex(u[2]);
    var v := if prefixed then u[2..] else u;
    HexPrefixBound(v, 0, 1);
    Pow16Mono(|v|, 4);
    assert Pow16(4) == 65536;
  }
}
