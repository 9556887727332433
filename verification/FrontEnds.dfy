/** Command codes of cmd.h. */
module Kinds {
  const HANDSHAKE := 0
  const BROADCAST := 1
  const CHANGE_NAME := 2
  const SECRET := 3
  const CURRENT_USER := 4
  const DISCONNECT := 5
  const NOT_SUPPORTED := 255
}

/** strtok (ISO C11, section 7.24.5.8) with one delimiter, cutting a buffer in place. */
module StrTok {
  import opened CText

  function DropLeading(s: Text, c: char): (r: Text)
    ensures |r| <= |s| && r == s[|s| - |r|..]
    ensures r != [] ==> r[0] != c
    ensures forall i | 0 <= i < |s| - |r| :: s[i] == c
  {
    if s != [] && s[0] == c then DropLeading(s[1..], c) else s
  }

  /** What is left to scan after the first token of `s`, which does not start with `c`. */
  function AfterToken(s: Text, c: char): Text {
    var k := Find(s, c);
    if k < |s| then s[k + 1..] else []
  }

  /** The tokens successive calls return: the maximal runs without the delimiter. */
  function Tokens(s: Text, c: char): seq<Text>
    decreases |s|
  {
    var t := DropLeading(s, c);
    if t == [] then [] else [t[..Find(t, c)]] + Tokens(AfterToken(t, c), c)
  }

  predicate Clean(token: Text, c: char) {
    token != [] && c !in token
  }

  /** No token is empty or holds the delimiter. */
  lemma {:induction false} TokensHaveNoDelimiter(s: Text, c: char)
    ensures forall t | t in Tokens(s, c) :: Clean(t, c)
    decreases |s|
  {
    var t := DropLeading(s, c);
    if t != [] {
      TokensHaveNoDelimiter(AfterToken(t, c), c);
      FirstHasNoDelimiter(t, c);
    }
  }

  lemma FirstHasNoDelimiter(t: Text, c: char)
    requires t != [] && t[0] != c
    ensures Clean(t[..Find(t, c)], c)
  {
  }

  /** One line followed by the delimiter is one token. */
  lemma TokensCons(line: Text, rest: Text, c: char)
    requires line != [] && c !in line
    ensures Tokens(line + [c] + rest, c) == [line] + Tokens(rest, c)
  {
    var s := line + [c] + rest;
    assert DropLeading(s, c) == s;
    FindIs(s, c, |line|);
    assert s[|line| + 1..] == rest && s[..|line|] == line;
  }

  lemma TokensLast(line: Text, c: char)
    requires line != [] && c !in line
    ensures Tokens(line, c) == [line]
  {
    assert DropLeading(line, c) == line;
    FindIs(line, c, |line|);
    assert line[..|line|] == line;
  }

  /** The string at an offset of a terminated buffer. */
  ghost predicate HoldsAt(b: Text, at: nat, s: Text) {
    NulFree(s) && at + |s| < |b| && (forall i | 0 <= i < |s| :: b[at + i] == s[i]) && b[at + |s|] == NUL
  }

  lemma HoldsCStr(b: Text, at: nat, s: Text)
    requires HoldsAt(b, at, s)
    ensures CStr(b[at..]) == s
  {
    assert forall i | 0 <= i < |s| :: b[at..][i] == s[i];
    CStrIs(b[at..], s);
  }

  lemma HoldsRest(b: Text, at: nat, s: Text, d: nat)
    requires HoldsAt(b, at, s) && d <= |s|
    ensures HoldsAt(b, at + d, s[d..])
  {
    forall i | 0 <= i < |s| - d ensures b[at + d + i] == s[d..][i] {
      assert b[at + (d + i)] == s[d + i];
    }
  }

  lemma HoldsHead(b: Text, at: nat, s: Text)
    requires HoldsAt(b, at, s)
    ensures b[at] == if s == [] then NUL else s[0]
    ensures b[at] == NUL <==> s == []
  {
    assert s != [] ==> b[at + 0] == s[0];
  }

  method SkipDelimiters(buf: array<char>, at: nat, c: char, ghost s: Text) returns (start: nat)
    requires HoldsAt(buf[..], at, s) && c != NUL
    ensures start == at + |s| - |DropLeading(s, c)| && HoldsAt(buf[..], start, DropLeading(s, c))
  {
    ghost var b := buf[..];
    start := at;
    ghost var rest := s;
    HoldsHead(b, start, rest);
    while buf[start] == c
      invariant HoldsAt(b, start, rest) && start + |rest| == at + |s|
      invariant DropLeading(rest, c) == DropLeading(s, c)
      invariant buf[start] == if rest == [] then NUL else rest[0]
      decreases |rest|
    {
      HoldsRest(b, start, rest, 1);
      rest := rest[1..];
      start := start + 1;
      HoldsHead(b, start, rest);
    }
  }

  /** Ends the token at `start` with a NUL, unless the string ends there already. */
  method CutToken(buf: array<char>, start: nat, c: char, ghost t: Text) returns (next: nat)
    requires HoldsAt(buf[..], start, t) && c != NUL
    modifies buf
    ensures HoldsAt(buf[..], start, t[..Find(t, c)])
    ensures HoldsAt(buf[..], next, AfterToken(t, c))
    ensures next == start + |t| - |AfterToken(t, c)|
    ensures forall i | 0 <= i < buf.Length && i != start + Find(t, c) :: buf[i] == old(buf[i])
  {
    ghost var b := buf[..];
    next := start;
    while buf[next] != NUL && buf[next] != c
      invariant start <= next <= start + |t|
      invariant buf[..] == b
      invariant forall i | 0 <= i < next - start :: t[i] != c
      decreases start + |t| - next
    {
      assert b[start + (next - start)] == t[next - start];
      next := next + 1;
    }
    assert next < start + |t| ==> b[start + (next - start)] == t[next - start];
    FindIs(t, c, next - start);
    if buf[next] != NUL {
      buf[next] := NUL;
      next := next + 1;
      ghost var k := next - start;
      forall i | 0 <= i < |t| - k ensures buf[..][next + i] == t[k..][i] {
        assert b[start + (k + i)] == t[k + i];
      }
    }
    forall i | 0 <= i < Find(t, c) ensures buf[..][start + i] == t[i] {
      assert b[start + i] == t[i];
    }
  }

  /** One call of strtok: `at` is where the previous call stopped, `next` where this one does. */
  method NextToken(buf: array<char>, at: nat, c: char, ghost s: Text)
    returns (found: bool, start: nat, next: nat)
    requires HoldsAt(buf[..], at, s) && c != NUL
    modifies buf
    ensures found == (DropLeading(s, c) != [])
    ensures found ==>
      var t := DropLeading(s, c);
      && start == at + |s| - |t|
      && HoldsAt(buf[..], start, t[..Find(t, c)])
      && HoldsAt(buf[..], next, AfterToken(t, c))
      && next == start + |t| - |AfterToken(t, c)|
      && (forall i | 0 <= i < buf.Length && i != start + Find(t, c) :: buf[i] == old(buf[i]))
    ensures !found ==> buf[..] == old(buf[..])
  {
    ghost var t := DropLeading(s, c);
    start := SkipDelimiters(buf, at, c, s);
    HoldsHead(buf[..], start, t);
    assert buf[..][start] == buf[start];
    found, next := buf[start] != NUL, start;
    if found {
      next := CutToken(buf, start, c, t);
    }
  }

  method StringAt(buf: array<char>, at: nat, ghost s: Text) returns (t: Text)
    requires HoldsAt(buf[..], at, s)
    ensures t == s
  {
    HoldsCStr(buf[..], at, s);
    assert buf[at..] == buf[..][at..];
    t := CStr(buf[at..]);
  }

  ghost function FirstToken(s: Text, c: char): Text {
    var t := DropLeading(s, c);
    t[..Find(t, c)]
  }

  function AfterFirst(s: Text, c: char): (r: Text)
    ensures DropLeading(s, c) != [] ==> |r| < |s|
  {
    AfterToken(DropLeading(s, c), c)
  }

  /** What a call of strtok leaves: a token at `start` and the rest to scan at `next`, or nothing. */
  ghost predicate Scanned(b: Text, s: Text, c: char, found: bool, start: nat, next: nat) {
    && found == (DropLeading(s, c) != [])
    && (found ==> HoldsAt(b, start, FirstToken(s, c)) && HoldsAt(b, next, AfterFirst(s, c)))
  }

  method Scan(buf: array<char>, at: nat, c: char, ghost s: Text) returns (found: bool, start: nat, next: nat)
    requires HoldsAt(buf[..], at, s) && c != NUL
    modifies buf
    ensures Scanned(buf[..], s, c, found, start, next)
  {
    found, start, next := NextToken(buf, at, c, s);
  }

  /** The client's splitting loop: every token of the string at the start of the buffer, in order. */
  method Split(buf: array<char>, c: char, ghost s: Text) returns (tokens: seq<Text>)
    requires HoldsAt(buf[..], 0, s) && c != NUL
    modifies buf
    ensures tokens == Tokens(s, c)
  {
    tokens := [];
    ghost var rest := s;
    var found, start, next := Scan(buf, 0, c, rest);
    while found
      invariant Scanned(buf[..], rest, c, found, start, next)
      invariant Tokens(s, c) == tokens + Tokens(rest, c)
      decreases |rest|
    {
      var token := StringAt(buf, start, FirstToken(rest, c));
      TokensStep(tokens, rest, c);
      tokens := tokens + [token];
      rest := AfterFirst(rest, c);
      found, start, next := Scan(buf, next, c, rest);
    }
    TokensDone(rest, c);
  }

  lemma {:induction false} TokensFirst(s: Text, c: char)
    requires DropLeading(s, c) != []
    ensures Tokens(s, c) == [FirstToken(s, c)] + Tokens(AfterFirst(s, c), c)
  {
  }

  lemma TokensStep(before: seq<Text>, s: Text, c: char)
    requires DropLeading(s, c) != []
    ensures before + Tokens(s, c) == before + [FirstToken(s, c)] + Tokens(AfterFirst(s, c), c)
  {
    TokensFirst(s, c);
    Regroup(before, FirstToken(s, c), Tokens(AfterFirst(s, c), c));
  }

  lemma Regroup(before: seq<Text>, token: Text, after: seq<Text>)
    ensures before + ([token] + after) == before + [token] + after
  {
  }

  lemma TokensDone(s: Text, c: char)
    requires DropLeading(s, c) == []
    ensures Tokens(s, c) == []
  {
  }
}

/** client_comm.c: from a typed line to a message. */
module Console {
  import opened CText
  import opened Codec
  import opened StrTok
  import Kinds

  datatype CommandType = CommandType(kind: int, hasArgument: bool)

  function GetCommandType(buf: Text): CommandType {
    if buf == "/exit" then CommandType(Kinds.DISCONNECT, false)
    else if buf == "/status" then CommandType(Kinds.CURRENT_USER, false)
    else if buf == "/send" then CommandType(Kinds.SECRET, true)
    else if buf == "/name" then CommandType(Kinds.CHANGE_NAME, true)
    else CommandType(Kinds.NOT_SUPPORTED, false)
  }

  function Make(kind: int, text: Text): Message {
    Message(kind, |text|, text)
  }

  /** The command word of a line that starts with a slash. */
  function Word(line: Text): Text {
    line[..Find(line, ' ')]
  }

  function Parse(line: Text): Message
    requires line != []
  {
    if line[0] == '/' then
      var ct := GetCommandType(Word(line));
      if ct.kind == Kinds.NOT_SUPPORTED then Make(ct.kind, Word(line))
      else Make(ct.kind, if ct.hasArgument then AfterToken(line, ' ') else [])
    else
      Make(Kinds.BROADCAST, line)
  }

  /** Every line, by its first word: type and payload. */
  lemma ParseIs(line: Text)
    requires line != []
    ensures var k := Find(line, ' ');
            var word, rest := line[..k], if k < |line| then line[k + 1..] else [];
            Parse(line) ==
              if line[0] != '/' then Message(1, |line|, line)
              else if word == "/name" then Message(2, |rest|, rest)
              else if word == "/send" then Message(3, |rest|, rest)
              else if word == "/status" then Message(4, 0, [])
              else if word == "/exit" then Message(5, 0, [])
              else Message(255, |word|, word)
  {
  }

  /**
   * msg_packing_message: strtok cuts the buffer, and the argument is read one byte behind the word, which
   * for a bare word is a byte the caller cleared.
   */
  method MsgPackingMessage(buf: array<char>, ghost line: Text) returns (m: Message)
    requires line != [] && HoldsAt(buf[..], 0, line)
    requires |line| + 1 < buf.Length && buf[|line| + 1] == NUL
    modifies buf
    ensures m == Parse(line)
  {
    assert buf[..][0 + 0] == line[0];
    if buf[0] == '/' {
      assert DropLeading(line, ' ') == line;
      var found, start, next := NextToken(buf, 0, ' ', line);
      var word := StringAt(buf, 0, Word(line));
      var ct := GetCommandType(word);
      if ct.kind == -1 {
        assert false;
      }
      if ct.kind == Kinds.NOT_SUPPORTED {
        m := Make(ct.kind, word);
      } else {
        var text := [];
        if ct.hasArgument {
          assert HoldsAt(buf[..], |word| + 1, AfterToken(line, ' '));
          text := StringAt(buf, |word| + 1, AfterToken(line, ' '));
        }
        m := Make(ct.kind, text);
      }
    } else {
      var text := StringAt(buf, 0, line);
      m := Make(Kinds.BROADCAST, text);
    }
  }
}

/** index.tsx and client_type.ts: the browser's parser and encoder. */
module WebClient {
  import opened CText
  import opened Codec
  import Kinds

  datatype Command = Command(name: string, commandString: Text, code: int)

  const COMMANDS: seq<Command> := [
    Command("CMD_HANDSHAKE", "", Kinds.HANDSHAKE),
    Command("CMD_BROADCASE_MESSAGE", "", Kinds.BROADCAST),
    Command("CMD_CHANGE_NICKNAME", "name", Kinds.CHANGE_NAME),
    Command("CMD_SECRET_MESSAGE", "send", Kinds.SECRET),
    Command("CMD_STATUS", "status", Kinds.CURRENT_USER),
    Command("CMD_DISCONNECT", "exit", Kinds.DISCONNECT),
    Command("CMD_NOT_SUPPORTED", "", Kinds.NOT_SUPPORTED)]

  function UpperChar(c: char): char {
    if 'a' <= c <= 'z' then (c as int - 32) as char else c
  }

  /** toUpperCase of an ASCII string. */
  function Upper(s: Text): (u: Text)
    ensures |u| == |s| && forall i | 0 <= i < |s| :: u[i] == UpperChar(s[i])
  {
    seq(|s|, i requires 0 <= i < |s| => UpperChar(s[i]))
  }

  /** `forEach` does not stop at a match: the last match wins, the last command is the default. */
  function LastMatch(name: Text, n: nat): Command
    requires n <= |COMMANDS|
  {
    if n == 0 then COMMANDS[|COMMANDS| - 1]
    else if Upper(COMMANDS[n - 1].commandString) == Upper(name) then COMMANDS[n - 1]
    else LastMatch(name, n - 1)
  }

  function CommandCode(name: Text): int {
    LastMatch(name, |COMMANDS|).code
  }

  method GetCommandByString(name: Text) returns (cmd: Command)
    ensures cmd == LastMatch(name, |COMMANDS|)
  {
    cmd := COMMANDS[|COMMANDS| - 1];
    for i := 0 to |COMMANDS|
      invariant cmd == LastMatch(name, i)
    {
      if Upper(COMMANDS[i].commandString) == Upper(name) {
        cmd := COMMANDS[i];
      }
    }
  }

  method GetCommandByCode(code: int) returns (cmd: Command)
    ensures if exists i :: 0 <= i < |COMMANDS| && COMMANDS[i].code == code then cmd.code == code && cmd in COMMANDS
            else cmd == COMMANDS[|COMMANDS| - 1]
  {
    cmd := COMMANDS[|COMMANDS| - 1];
    ghost var hit := false;
    for i := 0 to |COMMANDS|
      invariant hit == exists k :: 0 <= k < i && COMMANDS[k].code == code
      invariant if hit then cmd.code == code && cmd in COMMANDS else cmd == COMMANDS[|COMMANDS| - 1]
    {
      if code == COMMANDS[i].code {
        cmd := COMMANDS[i];
        hit := true;
      }
    }
  }

  /** Two ASCII characters have the same upper case exactly when they differ in case only. */
  lemma UpperMatches(a: char, b: char)
    ensures UpperChar(a) == UpperChar(b) <==> SameLetter(a, b)
  {
  }

  /** The lookup, from the last command to the first. */
  lemma CodeOf(name: Text)
    ensures CommandCode(name) ==
      var up := Upper(name);
      if up == "EXIT" then 5
      else if up == "STATUS" then 4
      else if up == "SEND" then 3
      else if up == "NAME" then 2
      else 255
    ensures Upper("name") == "NAME" && Upper("send") == "SEND" && Upper("status") == "STATUS" && Upper("exit") == "EXIT"
  {
    var up := Upper(name);
    assert Upper("") == [] && Upper("name") == "NAME" && Upper("send") == "SEND";
    assert Upper("status") == "STATUS" && Upper("exit") == "EXIT";
    assert LastMatch(name, 7) == if up == [] then COMMANDS[6] else LastMatch(name, 6);
    assert LastMatch(name, 6) == if up == "EXIT" then COMMANDS[5] else LastMatch(name, 5);
    assert LastMatch(name, 5) == if up == "STATUS" then COMMANDS[4] else LastMatch(name, 4);
    assert LastMatch(name, 4) == if up == "SEND" then COMMANDS[3] else LastMatch(name, 3);
    assert LastMatch(name, 3) == if up == "NAME" then COMMANDS[2] else LastMatch(name, 2);
    assert LastMatch(name, 2) == if up == [] then COMMANDS[1] else LastMatch(name, 1);
    assert LastMatch(name, 1) == if up == [] then COMMANDS[0] else LastMatch(name, 0);
    assert |COMMANDS| == 7;
  }

  function Split(s: Text, c: char): (parts: seq<Text>)
    ensures |parts| >= 1 && (|parts| == 1 <==> c !in s)
  {
    var k := Find(s, c);
    if k == |s| then [s] else [s[..k]] + Split(s[k + 1..], c)
  }

  function Join(parts: seq<Text>, c: char): Text {
    if parts == [] then [] else if |parts| == 1 then parts[0] else parts[0] + [c] + Join(parts[1..], c)
  }

  lemma JoinCons(first: Text, tail: seq<Text>, c: char)
    requires tail != []
    ensures Join([first] + tail, c) == first + [c] + Join(tail, c)
  {
    assert ([first] + tail)[1..] == tail;
  }

  lemma {:induction false} JoinSplit(s: Text, c: char)
    ensures Join(Split(s, c), c) == s
    decreases |s|
  {
    var k := Find(s, c);
    if k < |s| {
      JoinSplit(s[k + 1..], c);
      SplitCons(s, c, k);
      CutAt(s, k);
      JoinCons(s[..k], Split(s[k + 1..], c), c);
    }
  }

  lemma SplitCons(s: Text, c: char, k: nat)
    requires k == Find(s, c) < |s|
    ensures Split(s, c) == [s[..k]] + Split(s[k + 1..], c)
  {
  }

  lemma CutAt(s: Text, k: nat)
    requires k < |s|
    ensures s == s[..k] + [s[k]] + s[k + 1..]
  {
  }

  function ConvertMessage(code: int, data: Text): Message {
    Message(code, |data|, data)
  }

  function Clamp(i: int, n: nat): (r: nat)
    ensures r <= n
  {
    if i < 0 then 0 else if i > n then n else i
  }

  /** String.substring (ECMA-262, section 22.1.3.24): ends are clamped, and swapped when out of order. */
  function Substring(s: Text, i: int, j: int): Text {
    var a, b := Clamp(i, |s|), Clamp(j, |s|);
    if a <= b then s[a..b] else s[b..a]
  }

  /** The command and argument of a line of several parts. */
  function SubmitParts(parts: seq<Text>): Message
    requires parts != []
  {
    // `delete` leaves a hole, which join prints as the empty string
    var data := Join(parts[0 := []], ' ');
    ConvertMessage(CommandCode(Substring(parts[0], 1, |parts[0]|)), Substring(data, 1, |data| - 1))
  }

  /** submitPackingMessage, up to the request it posts. */
  function Submit(message: Text): Option<Message> {
    if |message| <= 1 then None
    else if message[0] == '/' then
      var parts := Split(message, ' ');
      if |parts| <= 1 then
        Some(ConvertMessage(CommandCode(Substring(message, 1, |message| - 1)), []))
      else
        Some(SubmitParts(parts))
    else
      Some(ConvertMessage(Kinds.BROADCAST, Substring(message, 0, |message| - 1)))
  }

  /** Deleting the first part drops the first word and keeps its separator. */
  lemma JoinAfterDelete(s: Text, c: char)
    requires c in s
    ensures var parts := Split(s, c);
            && parts[0] == s[..Find(s, c)]
            && Join(parts[0 := []], c) == s[Find(s, c)..]
  {
    var k := Find(s, c);
    var tail := Split(s[k + 1..], c);
    JoinSplit(s[k + 1..], c);
    JoinCons([], tail, c);
    assert Split(s, c)[0 := []] == [[]] + tail;
    assert [] + [c] + s[k + 1..] == s[k..];
  }

  /** Splitting, deleting the first part and joining: the command's argument without its last character. */
  lemma SubmitWords(s: Text, k: nat)
    requires |s| >= 2 && s[0] == '/' && k == Find(s, ' ') < |s| - 1
    ensures Submit(s) == Some(ConvertMessage(CommandCode(s[..k][1..]), s[k + 1..|s| - 1]))
  {
    PartsMessage(s, k);
    assert |Split(s, ' ')| > 1;
  }

  lemma PartsMessage(s: Text, k: nat)
    requires |s| >= 2 && s[0] == '/' && k == Find(s, ' ') < |s| - 1
    ensures SubmitParts(Split(s, ' ')) == ConvertMessage(CommandCode(s[..k][1..]), s[k + 1..|s| - 1])
  {
    JoinAfterDelete(s, ' ');
    PartsSlices(Split(s, ' '), s, k);
  }

  lemma PartsSlices(parts: seq<Text>, s: Text, k: nat)
    requires 1 <= k < |s| - 1 && parts != [] && parts[0] == s[..k] && Join(parts[0 := []], ' ') == s[k..]
    ensures SubmitParts(parts) == ConvertMessage(CommandCode(s[..k][1..]), s[k + 1..|s| - 1])
  {
    assert s[k..][1..|s[k..]| - 1] == s[k + 1..|s| - 1];
    assert Substring(parts[0], 1, |parts[0]|) == s[..k][1..];
  }

  // ----- Encoder -----

  /** Number.toString(16). */
  function HexMin(n: nat): Text {
    if n < 16 then [HexDigit(n)] else HexMin(n / 16) + [HexDigit(n % 16)]
  }

  function PadStart(s: Text, width: nat, c: char): Text {
    if |s| >= width then s else seq(width - |s|, _ => c) + s
  }

  function ToStringOf(kind: nat, data: Text): Text {
    MAGIC + PadStart(HexMin(kind), 4, '0') + PadStart(HexMin(|data|), 4, '0') + data
  }

  /** Writing a string as 'binary' keeps the low byte of every code unit. */
  function Binary(s: Text): (b: Text)
    ensures |b| == |s| && forall i | 0 <= i < |s| :: b[i] == (s[i] as int % 256) as char
  {
    seq(|s|, i requires 0 <= i < |s| => (s[i] as int % 256) as char)
  }

  predicate Latin1(s: Text) {
    forall i | 0 <= i < |s| :: s[i] as int < 256
  }

  lemma {:induction false} HexNOfZero(d: nat)
    ensures HexN(0, d) == seq(d, _ => '0')
  {
    if d > 0 {
      HexNOfZero(d - 1);
    }
  }

  lemma {:induction false} PaddedHex(n: nat, d: nat)
    requires 1 <= d && n < Pow16(d)
    ensures |HexMin(n)| <= d && PadStart(HexMin(n), d, '0') == HexN(n, d)
  {
    if n < 16 {
      HexNOfZero(d - 1);
      assert n / 16 == 0 && n % 16 == n;
    } else {
      assert d > 1 by { assert Pow16(1) == 16; }
      PaddedHex(n / 16, d - 1);
    }
  }

  lemma {:induction false} WideHex(n: nat, d: nat)
    requires n >= Pow16(d)
    ensures |HexMin(n)| > d
  {
    if d > 0 {
      WideHex(n / 16, d - 1);
    }
  }

  lemma BinaryOfLatin1(s: Text)
    requires Latin1(s)
    ensures Binary(s) == s
  {
  }

  lemma PaddedHex4(n: nat)
    requires n < 65536
    ensures PadStart(HexMin(n), 4, '0') == Hex4(n)
  {
    assert Pow16(4) == 65536;
    PaddedHex(n, 4);
    assert n % 65536 == n;
  }

  lemma SameString(kind: nat, data: Text)
    requires kind < 65536 && |data| < 65536
    ensures ToStringOf(kind, data) == Encode(kind, data)
  {
    PaddedHex4(kind);
    PaddedHex4(|data|);
  }

  /** The browser's packet is the C packet, byte for byte, exactly when both fields fit in 16 bits. */
  lemma EncodersAgree(kind: nat, data: Text)
    requires Latin1(data)
    ensures Binary(ToStringOf(kind, data)) == Encode(kind, data) <==> kind < 65536 && |data| < 65536
  {
    assert Pow16(4) == 65536;
    if kind < 65536 && |data| < 65536 {
      SameString(kind, data);
      HexLatin1(kind);
      HexLatin1(|data|);
      assert Latin1(Header(kind, |data|));
      BinaryOfLatin1(Encode(kind, data));
    } else {
      if kind >= 65536 {
        WideHex(kind, 4);
      } else {
        WideHex(|data|, 4);
      }
      assert |ToStringOf(kind, data)| > |Encode(kind, data)|;
    }
  }

  lemma HexLatin1(n: nat)
    ensures Latin1(Hex4(n))
  {
  }
}

/** The console client and the browser on the same line. */
module FrontEnds {
  import opened CText
  import opened Codec
  import opened StrTok
  import Console
  import WebClient
  import Kinds

  predicate Ascii(s: Text) {
    forall i | 0 <= i < |s| :: 0 < s[i] as int < 128
  }

  /** What the console sends for a line: it asks again for an empty one. */
  function ConsoleSends(line: Text): Option<Message> {
    if line == [] then None else Some(Console.Parse(line))
  }

  predicate KnownWord(word: Text) {
    word in {"/name", "/send", "/status", "/exit"}
  }

  /** The two parsers agree on a line exactly here. */
  predicate Agreeable(line: Text) {
    || line == [] || line[0] != '/'
    || (var word := Console.Word(line);
        || word == "/name" || word == "/send"
        || (word in {"/status", "/exit"} && (line == word || line == word + " "))
        || (WebClient.CommandCode(word[1..]) == Kinds.NOT_SUPPORTED && line == word + " " + word))
  }

  lemma SubmitBare(line: Text)
    requires line != [] && line[0] == '/' && '\n' !in line && ' ' !in line
    ensures WebClient.Submit(line + "\n") ==
      Some(WebClient.ConvertMessage(WebClient.CommandCode(line[1..]), []))
  {
    var s := line + "\n";
    assert ' ' !in s;
    assert s[1..|s| - 1] == line[1..];
  }

  lemma SubmitArgument(line: Text, k: nat)
    requires line != [] && line[0] == '/' && '\n' !in line && k == Find(line, ' ') < |line|
    ensures WebClient.Submit(line + "\n") ==
      Some(WebClient.ConvertMessage(WebClient.CommandCode(line[..k][1..]), line[k + 1..]))
  {
    var s := line + "\n";
    FindIs(s, ' ', k);
    WebClient.SubmitWords(s, k);
    assert s[..k] == line[..k] && s[k + 1..|s| - 1] == line[k + 1..];
  }

  lemma SubmitSlash(line: Text)
    requires line != [] && line[0] == '/' && '\n' !in line
    ensures WebClient.Submit(line + "\n") ==
      Some(WebClient.ConvertMessage(WebClient.CommandCode(Console.Word(line)[1..]), AfterToken(line, ' ')))
  {
    var k := Find(line, ' ');
    if k < |line| {
      SubmitArgument(line, k);
    } else {
      assert line[..k] == line;
      SubmitBare(line);
    }
  }

  lemma WordCodes(word: Text)
    requires word != [] && word[0] == '/'
    ensures KnownWord(word) ==> WebClient.CommandCode(word[1..]) == Console.GetCommandType(word).kind
  {
    WebClient.CodeOf(word[1..]);
    if KnownWord(word) {
      assert word[1..] in {"name", "send", "status", "exit"};
    }
  }

  /** The console's message for a slash line, by its word and its argument. */
  function ConsoleSlash(word: Text, rest: Text): Message {
    if !KnownWord(word) then Console.Make(Kinds.NOT_SUPPORTED, word)
    else Console.Make(Console.GetCommandType(word).kind, if word in {"/name", "/send"} then rest else [])
  }

  lemma ParseSlash(line: Text)
    requires line != [] && line[0] == '/'
    ensures Console.Parse(line) == ConsoleSlash(Console.Word(line), AfterToken(line, ' '))
  {
  }

  /** The two messages agree by word, argument and the browser's code for the word. */
  lemma SlashAgree(word: Text, rest: Text, code: int)
    requires word != [] && (KnownWord(word) ==> code == Console.GetCommandType(word).kind)
    ensures ConsoleSlash(word, rest) == WebClient.ConvertMessage(code, rest) <==>
      (|| word in {"/name", "/send"} || (word in {"/status", "/exit"} && rest == [])
       || (!KnownWord(word) && code == Kinds.NOT_SUPPORTED && rest == word))
  {
  }

  /** Same type and same payload, exactly on the agreeable lines. */
  lemma FrontEndsAgree(line: Text)
    requires Ascii(line) && '\n' !in line
    ensures ConsoleSends(line) == WebClient.Submit(line + "\n") <==> Agreeable(line)
  {
    var s := line + "\n";
    if line != [] && line[0] != '/' {
      assert s[..|s| - 1] == line;
    } else if line != [] {
      var word, rest := Console.Word(line), AfterToken(line, ' ');
      SlashLine(line);
      SubmitSlash(line);
      WordCodes(word);
      ParseSlash(line);
      SlashAgree(word, rest, WebClient.CommandCode(word[1..]));
      SlashAgreeable(line);
    }
  }

  /** A slash line is its word and, after one space, its argument. */
  lemma SlashLine(line: Text)
    requires line != [] && line[0] == '/'
    ensures var word, rest := Console.Word(line), AfterToken(line, ' ');
            && word != [] && word[0] == '/'
            && (line == word <==> ' ' !in line)
            && (line == word ==> rest == [])
            && (line != word ==> line == word + " " + rest)
            && (line == word + " " ==> rest == [])
            && (forall x: Text :: line == word + " " + x ==> x == rest)
  {
    var k := Find(line, ' ');
    var word := Console.Word(line);
    if k < |line| {
      assert line == word + " " + line[k + 1..];
      forall x: Text | line == word + " " + x ensures x == line[k + 1..] {
        assert x == line[|word| + 1..];
      }
    } else {
      assert line == word;
    }
  }

  lemma SlashAgreeable(line: Text)
    requires line != [] && line[0] == '/'
    ensures var word, rest := Console.Word(line), AfterToken(line, ' ');
      Agreeable(line) <==>
      (|| word in {"/name", "/send"} || (word in {"/status", "/exit"} && rest == [])
       || (!KnownWord(word) && WebClient.CommandCode(word[1..]) == Kinds.NOT_SUPPORTED && rest == word))
  {
    SlashLine(line);
    WordCodes(Console.Word(line));
  }
}
