/** C strings.  A `char` buffer of the source is a `Text`; its string is what precedes the first NUL. */
module CText {
  type Text = seq<char>

  const NUL: char := '\0'

  datatype Option<+T> = None | Some(value: T)

  /** The first position of `c` in `s`, or `|s|`: what strchr, strsep, strtok and strlen look for. */
  function Find(s: Text, c: char): (r: nat)
    ensures r <= |s|
    ensures forall i | 0 <= i < r :: s[i] != c
    ensures r < |s| ==> s[r] == c
  {
    FindFrom(s, c, 0)
  }

  function FindFrom(s: Text, c: char, k: nat): (r: nat)
    requires k <= |s|
    ensures k <= r <= |s|
    ensures forall i | k <= i < r :: s[i] != c
    ensures r < |s| ==> s[r] == c
    decreases |s| - k
  {
    if k == |s| || s[k] == c then k else FindFrom(s, c, k + 1)
  }

  predicate NulFree(s: Text) {
    forall i | 0 <= i < |s| :: s[i] != NUL
  }

  /** The C string held by a buffer. */
  function CStr(b: Text): Text {
    b[..Find(b, NUL)]
  }

  lemma FindIs(s: Text, c: char, k: nat)
    requires k <= |s|
    requires forall i | 0 <= i < k :: s[i] != c
    requires k < |s| ==> s[k] == c
    ensures Find(s, c) == k
  {
    if Find(s, c) < k {
      assert false;
    }
  }

  lemma CStrIs(b: Text, s: Text)
    requires NulFree(s) && s <= b && (|s| < |b| ==> b[|s|] == NUL)
    ensures CStr(b) == s
  {
    FindIs(b, NUL, |s|);
  }

  lemma CStrIsNulFree(b: Text)
    ensures NulFree(CStr(b))
  {
  }

  function Zeros(n: nat): (z: Text)
    ensures |z| == n && forall i | 0 <= i < n :: z[i] == NUL
  {
    seq(n, _ => NUL)
  }

  /** A zeroed buffer of `size` bytes after a read delivered the bytes `w`. */
  function Received(w: Text, size: nat): (b: Text)
    requires |w| <= size
    ensures |b| == size && w <= b
  {
    w + Zeros(size - |w|)
  }

  /** tolower in the C locale. */
  function Lower(c: char): char {
    if 'A' <= c <= 'Z' then (c as int + 32) as char else c
  }

  /** The same character, or the two cases of one of the 26 letters. */
  predicate SameLetter(a: char, b: char) {
    || a == b
    || ('A' <= a <= 'Z' && b as int == a as int + 32)
    || ('A' <= b <= 'Z' && a as int == b as int + 32)
  }

  lemma LowerMatches(a: char, b: char)
    ensures Lower(a) == Lower(b) <==> SameLetter(a, b)
  {
  }

  /** Two strings fold alike exactly when they differ in the case of ASCII letters only. */
  lemma FoldMatches(s: Text, t: Text)
    ensures Fold(s) == Fold(t) <==> |s| == |t| && forall i | 0 <= i < |s| :: SameLetter(s[i], t[i])
  {
    if |s| == |t| {
      forall i | 0 <= i < |s| ensures Fold(s)[i] == Fold(t)[i] <==> SameLetter(s[i], t[i]) {
        LowerMatches(s[i], t[i]);
      }
    }
  }

  /** strcasecmp(a, b) == 0 exactly when Fold(a) == Fold(b). */
  function Fold(s: Text): (f: Text)
    ensures |f| == |s| && forall i | 0 <= i < |s| :: f[i] == Lower(s[i])
  {
    seq(|s|, i requires 0 <= i < |s| => Lower(s[i]))
  }

  /** The `%d` conversion of a non-negative number. */
  function Dec(n: nat): Text {
    if n < 10 then [(48 + n) as char] else Dec(n / 10) + [(48 + n % 10) as char]
  }

  /** What a reader makes of decimal digits, from the left. */
  function Reading(s: Text, acc: nat): nat
    requires forall i | 0 <= i < |s| :: '0' <= s[i] <= '9'
  {
    if s == [] then acc else Reading(s[1..], 10 * acc + (s[0] as int - 48))
  }

  lemma {:induction false} ReadingSnoc(s: Text, c: char, acc: nat)
    requires '0' <= c <= '9' && forall i | 0 <= i < |s| :: '0' <= s[i] <= '9'
    ensures Reading(s + [c], acc) == 10 * Reading(s, acc) + (c as int - 48)
    decreases |s|
  {
    if s == [] {
      assert ([] + [c])[1..] == [];
    } else {
      assert (s + [c])[1..] == s[1..] + [c];
      ReadingSnoc(s[1..], c, 10 * acc + (s[0] as int - 48));
    }
  }

  /** The digits of a number read as that number, without a leading zero. */
  lemma {:induction false} DecReads(n: nat)
    ensures forall i | 0 <= i < |Dec(n)| :: '0' <= Dec(n)[i] <= '9'
    ensures Reading(Dec(n), 0) == n
    ensures |Dec(n)| >= 1 && (Dec(n)[0] == '0' <==> n == 0)
  {
    DecDigits(n);
    if n < 10 {
      assert Dec(n)[1..] == [];
    } else {
      DecDigits(n / 10);
      DecReads(n / 10);
      ReadingSnoc(Dec(n / 10), (48 + n % 10) as char, 0);
    }
  }

  lemma {:induction false} DecDigits(n: nat)
    ensures |Dec(n)| >= 1 && forall i | 0 <= i < |Dec(n)| :: '0' <= Dec(n)[i] <= '9'
    ensures n < 100 ==> |Dec(n)| <= 2
  {
    if n >= 10 {
      DecDigits(n / 10);
    }
  }

  /** A decimal numeral for `n`, without a leading zero. */
  ghost predicate Numeral(s: Text, n: nat) {
    && s != [] && (forall i | 0 <= i < |s| :: '0' <= s[i] <= '9')
    && Reading(s, 0) == n && (s[0] == '0' ==> |s| == 1)
  }

  lemma DecIsNumeral(n: nat)
    ensures Numeral(Dec(n), n)
  {
    DecReads(n);
  }

  /** The bytes of a source literal: the UTF-8 form of one code point (RFC 3629, section 3). */
  function Utf8Char(c: char): (b: Text)
    ensures 1 <= |b| <= 4
    ensures c as int < 128 ==> b == [c]
    ensures c as int >= 128 ==> forall i | 0 <= i < |b| :: b[i] as int >= 128
  {
    var n := c as int;
    if n < 0x80 then [c]
    else if n < 0x800 then [(0xC0 + n / 64) as char, (0x80 + n % 64) as char]
    else if n < 0x10000 then
      [(0xE0 + n / 4096) as char, (0x80 + n / 64 % 64) as char, (0x80 + n % 64) as char]
    else
      [(0xF0 + n / 262144) as char, (0x80 + n / 4096 % 64) as char,
       (0x80 + n / 64 % 64) as char, (0x80 + n % 64) as char]
  }

  function Utf8(s: string): Text {
    if s == [] then [] else Utf8Char(s[0]) + Utf8(s[1..])
  }

  /** The code point a byte sequence starts with, and the bytes it takes (RFC 3629, section 3). */
  function CodePoint(b: Text): (r: (int, nat))
    requires b != []
    ensures 1 <= r.1
  {
    var n := b[0] as int;
    if n >= 240 && |b| >= 4 then
      (n % 8 * 262144 + b[1] as int % 64 * 4096 + b[2] as int % 64 * 64 + b[3] as int % 64, 4)
    else if n >= 224 && |b| >= 3 then (n % 16 * 4096 + b[1] as int % 64 * 64 + b[2] as int % 64, 3)
    else if n >= 192 && |b| >= 2 then (n % 32 * 64 + b[1] as int % 64, 2)
    else (n, 1)
  }

  function CodePoints(b: Text): seq<int> {
    if b == [] then []
    else
      var (c, n) := CodePoint(b);
      [c] + CodePoints(if n <= |b| then b[n..] else [])
  }

  /** The digits of a code point in base 64. */
  lemma Base64(n: nat)
    ensures n % 64 < 64 && n / 64 % 64 < 64 && n / 4096 % 64 < 64
    ensures n == n / 64 * 64 + n % 64
    ensures n == n / 4096 * 4096 + n / 64 % 64 * 64 + n % 64
    ensures n == n / 262144 * 262144 + n / 4096 % 64 * 4096 + n / 64 % 64 * 64 + n % 64
  {
    assert n / 4096 == n / 64 / 64 && n / 262144 == n / 4096 / 64;
  }

  lemma TwoBytesRead(a: nat, b: nat, w: Text)
    requires a < 32 && b < 64 && |w| >= 2 && w[0] as int == 0xC0 + a && w[1] as int == 0x80 + b
    ensures CodePoint(w) == (a * 64 + b, 2)
  {
  }

  lemma ThreeBytesRead(a: nat, b: nat, c: nat, w: Text)
    requires a < 16 && b < 64 && c < 64
    requires |w| >= 3 && w[0] as int == 0xE0 + a && w[1] as int == 0x80 + b && w[2] as int == 0x80 + c
    ensures CodePoint(w) == (a * 4096 + b * 64 + c, 3)
  {
  }

  lemma FourBytesRead(a: nat, b: nat, c: nat, d: nat, w: Text)
    requires a < 8 && b < 64 && c < 64 && d < 64
    requires |w| >= 4 && w[0] as int == 0xF0 + a && w[1] as int == 0x80 + b
    requires w[2] as int == 0x80 + c && w[3] as int == 0x80 + d
    ensures CodePoint(w) == (a * 262144 + b * 4096 + c * 64 + d, 4)
  {
  }

  lemma Utf8CharReads(c: char, rest: Text)
    ensures CodePoint(Utf8Char(c) + rest) == (c as int, |Utf8Char(c)|)
  {
    var n := c as int;
    var w := Utf8Char(c) + rest;
    Base64(n);
    if n < 0x80 {
    } else if n < 0x800 {
      TwoBytesRead(n / 64, n % 64, w);
    } else if n < 0x10000 {
      ThreeBytesRead(n / 4096, n / 64 % 64, n % 64, w);
    } else {
      FourBytesRead(n / 262144, n / 4096 % 64, n / 64 % 64, n % 64, w);
    }
  }

  function Points(s: string): seq<int> {
    seq(|s|, i requires 0 <= i < |s| => s[i] as int)
  }

  /** A UTF-8 decoder reads the sentence `s` off the bytes `b`. */
  ghost predicate Says(b: Text, s: string) {
    CodePoints(b) == Points(s)
  }

  /** A decoder reads the code points of a literal back from its bytes. */
  lemma {:induction false} Utf8Reads(s: string)
    ensures CodePoints(Utf8(s)) == Points(s)
  {
    if s != [] {
      var head, rest := Utf8Char(s[0]), Utf8(s[1..]);
      Utf8CharReads(s[0], rest);
      Utf8Reads(s[1..]);
      assert (head + rest)[|head|..] == rest;
    }
  }

  /** An ASCII byte occurs in the UTF-8 form only where the literal has that character. */
  lemma {:induction false} Utf8Ascii(s: string, c: char)
    requires c as int < 128 && c !in s
    ensures c !in Utf8(s)
  {
    if s != [] {
      Utf8Ascii(s[1..], c);
    }
  }

  lemma {:induction false} Utf8Size(s: string)
    ensures |s| <= |Utf8(s)| <= 4 * |s|
  {
    if s != [] {
      Utf8Size(s[1..]);
    }
  }

  /** The C string a source literal stands for. */
  function Literal(s: string): Text {
    CStr(Utf8(s))
  }

  lemma LiteralText(s: string)
    ensures NulFree(Literal(s)) && |Literal(s)| <= 4 * |s|
    ensures forall c: char | c as int < 128 && c !in s :: c !in Literal(s)
  {
    CStrIsNulFree(Utf8(s));
    Utf8Size(s);
    forall c: char | c as int < 128 && c !in s ensures c !in Literal(s) {
      Utf8Ascii(s, c);
    }
  }

  /** The bytes of a literal without NUL say that literal. */
  lemma LiteralSays(s: string)
    requires NUL !in s
    ensures Literal(s) == Utf8(s) && Says(Literal(s), s)
  {
    Utf8Ascii(s, NUL);
    CStrIs(Utf8(s), Utf8(s));
    Utf8Reads(s);
  }

  lemma {:induction false} Utf8Append(s: string, t: string)
    ensures Utf8(s + t) == Utf8(s) + Utf8(t)
  {
    if s == [] {
      assert s + t == t;
    } else {
      assert (s + t)[1..] == s[1..] + t;
      Utf8Append(s[1..], t);
    }
  }

  lemma {:induction false} Utf8OfAscii(s: string)
    requires forall i | 0 <= i < |s| :: 0 < s[i] as int < 128
    ensures Utf8(s) == s && NulFree(s)
  {
    if s != [] {
      Utf8OfAscii(s[1..]);
    }
  }

  lemma {:induction false} Utf8OfHangul(s: string)
    requires forall i | 0 <= i < |s| :: 0x800 <= s[i] as int < 0x10000
    ensures |Utf8(s)| == 3 * |s| && NulFree(Utf8(s))
  {
    if s != [] {
      Utf8OfHangul(s[1..]);
    }
  }

  /** The size of a literal with Hangul between two ASCII parts. */
  lemma MixedLiteral(s: string, a: string, b: string, c: string)
    requires s == a + b + c
    requires forall i | 0 <= i < |a| :: 0 < a[i] as int < 128
    requires forall i | 0 <= i < |b| :: 0x800 <= b[i] as int < 0x10000
    requires forall i | 0 <= i < |c| :: 0 < c[i] as int < 128
    ensures |Literal(s)| == |a| + 3 * |b| + |c|
  {
    Utf8Append(a + b, c);
    Utf8Append(a, b);
    Utf8OfAscii(a);
    Utf8OfHangul(b);
    Utf8OfAscii(c);
    assert NulFree(Utf8(s));
    CStrIs(Utf8(s), Utf8(s));
  }
}
