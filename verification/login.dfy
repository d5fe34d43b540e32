/**
 * The credential check of server/src/entitites/user/loginUser.ts and the access
 * token it answers: `Buffer.from(user + ":" + password).toString('base64')`,
 * that is the UTF-8 bytes of the string in the base 64 encoding of section 4
 * of RFC 4648, with padding.
 */
module Login {
  import opened Options
  import opened Results
  import opened Errors

  type Byte = x: int | 0 <= x < 256

  // ---------------------------------------------------------------------------
  // UTF-8 (section 3 of RFC 3629)

  /** A byte that continues a multi-byte sequence carries 6 payload bits. */
  function Cont(n: int): Byte
    requires n >= 0
  {
    0x80 + n % 64
  }

  /** The UTF-8 bytes of one code point: one to four bytes by range. */
  function EncodeChar(c: char): (r: seq<Byte>)
    ensures 1 <= |r| <= 4
  {
    var n := c as int;
    if n < 0x80 then [n]
    else if n < 0x800 then [0xC0 + n / 64, Cont(n)]
    else if n < 0x10000 then [0xE0 + n / 4096, Cont(n / 64), Cont(n)]
    else [0xF0 + n / 262144, Cont(n / 4096), Cont(n / 64), Cont(n)]
  }

  function Utf8(s: string): (r: seq<Byte>)
    ensures |s| <= |r| <= 4 * |s|
  {
    if |s| == 0 then [] else EncodeChar(s[0]) + Utf8(s[1..])
  }

  /** A code point Dafny's `char` can hold: not a surrogate, at most U+10FFFF. */
  predicate Scalar(n: int) {
    (0 <= n < 0xD800) || (0xE000 <= n < 0x110000)
  }

  /** The number of bytes a sequence takes, read from its lead byte. */
  function SequenceLength(lead: Byte): (k: nat)
    ensures 1 <= k <= 4
  {
    if lead < 0x80 then 1 else if lead < 0xE0 then 2 else if lead < 0xF0 then 3 else 4
  }

  /** The code point of one sequence, read from its lead and continuation bytes. */
  function CodePoint(b: seq<Byte>): int
    requires |b| > 0 && |b| == SequenceLength(b[0])
  {
    if |b| == 1 then b[0]
    else if |b| == 2 then (b[0] as int - 0xC0) * 64 + (b[1] as int - 0x80)
    else if |b| == 3 then (b[0] as int - 0xE0) * 4096 + (b[1] as int - 0x80) * 64 + (b[2] as int - 0x80)
    else (b[0] as int - 0xF0) * 262144 + (b[1] as int - 0x80) * 4096 + (b[2] as int - 0x80) * 64 + (b[3] as int - 0x80)
  }

  /** Decoding UTF-8; `None` for a truncated sequence or a value that is no code point. */
  function DecodeUtf8(b: seq<Byte>): (r: Option<string>)
    decreases |b|
  {
    if |b| == 0 then Some([])
    else
      var k := SequenceLength(b[0]);
      if |b| < k then None
      else
        var n := CodePoint(b[..k]);
        if !Scalar(n) then None
        else match DecodeUtf8(b[k..])
          case None => None
          case Some(rest) => Some([n as char] + rest)
  }

  /** Decoding one encoded code point gives it back. */
  lemma DecodeEncodeChar(c: char)
    ensures var e := EncodeChar(c);
            |e| == SequenceLength(e[0]) && CodePoint(e) == c as int && Scalar(c as int)
  {
    var n := c as int;
    if n < 0x80 {
    } else if n < 0x800 {
      TwoBytes(n);
    } else if n < 0x10000 {
      ThreeBytes(n);
    } else {
      FourBytes(n);
    }
  }

  /** The lead byte and payload of a two-byte sequence. */
  lemma TwoBytes(n: int)
    requires 0x80 <= n < 0x800
    ensures 0xC0 <= 0xC0 + n / 64 < 0xE0
    ensures n == (n / 64) * 64 + n % 64
  {
  }

  /** The lead byte and payload of a three-byte sequence. */
  lemma ThreeBytes(n: int)
    requires 0x800 <= n < 0x10000
    ensures 0xE0 <= 0xE0 + n / 4096 < 0xF0
    ensures n == (n / 4096) * 4096 + ((n / 64) % 64) * 64 + n % 64
  {
    var m := n / 64;
    assert n == m * 64 + n % 64;
    assert m == (m / 64) * 64 + m % 64;
    assert m / 64 == n / 4096;
  }

  /** The lead byte and payload of a four-byte sequence. */
  lemma FourBytes(n: int)
    requires 0x10000 <= n < 0x110000
    ensures 0xF0 <= 0xF0 + n / 262144 < 0x100
    ensures n == (n / 262144) * 262144 + ((n / 4096) % 64) * 4096 + ((n / 64) % 64) * 64 + n % 64
  {
    var m := n / 64;
    var k := m / 64;
    assert n == m * 64 + n % 64;
    assert m == k * 64 + m % 64;
    assert k == (k / 64) * 64 + k % 64;
    assert k == n / 4096;
    assert k / 64 == n / 262144;
  }

  /** UTF-8 decoding inverts UTF-8 encoding. */
  lemma {:induction false} Utf8RoundTrip(s: string)
    ensures DecodeUtf8(Utf8(s)) == Some(s)
    decreases |s|
  {
    if |s| > 0 {
      var e := EncodeChar(s[0]);
      var b := Utf8(s);
      DecodeEncodeChar(s[0]);
      assert b == e + Utf8(s[1..]);
      assert b[..|e|] == e;
      assert b[|e|..] == Utf8(s[1..]);
      Utf8RoundTrip(s[1..]);
      assert [(s[0] as int) as char] + s[1..] == s;
    }
  }

  // ---------------------------------------------------------------------------
  // Base 64 (section 4 of RFC 4648)

  /** The 64-character alphabet of Table 1: A-Z, a-z, 0-9, '+', '/'. */
  function Letter(v: int): (c: char)
    requires 0 <= v < 64
  {
    if v < 26 then ('A' as int + v) as char
    else if v < 52 then ('a' as int + v - 26) as char
    else if v < 62 then ('0' as int + v - 52) as char
    else if v == 62 then '+' else '/'
  }

  /** The value of an alphabet letter; `None` for anything else, the pad included. */
  function Value(c: char): (r: Option<int>)
    ensures r.Some? ==> 0 <= r.value < 64 && Letter(r.value) == c
  {
    if 'A' <= c <= 'Z' then Some(c as int - 'A' as int)
    else if 'a' <= c <= 'z' then Some(c as int - 'a' as int + 26)
    else if '0' <= c <= '9' then Some(c as int - '0' as int + 52)
    else if c == '+' then Some(62)
    else if c == '/' then Some(63)
    else None
  }

  lemma ValueOfLetter(v: int)
    requires 0 <= v < 64
    ensures Value(Letter(v)) == Some(v)
  {
  }

  const Pad := '='

  /** Three bytes as four letters. */
  function EncodeGroup(b0: Byte, b1: Byte, b2: Byte): seq<char> {
    [Letter(b0 / 4), Letter((b0 % 4) * 16 + b1 / 16), Letter((b1 % 16) * 4 + b2 / 64), Letter(b2 % 64)]
  }

  /** The encoding: full groups of three bytes, then one or two trailing bytes padded to four characters. */
  function Encode(b: seq<Byte>): (r: seq<char>)
    ensures |r| == 4 * ((|b| + 2) / 3)
    decreases |b|
  {
    if |b| == 0 then []
    else if |b| == 1 then [Letter(b[0] / 4), Letter((b[0] % 4) * 16), Pad, Pad]
    else if |b| == 2 then [Letter(b[0] / 4), Letter((b[0] % 4) * 16 + b[1] / 16), Letter((b[1] % 16) * 4), Pad]
    else EncodeGroup(b[0], b[1], b[2]) + Encode(b[3..])
  }

  /** Four values back to three bytes. */
  function Bytes3(v0: int, v1: int, v2: int, v3: int): seq<Byte>
    requires 0 <= v0 < 64 && 0 <= v1 < 64 && 0 <= v2 < 64 && 0 <= v3 < 64
  {
    [v0 * 4 + v1 / 16, (v1 % 16) * 16 + v2 / 4, (v2 % 4) * 64 + v3]
  }

  /** Decoding: groups of four; padding only in the last group. */
  function Decode(s: seq<char>): (r: Option<seq<Byte>>)
    decreases |s|
  {
    if |s| == 0 then Some([])
    else if |s| < 4 then None
    else
      var v0, v1 := Value(s[0]), Value(s[1]);
      if v0.None? || v1.None? then None
      else if |s| == 4 && s[2] == Pad && s[3] == Pad then Some([v0.value * 4 + v1.value / 16])
      else
        var v2 := Value(s[2]);
        if v2.None? then None
        else if |s| == 4 && s[3] == Pad then Some([v0.value * 4 + v1.value / 16, (v1.value % 16) * 16 + v2.value / 4])
        else
          var v3 := Value(s[3]);
          if v3.None? then None
          else match Decode(s[4..])
            case None => None
            case Some(rest) => Some(Bytes3(v0.value, v1.value, v2.value, v3.value) + rest)
  }

  lemma GroupRoundTrip(b0: Byte, b1: Byte, b2: Byte)
    ensures Bytes3(b0 / 4, (b0 % 4) * 16 + b1 / 16, (b1 % 16) * 4 + b2 / 64, b2 % 64) == [b0, b1, b2]
  {
  }

  lemma LetterIsNotPad(v: int)
    requires 0 <= v < 64
    ensures Letter(v) != Pad && Value(Letter(v)) == Some(v)
  {
    ValueOfLetter(v);
  }

  /** One trailing byte: two letters and two pads. */
  lemma DecodeOne(b0: Byte)
    ensures Decode(Encode([b0])) == Some([b0])
  {
    LetterIsNotPad(b0 / 4);
    LetterIsNotPad((b0 % 4) * 16);
  }

  /** Two trailing bytes: three letters and a pad. */
  lemma DecodeTwo(b0: Byte, b1: Byte)
    ensures Decode(Encode([b0, b1])) == Some([b0, b1])
  {
    var v0, v1, v2 := b0 / 4, (b0 % 4) * 16 + b1 / 16, (b1 % 16) * 4;
    LetterIsNotPad(v0);
    LetterIsNotPad(v1);
    LetterIsNotPad(v2);
    var s := Encode([b0, b1]);
    assert s == [Letter(v0), Letter(v1), Letter(v2), Pad];
    assert v1 % 16 == b1 / 16 && v1 / 16 == b0 % 4;
    assert v0 * 4 + v1 / 16 == b0;
    assert (v1 % 16) * 16 + v2 / 4 == b1;
  }

  /** A full group decodes to its three bytes ahead of whatever follows. */
  lemma DecodeGroupThen(b0: Byte, b1: Byte, b2: Byte, t: seq<char>)
    ensures Decode(EncodeGroup(b0, b1, b2) + t) == if Decode(t).Some? then Some([b0, b1, b2] + Decode(t).value) else None
  {
    var v0, v1, v2, v3 := b0 / 4, (b0 % 4) * 16 + b1 / 16, (b1 % 16) * 4 + b2 / 64, b2 % 64;
    LetterIsNotPad(v0);
    LetterIsNotPad(v1);
    LetterIsNotPad(v2);
    LetterIsNotPad(v3);
    var s := EncodeGroup(b0, b1, b2) + t;
    assert s[0] == Letter(v0) && s[1] == Letter(v1) && s[2] == Letter(v2) && s[3] == Letter(v3);
    assert s[4..] == t;
    GroupRoundTrip(b0, b1, b2);
  }

  /** Decoding inverts the encoding, for every byte sequence. */
  lemma {:induction false} DecodeEncode(b: seq<Byte>)
    ensures Decode(Encode(b)) == Some(b)
    decreases |b|
  {
    if |b| == 1 {
      DecodeOne(b[0]);
      assert [b[0]] == b;
    } else if |b| == 2 {
      DecodeTwo(b[0], b[1]);
      assert [b[0], b[1]] == b;
    } else if |b| >= 3 {
      DecodeEncode(b[3..]);
      DecodeGroupThen(b[0], b[1], b[2], Encode(b[3..]));
      assert [b[0], b[1], b[2]] + b[3..] == b;
    }
  }

  // ---------------------------------------------------------------------------
  // The credential check

  datatype Credentials = Credentials(username: string, password: string)

  const InvalidCredentials := "Invalid credentials"

  /** The token for a pair: the base 64 form of the UTF-8 bytes of `username:password`. */
  function Token(given: Credentials): string {
    Encode(Utf8(given.username + ":" + given.password))
  }

  /**
   * `loginUser`: the token when both values equal the configured ones exactly
   * (no trimming, no case folding), otherwise 401.
   */
  function LoginUser(configured: Credentials, given: Credentials): (r: Result<ServerError, string>)
    ensures r.IsSuccess() <==> given.username == configured.username && given.password == configured.password
    ensures r.IsFailure() ==> r.error == Plain(401, InvalidCredentials)
  {
    if given.username == configured.username && given.password == configured.password then Success(Token(given))
    else Failure(Plain(401, InvalidCredentials))
  }

  /** The token of a successful login decodes, through base 64 and UTF-8, back to `username:password`. */
  lemma TokenDecodesToCredentials(configured: Credentials)
    ensures var r := LoginUser(configured, configured);
            && r.IsSuccess()
            && Decode(r.value).Some?
            && DecodeUtf8(Decode(r.value).value) == Some(configured.username + ":" + configured.password)
  {
    var text := configured.username + ":" + configured.password;
    DecodeEncode(Utf8(text));
    Utf8RoundTrip(text);
  }

  /** Credentials that differ only in letter case are refused. */
  lemma CaseMatters()
    ensures LoginUser(Credentials("admin", "secret"), Credentials("Admin", "secret")) == Failure(Plain(401, InvalidCredentials))
  {
    assert "Admin" != "admin" by {
      assert "Admin"[0] != "admin"[0];
    }
  }

  /** Text below U+0080 is its own UTF-8: one byte per character, the character's code. */
  lemma {:induction false} AsciiBytes(s: string)
    requires forall i :: 0 <= i < |s| ==> s[i] as int < 0x80
    ensures |Utf8(s)| == |s| && forall i :: 0 <= i < |s| ==> Utf8(s)[i] == s[i] as int
    decreases |s|
  {
    if |s| > 0 {
      AsciiBytes(s[1..]);
      assert Utf8(s) == [s[0] as int] + Utf8(s[1..]);
    }
  }

  lemma KnownBytes()
    ensures Utf8("user:pass") == [117, 115, 101, 114, 58, 112, 97, 115, 115]
  {
    AsciiBytes("user:pass");
  }

  lemma KnownGroups()
    ensures Encode([117, 115, 101, 114, 58, 112, 97, 115, 115])
            == EncodeGroup(117, 115, 101) + EncodeGroup(114, 58, 112) + EncodeGroup(97, 115, 115)
  {
    var bytes: seq<Byte> := [117, 115, 101, 114, 58, 112, 97, 115, 115];
    assert bytes[3..] == [114, 58, 112, 97, 115, 115];
    assert bytes[3..][3..] == [97, 115, 115];
    assert bytes[3..][3..][3..] == [];
  }

  lemma KnownLetters()
    ensures EncodeGroup(117, 115, 101) + EncodeGroup(114, 58, 112) + EncodeGroup(97, 115, 115) == "dXNlcjpwYXNz"
  {
    assert EncodeGroup(117, 115, 101) == "dXNl";
    assert EncodeGroup(114, 58, 112) == "cjpw";
    assert EncodeGroup(97, 115, 115) == "YXNz";
  }

  /** A known token: `user:pass` is `dXNlcjpwYXNz`. */
  lemma KnownToken()
    ensures Token(Credentials("user", "pass")) == "dXNlcjpwYXNz"
  {
    assert "user" + ":" + "pass" == "user:pass";
    KnownBytes();
    KnownGroups();
    KnownLetters();
  }
}
