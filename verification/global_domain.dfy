/**
 * The shared value validators of server/src/globalDomain.ts: the loose ISO
 * date recogniser behind `ISODate` and the length rule of `NonEmptyString`.
 *
 * The recogniser is a JavaScript regular expression with a start anchor, no end
 * anchor and no flags. Every alternative it admits has a fixed length, so it is
 * modelled as a sequence of character classes matched against the first
 * characters of the string.
 *
 * Without the `u` flag the expression runs over UTF-16 code units. A character
 * outside the Basic Multilingual Plane is two units, a high and a low
 * surrogate. No literal, range or listed class accepts a surrogate. The `.`
 * accepts the high surrogate, but the `\d` after it then meets the low one and
 * fails. Counting one Dafny character per position is therefore exact once the
 * `.` class refuses characters outside that plane.
 */
module GlobalDomain {
  import opened Results

  // ---------------------------------------------------------------------------
  // Character classes

  /** One position of the pattern. */
  datatype CharClass =
    | Between(lo: char, hi: char)  // `[lo-hi]`, and `\d` as `[0-9]`
    | Literal(c: char)             // a character that stands for itself
    | OneOf(cs: seq<char>)         // `[...]` listing its characters
    | AnyButLineTerminator         // `.` without the `s` and `u` flags

  /** The four characters a JavaScript `.` refuses without the `s` flag. */
  predicate IsLineTerminator(c: char) {
    c == '\n' || c == '\r' || c == '\U{2028}' || c == '\U{2029}'
  }

  /** A character that is a single UTF-16 code unit. */
  predicate InBmp(c: char) {
    c as int < 0x1_0000
  }

  predicate Accepts(k: CharClass, c: char) {
    match k
    case Between(lo, hi) => lo <= c <= hi
    case Literal(l) => c == l
    case OneOf(cs) => c in cs
    case AnyButLineTerminator => !IsLineTerminator(c) && InBmp(c)
  }

  const Digit := Between('0', '9')

  /** `[1-2]\d{3}-[01]\d-[0-3]\dT[0-2]\d:[0-5]\d:[0-5]\d.\d{3}`: date, time and milliseconds. */
  const DateTime: seq<CharClass> := [
    Between('1', '2'), Digit, Digit, Digit, Literal('-'),
    Between('0', '1'), Digit, Literal('-'),
    Between('0', '3'), Digit, Literal('T'),
    Between('0', '2'), Digit, Literal(':'),
    Between('0', '5'), Digit, Literal(':'),
    Between('0', '5'), Digit,
    AnyButLineTerminator, Digit, Digit, Digit]

  /** The `Z` alternative of the offset group. */
  const Zulu: seq<CharClass> := [Literal('Z')]

  /** The `[+-]\d{2}:\d{2}` alternative of the offset group. */
  const Offset: seq<CharClass> := [OneOf("+-"), Digit, Digit, Literal(':'), Digit, Digit]

  // ---------------------------------------------------------------------------
  // Matching

  /** `pattern` matches the first `|pattern|` characters of `s`, one class per character. */
  predicate MatchesPrefix(pattern: seq<CharClass>, s: string)
    decreases |pattern|
  {
    |pattern| == 0 || (|s| > 0 && Accepts(pattern[0], s[0]) && MatchesPrefix(pattern[1..], s[1..]))
  }

  /** `isoPattern.test(s)`: anchored at the start only, so trailing text is ignored. */
  predicate IsIsoDate(s: string) {
    MatchesPrefix(DateTime + Zulu, s) || MatchesPrefix(DateTime + Offset, s)
  }

  /** A prefix match is a position-by-position match of a long enough string. */
  lemma {:induction false} MatchesPrefixPointwise(pattern: seq<CharClass>, s: string)
    ensures MatchesPrefix(pattern, s)
            <==> |s| >= |pattern| && forall i :: 0 <= i < |pattern| ==> Accepts(pattern[i], s[i])
    decreases |pattern|
  {
    if |pattern| > 0 && |s| > 0 {
      MatchesPrefixPointwise(pattern[1..], s[1..]);
      if |s| >= |pattern| && forall i :: 0 <= i < |pattern| ==> Accepts(pattern[i], s[i]) {
        forall i | 0 <= i < |pattern| - 1
          ensures Accepts(pattern[1..][i], s[1..][i])
        {
          assert Accepts(pattern[i + 1], s[i + 1]);
        }
      }
      if MatchesPrefix(pattern, s) {
        forall i | 0 <= i < |pattern|
          ensures Accepts(pattern[i], s[i])
        {
          if i > 0 {
            assert pattern[i] == pattern[1..][i - 1];
            assert s[i] == s[1..][i - 1];
          }
        }
      }
    }
  }

  /** What an accepted string looks like, position by position. */
  predicate Shaped(s: string) {
    && |s| >= 24
    && (forall i :: 0 <= i < 23 ==> Accepts(DateTime[i], s[i]))
    && (s[23] == 'Z'
        || (|s| >= 29 && (s[23] == '+' || s[23] == '-')
            && (forall i :: 24 <= i < 29 ==> Accepts(Offset[i - 23], s[i]))))
  }

  /** The recogniser accepts exactly the strings of that shape. */
  lemma IsIsoDateShape(s: string)
    ensures IsIsoDate(s) <==> Shaped(s)
  {
    MatchesPrefixPointwise(DateTime + Zulu, s);
    MatchesPrefixPointwise(DateTime + Offset, s);
    assert forall i :: 0 <= i < 23 ==> (DateTime + Zulu)[i] == DateTime[i];
    assert forall i :: 0 <= i < 23 ==> (DateTime + Offset)[i] == DateTime[i];
    assert forall i :: 23 <= i < 29 ==> (DateTime + Offset)[i] == Offset[i - 23];
    assert (DateTime + Zulu)[23] == Literal('Z');
  }

  // ---------------------------------------------------------------------------
  // Properties

  /** With no end anchor, anything may follow an accepted string. */
  lemma TrailingTextAccepted(s: string, tail: string)
    requires IsIsoDate(s)
    ensures IsIsoDate(s + tail)
  {
    IsIsoDateShape(s);
    IsIsoDateShape(s + tail);
    assert forall i :: 0 <= i < |s| ==> (s + tail)[i] == s[i];
  }

  /** Acceptance is decided by the first 29 characters at most. */
  lemma DecidedByPrefix(s: string, t: string)
    requires |s| >= 29 && |t| >= 29 && s[..29] == t[..29]
    ensures IsIsoDate(s) <==> IsIsoDate(t)
  {
    IsIsoDateShape(s);
    IsIsoDateShape(t);
    assert forall i :: 0 <= i < 29 ==> s[i] == s[..29][i] && t[i] == t[..29][i];
  }

  /** The character before the milliseconds is an unescaped `.`: any single code unit but a line terminator will do. */
  lemma AnySeparator(s: string, c: char)
    requires IsIsoDate(s) && |s| > 19 && !IsLineTerminator(c) && InBmp(c)
    ensures IsIsoDate(s[19 := c])
  {
    IsIsoDateShape(s);
    IsIsoDateShape(s[19 := c]);
  }

  /** A line terminator in that position is refused. */
  lemma LineTerminatorSeparator(s: string, c: char)
    requires |s| >= 20 && IsLineTerminator(c)
    ensures !IsIsoDate(s[19 := c])
  {
    IsIsoDateShape(s[19 := c]);
    assert DateTime[19] == AnyButLineTerminator;
  }

  /** A character outside the Basic Multilingual Plane in that position is refused: the `.` takes its high surrogate and `\d` meets the low one. */
  lemma WideSeparatorRefused(s: string, c: char)
    requires |s| >= 20 && !InBmp(c)
    ensures !IsIsoDate(s[19 := c])
  {
    IsIsoDateShape(s[19 := c]);
    assert DateTime[19] == AnyButLineTerminator;
  }

  /** The emoji U+1F600 in place of the `.` gives an invalid date. */
  lemma EmojiSeparatorRefused()
    ensures ParseIsoDate("2020-01-01T00:00:00\U{1F600}000Z") == Failure(InvalidIsoDate)
  {
    WideSeparatorRefused("2020-01-01T00:00:00.000Z", '\U{1F600}');
    assert "2020-01-01T00:00:00.000Z"[19 := '\U{1F600}'] == "2020-01-01T00:00:00\U{1F600}000Z";
  }

  /** Only the leading digit of a field is range-checked: month 19, day 39 and hour 29 pass. */
  lemma OutOfRangeFieldsAccepted()
    ensures IsIsoDate("2020-19-39T29:59:59.000Z")
  {
    ZuluAccepted("2020-19-39T29:59:59.000Z");
  }

  /** A time without milliseconds is refused. */
  lemma NoMillisecondsRefused()
    ensures !IsIsoDate("2020-01-01T00:00:00Z")
  {
    var s := "2020-01-01T00:00:00Z";
    IsIsoDateShape(s);
  }

  // ---------------------------------------------------------------------------
  // The canonical form

  /** A UTC instant with the fields `Date.prototype.toISOString` prints. */
  datatype Instant = Instant(year: int, month: int, day: int, hour: int, minute: int, second: int, millis: int)

  predicate ValidInstant(t: Instant) {
    && 1 <= t.month <= 12 && 1 <= t.day <= 31
    && 0 <= t.hour <= 23 && 0 <= t.minute <= 59 && 0 <= t.second <= 59
    && 0 <= t.millis <= 999
  }

  function DigitChar(n: int): (c: char)
    requires 0 <= n <= 9
    ensures '0' <= c <= '9' && c as int - '0' as int == n
  {
    ['0', '1', '2', '3', '4', '5', '6', '7', '8', '9'][n]
  }

  /** Character `i` of the `YYYY-MM-DDTHH:mm:ss.sssZ` rendering of an instant with a four-digit year. */
  function CanonicalChar(t: Instant, i: nat): (c: char)
    requires ValidInstant(t) && 0 <= t.year <= 9999 && i < 24
  {
    match i
    case 0 => DigitChar(t.year / 1000)
    case 1 => DigitChar(t.year / 100 % 10)
    case 2 => DigitChar(t.year / 10 % 10)
    case 3 => DigitChar(t.year % 10)
    case 4 => '-'
    case 5 => DigitChar(t.month / 10)
    case 6 => DigitChar(t.month % 10)
    case 7 => '-'
    case 8 => DigitChar(t.day / 10)
    case 9 => DigitChar(t.day % 10)
    case 10 => 'T'
    case 11 => DigitChar(t.hour / 10)
    case 12 => DigitChar(t.hour % 10)
    case 13 => ':'
    case 14 => DigitChar(t.minute / 10)
    case 15 => DigitChar(t.minute % 10)
    case 16 => ':'
    case 17 => DigitChar(t.second / 10)
    case 18 => DigitChar(t.second % 10)
    case 19 => '.'
    case 20 => DigitChar(t.millis / 100)
    case 21 => DigitChar(t.millis / 10 % 10)
    case 22 => DigitChar(t.millis % 10)
    case _ => 'Z'
  }

  /** `Date.prototype.toISOString` for an instant with a four-digit year. */
  function Canonical(t: Instant): (s: string)
    requires ValidInstant(t) && 0 <= t.year <= 9999
    ensures |s| == 24
  {
    seq(24, i requires 0 <= i < 24 => CanonicalChar(t, i))
  }

  predicate IsDigit(c: char) {
    '0' <= c <= '9'
  }

  /** A 24-character string whose every position satisfies its class, ending in `Z`, is accepted. */
  lemma ZuluAccepted(s: string)
    requires |s| == 24
    requires '1' <= s[0] <= '2' && IsDigit(s[1]) && IsDigit(s[2]) && IsDigit(s[3]) && s[4] == '-'
    requires '0' <= s[5] <= '1' && IsDigit(s[6]) && s[7] == '-'
    requires '0' <= s[8] <= '3' && IsDigit(s[9]) && s[10] == 'T'
    requires '0' <= s[11] <= '2' && IsDigit(s[12]) && s[13] == ':'
    requires '0' <= s[14] <= '5' && IsDigit(s[15]) && s[16] == ':'
    requires '0' <= s[17] <= '5' && IsDigit(s[18]) && !IsLineTerminator(s[19]) && InBmp(s[19])
    requires IsDigit(s[20]) && IsDigit(s[21]) && IsDigit(s[22]) && s[23] == 'Z'
    ensures IsIsoDate(s)
  {
    IsIsoDateShape(s);
    assert forall i :: 0 <= i < 23 ==> Accepts(DateTime[i], s[i]);
  }

  /** Every canonical rendering of an instant in the years 1000 to 2999 is accepted. */
  lemma CanonicalAccepted(t: Instant)
    requires ValidInstant(t) && 1000 <= t.year <= 2999
    ensures IsIsoDate(Canonical(t))
  {
    var s := Canonical(t);
    assert 1 <= t.year / 1000 <= 2 && '1' <= s[0] <= '2';
    assert t.month / 10 <= 1 && '0' <= s[5] <= '1';
    assert t.day / 10 <= 3 && '0' <= s[8] <= '3';
    assert t.hour / 10 <= 2 && '0' <= s[11] <= '2';
    assert t.minute / 10 <= 5 && '0' <= s[14] <= '5';
    assert t.second / 10 <= 5 && '0' <= s[17] <= '5';
    assert s[4] == '-' && s[7] == '-' && s[10] == 'T' && s[13] == ':' && s[16] == ':' && s[19] == '.' && s[23] == 'Z';
    ZuluAccepted(s);
  }

  /** A year outside 1000 to 2999 is refused, whatever the other fields. */
  lemma FarYearRefused(t: Instant)
    requires ValidInstant(t) && 3000 <= t.year <= 9999
    ensures !IsIsoDate(Canonical(t))
  {
    IsIsoDateShape(Canonical(t));
    assert !Accepts(DateTime[0], Canonical(t)[0]);
  }

  // ---------------------------------------------------------------------------
  // Validators

  const InvalidIsoDate := "Invalid ISO date"

  /** The message zod gives a string shorter than `min(1)`. */
  const TooShort := "String must contain at least 1 character(s)"

  /** `ISODate.parse(s)`: the string itself, or the refinement's message. */
  function ParseIsoDate(s: string): (r: Result<string, string>)
    ensures r.IsSuccess() <==> IsIsoDate(s)
    ensures r.IsSuccess() ==> r.value == s
    ensures r.IsFailure() ==> r.error == InvalidIsoDate
  {
    if IsIsoDate(s) then Success(s) else Failure(InvalidIsoDate)
  }

  /** `NonEmptyString.parse(s)`: any string of at least one character. */
  function ParseNonEmpty(s: string): (r: Result<string, string>)
    ensures r.IsSuccess() <==> |s| >= 1
    ensures r.IsSuccess() ==> r.value == s
    ensures r.IsFailure() ==> r.error == TooShort
  {
    if |s| >= 1 then Success(s) else Failure(TooShort)
  }

  /** A valid ISO date is never empty, so it is also a valid non-empty string. */
  lemma IsoDateIsNonEmpty(s: string)
    requires ParseIsoDate(s).IsSuccess()
    ensures ParseNonEmpty(s) == ParseIsoDate(s)
  {
    IsIsoDateShape(s);
  }
}
