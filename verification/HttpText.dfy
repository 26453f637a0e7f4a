/** Character-level helpers that the HTTP code takes from the C library.
    A `char` stands for one byte of the stream; every statement quantifies over
    all characters, so over all bytes. */
module HttpText {

  const ULONG_MAX: nat := 0xFFFF_FFFF_FFFF_FFFF

  /** The values of `size_t`. */
  type Size = n: int | 0 <= n <= ULONG_MAX

  /** `HttpBase::kBufferSize`. */
  const BUFFER_SIZE: nat := 32 * 1024

  const CRLF: string := "\r\n"

  function Joined(pieces: seq<string>): string {
    if pieces == [] then "" else Joined(pieces[..|pieces| - 1]) + pieces[|pieces| - 1]
  }

  predicate IsSpace(c: char) {
    c == ' ' || c == '\t' || c == '\n' || c == '\r' || c == '\U{0B}' || c == '\U{0C}'
  }

  function ToLower(c: char): char {
    if 'A' <= c <= 'Z' then ((c as int) + 32) as char else c
  }

  /** `_strnicmp(a, b, |b|) == 0` for strings of equal length. */
  predicate SameText(a: string, b: string) {
    |a| == |b| && forall i :: 0 <= i < |a| ==> ToLower(a[i]) == ToLower(b[i])
  }

  /** The line without its trailing white space. */
  function TrimEnd(s: string): string {
    if |s| > 0 && IsSpace(s[|s| - 1]) then TrimEnd(s[..|s| - 1]) else s
  }

  /** Number of leading white-space characters. */
  function SpaceRun(s: string): (n: nat)
    ensures n <= |s|
  {
    if |s| > 0 && IsSpace(s[0]) then 1 + SpaceRun(s[1..]) else 0
  }

  /** Position of the first `c`, or `|s|`; like `strchrn`, a NUL ends the search. */
  function Find(s: string, c: char): (n: nat)
    ensures n <= |s|
    ensures n < |s| ==> s[n] == c
  {
    if |s| == 0 || s[0] == '\0' then |s| else if s[0] == c then 0 else 1 + Find(s[1..], c)
  }

  function DigitValue(c: char): nat {
    if '0' <= c <= '9' then c as int - '0' as int
    else if 'a' <= c <= 'f' then c as int - 'a' as int + 10
    else if 'A' <= c <= 'F' then c as int - 'A' as int + 10
    else 16
  }

  /** Number of leading digits of the given base. */
  function DigitRun(s: string, base: nat): (n: nat)
    ensures n <= |s|
  {
    if |s| > 0 && DigitValue(s[0]) < base then 1 + DigitRun(s[1..], base) else 0
  }

  function NumberOf(digits: string, base: nat): nat {
    if digits == "" then 0
    else NumberOf(digits[..|digits| - 1], base) * base + DigitValue(digits[|digits| - 1])
  }

  /** Where the digits of a C number start: after white space, sign and 0x. */
  function DigitStart(s: string, base: nat): (n: nat)
    ensures n <= |s|
  {
    var i := SpaceRun(s);
    var j := if i < |s| && (s[i] == '+' || s[i] == '-') then i + 1 else i;
    if base == 16 && j + 2 < |s| && s[j] == '0' && ToLower(s[j + 1]) == 'x' && DigitValue(s[j + 2]) < 16
    then j + 2 else j
  }

  /** `strtoul(s, &end, base)`: the value, saturated, and the position of `end`. */
  function StrToUL(s: string, base: nat): (r: (Size, nat))
    ensures r.1 <= |s|
  {
    var k := DigitStart(s, base);
    var n := DigitRun(s[k..], base);
    if n == 0 then (0, 0)
    else
      var v := NumberOf(s[k..k + n], base);
      var i := SpaceRun(s);
      if v > ULONG_MAX then (ULONG_MAX, k + n)
      else if i < |s| && s[i] == '-' then ((ULONG_MAX + 1 - v) % (ULONG_MAX + 1), k + n)
      else (v, k + n)
  }
}
