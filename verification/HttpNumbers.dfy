/** What the C library helpers of HttpText mean: which texts hold a number, and which number. */
module HttpNumbers {
  import opened HttpText

  // ----- Characters -----

  lemma SpacesAre(c: char)
    ensures IsSpace(c) <==> c as int == 32 || 9 <= c as int <= 13
  {
  }

  lemma DigitsAre(i: nat)
    requires i < 16
    ensures DigitValue("0123456789abcdef"[i]) == i && DigitValue("0123456789ABCDEF"[i]) == i
  {
  }

  lemma NoOtherDigits(c: char)
    requires DigitValue(c) < 16
    ensures '0' <= c <= '9' || 'a' <= c <= 'f' || 'A' <= c <= 'F'
    ensures DigitValue(c) < 10 <==> '0' <= c <= '9'
  {
  }

  /** The same letter in either case. */
  predicate SameLetter(a: char, b: char) {
    || a == b
    || ('A' <= a <= 'Z' && b as int == a as int + 32)
    || ('A' <= b <= 'Z' && a as int == b as int + 32)
  }

  lemma SameTextMeans(a: string, b: string)
    ensures SameText(a, b) <==> |a| == |b| && forall i :: 0 <= i < |a| ==> SameLetter(a[i], b[i])
  {
    forall i | 0 <= i < |a| && i < |b| ensures ToLower(a[i]) == ToLower(b[i]) <==> SameLetter(a[i], b[i]) {
    }
  }

  // ----- Runs -----

  lemma {:induction false} TrimEndMeans(s: string)
    ensures TrimEnd(s) <= s && (TrimEnd(s) != "" ==> !IsSpace(TrimEnd(s)[|TrimEnd(s)| - 1]))
    ensures forall i :: |TrimEnd(s)| <= i < |s| ==> IsSpace(s[i])
  {
    if |s| > 0 && IsSpace(s[|s| - 1]) {
      TrimEndMeans(s[..|s| - 1]);
    }
  }

  lemma {:induction false} SpaceRunMeans(s: string)
    ensures forall i :: 0 <= i < SpaceRun(s) ==> IsSpace(s[i])
    ensures SpaceRun(s) < |s| ==> !IsSpace(s[SpaceRun(s)])
  {
    if |s| > 0 && IsSpace(s[0]) {
      SpaceRunMeans(s[1..]);
    }
  }

  lemma {:induction false} SpaceRunIs(pre: string, rest: string)
    requires (forall i :: 0 <= i < |pre| ==> IsSpace(pre[i])) && (rest == "" || !IsSpace(rest[0]))
    ensures SpaceRun(pre + rest) == |pre|
    decreases |pre|
  {
    if pre == "" {
      assert pre + rest == rest;
    } else {
      assert (pre + rest)[1..] == pre[1..] + rest;
      SpaceRunIs(pre[1..], rest);
    }
  }

  lemma {:induction false} DigitRunIs(d: string, rest: string, base: nat)
    requires (forall i :: 0 <= i < |d| ==> DigitValue(d[i]) < base) && (rest == "" || DigitValue(rest[0]) >= base)
    ensures DigitRun(d + rest, base) == |d|
    decreases |d|
  {
    if d == "" {
      assert d + rest == rest;
    } else {
      assert (d + rest)[1..] == d[1..] + rest;
      DigitRunIs(d[1..], rest, base);
    }
  }

  /** The first character c, unless a NUL comes before it. */
  lemma {:induction false} FindMeans(s: string, c: char)
    requires c != '\0'
    ensures forall i :: 0 <= i < Find(s, c) && Find(s, c) < |s| ==> s[i] != c && s[i] != '\0'
    ensures Find(s, c) == |s| <==> forall i :: 0 <= i < |s| && s[i] == c ==> '\0' in s[..i]
  {
    if |s| > 0 && s[0] != '\0' && s[0] != c {
      var t := s[1..];
      FindMeans(t, c);
      forall i | 0 < i < |s| ensures '\0' in s[..i] <==> '\0' in t[..i - 1] {
        assert s[..i] == [s[0]] + t[..i - 1];
      }
      if Find(s, c) == |s| {
        forall i | 0 <= i < |s| && s[i] == c ensures '\0' in s[..i] {
          assert t[i - 1] == c;
        }
      }
    } else if |s| > 0 && s[0] == '\0' {
      forall i | 0 <= i < |s| && s[i] == c ensures '\0' in s[..i] {
        assert s[..i][0] == '\0';
      }
    } else if |s| > 0 {
      assert s[0] == c && s[..0] == "";
    }
  }

  // ----- Numbers -----

  function Power(base: nat, k: nat): nat {
    if k == 0 then 1 else base * Power(base, k - 1)
  }

  function Times(a: nat, b: nat): nat {
    a * b
  }

  /** What a text of digits denotes: each digit times the power of its place. */
  function ValueOf(d: string, base: nat): nat {
    if d == "" then 0 else Times(DigitValue(d[0]), Power(base, |d| - 1)) + ValueOf(d[1..], base)
  }

  lemma Distributes(x: nat, p: nat, v: nat, base: nat)
    ensures x * (base * p) + v * base == (x * p + v) * base
  {
    assert x * (base * p) == (x * p) * base;
  }

  lemma {:induction false} LastDigit(d: string, base: nat)
    requires d != ""
    ensures ValueOf(d, base) == ValueOf(d[..|d| - 1], base) * base + DigitValue(d[|d| - 1])
  {
    hide DigitValue;
    if |d| > 1 {
      var (front, last) := (d[..|d| - 1], DigitValue(d[|d| - 1]));
      LastDigit(d[1..], base);
      assert d[1..][..|d| - 2] == front[1..] && d[1..][|d| - 2] == d[|d| - 1];
      var (x, p, v) := (DigitValue(d[0]), Power(base, |d| - 2), ValueOf(front[1..], base));
      assert ValueOf(front, base) == x * p + v;
      assert ValueOf(d, base) == x * (base * p) + (v * base + last);
      Distributes(x, p, v, base);
    } else {
      assert d[..0] == "" && d[1..] == "";
    }
  }

  lemma {:induction false} NumberIsValue(d: string, base: nat)
    ensures NumberOf(d, base) == ValueOf(d, base)
  {
    hide DigitValue;
    if d != "" {
      NumberIsValue(d[..|d| - 1], base);
      LastDigit(d, base);
    }
  }

  predicate Decimal(d: string) {
    d != "" && forall i :: 0 <= i < |d| ==> '0' <= d[i] <= '9'
  }

  /** The number that decimal digits denote. */
  function DecimalValue(d: string): nat
    requires forall i :: 0 <= i < |d| ==> '0' <= d[i] <= '9'
  {
    if d == "" then 0 else Times(d[0] as int - 48, Power(10, |d| - 1)) + DecimalValue(d[1..])
  }

  lemma {:induction false} DecimalIsValue(d: string)
    requires forall i :: 0 <= i < |d| ==> '0' <= d[i] <= '9'
    ensures NumberOf(d, 10) == DecimalValue(d) == ValueOf(d, 10)
    decreases |d|
  {
    NumberIsValue(d, 10);
    if d != "" {
      DecimalIsValue(d[1..]);
    }
  }

  /** The text consists of white space, a sign or none, decimal digits, and something else. */
  predicate Layout(s: string, pre: string, sign: string, d: string, rest: string) {
    && (forall i :: 0 <= i < |pre| ==> IsSpace(pre[i]))
    && (sign == "" || sign == "+" || sign == "-") && Decimal(d) && (rest == "" || !('0' <= rest[0] <= '9'))
    && s == pre + (sign + (d + rest))
  }

  /** The number at the front of such a text, and where it ends. */
  lemma NumberReads(s: string, pre: string, sign: string, d: string, rest: string)
    requires Layout(s, pre, sign, d, rest)
    ensures StrToUL(s, 10) ==
            (if DecimalValue(d) > ULONG_MAX then ULONG_MAX
             else if sign == "-" then (ULONG_MAX + 1 - DecimalValue(d)) % (ULONG_MAX + 1)
             else DecimalValue(d), |pre| + |sign| + |d|)
  {
    hide SpaceRun, DigitRun, NumberOf, DecimalValue, DigitStart, StrToUL, Layout, ValueOf, IsSpace;
    LayoutMeans(s, pre, sign, d, rest);
    DecimalIsValue(d);
    Reads(s, |pre|, |pre| + |sign|, |d|, 10);
  }

  lemma LayoutMeans(s: string, pre: string, sign: string, d: string, rest: string)
    requires Layout(s, pre, sign, d, rest)
    ensures SpaceRun(s) == |pre| < |s| && (s[|pre|] == '-' <==> sign == "-") && Decimal(d)
    ensures var k := |pre| + |sign|;
            DigitStart(s, 10) == k <= k + |d| <= |s| && DigitRun(s[k..], 10) == |d| > 0 && s[k..k + |d|] == d
  {
    hide DigitRun, DigitStart, SpaceRun, IsSpace, Decimal;
    StartOfDigits(pre, sign, d, rest);
    IsNegative(pre, sign, d, rest);
    CutOut(pre, sign, d, rest);
    DecimalRun(d, rest);
  }

  lemma DecimalRun(d: string, rest: string)
    requires Decimal(d) && (rest == "" || !('0' <= rest[0] <= '9'))
    ensures DigitRun(d + rest, 10) == |d| > 0
  {
    DigitRunIs(d, rest, 10);
  }

  lemma IsNegative(pre: string, sign: string, d: string, rest: string)
    requires (sign == "" || sign == "+" || sign == "-") && Decimal(d)
    ensures var s := pre + (sign + (d + rest)); |pre| < |s| && (s[|pre|] == '-' <==> sign == "-")
  {
    var t := sign + (d + rest);
    assert t[0] == if sign == "" then d[0] else sign[0];
    assert (pre + t)[|pre|] == t[0];
  }

  lemma Reads(s: string, i: nat, k: nat, n: nat, base: nat)
    requires SpaceRun(s) == i < |s| && DigitStart(s, base) == k && k <= k + n <= |s| && DigitRun(s[k..], base) == n > 0
    ensures var v := NumberOf(s[k..k + n], base);
            StrToUL(s, base) == (if v > ULONG_MAX then ULONG_MAX
                               else if s[i] == '-' then (ULONG_MAX + 1 - v) % (ULONG_MAX + 1)
                               else v, k + n)
  {
    hide SpaceRun, DigitRun, NumberOf, DigitStart;
  }

  lemma CutOut(pre: string, sign: string, d: string, rest: string)
    ensures var (s, k) := (pre + (sign + (d + rest)), |pre| + |sign|);
            s[k..] == d + rest && s[k..k + |d|] == d
  {
  }

  lemma StartOfDigits(pre: string, sign: string, d: string, rest: string)
    requires forall i :: 0 <= i < |pre| ==> IsSpace(pre[i])
    requires (sign == "" || sign == "+" || sign == "-") && Decimal(d)
    ensures var s := pre + (sign + (d + rest));
            SpaceRun(s) == |pre| && DigitStart(s, 10) == |pre| + |sign|
  {
    var t := sign + (d + rest);
    assert t[0] == if sign == "" then d[0] else sign[0];
    SpaceRunIs(pre, t);
    hide SpaceRun;
    assert (pre + t)[|pre|] == t[0];
  }

  /** There is a number at the front. */
  ghost predicate HasNumber(s: string) {
    exists i: nat, j: nat :: NumberAt(s, i, j)
  }

  predicate NumberAt(s: string, i: nat, j: nat) {
    && i <= j < |s| && (forall k :: 0 <= k < i ==> IsSpace(s[k])) && '0' <= s[j] <= '9'
    && (j == i || (j == i + 1 && (s[i] == '+' || s[i] == '-')))
  }

  lemma NumberIff(s: string)
    ensures StrToUL(s, 10).1 == 0 <==> !HasNumber(s)
  {
    SpaceRunMeans(s);
    var (i, k) := (SpaceRun(s), DigitStart(s, 10));
    if k < |s| && '0' <= s[k] <= '9' {
      assert NumberAt(s, i, k);
      assert s[k..][0] == s[k] && DigitRun(s[k..], 10) > 0;
    } else {
      assert DigitRun(s[k..], 10) == 0 by {
        if k < |s| { assert s[k..][0] == s[k]; }
      }
    }
  }

  /** Hexadecimal digits, in either case, denote the size of a chunk. */
  lemma HexReads(d: string)
    requires d != "" && forall i :: 0 <= i < |d| ==> DigitValue(d[i]) < 16
    ensures StrToUL(d, 16) == (if ValueOf(d, 16) > ULONG_MAX then ULONG_MAX else ValueOf(d, 16), |d|)
  {
    hide SpaceRun, DigitRun, NumberOf, DigitStart, ValueOf, DigitValue;
    StartOfHex(d);
    HexRun(d);
    NumberIsValue(d, 16);
    assert d[0..] == d && d[0..0 + |d|] == d;
  }

  lemma StartOfHex(d: string)
    requires d != "" && forall i :: 0 <= i < |d| ==> DigitValue(d[i]) < 16
    ensures SpaceRun(d) == 0 && DigitStart(d, 16) == 0 && d[0] != '-'
  {
    NoOtherDigits(d[0]);
    if |d| > 1 { NoOtherDigits(d[1]); }
  }

  lemma HexRun(d: string)
    requires forall i :: 0 <= i < |d| ==> DigitValue(d[i]) < 16
    ensures DigitRun(d, 16) == |d|
  {
    hide DigitValue;
    assert d + "" == d;
    DigitRunIs(d, "", 16);
  }

  /** They may stand behind "0x". */
  lemma HexPrefixReads(x: char, d: string)
    requires (x == 'x' || x == 'X') && d != "" && forall i :: 0 <= i < |d| ==> DigitValue(d[i]) < 16
    ensures StrToUL(['0', x] + d, 16) == (if ValueOf(d, 16) > ULONG_MAX then ULONG_MAX else ValueOf(d, 16), |d| + 2)
  {
    hide SpaceRun, DigitRun, NumberOf, DigitStart, ValueOf, DigitValue, StrToUL;
    StartOfPrefixed(x, d);
    HexRun(d);
    NumberIsValue(d, 16);
    var s := ['0', x] + d;
    assert s[2..] == d && s[2..2 + |d|] == d;
    Reads(s, 0, 2, |d|, 16);
  }

  lemma StartOfPrefixed(x: char, d: string)
    requires (x == 'x' || x == 'X') && d != "" && DigitValue(d[0]) < 16
    ensures SpaceRun(['0', x] + d) == 0 && DigitStart(['0', x] + d, 16) == 2
  {
    var s := ['0', x] + d;
    assert s[0] == '0' && s[1] == x && s[2] == d[0];
  }

  /** A line that does not end in such a digit is no chunk size. */
  lemma NoHexAtEnd(s: string)
    requires s != "" && DigitValue(s[|s| - 1]) >= 16
    ensures StrToUL(s, 16).1 < |s|
  {
    var k := DigitStart(s, 16);
    DigitRunMeans(s[k..], 16);
  }

  lemma {:induction false} DigitRunMeans(s: string, base: nat)
    ensures forall i :: 0 <= i < DigitRun(s, base) ==> DigitValue(s[i]) < base
    decreases |s|
  {
    if |s| > 0 && DigitValue(s[0]) < base {
      DigitRunMeans(s[1..], base);
    }
  }
}
