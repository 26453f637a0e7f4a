/** What the decoder of src/talk/base/base64.cc makes of every text, in all of its modes: an account
    of the text as a whole, with no quanta to scan for. */
module Base64Modes {
  import opened Common
  import opened Base64
  import opened Base64Proofs

  /** The bytes of any number of sextets. */
  function BytesOf(vs: seq<Sextet>): seq<byte> {
    if |vs| < 4 then Bytes(vs) else Bytes(vs[..4]) + BytesOf(vs[4..])
  }

  /** The sextets of the last quantum, if it is not whole. */
  function Tail(vs: seq<Sextet>): (q: seq<Sextet>)
    ensures |q| == |vs| % 4
  {
    if |vs| < 4 then vs else Tail(vs[4..])
  }

  /** A quantum and its bytes are the same number, written to base 64 and to base 256. */
  lemma SameNumber(q: seq<Sextet>)
    requires |q| == 4
    ensures var b := Bytes(q);
            |b| == 3 && (b[0] as int * 256 + b[1]) * 256 + b[2] == ((q[0] as int * 64 + q[1]) * 64 + q[2]) * 64 + q[3]
  {
  }

  /** In a shorter one the bits that make no byte are the low ones of the last sextet. */
  lemma ShortNumber(q: seq<Sextet>)
    requires |q| < 4
    ensures var b := Bytes(q);
            && (|q| == 2 ==> |b| == 1 && b[0] as int * 16 + q[1] % 16 == q[0] as int * 64 + q[1])
            && (|q| == 3 ==> |b| == 2 && (b[0] as int * 256 + b[1]) * 4 + q[2] % 4
                                         == (q[0] as int * 64 + q[1]) * 64 + q[2])
            && (|q| < 2 ==> b == [])
    ensures LeftOver(q) == 0 <==> |q| == 0 || q[|q| - 1] % (if |q| == 1 then 64 else if |q| == 2 then 16 else 4) == 0
  {
  }

  /** After so many sextets and pads, where the decoder cannot go on past this character. */
  predicate Stops(parse: Parse, sextets: nat, pads: nat, c: char) {
    && parse != Any
    && match DecodeChar(c)
       case Illegal => true
       case Space => parse == Strict
       case Padding => sextets % 4 < 2 || sextets % 4 + pads == 4
       case Value(_) => pads > 0
  }

  /** Pads may stand where two or three sextets of a quantum have come, and no more than complete it. */
  predicate MayPad(sextets: nat, pads: nat) {
    pads > 0 ==> sextets % 4 >= 2 && sextets % 4 + pads <= 4
  }

  // ----- Noise in parts of a text -----

  lemma {:induction false} CleanJoins(parse: Parse, a: string, b: string)
    ensures Clean(parse, a + b) == Clean(parse, a) + Clean(parse, b)
  {
    if a == "" {
      assert a + b == b;
    } else {
      assert (a + b)[1..] == a[1..] + b;
      CleanJoins(parse, a[1..], b);
    }
  }

  lemma CleanOne(parse: Parse, c: char)
    ensures Clean(parse, [c]) == if Noise(parse, c) then "" else [c]
  {
    assert [c][1..] == "";
  }

  // ----- One quantum -----

  /** The scan of a text that ends where it stops is the scan of what comes before. */
  lemma {:induction false} ScanIsLocal(parse: Parse, illegalPads: bool, t: string, n: nat, st: Scan)
    requires st.pos <= n <= |t|
    requires |ScanOn(parse, illegalPads, t[..n], st).bytes| >= 4
    ensures ScanOn(parse, illegalPads, t, st) == ScanOn(parse, illegalPads, t[..n], st)
    decreases n - st.pos
  {
    hide DecodeChar, Next, ScanOn;
    ScanUnfold(parse, illegalPads, t[..n], st);
    ScanUnfold(parse, illegalPads, t, st);
    if |st.bytes| < 4 && st.pos < n {
      var look := Next(parse, illegalPads, st, t[st.pos]);
      if look.Go? {
        NextMovesOn(parse, illegalPads, st, t[st.pos]);
        ScanIsLocal(parse, illegalPads, t, n, look.scan);
      }
    }
  }

  lemma NextMovesOn(parse: Parse, illegalPads: bool, st: Scan, c: char)
    ensures var look := Next(parse, illegalPads, st, c); look.Go? ==> look.scan.pos == st.pos + 1
  {
  }

  lemma SliceSplits(t: string, a: nat, b: nat)
    requires a < b <= |t|
    ensures t[a..b] == [t[a]] + t[a + 1..b]
  {
  }

  /** What precedes the first pad. */
  ghost predicate PadStartsAt(parse: Parse, t: string, from: nat, to: nat, vs: seq<Sextet>, at: nat) {
    from <= at < to <= |t| && t[at] == '=' && Clean(parse, t[from..at]) == Text(vs)
  }

  /** What the first character of a text can be. */
  lemma FirstOf(parse: Parse, t: string, at: nat, n: nat, vs: seq<Sextet>, pads: nat)
    requires at < n <= |t| && Clean(parse, t[at..n]) == Text(vs) + Equals(pads)
    ensures var rest := Clean(parse, t[at + 1..n]);
            if Noise(parse, t[at]) then rest == Text(vs) + Equals(pads)
            else if vs != [] then t[at] == EncodeChar(vs[0]) && rest == Text(vs[1..]) + Equals(pads)
            else pads > 0 && t[at] == '=' && rest == Text(vs) + Equals(pads - 1)
  {
    hide EncodeChar, DecodeChar, Clean;
    var c := t[at];
    SliceSplits(t, at, n);
    CleanJoins(parse, [c], t[at + 1..n]);
    CleanOne(parse, c);
    var rest := Clean(parse, t[at + 1..n]);
    if Noise(parse, c) {
      assert "" + rest == rest;
    } else {
      assert rest == ([c] + rest)[1..];
      if vs != [] { OneSextetLess(vs, pads); } else { OnePadLess(pads); }
    }
  }

  lemma NoiseStep(parse: Parse, st: Scan, c: char)
    requires Noise(parse, c)
    ensures Next(parse, false, st, c) == Go(st.(pos := st.pos + 1))
  {
  }

  lemma SextetStep(parse: Parse, st: Scan, v: Sextet)
    requires st.pads == 0
    ensures Next(parse, false, st, EncodeChar(v)) == Go(st.(bytes := st.bytes + [v], pos := st.pos + 1))
  {
    hide EncodeChar, DecodeChar;
    TablesAgree(v, '=');
  }

  lemma PadStep(parse: Parse, st: Scan, more: nat)
    requires |st.bytes| < 4 && MayPad(|st.bytes|, st.pads + 1 + more)
    ensures Next(parse, false, st, '=')
            == Go(st.(pads := st.pads + 1, pos := st.pos + 1, padStart := if st.pads == 0 then st.pos else st.padStart))
  {
  }

  lemma Regroup(a: seq<Sextet>, vs: seq<Sextet>)
    requires vs != []
    ensures (a + [vs[0]]) + vs[1..] == a + vs
  {
  }

  lemma StopStep(parse: Parse, st: Scan, c: char)
    requires |st.bytes| < 4 && Stops(parse, |st.bytes|, st.pads, c)
    ensures Next(parse, false, st, c).Break?
  {
  }

  /** A scan that stops at `n`, or comes to the end there, with fewer than four sextets. */
  lemma {:induction false} ScanStops(parse: Parse, t: string, n: nat, st: Scan, vs: seq<Sextet>, pads: nat)
    requires st.pos <= n <= |t| && |st.bytes| + |vs| < 4
    requires MayPad(|st.bytes| + |vs|, st.pads + pads) && (vs != [] ==> st.pads == 0)
    requires Clean(parse, t[st.pos..n]) == Text(vs) + Equals(pads)
    requires n == |t| || Stops(parse, |st.bytes| + |vs|, st.pads + pads, t[n])
    ensures var r := ScanOn(parse, false, t, st);
            && r.bytes == st.bytes + vs && r.pads == st.pads + pads && r.pos == n
            && (st.pads > 0 ==> r.padStart == st.padStart)
            && (st.pads == 0 && pads > 0 ==> PadStartsAt(parse, t, st.pos, n, vs, r.padStart))
    decreases n - st.pos
  {
    hide EncodeChar, Noise, Clean, ScanOn, Next, Stops, MayPad, Text, Equals, PadStartsAt;
    ScanUnfold(parse, false, t, st);
    var r := ScanOn(parse, false, t, st);
    if st.pos == n {
      NothingIsClean(parse, t[n..n]);
      assert vs == [] && pads == 0;
      if n < |t| { StopStep(parse, st, t[n]); }
    } else {
      var c := t[st.pos];
      FirstOf(parse, t, st.pos, n, vs, pads);
      if Noise(parse, c) {
        NoiseStep(parse, st, c);
        ScanStops(parse, t, n, st.(pos := st.pos + 1), vs, pads);
        AfterNoise(parse, t, st.pos, n, vs, r.padStart);
      } else if vs != [] {
        SextetStep(parse, st, vs[0]);
        ScanStops(parse, t, n, st.(bytes := st.bytes + [vs[0]], pos := st.pos + 1), vs[1..], pads);
        Regroup(st.bytes, vs);
        AfterSextet(parse, t, st.pos, n, vs, r.padStart);
      } else {
        PadStep(parse, st, pads - 1);
        ScanStops(parse, t, n, Next(parse, false, st, c).scan, vs, pads - 1);
        AtFirstPad(parse, t, st.pos, n);
      }
    }
  }

  lemma NothingIsClean(parse: Parse, s: string)
    requires s == ""
    ensures Clean(parse, s) == ""
  {
  }

  lemma AtFirstPad(parse: Parse, t: string, from: nat, to: nat)
    requires from < to <= |t|
    ensures t[from] == '=' ==> PadStartsAt(parse, t, from, to, [], from)
  {
    assert t[from..from] == "";
  }

  lemma AfterNoise(parse: Parse, t: string, from: nat, to: nat, vs: seq<Sextet>, at: nat)
    requires from < to <= |t| && Noise(parse, t[from])
    ensures PadStartsAt(parse, t, from + 1, to, vs, at) ==> PadStartsAt(parse, t, from, to, vs, at)
  {
    hide Clean, DecodeChar;
    if PadStartsAt(parse, t, from + 1, to, vs, at) {
      SliceSplits(t, from, at);
      CleanJoins(parse, [t[from]], t[from + 1..at]);
      CleanOne(parse, t[from]);
    }
  }

  lemma AfterSextet(parse: Parse, t: string, from: nat, to: nat, vs: seq<Sextet>, at: nat)
    requires from < to <= |t| && vs != [] && t[from] == EncodeChar(vs[0])
    ensures PadStartsAt(parse, t, from + 1, to, vs[1..], at) ==> PadStartsAt(parse, t, from, to, vs, at)
  {
    hide Clean, EncodeChar;
    if PadStartsAt(parse, t, from + 1, to, vs[1..], at) {
      SliceSplits(t, from, at);
      CleanJoins(parse, [t[from]], t[from + 1..at]);
      CleanOne(parse, t[from]);
      TablesAgree(vs[0], t[from]);
      TextSplits(vs);
    }
  }

  // ----- The account of a whole text -----

  /** Where decoding ends: behind everything, or before the first pad if the pads do not complete their
      quantum. */
  ghost predicate EndsAt(parse: Parse, s: string, vs: seq<Sextet>, pads: nat, used: nat) {
    if pads == 0 || |vs| % 4 + pads == 4 then used == |s|
    else PadStartsAt(parse, s, 0, |s|, vs, used)
  }

  /** The three ways to fail: bits left over, pads missing, characters left over. */
  ghost predicate Succeeds(parse: Parse, pad: Pad, term: Term, s: string, vs: seq<Sextet>, pads: nat, rest: string,
                           used: nat)
  {
    && (term == TermAny || LeftOver(Tail(vs)) == 0)
    && (pad == PadYes ==> |vs| % 4 + pads == 4 || (|vs| % 4 == 0 && rest == "" && NoTrailingNoise(parse, s)))
    && (term == TermBuffer ==> used == |s + rest|)
  }

  lemma FirstQuantum(parse: Parse, s: string, vs: seq<Sextet>, pads: nat, rest: string)
    requires |vs| >= 4 && Clean(parse, s) == Text(vs) + Equals(pads)
    ensures var f := NextQuantum(parse, false, s + rest);
            && f.bytes == vs[..4] && 0 < f.used <= |s| && !Noise(parse, s[f.used - 1])
            && Clean(parse, s[..f.used]) == Text(vs[..4]) && Clean(parse, s[f.used..]) == Text(vs[4..]) + Equals(pads)
  {
    hide EncodeChar, DecodeChar, Clean, ScanOn;
    var all := Text(vs) + Equals(pads);
    assert all[..4] == Text(vs[..4]) && all[4..] == Text(vs[4..]) + Equals(pads);
    assert s[0..] == s && BEGIN.bytes + vs[..4] == vs[..4];
    ScanFull(parse, s, BEGIN, vs[..4]);
    assert (s + rest)[..|s|] == s;
    ScanIsLocal(parse, false, s + rest, |s|, BEGIN);
    var used := NextQuantum(parse, false, s + rest).used;
    assert s == s[..used] + s[used..];
    CleanJoins(parse, s[..used], s[used..]);
  }

  lemma LastQuantum(parse: Parse, s: string, vs: seq<Sextet>, pads: nat, rest: string)
    requires |vs| < 4 && MayPad(|vs|, pads) && Clean(parse, s) == Text(vs) + Equals(pads)
    requires rest == "" || Stops(parse, |vs|, pads, rest[0])
    ensures var f := NextQuantum(parse, false, s + rest);
            f.bytes == vs && f.padded == (|vs| + pads == 4) && EndsAt(parse, s, vs, pads, f.used)
  {
    hide EncodeChar, DecodeChar, Clean, ScanOn, Stops;
    var t := s + rest;
    assert t[0..|s|] == s && BEGIN.bytes + vs == vs;
    assert rest != "" ==> t[|s|] == rest[0];
    ScanStops(parse, t, |s|, BEGIN, vs, pads);
    var at := ScanOn(parse, false, t, BEGIN).padStart;
    assert pads > 0 ==> t[0..at] == s[0..at];
  }

  lemma TailOfRest(vs: seq<Sextet>)
    requires |vs| >= 4
    ensures Tail(vs[4..]) == Tail(vs) && |vs[4..]| % 4 == |vs| % 4
    ensures BytesOf(vs) == Bytes(vs[..4]) + BytesOf(vs[4..])
  {
    hide Bytes;
  }

  lemma TailIsAll(vs: seq<Sextet>)
    requires |vs| < 4
    ensures Tail(vs) == vs && |vs| % 4 == |vs| && BytesOf(vs) == Bytes(vs)
  {
    hide Bytes;
  }

  lemma EndsLater(parse: Parse, s: string, vs: seq<Sextet>, pads: nat, first: nat, used: nat)
    requires |vs| >= 4 && first <= |s| && Clean(parse, s[..first]) == Text(vs[..4])
    requires EndsAt(parse, s[first..], vs[4..], pads, used)
    ensures EndsAt(parse, s, vs, pads, first + used)
  {
    hide EncodeChar, Clean;
    TailOfRest(vs);
    if pads != 0 && |vs| % 4 + pads != 4 {
      var s' := s[first..];
      assert s[0..first + used] == s[..first] + s'[0..used];
      CleanJoins(parse, s[..first], s'[0..used]);
      assert Text(vs) == Text(vs[..4]) + Text(vs[4..]);
    }
  }

  /** A text that begins with sextets, then pads, with noise anywhere, up to a character that stops the
      decoder or to its end: the bytes of exactly these sextets, how much is used, and when that is a
      success, for all modes but that of no padding. */
  lemma {:induction false} DecodesExactly(parse: Parse, pad: Pad, term: Term, s: string, vs: seq<Sextet>, pads: nat,
                                          rest: string)
    requires pad != PadNo && MayPad(|vs|, pads) && Clean(parse, s) == Text(vs) + Equals(pads)
    requires rest == "" || Stops(parse, |vs|, pads, rest[0])
    ensures var d := Decode(parse, pad, term, s + rest);
            && d.value == BytesOf(vs) && EndsAt(parse, s, vs, pads, d.used)
            && (d.success <==> Succeeds(parse, pad, term, s, vs, pads, rest, d.used))
    decreases |vs|
  {
    hide EncodeChar, DecodeChar, Clean, ScanOn, Bytes, LeftOver, Decode, NextQuantum, Text, Equals, Stops, Noise, Tail,
         BytesOf;
    var t := s + rest;
    if |vs| >= 4 {
      FirstQuantum(parse, s, vs, pads, rest);
      DecodeUnfold(parse, pad, term, t);
      var f := NextQuantum(parse, false, t);
      var s' := s[f.used..];
      assert t[f.used..] == s' + rest;
      TailOfRest(vs);
      StopsAgain(parse, vs, pads, rest);
      DecodesExactly(parse, pad, term, s', vs[4..], pads, rest);
      var used := Decode(parse, pad, term, s' + rest).used;
      EndsLater(parse, s, vs, pads, f.used, used);
      assert s' != "" ==> s'[|s'| - 1] == s[|s| - 1];
    } else {
      LastOfAll(parse, pad, term, s, vs, pads, rest);
    }
  }

  lemma StopsAgain(parse: Parse, vs: seq<Sextet>, pads: nat, rest: string)
    requires |vs| >= 4 && (rest == "" || Stops(parse, |vs|, pads, rest[0]))
    ensures rest == "" || Stops(parse, |vs[4..]|, pads, rest[0])
  {
    TailOfRest(vs);
  }

  lemma LastOfAll(parse: Parse, pad: Pad, term: Term, s: string, vs: seq<Sextet>, pads: nat, rest: string)
    requires pad != PadNo && |vs| < 4 && MayPad(|vs|, pads) && Clean(parse, s) == Text(vs) + Equals(pads)
    requires rest == "" || Stops(parse, |vs|, pads, rest[0])
    ensures var d := Decode(parse, pad, term, s + rest);
            && d.value == BytesOf(vs) && EndsAt(parse, s, vs, pads, d.used)
            && (d.success <==> Succeeds(parse, pad, term, s, vs, pads, rest, d.used))
  {
    hide EncodeChar, DecodeChar, Clean, ScanOn, Bytes, LeftOver, Decode, NextQuantum, Stops, Noise, Text, Equals, Tail,
         EndsAt, BytesOf;
    var t := s + rest;
    TailIsAll(vs);
    NothingFound();
    if t == "" {
      EndsAtOnce(parse, s, vs, pads);
      DecodeNothing(parse, pad, term);
    } else {
      LastQuantum(parse, s, vs, pads, rest);
      DecodeUnfold(parse, pad, term, t);
      if vs == [] { OnlyNoise(parse, s, pads); }
    }
  }

  lemma EndsAtOnce(parse: Parse, s: string, vs: seq<Sextet>, pads: nat)
    requires s == "" && Clean(parse, s) == Text(vs) + Equals(pads)
    ensures vs == [] && pads == 0 && EndsAt(parse, s, vs, pads, 0)
  {
    hide EncodeChar;
    NothingIsClean(parse, s);
    assert |Text(vs)| == 0;
  }

  lemma OnlyNoise(parse: Parse, s: string, pads: nat)
    requires MayPad(0, pads) && Clean(parse, s) == Text([]) + Equals(pads)
    ensures pads == 0 && (NoTrailingNoise(parse, s) <==> s == "")
  {
    if s != "" { CleanIsNoise(parse, s); }
  }

  // ----- Every text is such a text -----

  /** Unless everything else is skipped, every text begins with sextets and pads that end at its end or
      where the decoder stops. */
  lemma {:induction false} Splits(parse: Parse, t: string, n: nat, vs: seq<Sextet>, pads: nat)
      returns (m: nat, vs': seq<Sextet>, pads': nat)
    requires parse != Any && n <= |t| && MayPad(|vs|, pads) && Clean(parse, t[..n]) == Text(vs) + Equals(pads)
    ensures m <= |t| && MayPad(|vs'|, pads') && Clean(parse, t[..m]) == Text(vs') + Equals(pads')
    ensures m == |t| || Stops(parse, |vs'|, pads', t[m])
    decreases |t| - n
  {
    hide EncodeChar, Clean;
    if n == |t| || Stops(parse, |vs|, pads, t[n]) {
      return n, vs, pads;
    }
    var c := t[n];
    assert t[..n + 1] == t[..n] + [c];
    CleanJoins(parse, t[..n], [c]);
    CleanOne(parse, c);
    TablesAgree(0, c);
    match DecodeChar(c)
    case Value(v) =>
      assert Text(vs + [v]) + Equals(0) == Text(vs) + [c];
      m, vs', pads' := Splits(parse, t, n + 1, vs + [v], 0);
    case Padding =>
      assert Text(vs) + Equals(pads + 1) == Text(vs) + Equals(pads) + [c];
      m, vs', pads' := Splits(parse, t, n + 1, vs, pads + 1);
    case Illegal => assert false;
    case Space =>
      assert Text(vs) + Equals(pads) + "" == Text(vs) + Equals(pads);
      m, vs', pads' := Splits(parse, t, n + 1, vs, pads);
  }

  // ----- Without padding -----

  /** A text with an illegal character for each pad. */
  function Barred(s: string): (r: string)
    ensures |r| == |s|
  {
    seq(|s|, i requires 0 <= i < |s| => if s[i] == '=' then '!' else s[i])
  }

  lemma {:induction false} BarredScan(parse: Parse, s: string, st: Scan)
    requires st.pos <= |s| && st.pads == 0
    ensures ScanOn(parse, true, s, st) == ScanOn(parse, false, Barred(s), st)
    ensures ScanOn(parse, true, s, st).pads == 0
    decreases |s| - st.pos
  {
    hide ScanOn;
    ScanUnfold(parse, true, s, st);
    ScanUnfold(parse, false, Barred(s), st);
    if |st.bytes| < 4 && st.pos < |s| {
      var look := Next(parse, true, st, s[st.pos]);
      assert look == Next(parse, false, st, Barred(s)[st.pos]);
      if look.Go? { BarredScan(parse, s, look.scan); }
    }
  }

  /** Where there is to be no padding, a pad is an illegal character like any other. */
  lemma {:induction false} NoPadding(parse: Parse, term: Term, s: string)
    ensures Decode(parse, PadNo, term, s) == Decode(parse, PadAny, term, Barred(s))
    decreases |s|
  {
    hide ScanOn, Bytes, LeftOver, Decode;
    if s == "" {
      DecodeNothing(parse, PadNo, term);
      DecodeNothing(parse, PadAny, term);
      assert Barred(s) == s;
    } else {
      DecodeUnfold(parse, PadNo, term, s);
      DecodeUnfold(parse, PadAny, term, Barred(s));
      BarredScan(parse, s, BEGIN);
      var f := NextQuantum(parse, true, s);
      if |f.bytes| == 4 {
        NoPadding(parse, term, s[f.used..]);
        assert Barred(s)[f.used..] == Barred(s[f.used..]);
      }
    }
  }

  // ----- Everything else skipped -----

  /** The sextets that a text holds, wherever they are. */
  function Values(s: string): seq<Sextet> {
    if s == "" then [] else ValueAt(s[0]) + Values(s[1..])
  }

  function ValueAt(c: char): seq<Sextet> {
    match DecodeChar(c)
    case Value(v) => [v]
    case _ => []
  }

  lemma {:induction false} ValuesJoin(a: string, b: string)
    ensures Values(a + b) == Values(a) + Values(b)
  {
    hide ValueAt;
    if a == "" {
      assert a + b == b;
    } else {
      assert (a + b)[1..] == a[1..] + b;
      ValuesJoin(a[1..], b);
    }
  }

  lemma ValuesNext(s: string, from: nat, to: nat)
    requires from <= to < |s|
    ensures Values(s[from..to + 1]) == Values(s[from..to]) + ValueAt(s[to])
  {
    hide ValueAt;
    assert s[from..to + 1] == s[from..to] + [s[to]];
    ValuesJoin(s[from..to], [s[to]]);
    assert [s[to]][1..] == "";
  }

  /** What a scan from `from` has done so far: all sextets are kept, and none follow the pads. */
  ghost predicate KeepsAll(s: string, from: nat, st: Scan) {
    && from <= st.pos <= |s| && |st.bytes| <= 4 && st.bytes == Values(s[from..st.pos])
    && (st.pads > 0 ==> from <= st.padStart < st.pos && Values(s[st.padStart..st.pos]) == [])
  }

  lemma NextKeepsAll(illegalPads: bool, s: string, from: nat, st: Scan)
    requires KeepsAll(s, from, st) && |st.bytes| < 4 && st.pos < |s|
    ensures var look := Next(Any, illegalPads, st, s[st.pos]); look.Go? && KeepsAll(s, from, look.scan)
    ensures illegalPads && st.pads == 0 ==> Next(Any, illegalPads, st, s[st.pos]).scan.pads == 0
  {
    hide Values;
    ValuesNext(s, from, st.pos);
    if st.pads > 0 { ValuesNext(s, st.padStart, st.pos); }
    ValuesNext(s, st.pos, st.pos);
    NoValues(s[st.pos..st.pos]);
  }

  lemma NoValues(s: string)
    requires s == ""
    ensures Values(s) == []
  {
  }

  lemma {:induction false} ScanKeepsAll(illegalPads: bool, s: string, from: nat, st: Scan)
    requires KeepsAll(s, from, st)
    ensures var r := ScanOn(Any, illegalPads, s, st);
            && KeepsAll(s, from, r) && (|r.bytes| < 4 ==> r.pos == |s|)
            && (illegalPads && st.pads == 0 ==> r.pads == 0)
    decreases |s| - st.pos
  {
    hide ScanOn, Next;
    ScanUnfold(Any, illegalPads, s, st);
    if |st.bytes| < 4 && st.pos < |s| {
      NextKeepsAll(illegalPads, s, from, st);
      NextMovesOn(Any, illegalPads, st, s[st.pos]);
      ScanKeepsAll(illegalPads, s, from, Next(Any, illegalPads, st, s[st.pos]).scan);
    }
  }

  lemma AnyQuantum(illegalPads: bool, s: string)
    ensures var f := NextQuantum(Any, illegalPads, s);
            && |f.bytes| <= 4 && f.used <= |s| && Values(s) == f.bytes + Values(s[f.used..])
            && (|f.bytes| < 4 ==> Values(s[f.used..]) == [] && (illegalPads ==> f.used == |s|))
  {
    hide ScanOn, Values;
    NoValues("");
    assert s[0..0] == "";
    ScanKeepsAll(illegalPads, s, 0, BEGIN);
    ScanBounds(Any, illegalPads, s, BEGIN);
    var r := ScanOn(Any, illegalPads, s, BEGIN);
    var f := NextQuantum(Any, illegalPads, s);
    assert s[0..r.pos] == s[0..f.used] + s[f.used..r.pos];
    ValuesJoin(s[0..f.used], s[f.used..r.pos]);
    assert s == s[0..f.used] + s[f.used..];
    ValuesJoin(s[0..f.used], s[f.used..]);
    NoValues(s[r.pos..r.pos]);
    assert r.pos == |s| ==> s[f.used..r.pos] == s[f.used..];
  }

  /** When all else is skipped, the bytes are those of all the sextets in the text, in every mode; none
      are left behind; and only left-over bits can make it fail, unless pads are asked for or a pad that
      does not fit must not be left over. */
  lemma {:induction false} AnyDecodesAll(pad: Pad, term: Term, s: string)
    ensures var d := Decode(Any, pad, term, s);
            && d.value == BytesOf(Values(s)) && d.used <= |s| && Values(s[d.used..]) == []
            && (pad == PadNo ==> d.used == |s|)
            && (d.success ==> term == TermAny || LeftOver(Tail(Values(s))) == 0)
            && (pad == PadNo || (pad == PadAny && term != TermBuffer) ==>
                  (d.success <==> term == TermAny || LeftOver(Tail(Values(s))) == 0))
    decreases |s|
  {
    hide Bytes, LeftOver, Decode, Values, NextQuantum, Tail, BytesOf;
    if s == "" {
      NothingFound();
      NoValues("");
      TailIsAll([]);
      DecodeNothing(Any, pad, term);
    } else {
      DecodeUnfold(Any, pad, term, s);
      AnyQuantum(pad == PadNo, s);
      var f := NextQuantum(Any, pad == PadNo, s);
      var vs := Values(s);
      if |f.bytes| == 4 {
        AnyDecodesAll(pad, term, s[f.used..]);
        assert vs[..4] == f.bytes && vs[4..] == Values(s[f.used..]);
        TailOfRest(vs);
        var u := Decode(Any, pad, term, s[f.used..]).used;
        assert s[f.used..][u..] == s[f.used + u..];
      } else {
        assert vs == f.bytes;
        TailIsAll(vs);
      }
    }
  }
}
