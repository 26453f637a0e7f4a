/** What the decoder of src/talk/base/base64.cc makes of encodings and of everything else. */
module Base64Proofs {
  import opened Common
  import opened Base64

  // ----- Sextets and bytes -----

  function Text(q: seq<Sextet>): (s: string)
    ensures |s| == |q|
  {
    seq(|q|, i requires 0 <= i < |q| => EncodeChar(q[i]))
  }

  function Equals(n: nat): (s: string)
    ensures |s| == n
  {
    seq(n, _ => '=')
  }

  /** The sextets of a group that are written out; the others are written as pads. */
  function Written(x: seq<byte>): seq<Sextet>
    requires 0 < |x| <= 3
  {
    Sextets(x)[..|x| + 1]
  }

  lemma GroupReadsBack(x: seq<byte>)
    requires 0 < |x| <= 3
    ensures Bytes(Written(x)) == x && LeftOver(Written(x)) == 0
    ensures Quantum(x) == Text(Written(x)) + Equals(3 - |x|)
  {
    hide EncodeChar;
    assert Quantum(x)[..|x| + 1] == Text(Written(x));
  }

  lemma SextetsReadBack(q: seq<Sextet>)
    requires 2 <= |q| <= 4 && LeftOver(q) == 0
    ensures |Bytes(q)| == |q| - 1 && Written(Bytes(q)) == q
  {
    var (x, w) := (Bytes(q), Written(Bytes(q)));
    assert |x| == |q| - 1 && |w| == |q|;
    assert w[0] == q[0] && w[1] == q[1];
    assert |q| > 2 ==> w[2] == q[2];
    assert |q| > 3 ==> w[3] == q[3];
  }

  lemma TextSplits(vs: seq<Sextet>)
    requires vs != []
    ensures Text(vs) == [EncodeChar(vs[0])] + Text(vs[1..])
  {
    hide EncodeChar;
  }

  // ----- Noise -----

  /** Characters that the parser skips wherever they stand. */
  predicate Noise(parse: Parse, c: char) {
    match DecodeChar(c)
    case Illegal => parse == Any
    case Space => parse != Strict
    case _ => false
  }

  function Clean(parse: Parse, s: string): string {
    if s == "" then ""
    else if Noise(parse, s[0]) then Clean(parse, s[1..])
    else [s[0]] + Clean(parse, s[1..])
  }

  lemma CleanFrom(parse: Parse, s: string, pos: nat)
    requires pos < |s|
    ensures Clean(parse, s[pos..]) == (if Noise(parse, s[pos]) then "" else [s[pos]]) + Clean(parse, s[pos + 1..])
  {
    assert s[pos..][1..] == s[pos + 1..];
  }

  lemma CleanEnd(parse: Parse, s: string)
    ensures Clean(parse, s[|s|..]) == ""
  {
  }

  /** A scan that finds all the sextets it needs. */
  lemma {:induction false} ScanFull(parse: Parse, s: string, st: Scan, vs: seq<Sextet>)
    requires st.pos <= |s| && st.pads == 0 && |st.bytes| + |vs| == 4
    requires Text(vs) <= Clean(parse, s[st.pos..])
    ensures var r := ScanOn(parse, false, s, st);
            && r.bytes == st.bytes + vs && r.pads == 0 && st.pos <= r.pos <= |s|
            && Clean(parse, s[r.pos..]) == Clean(parse, s[st.pos..])[|vs|..]
            && (vs != [] ==> r.pos > 0 && !Noise(parse, s[r.pos - 1]))
    decreases |s| - st.pos
  {
    hide EncodeChar, DecodeChar, Clean, ScanOn;
    ScanUnfold(parse, false, s, st);
    if vs != [] {
      CleanEnd(parse, s);
      var c := s[st.pos];
      CleanFrom(parse, s, st.pos);
      TextSplits(vs);
      assert Text(vs)[0] == EncodeChar(vs[0]);
      TablesAgree(vs[0], c);
      var rest := Clean(parse, s[st.pos + 1..]);
      if Noise(parse, c) {
        assert "" + rest == rest;
        ScanFull(parse, s, st.(pos := st.pos + 1), vs);
      } else {
        var next := st.(bytes := st.bytes + [vs[0]], pos := st.pos + 1);
        assert rest == Clean(parse, s[st.pos..])[1..];
        ScanFull(parse, s, next, vs[1..]);
        assert next.bytes + vs[1..] == st.bytes + vs;
        var r := ScanOn(parse, false, s, next);
        assert vs[1..] == [] ==> r == next by { if vs[1..] == [] { ScanUnfold(parse, false, s, next); } }
      }
    }
  }

  lemma OneSextetLess(vs: seq<Sextet>, pads: nat)
    requires vs != []
    ensures var all := Text(vs) + Equals(pads);
            all[0] == EncodeChar(vs[0]) && all[1..] == Text(vs[1..]) + Equals(pads)
  {
    hide EncodeChar;
    TextSplits(vs);
  }

  lemma OnePadLess(pads: nat)
    requires pads > 0
    ensures var all := Text([]) + Equals(pads); all[0] == '=' && all[1..] == Text([]) + Equals(pads - 1)
  {
  }

  /** A scan that comes to the end of the text with fewer than four sextets. */
  lemma {:induction false} ScanEnd(parse: Parse, s: string, st: Scan, vs: seq<Sextet>, pads: nat)
    requires st.pos <= |s| && |st.bytes| + |vs| + st.pads + pads <= 4 && |st.bytes| + |vs| < 4
    requires (pads > 0 ==> |st.bytes| + |vs| >= 2) && (vs != [] ==> st.pads == 0)
    requires Clean(parse, s[st.pos..]) == Text(vs) + Equals(pads)
    ensures var r := ScanOn(parse, false, s, st);
            r.bytes == st.bytes + vs && r.pads == st.pads + pads && r.pos == |s|
    decreases |s| - st.pos
  {
    hide EncodeChar, DecodeChar, Clean, ScanOn;
    CleanEnd(parse, s);
    ScanUnfold(parse, false, s, st);
    if st.pos < |s| {
      var c := s[st.pos];
      CleanFrom(parse, s, st.pos);
      var rest := Clean(parse, s[st.pos + 1..]);
      var all := Text(vs) + Equals(pads);
      if Noise(parse, c) {
        assert "" + rest == rest;
        ScanEnd(parse, s, st.(pos := st.pos + 1), vs, pads);
      } else if vs != [] {
        TablesAgree(vs[0], c);
        OneSextetLess(vs, pads);
        assert rest == all[1..];
        ScanEnd(parse, s, st.(bytes := st.bytes + [vs[0]], pos := st.pos + 1), vs[1..], pads);
        assert st.bytes + [vs[0]] + vs[1..] == st.bytes + vs;
      } else {
        TablesAgree(0, c);
        OnePadLess(pads);
        assert rest == all[1..];
        ScanEnd(parse, s, Next(parse, false, st, c).scan, vs, pads - 1);
      }
    } else {
      assert vs == [] && pads == 0;
    }
  }

  // ----- Encodings are decoded, noise or not -----

  /** Nothing that the parser would skip follows the last character. */
  predicate NoTrailingNoise(parse: Parse, s: string) {
    s == "" || !Noise(parse, s[|s| - 1])
  }

  lemma QuantumFound(parse: Parse, s: string, x: seq<byte>)
    requires x != [] && Clean(parse, s) == Encode(x)
    ensures var (g, f) := (Group(x), NextQuantum(parse, false, s));
            && f.bytes == Written(g) && f.padded && f.used <= |s|
            && (|g| < 3 ==> f.used == |s|)
            && (|g| == 3 ==> f.used > 0 && Clean(parse, s[f.used..]) == Encode(x[3..])
                             && !Noise(parse, s[f.used - 1]))
  {
    hide EncodeChar, DecodeChar, Clean, ScanOn;
    var g := Group(x);
    EncodeUnfold(x);
    GroupReadsBack(g);
    assert s[0..] == s;
    if |g| == 3 {
      assert Quantum(g) == Text(Written(g));
      ScanFull(parse, s, BEGIN, Written(g));
      assert Encode(x)[4..] == Encode(x[3..]);
      assert BEGIN.bytes + Written(g) == Written(g);
    } else {
      assert Encode(x) == Quantum(g);
      ScanEnd(parse, s, BEGIN, Written(g), 3 - |g|);
      assert BEGIN.bytes + Written(g) == Written(g);
    }
  }

  /** An encoding with noise anywhere, before, between and after its characters and pads, gives
      back its source and is consumed whole, whatever the termination mode; the one thing that
      required padding does not allow is noise behind an encoding that needs no pads. */
  lemma {:induction false} NoisyEncodingDecodes(parse: Parse, pad: Pad, term: Term, s: string, x: seq<byte>)
    requires pad != PadNo && Clean(parse, s) == Encode(x)
    ensures Decode(parse, pad, term, s)
            == Decoded(pad == PadAny || |x| % 3 != 0 || NoTrailingNoise(parse, s), x, |s|)
    decreases |x|
  {
    hide EncodeChar, DecodeChar, Clean, ScanOn, Encode, Quantum, Sextets, Bytes, LeftOver, Decode;
    if s == "" {
      DecodeNothing(parse, pad, term);
      CleanEnd(parse, s);
      EncodeEmpty(x);
    } else {
      DecodeUnfold(parse, pad, term, s);
      var f := NextQuantum(parse, false, s);
      if x == [] {
        EncodeEmpty(x);
        assert s[0..] == s && Text([]) + Equals(0) == "";
        ScanEnd(parse, s, BEGIN, [], 0);
        NothingFound();
        CleanIsNoise(parse, s);
      } else {
        QuantumFound(parse, s, x);
        var g := Group(x);
        GroupReadsBack(g);
        if |g| == 3 {
          var s' := s[f.used..];
          NoisyEncodingDecodes(parse, pad, term, s', x[3..]);
          assert g + x[3..] == x;
          assert s' != "" ==> s'[|s'| - 1] == s[|s| - 1];
        }
      }
    }
  }

  lemma EncodeEmpty(x: seq<byte>)
    ensures Encode(x) == "" <==> x == []
  {
  }

  lemma NothingFound()
    ensures Bytes([]) == [] && LeftOver([]) == 0
  {
  }

  lemma {:induction false} CleanIsNoise(parse: Parse, s: string)
    requires s != "" && Clean(parse, s) == ""
    ensures Noise(parse, s[|s| - 1])
  {
    if |s| > 1 { CleanIsNoise(parse, s[1..]); }
  }

  lemma {:induction false} EncodingHasNoNoise(parse: Parse, x: seq<byte>)
    ensures Clean(parse, Encode(x)) == Encode(x) && NoTrailingNoise(parse, Encode(x))
  {
    var s := Encode(x);
    if x != [] {
      EncodeUnfold(x);
      var (g, rest) := (Group(x), x[|Group(x)|..]);
      EncodingHasNoNoise(parse, rest);
      var q := Quantum(g);
      forall i | 0 <= i < 4 ensures !Noise(parse, q[i]) {
        var w := Sextets(g);
        TablesAgree(w[0], '='); TablesAgree(w[1], '='); TablesAgree(w[2], '='); TablesAgree(w[3], '=');
      }
      CleanPrefix(parse, q, Encode(rest));
      assert s == q + Encode(rest);
    }
  }

  lemma {:induction false} CleanPrefix(parse: Parse, q: string, rest: string)
    requires forall i :: 0 <= i < |q| ==> !Noise(parse, q[i])
    ensures Clean(parse, q + rest) == q + Clean(parse, rest)
    decreases |q|
  {
    if q == "" {
      assert q + rest == rest;
    } else {
      assert (q + rest)[1..] == q[1..] + rest;
      CleanPrefix(parse, q[1..], rest);
    }
  }

  /** Every encoding decodes to its source, with all input consumed, in every mode that
      accepts padding. */
  lemma EncodingDecodes(parse: Parse, pad: Pad, term: Term, x: seq<byte>)
    requires pad != PadNo
    ensures Decode(parse, pad, term, Encode(x)) == Decoded(true, x, |Encode(x)|)
  {
    EncodingHasNoNoise(parse, x);
    NoisyEncodingDecodes(parse, pad, term, Encode(x), x);
  }

  // ----- Strict decoding accepts nothing else -----

  /** What a strict scan has seen is exactly what it has kept. */
  ghost predicate Seen(s: string, st: Scan) {
    && st.pos == |st.bytes| + st.pads <= 4 && st.pos <= |s|
    && s[..st.pos] == Text(st.bytes) + Equals(st.pads)
    && (st.pads > 0 ==> |st.bytes| >= 2)
  }

  lemma {:induction false} StrictScan(s: string, st: Scan)
    requires Seen(s, st)
    ensures Seen(s, ScanOn(Strict, false, s, st))
    decreases |s| - st.pos
  {
    hide EncodeChar, DecodeChar, ScanOn;
    ScanUnfold(Strict, false, s, st);
    if |st.bytes| < 4 && st.pos < |s| {
      var c := s[st.pos];
      var look := Next(Strict, false, st, c);
      if look.Go? {
        TablesAgree(0, c);
        var next := look.scan;
        assert s[..st.pos + 1] == s[..st.pos] + [c];
        if next.pads > st.pads {
          assert Equals(next.pads) == Equals(st.pads) + [c];
        } else {
          assert Text(next.bytes) == Text(st.bytes) + [c];
          assert Equals(0) == "";
        }
        assert s[..next.pos] == Text(next.bytes) + Equals(next.pads);
        StrictScan(s, next);
      }
    }
  }

  lemma {:induction false} StrictDecodesOnlyEncodings(s: string)
    requires Decode(Strict, PadYes, TermBuffer, s).success
    ensures s == Encode(Decode(Strict, PadYes, TermBuffer, s).value)
    decreases |s|
  {
    hide EncodeChar, DecodeChar, ScanOn, Quantum, Sextets, Bytes, LeftOver, Decode;
    if s == "" {
      DecodeNothing(Strict, PadYes, TermBuffer);
    } else {
      DecodeUnfold(Strict, PadYes, TermBuffer, s);
      assert s[..0] == Text([]) + Equals(0);
      StrictScan(s, BEGIN);
      var f := NextQuantum(Strict, false, s);
      var q := f.bytes;
      var g := Bytes(q);
      if |q| == 4 {
        NoLeftOver(q);
        SextetsReadBack(q);
        GroupReadsBack(g);
        assert s[..4] == Text(q) + Equals(0) == Quantum(g);
        var rest := Decode(Strict, PadYes, TermBuffer, s[4..]);
        StrictDecodesOnlyEncodings(s[4..]);
        EncodeCons(g, rest.value);
        assert s == s[..4] + s[4..];
      } else {
        SextetsReadBack(q);
        GroupReadsBack(g);
        assert s == s[..f.used] == Quantum(g);
      }
    }
  }

  lemma NoLeftOver(q: seq<Sextet>)
    requires |q| == 4
    ensures LeftOver(q) == 0
  {
  }

  lemma EncodeCons(g: seq<byte>, rest: seq<byte>)
    requires |g| == 3
    ensures Encode(g + rest) == Quantum(g) + Encode(rest)
  {
    EncodeUnfold(g + rest);
    assert Group(g + rest) == g && (g + rest)[3..] == rest;
  }

  /** DO_STRICT accepts exactly the canonical encodings, and gives back what was encoded. */
  lemma StrictIsCanonical(s: string, x: seq<byte>)
    ensures Decode(Strict, PadYes, TermBuffer, s).success && Decode(Strict, PadYes, TermBuffer, s).value == x
            <==> s == Encode(x)
  {
    if s == Encode(x) {
      EncodingDecodes(Strict, PadYes, TermBuffer, x);
    } else if Decode(Strict, PadYes, TermBuffer, s).success {
      StrictDecodesOnlyEncodings(s);
    }
  }

  // ----- The alphabet -----

  /** The alphabet of table 1 of RFC 4648, by the codes of its characters. */
  lemma AlphabetIs(v: Sextet)
    ensures v < 26 ==> EncodeChar(v) as int == 65 + v
    ensures 26 <= v < 52 ==> EncodeChar(v) as int == 97 + (v - 26)
    ensures 52 <= v < 62 ==> EncodeChar(v) as int == 48 + (v - 52)
    ensures EncodeChar(62) as int == 43 && EncodeChar(63) as int == 47
  {
  }

  /** The characters that are not of the alphabet: white space, the pad, and all others. */
  lemma OtherCharactersAre(c: char)
    ensures DecodeChar(c).Space? <==> c as int == 32 || 9 <= c as int <= 13
    ensures DecodeChar(c).Padding? <==> c == '='
    ensures DecodeChar(c).Illegal? <==>
            !('A' <= c <= 'Z' || 'a' <= c <= 'z' || '0' <= c <= '9' || c == '+' || c == '/' || c == '='
              || c as int == 32 || 9 <= c as int <= 13)
  {
  }

  /** The examples of section 10 of RFC 4648, and one with the last two characters. */
  lemma Examples()
    ensures Encode([102]) == "Zg==" && Encode([102, 111]) == "Zm8=" && Encode([102, 111, 111]) == "Zm9v"
    ensures Encode([102, 111, 111, 98, 97, 114]) == "Zm9vYmFy"
    ensures Encode([251, 239, 255]) == "++//"
  {
    assert Encode([102, 111, 111]) == "Zm9v" && Encode([98, 97, 114]) == "YmFy";
    EncodeCons([102, 111, 111], [98, 97, 114]);
    assert [102, 111, 111] + [98, 97, 114] == [102, 111, 111, 98, 97, 114];
  }
}
