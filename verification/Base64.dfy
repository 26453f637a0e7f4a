/** Base64 of src/talk/base/base64.cc: the encoder, and the decoder with its three ways to
    parse, to treat padding and to terminate. */
module Base64 {
  import opened Common

  type Sextet = x: int | 0 <= x < 64

  // ----- The two tables -----

  function EncodeChar(v: Sextet): char {
    if v < 26 then ('A' as int + v) as char
    else if v < 52 then ('a' as int + v - 26) as char
    else if v < 62 then ('0' as int + v - 52) as char
    else if v == 62 then '+' else '/'
  }

  datatype Cell = Value(v: Sextet) | Padding | Space | Illegal

  function DecodeChar(c: char): Cell {
    if 'A' <= c <= 'Z' then Value(c as int - 'A' as int)
    else if 'a' <= c <= 'z' then Value(c as int - 'a' as int + 26)
    else if '0' <= c <= '9' then Value(c as int - '0' as int + 52)
    else if c == '+' then Value(62)
    else if c == '/' then Value(63)
    else if c == '=' then Padding
    else if c == ' ' || '\t' <= c <= '\r' then Space
    else Illegal
  }

  lemma TablesAgree(v: Sextet, c: char)
    ensures DecodeChar(EncodeChar(v)) == Value(v)
    ensures DecodeChar(c).Value? ==> EncodeChar(DecodeChar(c).v) == c
    ensures DecodeChar(c) == Padding <==> c == '='
  {
  }

  // ----- Encoding -----

  /** The first four sextets of up to three bytes, with zeros for what is missing. */
  function Sextets(x: seq<byte>): (q: seq<Sextet>)
    requires 0 < |x| <= 3
    ensures |q| == 4
  {
    var b1 := if |x| > 1 then x[1] else 0;
    var b2 := if |x| > 2 then x[2] else 0;
    [x[0] / 4, (x[0] % 4) * 16 + b1 / 16, (b1 % 16) * 4 + b2 / 64, b2 % 64]
  }

  function Quantum(x: seq<byte>): (s: string)
    requires 0 < |x| <= 3
    ensures |s| == 4
  {
    var q := Sextets(x);
    [EncodeChar(q[0]), EncodeChar(q[1]),
     if |x| > 1 then EncodeChar(q[2]) else '=',
     if |x| > 2 then EncodeChar(q[3]) else '=']
  }

  function Encode(x: seq<byte>): string {
    if |x| == 0 then "" else if |x| <= 3 then Quantum(x) else Quantum(x[..3]) + Encode(x[3..])
  }

  lemma {:induction false} EncodeLength(x: seq<byte>)
    ensures |Encode(x)| == (|x| + 2) / 3 * 4
  {
    hide Quantum;
    if |x| > 3 {
      EncodeLength(x[3..]);
      assert (|x| + 2) / 3 == 1 + (|x[3..]| + 2) / 3;
    } else if |x| > 0 {
      assert (|x| + 2) / 3 == 1;
    }
  }

  /** The bytes of the next quantum. */
  function Group(data: seq<byte>): (x: seq<byte>)
    requires |data| > 0
    ensures 0 < |x| <= 3 && x <= data
  {
    if |data| <= 3 then data else data[..3]
  }

  lemma ShiftAndMask(b: byte)
    ensures (b as int * 16) % 64 == (b as int % 4) * 16 && (b as int * 4) % 64 == (b as int % 16) * 4
  {
  }

  /** One round of the encoding loop: four characters from up to three bytes. */
  method EncodeGroup(data: seq<byte>, start: nat, result: array<char>, dest: nat) returns (i: nat)
    requires start < |data| && dest + 4 <= result.Length
    modifies result
    ensures i == start + |Group(data[start..])|
    ensures result[..dest] == old(result[..dest]) && result[dest..dest + 4] == Quantum(Group(data[start..]))
  {
    hide EncodeChar;
    ghost var x := Group(data[start..]);
    ghost var q := Sextets(x);
    var len := |data|;
    i := start;
    ShiftAndMask(data[i]);
    var c: int := data[i] / 4;
    result[dest] := EncodeChar(c);
    c := (data[i] as int * 16) % 64;
    i := i + 1;
    if i < len { c := c + data[i] / 16; }
    assert c == q[1];
    result[dest + 1] := EncodeChar(c);
    if i < len {
      ShiftAndMask(data[i]);
      c := (data[i] as int * 4) % 64;
      i := i + 1;
      if i < len { c := c + data[i] / 64; }
      assert c == q[2];
      result[dest + 2] := EncodeChar(c);
    } else {
      result[dest + 2] := '=';
    }
    if i < len {
      c := data[i] % 64;
      assert |x| == 3 ==> c == q[3];
      result[dest + 3] := EncodeChar(c);
      i := i + 1;
    } else {
      result[dest + 3] := '=';
    }
  }

  lemma EncodeUnfold(x: seq<byte>)
    requires |x| > 0
    ensures Encode(x) == Quantum(Group(x)) + Encode(x[|Group(x)|..])
  {
  }

  /** EncodeFromArray: the same, character by character into a buffer of the right size. */
  method EncodeFromArray(data: seq<byte>) returns (text: string)
    ensures text == Encode(data)
  {
    hide Encode, Quantum, Group;
    EncodeLength(data);
    var result := new char[(|data| + 2) / 3 * 4];
    var i, dest := 0, 0;
    assert data[0..] == data && result[..0] == "";
    while i < |data|
      invariant i <= |data| && dest <= result.Length
      invariant result[..dest] + Encode(data[i..]) == Encode(data)
    {
      ghost var (rest, done) := (data[i..], result[..dest]);
      EncodeUnfold(rest);
      assert |Encode(rest)| == result.Length - dest;
      i := EncodeGroup(data, i, result, dest);
      assert data[i..] == rest[|Group(rest)|..];
      assert result[..dest + 4] == done + Quantum(Group(rest));
      dest := dest + 4;
    }
    EncodeLength(data[i..]);
    assert result[..dest] == Encode(data);
    text := result[..];
  }

  // ----- Decoding, as values -----

  datatype Parse = Strict | White | Any
  datatype Pad = PadYes | PadAny | PadNo
  datatype Term = TermBuffer | TermChar | TermAny

  /** The scan for one quantum: the sextets found, the pads behind them, where those started,
      and how far the scan has come. */
  datatype Scan = Scan(bytes: seq<Sextet>, pads: nat, padStart: nat, pos: nat)

  const BEGIN := Scan([], 0, 0, 0)

  datatype Look = Go(scan: Scan) | Break

  /** What the scan does with the next character. */
  function Next(parse: Parse, illegalPads: bool, st: Scan, c: char): Look {
    var skip := Go(st.(pos := st.pos + 1));
    var skipIfAny := if parse == Any then skip else Break;
    match DecodeChar(c)
    case Illegal => skipIfAny
    case Space => if parse == Strict then Break else skip
    case Padding =>
      if illegalPads || |st.bytes| < 2 || |st.bytes| + st.pads >= 4 then skipIfAny
      else Go(st.(pads := st.pads + 1, pos := st.pos + 1,
                  padStart := if st.pads == 0 then st.pos else st.padStart))
    case Value(v) =>
      if st.pads > 0 && parse != Any then Break
      else Go(st.(bytes := st.bytes + [v], pads := 0, pos := st.pos + 1))
  }

  function ScanOn(parse: Parse, illegalPads: bool, s: string, st: Scan): Scan
    requires st.pos <= |s|
    decreases |s| - st.pos
  {
    if |st.bytes| >= 4 || st.pos == |s| then st
    else
      match Next(parse, illegalPads, st, s[st.pos])
      case Break => st
      case Go(next) => ScanOn(parse, illegalPads, s, next)
  }

  datatype Found = Found(bytes: seq<Sextet>, used: nat, padded: bool)

  /** Padding that does not complete the quantum is rolled back. */
  function Finish(st: Scan): Found {
    if |st.bytes| + st.pads == 4 then Found(st.bytes, st.pos, true)
    else Found(st.bytes, if st.pads > 0 then st.padStart else st.pos, false)
  }

  function NextQuantum(parse: Parse, illegalPads: bool, s: string): Found {
    Finish(ScanOn(parse, illegalPads, s, BEGIN))
  }

  function At(q: seq<Sextet>, i: nat): Sextet {
    if i < |q| then q[i] else 0
  }

  /** The bytes that a quantum gives, and the bits left over. */
  function Bytes(q: seq<Sextet>): seq<byte> {
    (if |q| >= 2 then [At(q, 0) * 4 + At(q, 1) / 16] else [])
    + (if |q| >= 3 then [(At(q, 1) % 16) * 16 + At(q, 2) / 4] else [])
    + (if |q| >= 4 then [(At(q, 2) % 4) * 64 + At(q, 3)] else [])
  }

  function LeftOver(q: seq<Sextet>): nat {
    if |q| <= 1 then At(q, 0) * 4
    else if |q| == 2 then (At(q, 1) % 16) * 16
    else if |q| == 3 then (At(q, 2) % 4) * 64
    else 0
  }

  datatype Decoded = Decoded(success: bool, value: seq<byte>, used: nat)

  function Decode(parse: Parse, pad: Pad, term: Term, s: string): Decoded
    decreases |s|
  {
    if s == "" then Decoded(true, [], 0)
    else
      ScanBounds(parse, pad == PadNo, s, BEGIN);
      var f := NextQuantum(parse, pad == PadNo, s);
      if |f.bytes| < 4 then
        Decoded((term == TermAny || LeftOver(f.bytes) == 0) && (pad != PadYes || f.padded)
                && (term != TermBuffer || f.used == |s|),
                Bytes(f.bytes), f.used)
      else
        var rest := Decode(parse, pad, term, s[f.used..]);
        Decoded(rest.success, Bytes(f.bytes) + rest.value, f.used + rest.used)
  }

  lemma {:induction false} ScanBounds(parse: Parse, illegalPads: bool, s: string, st: Scan)
    requires st.pos <= |s| && |st.bytes| <= 4 && |st.bytes| <= st.pos
    requires st.pads > 0 ==> st.padStart < st.pos
    ensures var r := ScanOn(parse, illegalPads, s, st);
            |st.bytes| <= |r.bytes| <= 4 && |r.bytes| <= r.pos && st.pos <= r.pos <= |s|
            && (r.pads > 0 ==> r.padStart < r.pos) && (|r.bytes| == 4 && |st.bytes| < 4 ==> r.pads == 0)
    decreases |s| - st.pos
  {
    if |st.bytes| < 4 && st.pos < |s| {
      var look := Next(parse, illegalPads, st, s[st.pos]);
      if look.Go? {
        if |look.scan.bytes| < 4 {
          ScanBounds(parse, illegalPads, s, look.scan);
        }
      }
    }
  }

  // ----- The decoder itself -----

  /** GetNextQuantum: the loop over the characters, from a position of the whole text. */
  method GetNextQuantum(parse: Parse, illegalPads: bool, data: string, from: nat)
    returns (qbuf: seq<Sextet>, len: nat, dpos: nat, padded: bool)
    requires from <= |data|
    ensures var f := NextQuantum(parse, illegalPads, data[from..]);
            len == |f.bytes| <= 4 && dpos == from + f.used && padded == f.padded
            && |qbuf| == 4 && forall i :: 0 <= i < 4 ==> qbuf[i] == At(f.bytes, i)
  {
    hide ScanOn;
    ghost var s := data[from..];
    ghost var st := BEGIN;
    var bytes: seq<Sextet>, pads, padStart := [], 0, 0;
    dpos := from;
    ScanBounds(parse, illegalPads, s, BEGIN);
    while |bytes| < 4 && dpos < |data|
      invariant from <= dpos <= |data| && |bytes| <= 4
      invariant st.bytes == bytes && st.pads == pads && st.pos == dpos - from
      invariant pads > 0 ==> padStart == from + st.padStart
      invariant ScanOn(parse, illegalPads, s, BEGIN) == ScanOn(parse, illegalPads, s, st)
    {
      ScanUnfold(parse, illegalPads, s, st);
      ghost var look := Next(parse, illegalPads, st, data[dpos]);
      var cell := DecodeChar(data[dpos]);
      if cell.Illegal? || (illegalPads && cell.Padding?) {
        if parse != Any { break; }
      } else if cell.Space? {
        if parse == Strict { break; }
      } else if cell.Padding? {
        if |bytes| < 2 {
          if parse != Any { break; }
        } else if |bytes| + pads >= 4 {
          if parse != Any { break; }
        } else {
          pads := pads + 1;
          if pads == 1 { padStart := dpos; }
        }
      } else {
        if pads > 0 {
          if parse != Any { break; }
          pads := 0;
        }
        bytes := bytes + [cell.v];
      }
      dpos := dpos + 1;
      st := look.scan;
    }
    ScanUnfold(parse, illegalPads, s, st);
    len := |bytes|;
    qbuf := seq(4, i requires 0 <= i < 4 => At(bytes, i));
    if len + pads == 4 {
      padded := true;
    } else {
      padded := false;
      if pads > 0 { dpos := padStart; }
    }
  }

  lemma ScanUnfold(parse: Parse, illegalPads: bool, s: string, st: Scan)
    requires st.pos <= |s|
    ensures ScanOn(parse, illegalPads, s, st)
            == if |st.bytes| >= 4 || st.pos == |s| || Next(parse, illegalPads, st, s[st.pos]).Break? then st
               else ScanOn(parse, illegalPads, s, Next(parse, illegalPads, st, s[st.pos]).scan)
  {
  }

  /** The bytes pushed for one quantum, and the bits that remain. */
  method Unpack(q: seq<Sextet>, qlen: nat, ghost bytes: seq<Sextet>) returns (value: seq<byte>, c: int)
    requires |q| == 4 && qlen == |bytes| <= 4 && forall i :: 0 <= i < 4 ==> q[i] == At(bytes, i)
    ensures value == Bytes(bytes) && c == LeftOver(bytes)
  {
    var (q0: int, q1: int, q2: int, q3: int) := (q[0], q[1], q[2], q[3]);
    value := [];
    c := q0 * 4 + q1 / 16;
    if qlen >= 2 {
      value := value + [c];
      c := (q1 % 16) * 16 + q2 / 4;
      if qlen >= 3 {
        value := value + [c];
        c := (q2 % 4) * 64 + q3;
        if qlen >= 4 {
          value := value + [c];
          c := 0;
        }
      }
    }
  }

  lemma DecodeUnfold(parse: Parse, pad: Pad, term: Term, s: string)
    requires s != ""
    ensures var f := NextQuantum(parse, pad == PadNo, s);
            && |f.bytes| <= 4 && f.used <= |s|
            && (|f.bytes| == 4 ==> f.used > 0)
            && Decode(parse, pad, term, s) ==
               if |f.bytes| < 4 then
                 Decoded((term == TermAny || LeftOver(f.bytes) == 0) && (pad != PadYes || f.padded)
                         && (term != TermBuffer || f.used == |s|),
                         Bytes(f.bytes), f.used)
               else
                 var rest := Decode(parse, pad, term, s[f.used..]);
                 Decoded(rest.success, Bytes(f.bytes) + rest.value, f.used + rest.used)
  {
    ScanBounds(parse, pad == PadNo, s, BEGIN);
  }

  lemma DecodeNothing(parse: Parse, pad: Pad, term: Term)
    ensures Decode(parse, pad, term, "") == Decoded(true, [], 0)
  {
  }

  /** DecodeFromArrayTemplate. */
  method DecodeFromArray(parse: Parse, pad: Pad, term: Term, data: string)
    returns (success: bool, value: seq<byte>, used: nat)
    ensures Decoded(success, value, used) == Decode(parse, pad, term, data)
  {
    hide NextQuantum, Bytes, LeftOver, Decode;
    value, success := [], true;
    var dpos := 0;
    ghost var whole := Decode(parse, pad, term, data);
    assert data[0..] == data;
    while dpos < |data|
      invariant dpos <= |data|
      invariant var rest := Decode(parse, pad, term, data[dpos..]);
                whole == Decoded(rest.success, value + rest.value, dpos + rest.used)
    {
      ghost var s := data[dpos..];
      DecodeUnfold(parse, pad, term, s);
      ghost var f := NextQuantum(parse, pad == PadNo, s);
      var q, qlen, padded;
      q, qlen, dpos, padded := GetNextQuantum(parse, pad == PadNo, data, dpos);
      var more, c := Unpack(q, qlen, f.bytes);
      value := value + more;
      if qlen < 4 {
        if term != TermAny && c != 0 { success := false; }
        if pad == PadYes && !padded { success := false; }
        if term == TermBuffer && dpos != |data| { success := false; }
        return success, value, dpos;
      }
      assert s[f.used..] == data[dpos..];
    }
    assert data[dpos..] == "";
    DecodeNothing(parse, pad, term);
    used := dpos;
  }
}
