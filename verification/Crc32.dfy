/** CRC-32 of src/talk/base/crc32.cc (section 8 of RFC 1952): the table-driven form and the
    bit-by-bit one. */
module Crc32 {

  const POLYNOMIAL: bv32 := 0xEDB88320

  // ----- Register operations, named so that the proofs can use them without their bits -----

  function Add(a: bv32, b: bv32): bv32 {
    a ^ b
  }

  function Half(x: bv32): bv32 {
    x >> 1
  }

  predicate Odd(x: bv32) {
    x & 1 == 1
  }

  function Low(x: bv32): bv32 {
    x & 0xFF
  }

  function High(x: bv32): bv32 {
    x & 0xFFFF_FF00
  }

  function Rest(x: bv32): bv32 {
    x >> 8
  }

  function Flip(x: bv32): bv32 {
    x ^ 0xFFFF_FFFF
  }

  lemma AddCommutes(a: bv32, b: bv32)
    ensures Add(a, b) == Add(b, a)
  {
  }

  lemma AddAssociates(a: bv32, b: bv32, c: bv32)
    ensures Add(a, Add(b, c)) == Add(Add(a, b), c)
  {
    assert a ^ (b ^ c) == (a ^ b) ^ c;
  }

  lemma HalfAdds(a: bv32, b: bv32)
    ensures Half(Add(a, b)) == Add(Half(a), Half(b))
  {
    assert (a ^ b) >> 1 == (a >> 1) ^ (b >> 1);
  }

  lemma OddAdds(a: bv32, b: bv32)
    ensures Odd(Add(a, b)) <==> Odd(a) != Odd(b)
  {
    assert (a ^ b) & 1 == (a & 1) ^ (b & 1);
  }

  lemma AddZero(a: bv32)
    ensures Add(a, 0) == a
  {
  }

  lemma LowAndHigh(x: bv32)
    ensures Add(Low(x), High(x)) == x
  {
    assert (x & 0xFF) ^ (x & 0xFFFF_FF00) == x;
  }

  lemma ByteHasNoRest(u: bv32)
    requires u <= 0xFF
    ensures Rest(u) == 0
  {
  }

  lemma RestOfHigh(x: bv32)
    ensures Rest(High(x)) == Rest(x)
  {
    assert (x & 0xFFFF_FF00) >> 8 == x >> 8;
  }

  lemma RestAdds(c: bv32, u: bv32)
    ensures Rest(Add(c, u)) == Add(Rest(c), Rest(u))
  {
    assert (c ^ u) >> 8 == (c >> 8) ^ (u >> 8);
  }

  lemma ByteIsLow(c: bv32, u: bv32)
    requires u <= 0xFF
    ensures Rest(u) == 0 && Rest(High(Add(c, u))) == Rest(c)
  {
    hide Rest, High, Add;
    ByteHasNoRest(u);
    RestOfHigh(Add(c, u));
    RestAdds(c, u);
    AddZero(Rest(c));
  }

  lemma FlipTwice(x: bv32)
    ensures Flip(Flip(x)) == x
  {
    assert (x ^ 0xFFFF_FFFF) ^ 0xFFFF_FFFF == x;
  }

  // ----- Bit by bit -----

  /** Feeds one bit of the message into the reflected register. */
  function FeedBit(c: bv32, bit: bool): bv32 {
    if Odd(c) != bit then Add(Half(c), POLYNOMIAL) else Half(c)
  }

  function FeedBits(c: bv32, b: bv32, n: nat): bv32
    decreases n
  {
    if n == 0 then c else FeedBits(FeedBit(c, Odd(b)), Half(b), n - 1)
  }

  /** The register after a message, each byte from its lowest bit. */
  function FeedBytes(c: bv32, u: seq<bv8>): bv32 {
    if u == [] then c else FeedBits(FeedBytes(c, u[..|u| - 1]), u[|u| - 1] as bv32, 8)
  }

  /** The checksum of section 8 of RFC 1952, continued from an earlier one. */
  function Crc(start: bv32, u: seq<bv8>): bv32 {
    Flip(FeedBytes(Flip(start), u))
  }

  // ----- A table for eight bits at once -----

  /** One step of the shift register, with the low bit fed back. */
  function Shift(c: bv32): bv32 {
    if Odd(c) then Add(POLYNOMIAL, Half(c)) else Half(c)
  }

  function ShiftN(c: bv32, n: nat): bv32
    decreases n
  {
    if n == 0 then c else ShiftN(Shift(c), n - 1)
  }

  function Drop(b: bv32, n: nat): bv32
    decreases n
  {
    if n == 0 then b else Drop(Half(b), n - 1)
  }

  predicate LowZero(b: bv32, n: nat)
    decreases n
  {
    n == 0 || (!Odd(b) && LowZero(Half(b), n - 1))
  }

  lemma FeedIsShift(c: bv32, b: bv32)
    ensures Shift(Add(c, b)) == Add(FeedBit(c, Odd(b)), Half(b))
  {
    hide Add, Half, Odd;
    OddAdds(c, b);
    HalfAdds(c, b);
    AddAssociates(POLYNOMIAL, Half(c), Half(b));
    AddCommutes(POLYNOMIAL, Half(c));
  }

  lemma ShiftApart(lo: bv32, hi: bv32)
    requires !Odd(hi)
    ensures Shift(Add(lo, hi)) == Add(Shift(lo), Half(hi))
  {
    hide Add, Half, Odd;
    OddAdds(lo, hi);
    HalfAdds(lo, hi);
    AddAssociates(POLYNOMIAL, Half(lo), Half(hi));
  }

  /** Feeding bits one by one is shifting with all of them added in advance. */
  lemma {:induction false} FeedBitsIsShift(c: bv32, b: bv32, n: nat)
    ensures Add(FeedBits(c, b, n), Drop(b, n)) == ShiftN(Add(c, b), n)
    decreases n
  {
    hide Shift, FeedBit, Add, Half, Odd;
    if n > 0 {
      FeedIsShift(c, b);
      FeedBitsIsShift(FeedBit(c, Odd(b)), Half(b), n - 1);
    }
  }

  /** Bits that have not come down yet only move. */
  lemma {:induction false} ShiftHighBits(lo: bv32, hi: bv32, n: nat)
    requires LowZero(hi, n)
    ensures ShiftN(Add(lo, hi), n) == Add(ShiftN(lo, n), Drop(hi, n))
    decreases n
  {
    hide Shift, Add, Half, Odd;
    if n > 0 {
      ShiftApart(lo, hi);
      ShiftHighBits(Shift(lo), Half(hi), n - 1);
    }
  }

  lemma {:induction false} DropMore(x: bv32, m: nat, n: nat)
    ensures Drop(x, m + n) == Drop(Drop(x, m), n)
    decreases m
  {
    hide Half;
    if m > 0 {
      DropMore(Half(x), m - 1, n);
    }
  }

  function Quarter(x: bv32): bv32 {
    x >> 2
  }

  function Sixteenth(x: bv32): bv32 {
    x >> 4
  }

  lemma HalfTwice(x: bv32)
    ensures Half(Half(x)) == Quarter(x)
  {
  }

  lemma QuarterTwice(x: bv32)
    ensures Quarter(Quarter(x)) == Sixteenth(x)
  {
  }

  lemma SixteenthTwice(x: bv32)
    ensures Sixteenth(Sixteenth(x)) == Rest(x)
  {
  }

  lemma Drop2(x: bv32)
    ensures Drop(x, 2) == Quarter(x)
  {
    hide Half, Quarter;
    assert Drop(x, 2) == Drop(Half(x), 1) == Half(Half(x));
    HalfTwice(x);
  }

  lemma Drop4(x: bv32)
    ensures Drop(x, 4) == Sixteenth(x)
  {
    hide Drop, Quarter, Sixteenth;
    DropMore(x, 2, 2);
    Drop2(x);
    Drop2(Quarter(x));
    QuarterTwice(x);
  }

  lemma Drop8(x: bv32)
    ensures Drop(x, 8) == Rest(x)
  {
    hide Drop, Sixteenth, Rest;
    DropMore(x, 4, 4);
    Drop4(x);
    Drop4(Sixteenth(x));
    SixteenthTwice(x);
  }

  lemma {:induction false} LowZeroMore(x: bv32, m: nat, n: nat)
    requires LowZero(x, m) && LowZero(Drop(x, m), n)
    ensures LowZero(x, m + n)
    decreases m
  {
    hide Half, Odd;
    if m > 0 {
      LowZeroMore(Half(x), m - 1, n);
    }
  }

  lemma OddHalves(x: bv32)
    requires x & 3 == 0
    ensures !Odd(x) && !Odd(Half(x))
  {
    assert x & 1 == 0 && (x >> 1) & 1 == 0;
  }

  predicate Fourfold(x: bv32) {
    x & 3 == 0
  }

  lemma LowZero2(x: bv32)
    requires Fourfold(x)
    ensures LowZero(x, 2)
  {
    OddHalves(x);
    hide Odd, Half, Fourfold;
    assert LowZero(Half(x), 1) by { assert LowZero(Half(Half(x)), 0); }
  }

  lemma HighIsFourfold(x: bv32)
    ensures var y := High(x); Fourfold(y) && Fourfold(Quarter(y))
    ensures var z := Sixteenth(High(x)); Fourfold(z) && Fourfold(Quarter(z))
  {
  }

  lemma LowZero4(x: bv32)
    requires Fourfold(x) && Fourfold(Quarter(x))
    ensures LowZero(x, 4)
  {
    hide LowZero, Drop, Fourfold, Quarter;
    LowZero2(x);
    LowZero2(Quarter(x));
    Drop2(x);
    LowZeroMore(x, 2, 2);
  }

  lemma LowZero8(x: bv32)
    ensures LowZero(High(x), 8)
  {
    hide LowZero, Drop, High, Fourfold, Quarter, Sixteenth;
    HighIsFourfold(x);
    LowZero4(High(x));
    LowZero4(Sixteenth(High(x)));
    Drop4(High(x));
    LowZeroMore(High(x), 4, 4);
  }

  lemma Halves(c: bv32, u: bv32)
    requires u <= 0xFF
    ensures Add(Low(Add(c, u)), High(Add(c, u))) == Add(c, u)
    ensures Drop(High(Add(c, u)), 8) == Rest(c) && LowZero(High(Add(c, u)), 8)
    ensures Drop(u, 8) == 0
  {
    hide Drop, LowZero, Add, Low, High, Rest;
    var x := Add(c, u);
    LowAndHigh(x);
    ByteIsLow(c, u);
    Drop8(u);
    Drop8(High(x));
    LowZero8(x);
  }

  /** One lookup does the work of eight bits. */
  lemma LookupIsEightBits(c: bv32, u: bv32)
    requires u <= 0xFF
    ensures Add(ShiftN(Low(Add(c, u)), 8), Rest(c)) == FeedBits(c, u, 8)
  {
    hide Shift, FeedBit, ShiftN, Drop, FeedBits, Add, Low, High, LowZero, Rest, Half, Odd;
    Halves(c, u);
    FeedBitsIsShift(c, u, 8);
    AddZero(FeedBits(c, u, 8));
    ShiftHighBits(Low(Add(c, u)), High(Add(c, u)), 8);
  }

  // ----- The checksum over a split message -----

  lemma {:induction false} FeedBytesAppend(c: bv32, a: seq<bv8>, b: seq<bv8>)
    ensures FeedBytes(c, a + b) == FeedBytes(FeedBytes(c, a), b)
  {
    hide FeedBits;
    if b == [] {
      assert a + b == a;
    } else {
      assert (a + b)[..|a + b| - 1] == a + b[..|b| - 1];
      FeedBytesAppend(c, a, b[..|b| - 1]);
    }
  }

  /** Updating over two pieces in turn is updating over their concatenation. */
  lemma CrcOfPieces(start: bv32, a: seq<bv8>, b: seq<bv8>)
    ensures Crc(Crc(start, a), b) == Crc(start, a + b)
  {
    hide FeedBytes, Flip;
    FeedBytesAppend(Flip(start), a, b);
    FlipTwice(FeedBytes(Flip(start), a));
  }

  // ----- The table -----

  /** Entry i of the table: what eight shifts make of i. */
  ghost predicate Inited(table: array<bv32>)
    reads table
  {
    table.Length == 256 && forall i :: 0 <= i < 256 ==> table[i] == ShiftN(i as bv32, 8)
  }

  /** The only states of the static table: as it was loaded, or filled. */
  ghost predicate Usable(table: array<bv32>)
    reads table
  {
    Inited(table) || (table.Length == 256 && forall i :: 0 <= i < 256 ==> table[i] == 0)
  }

  lemma LastEntry()
    ensures ShiftN(255, 8) == 0x2D02EF8D
  {
  }

  /** Entries that the table of section 8 of RFC 1952 has. */
  lemma KnownEntries()
    ensures ShiftN(0, 8) == 0 && ShiftN(1, 8) == 0x77073096 && ShiftN(2, 8) == 0xEE0E612C
    ensures ShiftN(3, 8) == 0x990951BA && ShiftN(128, 8) == 0xEDB88320
  {
  }

  lemma FeedOne(c: bv32, u: seq<bv8>, n: nat, d: bv32, e: bv32)
    requires n < |u| && FeedBytes(c, u[..n]) == d && FeedBits(d, u[n] as bv32, 8) == e
    ensures FeedBytes(c, u[..n + 1]) == e
  {
    hide FeedBits;
    assert u[..n + 1][..n] == u[..n];
  }

  /** The register after each of the digits. */
  lemma DigitsFed()
    ensures FeedBits(0xFFFFFFFF, 0x31, 8) == 0x7C231048
    ensures FeedBits(0x7C231048, 0x32, 8) == 0xB0ACBB32
    ensures FeedBits(0xB0ACBB32, 0x33, 8) == 0x77B79C2D
    ensures FeedBits(0x77B79C2D, 0x34, 8) == 0x641C1F5C
    ensures FeedBits(0x641C1F5C, 0x35, 8) == 0x340AC5E3
    ensures FeedBits(0x340AC5E3, 0x36, 8) == 0xF68D2C9E
    ensures FeedBits(0xF68D2C9E, 0x37, 8) == 0xAFFC9660
    ensures FeedBits(0xAFFC9660, 0x38, 8) == 0x651F2550
    ensures FeedBits(0x651F2550, 0x39, 8) == 0x340BC6D9
  {
  }

  /** The check value of CRC-32: the checksum of the nine digits "123456789". */
  lemma CheckValue()
    ensures Crc(0, [0x31, 0x32, 0x33, 0x34, 0x35, 0x36, 0x37, 0x38, 0x39]) == 0xCBF43926
  {
    DigitsFed();
    hide FeedBits;
    var u: seq<bv8> := [0x31, 0x32, 0x33, 0x34, 0x35, 0x36, 0x37, 0x38, 0x39];
    assert FeedBytes(0xFFFF_FFFF, u[..0]) == 0xFFFF_FFFF;
    hide FeedBytes;
    FeedOne(0xFFFF_FFFF, u, 0, 0xFFFFFFFF, 0x7C231048);
    FeedOne(0xFFFF_FFFF, u, 1, 0x7C231048, 0xB0ACBB32);
    FeedOne(0xFFFF_FFFF, u, 2, 0xB0ACBB32, 0x77B79C2D);
    FeedOne(0xFFFF_FFFF, u, 3, 0x77B79C2D, 0x641C1F5C);
    FeedOne(0xFFFF_FFFF, u, 4, 0x641C1F5C, 0x340AC5E3);
    FeedOne(0xFFFF_FFFF, u, 5, 0x340AC5E3, 0xF68D2C9E);
    FeedOne(0xFFFF_FFFF, u, 6, 0xF68D2C9E, 0xAFFC9660);
    FeedOne(0xFFFF_FFFF, u, 7, 0xAFFC9660, 0x651F2550);
    FeedOne(0xFFFF_FFFF, u, 8, 0x651F2550, 0x340BC6D9);
    assert u[..9] == u;
  }

  lemma {:induction false} ShiftOnce(c: bv32, n: nat)
    ensures ShiftN(c, n + 1) == Shift(ShiftN(c, n))
    decreases n
  {
    if n > 0 {
      ShiftOnce(Shift(c), n - 1);
    }
  }

  lemma ShiftNone(c: bv32)
    ensures ShiftN(c, 0) == c
  {
  }

  method TableEntry(i: bv32) returns (c: bv32)
    ensures c == ShiftN(i, 8)
  {
    hide ShiftN, Shift;
    c := i;
    var j := 0;
    ShiftNone(i);
    while j < 8
      invariant 0 <= j <= 8 && c == ShiftN(i, j)
    {
      ShiftOnce(i, j);
      c := Shift(c);
      j := j + 1;
    }
  }

  method EnsureCrc32TableInited(table: array<bv32>)
    requires Usable(table)
    modifies table
    ensures Inited(table)
    ensures old(table[255]) != 0 ==> table[..] == old(table[..])
  {
    LastEntry();
    hide ShiftN;
    if table[255] != 0 {
      return;
    }
    var i := 0;
    while i < 256
      invariant 0 <= i <= 256
      invariant forall k :: 0 <= k < i ==> table[k] == ShiftN(k as bv32, 8)
    {
      table[i] := TableEntry(i as bv32);
      i := i + 1;
    }
  }

  lemma IndexReadsBack(x: bv32)
    ensures 0 <= Low(x) as int < 256 && (Low(x) as int) as bv32 == Low(x)
  {
  }

  /** One step of the update: the table entry for the low byte, added to the rest. */
  method UpdateByte(table: array<bv32>, c: bv32, b: bv8) returns (r: bv32)
    requires Inited(table)
    ensures r == FeedBits(c, b as bv32, 8)
  {
    hide ShiftN, FeedBits, Add, Low, Rest;
    var x := Add(c, b as bv32);
    IndexReadsBack(x);
    LookupIsEightBits(c, b as bv32);
    r := Add(table[Low(x) as int], Rest(c));
  }

  /** The table-driven update computes the bit-by-bit checksum. */
  method UpdateCrc32(table: array<bv32>, start: bv32, u: seq<bv8>) returns (r: bv32)
    requires Usable(table)
    modifies table
    ensures Inited(table)
    ensures r == Crc(start, u)
  {
    hide ShiftN, FeedBits, Flip;
    EnsureCrc32TableInited(table);
    var c := Flip(start);
    var i := 0;
    while i < |u|
      invariant 0 <= i <= |u| && Inited(table)
      invariant c == FeedBytes(Flip(start), u[..i])
    {
      assert u[..i + 1][..i] == u[..i];
      c := UpdateByte(table, c, u[i]);
      i := i + 1;
    }
    assert u[..i] == u;
    r := Flip(c);
  }
}
