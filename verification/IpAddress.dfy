/** Prefix arithmetic of src/talk/base/ipaddress.cc on IPv4 and IPv6 addresses (section 3.1 of
    RFC 4632). Words are in host order. */
module IpAddresses {

  type Words = w: seq<bv32> | |w| == 4 witness [0, 0, 0, 0]

  datatype IPAddress = Unspecified | V4(word: bv32) | V6(words: Words)

  const ONES: bv32 := 0xFFFF_FFFF

  function Width(ip: IPAddress): nat {
    match ip
    case Unspecified => 0
    case V4(_) => 32
    case V6(_) => 128
  }

  // ----- Bits of a word, counted from either end -----

  /** A shift amount. */
  function Amount(n: nat): (s: bv6)
    requires n <= 32
    ensures s as int == n
  {
    AmountReadsBack(n);
    n as bv6
  }

  lemma AmountReadsBack(n: nat)
    requires n <= 32
    ensures (n as bv6) as int == n
  {
  }

  lemma AmountsInOrder(s: bv6, t: bv6)
    ensures s <= t <==> s as int <= t as int
  {
  }

  /** Bit s, the least significant being bit 0. */
  function BitAt(w: bv32, s: bv6): bool
    requires s <= 31
  {
    (w >> s) & 1 == 1
  }

  /** Bit k, the most significant being bit 0. */
  function WordBit(w: bv32, k: nat): bool
    requires k < 32
  {
    AmountsInOrder(Amount(31 - k), 31);
    BitAt(w, Amount(31 - k))
  }

  /** A word without its s lowest bits. */
  function Cleared(w: bv32, s: bv6): bv32
    requires s <= 32
  {
    w & (ONES << s)
  }

  function Masked(w: bv32, n: nat): bv32
    requires n <= 32
  {
    AmountsInOrder(Amount(32 - n), 32);
    Cleared(w, Amount(32 - n))
  }

  lemma ClearedBit(w: bv32, s: bv6, p: bv6)
    requires s <= 32 && p <= 31
    ensures BitAt(Cleared(w, s), p) <==> (s <= p && BitAt(w, p))
  {
  }

  lemma MaskedBit(w: bv32, n: nat, k: nat)
    requires n <= 32 && k < 32
    ensures WordBit(Masked(w, n), k) <==> (k < n && WordBit(w, k))
  {
    hide BitAt, Cleared, Amount;
    AmountsInOrder(Amount(31 - k), 31);
    AmountsInOrder(Amount(32 - n), 32);
    AmountsInOrder(Amount(32 - n), Amount(31 - k));
    ClearedBit(w, Amount(32 - n), Amount(31 - k));
  }

  /** The bits are in the order of the dotted form: the first is the highest of its word. */
  lemma BitOrder(w: bv32, k: nat)
    requires k < 31
    ensures WordBit(w << 1, k) == WordBit(w, k + 1)
    ensures WordBit(0x8000_0000, 0) && !WordBit(0x8000_0000, k + 1)
  {
    var s := Amount(30 - k);
    AmountsInOrder(s, 30);
    AmountIsWord(s + 1);
    ShiftedBit(w, s);
    assert Amount(31) == 31;
  }

  lemma ShiftedBit(w: bv32, s: bv6)
    requires s <= 30
    ensures BitAt(w << 1, s + 1) == BitAt(w, s) && BitAt(0x8000_0000, 31) && !BitAt(0x8000_0000, s)
    ensures (s + 1) as int == s as int + 1
  {
  }

  lemma ConstantBit(k: nat)
    requires k < 32
    ensures !WordBit(0, k) && WordBit(ONES, k)
  {
    AmountsInOrder(Amount(31 - k), 31);
    ConstantBitAt(Amount(31 - k));
  }

  lemma ConstantBitAt(s: bv6)
    requires s <= 31
    ensures !BitAt(0, s) && BitAt(ONES, s)
  {
  }

  lemma SameBelow(v: bv32, w: bv32, s: bv6)
    requires s <= 31 && v >> (s + 1) == w >> (s + 1) && BitAt(v, s) == BitAt(w, s)
    ensures v >> s == w >> s
  {
  }

  lemma {:induction false} SameFrom(v: bv32, w: bv32, s: bv6)
    requires s <= 32
    requires forall p: bv6 :: p <= 31 ==> BitAt(v, p) == BitAt(w, p)
    ensures v >> s == w >> s
    decreases 32 - s
  {
    if s < 32 {
      SameFrom(v, w, s + 1);
      SameBelow(v, w, s);
    }
  }

  lemma SameBits(v: bv32, w: bv32)
    requires forall p: bv6 :: p <= 31 ==> BitAt(v, p) == BitAt(w, p)
    ensures v == w
  {
    SameFrom(v, w, 0);
    assert v >> 0 == v && w >> 0 == w;
  }

  /** Words with the same bits are the same. */
  lemma SameWord(v: bv32, w: bv32)
    requires forall k: nat :: k < 32 ==> WordBit(v, k) == WordBit(w, k)
    ensures v == w
  {
    hide BitAt;
    forall p: bv6 | p <= 31
      ensures BitAt(v, p) == BitAt(w, p)
    {
      AmountsInOrder(p, 31);
      var k := 31 - p as int;
      AmountIsWord(p);
      assert WordBit(v, k) == WordBit(w, k);
    }
    SameBits(v, w);
  }

  lemma AmountIsWord(p: bv6)
    requires p as int <= 32
    ensures Amount(p as int) == p
  {
    AmountsInOrder(Amount(p as int), p);
    AmountsInOrder(p, Amount(p as int));
  }

  // ----- Bits of an address -----

  function Bit(ip: IPAddress, k: nat): bool
    requires k < Width(ip)
  {
    match ip
    case V4(w) => WordBit(w, k)
    case V6(ws) => WordBit(ws[k / 32], k % 32)
  }

  predicate SameFamily(a: IPAddress, b: IPAddress) {
    a.Unspecified? == b.Unspecified? && a.V4? == b.V4?
  }

  /** r is the prefix of ip of n bits: the same family, ip's bits up to n and zeros after. */
  ghost predicate IsPrefix(ip: IPAddress, n: nat, r: IPAddress) {
    SameFamily(ip, r) && forall k: nat :: k < Width(ip) ==> Bit(r, k) == (k < n && Bit(ip, k))
  }

  /** Addresses of one family with the same bits are the same. */
  lemma SameAddress(a: IPAddress, b: IPAddress)
    requires SameFamily(a, b) && forall k: nat :: k < Width(a) ==> Bit(a, k) == Bit(b, k)
    ensures a == b
  {
    hide WordBit;
    match a
    case Unspecified =>
    case V4(w) =>
      forall k: nat | k < 32
        ensures WordBit(w, k) == WordBit(b.word, k)
      {
        assert Bit(a, k) == Bit(b, k);
      }
      SameWord(w, b.word);
    case V6(ws) =>
      forall i | 0 <= i < 4
        ensures ws[i] == b.words[i]
      {
        forall k: nat | k < 32
          ensures WordBit(ws[i], k) == WordBit(b.words[i], k)
        {
          assert (32 * i + k) / 32 == i && (32 * i + k) % 32 == k;
          assert Bit(a, 32 * i + k) == Bit(b, 32 * i + k);
        }
        SameWord(ws[i], b.words[i]);
      }
  }

  // ----- Truncation -----

  method TruncateIP(ip: IPAddress, length: int) returns (r: IPAddress)
    ensures length < 0 ==> r == Unspecified
    ensures length >= 0 ==> IsPrefix(ip, length, r)
  {
    hide WordBit, Masked;
    if length < 0 {
      return Unspecified;
    }
    match ip
    case V4(w) =>
      if length > 31 {
        return ip;
      }
      if length == 0 {
        forall k: nat | k < 32 ensures !WordBit(0, k) { ConstantBit(k); }
        return V4(0);
      }
      forall k: nat | k < 32
        ensures WordBit(Masked(w, length), k) == (k < length && WordBit(w, k))
      {
        MaskedBit(w, length, k);
      }
      r := V4(Masked(w, length));
    case V6(ws) =>
      if length > 127 {
        return ip;
      }
      r := TruncateIPv6(ws, length);
    case Unspecified =>
      r := Unspecified;
  }

  method TruncateIPv6(ws: Words, length: nat) returns (r: IPAddress)
    requires length < 128
    ensures IsPrefix(V6(ws), length, r)
  {
    hide WordBit, Masked;
    if length == 0 {
      forall k: nat | k < 32 ensures !WordBit(0, k) { ConstantBit(k); }
      return V6([0, 0, 0, 0]);
    }
    var position := length / 32;
    var innerLength := length - position * 32;
    var out: seq<bv32> := ws;
    var i := 0;
    while i < 4
      invariant 0 <= i <= 4 == |out| && out[i..] == ws[i..]
      invariant forall j :: 0 <= j < i ==> out[j] == TruncatedWord(ws[j], j, length)
    {
      if i == position {
        out := out[i := Masked(out[i], innerLength)];
      } else if i > position {
        out := out[i := 0];
      }
      i := i + 1;
    }
    r := V6(out);
    forall k: nat | k < 128
      ensures Bit(r, k) == (k < length && Bit(V6(ws), k))
    {
      TruncatedWordBit(ws[k / 32], k / 32, length, k % 32);
    }
  }

  /** Word j of an address truncated to length bits. */
  function TruncatedWord(w: bv32, j: nat, length: nat): bv32 {
    if j < length / 32 then w else if j > length / 32 then 0 else Masked(w, length % 32)
  }

  lemma TruncatedWordBit(w: bv32, j: nat, length: nat, k: nat)
    requires k < 32
    ensures WordBit(TruncatedWord(w, j, length), k) <==> (32 * j + k < length && WordBit(w, k))
  {
    hide WordBit, Masked;
    ConstantBit(k);
    MaskedBit(w, length % 32, k);
  }

  /** 192.168.1.254 to 24 bits is 192.168.1.0, and 2001:db8:1234:5678::1 to 48 bits 2001:db8:1234::. */
  lemma Examples()
    ensures IsPrefix(V4(0xC0A8_01FE), 24, V4(0xC0A8_0100))
    ensures IsPrefix(V6([0x2001_0DB8, 0x1234_5678, 0, 1]), 48, V6([0x2001_0DB8, 0x1234_0000, 0, 0]))
  {
    assert Masked(0xC0A8_01FE, 24) == 0xC0A8_0100 && Masked(0x1234_5678, 16) == 0x1234_0000;
    hide WordBit, Masked;
    forall k: nat | k < 32
      ensures WordBit(0xC0A8_0100, k) == (k < 24 && WordBit(0xC0A8_01FE, k))
    {
      MaskedBit(0xC0A8_01FE, 24, k);
    }
    var (ws, r) := ([0x2001_0DB8, 0x1234_5678, 0, 1], [0x2001_0DB8, 0x1234_0000, 0, 0]);
    forall k: nat | k < 128
      ensures Bit(V6(r), k) == (k < 48 && Bit(V6(ws), k))
    {
      assert forall j :: 0 <= j < 4 ==> r[j] == TruncatedWord(ws[j], j, 48);
      TruncatedWordBit(ws[k / 32], k / 32, 48, k % 32);
    }
  }

  lemma TruncationsCompose(ip: IPAddress, a: nat, b: nat, once: IPAddress, twice: IPAddress)
    requires IsPrefix(ip, a, once) && IsPrefix(once, b, twice)
    ensures IsPrefix(ip, if a < b then a else b, twice)
  {
    hide Bit;
    forall k: nat | k < Width(ip)
      ensures Bit(twice, k) == (k < a && k < b && Bit(ip, k))
    {
      assert Bit(once, k) == (k < a && Bit(ip, k));
    }
  }

  /** There is one prefix of each length. */
  lemma PrefixIsUnique(ip: IPAddress, n: nat, r: IPAddress, s: IPAddress)
    requires IsPrefix(ip, n, r) && IsPrefix(ip, n, s)
    ensures r == s
  {
    hide Bit;
    forall k: nat | k < Width(r)
      ensures Bit(r, k) == Bit(s, k)
    {
      assert Bit(r, k) == (k < n && Bit(ip, k));
    }
    SameAddress(r, s);
  }

  /** Truncating to a and then to b gives what truncating to the shorter length gives. */
  lemma TruncateTwice(ip: IPAddress, a: nat, b: nat, once: IPAddress, twice: IPAddress, shorter: IPAddress)
    requires IsPrefix(ip, a, once) && IsPrefix(once, b, twice)
    requires IsPrefix(ip, if a < b then a else b, shorter)
    ensures twice == shorter
  {
    hide IsPrefix;
    TruncationsCompose(ip, a, b, once, twice);
    PrefixIsUnique(ip, if a < b then a else b, twice, shorter);
  }

  // ----- Counting mask bits -----

  /** The number of zero bits at the bottom of a word, by halving. */
  function TrailingZeroes(word: bv32): bv6 {
    var low := word & -word;
    var z: bv6 := 32;
    var z := if low != 0 then z - 1 else z;
    var z := if low & 0x0000_FFFF != 0 then z - 16 else z;
    var z := if low & 0x00FF_00FF != 0 then z - 8 else z;
    var z := if low & 0x0F0F_0F0F != 0 then z - 4 else z;
    var z := if low & 0x3333_3333 != 0 then z - 2 else z;
    if low & 0x5555_5555 != 0 then z - 1 else z
  }

  lemma ZeroesCounted(w: bv32)
    requires w != 0
    ensures TrailingZeroes(w) <= 31 && BitAt(w, TrailingZeroes(w))
  {
  }

  lemma ZeroesAreZero(w: bv32, s: bv6)
    requires w != 0 && s < TrailingZeroes(w) <= 31
    ensures !BitAt(w, s)
  {
  }

  /** n is one more than the position of the last bit of w that is set, or 0. */
  ghost predicate LastBit(w: bv32, n: nat) {
    n <= 32 && (n > 0 ==> WordBit(w, n - 1)) && forall k: nat :: n <= k < 32 ==> !WordBit(w, k)
  }

  method CountWord(w: bv32) returns (n: nat)
    ensures LastBit(w, n)
  {
    hide BitAt, TrailingZeroes, Amount;
    if w == 0 {
      forall k: nat | k < 32 ensures !WordBit(0, k) { ConstantBit(k); }
      return 0;
    }
    var t := TrailingZeroes(w);
    ZeroesCounted(w);
    AmountsInOrder(t, 31);
    n := 32 - t as int;
    AmountIsWord(t);
    forall k: nat | n <= k < 32
      ensures !WordBit(w, k)
    {
      AmountsInOrder(t, Amount(31 - k));
      ZeroesAreZero(w, Amount(31 - k));
    }
  }

  /** What CountIPMaskBits computes on any mask: whole words of ones, then the position of the
      last bit set in the word after them. Later words are not looked at. */
  ghost predicate Counted(mask: IPAddress, n: nat) {
    match mask
    case Unspecified => n == 0
    case V4(w) => LastBit(w, n)
    case V6(ws) =>
      (n == 128 && ws == [ONES, ONES, ONES, ONES]) || exists i: nat :: CountedAt(ws, n, i)
  }

  /** Word i is the first that is not all ones, and n counts up to its last set bit. */
  ghost predicate CountedAt(ws: Words, n: nat, i: nat) {
    && i < 4 && ws[i] != ONES && (forall j :: 0 <= j < i ==> ws[j] == ONES)
    && 32 * i <= n && LastBit(ws[i], n - 32 * i)
  }

  method CountIPMaskBits(mask: IPAddress) returns (n: nat)
    ensures Counted(mask, n)
  {
    hide LastBit;
    match mask
    case Unspecified => return 0;
    case V4(w) => n := CountWord(w);
    case V6(ws) =>
      var i := 0;
      while i < 4 && ws[i] == ONES
        invariant 0 <= i <= 4 && forall j :: 0 <= j < i ==> ws[j] == ONES
      {
        i := i + 1;
      }
      if i == 4 {
        return 128;
      }
      var last := CountWord(ws[i]);
      n := i * 32 + last;
      assert CountedAt(ws, n, i);
  }

  /** The all-ones address of a family. */
  function AllOnes(ip: IPAddress): (r: IPAddress)
    ensures SameFamily(ip, r)
  {
    match ip
    case Unspecified => Unspecified
    case V4(_) => V4(ONES)
    case V6(_) => V6([ONES, ONES, ONES, ONES])
  }

  lemma AllOnesBit(ip: IPAddress, k: nat)
    requires k < Width(ip)
    ensures Bit(AllOnes(ip), k)
  {
    hide WordBit;
    ConstantBit(k % 32);
  }

  lemma LastBitOfWord(w: bv32, n: nat, m: nat)
    requires LastBit(w, n) && m <= 32
    requires forall k: nat :: k < 32 ==> WordBit(w, k) == (k < m)
    ensures n == m
  {
    hide WordBit;
    if m > 0 {
      assert WordBit(w, m - 1);
    }
  }

  /** The count of a prefix mask is its prefix length. */
  lemma CountOfPrefixMask(mask: IPAddress, n: nat, count: nat)
    requires n <= Width(mask) && IsPrefix(AllOnes(mask), n, mask)
    requires Counted(mask, count)
    ensures count == n
  {
    hide WordBit, LastBit;
    MaskBits(mask, n);
    match mask
    case Unspecified =>
    case V4(w) => LastBitOfWord(w, count, n);
    case V6(ws) => CountOfPrefixMask6(ws, n, count);
  }

  lemma MaskBits(mask: IPAddress, n: nat)
    requires IsPrefix(AllOnes(mask), n, mask)
    ensures forall k: nat :: k < Width(mask) ==> Bit(mask, k) == (k < n)
    ensures mask.V4? ==> forall k: nat :: k < 32 ==> WordBit(mask.word, k) == (k < n)
  {
    hide WordBit;
    forall k: nat | k < Width(mask)
      ensures Bit(mask, k) == (k < n)
    {
      AllOnesBit(mask, k);
    }
    if mask.V4? {
      forall k: nat | k < 32
        ensures WordBit(mask.word, k) == (k < n)
      {
        assert Bit(mask, k) == (k < n);
      }
    }
  }

  lemma WordOfMask(ws: Words, n: nat, i: nat, k: nat)
    requires forall k: nat :: k < 128 ==> Bit(V6(ws), k) == (k < n)
    requires i < 4 && k < 32
    ensures WordBit(ws[i], k) == (32 * i + k < n)
  {
    hide WordBit;
    assert (32 * i + k) / 32 == i && (32 * i + k) % 32 == k;
    assert Bit(V6(ws), 32 * i + k) == (32 * i + k < n);
  }

  lemma CountOfPrefixMask6(ws: Words, n: nat, count: nat)
    requires n <= 128 && forall k: nat :: k < 128 ==> Bit(V6(ws), k) == (k < n)
    requires Counted(V6(ws), count)
    ensures count == n
  {
    hide WordBit, LastBit, Bit;
    if count == 128 && ws == [ONES, ONES, ONES, ONES] {
      ConstantBit(31);
      WordOfMask(ws, n, 3, 31);
    } else {
      var i: nat :| CountedAt(ws, count, i);
      PartialWord(ws, n, i);
      forall k: nat | k < 32
        ensures WordBit(ws[i], k) == (k < n - 32 * i)
      {
        WordOfMask(ws, n, i, k);
      }
      LastBitOfWord(ws[i], count - 32 * i, n - 32 * i);
    }
  }

  /** The first word that is not all ones holds the end of the prefix. */
  lemma PartialWord(ws: Words, n: nat, i: nat)
    requires n <= 128 && forall k: nat :: k < 128 ==> Bit(V6(ws), k) == (k < n)
    requires i < 4 && ws[i] != ONES && forall j :: 0 <= j < i ==> ws[j] == ONES
    ensures 32 * i <= n < 32 * (i + 1)
  {
    hide WordBit, Bit;
    if i > 0 {
      ConstantBit(31);
      WordOfMask(ws, n, i - 1, 31);
    }
    if n >= 32 * (i + 1) {
      forall k: nat | k < 32
        ensures WordBit(ws[i], k) == WordBit(ONES, k)
      {
        ConstantBit(k);
        WordOfMask(ws, n, i, k);
      }
      SameWord(ws[i], ONES);
    }
  }

  /** A mask is the prefix mask of its own count exactly when it has no bit set after a clear one. */
  lemma CountIsPrefixLengthIff(mask: IPAddress, count: nat)
    requires Counted(mask, count)
    ensures IsPrefix(AllOnes(mask), count, mask)
       <==> forall j: nat, k: nat :: j < k < Width(mask) && Bit(mask, k) ==> Bit(mask, j)
  {
    hide WordBit, LastBit, Bit, Counted;
    if IsPrefix(AllOnes(mask), count, mask) {
      MaskBits(mask, count);
    } else if forall j: nat, k: nat :: j < k < Width(mask) && Bit(mask, k) ==> Bit(mask, j) {
      var n := FirstClear(mask);
      forall k: nat | k < Width(mask)
        ensures Bit(mask, k) == (k < n && Bit(AllOnes(mask), k))
      {
        AllOnesBit(mask, k);
      }
      CountOfPrefixMask(mask, n, count);
    }
  }

  /** The first bit of an address that is clear, or its width. */
  lemma FirstClear(ip: IPAddress) returns (n: nat)
    ensures n <= Width(ip) && (n < Width(ip) ==> !Bit(ip, n))
    ensures forall k: nat :: k < n ==> Bit(ip, k)
  {
    hide Bit;
    n := 0;
    while n < Width(ip) && Bit(ip, n)
      invariant n <= Width(ip) && forall k: nat :: k < n ==> Bit(ip, k)
    {
      n := n + 1;
    }
  }
}
