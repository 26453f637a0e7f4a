/** ByteBuffer of src/talk/base/bytebuffer.cc with the byte orders of byteorder.h. */
module ByteBuffers {
  import opened Common

  // ----- Byte orders -----

  function Pow256(k: nat): (n: nat)
    ensures n > 0
  {
    if k == 0 then 1 else 256 * Pow256(k - 1)
  }

  /** The `k` low bytes of a value, the lowest first. */
  function LittleEndian(v: nat, k: nat): (s: seq<byte>)
    ensures |s| == k
  {
    if k == 0 then [] else [v % 256] + LittleEndian(v / 256, k - 1)
  }

  /** The same, the highest first, as SetBE16, SetBE32 and SetBE64 store them. */
  function BigEndian(v: nat, k: nat): (s: seq<byte>)
    ensures |s| == k
  {
    if k == 0 then [] else BigEndian(v / 256, k - 1) + [v % 256]
  }

  function GetLittleEndian(s: seq<byte>): nat {
    if s == [] then 0 else s[0] as nat + 256 * GetLittleEndian(s[1..])
  }

  function GetBigEndian(s: seq<byte>): nat {
    if s == [] then 0 else 256 * GetBigEndian(s[..|s| - 1]) + s[|s| - 1] as nat
  }

  /** Division by 256 and then by `p` is division by both, with the remainders combined. */
  lemma DivModTwice(v: nat, p: nat)
    requires p > 0
    ensures v / 256 / p == v / (256 * p) && v % (256 * p) == 256 * (v / 256 % p) + v % 256
  {
    var (a, d, q) := (v / 256, 256 * p, v / 256 / p);
    var r := 256 * (a % p) + v % 256;
    assert a == p * q + a % p;
    assert v == d * q + r && 0 <= r < d;
    var (q', r') := (v / d, v % d);
    assert d * (q' - q) == r - r';
    if q' > q { MulAtLeast(d, q' - q); }
    if q > q' { MulAtLeast(d, q - q'); }
  }

  /** Reading back gives the value, cut to the number of bytes. */
  lemma {:induction false} OrdersReadBack(v: nat, k: nat)
    ensures GetLittleEndian(LittleEndian(v, k)) == v % Pow256(k)
    ensures GetBigEndian(BigEndian(v, k)) == v % Pow256(k)
  {
    if k > 0 {
      OrdersReadBack(v / 256, k - 1);
      DivModTwice(v, Pow256(k - 1));
      assert LittleEndian(v, k)[1..] == LittleEndian(v / 256, k - 1);
      assert BigEndian(v, k)[..k - 1] == BigEndian(v / 256, k - 1);
    }
  }

  /** Each byte is the value shifted and cut, as byteorder.h writes it. */
  lemma {:induction false} ByteIsShift(v: nat, k: nat, i: nat)
    requires i < k
    ensures BigEndian(v, k)[i] as int == v / Pow256(k - 1 - i) % 256
    ensures LittleEndian(v, k)[k - 1 - i] == BigEndian(v, k)[i]
    decreases k
  {
    var (big, little) := (BigEndian(v / 256, k - 1), LittleEndian(v / 256, k - 1));
    assert BigEndian(v, k) == big + [v % 256] && LittleEndian(v, k) == [v % 256] + little;
    if i == k - 1 {
      assert Pow256(0) == 1;
    } else {
      ByteIsShift(v / 256, k - 1, i);
      var p := Pow256(k - 2 - i);
      assert Pow256(k - 1 - i) == 256 * p;
      hide BigEndian, LittleEndian, Pow256;
      DivModTwice(v, p);
      assert v / (256 * p) == v / 256 / p;
    }
  }

  /** Leaving out the highest byte leaves the lower ones; a zero in its place adds nothing. */
  lemma {:induction false} HighByte(v: nat, k: nat)
    ensures BigEndian(v, k + 1)[1..] == BigEndian(v, k) && LittleEndian(v, k + 1)[..k] == LittleEndian(v, k)
  {
    if k > 0 {
      HighByte(v / 256, k - 1);
      assert BigEndian(v, k + 1)[1..] == BigEndian(v / 256, k)[1..] + [v % 256];
      assert LittleEndian(v, k + 1)[..k] == [v % 256] + LittleEndian(v / 256, k)[..k - 1];
    }
  }

  lemma {:induction false} HighZero(s: seq<byte>)
    ensures GetBigEndian([0] + s) == GetBigEndian(s)
    ensures GetLittleEndian(s + [0]) == GetLittleEndian(s)
    decreases |s|
  {
    if s == [] {
      assert [0] + s == [0] && s + [0] == [0] && [0][..0] == [] && [0][1..] == [];
    } else {
      var n := |s| - 1;
      assert ([0] + s)[..n + 1] == [0] + s[..n] && (s + [0])[1..] == s[1..] + [0];
      HighZero(s[..n]);
      HighZero(s[1..]);
    }
  }

  datatype Order = Network | Host

  /** How a host stores a `k`-byte integer in the given order. */
  function Stored(order: Order, bigEndianHost: bool, v: nat, k: nat): (s: seq<byte>)
    ensures |s| == k
  {
    if order == Network || bigEndianHost then BigEndian(v, k) else LittleEndian(v, k)
  }

  function Loaded(order: Order, bigEndianHost: bool, s: seq<byte>): nat {
    if order == Network || bigEndianHost then GetBigEndian(s) else GetLittleEndian(s)
  }

  /** WriteUInt24 takes three of the four bytes of a 32-bit integer. */
  function Stored24(order: Order, bigEndianHost: bool, v: nat): seq<byte> {
    var four := Stored(order, bigEndianHost, v, 4);
    if order == Network || bigEndianHost then four[1..] else four[..3]
  }

  /** ReadUInt24 puts them next to a zero. */
  function Loaded24(order: Order, bigEndianHost: bool, s: seq<byte>): nat {
    Loaded(order, bigEndianHost, if order == Network || bigEndianHost then [0] + s else s + [0])
  }

  /** Network order is the highest byte first on every host, host order the lowest first on a
      little-endian one. */
  lemma StoredByte(order: Order, bigEndianHost: bool, v: nat, k: nat, i: nat)
    requires i < k
    ensures Stored(order, bigEndianHost, v, k)[i] as int
            == v / Pow256(match order
                          case Network => k - 1 - i
                          case Host => if bigEndianHost then k - 1 - i else i) % 256
  {
    hide BigEndian, LittleEndian, Pow256;
    ByteIsShift(v, k, i);
    ByteIsShift(v, k, k - 1 - i);
  }

  lemma StoredByte24(order: Order, bigEndianHost: bool, v: nat, i: nat)
    requires i < 3
    ensures |Stored24(order, bigEndianHost, v)| == 3
    ensures Stored24(order, bigEndianHost, v)[i] as int
            == v / Pow256(match order
                          case Network => 2 - i
                          case Host => if bigEndianHost then 2 - i else i) % 256
  {
    hide BigEndian, LittleEndian, Pow256;
    ByteIsShift(v, 4, i);
    ByteIsShift(v, 4, i + 1);
    ByteIsShift(v, 4, 3 - i);
  }

  lemma IntegersReadBack(order: Order, bigEndianHost: bool, v: nat, k: nat)
    requires v < Pow256(k)
    ensures Loaded(order, bigEndianHost, Stored(order, bigEndianHost, v, k)) == v
  {
    hide Pow256, GetBigEndian, GetLittleEndian, BigEndian, LittleEndian;
    OrdersReadBack(v, k);
    SmallModulo(v, Pow256(k));
  }

  lemma SmallModulo(v: nat, p: nat)
    requires v < p
    ensures v % p == v
  {
  }

  /** A 24-bit value reads back exactly when it has no more than 24 bits; the rest is cut. */
  lemma Integers24ReadBack(order: Order, bigEndianHost: bool, v: nat)
    ensures Loaded24(order, bigEndianHost, Stored24(order, bigEndianHost, v)) == v % 0x100_0000
    ensures Loaded24(order, bigEndianHost, Stored24(order, bigEndianHost, v)) == v <==> v < 0x100_0000
  {
    hide BigEndian, LittleEndian, GetBigEndian, GetLittleEndian;
    HighByte(v, 3);
    HighZero(BigEndian(v, 3));
    HighZero(LittleEndian(v, 3));
    OrdersReadBack(v, 3);
    assert Pow256(3) == 0x100_0000;
  }

  // ----- The buffer -----

  datatype ReadPosition = ReadPosition(start: nat, version: nat)

  /** A position together with everything that had been stored when it was taken. */
  datatype Mark = Mark(position: ReadPosition, stored: seq<byte>)

  /** The room after `size` bytes were asked for: as before if that is enough, and else at least half as
      much again. */
  function Capacity(length: nat, size: nat): (c: nat)
    ensures c >= size && c >= length && (size <= length ==> c == length)
    ensures size > length ==> c >= 3 * length / 2 && (c == size || c == 3 * length / 2)
  {
    if size <= length then length else if size > 3 * length / 2 then size else 3 * length / 2
  }

  class ByteBuffer {
    const order: Order
    const bigEndianHost: bool
    var bytes: array<byte>
    var start: nat
    var end: nat
    var version: nat
    ghost var marks: set<Mark>   // the positions handed out

    ghost predicate Valid()
      reads this, bytes
    {
      && start <= end <= bytes.Length
      && (forall m :: m in marks && m.position.version == version ==>
            m.position.start <= |m.stored| && m.stored <= bytes[..end])
      && (forall m :: m in marks ==> m.position.version <= version)
    }

    /** The unread bytes. */
    ghost function Contents(): seq<byte>
      reads this, bytes
      requires start <= end <= bytes.Length
    {
      bytes[start..end]
    }

    /** All bytes written since the buffer was last rearranged. */
    ghost function Written(): seq<byte>
      reads this, bytes
      requires end <= bytes.Length
    {
      bytes[..end]
    }

    constructor (initial: seq<byte>, capacity: nat, order: Order, bigEndianHost: bool)
      requires |initial| <= capacity
      ensures Valid() && Contents() == initial && this.order == order && this.bigEndianHost == bigEndianHost
      ensures fresh(bytes) && marks == {} && bytes.Length == capacity && version == 0
    {
      this.order, this.bigEndianHost := order, bigEndianHost;
      var b := new byte[capacity](i => if 0 <= i < |initial| then initial[i] else 0);
      bytes, start, end, version, marks := b, 0, |initial|, 0, {};
      new;
      assert bytes[0..|initial|] == initial;
    }

    /** Makes room: moves the unread bytes to the front, in a larger array if need be. */
    method Resize(size: nat)
      requires Valid()
      modifies this, bytes
      ensures Valid() && start == 0 && version == old(version) + 1 && marks == old(marks)
      ensures size <= old(bytes.Length) ==> bytes == old(bytes)
      ensures size > old(bytes.Length) ==> fresh(bytes)
      ensures bytes.Length == Capacity(old(bytes.Length), size)
      ensures Contents() == old(Contents())[..if old(end - start) < size then old(end - start) else size]
    {
      var len := if end - start < size then end - start else size;
      ghost var kept := bytes[start..start + len];
      if size <= bytes.Length {
        forall i | 0 <= i < len {
          bytes[i] := bytes[start + i];
        }
      } else {
        var grown := 3 * bytes.Length / 2;
        var more := new byte[if size > grown then size else grown];
        forall i | 0 <= i < len {
          more[i] := bytes[start + i];
        }
        bytes := more;
      }
      start, end, version := 0, len, version + 1;
      assert bytes[0..len] == kept;
    }

    /** Appends, whatever rearrangement that takes; without one, positions stay good. */
    method WriteBytes(val: seq<byte>)
      requires Valid()
      modifies this, bytes
      ensures Valid() && Contents() == old(Contents()) + val && marks == old(marks)
      ensures bytes == old(bytes) || fresh(bytes)
      ensures version == old(version) ==> start == old(start) && Written() == old(Written()) + val
      ensures version == if old(end) + |val| <= old(bytes.Length) then old(version) else old(version) + 1
      ensures bytes.Length == Capacity(old(bytes.Length), old(end - start) + |val|)
    {
      if end - start + |val| > bytes.Length - start { Resize(end - start + |val|); }
      Store(val);
    }

    /** Copies to the end, where there is room. */
    method Store(val: seq<byte>)
      requires Valid() && end + |val| <= bytes.Length
      modifies this`end, bytes
      ensures Valid() && Contents() == old(Contents()) + val && Written() == old(Written()) + val
    {
      var at := end;
      ghost var before := bytes[..end];
      forall i | 0 <= i < |val| {
        bytes[at + i] := val[i];
      }
      end := end + |val|;
      assert bytes[..end] == before + val;
      assert bytes[start..end] == before[start..] + val;
    }

    method ReadBytes(len: nat) returns (ok: bool, val: seq<byte>)
      requires Valid()
      modifies this`start
      ensures Valid() && ok == (len <= |old(Contents())|) && Written() == old(Written())
      ensures ok ==> val == old(Contents())[..len] && Contents() == old(Contents())[len..]
      ensures !ok ==> Contents() == old(Contents()) && val == []
    {
      if len > end - start { return false, []; }
      val := bytes[start..start + len];
      start := start + len;
      return true, val;
    }

    method Consume(size: nat) returns (ok: bool)
      requires Valid()
      modifies this`start
      ensures Valid() && ok == (size <= |old(Contents())|) && Written() == old(Written())
      ensures Contents() == old(Contents())[if ok then size else 0..]
    {
      if size > end - start { return false; }
      start := start + size;
      return true;
    }

    method Clear()
      requires Valid()
      modifies this, bytes
      ensures Valid() && Contents() == [] && version == old(version) + 1 && bytes == old(bytes)
      ensures forall i :: 0 <= i < bytes.Length ==> bytes[i] == 0
      ensures marks == old(marks)
    {
      forall i | 0 <= i < bytes.Length {
        bytes[i] := 0;
      }
      start, end, version := 0, 0, version + 1;
    }

    method GetReadPosition() returns (position: ReadPosition)
      requires Valid()
      modifies this`marks
      ensures Valid() && Contents() == old(Contents())
      ensures marks == old(marks) + {Mark(position, Written())} && position == ReadPosition(start, version)
    {
      position := ReadPosition(start, version);
      marks := marks + {Mark(position, bytes[..end])};
    }

    /** Succeeds as long as nothing has been rearranged, and then shows again exactly what was
        unread when the position was taken, followed by everything written since. */
    method SetReadPosition(position: ReadPosition, ghost mark: Mark) returns (ok: bool)
      requires Valid() && mark in marks && mark.position == position
      modifies this`start
      ensures Valid() && ok == (position.version == version)
      ensures ok ==> mark.stored <= Written() && Written() == old(Written())
      ensures ok ==> Contents() == mark.stored[position.start..] + Written()[|mark.stored|..]
      ensures !ok ==> Contents() == old(Contents())
    {
      if position.version != version { return false; }
      start := position.start;
      assert bytes[..end] == mark.stored + bytes[..end][|mark.stored|..];
      return true;
    }

    // ----- Integers -----

    method WriteUInt(v: nat, k: nat)
      requires Valid()
      modifies this, bytes
      ensures Valid() && Contents() == old(Contents()) + Stored(order, bigEndianHost, v, k)
      ensures marks == old(marks) && (bytes == old(bytes) || fresh(bytes))
    {
      WriteBytes(Stored(order, bigEndianHost, v, k));
    }

    /** What a write of the same width put at the front is what a read takes from it. */
    method ReadUInt(k: nat) returns (ok: bool, v: nat)
      requires Valid()
      modifies this`start
      ensures Valid() && ok == (k <= |old(Contents())|)
      ensures Contents() == old(Contents())[if ok then k else 0..]
      ensures ok ==> forall w: nat :: w < Pow256(k) && Stored(order, bigEndianHost, w, k) <= old(Contents()) ==> v == w
    {
      var val;
      ok, val := ReadBytes(k);
      v := Loaded(order, bigEndianHost, val);
      if ok {
        forall w: nat | w < Pow256(k) && Stored(order, bigEndianHost, w, k) <= old(Contents()) ensures v == w {
          assert val == Stored(order, bigEndianHost, w, k);
          IntegersReadBack(order, bigEndianHost, w, k);
        }
      }
    }

    method WriteUInt24(v: nat)
      requires Valid()
      modifies this, bytes
      ensures Valid() && Contents() == old(Contents()) + Stored24(order, bigEndianHost, v)
      ensures marks == old(marks) && (bytes == old(bytes) || fresh(bytes))
    {
      WriteBytes(Stored24(order, bigEndianHost, v));
    }

    method ReadUInt24() returns (ok: bool, v: nat)
      requires Valid()
      modifies this`start
      ensures Valid() && ok == (3 <= |old(Contents())|)
      ensures Contents() == old(Contents())[if ok then 3 else 0..]
      ensures ok ==> forall w: nat :: Stored24(order, bigEndianHost, w) <= old(Contents()) ==> v == w % 0x100_0000
    {
      var val;
      ok, val := ReadBytes(3);
      v := Loaded24(order, bigEndianHost, val);
      if ok {
        forall w: nat | Stored24(order, bigEndianHost, w) <= old(Contents()) ensures v == w % 0x100_0000 {
          assert val == Stored24(order, bigEndianHost, w);
          Integers24ReadBack(order, bigEndianHost, w);
        }
      }
    }
  }

  lemma AppendedLater(taken: seq<byte>, unread: seq<byte>, val: seq<byte>)
    ensures taken + (unread + val) == (taken + unread) + val
  {
  }

  lemma TakenNow(taken: seq<byte>, unread: seq<byte>, n: nat)
    requires n <= |unread|
    ensures taken + unread[..n] + unread[n..] == taken + unread
  {
    assert unread[..n] + unread[n..] == unread;
  }

  /** Any run of writes and reads: what has come out, then what is unread, is what went in. */
  method AnyFifoRun(steps: nat, order: Order, bigEndianHost: bool) returns (written: seq<byte>, taken: seq<byte>)
    ensures taken <= written
  {
    var b := new ByteBuffer([], 4096, order, bigEndianHost);
    written, taken := [], [];
    for i := 0 to steps
      invariant fresh(b) && fresh(b.bytes) && b.Valid() && taken + b.Contents() == written
    {
      var pick: int, val: seq<byte>, n: nat := *, *, *;
      ghost var unread := b.Contents();
      if pick == 0 {
        AppendedLater(taken, unread, val);
        b.WriteBytes(val);
        written := written + val;
      } else {
        var ok, out := b.ReadBytes(n);
        if ok {
          TakenNow(taken, unread, n);
          taken := taken + out;
        }
      }
    }
  }
}
