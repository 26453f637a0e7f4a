/** The fixed-size arrays with a fill count that the stream code works in: the first
    `len` elements are in use, bytes are appended by memcpy and dropped by memmove. */
module Buffers {

  /** Moving the first n elements of a text from behind the line to before it. */
  lemma Moved<T>(out: seq<T>, text: seq<T>, n: nat)
    requires n <= |text|
    ensures (out + text[..n]) + text[n..] == out + text
  {
    assert text[..n] + text[n..] == text;
  }

  lemma Added<T>(out: seq<T>, held: seq<T>, text: seq<T>)
    ensures (out + held) + text == out + (held + text)
  {
  }

  class Buffer<T(0)> {
    const data: array<T>
    var len: nat

    ghost predicate Valid()
      reads this
    {
      len <= data.Length
    }

    ghost function Text(): (s: seq<T>)
      reads this, data
      requires Valid()
      ensures |s| == len
    {
      data[..len]
    }

    constructor (size: nat)
      ensures Valid() && Text() == [] && data.Length == size && fresh(data)
    {
      data := new T[size];
      len := 0;
    }

    method Contents() returns (s: seq<T>)
      requires Valid()
      ensures s == Text()
    {
      s := data[..len];
    }

    /** `memcpy` to the end of the buffer. */
    method Append(text: seq<T>)
      requires Valid() && len + |text| <= data.Length
      modifies this, data
      ensures Valid() && Text() == old(Text()) + text
    {
      forall i | 0 <= i < |text| {
        data[len + i] := text[i];
      }
      assert data[len..len + |text|] == text;
      assert data[..len + |text|] == data[..len] + data[len..len + |text|];
      len := len + |text|;
    }

    /** `memmove`: drops the first elements. */
    method Drop(count: nat)
      requires Valid() && count <= len
      modifies this, data
      ensures Valid() && Text() == old(Text())[count..]
    {
      len := len - count;
      forall i | 0 <= i < len {
        data[i] := data[count + i];
      }
    }

    /** Forgets the last elements. */
    method Shrink(count: nat)
      requires Valid() && count <= len
      modifies this`len
      ensures Valid() && Text() == old(Text())[..count]
    {
      len := count;
    }
  }
}
