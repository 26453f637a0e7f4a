/** StreamInterface of src/talk/base/stream.h. What the other end does is not known:
    each call moves any number of elements, blocks or fails as it likes, and the
    ghost histories record what was moved. A success moves at least one element;
    any other call moves nothing and is counted by its kind. */
module Streams {

  datatype WriteResult = Accepted(count: nat) | WriteBlocked | WriteEos | WriteFailed(code: int)

  datatype ReadResult<T> = Got(data: seq<T>) | ReadBlocked | ReadEos | ReadFailed(code: int)

  /** The writing side of a stream. */
  class Sink<T(==)> {
    var contents: seq<T>
    ghost var blocks: nat     // writes that blocked
    ghost var failures: nat   // writes that met the end of the stream or an error
    ghost var code: int       // the error of the last failure, or 0 for the end

    constructor ()
      ensures contents == []
    {
      contents, blocks, failures, code := [], 0, 0, 0;
    }

    method Write(data: seq<T>) returns (r: WriteResult)
      requires |data| > 0
      modifies this
      ensures r.Accepted? ==> 0 < r.count <= |data| && contents == old(contents) + data[..r.count]
      ensures !r.Accepted? ==> contents == old(contents)
      ensures blocks == old(blocks) + (if r.WriteBlocked? then 1 else 0)
      ensures failures == old(failures) + (if r.WriteEos? || r.WriteFailed? then 1 else 0)
      ensures (r.WriteEos? ==> code == 0) && (r.WriteFailed? ==> code == r.code)
    {
      r := *;
      match r {
        case Accepted(_) =>
          if !(0 < r.count <= |data|) { r := Accepted(|data|); }
          contents := contents + data[..r.count];
        case WriteBlocked =>
          blocks := blocks + 1;
        case WriteEos =>
          failures, code := failures + 1, 0;
        case WriteFailed(error) =>
          failures, code := failures + 1, error;
      }
    }
  }

  /** The reading side of a stream whose sender is not known. */
  class Source<T(==)> {
    ghost var received: seq<T>
    ghost var calls: nat      // reads in all
    ghost var blocks: nat     // reads that blocked
    ghost var failures: nat   // reads that met the end of the stream or an error
    ghost var code: int       // the error of the last failure, or 0 for the end

    constructor ()
      ensures received == []
    {
      received, calls, blocks, failures, code := [], 0, 0, 0, 0;
    }

    method Read(max: nat) returns (r: ReadResult<T>)
      requires max > 0
      modifies this
      ensures r.Got? ==> 0 < |r.data| <= max && received == old(received) + r.data
      ensures !r.Got? ==> received == old(received)
      ensures calls == old(calls) + 1
      ensures blocks == old(blocks) + (if r.ReadBlocked? then 1 else 0)
      ensures failures == old(failures) + (if r.ReadEos? || r.ReadFailed? then 1 else 0)
      ensures (r.ReadEos? ==> code == 0) && (r.ReadFailed? ==> code == r.code)
    {
      r := *;
      if r.Got? && !(0 < |r.data| <= max) { r := ReadBlocked; }
      calls := calls + 1;
      match r {
        case Got(data) => received := received + data;
        case ReadBlocked => blocks := blocks + 1;
        case ReadEos => failures, code := failures + 1, 0;
        case ReadFailed(error) => failures, code := failures + 1, error;
      }
    }
  }

  /** A stored document of known contents, read from front to back. Its end is
      reported once everything has been read, and then again on every read. */
  class Stored<T(==)> {
    const contents: seq<T>
    var position: nat
    ghost var blocks: nat     // reads that blocked
    ghost var failures: nat   // reads that met an error
    ghost var ends: nat       // reads that met the end

    constructor (contents: seq<T>)
      ensures this.contents == contents && position == 0
    {
      this.contents, position, blocks, failures, ends := contents, 0, 0, 0, 0;
    }

    method Read(max: nat) returns (r: ReadResult<T>)
      requires max > 0 && position <= |contents|
      modifies this
      ensures position <= |contents|
      ensures r.Got? ==> 0 < |r.data| <= max && position == old(position) + |r.data|
                         && r.data == contents[old(position)..position]
      ensures !r.Got? ==> position == old(position)
      ensures r.ReadEos? ==> position == |contents|
      ensures blocks == old(blocks) + (if r.ReadBlocked? then 1 else 0)
      ensures failures == old(failures) + (if r.ReadFailed? then 1 else 0)
      ensures ends == old(ends) + (if r.ReadEos? then 1 else 0)
    {
      var blocked: bool, failed: bool, code: int, n: nat := *, *, *, *;
      if blocked {
        blocks := blocks + 1;
        return ReadBlocked;
      }
      if failed {
        failures := failures + 1;
        return ReadFailed(code);
      }
      if position == |contents| {
        ends := ends + 1;
        return ReadEos;
      }
      if !(0 < n <= max && position + n <= |contents|) { n := 1; }
      r := Got(contents[position..position + n]);
      position := position + n;
    }
  }
}
