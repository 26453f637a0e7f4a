/** Bounded printing into `buffer_` of HttpBase (src/talk/base/httpbase.h), 32K characters
    of which the first `len` are in use. */
module HttpBuffers {
  import opened Buffers
  import opened HttpText

  /** What the bounded string functions keep of a string, given room for `size` characters
      of which the last is a terminator. */
  function Clip(s: string, size: nat): (r: string)
    ensures r <= s
    ensures |s| < size ==> r == s
    ensures 0 < size <= |s| ==> |r| == size - 1
  {
    if size == 0 then "" else if |s| < size then s else s[..size - 1]
  }

  /** `sprintfn` or `strcpyn` at the end of the buffer, which cut the text to leave room
      for a terminator; the text is kept if the buffer then stays below the limit. */
  method Print(buffer: Buffer<char>, text: string, limit: nat) returns (kept: bool)
    requires buffer.Valid() && buffer.len < buffer.data.Length == BUFFER_SIZE
    modifies buffer, buffer.data
    ensures buffer.Valid()
    ensures var clip := Clip(text, BUFFER_SIZE - old(buffer.len));
            kept == (old(buffer.len) + |clip| < limit) &&
            buffer.Text() == old(buffer.Text()) + (if kept then clip else "")
  {
    var clip := Clip(text, BUFFER_SIZE - buffer.len);
    buffer.Append(clip);
    buffer.data[buffer.len] := '\0';
    kept := buffer.len < limit;
    if !kept { buffer.Shrink(buffer.len - |clip|); }
  }
}
