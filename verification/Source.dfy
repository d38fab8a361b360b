/** The read-only evidence source: a cursor over fixed bytes whose reads may be short or fail. */
module Source {
  import opened Bytes

  /** What one `read` call reported. */
  datatype ReadResult = Count(n: nat) | ReadFailed

  class ReadOnlySource {
    const content: seq<byte>
    var pos: nat
    /** Whether some `read` call on this source has failed. */
    ghost var failed: bool

    constructor (image: seq<byte>)
      ensures content == image && pos == 0 && !failed
    {
      content := image;
      pos := 0;
      failed := false;
    }

    /** Moving past the end is allowed, as on a file. */
    method SeekFromStart(offset: nat)
      modifies this`pos
      ensures pos == offset
    {
      pos := offset;
    }

    /**
     * Reads into `buffer[from..]`. The number of bytes delivered is chosen by the environment:
     * anything from one byte to all that is asked for, and zero only at the end of the source or
     * for an empty request. The call may also fail, and then delivers nothing.
     */
    method Read(buffer: array<byte>, from: nat) returns (r: ReadResult)
      requires from <= buffer.Length
      modifies this, buffer
      ensures failed == (old(failed) || r.ReadFailed?)
      ensures r.ReadFailed? ==> pos == old(pos) && buffer[..] == old(buffer[..])
      ensures r.Count? ==>
                && r.n <= buffer.Length - from
                && pos == old(pos) + r.n
                && (r.n == 0 <==> from == buffer.Length || old(pos) >= |content|)
                && (r.n > 0 ==> pos <= |content|)
                && buffer[..from] == old(buffer[..from])
                && buffer[from..from + r.n] == (if r.n == 0 then [] else content[old(pos)..pos])
                && buffer[from + r.n..] == old(buffer[from + r.n..])
    {
      var fails: bool := *;
      if fails {
        failed := true;
        return ReadFailed;
      }
      if from == buffer.Length || pos >= |content| {
        return Count(0);
      }
      var n: nat :| 1 <= n <= buffer.Length - from && n <= |content| - pos;
      for i := 0 to n
        invariant pos == old(pos) && failed == old(failed)
        invariant forall k :: 0 <= k < from ==> buffer[k] == old(buffer[k])
        invariant buffer[from..from + i] == content[pos..pos + i]
        invariant forall k :: from + i <= k < buffer.Length ==> buffer[k] == old(buffer[k])
      {
        buffer[from + i] := content[pos + i];
      }
      pos := pos + n;
      return Count(n);
    }
  }

  function Min(a: nat, b: nat): nat {
    if a < b then a else b
  }

  /**
   * The inner loop that the acquirer, the parser and the verifier all run: read until the buffer is
   * full or a read returns nothing. Whatever the pattern of short reads, the result is the same.
   */
  method Fill(source: ReadOnlySource, buffer: array<byte>) returns (filled: nat, failed: bool)
    requires source.pos <= |source.content| && !source.failed
    modifies source, buffer
    ensures failed == source.failed
    ensures filled <= buffer.Length
    ensures source.pos == old(source.pos) + filled <= |source.content|
    ensures buffer[..filled] == source.content[old(source.pos)..source.pos]
    ensures !failed ==> filled == Min(buffer.Length, |source.content| - old(source.pos))
  {
    filled, failed := 0, false;
    while filled < buffer.Length
      invariant filled <= buffer.Length && !source.failed
      invariant source.pos == old(source.pos) + filled <= |source.content|
      invariant buffer[..filled] == source.content[old(source.pos)..source.pos]
      decreases buffer.Length - filled
    {
      ghost var before, at := filled, source.pos;
      var r := source.Read(buffer, filled);
      if r.ReadFailed? {
        failed := true;
        return;
      }
      if r.n == 0 {
        break;
      }
      filled := filled + r.n;
      assert buffer[..filled] == buffer[..before] + buffer[before..before + r.n];
      assert source.content[old(source.pos)..source.pos] ==
             source.content[old(source.pos)..at] + source.content[at..source.pos];
    }
  }
}
