/**
 * RecordingStream: a wrapper around the live stream that remembers the
 * lowest and the highest position any seek left it at, so that the byte
 * range a ZIP reader touched (the central directory) can be cached.
 */
module RecordingStreams {
  import opened Wrappers
  import opened LiveStreams

  /** The lowest of the recorded positions, None when nothing was recorded. */
  function Lowest(ps: seq<nat>): (m: Option<nat>)
    ensures m.None? <==> ps == []
    ensures m.Some? ==> m.value in ps && forall p :: p in ps ==> m.value <= p
  {
    if ps == [] then None
    else
      var m := Lowest(ps[..|ps| - 1]);
      var last := ps[|ps| - 1];
      assert ps == ps[..|ps| - 1] + [last];
      if m.None? || last < m.value then Some(last) else m
  }

  /** The highest of the recorded positions, None when nothing was recorded. */
  function Highest(ps: seq<nat>): (m: Option<nat>)
    ensures m.None? <==> ps == []
    ensures m.Some? ==> m.value in ps && forall p :: p in ps ==> p <= m.value
  {
    if ps == [] then None
    else
      var m := Highest(ps[..|ps| - 1]);
      var last := ps[|ps| - 1];
      assert ps == ps[..|ps| - 1] + [last];
      if m.None? || last > m.value then Some(last) else m
  }

  /** Recording one more position updates the lowest exactly as `seek` does. */
  lemma LowestAppend(ps: seq<nat>, p: nat)
    ensures Lowest(ps + [p]) == if Lowest(ps).None? || p < Lowest(ps).value then Some(p) else Lowest(ps)
  {
    assert (ps + [p])[..|ps|] == ps;
  }

  /** Recording one more position updates the highest exactly as `seek` does. */
  lemma HighestAppend(ps: seq<nat>, p: nat)
    ensures Highest(ps + [p]) == if Highest(ps).None? || p > Highest(ps).value then Some(p) else Highest(ps)
  {
    assert (ps + [p])[..|ps|] == ps;
  }

  /**
   * The table-of-contents entry of `toc()`. `NoRange` is the entry of a
   * stream that was never seeked: its content is the raw empty byte string
   * and no offsets are recorded. `Range` holds the bytes from the lowest
   * recorded position to the end of the stream and both offsets.
   */
  datatype TocEntry = NoRange | Range(content: seq<byte>, minOffset: nat, maxOffset: nat)

  class RecordingStream {
    const fp: LiveStream
    var minOffset: Option<nat>
    var maxOffset: Option<nat>
    /** Every position a seek left the stream at, in order. */
    ghost var visited: seq<nat>

    ghost predicate Valid()
      reads this
    {
      minOffset == Lowest(visited) && maxOffset == Highest(visited)
    }

    /** `RecordingStream.open(fp)`: nothing recorded yet. */
    constructor (fp: LiveStream)
      ensures this.fp == fp && minOffset == None && maxOffset == None && visited == [] && Valid()
    {
      this.fp := fp;
      minOffset := None;
      maxOffset := None;
      visited := [];
    }

    /**
     * `seek(offset, whence)`: seeks the wrapped stream and records where it
     * ended up; a seek the wrapped stream refuses records nothing.
     */
    method Seek(offset: int, whence: int) returns (r: Result<(), StreamError>)
      requires Valid()
      modifies this, fp
      ensures Valid()
      ensures var t := SeekTarget(offset, whence, old(fp.pos), |fp.data|);
        if t.None? then r == Failure(InvalidWhence) && fp.pos == old(fp.pos) && visited == old(visited)
        else if t.value < 0 then r == Failure(NegativeSeek) && fp.pos == old(fp.pos) && visited == old(visited)
        else r == Success(()) && fp.pos == t.value && visited == old(visited) + [fp.pos]
      ensures r.Failure? ==> minOffset == old(minOffset) && maxOffset == old(maxOffset)
    {
      var s := fp.Seek(offset, whence);
      if s.Failure? {
        return Failure(s.error);
      }
      var actualPos := fp.Tell();
      LowestAppend(visited, actualPos);
      HighestAppend(visited, actualPos);
      if minOffset.None? || actualPos < minOffset.value {
        minOffset := Some(actualPos);
      }
      if maxOffset.None? || actualPos > maxOffset.value {
        maxOffset := Some(actualPos);
      }
      visited := visited + [actualPos];
      r := Success(());
    }

    /** `tell()`: the wrapped stream's position. */
    method Tell() returns (p: nat)
      ensures p == fp.pos
    {
      p := fp.Tell();
    }

    /** `read(size)`: the wrapped stream's read; nothing is recorded. */
    method Read(size: int) returns (chunk: seq<byte>)
      modifies fp
      ensures chunk == LiveRead(fp.data, old(fp.pos), size)
      ensures fp.pos == old(fp.pos) + |chunk|
    {
      chunk := fp.Read(size);
    }

    /**
     * `toc()`: after no seek at all, the empty raw entry; otherwise the
     * bytes from the lowest recorded position to the end of the stream,
     * with both offsets. Every recorded position within the stream lies in
     * the cached range, so the content holds every byte from any recorded
     * position to the end.
     */
    method Toc() returns (t: TocEntry)
      requires Valid()
      modifies fp
      ensures minOffset.None? <==> t.NoRange?
      ensures t.NoRange? ==> fp.pos == old(fp.pos) && visited == []
      ensures t.Range? ==> t.minOffset == minOffset.value && maxOffset == Some(t.maxOffset)
      ensures t.Range? ==> t.content == LiveRead(fp.data, t.minOffset, -1)
      ensures t.Range? ==> fp.pos == if t.minOffset <= |fp.data| then |fp.data| else t.minOffset
      ensures t.Range? ==> forall p :: p in visited && p <= |fp.data| ==> t.minOffset <= p <= t.maxOffset && fp.data[p..] == t.content[p - t.minOffset..]
    {
      if minOffset.None? {
        return NoRange;
      }
      var m := minOffset.value;
      var _ := fp.Seek(m, SEEK_SET);
      var content := fp.Read(-1);
      t := Range(content, m, maxOffset.value);
      forall p | p in visited && p <= |fp.data|
        ensures fp.data[p..] == t.content[p - m..]
      {
        assert m <= p;
        assert content == fp.data[m..];
      }
    }
  }
}
