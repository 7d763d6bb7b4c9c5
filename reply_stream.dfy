/**
 * ReplyStream: a virtual seekable stream over three zones of an archive. Bytes
 * in [headerPos, headerPos + |header|) come from a cached header buffer; bytes
 * before and after that window come from a live stream.
 */
module ReplyStreams {
  import opened Wrappers
  import opened LiveStreams

  /** What a read cannot change: the live stream's bytes, and the cached header and where it sits. */
  datatype Archive = Archive(data: seq<byte>, headerPos: nat, header: seq<byte>)
  {
    function HeaderEnd(): nat { headerPos + |header| }

    /** The header buffer holds the live stream's own bytes of its window. */
    predicate HeaderMatches() { HeaderEnd() <= |data| && header == data[headerPos..HeaderEnd()] }
  }

  /** What a read works on: the archive, where the live stream stands, and the virtual cursor (`current_pos`). */
  datatype Cursor = Cursor(src: Archive, livePos: nat, cur: int)
  {
    predicate InHeader() { src.headerPos <= cur < src.HeaderEnd() }

    /** The live stream stands where the cursor is whenever the cursor is outside the header. */
    predicate Synced() { !InHeader() ==> livePos == cur }
  }

  /** The bytes a read returned and the cursor it left behind. */
  datatype Drained = Drained(bytes: seq<byte>, after: Cursor)

  /** One pass of the drain loop: the chunk it appends, the cursor after it, and whether the loop breaks. */
  datatype Pass = Pass(chunk: seq<byte>, next: Cursor, stop: bool)

  /** The bytes of `data` in the window [a, b), clipped at the end of the data. */
  function Window(data: seq<byte>, a: nat, b: nat): seq<byte>
    requires a <= b
  {
    data[Min(a, |data|)..Min(b, |data|)]
  }

  /**
   * One pass of the loop with `n > 0` bytes still wanted: before the header
   * at most the bytes up to the header are asked of the live stream and a
   * short read breaks; inside the header the header's bytes up to its end
   * are taken; after it the live stream is asked for all `n` and an empty
   * read breaks. A pass that does not break advances the cursor.
   */
  function Step(c: Cursor, n: int): (p: Pass)
    requires n > 0
    ensures 0 < |p.chunk| <= n || (p.stop && p.chunk == [])
    ensures p.next.src == c.src && p.next.cur == c.cur + |p.chunk|
    ensures c.InHeader() ==> !p.stop && p.next.livePos == c.livePos
    ensures !c.InHeader() ==> p.next.livePos == c.livePos + |p.chunk|
    ensures c.cur < c.src.headerPos ==> |p.chunk| <= c.src.headerPos - c.cur
  {
    var a := c.src;
    if c.cur < a.headerPos then
      var k := Min(n, a.headerPos - c.cur);
      var chunk := LiveRead(a.data, c.livePos, k);
      Pass(chunk, Cursor(a, c.livePos + |chunk|, c.cur + |chunk|), |chunk| < k)
    else if c.cur < a.HeaderEnd() then
      var off := c.cur - a.headerPos;
      var k := Min(n, |a.header| - off);
      Pass(a.header[off..off + k], Cursor(a, c.livePos, c.cur + k), false)
    else
      var chunk := LiveRead(a.data, c.livePos, n);
      Pass(chunk, Cursor(a, c.livePos + |chunk|, c.cur + |chunk|), |chunk| == 0)
  }

  /**
   * The drain loop of `read`: passes are taken while bytes remain wanted,
   * until one breaks.
   */
  function Drain(c: Cursor, n: int): (r: Drained)
    ensures |r.bytes| <= if n < 0 then 0 else n
    ensures r.after.src == c.src && r.after.cur == c.cur + |r.bytes|
    ensures r.after.livePos >= c.livePos
    decreases if n < 0 then 0 else n
  {
    if n <= 0 then Drained([], c)
    else
      var p := Step(c, n);
      if p.stop then Drained(p.chunk, p.next)
      else
        var rest := Drain(p.next, n - |p.chunk|);
        Drained(p.chunk + rest.bytes, rest.after)
  }

  /** A pass either ends the drain or leaves the rest of it to the following passes. */
  lemma PassTaken(c: Cursor, n: int, chunk: seq<byte>, next: Cursor, stop: bool, m: int)
    requires n > 0 && Step(c, n) == Pass(chunk, next, stop) && m == n - |chunk|
    ensures stop ==> Drain(c, n) == Drained(chunk, next)
    ensures !stop ==> Drain(c, n) == Drained(chunk + Drain(next, m).bytes, Drain(next, m).after)
  {
    var p := Step(c, n);
    assert p.chunk == chunk && p.next == next && p.stop == stop;
    assert n - |p.chunk| == m;
  }

  lemma Associative(a: seq<byte>, b: seq<byte>, c: seq<byte>)
    ensures (a + b) + c == a + (b + c)
  {
  }

  lemma SliceOfSlice(d: seq<byte>, lo: nat, hi: nat, a: nat, b: nat)
    requires lo <= hi <= |d| && a <= b <= hi - lo
    ensures d[lo..hi][a..b] == d[lo + a..lo + b]
  {
    var s := d[lo..hi][a..b];
    assert |s| == b - a;
    forall i | 0 <= i < b - a
      ensures s[i] == d[lo + a + i]
    {
    }
  }

  lemma SliceConcat(d: seq<byte>, a: nat, b: nat, e: nat)
    requires a <= b <= e <= |d|
    ensures d[a..e] == d[a..b] + d[b..e]
  {
  }

  /** Inside the data a window is the plain slice. */
  lemma WindowInside(d: seq<byte>, a: nat, b: nat)
    requires a <= b <= |d|
    ensures Window(d, a, b) == d[a..b]
  {
  }

  /** A live read from a position is the window of that many bytes from it. */
  lemma LiveReadIsWindow(data: seq<byte>, pos: nat, n: nat)
    ensures LiveRead(data, pos, n) == Window(data, pos, pos + n)
  {
  }

  /** `read(size)`: -1 asks for everything up to `fileSize`. */
  function ResolveSize(size: int, fileSize: nat, cur: int): int
  {
    if size == -1 then fileSize - cur else size
  }

  /** After the header, a read is one contiguous live read from wherever the live stream stands. */
  lemma DrainAfterHeader(c: Cursor, n: int)
    requires c.cur >= c.src.HeaderEnd() && n >= 0
    ensures Drain(c, n).bytes == LiveRead(c.src.data, c.livePos, n)
    ensures Drain(c, n).after.livePos == c.livePos + |Drain(c, n).bytes|
  {
    if n > 0 {
      var chunk := LiveRead(c.src.data, c.livePos, n);
      var next := Cursor(c.src, c.livePos + |chunk|, c.cur + |chunk|);
      assert Step(c, n) == Pass(chunk, next, |chunk| == 0);
      if |chunk| > 0 {
        var m := n - |chunk|;
        PassTaken(c, n, chunk, next, false, m);
        if m > 0 {
          assert LiveRead(c.src.data, next.livePos, m) == [];
          assert Step(next, m) == Pass([], next, true);
          PassTaken(next, m, [], next, true, m);
        }
        assert chunk + [] == chunk;
      }
    }
  }

  /**
   * Before the header a read never asks the live stream for bytes beyond the
   * header position: a read that stays before the header is one live read.
   */
  lemma DrainStopsAtHeader(c: Cursor, n: int)
    requires c.cur < c.src.headerPos && 0 < n <= c.src.headerPos - c.cur
    ensures Drain(c, n).bytes == LiveRead(c.src.data, c.livePos, n)
    ensures Drain(c, n).after.livePos == c.livePos + |Drain(c, n).bytes|
  {
    var chunk := LiveRead(c.src.data, c.livePos, n);
    var next := Cursor(c.src, c.livePos + |chunk|, c.cur + |chunk|);
    assert Step(c, n) == Pass(chunk, next, |chunk| < n);
    if |chunk| == n {
      PassTaken(c, n, chunk, next, false, 0);
      assert chunk + [] == chunk;
    }
  }

  /** Before the header, on a synchronized cursor, a pass reads the archive's own bytes up to the header. */
  lemma StepBefore(c: Cursor, n: int)
    requires c.Synced() && c.src.HeaderMatches() && 0 <= c.cur < c.src.headerPos && n > 0
    ensures var k := Min(n, c.src.headerPos - c.cur);
      Step(c, n) == Pass(c.src.data[c.cur..c.cur + k], Cursor(c.src, c.cur + k, c.cur + k), false)
  {
  }

  /** Before the header, on a synchronized cursor, a read takes the archive's bytes up to the header and leaves the rest to a read from there. */
  lemma DrainBefore(c: Cursor, n: int, e: nat, next: Cursor, m: int)
    requires c.Synced() && c.src.HeaderMatches() && 0 <= c.cur < c.src.headerPos && n > 0
    requires e == c.cur + Min(n, c.src.headerPos - c.cur) && next == Cursor(c.src, e, e) && m == c.cur + n - e
    ensures e <= |c.src.data|
    ensures Drain(c, n) == Drained(c.src.data[c.cur..e] + Drain(next, m).bytes, Drain(next, m).after)
  {
    var k := Min(n, c.src.headerPos - c.cur);
    StepBefore(c, n);
    assert c.cur + k == e;
    PassTaken(c, n, c.src.data[c.cur..e], next, false, m);
  }

  /** Inside the header a pass takes the header's bytes up to its end, which are the archive's own. */
  lemma StepInHeader(c: Cursor, n: int)
    requires c.src.HeaderMatches() && c.InHeader() && n > 0
    ensures var k := Min(n, c.src.HeaderEnd() - c.cur);
      Step(c, n) == Pass(c.src.data[c.cur..c.cur + k], Cursor(c.src, c.livePos, c.cur + k), false)
  {
    var a := c.src;
    var off := c.cur - a.headerPos;
    SliceOfSlice(a.data, a.headerPos, a.HeaderEnd(), off, off + Min(n, a.HeaderEnd() - c.cur));
  }

  /**
   * Splicing: from a synchronized cursor over a header that holds the
   * archive's own bytes, a read that does not run from the header (or before
   * it) past the header's end returns exactly the archive's bytes of the
   * window, and leaves the stream synchronized unless it ends exactly at the
   * end of a non-empty header.
   */
  lemma {:induction false} Splice(c: Cursor, n: nat)
    requires c.Synced() && c.src.HeaderMatches() && c.cur >= 0
    requires c.cur >= c.src.HeaderEnd() || c.cur + n <= c.src.HeaderEnd()
    ensures Drain(c, n).bytes == Window(c.src.data, c.cur, c.cur + n)
    ensures c.cur >= c.src.HeaderEnd() || c.cur + n < c.src.HeaderEnd() || c.src.header == [] ==> Drain(c, n).after.Synced()
    decreases n
  {
    if n == 0 {
    } else if c.cur < c.src.headerPos {
      var e := c.cur + Min(n, c.src.headerPos - c.cur);
      var next := Cursor(c.src, e, e);
      var m := c.cur + n - e;
      Splice(next, m);
      assert next.cur + m == c.cur + n;
      WindowInside(c.src.data, e, c.cur + n);
      SpliceBefore(c, n, e, next, m);
      WindowInside(c.src.data, c.cur, c.cur + n);
    } else if c.cur < c.src.HeaderEnd() {
      SpliceInHeader(c, n);
    } else {
      SpliceAfter(c, n);
    }
  }

  /** Before the header a read takes the archive's bytes up to the header, then carries on from there as a read of the rest does. */
  lemma SpliceBefore(c: Cursor, n: nat, e: nat, next: Cursor, m: int)
    requires c.Synced() && c.src.HeaderMatches() && 0 <= c.cur < c.src.headerPos && 0 < n && c.cur + n <= c.src.HeaderEnd()
    requires e == c.cur + Min(n, c.src.headerPos - c.cur) && next == Cursor(c.src, e, e) && m == c.cur + n - e
    requires c.cur + n <= |c.src.data| && Drain(next, m).bytes == c.src.data[e..c.cur + n]
    ensures Drain(c, n).bytes == c.src.data[c.cur..c.cur + n]
    ensures Drain(c, n).after == Drain(next, m).after
  {
    DrainBefore(c, n, e, next, m);
    SliceConcat(c.src.data, c.cur, e, c.cur + n);
  }

  /** Inside the header a read that stays inside it returns the archive's bytes. */
  lemma SpliceInHeader(c: Cursor, n: nat)
    requires c.src.HeaderMatches() && c.InHeader() && 0 < n && c.cur + n <= c.src.HeaderEnd()
    ensures Drain(c, n).bytes == Window(c.src.data, c.cur, c.cur + n)
    ensures c.cur + n < c.src.HeaderEnd() ==> Drain(c, n).after.Synced()
  {
    var next := Cursor(c.src, c.livePos, c.cur + n);
    StepInHeader(c, n);
    PassTaken(c, n, c.src.data[c.cur..c.cur + n], next, false, 0);
    assert Drain(next, 0) == Drained([], next);
    assert c.src.data[c.cur..c.cur + n] + [] == c.src.data[c.cur..c.cur + n];
    WindowInside(c.src.data, c.cur, c.cur + n);
  }

  /** After the header a read from a synchronized cursor returns the archive's bytes and stays synchronized. */
  lemma SpliceAfter(c: Cursor, n: nat)
    requires c.Synced() && 0 <= c.src.HeaderEnd() <= c.cur
    ensures Drain(c, n).bytes == Window(c.src.data, c.cur, c.cur + n)
    ensures Drain(c, n).after.Synced()
  {
    DrainAfterHeader(c, n);
    LiveReadIsWindow(c.src.data, c.cur, n);
  }

  /**
   * The stale read: a read that starts in or before a non-empty header and
   * asks for more than remains up to the header's end returns the header's
   * bytes and then bytes read from wherever the live stream was left: the
   * header position when it started before the header, the live stream's
   * earlier position when it started inside it.
   */
  lemma DrainPastHeaderIsStale(c: Cursor, n: nat)
    requires c.Synced() && c.src.HeaderMatches() && 0 <= c.cur < c.src.HeaderEnd() && c.src.header != []
    requires c.cur + n > c.src.HeaderEnd()
    ensures var stale := if c.cur < c.src.headerPos then c.src.headerPos else c.livePos;
      Drain(c, n).bytes == c.src.data[c.cur..c.src.HeaderEnd()] + LiveRead(c.src.data, stale, c.cur + n - c.src.HeaderEnd())
  {
    if c.cur < c.src.headerPos {
      var next := Cursor(c.src, c.src.headerPos, c.src.headerPos);
      var m := c.cur + n - c.src.headerPos;
      StaleInHeader(next, m);
      assert next.cur + m - next.src.HeaderEnd() == c.cur + n - c.src.HeaderEnd();
      StaleBefore(c, n, next, m);
    } else {
      StaleInHeader(c, n);
    }
  }

  /** Inside a non-empty header a read past its end returns the header's rest, then reads on from where the live stream stands. */
  lemma StaleInHeader(c: Cursor, n: nat)
    requires c.src.HeaderMatches() && c.InHeader() && c.cur + n > c.src.HeaderEnd()
    ensures Drain(c, n).bytes == c.src.data[c.cur..c.src.HeaderEnd()] + LiveRead(c.src.data, c.livePos, c.cur + n - c.src.HeaderEnd())
  {
    var a := c.src;
    var m := c.cur + n - a.HeaderEnd();
    var next := Cursor(a, c.livePos, a.HeaderEnd());
    StepInHeader(c, n);
    PassTaken(c, n, a.data[c.cur..a.HeaderEnd()], next, false, m);
    DrainAfterHeader(next, m);
  }

  /** Before a non-empty header a read past its end returns the bytes up to the header, then what a read from the header returns. */
  lemma StaleBefore(c: Cursor, n: nat, next: Cursor, m: int)
    requires c.Synced() && c.src.HeaderMatches() && 0 <= c.cur < c.src.headerPos && c.src.header != [] && c.cur + n > c.src.HeaderEnd()
    requires next == Cursor(c.src, c.src.headerPos, c.src.headerPos) && m == c.cur + n - c.src.headerPos
    requires Drain(next, m).bytes
        == c.src.data[c.src.headerPos..c.src.HeaderEnd()] + LiveRead(c.src.data, c.src.headerPos, c.cur + n - c.src.HeaderEnd())
    ensures Drain(c, n).bytes == c.src.data[c.cur..c.src.HeaderEnd()] + LiveRead(c.src.data, c.src.headerPos, c.cur + n - c.src.HeaderEnd())
  {
    var a := c.src;
    DrainBefore(c, n, a.headerPos, next, m);
    SliceConcat(a.data, c.cur, a.headerPos, a.HeaderEnd());
    Associative(a.data[c.cur..a.headerPos], a.data[a.headerPos..a.HeaderEnd()], LiveRead(a.data, a.headerPos, c.cur + n - a.HeaderEnd()));
  }

  /** A concrete stale read: the window [1, 4) of a 3-byte archive is [2, 3], yet a read of 3 bytes from 1 returns [2, 3, 1]. */
  lemma StaleReadExample()
    ensures var c := Cursor(Archive([1, 2, 3], 1, [2, 3]), 0, 1);
      c.Synced() && c.src.HeaderMatches()
      && Drain(c, 3).bytes == [2, 3, 1]
      && Window(c.src.data, 1, 4) == [2, 3]
  {
    var c := Cursor(Archive([1, 2, 3], 1, [2, 3]), 0, 1);
    assert c.src.data[1..3] == [2, 3];
    DrainPastHeaderIsStale(c, 3);
    assert LiveRead(c.src.data, 0, 1) == [1];
  }

  /** Inside the header a read that ends exactly at its end returns the header's rest and leaves the live stream where it stood. */
  lemma InHeaderToEnd(c: Cursor, n: nat)
    requires c.src.HeaderMatches() && c.InHeader() && c.cur + n == c.src.HeaderEnd()
    ensures Drain(c, n) == Drained(c.src.data[c.cur..c.src.HeaderEnd()], Cursor(c.src, c.livePos, c.src.HeaderEnd()))
  {
    var next := Cursor(c.src, c.livePos, c.src.HeaderEnd());
    StepInHeader(c, n);
    PassTaken(c, n, c.src.data[c.cur..c.src.HeaderEnd()], next, false, 0);
    assert Drain(next, 0) == Drained([], next);
    assert c.src.data[c.cur..c.src.HeaderEnd()] + [] == c.src.data[c.cur..c.src.HeaderEnd()];
  }

  /**
   * A read from inside or before a non-empty header that ends exactly at the
   * header's end returns the archive's bytes, but leaves the cursor at the
   * header's end and the live stream where the header branch left it: at the
   * header position when the read started before the header, at its earlier
   * position when it started inside. Every following read without a seek is
   * then a live read from that stale position.
   */
  lemma ReadToHeaderEnd(c: Cursor, n: nat, m: nat)
    requires c.Synced() && c.src.HeaderMatches() && 0 <= c.cur < c.src.HeaderEnd() && c.src.header != []
    requires c.cur + n == c.src.HeaderEnd()
    ensures var stale := if c.cur < c.src.headerPos then c.src.headerPos else c.livePos;
      Drain(c, n).bytes == c.src.data[c.cur..c.src.HeaderEnd()]
      && Drain(c, n).after == Cursor(c.src, stale, c.src.HeaderEnd())
      && Drain(Drain(c, n).after, m).bytes == LiveRead(c.src.data, stale, m)
  {
    var a := c.src;
    var stale := if c.cur < a.headerPos then a.headerPos else c.livePos;
    if c.cur < a.headerPos {
      var next := Cursor(a, a.headerPos, a.headerPos);
      var k := c.cur + n - a.headerPos;
      DrainBefore(c, n, a.headerPos, next, k);
      InHeaderToEnd(next, k);
      SliceConcat(a.data, c.cur, a.headerPos, a.HeaderEnd());
    } else {
      InHeaderToEnd(c, n);
    }
    DrainAfterHeader(Cursor(a, stale, a.HeaderEnd()), m);
  }

  /**
   * A concrete instance: over a 3-byte archive whose header holds its last two
   * bytes, a read of 2 from 1 returns [2, 3] and reaches the end, yet the
   * next read of 1 returns [1] where the archive has nothing left.
   */
  lemma ReadAfterEndExample()
    ensures var c := Cursor(Archive([1, 2, 3], 1, [2, 3]), 0, 1);
      var d := Drain(c, 2);
      c.Synced() && c.src.HeaderMatches()
      && d.bytes == [2, 3] && d.after.cur == 3 && !d.after.Synced()
      && Drain(d.after, 1).bytes == [1] && Window(c.src.data, 3, 4) == []
  {
    var c := Cursor(Archive([1, 2, 3], 1, [2, 3]), 0, 1);
    assert c.src.data[1..3] == [2, 3];
    ReadToHeaderEnd(c, 2, 1);
    assert LiveRead(c.src.data, 0, 1) == [1];
  }

  /** The virtual stream of `ReplyStream`, over a live stream and a cached header. */
  class ReplyStream {
    const live: LiveStream
    const headerPos: nat
    const header: seq<byte>
    const fileSize: nat
    var currentPos: int

    /** The state a read works on. */
    ghost function State(): Cursor
      reads this, live
    {
      Cursor(Archive(live.data, headerPos, header), live.pos, currentPos)
    }

    constructor (selfStream: LiveStream, headerPos: nat, header: seq<byte>, fileSize: nat)
      ensures live == selfStream && this.headerPos == headerPos && this.header == header
      ensures this.fileSize == fileSize && currentPos == 0
    {
      live := selfStream;
      this.headerPos := headerPos;
      this.header := header;
      this.fileSize := fileSize;
      currentPos := 0;
    }

    function HeaderLen(): (len: nat)
      ensures len == |header|
    {
      |header|
    }

    function Seekable(): bool { true }

    function Readable(): bool { true }

    function Writable(): bool { false }

    /** `tell()`: the virtual cursor. */
    method Tell() returns (p: int)
      ensures p == currentPos
    {
      p := currentPos;
    }

    /**
     * `seek(offset, whence)`: moves the virtual cursor, and the live stream
     * to the same offset iff the new cursor lies outside the header.
     */
    method Seek(offset: int, whence: int) returns (r: Result<int, StreamError>)
      modifies this, live
      ensures var t := SeekTarget(offset, whence, old(currentPos), fileSize);
        if t.None? then
          r == Failure(InvalidWhence) && currentPos == old(currentPos) && live.pos == old(live.pos)
        else
          currentPos == t.value
          && (if headerPos <= t.value < headerPos + |header| then r == Success(t.value) && live.pos == old(live.pos)
              else if t.value < 0 then r == Failure(NegativeSeek) && live.pos == old(live.pos)
              else r == Success(t.value) && live.pos == t.value)
      ensures r.Success? ==> State().Synced() && currentPos >= 0
    {
      if whence == SEEK_SET {
        currentPos := offset;
      } else if whence == SEEK_CUR {
        currentPos := currentPos + offset;
      } else if whence == SEEK_END {
        currentPos := fileSize + offset;
      } else {
        return Failure(InvalidWhence);
      }
      if currentPos < headerPos {
        var s := live.Seek(currentPos, SEEK_SET);
        if s.Failure? { return Failure(s.error); }
      } else if currentPos >= headerPos + |header| {
        var s := live.Seek(currentPos, SEEK_SET);
        if s.Failure? { return Failure(s.error); }
      }
      r := Success(currentPos);
    }

    /** One pass of the loop in `read(size)`, with `bytesToRead > 0` bytes still wanted. */
    method ReadPass(bytesToRead: int) returns (chunk: seq<byte>, stop: bool)
      requires bytesToRead > 0
      modifies this, live
      ensures Step(old(State()), bytesToRead) == Pass(chunk, State(), stop)
    {
      if currentPos < headerPos {
        var chunkSize := Min(bytesToRead, headerPos - currentPos);
        chunk := live.Read(chunkSize);
        currentPos := currentPos + |chunk|;
        stop := |chunk| < chunkSize;
      } else if currentPos < headerPos + |header| {
        var headerOffset := currentPos - headerPos;
        var chunkSize := Min(bytesToRead, |header| - headerOffset);
        chunk := header[headerOffset..headerOffset + chunkSize];
        currentPos := currentPos + |chunk|;
        stop := false;
      } else {
        chunk := live.Read(bytesToRead);
        currentPos := currentPos + |chunk|;
        stop := |chunk| == 0;
      }
    }

    /** The loop of `read(size)` once the size is resolved to `n > 0` bytes. */
    method DrainLoop(n: int) returns (result: seq<byte>)
      requires n > 0
      modifies this, live
      ensures Drain(old(State()), n) == Drained(result, State())
    {
      ghost var goal := Drain(State(), n);
      ghost var rest := goal;
      result := [];
      var bytesToRead := n;
      while bytesToRead > 0
        invariant rest == Drain(State(), bytesToRead)
        invariant goal.bytes == result + rest.bytes && goal.after == rest.after
        decreases bytesToRead
      {
        ghost var c := State();
        ghost var want := bytesToRead;
        var chunk, stop := ReadPass(bytesToRead);
        bytesToRead := bytesToRead - |chunk|;
        rest := Drain(State(), bytesToRead);
        PassTaken(c, want, chunk, State(), stop, bytesToRead);
        Associative(result, chunk, rest.bytes);
        result := result + chunk;
        if stop {
          break;
        }
      }
    }

    /** `read(size)`: `-1` reads up to `fileSize`, a size of at most zero reads nothing. */
    method Read(size: int) returns (result: seq<byte>)
      modifies this, live
      ensures var d := Drain(old(State()), ResolveSize(size, fileSize, old(currentPos)));
        result == d.bytes && currentPos == d.after.cur && live.pos == d.after.livePos
      ensures ResolveSize(size, fileSize, old(currentPos)) <= 0 ==>
        result == [] && currentPos == old(currentPos) && live.pos == old(live.pos)
      ensures |result| <= ResolveSize(size, fileSize, old(currentPos)) || result == []
      ensures currentPos == old(currentPos) + |result|
    {
      var n := size;
      if n == -1 {
        n := fileSize - currentPos;
      }
      if n <= 0 {
        return [];
      }
      result := DrainLoop(n);
    }
  }
}
