/**
 * The whole point of the cached listing: a ReplyStream built from the
 * `toc` that `process` recorded serves, at every position, the bytes of
 * the archive itself, though it answers reads inside the cached range
 * from the cache and not from the live stream.
 */
module Splicing {
  import opened Wrappers
  import opened LiveStreams
  import opened RecordingStreams
  import opened ReplyStreams
  import opened ZipProcessor
  import opened ZipExtractor

  /** A toc that is a true copy of `data` from its lowest offset to the end, or no toc. */
  predicate CachedFrom(data: seq<byte>, toc: TocEntry)
  {
    toc.NoRange? || (toc.minOffset <= |data| && toc.content == data[toc.minOffset..])
  }

  /** What `_build_zip_toc` records is such a copy whenever its lowest seek lies within the archive. */
  lemma TocIsCached(data: seq<byte>, seeks: seq<nat>)
    requires seeks == [] || Lowest(seeks).value <= |data|
    ensures CachedFrom(data, TocOf(data, seeks))
  {
  }

  /** The archive as a ReplyStream over `data` built from `toc` sees it. */
  function ArchiveOf(data: seq<byte>, toc: TocEntry): (a: Archive)
    requires CachedFrom(data, toc)
    ensures a.data == data && a.HeaderMatches()
    ensures a.HeaderEnd() == if toc.NoRange? then 0 else |data|
  {
    var p := ParamsOf(toc);
    Archive(data, p.headerPos, p.header)
  }

  /**
   * Any read from a synchronised cursor that stays within the archive, or
   * starts at or past its end, returns the archive's own bytes.
   */
  lemma ServedFromToc(data: seq<byte>, toc: TocEntry, c: Cursor, n: nat)
    requires CachedFrom(data, toc) && c.src == ArchiveOf(data, toc) && c.Synced() && c.cur >= 0
    requires c.cur + n <= |data| || c.cur >= |data|
    ensures Drain(c, n).bytes == Window(data, c.cur, c.cur + n)
  {
    Splice(c, n);
  }

  /**
   * `ReplyStream(fp, toc.get("min_offset", 0), header, toc.get("max_offset", 0))`
   * over a fresh stream of `data`, then `seek(offset)` and `read(size)`, as
   * the ZIP library does for an entry in `extract` and `open`: a negative
   * offset fails, and every other read returns the archive's bytes from
   * `offset`, as many as `read(size)` resolves to.
   */
  method SplicedRead(data: seq<byte>, toc: TocEntry, offset: int, size: int) returns (r: Result<seq<byte>, StreamError>)
    requires CachedFrom(data, toc)
    ensures offset < 0 <==> r == Failure(NegativeSeek)
    ensures offset >= 0 ==> r.Success?
    ensures offset >= 0 && ResolveSize(size, ParamsOf(toc).fileSize, offset) <= 0 ==> r == Success([])
    ensures var n := ResolveSize(size, ParamsOf(toc).fileSize, offset);
      offset >= 0 && n > 0 && (offset + n <= |data| || offset >= |data|) ==> r == Success(Window(data, offset, offset + n))
  {
    var live := new LiveStream(data);
    var p := ParamsOf(toc);
    var rs := new ReplyStream(live, p.headerPos, p.header, p.fileSize);
    var s := rs.Seek(offset, SEEK_SET);
    if s.Failure? {
      return Failure(s.error);
    }
    ghost var c := rs.State();
    assert c.src == ArchiveOf(data, toc);
    var bytes := rs.Read(size);
    var n := ResolveSize(size, p.fileSize, offset);
    if n > 0 && (offset + n <= |data| || offset >= |data|) {
      ServedFromToc(data, toc, c, n);
    }
    r := Success(bytes);
  }

  /** The total number of bytes a sequence of reads asks for. */
  function Sum(sizes: seq<nat>): nat
  {
    if sizes == [] then 0 else sizes[0] + Sum(sizes[1..])
  }

  /** What consecutive reads of `sizes` bytes from cursor `c` return, each starting where the previous one left the stream. */
  function Reads(c: Cursor, sizes: seq<nat>): (rs: seq<seq<byte>>)
    ensures |rs| == |sizes|
    decreases |sizes|
  {
    if sizes == [] then []
    else
      var d := Drain(c, sizes[0]);
      [d.bytes] + Reads(d.after, sizes[1..])
  }

  /** The archive's own consecutive windows of `sizes` bytes from `from`. */
  function Windows(data: seq<byte>, from: nat, sizes: seq<nat>): (ws: seq<seq<byte>>)
    ensures |ws| == |sizes|
    decreases |sizes|
  {
    if sizes == [] then []
    else [Window(data, from, from + sizes[0])] + Windows(data, from + sizes[0], sizes[1..])
  }

  /**
   * Consecutive reads that together stay within the archive return the
   * archive's consecutive windows. A read may leave the stream out of step
   * only by ending exactly at the end of the archive, and then nothing
   * remains for the reads after it to ask for.
   */
  lemma {:induction false} ConsecutiveReads(data: seq<byte>, toc: TocEntry, c: Cursor, sizes: seq<nat>)
    requires CachedFrom(data, toc) && c.src == ArchiveOf(data, toc) && c.cur >= 0
    requires c.Synced() || c.cur == |data|
    requires c.cur + Sum(sizes) <= |data|
    ensures Reads(c, sizes) == Windows(data, c.cur, sizes)
    decreases |sizes|
  {
    if sizes != [] {
      var n := sizes[0];
      var d := Drain(c, n);
      if c.Synced() {
        Splice(c, n);
      } else {
        assert n == 0;
      }
      assert |d.bytes| == n;
      assert d.after.Synced() || d.after.cur == |data|;
      ConsecutiveReads(data, toc, d.after, sizes[1..]);
    }
  }

  /**
   * The pattern of the ZIP library over an opened entry: one
   * `seek(offset)`, then reads of `sizes` bytes one after the other, with no
   * seek between them. A negative offset fails, and reads that together
   * stay within the archive return its consecutive windows from `offset`.
   */
  method SplicedReads(data: seq<byte>, toc: TocEntry, offset: int, sizes: seq<nat>) returns (r: Result<seq<seq<byte>>, StreamError>)
    requires CachedFrom(data, toc)
    ensures offset < 0 <==> r == Failure(NegativeSeek)
    ensures offset >= 0 ==> r.Success? && |r.value| == |sizes|
    ensures offset >= 0 && offset + Sum(sizes) <= |data| ==> r == Success(Windows(data, offset, sizes))
  {
    var live := new LiveStream(data);
    var p := ParamsOf(toc);
    var rs := new ReplyStream(live, p.headerPos, p.header, p.fileSize);
    var s := rs.Seek(offset, SEEK_SET);
    if s.Failure? {
      return Failure(s.error);
    }
    ghost var start := rs.State();
    assert start.src == ArchiveOf(data, toc);
    var out: seq<seq<byte>> := [];
    var i := 0;
    while i < |sizes|
      invariant 0 <= i <= |sizes|
      invariant rs.State().src == start.src
      invariant out + Reads(rs.State(), sizes[i..]) == Reads(start, sizes)
      decreases |sizes| - i
    {
      ghost var c := rs.State();
      assert sizes[i..] == [sizes[i]] + sizes[i + 1..];
      var bytes := rs.Read(sizes[i]);
      assert rs.State() == Drain(c, sizes[i]).after;
      out := out + [bytes];
      i := i + 1;
    }
    assert sizes[i..] == [] && out + [] == out;
    assert start.cur == offset && start.Synced();
    if offset + Sum(sizes) <= |data| {
      ConsecutiveReads(data, toc, start, sizes);
    }
    r := Success(out);
  }
}
