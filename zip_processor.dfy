/**
 * The ZIP processor: it reads an uploaded archive's central directory
 * through a RecordingStream, builds the listing tree of its file entries,
 * and stores the listing, with the recorded byte range, as the media file
 * `"<key>.listing"` unless that file already exists.
 *
 * The ZIP library is not modelled: what it does to the stream is the
 * sequence of seeks and reads `accesses`, and what it reports is the
 * sequence of central-directory records `entries`.
 */
module ZipProcessor {
  import opened Wrappers
  import opened LiveStreams
  import opened RecordingStreams
  import opened ListingTree
  import opened Paths

  // ---------------------------------------------------------------------------
  // The `_build_zip_toc` enumeration

  /** The toc tree with its counters. */
  datatype Enumeration = Enumeration(children: seq<Node>, total: nat, truncated: bool)

  /** The number of file (non-directory) entries. */
  function FileCount(entries: seq<ZipInfo>): nat
  {
    if entries == [] then 0 else (if IsDir(entries[0]) then 0 else 1) + FileCount(entries[1..])
  }

  /** The file (non-directory) entries, in order. */
  function Files(entries: seq<ZipInfo>): (fs: seq<ZipInfo>)
    ensures forall i :: 0 <= i < |fs| ==> !IsDir(fs[i])
    ensures |fs| == FileCount(entries)
  {
    if entries == [] then []
    else if IsDir(entries[0]) then Files(entries[1..])
    else [entries[0]] + Files(entries[1..])
  }

  /** The insertion of one central-directory record into a toc tree. */
  type Inserter = (seq<Node>, ZipInfo) -> Result<seq<Node>, TreeError>

  /** `insert_container_item(toc_root, list(PurePosixPath(info.filename).parts), info)`. */
  function EntryInserter(guess: string -> string): Inserter
  {
    (tree: seq<Node>, info: ZipInfo) => Insert(tree, PathParts(info.filename), info, guess)
  }

  /**
   * The enumeration still to do over `entries`, with the tree and the
   * counter reached so far; `maxEntries == 0` stands for no limit.
   */
  function Scan(insert: Inserter, tree: seq<Node>, entries: seq<ZipInfo>, total: nat, maxEntries: nat): (r: Result<Enumeration, TreeError>)
    ensures r.Success? ==> total <= r.value.total <= total + |entries|
    ensures r.Success? && r.value.truncated ==> 0 < maxEntries <= r.value.total
    decreases |entries|
  {
    if entries == [] then Success(Enumeration(tree, total, false))
    else if IsDir(entries[0]) then Scan(insert, tree, entries[1..], total, maxEntries)
    else
      match insert(tree, entries[0])
      case Failure(e) => Failure(e)
      case Success(t) =>
        if maxEntries > 0 && total + 1 >= maxEntries then Success(Enumeration(t, total + 1, true))
        else Scan(insert, t, entries[1..], total + 1, maxEntries)
  }

  /** `total` under a limit: the count, capped at a truthy `max_entries`. */
  function Capped(count: nat, maxEntries: nat): nat
  {
    if maxEntries > 0 && count >= maxEntries then maxEntries else count
  }

  /**
   * The counters the enumeration ends with: `total` counts the file
   * entries up to a truthy `max_entries`, and `truncated` is set exactly
   * when that limit is reached, even by the last entry.
   */
  lemma {:induction false} ScanCounts(insert: Inserter, tree: seq<Node>, entries: seq<ZipInfo>, total: nat, maxEntries: nat)
    requires maxEntries == 0 || total < maxEntries
    ensures var r := Scan(insert, tree, entries, total, maxEntries);
      r.Success? ==>
        r.value.total == Capped(total + FileCount(entries), maxEntries) &&
        (r.value.truncated <==> maxEntries > 0 && total + FileCount(entries) >= maxEntries)
    decreases |entries|
  {
    if entries != [] {
      if IsDir(entries[0]) {
        ScanCounts(insert, tree, entries[1..], total, maxEntries);
      } else {
        var ins := insert(tree, entries[0]);
        if ins.Success? && !(maxEntries > 0 && total + 1 >= maxEntries) {
          ScanCounts(insert, ins.value, entries[1..], total + 1, maxEntries);
        }
      }
    }
  }

  /** Directory entries play no part: the enumeration sees only the file entries. */
  lemma {:induction false} ScanSkipsDirectories(insert: Inserter, tree: seq<Node>, entries: seq<ZipInfo>, total: nat, maxEntries: nat)
    ensures Scan(insert, tree, entries, total, maxEntries) == Scan(insert, tree, Files(entries), total, maxEntries)
    decreases |entries|
  {
    if entries != [] {
      var fs := Files(entries);
      if IsDir(entries[0]) {
        ScanSkipsDirectories(insert, tree, entries[1..], total, maxEntries);
      } else {
        assert fs[0] == entries[0] && fs[1..] == Files(entries[1..]);
        var ins := insert(tree, entries[0]);
        if ins.Success? {
          ScanSkipsDirectories(insert, ins.value, entries[1..], total + 1, maxEntries);
        }
      }
    }
  }

  /**
   * The `for info in zf.infolist()` loop of `_build_zip_toc`: skips
   * directories, inserts each file entry, counts it, and stops once a
   * truthy `max_entries` is reached.
   */
  method BuildTree(entries: seq<ZipInfo>, maxEntries: nat, guess: string -> string) returns (r: Result<Enumeration, TreeError>)
    ensures r == Scan(EntryInserter(guess), [], entries, 0, maxEntries)
  {
    ghost var insert := EntryInserter(guess);
    var tocRoot: seq<Node> := [];
    var totalEntries := 0;
    var truncated := false;
    var i := 0;
    while i < |entries|
      invariant 0 <= i <= |entries|
      invariant Scan(insert, [], entries, 0, maxEntries) == Scan(insert, tocRoot, entries[i..], totalEntries, maxEntries)
      decreases |entries| - i
    {
      var info := entries[i];
      assert entries[i..][1..] == entries[i + 1..];
      i := i + 1;
      if IsDir(info) {
        continue;
      }
      var parts := PathParts(info.filename);
      var inserted := InsertContainerItem(tocRoot, parts, info, guess);
      assert inserted == insert(tocRoot, info);
      if inserted.Failure? {
        return Failure(inserted.error);
      }
      tocRoot := inserted.value;
      totalEntries := totalEntries + 1;
      if maxEntries > 0 && totalEntries >= maxEntries {
        truncated := true;
        break;
      }
    }
    r := Success(Enumeration(tocRoot, totalEntries, truncated));
  }

  // ---------------------------------------------------------------------------
  // The ZIP library's accesses through the RecordingStream

  /** One call the ZIP library makes on the stream. */
  datatype Access = SeekTo(offset: int, whence: int) | ReadSome(size: int)

  /** Where the stream ends up and the positions the seeks left it at. */
  datatype Trace = Trace(pos: nat, seeks: seq<nat>)

  /** The accesses replayed on `data` from position `pos`; a refused seek stops them. */
  function Run(data: seq<byte>, pos: nat, accesses: seq<Access>): (r: Result<Trace, StreamError>)
    ensures r.Success? ==> |r.value.seeks| <= |accesses|
    ensures r.Success? && (forall i :: 0 <= i < |accesses| ==> accesses[i].ReadSome?) ==> r.value.seeks == []
    decreases |accesses|
  {
    if accesses == [] then Success(Trace(pos, []))
    else
      match accesses[0]
      case ReadSome(size) => Run(data, pos + |LiveRead(data, pos, size)|, accesses[1..])
      case SeekTo(offset, whence) =>
        var t := SeekTarget(offset, whence, pos, |data|);
        if t.None? then Failure(InvalidWhence)
        else if t.value < 0 then Failure(NegativeSeek)
        else
          match Run(data, t.value, accesses[1..])
          case Failure(e) => Failure(e)
          case Success(tr) => Success(Trace(tr.pos, [t.value as nat] + tr.seeks))
  }

  /** The seek positions still to come after `seen`, put after them. */
  function After(seen: seq<nat>, r: Result<Trace, StreamError>): Result<Trace, StreamError>
  {
    match r
    case Failure(e) => Failure(e)
    case Success(tr) => Success(Trace(tr.pos, seen + tr.seeks))
  }

  /** A read moves the position by what it returned and records nothing. */
  lemma RunRead(seen: seq<nat>, data: seq<byte>, pos: nat, accesses: seq<Access>, size: int)
    requires accesses != [] && accesses[0] == ReadSome(size)
    ensures After(seen, Run(data, pos, accesses)) == After(seen, Run(data, pos + |LiveRead(data, pos, size)|, accesses[1..]))
  {
  }

  /** A seek the stream accepts records where it left the stream. */
  lemma RunSeek(seen: seq<nat>, data: seq<byte>, pos: nat, accesses: seq<Access>, offset: int, whence: int, p: nat)
    requires accesses != [] && accesses[0] == SeekTo(offset, whence)
    requires SeekTarget(offset, whence, pos, |data|) == Some(p)
    ensures After(seen, Run(data, pos, accesses)) == After(seen + [p], Run(data, p, accesses[1..]))
  {
    var rest := Run(data, p, accesses[1..]);
    if rest.Success? {
      assert seen + [p] + rest.value.seeks == seen + ([p] + rest.value.seeks);
    }
  }

  /** A seek the stream refuses ends the run with its error. */
  lemma RunRefused(seen: seq<nat>, data: seq<byte>, pos: nat, accesses: seq<Access>, offset: int, whence: int, e: StreamError)
    requires accesses != [] && accesses[0] == SeekTo(offset, whence)
    requires var t := SeekTarget(offset, whence, pos, |data|);
      if t.None? then e == InvalidWhence else t.value < 0 && e == NegativeSeek
    ensures After(seen, Run(data, pos, accesses)) == Failure(e)
  {
  }

  /** Runs the library's accesses on the recording stream. */
  method Replay(rs: RecordingStream, accesses: seq<Access>) returns (r: Result<(), StreamError>)
    requires rs.Valid()
    modifies rs, rs.fp
    ensures rs.Valid()
    ensures var run := After(old(rs.visited), Run(rs.fp.data, old(rs.fp.pos), accesses));
      (r.Success? <==> run.Success?) &&
      (run.Success? ==> rs.fp.pos == run.value.pos && rs.visited == run.value.seeks) &&
      (run.Failure? ==> r.error == run.error)
  {
    ghost var goal := After(rs.visited, Run(rs.fp.data, rs.fp.pos, accesses));
    var i := 0;
    while i < |accesses|
      invariant 0 <= i <= |accesses| && rs.Valid()
      invariant goal == After(rs.visited, Run(rs.fp.data, rs.fp.pos, accesses[i..]))
      decreases |accesses| - i
    {
      var s := ReplayOne(rs, accesses[i], accesses[i..]);
      if s.Failure? {
        return Failure(s.error);
      }
      assert accesses[i..][1..] == accesses[i + 1..];
      i := i + 1;
    }
    r := Success(());
  }

  /** One access of the library on the recording stream: the first of `rest`. */
  method ReplayOne(rs: RecordingStream, a: Access, ghost rest: seq<Access>) returns (s: Result<(), StreamError>)
    requires rs.Valid() && rest != [] && rest[0] == a
    modifies rs, rs.fp
    ensures rs.Valid()
    ensures s.Success? ==>
      After(old(rs.visited), Run(rs.fp.data, old(rs.fp.pos), rest)) == After(rs.visited, Run(rs.fp.data, rs.fp.pos, rest[1..]))
    ensures s.Failure? ==> After(old(rs.visited), Run(rs.fp.data, old(rs.fp.pos), rest)) == Failure(s.error)
  {
    ghost var seen := rs.visited;
    ghost var p := rs.fp.pos;
    match a {
      case ReadSome(size) =>
        var _ := rs.Read(size);
        RunRead(seen, rs.fp.data, p, rest, size);
        s := Success(());
      case SeekTo(offset, whence) =>
        s := rs.Seek(offset, whence);
        if s.Failure? {
          RunRefused(seen, rs.fp.data, p, rest, offset, whence, s.error);
        } else {
          RunSeek(seen, rs.fp.data, p, rest, offset, whence, rs.fp.pos);
        }
    }
  }

  /** The `toc` a RecordingStream reports after the seeks `seeks` on `data`. */
  function TocOf(data: seq<byte>, seeks: seq<nat>): (t: TocEntry)
    ensures t.NoRange? <==> seeks == []
    ensures t.Range? ==> t.minOffset in seeks && t.maxOffset in seeks && t.minOffset <= t.maxOffset
    ensures t.Range? ==> t.content == LiveRead(data, t.minOffset, -1)
  {
    if seeks == [] then NoRange
    else Range(LiveRead(data, Lowest(seeks).value, -1), Lowest(seeks).value, Highest(seeks).value)
  }

  /**
   * The cached range covers every byte from any recorded position on: it
   * starts at the lowest recorded seek, ends at the end of the stream, and
   * the highest recorded seek is its `max_offset`.
   */
  lemma TocCovers(data: seq<byte>, seeks: seq<nat>, p: nat)
    requires p in seeks && p <= |data|
    ensures TocOf(data, seeks).Range?
    ensures var t := TocOf(data, seeks);
      t.minOffset <= p <= t.maxOffset && data[p..] == t.content[p - t.minOffset..]
  {
  }

  // ---------------------------------------------------------------------------
  // `_build_zip_toc` and `process`

  /** The stored listing: the toc tree, its counters and the cached byte range. */
  datatype Listing = Listing(children: seq<Node>, total: nat, truncated: bool, toc: TocEntry)

  datatype BuildError = StreamFailed(stream: StreamError) | InsertFailed(tree: TreeError)

  /** What `_build_zip_toc` returns for an archive with bytes `data`. */
  function BuildSpec(data: seq<byte>, accesses: seq<Access>, entries: seq<ZipInfo>, maxEntries: nat, guess: string -> string): Result<Listing, BuildError>
  {
    match Run(data, 0, accesses)
    case Failure(e) => Failure(StreamFailed(e))
    case Success(tr) =>
      match Scan(EntryInserter(guess), [], entries, 0, maxEntries)
      case Failure(e) => Failure(InsertFailed(e))
      case Success(en) => Success(Listing(en.children, en.total, en.truncated, TocOf(data, tr.seeks)))
  }

  /**
   * `_build_zip_toc(file_record, max_entries)`: opens the archive, lets
   * the ZIP library read its central directory through a RecordingStream,
   * enumerates the entries and adds the recorded range as `toc`.
   */
  method BuildZipToc(data: seq<byte>, accesses: seq<Access>, entries: seq<ZipInfo>, maxEntries: nat, guess: string -> string)
    returns (r: Result<Listing, BuildError>)
    ensures r == BuildSpec(data, accesses, entries, maxEntries, guess)
  {
    ghost var run := Run(data, 0, accesses);
    ghost var scan := Scan(EntryInserter(guess), [], entries, 0, maxEntries);
    var fp := new LiveStream(data);
    var rs := new RecordingStream(fp);
    var replayed := Replay(rs, accesses);
    if replayed.Failure? {
      assert run.Failure? && run.error == replayed.error;
      return Failure(StreamFailed(replayed.error));
    }
    assert run.Success? && rs.visited == run.value.seeks by {
      assert [] + run.value.seeks == run.value.seeks;
    }
    var tree := BuildTree(entries, maxEntries, guess);
    if tree.Failure? {
      assert scan == tree;
      return Failure(InsertFailed(tree.error));
    }
    var toc := rs.Toc();
    assert toc == TocOf(data, run.value.seeks);
    r := Success(Listing(tree.value.children, tree.value.total, tree.value.truncated, toc));
  }

  /** The media-file key of a file's listing. */
  function ListingKey(key: string): (k: string)
    ensures |k| == |key| + 8 && k[..|key|] == key
  {
    key + ".listing"
  }

  /** How `process` ends. */
  datatype Outcome =
    | AlreadyProcessed
    | Created
    | PersistFailed
    | Raised(error: ProcessError)

  /**
   * Why `process` raises: the archive could not be enumerated, or the toc
   * of a stream that was never seeked holds raw bytes, which JSON cannot
   * serialise.
   */
  datatype ProcessError = BuildRaised(build: BuildError) | NotSerializable

  /** The record's media files: the switch, the bucket and the stored listings. */
  class MediaFiles {
    var enabled: bool
    var hasBucket: bool
    var listings: map<string, Listing>

    constructor (enabled: bool, hasBucket: bool)
      ensures this.enabled == enabled && this.hasBucket == hasBucket && listings == map[]
    {
      this.enabled := enabled;
      this.hasBucket := hasBucket;
      listings := map[];
    }

    /**
     * `ZipProcessor.process(file_record)` for the file `key` with bytes
     * `data`: enables media files (creating the bucket) when disabled,
     * returns when the listing exists, otherwise builds the listing and
     * stores it; a failure to store it (`persistFails`) is logged and
     * leaves the listings as they were.
     */
    method Process(key: string, data: seq<byte>, accesses: seq<Access>, entries: seq<ZipInfo>, guess: string -> string, persistFails: bool)
      returns (o: Outcome)
      modifies this
      ensures enabled && (old(enabled) ==> hasBucket == old(hasBucket)) && (!old(enabled) ==> hasBucket)
      ensures var b := BuildSpec(data, accesses, entries, 0, guess);
        if ListingKey(key) in old(listings) then o == AlreadyProcessed && listings == old(listings)
        else if b.Failure? then o == Raised(BuildRaised(b.error)) && listings == old(listings)
        else if b.value.toc.NoRange? then o == Raised(NotSerializable) && listings == old(listings)
        else if persistFails then o == PersistFailed && listings == old(listings)
        else o == Created && listings == old(listings)[ListingKey(key) := b.value]
    {
      if !enabled {
        enabled := true;
        if !hasBucket {
          hasBucket := true;
        }
      }
      var listingKey := ListingKey(key);
      if listingKey in listings {
        return AlreadyProcessed;
      }
      var toc := BuildZipToc(data, accesses, entries, 0, guess);
      if toc.Failure? {
        return Raised(BuildRaised(toc.error));
      }
      if toc.value.toc.NoRange? {
        return Raised(NotSerializable);
      }
      if persistFails {
        return PersistFailed;
      }
      listings := listings[listingKey := toc.value];
      o := Created;
    }

    /** A second `process` of the same file adds nothing: the listing is already there. */
    method ProcessTwice(key: string, data: seq<byte>, accesses: seq<Access>, entries: seq<ZipInfo>, guess: string -> string)
      returns (first: Outcome, second: Outcome)
      modifies this
      ensures first == Created ==> second == AlreadyProcessed
      ensures second == AlreadyProcessed || second == first
      ensures first == Created || first == AlreadyProcessed ==> ListingKey(key) in listings
    {
      first := Process(key, data, accesses, entries, guess, false);
      ghost var between := listings;
      second := Process(key, data, accesses, entries, guess, false);
      assert second != AlreadyProcessed ==> listings == between;
    }
  }
}
