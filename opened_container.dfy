/**
 * The handle `open` returns: it delegates reading to the entry stream the
 * ZIP library opened and, when closed, releases the entry stream, the
 * archive handle, the storage stream and the storage context manager, in
 * that order, each step on its own, and then drops every reference.
 */
module OpenedContainers {
  import opened Wrappers
  import opened LiveStreams
  import opened ReplyStreams

  /** An object released by `close`: `hasClose` says whether it has a `close` attribute. */
  datatype Handle = Handle(name: nat, hasClose: bool)

  /** One release `close` performs, on the object it was made on. */
  datatype Release =
    | ClosedEntry(entry: LiveStream)
    | ClosedArchive(archive: Handle)
    | ClosedStorage(storage: Handle)
    | ExitedContext(context: Handle)

  /** The position of a release in the order `close` performs them. */
  function Rank(r: Release): nat
  {
    match r
    case ClosedEntry(_) => 0
    case ClosedArchive(_) => 1
    case ClosedStorage(_) => 2
    case ExitedContext(_) => 3
  }

  /** A release made on one of the references held. */
  predicate Held(r: Release, entry: LiveStream?, archive: Option<Handle>, storage: Option<Handle>, context: Option<Handle>)
  {
    match r
    case ClosedEntry(e) => e == entry
    case ClosedArchive(a) => archive == Some(a)
    case ClosedStorage(s) => storage == Some(s) && s.hasClose
    case ExitedContext(c) => context == Some(c)
  }

  /**
   * The releases `close` performs on the references it holds: the entry
   * stream when there is one (`None.close()` raises and is swallowed), the
   * archive when it is not None, the storage stream when it has `close`
   * and the context manager when it is not None. An exception in one step
   * is swallowed, so no step depends on how an earlier one ended.
   */
  function CloseReleases(entry: LiveStream?, archive: Option<Handle>, storage: Option<Handle>, context: Option<Handle>): (rs: seq<Release>)
    ensures entry != null ==> ClosedEntry(entry) in rs
    ensures archive.Some? ==> ClosedArchive(archive.value) in rs
    ensures storage.Some? && storage.value.hasClose ==> ClosedStorage(storage.value) in rs
    ensures context.Some? ==> ExitedContext(context.value) in rs
    ensures forall r :: r in rs ==> Held(r, entry, archive, storage, context)
  {
    (if entry != null then [ClosedEntry(entry)] else [])
    + (if archive.Some? then [ClosedArchive(archive.value)] else [])
    + (if storage.Some? && storage.value.hasClose then [ClosedStorage(storage.value)] else [])
    + (if context.Some? then [ExitedContext(context.value)] else [])
  }

  /** The releases come in the fixed order entry, archive, storage, context, each at most once. */
  lemma CloseOrder(entry: LiveStream?, archive: Option<Handle>, storage: Option<Handle>, context: Option<Handle>, i: nat, j: nat)
    requires i < j < |CloseReleases(entry, archive, storage, context)|
    ensures Rank(CloseReleases(entry, archive, storage, context)[i]) < Rank(CloseReleases(entry, archive, storage, context)[j])
  {
  }

  /** Once every reference is dropped, `close` releases nothing. */
  lemma CloseReleasesNothing()
    ensures CloseReleases(null, None, None, None) == []
  {
  }

  datatype HandleError = ClosedHandle

  class OpenedContainerItem {
    var entry: LiveStream?
    /** Whether the entry stream has a `seek` attribute. */
    const entryHasSeek: bool
    /** Whether the entry stream has a `tell` attribute. */
    const entryHasTell: bool
    var archive: Option<Handle>
    var reply: ReplyStream?
    var storage: Option<Handle>
    var context: Option<Handle>
    /** Every release performed so far, in order. */
    var released: seq<Release>

    constructor (entry: LiveStream, entryHasSeek: bool, entryHasTell: bool, archive: Handle, reply: ReplyStream, storage: Handle, context: Option<Handle>)
      ensures this.entry == entry && this.entryHasSeek == entryHasSeek && this.entryHasTell == entryHasTell && this.archive == Some(archive)
      ensures this.reply == reply && this.storage == Some(storage) && this.context == context
      ensures released == []
    {
      this.entry := entry;
      this.entryHasSeek := entryHasSeek;
      this.entryHasTell := entryHasTell;
      this.archive := Some(archive);
      this.reply := reply;
      this.storage := Some(storage);
      this.context := context;
      released := [];
    }

    function Readable(): bool { true }

    function Writable(): bool { false }

    /** `seekable()`: whether the entry stream has `seek`; `None` has not. */
    function Seekable(): (b: bool)
      reads this
      ensures b <==> entry != null && entryHasSeek
    {
      entry != null && entryHasSeek
    }

    /** `read(n)`: the entry stream's read; on a closed handle, `None.read` raises. */
    method Read(n: int) returns (r: Result<seq<byte>, HandleError>)
      modifies entry
      ensures entry == null ==> r == Failure(ClosedHandle)
      ensures entry != null ==> r == Success(LiveRead(entry.data, old(entry.pos), n)) && entry.pos == old(entry.pos) + |r.value|
    {
      if entry == null {
        return Failure(ClosedHandle);
      }
      var chunk := entry.Read(n);
      r := Success(chunk);
    }

    /** `seek(offset, whence)`: the entry stream's seek, or None when there is no `seek` to call. */
    method Seek(offset: int, whence: int) returns (r: Option<Result<nat, StreamError>>)
      modifies entry
      ensures !Seekable() ==> r.None? && (entry != null ==> entry.pos == old(entry.pos))
      ensures Seekable() ==> r.Some?
      ensures Seekable() ==>
        var t := SeekTarget(offset, whence, old(entry.pos), |entry.data|);
        (if t.None? then r.value == Failure(InvalidWhence) && entry.pos == old(entry.pos)
         else if t.value < 0 then r.value == Failure(NegativeSeek) && entry.pos == old(entry.pos)
         else r.value == Success(t.value) && entry.pos == t.value)
    {
      if entry == null || !entryHasSeek {
        return None;
      }
      var s := entry.Seek(offset, whence);
      r := Some(s);
    }

    /** `tell()`: the entry stream's position, or None when there is no `tell` to call. */
    method Tell() returns (r: Option<nat>)
      ensures entry != null && entryHasTell ==> r == Some(entry.pos)
      ensures !(entry != null && entryHasTell) ==> r.None?
    {
      if entry == null || !entryHasTell {
        return None;
      }
      var p := entry.Tell();
      r := Some(p);
    }

    /**
     * `close()`: performs the releases of `CloseReleases` on the references
     * held, then drops all five, the reply stream included, which is never
     * closed itself.
     */
    method Close()
      modifies this
      ensures released == old(released) + CloseReleases(old(entry), old(archive), old(storage), old(context))
      ensures entry == null && archive == None && reply == null && storage == None && context == None
    {
      var rs: seq<Release> := [];
      if entry != null {
        rs := [ClosedEntry(entry)];
      }
      if archive.Some? {
        rs := rs + [ClosedArchive(archive.value)];
      }
      if storage.Some? && storage.value.hasClose {
        rs := rs + [ClosedStorage(storage.value)];
      }
      if context.Some? {
        rs := rs + [ExitedContext(context.value)];
      }
      assert rs == CloseReleases(entry, archive, storage, context);
      released := released + rs;
      entry := null;
      archive := None;
      reply := null;
      storage := None;
      context := None;
    }

    /** A second `close` raises nothing and releases nothing. */
    method CloseTwice()
      modifies this
      ensures released == old(released) + CloseReleases(old(entry), old(archive), old(storage), old(context))
      ensures entry == null && archive == None && reply == null && storage == None && context == None
    {
      Close();
      ghost var once := released;
      Close();
      assert released == once;
    }

    /** `__exit__`: closes the handle. */
    method Exit()
      modifies this
      ensures released == old(released) + CloseReleases(old(entry), old(archive), old(storage), old(context))
      ensures entry == null && archive == None && reply == null && storage == None && context == None
    {
      Close();
    }
  }
}
