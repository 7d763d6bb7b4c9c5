/**
 * The handle of an opened archive entry: the same lifecycle as the
 * container item handle, over the extracted stream, the archive object,
 * the reply stream, the storage stream and its context manager.
 */
module OpenedEntries {
  import opened Wrappers
  import opened LiveStreams
  import opened ReplyStreams
  import opened OpenedContainers

  class OpenedArchiveEntry {
    var extracted: LiveStream?
    /** Whether the extracted stream has a `seek` attribute. */
    const extractedHasSeek: bool
    /** Whether the extracted stream has a `tell` attribute. */
    const extractedHasTell: bool
    var archive: Option<Handle>
    var reply: ReplyStream?
    var storage: Option<Handle>
    var context: Option<Handle>
    /** Every release performed so far, in order. */
    var released: seq<Release>

    constructor (extracted: LiveStream, extractedHasSeek: bool, extractedHasTell: bool, archive: Handle, reply: ReplyStream, storage: Handle, context: Option<Handle>)
      ensures this.extracted == extracted && this.extractedHasSeek == extractedHasSeek && this.extractedHasTell == extractedHasTell && this.archive == Some(archive)
      ensures this.reply == reply && this.storage == Some(storage) && this.context == context
      ensures released == []
    {
      this.extracted := extracted;
      this.extractedHasSeek := extractedHasSeek;
      this.extractedHasTell := extractedHasTell;
      this.archive := Some(archive);
      this.reply := reply;
      this.storage := Some(storage);
      this.context := context;
      released := [];
    }

    function Readable(): bool { true }

    function Writable(): bool { false }

    /** `seekable()`: whether the extracted stream has `seek`; `None` has not. */
    function Seekable(): (b: bool)
      reads this
      ensures b <==> extracted != null && extractedHasSeek
    {
      extracted != null && extractedHasSeek
    }

    /** `read(n)`: the extracted stream's read; on a closed handle, `None.read` raises. */
    method Read(n: int) returns (r: Result<seq<byte>, HandleError>)
      modifies extracted
      ensures extracted == null ==> r == Failure(ClosedHandle)
      ensures extracted != null ==> r == Success(LiveRead(extracted.data, old(extracted.pos), n)) && extracted.pos == old(extracted.pos) + |r.value|
    {
      if extracted == null {
        return Failure(ClosedHandle);
      }
      var chunk := extracted.Read(n);
      r := Success(chunk);
    }

    /** `seek(offset, whence)`: the extracted stream's seek, or None when there is no `seek` to call. */
    method Seek(offset: int, whence: int) returns (r: Option<Result<nat, StreamError>>)
      modifies extracted
      ensures !Seekable() ==> r.None? && (extracted != null ==> extracted.pos == old(extracted.pos))
      ensures Seekable() ==> r.Some?
      ensures Seekable() ==>
        var t := SeekTarget(offset, whence, old(extracted.pos), |extracted.data|);
        (if t.None? then r.value == Failure(InvalidWhence) && extracted.pos == old(extracted.pos)
         else if t.value < 0 then r.value == Failure(NegativeSeek) && extracted.pos == old(extracted.pos)
         else r.value == Success(t.value) && extracted.pos == t.value)
    {
      if extracted == null || !extractedHasSeek {
        return None;
      }
      var s := extracted.Seek(offset, whence);
      r := Some(s);
    }

    /** `tell()`: the extracted stream's position, or None when there is no `tell` to call. */
    method Tell() returns (r: Option<nat>)
      ensures extracted != null && extractedHasTell ==> r == Some(extracted.pos)
      ensures !(extracted != null && extractedHasTell) ==> r.None?
    {
      if extracted == null || !extractedHasTell {
        return None;
      }
      var p := extracted.Tell();
      r := Some(p);
    }

    /**
     * `close()`: performs the releases of `CloseReleases` on the references
     * held, then drops all five, the reply stream included, which is never
     * closed itself.
     */
    method Close()
      modifies this
      ensures released == old(released) + CloseReleases(old(extracted), old(archive), old(storage), old(context))
      ensures extracted == null && archive == None && reply == null && storage == None && context == None
    {
      var rs: seq<Release> := [];
      if extracted != null {
        rs := [ClosedEntry(extracted)];
      }
      if archive.Some? {
        rs := rs + [ClosedArchive(archive.value)];
      }
      if storage.Some? && storage.value.hasClose {
        rs := rs + [ClosedStorage(storage.value)];
      }
      if context.Some? {
        rs := rs + [ExitedContext(context.value)];
      }
      assert rs == CloseReleases(extracted, archive, storage, context);
      released := released + rs;
      extracted := null;
      archive := None;
      reply := null;
      storage := None;
      context := None;
    }

    /** A second `close` raises nothing and releases nothing. */
    method CloseTwice()
      modifies this
      ensures released == old(released) + CloseReleases(old(extracted), old(archive), old(storage), old(context))
      ensures extracted == null && archive == None && reply == null && storage == None && context == None
    {
      Close();
      ghost var once := released;
      Close();
      assert released == once;
    }

    /** `__exit__`: closes the handle. */
    method Exit()
      modifies this
      ensures released == old(released) + CloseReleases(old(extracted), old(archive), old(storage), old(context))
      ensures extracted == null && archive == None && reply == null && storage == None && context == None
    {
      Close();
    }
  }
}
