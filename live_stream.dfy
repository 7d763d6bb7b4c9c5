/**
 * The live storage stream that every other stream of the core wraps: an
 * archive object's bytes with a read position. Storage-specific failures are
 * not modelled; seeking to a negative position and an unknown `whence` are
 * refused, as Python's file objects refuse them.
 */
module LiveStreams {
  import opened Wrappers

  type byte = b: int | 0 <= b < 256

  /** The `whence` values of `os.SEEK_SET`, `os.SEEK_CUR` and `os.SEEK_END`. */
  const SEEK_SET: int := 0
  const SEEK_CUR: int := 1
  const SEEK_END: int := 2

  datatype StreamError = InvalidWhence | NegativeSeek

  function Min(a: int, b: int): int { if a <= b then a else b }

  /**
   * The absolute position a seek by `offset` relative to `whence` asks for,
   * given the current position and the end position; None for an unknown whence.
   */
  function SeekTarget(offset: int, whence: int, current: int, end: int): (t: Option<int>)
    ensures t.Some? <==> whence == SEEK_SET || whence == SEEK_CUR || whence == SEEK_END
  {
    if whence == SEEK_SET then Some(offset)
    else if whence == SEEK_CUR then Some(current + offset)
    else if whence == SEEK_END then Some(end + offset)
    else None
  }

  /**
   * The bytes a read of at most `n` bytes (all remaining bytes when `n` is
   * negative) returns from `data` at position `pos`: the bytes that follow
   * `pos`, no more than asked for, and fewer only at the end of the data.
   */
  function LiveRead(data: seq<byte>, pos: nat, n: int): (chunk: seq<byte>)
    ensures n >= 0 ==> |chunk| <= n
    ensures chunk != [] ==> pos + |chunk| <= |data|
    ensures pos + |chunk| <= |data| ==> chunk == data[pos..pos + |chunk|]
    ensures (n < 0 || |chunk| < n) ==> pos + |chunk| >= |data|
  {
    if pos >= |data| then []
    else if n < 0 || pos + n > |data| then data[pos..]
    else data[pos..pos + n]
  }

  /** A readable, seekable byte stream over an archive object's bytes. */
  class LiveStream {
    const data: seq<byte>
    var pos: nat

    constructor (data: seq<byte>)
      ensures this.data == data && pos == 0
    {
      this.data := data;
      pos := 0;
    }

    /** `seek(offset, whence)`: moves to the requested position and returns it. */
    method Seek(offset: int, whence: int) returns (r: Result<nat, StreamError>)
      modifies this
      ensures var t := SeekTarget(offset, whence, old(pos), |data|);
        if t.None? then r == Failure(InvalidWhence) && pos == old(pos)
        else if t.value < 0 then r == Failure(NegativeSeek) && pos == old(pos)
        else r == Success(t.value) && pos == t.value
    {
      var t := SeekTarget(offset, whence, pos, |data|);
      if t.None? {
        r := Failure(InvalidWhence);
      } else if t.value < 0 {
        r := Failure(NegativeSeek);
      } else {
        pos := t.value;
        r := Success(t.value);
      }
    }

    /** `tell()`: the current position. */
    method Tell() returns (p: nat)
      ensures p == pos
    {
      p := pos;
    }

    /** `read(n)`: the next bytes, and the position moves past them. */
    method Read(n: int) returns (chunk: seq<byte>)
      modifies this
      ensures chunk == LiveRead(data, old(pos), n)
      ensures pos == old(pos) + |chunk|
    {
      chunk := LiveRead(data, pos, n);
      pos := pos + |chunk|;
    }
  }
}
