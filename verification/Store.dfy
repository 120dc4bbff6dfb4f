/** The backing-store contract shared by every image reader, and positioned file reads. */
module Store {
  import opened Bytes
  import opened Wrappers

  datatype IoError = InvalidData | UnexpectedEof | ReadFault

  /**
   * A read-only store of `bytes`. Positions in `faulty` cannot be read: any read
   * that touches one fails as a whole, as a disk error does.
   */
  datatype BackingStore = BackingStore(bytes: seq<byte>, faulty: set<nat>) {
    predicate Readable(off: nat, len: nat) {
      && off + len <= |bytes|
      && forall p :: off <= p < off + len ==> p !in faulty
    }

    function Read(off: nat, len: nat): (r: Result<seq<byte>, IoError>)
      ensures r.Ok? <==> Readable(off, len)
      ensures r.Ok? ==> r.value == bytes[off..off + len]
    {
      if Readable(off, len) then Ok(bytes[off..off + len]) else Err(ReadFault)
    }
  }

  /** `read_exact_at`: all `len` bytes at `off`, or an error. */
  function ReadExact(file: seq<byte>, off: nat, len: nat): (r: Result<seq<byte>, IoError>)
    ensures r.Ok? <==> len == 0 || off + len <= |file|
    ensures r.Ok? ==> |r.value| == len && (len > 0 ==> r.value == file[off..off + len])
  {
    if len == 0 then Ok([])
    else if off + len > |file| then Err(UnexpectedEof)
    else Ok(file[off..off + len])
  }

  /** Copy `src` over `buf[at..]`. */
  method CopyInto(buf: array<byte>, at: nat, src: seq<byte>)
    requires at + |src| <= buf.Length
    modifies buf
    ensures buf[..] == Patch(old(buf[..]), at, src)
  {
    forall k | 0 <= k < |src| {
      buf[at + k] := src[k];
    }
  }

  /** `CopyInto`, described field by field: the field is set and every other slice is kept. */
  method PutField(buf: array<byte>, at: nat, src: seq<byte>)
    requires at + |src| <= buf.Length
    modifies buf
    ensures buf[at..at + |src|] == src
    ensures forall lo, hi :: 0 <= lo <= hi <= buf.Length && (hi <= at || at + |src| <= lo)
                             ==> buf[lo..hi] == old(buf[lo..hi])
  {
    CopyInto(buf, at, src);
    assert buf[at..at + |src|] == src;
  }
}
