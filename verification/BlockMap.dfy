/** The range walk shared by the block-mapped readers (storage/blockmap.rs). */
module BlockMap {
  import opened Bytes
  import opened Wrappers
  import opened Store

  /** Where an allocation unit's data lives in the file. */
  datatype Location = Zero | At(offset: nat)

  /** The virtual byte at position `p`, as `locate` and the file define it. */
  function UnitByte(file: seq<byte>, unitSize: nat, locate: nat -> Result<Location, IoError>, p: nat): Result<byte, IoError>
    requires unitSize > 0
  {
    match locate(p / unitSize)
    case Err(e) => Err(e)
    case Ok(Zero) => Ok(0)
    case Ok(At(base)) =>
      if base + p % unitSize < |file| then Ok(file[base + p % unitSize]) else Err(UnexpectedEof)
  }

  /**
   * `read_units`: fills `buf` with the virtual bytes from `offset` on. It succeeds exactly
   * when the range is inside the image and every byte of it can be resolved.
   */
  method ReadUnits(
    offset: u64, buf: array<byte>, virtualSize: u64, unitSize: nat,
    locate: nat -> Result<Location, IoError>, file: seq<byte>)
    returns (r: Result<Unit, IoError>)
    modifies buf
    ensures unitSize == 0 || offset + buf.Length > virtualSize ==> r == Err(InvalidData) && buf[..] == old(buf[..])
    ensures unitSize > 0 && offset + buf.Length <= virtualSize ==>
              (r.Ok? <==> forall p :: offset <= p < offset + buf.Length ==> UnitByte(file, unitSize, locate, p).Ok?)
    ensures r.Ok? ==> unitSize > 0 && forall k :: 0 <= k < buf.Length ==> Ok(buf[k]) == UnitByte(file, unitSize, locate, offset + k)
  {
    if unitSize == 0 {
      return Err(InvalidData);
    }
    if offset + buf.Length >= U64_SPAN {
      return Err(InvalidData);
    }
    if offset + buf.Length > virtualSize {
      return Err(InvalidData);
    }
    var pos: nat, done: nat := offset, 0;
    while done < buf.Length
      invariant done <= buf.Length && pos == offset + done
      invariant forall k :: 0 <= k < done ==> Ok(buf[k]) == UnitByte(file, unitSize, locate, offset + k)
    {
      var unit, within := pos / unitSize, pos % unitSize;
      var take := Min(unitSize - within, buf.Length - done);
      forall q | pos <= q < pos + take
        ensures q / unitSize == unit && q % unitSize == within + (q - pos)
      {
        SameUnit(pos, q, unitSize);
      }
      var loc := locate(unit);
      match loc {
        case Err(e) =>
          assert UnitByte(file, unitSize, locate, pos).Err?;
          return Err(e);
        case Ok(Zero) =>
          CopyInto(buf, done, Zeros(take));
        case Ok(At(base)) =>
          var read := ReadExact(file, base + within, take);
          if read.Err? {
            assert UnitByte(file, unitSize, locate, pos + take - 1).Err?;
            return Err(read.error);
          }
          CopyInto(buf, done, read.value);
      }
      pos, done := pos + take, done + take;
    }
    forall p | offset <= p < offset + buf.Length
      ensures UnitByte(file, unitSize, locate, p).Ok?
    {
      assert Ok(buf[p - offset]) == UnitByte(file, unitSize, locate, offset + (p - offset));
    }
    r := Ok(Done);
  }

  /** Positions up to the end of `pos`'s unit lie in the same unit. */
  lemma SameUnit(pos: nat, q: nat, unitSize: nat)
    requires unitSize > 0 && pos <= q < pos + (unitSize - pos % unitSize)
    ensures q / unitSize == pos / unitSize
    ensures q % unitSize == pos % unitSize + (q - pos)
  {
    var u := pos / unitSize;
    assert pos == u * unitSize + pos % unitSize;
    DivUnique(q, unitSize, u, q - u * unitSize);
  }
}
