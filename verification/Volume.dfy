/** A client's disk: a read-only master under a copy-on-write overlay (volume/). */
module Volume {
  import opened Bytes
  import opened Wrappers
  import opened Store

  const BLOCK: nat := 4096

  type Blocks = map<nat, seq<byte>>

  function BlockLen(size: nat, blk: nat): (n: nat)
    requires blk * BLOCK < size
    ensures 0 < n <= BLOCK
  {
    Min(BLOCK, size - blk * BLOCK)
  }

  /** The block-length contract between the volume and its overlay. */
  ghost predicate ContractOk(size: nat, blocks: Blocks) {
    forall blk :: blk in blocks ==> blk * BLOCK < size && |blocks[blk]| == BlockLen(size, blk)
  }

  /** Byte `x` of block `b`. */
  function Cell(master: BackingStore, blocks: Blocks, b: nat, x: nat): byte
    requires ContractOk(|master.bytes|, blocks) && x < BLOCK && b * BLOCK + x < |master.bytes|
  {
    if b in blocks then blocks[b][x] else master.bytes[b * BLOCK + x]
  }

  /** The flat disk a client sees. */
  ghost function DiskOf(master: BackingStore, blocks: Blocks): (d: seq<byte>)
    requires ContractOk(|master.bytes|, blocks)
    ensures |d| == |master.bytes|
    ensures forall p :: 0 <= p < |d| ==> d[p] == Cell(master, blocks, p / BLOCK, p % BLOCK)
  {
    seq(|master.bytes|, p requires 0 <= p < |master.bytes| => Cell(master, blocks, p / BLOCK, p % BLOCK))
  }

  /** Every byte of the range is in the overlay or readable from the master. */
  ghost predicate CanRead(master: BackingStore, blocks: Blocks, off: nat, len: nat) {
    forall p :: off <= p < off + len ==> p / BLOCK in blocks || p !in master.faulty
  }

  // ----- writing, block by block -----

  /** `done` bytes took effect; the write stopped there if `ok` is false. */
  datatype Written = Written(blocks: Blocks, done: nat, ok: bool)

  /** `len` bytes from `within` in block `blk` on lie on the disk. */
  predicate RangeOk(size: nat, blk: nat, within: nat, len: nat) {
    within < BLOCK && (len > 0 ==> blk * BLOCK + within + len <= size)
  }

  /** How much of the range falls in its first block. */
  function TakeOf(size: nat, blk: nat, within: nat, len: nat): (take: nat)
    requires RangeOk(size, blk, within, len) && len > 0
    ensures 0 < take <= len && within + take <= BlockLen(size, blk)
    ensures take < len ==> within + take == BLOCK
  {
    Min(BlockLen(size, blk) - within, len)
  }

  /** The block's new contents, or nothing if the master cannot supply the untouched bytes. */
  function NewBlock(master: BackingStore, blocks: Blocks, blk: nat, within: nat, chunk: seq<byte>): (r: Option<seq<byte>>)
    requires ContractOk(|master.bytes|, blocks)
    requires blk * BLOCK < |master.bytes| && within + |chunk| <= BlockLen(|master.bytes|, blk)
    ensures r.Some? ==> |r.value| == BlockLen(|master.bytes|, blk)
  {
    var blen := BlockLen(|master.bytes|, blk);
    if |chunk| == blen then Some(chunk)
    else if blk in blocks then Some(Patch(blocks[blk], within, chunk))
    else
      match master.Read(blk * BLOCK, blen)
      case Err(_) => None
      case Ok(base) => Some(Patch(base, within, chunk))
  }

  /** The block loop of `write_at`, from byte `within` of block `blk` on. */
  function WriteFrom(master: BackingStore, blocks: Blocks, blk: nat, within: nat, data: seq<byte>): (w: Written)
    requires ContractOk(|master.bytes|, blocks) && RangeOk(|master.bytes|, blk, within, |data|)
    ensures w.done <= |data| && (w.ok <==> w.done == |data|)
    decreases |data|
  {
    if data == [] then Written(blocks, 0, true)
    else
      var take := TakeOf(|master.bytes|, blk, within, |data|);
      match NewBlock(master, blocks, blk, within, data[..take])
      case None => Written(blocks, 0, false)
      case Some(block) =>
        var rest := WriteFrom(master, blocks[blk := block], blk + 1, 0, data[take..]);
        Written(rest.blocks, take + rest.done, rest.ok)
  }

  /** `write_at` past its bounds check. */
  function WriteSpec(master: BackingStore, blocks: Blocks, off: nat, data: seq<byte>): Written
    requires ContractOk(|master.bytes|, blocks) && off + |data| <= |master.bytes|
  {
    WriteFrom(master, blocks, off / BLOCK, off % BLOCK, data)
  }

  /** Storing one new block changes exactly the bytes of the chunk. */
  lemma NewBlockCell(master: BackingStore, blocks: Blocks, blk: nat, within: nat, chunk: seq<byte>, b: nat, x: nat)
    requires ContractOk(|master.bytes|, blocks) && x < BLOCK && b * BLOCK + x < |master.bytes|
    requires blk * BLOCK < |master.bytes| && within + |chunk| <= BlockLen(|master.bytes|, blk)
    requires NewBlock(master, blocks, blk, within, chunk).Some?
    ensures var after := blocks[blk := NewBlock(master, blocks, blk, within, chunk).value];
            && ContractOk(|master.bytes|, after)
            && Cell(master, after, b, x)
            == if b == blk && within <= x < within + |chunk| then chunk[x - within] else Cell(master, blocks, b, x)
  {
  }

  /** One unfolding of the block loop. */
  lemma WriteFromNext(master: BackingStore, blocks: Blocks, blk: nat, within: nat, data: seq<byte>)
    requires ContractOk(|master.bytes|, blocks) && RangeOk(|master.bytes|, blk, within, |data|) && data != []
    ensures var take := TakeOf(|master.bytes|, blk, within, |data|);
            var next := NewBlock(master, blocks, blk, within, data[..take]);
            if next.None? then WriteFrom(master, blocks, blk, within, data) == Written(blocks, 0, false)
            else
              var rest := WriteFrom(master, blocks[blk := next.value], blk + 1, 0, data[take..]);
              WriteFrom(master, blocks, blk, within, data) == Written(rest.blocks, take + rest.done, rest.ok)
  {
  }

  /** The disk position of byte `x` of block `b`, relative to a write starting at `(blk, within)`. */
  function Rel(blk: nat, within: nat, b: nat, x: nat): int {
    (b - blk) * BLOCK + x - within
  }

  lemma RelInChunk(blk: nat, within: nat, take: nat, b: nat, x: nat)
    requires x < BLOCK && within + take <= BLOCK
    ensures b == blk && within <= x < within + take <==> 0 <= Rel(blk, within, b, x) < take
    ensures b == blk ==> Rel(blk, within, b, x) == x - within
    ensures within + take == BLOCK ==> Rel(blk + 1, 0, b, x) == Rel(blk, within, b, x) - take
  {
  }

  lemma {:induction false} WriteKeepsContract(master: BackingStore, blocks: Blocks, blk: nat, within: nat, data: seq<byte>)
    requires ContractOk(|master.bytes|, blocks) && RangeOk(|master.bytes|, blk, within, |data|)
    ensures ContractOk(|master.bytes|, WriteFrom(master, blocks, blk, within, data).blocks)
    decreases |data|
  {
    if data != [] {
      var take := TakeOf(|master.bytes|, blk, within, |data|);
      var next := NewBlock(master, blocks, blk, within, data[..take]);
      if next.Some? {
        WriteKeepsContract(master, blocks[blk := next.value], blk + 1, 0, data[take..]);
      }
    }
  }

  lemma NextRange(size: nat, blk: nat, within: nat, len: nat)
    requires RangeOk(size, blk, within, len) && len > 0
    ensures blk * BLOCK < size && RangeOk(size, blk + 1, 0, len - TakeOf(size, blk, within, len))
  {
  }

  lemma {:induction false} WriteFromCell(master: BackingStore, blocks: Blocks, blk: nat, within: nat, data: seq<byte>, b: nat, x: nat)
    requires ContractOk(|master.bytes|, blocks) && RangeOk(|master.bytes|, blk, within, |data|)
    requires x < BLOCK && b * BLOCK + x < |master.bytes|
    requires ContractOk(|master.bytes|, WriteFrom(master, blocks, blk, within, data).blocks)
    ensures var w, k := WriteFrom(master, blocks, blk, within, data), Rel(blk, within, b, x);
            Cell(master, w.blocks, b, x) == if 0 <= k < w.done then data[k] else Cell(master, blocks, b, x)
    decreases |data|
  {
    if data != [] {
      var take := TakeOf(|master.bytes|, blk, within, |data|);
      var next := NewBlock(master, blocks, blk, within, data[..take]);
      WriteFromNext(master, blocks, blk, within, data);
      if next.Some? {
        var mid := blocks[blk := next.value];
        NextRange(|master.bytes|, blk, within, |data|);
        NewBlockCell(master, blocks, blk, within, data[..take], b, x);
        var rest := WriteFrom(master, mid, blk + 1, 0, data[take..]);
        WriteFromCell(master, mid, blk + 1, 0, data[take..], b, x);
        CellAfterChunk(|master.bytes|, blk, within, data, rest.done, b, x,
                       Cell(master, blocks, b, x), Cell(master, mid, b, x), Cell(master, rest.blocks, b, x));
      }
    }
  }

  /** One cell before a chunk is stored, after it, and after the rest of the write. */
  lemma CellAfterChunk(size: nat, blk: nat, within: nat, data: seq<byte>, done: nat, b: nat, x: nat, before: byte, mid: byte, after: byte)
    requires data != [] && RangeOk(size, blk, within, |data|) && x < BLOCK
    requires done <= |data| - TakeOf(size, blk, within, |data|)
    requires var take := TakeOf(size, blk, within, |data|);
             mid == if b == blk && within <= x < within + take then data[..take][x - within] else before
    requires var (take, k) := (TakeOf(size, blk, within, |data|), Rel(blk + 1, 0, b, x));
             after == if 0 <= k < done then data[take..][k] else mid
    ensures var (take, k) := (TakeOf(size, blk, within, |data|), Rel(blk, within, b, x));
            after == if 0 <= k < take + done then data[k] else before
  {
    RelInChunk(blk, within, TakeOf(size, blk, within, |data|), b, x);
  }

  lemma WriteByte(master: BackingStore, blocks: Blocks, off: nat, data: seq<byte>, p: nat)
    requires ContractOk(|master.bytes|, blocks) && off + |data| <= |master.bytes| && p < |master.bytes|
    ensures var w := WriteSpec(master, blocks, off, data);
            && ContractOk(|master.bytes|, w.blocks)
            && DiskOf(master, w.blocks)[p] == if off <= p < off + w.done then data[p - off] else DiskOf(master, blocks)[p]
  {
    WriteKeepsContract(master, blocks, off / BLOCK, off % BLOCK, data);
    WriteFromCell(master, blocks, off / BLOCK, off % BLOCK, data, p / BLOCK, p % BLOCK);
    assert Rel(off / BLOCK, off % BLOCK, p / BLOCK, p % BLOCK) == p - off;
  }

  /**
   * A write replaces exactly its range. If the master fails under a partly covered block, the
   * bytes before that block have taken effect and nothing else has.
   */
  lemma WritePatches(master: BackingStore, blocks: Blocks, off: nat, data: seq<byte>)
    requires ContractOk(|master.bytes|, blocks) && off + |data| <= |master.bytes|
    ensures var w := WriteSpec(master, blocks, off, data);
            && ContractOk(|master.bytes|, w.blocks)
            && DiskOf(master, w.blocks) == Patch(DiskOf(master, blocks), off, data[..w.done])
  {
    var w := WriteSpec(master, blocks, off, data);
    WriteKeepsContract(master, blocks, off / BLOCK, off % BLOCK, data);
    forall p | 0 <= p < |master.bytes|
      ensures DiskOf(master, w.blocks)[p] == Patch(DiskOf(master, blocks), off, data[..w.done])[p]
    {
      WriteByte(master, blocks, off, data, p);
    }
  }

  /**
   * Where a failed write stops: at byte `x` of block `b`, a block that the rest of the range only
   * partly covers, that is not in the overlay, and that the master cannot supply.
   */
  ghost predicate StopsIn(master: BackingStore, blocks: Blocks, blk: nat, within: nat, len: nat, done: nat, b: nat, x: nat) {
    && Rel(blk, within, b, x) == done < len
    && (x == 0 || (b == blk && x == within))
    && b * BLOCK < |master.bytes| && b !in blocks
    && (x > 0 || len - done < BlockLen(|master.bytes|, b))
    && !master.Readable(b * BLOCK, BlockLen(|master.bytes|, b))
  }

  lemma {:induction false} FailedWriteStops(master: BackingStore, blocks: Blocks, blk: nat, within: nat, data: seq<byte>)
    returns (b: nat, x: nat)
    requires ContractOk(|master.bytes|, blocks) && RangeOk(|master.bytes|, blk, within, |data|)
    requires !WriteFrom(master, blocks, blk, within, data).ok
    ensures StopsIn(master, blocks, blk, within, |data|, WriteFrom(master, blocks, blk, within, data).done, b, x)
    decreases |data|
  {
    var take := TakeOf(|master.bytes|, blk, within, |data|);
    var next := NewBlock(master, blocks, blk, within, data[..take]);
    WriteFromNext(master, blocks, blk, within, data);
    if next.Some? {
      NewBlockCell(master, blocks, blk, within, data[..take], 0, 0);
      b, x := FailedWriteStops(master, blocks[blk := next.value], blk + 1, 0, data[take..]);
    } else {
      b, x := blk, within;
    }
  }

  /** The `len` bytes at `start` cover some bytes of block `b` but not all. */
  predicate PartlyCovered(size: nat, start: nat, len: nat, b: nat) {
    && b * BLOCK < size && len > 0
    && b * BLOCK < start + len && start < b * BLOCK + BlockLen(size, b)
    && (b * BLOCK < start || start + len < b * BLOCK + BlockLen(size, b))
  }

  /** A write that only partly covers block `b` cannot go through it: it is neither in the overlay nor readable. */
  ghost predicate Stuck(master: BackingStore, blocks: Blocks, start: nat, len: nat, b: nat) {
    PartlyCovered(|master.bytes|, start, len, b) && b !in blocks && !master.Readable(b * BLOCK, BlockLen(|master.bytes|, b))
  }

  lemma {:induction false} BlockedFails(master: BackingStore, blocks: Blocks, blk: nat, within: nat, data: seq<byte>, b: nat)
    requires ContractOk(|master.bytes|, blocks) && RangeOk(|master.bytes|, blk, within, |data|)
    requires Stuck(master, blocks, blk * BLOCK + within, |data|, b)
    ensures !WriteFrom(master, blocks, blk, within, data).ok
    decreases |data|
  {
    var take := TakeOf(|master.bytes|, blk, within, |data|);
    var next := NewBlock(master, blocks, blk, within, data[..take]);
    WriteFromNext(master, blocks, blk, within, data);
    if next.Some? && b != blk {
      NextRange(|master.bytes|, blk, within, |data|);
      NewBlockCell(master, blocks, blk, within, data[..take], 0, 0);
      BlockedFails(master, blocks[blk := next.value], blk + 1, 0, data[take..], b);
    }
  }

  /** A write succeeds exactly if the overlay or the master supplies every block it only partly covers. */
  lemma WriteSucceedsIff(master: BackingStore, blocks: Blocks, off: nat, data: seq<byte>)
    requires ContractOk(|master.bytes|, blocks) && off + |data| <= |master.bytes|
    ensures WriteSpec(master, blocks, off, data).ok <==> forall b :: !Stuck(master, blocks, off, |data|, b)
  {
    if b: nat :| Stuck(master, blocks, off, |data|, b) {
      BlockedFails(master, blocks, off / BLOCK, off % BLOCK, data, b);
    } else if !WriteSpec(master, blocks, off, data).ok {
      var b, x := FailedWriteStops(master, blocks, off / BLOCK, off % BLOCK, data);
      assert Stuck(master, blocks, off, |data|, b);
    }
  }

  /** Copying the next bytes of the disk extends the prefix of a buffer that agrees with it. */
  lemma PrefixGrows(buf: seq<byte>, done: nat, chunk: seq<byte>, disk: seq<byte>, offset: nat)
    requires done + |chunk| <= |buf| && offset + done + |chunk| <= |disk|
    requires buf[..done] == disk[offset..offset + done] && chunk == disk[offset + done..offset + done + |chunk|]
    ensures Patch(buf, done, chunk)[..done + |chunk|] == disk[offset..offset + (done + |chunk|)]
  {
    assert Patch(buf, done, chunk)[..done + |chunk|] == buf[..done] + chunk;
  }

  // ----- the overlay and the volume -----

  /** `RamOverlay`: a block map changed in place. */
  class RamOverlay {
    var blocks: Blocks

    constructor ()
      ensures blocks == map[]
    {
      blocks := map[];
    }

    method ReadBlock(blk: nat, buf: array<byte>) returns (hit: bool)
      requires blk in blocks ==> |blocks[blk]| == buf.Length
      modifies buf
      ensures hit <==> blk in blocks
      ensures buf[..] == if hit then blocks[blk] else old(buf[..])
    {
      if blk !in blocks {
        return false;
      }
      CopyInto(buf, 0, blocks[blk]);
      assert buf[..] == blocks[blk];
      hit := true;
    }

    method WriteBlock(blk: nat, data: seq<byte>)
      modifies this
      ensures blocks == old(blocks)[blk := data]
    {
      blocks := blocks[blk := data];
    }

    method Reset()
      modifies this
      ensures blocks == map[]
    {
      blocks := map[];
    }
  }

  class Volume {
    const master: BackingStore
    const overlay: RamOverlay

    constructor (master: BackingStore, overlay: RamOverlay)
      requires ContractOk(|master.bytes|, overlay.blocks) && |master.bytes| < U64_SPAN
      ensures this.master == master && this.overlay == overlay
      ensures Valid()
    {
      this.master := master;
      this.overlay := overlay;
    }

    ghost predicate Valid()
      reads overlay
    {
      ContractOk(|master.bytes|, overlay.blocks) && |master.bytes| < U64_SPAN
    }

    ghost function Disk(): seq<byte>
      requires Valid()
      reads overlay
    {
      DiskOf(master, overlay.blocks)
    }

    /** `check_bounds`. */
    predicate InBounds(offset: u64, len: nat) {
      offset + len < U64_SPAN && offset + len <= |master.bytes|
    }

    method ReadAt(offset: u64, buf: array<byte>) returns (r: Result<Unit, IoError>)
      requires Valid()
      modifies buf
      ensures r.Ok? <==> offset + buf.Length <= |master.bytes| && CanRead(master, overlay.blocks, offset, buf.Length)
      ensures r.Ok? ==> buf[..] == Disk()[offset..offset + buf.Length]
    {
      if !InBounds(offset, buf.Length) {
        return Err(InvalidData);
      }
      var pos: nat, done: nat := offset, 0;
      ghost var disk := Disk();
      while done < buf.Length
        invariant done <= buf.Length && pos == offset + done
        invariant buf[..done] == disk[offset..offset + done]
        invariant CanRead(master, overlay.blocks, offset, done)
      {
        var blk, within := pos / BLOCK, pos % BLOCK;
        var take := TakeOf(|master.bytes|, blk, within, buf.Length - done);
        var chunk := ReadChunk(blk, within, take);
        if chunk.Err? {
          return Err(chunk.error);
        }
        PrefixGrows(buf[..], done, chunk.value, disk, offset);
        CopyInto(buf, done, chunk.value);
        pos, done := pos + take, done + take;
      }
      r := Ok(Done);
    }

    /** The part of a read that falls in one block. */
    method ReadChunk(blk: nat, within: nat, take: nat) returns (r: Result<seq<byte>, IoError>)
      requires Valid() && blk * BLOCK < |master.bytes| && 0 < take && within + take <= BlockLen(|master.bytes|, blk)
      ensures r.Ok? <==> CanRead(master, overlay.blocks, blk * BLOCK + within, take)
      ensures r.Ok? ==> r.value == Disk()[blk * BLOCK + within..blk * BLOCK + within + take]
    {
      forall p | blk * BLOCK + within <= p < blk * BLOCK + within + take
        ensures p / BLOCK == blk && p % BLOCK == p - blk * BLOCK
      {
        BlockAndByte(p, blk, p - blk * BLOCK);
      }
      var block := new byte[BlockLen(|master.bytes|, blk)](_ => 0);
      var hit := overlay.ReadBlock(blk, block);
      if hit {
        r := Ok(block[within..within + take]);
      } else {
        r := master.Read(blk * BLOCK + within, take);
      }
    }

    method WriteAt(offset: u64, data: seq<byte>) returns (r: Result<Unit, IoError>)
      requires Valid()
      modifies overlay
      ensures Valid()
      ensures offset + |data| > |master.bytes| ==> r == Err(InvalidData) && overlay.blocks == old(overlay.blocks)
      ensures offset + |data| <= |master.bytes| ==>
                var w := WriteSpec(master, old(overlay.blocks), offset, data);
                && overlay.blocks == w.blocks && (r.Ok? <==> w.ok)
                && Disk() == Patch(old(Disk()), offset, data[..w.done])
      ensures r.Ok? ==> Disk() == Patch(old(Disk()), offset, data)
    {
      if !InBounds(offset, |data|) {
        return Err(InvalidData);
      }
      WritePatches(master, overlay.blocks, offset, data);
      assert data[..|data|] == data;
      r := WriteBlocks(offset, data);
    }

    /** The block loop of `write_at`. */
    method WriteBlocks(offset: nat, data: seq<byte>) returns (r: Result<Unit, IoError>)
      requires Valid() && offset + |data| <= |master.bytes|
      modifies overlay
      ensures Valid()
      ensures var w := WriteSpec(master, old(overlay.blocks), offset, data);
              overlay.blocks == w.blocks && (r.Ok? <==> w.ok)
    {
      var pos: nat, rest := offset, data;
      ghost var b: nat, x: nat := pos / BLOCK, pos % BLOCK;
      ghost var whole := WriteFrom(master, overlay.blocks, b, x, rest);
      ghost var w := whole;
      while rest != []
        invariant Valid() && x < BLOCK && (rest != [] ==> pos == b * BLOCK + x && pos + |rest| <= |master.bytes|)
        invariant w == WriteFrom(master, overlay.blocks, b, x, rest)
        invariant whole.blocks == w.blocks && whole.ok == w.ok
        decreases |rest|
      {
        BlockAndByte(pos, b, x);
        var blk, within := pos / BLOCK, pos % BLOCK;
        var take := TakeOf(|master.bytes|, blk, within, |rest|);
        WriteFromNext(master, overlay.blocks, b, x, rest);
        var stored := WriteChunk(blk, within, rest[..take]);
        if stored.Err? {
          return Err(stored.error);
        }
        pos, rest := pos + take, rest[take..];
        b, x := b + 1, 0;
        w := WriteFrom(master, overlay.blocks, b, x, rest);
      }
      r := Ok(Done);
    }

    /** The part of a write that falls in one block: stored directly, or read-modified-written. */
    method WriteChunk(blk: nat, within: nat, chunk: seq<byte>) returns (r: Result<Unit, IoError>)
      requires Valid() && blk * BLOCK < |master.bytes| && within + |chunk| <= BlockLen(|master.bytes|, blk)
      modifies overlay
      ensures Valid()
      ensures var next := NewBlock(master, old(overlay.blocks), blk, within, chunk);
              && (r.Ok? <==> next.Some?)
              && overlay.blocks == if next.Some? then old(overlay.blocks)[blk := next.value] else old(overlay.blocks)
    {
      var blen := BlockLen(|master.bytes|, blk);
      if |chunk| == blen {
        overlay.WriteBlock(blk, chunk);
      } else {
        var block := new byte[blen](_ => 0);
        var hit := overlay.ReadBlock(blk, block);
        if !hit {
          var base := master.Read(blk * BLOCK, blen);
          if base.Err? {
            return Err(base.error);
          }
          CopyInto(block, 0, base.value);
          assert block[..] == base.value;
        }
        CopyInto(block, within, chunk);
        overlay.WriteBlock(blk, block[..]);
      }
      r := Ok(Done);
    }

    method Reset()
      requires Valid()
      modifies overlay
      ensures Valid() && Disk() == master.bytes
    {
      overlay.Reset();
    }
  }

  lemma BlockAndByte(pos: nat, b: nat, x: nat)
    requires x < BLOCK && pos == b * BLOCK + x
    ensures pos / BLOCK == b && pos % BLOCK == x
  {
  }

  // ----- whole histories against a flat disk -----

  datatype Op = Read(off: nat, len: nat) | Write(off: nat, data: seq<byte>) | Reset

  datatype Reply = Data(bytes: seq<byte>) | Stored(done: nat) | Cleared | Failed(done: nat)

  /** One operation on the overlay, as the volume performs it. */
  ghost function Step(master: BackingStore, blocks: Blocks, op: Op): (Blocks, Reply)
    requires ContractOk(|master.bytes|, blocks)
  {
    match op
    case Read(off, len) =>
      if off + len <= |master.bytes| && CanRead(master, blocks, off, len)
      then (blocks, Data(DiskOf(master, blocks)[off..off + len]))
      else (blocks, Failed(0))
    case Write(off, data) =>
      if off + |data| > |master.bytes| then (blocks, Failed(0))
      else
        var w := WriteSpec(master, blocks, off, data);
        (w.blocks, if w.ok then Stored(|data|) else Failed(w.done))
    case Reset => (map[], Cleared)
  }

  /** What the same operation does to a flat byte array, given how far it got. */
  ghost function FlatStep(master: seq<byte>, disk: seq<byte>, op: Op, reply: Reply): seq<byte> {
    match (op, reply)
    case (Write(off, data), Stored(done)) => if off + |data| <= |disk| then Patch(disk, off, data) else disk
    case (Write(off, data), Failed(done)) =>
      if done <= |data| && off + done <= |disk| then Patch(disk, off, data[..done]) else disk
    case (Reset, _) => master
    case _ => disk
  }

  /** The replies a flat byte array would give, except that faults may cut an operation short. */
  ghost predicate FlatReply(disk: seq<byte>, faultless: bool, op: Op, reply: Reply) {
    match op
    case Read(off, len) =>
      && (reply.Data? ==> off + len <= |disk| && reply.bytes == disk[off..off + len])
      && (reply.Data? || reply == Failed(0))
      && (faultless && off + len <= |disk| ==> reply.Data?)
    case Write(off, data) =>
      && (reply.Stored? ==> off + |data| <= |disk| && reply.done == |data|)
      && (reply.Stored? || (reply.Failed? && (reply.done == 0 || reply.done < |data|)))
      && (off + |data| > |disk| ==> reply == Failed(0))
      && (faultless && off + |data| <= |disk| ==> reply.Stored?)
    case Reset => reply.Cleared?
  }

  ghost function Run(master: BackingStore, blocks: Blocks, ops: seq<Op>): (Blocks, seq<Reply>)
    requires ContractOk(|master.bytes|, blocks)
    decreases |ops|
  {
    if ops == [] then (blocks, [])
    else
      var (after, reply) := Step(master, blocks, ops[0]);
      StepRefinesFlat(master, blocks, ops[0]);
      var (end, replies) := Run(master, after, ops[1..]);
      (end, [reply] + replies)
  }

  ghost function FlatRun(master: seq<byte>, disk: seq<byte>, ops: seq<Op>, replies: seq<Reply>): seq<byte>
    requires |ops| == |replies|
    decreases |ops|
  {
    if ops == [] then disk
    else FlatRun(master, FlatStep(master, disk, ops[0], replies[0]), ops[1..], replies[1..])
  }

  ghost predicate FlatReplies(master: seq<byte>, disk: seq<byte>, faultless: bool, ops: seq<Op>, replies: seq<Reply>)
    requires |ops| == |replies|
    decreases |ops|
  {
    ops == [] ||
    (&& FlatReply(disk, faultless, ops[0], replies[0])
     && FlatReplies(master, FlatStep(master, disk, ops[0], replies[0]), faultless, ops[1..], replies[1..]))
  }

  lemma FailedWriteHasFault(master: BackingStore, blocks: Blocks, off: nat, data: seq<byte>)
    requires ContractOk(|master.bytes|, blocks) && off + |data| <= |master.bytes|
    ensures !WriteSpec(master, blocks, off, data).ok ==> master.faulty != {}
  {
    if !WriteSpec(master, blocks, off, data).ok {
      var b, x := FailedWriteStops(master, blocks, off / BLOCK, off % BLOCK, data);
    }
  }

  lemma StepRefinesFlat(master: BackingStore, blocks: Blocks, op: Op)
    requires ContractOk(|master.bytes|, blocks)
    ensures var (after, reply) := Step(master, blocks, op);
            && ContractOk(|master.bytes|, after)
            && DiskOf(master, after) == FlatStep(master.bytes, DiskOf(master, blocks), op, reply)
            && FlatReply(DiskOf(master, blocks), master.faulty == {}, op, reply)
  {
    match op {
      case Read(off, len) =>
      case Write(off, data) =>
        if off + |data| <= |master.bytes| {
          WritePatches(master, blocks, off, data);
          assert data[..|data|] == data;
          FailedWriteHasFault(master, blocks, off, data);
        } else if off <= |master.bytes| {
          assert Patch(DiskOf(master, blocks), off, data[..0]) == DiskOf(master, blocks);
        }
      case Reset =>
        assert DiskOf(master, map[]) == master.bytes;
    }
  }

  /** Over any history of reads, writes and resets the volume is a flat byte array. */
  lemma {:induction false} HistoryRefinesFlat(master: BackingStore, blocks: Blocks, ops: seq<Op>)
    requires ContractOk(|master.bytes|, blocks)
    ensures var (end, replies) := Run(master, blocks, ops);
            && |replies| == |ops|
            && ContractOk(|master.bytes|, end)
            && DiskOf(master, end) == FlatRun(master.bytes, DiskOf(master, blocks), ops, replies)
            && FlatReplies(master.bytes, DiskOf(master, blocks), master.faulty == {}, ops, replies)
    decreases |ops|
  {
    if ops != [] {
      StepRefinesFlat(master, blocks, ops[0]);
      var (after, reply) := Step(master, blocks, ops[0]);
      HistoryRefinesFlat(master, after, ops[1..]);
      var (end, replies) := Run(master, after, ops[1..]);
      assert ([reply] + replies)[1..] == replies;
    }
  }
}
