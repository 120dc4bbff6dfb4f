/** SCSI command execution against per-LUN volumes (iscsi/scsi/mod.rs, cdb.rs, sense.rs). */
module Scsi {
  import opened Bytes
  import opened Wrappers
  import opened Store
  import V = Volume
  import opened Pdu

  const GOOD: byte := 0x00
  const CHECK_CONDITION: byte := 0x02
  const MEDIUM_ERROR: byte := 0x03
  const ILLEGAL_REQUEST: byte := 0x05

  const INVALID_OPCODE: (byte, byte) := (0x20, 0x00)
  const LBA_OUT_OF_RANGE: (byte, byte) := (0x21, 0x00)
  const INVALID_FIELD_IN_CDB: (byte, byte) := (0x24, 0x00)
  const LUN_NOT_SUPPORTED: (byte, byte) := (0x25, 0x00)
  const UNRECOVERED_READ_ERROR: (byte, byte) := (0x11, 0x00)
  const WRITE_ERROR: (byte, byte) := (0x0c, 0x00)

  datatype Outcome = Outcome(status: byte, data: seq<byte>, sense: seq<byte>)

  function FixedSense(key: byte, code: (byte, byte)): seq<byte> {
    [0x70, 0, key % 16, 0, 0, 0, 0, 10, 0, 0, 0, 0, code.0, code.1, 0, 0, 0, 0]
  }

  function Good(data: seq<byte>): Outcome {
    Outcome(GOOD, data, [])
  }

  function Check(key: byte, code: (byte, byte)): Outcome {
    Outcome(CHECK_CONDITION, [], FixedSense(key, code))
  }

  /**
   * One LUN: a volume, held by value, and what it reports about itself. `tables` answers the
   * commands whose data does not depend on the disk's contents.
   */
  datatype LogicalUnit = LogicalUnit(master: BackingStore, blocks: V.Blocks, blockSize: u32, tables: Cdb -> Outcome) {
    ghost predicate Valid() {
      V.ContractOk(|master.bytes|, blocks) && |master.bytes| < U64_SPAN && blockSize > 0
    }

    ghost function Disk(): (d: seq<byte>)
      requires Valid()
      ensures |d| == |master.bytes|
    {
      V.DiskOf(master, blocks)
    }
  }

  type Luns = seq<Option<LogicalUnit>>

  ghost predicate LunsOk(luns: Luns) {
    forall n :: 0 <= n < |luns| && luns[n].Some? ==> luns[n].value.Valid()
  }

  // ----- commands that move disk data -----

  datatype Transfer = NoTransfer | ReadBlocks(lba: u64, blocks: u32) | WriteBlocks(lba: u64, blocks: u32)

  /** Byte 0 selects the command; the LBA and the length lie where a 10- or 16-byte CDB has them. */
  function TransferOf(cdb: Cdb): Transfer {
    match cdb[0]
    case 0x28 => ReadBlocks(Be32(cdb, 2), Be16(cdb, 7))
    case 0x88 => ReadBlocks(Be64(cdb, 2), Be32(cdb, 10))
    case 0x2a => WriteBlocks(Be32(cdb, 2), Be16(cdb, 7))
    case 0x8a => WriteBlocks(Be64(cdb, 2), Be32(cdb, 10))
    case _ => NoTransfer
  }

  /** Whole blocks only: a short tail is not addressable. */
  predicate InRange(size: nat, blockSize: u32, lba: u64, blocks: u32)
    requires blockSize > 0
  {
    lba + blocks < U64_SPAN && lba + blocks <= Quot(size, blockSize)
  }

  lemma InRangeBytes(size: nat, blockSize: u32, lba: u64, blocks: u32)
    requires blockSize > 0 && InRange(size, blockSize, lba, blocks)
    ensures lba * blockSize + blocks * blockSize <= size
  {
    QuotRem(size, blockSize);
    MulMono(lba + blocks, Quot(size, blockSize), blockSize);
    Distribute(lba, blocks, blockSize);
  }

  function ByteCount(blocks: nat, blockSize: nat): nat {
    MulNat(blocks, blockSize);
    blocks * blockSize
  }

  lemma MulMono(a: nat, b: nat, c: nat)
    requires a <= b
    ensures a * c <= b * c
  {
  }

  lemma Distribute(a: nat, b: nat, c: nat)
    ensures (a + b) * c == a * c + b * c
  {
  }

  ghost function Read(lu: LogicalUnit, lba: u64, blocks: u32): Outcome
    requires lu.Valid()
  {
    if blocks == 0 then Good([])
    else if !InRange(|lu.master.bytes|, lu.blockSize, lba, blocks) then Check(ILLEGAL_REQUEST, LBA_OUT_OF_RANGE)
    else
      var (off, len) := (lba * lu.blockSize, blocks * lu.blockSize);
      InRangeBytes(|lu.master.bytes|, lu.blockSize, lba, blocks);
      if V.CanRead(lu.master, lu.blocks, off, len) then Good(lu.Disk()[off..off + len])
      else Check(MEDIUM_ERROR, UNRECOVERED_READ_ERROR)
  }

  function Write(lu: LogicalUnit, lba: u64, blocks: u32, data: seq<byte>): (LogicalUnit, Outcome)
    requires lu.Valid()
  {
    if blocks == 0 then (lu, Good([]))
    else if !InRange(|lu.master.bytes|, lu.blockSize, lba, blocks) then (lu, Check(ILLEGAL_REQUEST, LBA_OUT_OF_RANGE))
    else if |data| != blocks * lu.blockSize then (lu, Check(ILLEGAL_REQUEST, INVALID_FIELD_IN_CDB))
    else
      InRangeBytes(|lu.master.bytes|, lu.blockSize, lba, blocks);
      var w := V.WriteSpec(lu.master, lu.blocks, lba * lu.blockSize, data);
      (lu.(blocks := w.blocks), if w.ok then Good([]) else Check(MEDIUM_ERROR, WRITE_ERROR))
  }

  predicate NoData(op: byte) {
    op == 0x00 || op == 0x35 || op == 0x91 || op == 0x1e || op == 0x1b
  }

  /** INQUIRY, READ CAPACITY, REQUEST SENSE and MODE SENSE. */
  predicate Table(cdb: Cdb) {
    cdb[0] == 0x12 || cdb[0] == 0x25 || (cdb[0] == 0x9e && cdb[1] % 32 == 0x10) || cdb[0] == 0x03 || cdb[0] == 0x1a || cdb[0] == 0x5a
  }

  ghost function Dispatch(lu: LogicalUnit, cdb: Cdb, data: seq<byte>): (LogicalUnit, Outcome)
    requires lu.Valid()
  {
    match TransferOf(cdb)
    case ReadBlocks(lba, blocks) => (lu, Read(lu, lba, blocks))
    case WriteBlocks(lba, blocks) => Write(lu, lba, blocks, data)
    case NoTransfer =>
      (lu, if NoData(cdb[0]) then Good([]) else if Table(cdb) then lu.tables(cdb) else Check(ILLEGAL_REQUEST, INVALID_OPCODE))
  }

  // ----- the target -----

  /** Flat single-level addressing: byte 0 of the LUN field must be zero and byte 1 is the number. */
  function LunNumber(lun: u64): Option<nat> {
    if lun / 0x100_0000_0000_0000 != 0 then None else Some(lun / 0x1_0000_0000_0000 % 256)
  }

  function Selected(luns: Luns, lun: u64): (n: Option<nat>)
    ensures n.Some? ==> n.value < |luns| && luns[n.value].Some?
  {
    match LunNumber(lun)
    case Some(n) => if n < |luns| && luns[n].Some? then Some(n) else None
    case None => None
  }

  function LunEntry(n: nat): seq<byte> {
    [0, n % 256] + Zeros(6)
  }

  /** The present LUNs from number `i` on, one eight-byte entry each. */
  function LunEntries(luns: Luns, i: nat): seq<byte>
    requires i <= |luns|
    decreases |luns| - i
  {
    if i == |luns| then []
    else (if luns[i].Some? then LunEntry(i) else []) + LunEntries(luns, i + 1)
  }

  function ReportLunsData(luns: Luns): seq<byte> {
    ToBE(|LunEntries(luns, 0)|, 4) + Zeros(4) + LunEntries(luns, 0)
  }

  ghost function ExecuteSpec(luns: Luns, cmd: ScsiCommand, data: seq<byte>): (Luns, Outcome)
    requires LunsOk(luns)
  {
    match Selected(luns, cmd.lun)
    case None => (luns, Check(ILLEGAL_REQUEST, LUN_NOT_SUPPORTED))
    case Some(n) =>
      if cmd.cdb[0] == 0xa0 then (luns, Good(ReportLunsData(luns)))
      else
        var (lu, outcome) := Dispatch(luns[n].value, cmd.cdb, data);
        (luns[n := Some(lu)], outcome)
  }

  /** An entry of the REPORT LUNS list, used as a command's LUN field, selects the LUN it lists. */
  lemma EntryResolves(n: nat)
    requires n < 256
    ensures LunNumber(BE64(LunEntry(n))) == Some(n)
  {
    var e := LunEntry(n);
    BEZeros(e[..2], 6);
    assert e == e[..2] + Zeros(6);
    assert e[..2][..1] == [0] && e[..2][1] == n;
    assert BE([0]) == BE([]) * 256 + 0 by { assert [0][..0] == []; }
    Pow256Values();
  }

  lemma {:induction false} BEZeros(s: seq<byte>, n: nat)
    ensures BE(s + Zeros(n)) == BE(s) * Pow256(n)
  {
    if n == 0 {
      assert s + Zeros(0) == s;
    } else {
      BEZeros(s, n - 1);
      assert (s + Zeros(n))[..|s| + n - 1] == s + Zeros(n - 1);
    }
  }

  function Present(luns: Luns, i: nat): nat
    requires i <= |luns|
    decreases |luns| - i
  {
    if i == |luns| then 0 else (if luns[i].Some? then 1 else 0) + Present(luns, i + 1)
  }

  /** The list has one entry per present LUN, in order: the entry of LUN `n` follows those of the LUNs below it. */
  lemma {:induction false} EntryOf(luns: Luns, i: nat, n: nat)
    requires i <= n < |luns| && luns[n].Some?
    ensures |LunEntries(luns, i)| == 8 * Present(luns, i)
    ensures var at := 8 * (Present(luns, i) - Present(luns, n));
            0 <= at && at + 8 <= |LunEntries(luns, i)| && LunEntries(luns, i)[at..at + 8] == LunEntry(n)
    decreases n - i
  {
    EntriesLength(luns, i);
    EntriesLength(luns, i + 1);
    if i < n {
      EntryOf(luns, i + 1, n);
    }
  }

  lemma {:induction false} EntriesLength(luns: Luns, i: nat)
    requires i <= |luns|
    ensures |LunEntries(luns, i)| == 8 * Present(luns, i)
    decreases |luns| - i
  {
    if i < |luns| {
      EntriesLength(luns, i + 1);
    }
  }

  // ----- what a command does to the disk -----

  /** The command replaces blocks: a WRITE of at least one whole block, in range, with exactly its data. */
  predicate Replaces(size: nat, blockSize: u32, cdb: Cdb, data: seq<byte>)
    requires blockSize > 0
  {
    match TransferOf(cdb)
    case WriteBlocks(lba, blocks) => blocks > 0 && InRange(size, blockSize, lba, blocks) && |data| == blocks * blockSize
    case _ => false
  }

  /**
   * A WRITE replaces exactly its blocks; when the master fails under it, a prefix of them. Every
   * other command, and every rejected one, leaves the disk unchanged.
   */
  lemma DispatchDisk(lu: LogicalUnit, cdb: Cdb, data: seq<byte>) returns (done: nat)
    requires lu.Valid()
    ensures var (after, outcome) := Dispatch(lu, cdb, data);
            && after.Valid() && after.master == lu.master && after.blockSize == lu.blockSize && after.tables == lu.tables
            && (!Replaces(|lu.master.bytes|, lu.blockSize, cdb, data) ==> after == lu)
            && (Replaces(|lu.master.bytes|, lu.blockSize, cdb, data) ==>
                  && done <= |data| && (outcome.status == GOOD <==> done == |data|)
                  && (lu.master.faulty == {} ==> outcome.status == GOOD)
                  && TransferOf(cdb).lba * lu.blockSize + |data| <= |lu.master.bytes|
                  && after.Disk() == Patch(lu.Disk(), TransferOf(cdb).lba * lu.blockSize, data[..done]))
  {
    done := 0;
    if Replaces(|lu.master.bytes|, lu.blockSize, cdb, data) {
      var t := TransferOf(cdb);
      InRangeBytes(|lu.master.bytes|, lu.blockSize, t.lba, t.blocks);
      done := WriteDone(lu.master, lu.blocks, t.lba * lu.blockSize, data);
    }
  }

  lemma WriteDone(master: BackingStore, blocks: V.Blocks, off: nat, data: seq<byte>) returns (done: nat)
    requires V.ContractOk(|master.bytes|, blocks) && off + |data| <= |master.bytes|
    ensures var w := V.WriteSpec(master, blocks, off, data);
            && V.ContractOk(|master.bytes|, w.blocks)
            && done <= |data| && (w.ok <==> done == |data|) && (master.faulty == {} ==> w.ok)
            && V.DiskOf(master, w.blocks) == Patch(V.DiskOf(master, blocks), off, data[..done])
  {
    var w := V.WriteSpec(master, blocks, off, data);
    V.WritePatches(master, blocks, off, data);
    if !w.ok {
      var b, x := V.FailedWriteStops(master, blocks, off / V.BLOCK, off % V.BLOCK, data);
    }
    done := w.done;
  }

  /** A READ in range returns exactly its blocks, or a medium error if the master fails under it. */
  lemma DispatchRead(lu: LogicalUnit, cdb: Cdb, data: seq<byte>)
    requires lu.Valid() && TransferOf(cdb).ReadBlocks?
    requires TransferOf(cdb).blocks > 0 && InRange(|lu.master.bytes|, lu.blockSize, TransferOf(cdb).lba, TransferOf(cdb).blocks)
    ensures var (outcome, off, len) := (Dispatch(lu, cdb, data).1, TransferOf(cdb).lba * lu.blockSize, TransferOf(cdb).blocks * lu.blockSize);
            && off + len <= |lu.Disk()|
            && (outcome == Good(lu.Disk()[off..off + len]) || outcome == Check(MEDIUM_ERROR, UNRECOVERED_READ_ERROR))
            && (lu.master.faulty == {} ==> outcome.status == GOOD)
  {
    var t := TransferOf(cdb);
    InRangeBytes(|lu.master.bytes|, lu.blockSize, t.lba, t.blocks);
  }

  lemma ExecuteKeepsOk(luns: Luns, cmd: ScsiCommand, data: seq<byte>)
    requires LunsOk(luns)
    ensures var (after, _) := ExecuteSpec(luns, cmd, data);
            LunsOk(after) && |after| == |luns|
  {
    var n := Selected(luns, cmd.lun);
    if n.Some? {
      var done := DispatchDisk(luns[n.value].value, cmd.cdb, data);
    }
  }

  // ----- the target, changed in place -----

  class ScsiTarget {
    var luns: Luns

    constructor (luns: Luns)
      ensures this.luns == luns
    {
      this.luns := luns;
    }

    method Execute(cmd: ScsiCommand, data: seq<byte>) returns (outcome: Outcome)
      requires LunsOk(luns)
      modifies this
      ensures LunsOk(luns)
      ensures (luns, outcome) == ExecuteSpec(old(luns), cmd, data)
    {
      ExecuteKeepsOk(luns, cmd, data);
      var n := Selected(luns, cmd.lun);
      if n.None? {
        return Check(ILLEGAL_REQUEST, LUN_NOT_SUPPORTED);
      }
      if cmd.cdb[0] == 0xa0 {
        outcome := ReportLuns();
        return;
      }
      var lu := luns[n.value].value;
      match TransferOf(cmd.cdb) {
        case ReadBlocks(lba, blocks) =>
          outcome := ReadDisk(lu, lba, blocks);
          assert luns[n.value := Some(lu)] == luns;
        case WriteBlocks(lba, blocks) =>
          var after;
          after, outcome := WriteDisk(lu, lba, blocks, data);
          luns := luns[n.value := Some(after)];
        case NoTransfer =>
          assert luns[n.value := Some(lu)] == luns;
          outcome := if NoData(cmd.cdb[0]) then Good([])
                     else if Table(cmd.cdb) then lu.tables(cmd.cdb)
                     else Check(ILLEGAL_REQUEST, INVALID_OPCODE);
      }
    }

    method ReportLuns() returns (outcome: Outcome)
      ensures outcome == Good(ReportLunsData(luns))
    {
      var list: seq<byte> := [];
      for i := 0 to |luns|
        invariant list + LunEntries(luns, i) == LunEntries(luns, 0)
      {
        if luns[i].Some? {
          assert list + (LunEntry(i) + LunEntries(luns, i + 1)) == (list + LunEntry(i)) + LunEntries(luns, i + 1);
          list := list + LunEntry(i);
        } else {
          assert LunEntries(luns, i) == LunEntries(luns, i + 1);
        }
      }
      outcome := Good(ToBE(|list|, 4) + Zeros(4) + list);
    }
  }

  method ReadDisk(lu: LogicalUnit, lba: u64, blocks: u32) returns (outcome: Outcome)
    requires lu.Valid()
    ensures outcome == Read(lu, lba, blocks)
  {
    if blocks == 0 {
      return Good([]);
    }
    if !InRange(|lu.master.bytes|, lu.blockSize, lba, blocks) {
      return Check(ILLEGAL_REQUEST, LBA_OUT_OF_RANGE);
    }
    InRangeBytes(|lu.master.bytes|, lu.blockSize, lba, blocks);
    var volume := OpenVolume(lu);
    var data := new byte[blocks * lu.blockSize](_ => 0);
    var r := volume.ReadAt(lba * lu.blockSize, data);
    outcome := if r.Ok? then Good(data[..]) else Check(MEDIUM_ERROR, UNRECOVERED_READ_ERROR);
  }

  method WriteDisk(lu: LogicalUnit, lba: u64, blocks: u32, data: seq<byte>) returns (after: LogicalUnit, outcome: Outcome)
    requires lu.Valid()
    ensures (after, outcome) == Write(lu, lba, blocks, data)
  {
    after := lu;
    if blocks == 0 {
      return after, Good([]);
    }
    if !InRange(|lu.master.bytes|, lu.blockSize, lba, blocks) {
      return after, Check(ILLEGAL_REQUEST, LBA_OUT_OF_RANGE);
    }
    if |data| != blocks * lu.blockSize {
      return after, Check(ILLEGAL_REQUEST, INVALID_FIELD_IN_CDB);
    }
    InRangeBytes(|lu.master.bytes|, lu.blockSize, lba, blocks);
    var volume := OpenVolume(lu);
    var r := volume.WriteAt(lba * lu.blockSize, data);
    after := lu.(blocks := volume.overlay.blocks);
    outcome := if r.Ok? then Good([]) else Check(MEDIUM_ERROR, WRITE_ERROR);
  }

  /** The volume a unit's value stands for. */
  method OpenVolume(lu: LogicalUnit) returns (volume: V.Volume)
    requires lu.Valid()
    ensures fresh(volume) && fresh(volume.overlay) && volume.Valid()
    ensures volume.master == lu.master && volume.overlay.blocks == lu.blocks
  {
    var overlay := new V.RamOverlay();
    overlay.blocks := lu.blocks;
    volume := new V.Volume(lu.master, overlay);
  }
}
