/** What a session hands to its SCSI target, and what that does to a LUN's disk, over whole runs. */
module Executions {
  import opened Bytes
  import opened Wrappers
  import opened Pdu
  import opened Scsi
  import opened Session
  import opened SessionRuns
  import opened Numerals

  /** A command executed with its assembled data. */
  datatype Execution = Execution(cmd: ScsiCommand, data: seq<byte>)

  /** The execution a request causes, if any: at once, or when it completes a write in flight. */
  function ExecutedBy(s: State, req: Request): Option<Execution> {
    if !s.stage.FullFeature? || s.target.None? then None
    else
      match req
      case Command(cmd) => if !cmd.write || |cmd.data| == cmd.edtl then Some(Execution(cmd, cmd.data)) else None
      case Data(d) =>
        if d.itt !in s.inFlight then None
        else
          var p := s.inFlight[d.itt];
          if d.bufferOffset + |d.data| > |p.buf| || Placed(p, d).received < p.cmd.edtl then None
          else Some(Execution(p.cmd, Placed(p, d).buf))
      case _ => None
  }

  ghost function Apply(luns: Luns, e: Option<Execution>): Luns
    requires LunsOk(luns)
  {
    match e
    case None => luns
    case Some(x) => ExecuteSpec(luns, x.cmd, x.data).0
  }

  lemma WholeData(cmd: ScsiCommand)
    requires |cmd.data| == cmd.edtl
    ensures Patch(Zeros(cmd.edtl), 0, cmd.data) == cmd.data
  {
  }

  lemma CommandApplies(s: State, cmd: ScsiCommand, bhs: HeaderBytes)
    requires StateOk(s) && s.stage.FullFeature? && s.target.Some?
    ensures var t := ScsiCommandSpec(s, cmd, bhs).0;
            t.target.Some? && t.target.value.luns == Apply(s.target.value.luns, ExecutedBy(s, Command(cmd)))
  {
    if |cmd.data| == cmd.edtl {
      WholeData(cmd);
    }
  }

  lemma DataApplies(s: State, d: DataOut, bhs: HeaderBytes)
    requires StateOk(s) && s.stage.FullFeature? && s.target.Some?
    ensures var t := DataOutSpec(s, d, bhs).0;
            t.target.Some? && t.target.value.luns == Apply(s.target.value.luns, ExecutedBy(s, Data(d)))
  {
    if d.itt !in s.inFlight || d.bufferOffset + |d.data| > |s.inFlight[d.itt].buf| {
      DataOutStray(s, d, bhs);
    } else if Placed(s.inFlight[d.itt], d).received >= s.inFlight[d.itt].cmd.edtl {
      LastApplies(s, d, bhs);
    } else {
      DataOutMore(s, d, bhs);
    }
  }

  lemma LastApplies(s: State, d: DataOut, bhs: HeaderBytes)
    requires StateOk(s) && s.stage.FullFeature? && s.target.Some? && d.itt in s.inFlight
    requires d.bufferOffset + |d.data| <= |s.inFlight[d.itt].buf| && Placed(s.inFlight[d.itt], d).received >= s.inFlight[d.itt].cmd.edtl
    ensures var t := DataOutSpec(s, d, bhs).0;
            t.target.Some? && t.target.value.luns == Apply(s.target.value.luns, ExecutedBy(s, Data(d)))
  {
    DataOutLast(s, d, bhs);
  }

  /** A request changes the bound LUNs by exactly its execution. */
  lemma HandleApplies(reg: Registry, s: State, req: Request, bhs: HeaderBytes)
    requires RegistryOk(reg) && WellFormed(s) && s.target.Some?
    ensures var t := Handle(reg, s, req, bhs).0;
            t.target.Some? && t.target.value.luns == Apply(s.target.value.luns, ExecutedBy(s, req))
  {
    if s.stage.FullFeature? {
      match req {
        case Command(cmd) => CommandApplies(s, cmd, bhs);
        case Data(d) => DataApplies(s, d, bhs);
        case _ =>
      }
    }
  }

  /** The executions of a run, in order. */
  ghost function Log(reg: Registry, s: State, inputs: seq<Input>): seq<Execution>
    requires RegistryOk(reg) && WellFormed(s)
    decreases |inputs|
  {
    if inputs == [] then []
    else
      HandleKeepsOk(reg, s, inputs[0].req, inputs[0].bhs);
      var e := ExecutedBy(s, inputs[0].req);
      (if e.Some? then [e.value] else []) + Log(reg, Handle(reg, s, inputs[0].req, inputs[0].bhs).0, inputs[1..])
  }

  ghost function ApplyAll(luns: Luns, log: seq<Execution>): (end: Luns)
    requires LunsOk(luns)
    ensures LunsOk(end)
    decreases |log|
  {
    if log == [] then luns
    else
      ExecuteKeepsOk(luns, log[0].cmd, log[0].data);
      ApplyAll(ExecuteSpec(luns, log[0].cmd, log[0].data).0, log[1..])
  }

  /** Over any run, the LUNs change by the executions of the run and by nothing else. */
  lemma {:induction false} RunApplies(reg: Registry, s: State, inputs: seq<Input>)
    requires RegistryOk(reg) && WellFormed(s) && s.target.Some?
    ensures var t := Run(reg, s, inputs).0;
            t.target.Some? && t.target.value.luns == ApplyAll(s.target.value.luns, Log(reg, s, inputs))
    decreases |inputs|
  {
    if inputs != [] {
      var e, next := ExecutedBy(s, inputs[0].req), Handle(reg, s, inputs[0].req, inputs[0].bhs).0;
      HandleKeepsOk(reg, s, inputs[0].req, inputs[0].bhs);
      HandleApplies(reg, s, inputs[0].req, inputs[0].bhs);
      RunApplies(reg, next, inputs[1..]);
      if e.Some? {
        assert ([e.value] + Log(reg, next, inputs[1..]))[1..] == Log(reg, next, inputs[1..]);
      } else {
        assert [] + Log(reg, next, inputs[1..]) == Log(reg, next, inputs[1..]);
      }
    }
  }

  // ----- one LUN as a flat disk -----

  /** The command addresses LUN `n` and replaces blocks of it. */
  predicate WritesTo(n: nat, size: nat, blockSize: u32, e: Execution)
    requires blockSize > 0
  {
    LunNumber(e.cmd.lun) == Some(n) && Replaces(size, blockSize, e.cmd.cdb, e.data)
  }

  /** What an execution that completes does to LUN `n` as a flat byte array. */
  function FlatExecute(n: nat, disk: seq<byte>, blockSize: u32, e: Execution): (d: seq<byte>)
    requires blockSize > 0
    ensures |d| == |disk|
  {
    if !WritesTo(n, |disk|, blockSize, e) then disk
    else
      InRangeBytes(|disk|, blockSize, TransferOf(e.cmd.cdb).lba, TransferOf(e.cmd.cdb).blocks);
      Patch(disk, TransferOf(e.cmd.cdb).lba * blockSize, e.data)
  }

  function FlatReplay(n: nat, disk: seq<byte>, blockSize: u32, log: seq<Execution>): (d: seq<byte>)
    requires blockSize > 0
    ensures |d| == |disk|
    decreases |log|
  {
    if log == [] then disk else FlatReplay(n, FlatExecute(n, disk, blockSize, log[0]), blockSize, log[1..])
  }

  /** Every write to LUN `n` in the log reported GOOD status. */
  ghost predicate AllCompleted(n: nat, luns: Luns, log: seq<Execution>)
    requires LunsOk(luns) && n < |luns| && luns[n].Some?
    decreases |log|
  {
    log == [] ||
    (var (after, outcome) := ExecuteSpec(luns, log[0].cmd, log[0].data);
     LunKept(n, luns, log[0]);
     && (WritesTo(n, |luns[n].value.master.bytes|, luns[n].value.blockSize, log[0]) ==> outcome.status == GOOD)
     && AllCompleted(n, after, log[1..]))
  }

  lemma LunKept(n: nat, luns: Luns, e: Execution)
    requires LunsOk(luns) && n < |luns| && luns[n].Some?
    ensures var after := ExecuteSpec(luns, e.cmd, e.data).0;
            && LunsOk(after) && |after| == |luns| && after[n].Some?
            && after[n].value.master == luns[n].value.master && after[n].value.blockSize == luns[n].value.blockSize
  {
    ExecuteKeepsOk(luns, e.cmd, e.data);
    var k := Selected(luns, e.cmd.lun);
    if k.Some? {
      var done := DispatchDisk(luns[k.value].value, e.cmd.cdb, e.data);
    }
  }

  /** One execution: LUN `n` changes as the flat disk does, unless a write to it fails. */
  lemma ExecuteIsFlat(n: nat, luns: Luns, e: Execution)
    requires LunsOk(luns) && n < |luns| && luns[n].Some?
    ensures LunsOk(ExecuteSpec(luns, e.cmd, e.data).0)
    ensures var lu := luns[n].value;
            var (after, outcome) := ExecuteSpec(luns, e.cmd, e.data);
            && |after| == |luns| && after[n].Some?
            && (WritesTo(n, |lu.master.bytes|, lu.blockSize, e) && lu.master.faulty == {} ==> outcome.status == GOOD)
            && ((WritesTo(n, |lu.master.bytes|, lu.blockSize, e) ==> outcome.status == GOOD)
                ==> after[n].value.Disk() == FlatExecute(n, lu.Disk(), lu.blockSize, e))
  {
    LunKept(n, luns, e);
    var k := Selected(luns, e.cmd.lun);
    if k == Some(n) {
      var done := DispatchDisk(luns[n].value, e.cmd.cdb, e.data);
      if done == |e.data| {
        assert e.data[..done] == e.data;
      }
    }
  }

  lemma {:induction false} ReplayIsFlat(n: nat, luns: Luns, log: seq<Execution>)
    requires LunsOk(luns) && n < |luns| && luns[n].Some? && AllCompleted(n, luns, log)
    ensures var (lu, end) := (luns[n].value, ApplyAll(luns, log));
            && |end| == |luns| && end[n].Some?
            && end[n].value.master == lu.master && end[n].value.blockSize == lu.blockSize
            && end[n].value.Disk() == FlatReplay(n, lu.Disk(), lu.blockSize, log)
    decreases |log|
  {
    if log != [] {
      LunKept(n, luns, log[0]);
      ExecuteIsFlat(n, luns, log[0]);
      ReplayIsFlat(n, ExecuteSpec(luns, log[0].cmd, log[0].data).0, log[1..]);
    }
  }

  /** On a master without faults every write completes. */
  lemma {:induction false} FaultlessCompletes(n: nat, luns: Luns, log: seq<Execution>)
    requires LunsOk(luns) && n < |luns| && luns[n].Some? && luns[n].value.master.faulty == {}
    ensures AllCompleted(n, luns, log)
    decreases |log|
  {
    if log != [] {
      LunKept(n, luns, log[0]);
      ExecuteIsFlat(n, luns, log[0]);
      FaultlessCompletes(n, ExecuteSpec(luns, log[0].cmd, log[0].data).0, log[1..]);
    }
  }

  // ----- reading it back -----

  /** The bytes a burst of Data-In PDUs delivers. */
  function Delivered(outs: seq<Outbound>): seq<byte> {
    if outs == [] then [] else (if outs[0].DataIn? then outs[0].data else []) + Delivered(outs[1..])
  }

  /**
   * Data-In PDUs that tile `total` bytes from `offset` on: contiguous offsets, consecutive DataSN,
   * none over the limit, and only the last final and with status.
   */
  predicate Tiles(outs: seq<Outbound>, itt: u32, limit: nat, offset: nat, dataSn: nat, total: nat) {
    if outs == [] then offset == total
    else
      && outs[0].DataIn? && outs[0].itt == itt
      && outs[0].bufferOffset == offset && outs[0].dataSn == dataSn
      && 0 < |outs[0].data| <= limit
      && (outs[0].final <==> |outs| == 1) && (outs[0].hasStatus <==> |outs| == 1)
      && Tiles(outs[1..], itt, limit, offset + |outs[0].data|, dataSn + 1, total)
  }

  lemma {:induction false} ChunksTile(cmd: ScsiCommand, sn: Counters, seg: nat, data: seq<byte>, offset: nat, dataSn: nat)
    requires seg > 0 && offset <= |data| < U32_SPAN && dataSn <= offset
    ensures var outs := Chunks(cmd, sn, seg, data, offset, dataSn);
            && Tiles(outs, cmd.itt, seg, offset, dataSn, |data|) && Delivered(outs) == data[offset..]
            && (outs == [] <==> offset == |data|)
    decreases |data| - offset
  {
    if offset < |data| {
      var end := Min(offset + seg, |data|);
      ChunksTile(cmd, sn, seg, data, end, dataSn + 1);
      ChunkHead(cmd, sn, seg, data, offset, dataSn);
      ChunkThenRest(ChunkAt(cmd, sn, data, offset, end, dataSn), Chunks(cmd, sn, seg, data, end, dataSn + 1), cmd.itt, seg, data, offset, dataSn);
    }
  }

  function ChunkAt(cmd: ScsiCommand, sn: Counters, data: seq<byte>, offset: u32, end: nat, dataSn: u32): Outbound
    requires offset <= end <= |data|
  {
    DataIn(end == |data|, end == |data|, cmd.lun, cmd.itt, sn, dataSn, offset, data[offset..end])
  }

  lemma ChunkHead(cmd: ScsiCommand, sn: Counters, seg: nat, data: seq<byte>, offset: nat, dataSn: nat)
    requires seg > 0 && offset < |data| < U32_SPAN && dataSn <= offset
    ensures var end := Min(offset + seg, |data|);
            Chunks(cmd, sn, seg, data, offset, dataSn)
            == [ChunkAt(cmd, sn, data, offset, end, dataSn)] + Chunks(cmd, sn, seg, data, end, dataSn + 1)
  {
  }

  /** One Data-In PDU in front of PDUs that tile the rest. */
  lemma ChunkThenRest(first: Outbound, rest: seq<Outbound>, itt: u32, seg: nat, data: seq<byte>, offset: nat, dataSn: nat)
    requires first.DataIn? && first.itt == itt && first.bufferOffset == offset && first.dataSn == dataSn
    requires 0 < |first.data| <= seg && offset + |first.data| <= |data| && first.data == data[offset..offset + |first.data|]
    requires (first.final <==> rest == []) && (first.hasStatus <==> rest == [])
    requires Tiles(rest, itt, seg, offset + |first.data|, dataSn + 1, |data|) && Delivered(rest) == data[offset + |first.data|..]
    ensures Tiles([first] + rest, itt, seg, offset, dataSn, |data|) && Delivered([first] + rest) == data[offset..]
  {
    assert ([first] + rest)[1..] == rest;
  }

  /** Every Data-In PDU's data fits the 24-bit length field it is framed with. */
  predicate AllFit(outs: seq<Outbound>) {
    outs == [] || ((outs[0].DataIn? ==> |outs[0].data| < LENGTH_SPAN) && AllFit(outs[1..]))
  }

  lemma {:induction false} ShortChunksFit(cmd: ScsiCommand, sn: Counters, seg: nat, data: seq<byte>, offset: nat, dataSn: nat)
    requires seg > 0 && offset <= |data| && Min(seg, |data| - offset) < LENGTH_SPAN
    ensures AllFit(Chunks(cmd, sn, seg, data, offset, dataSn))
    decreases |data| - offset
  {
    if offset < |data| {
      var end := Min(offset + seg, |data|);
      var outs := Chunks(cmd, sn, seg, data, offset, dataSn);
      assert outs[1..] == Chunks(cmd, sn, seg, data, end, dataSn + 1);
      ShortChunksFit(cmd, sn, seg, data, end, dataSn + 1);
    }
  }

  /** The PDUs of a non-empty READ all fit exactly when the shorter of segment limit and data is under 2^24 bytes. */
  lemma ChunksFitIff(cmd: ScsiCommand, sn: Counters, seg: nat, data: seq<byte>)
    requires seg > 0 && data != []
    ensures AllFit(Chunks(cmd, sn, seg, data, 0, 0)) <==> Min(seg, |data|) < LENGTH_SPAN
  {
    if Min(seg, |data|) < LENGTH_SPAN {
      ShortChunksFit(cmd, sn, seg, data, 0, 0);
    } else {
      assert |Chunks(cmd, sn, seg, data, 0, 0)[0].data| == Min(seg, |data|);
    }
  }

  /** The initiator's limit is accepted as it stands, 2^24 and beyond included. */
  lemma AnyLimitAccepted(p: Params, n: u32)
    ensures Negotiate(p, Pair("MaxRecvDataSegmentLength", DecimalOf(n))) == p.(maxRecv := n)
  {
    DecimalRoundTrip(n, U32_SPAN - 1);
  }

  /** A READ of LUN `n`: of at least one block, in range, with the read flag and not the write flag. */
  predicate Reads(n: nat, lu: LogicalUnit, cmd: ScsiCommand)
    requires lu.blockSize > 0
  {
    && cmd.read && !cmd.write && LunNumber(cmd.lun) == Some(n)
    && match TransferOf(cmd.cdb)
       case ReadBlocks(lba, blocks) =>
         blocks > 0 && InRange(|lu.master.bytes|, lu.blockSize, lba, blocks) && blocks * lu.blockSize < U32_SPAN
       case _ => false
  }

  /** The byte range a transfer command addresses. */
  function ByteRange(cdb: Cdb, blockSize: u32): (nat, nat) {
    match TransferOf(cdb)
    case ReadBlocks(lba, blocks) => (ByteCount(lba, blockSize), ByteCount(blocks, blockSize))
    case WriteBlocks(lba, blocks) => (ByteCount(lba, blockSize), ByteCount(blocks, blockSize))
    case NoTransfer => (0, 0)
  }

  /**
   * `outs` delivers the range of `disk` as tiling Data-In PDUs, which fit their length fields exactly
   * when the limit or the range keeps them short, or reports that the master failed.
   */
  predicate Answers(outs: seq<Outbound>, itt: u32, limit: nat, disk: seq<byte>, range: (nat, nat), faultless: bool) {
    && range.0 + range.1 <= |disk|
    && ((Tiles(outs, itt, limit, 0, 0, range.1) && Delivered(outs) == disk[range.0..range.0 + range.1]
         && (AllFit(outs) <==> Min(limit, range.1) < LENGTH_SPAN))
        || (!faultless && |outs| == 1 && outs[0].ScsiResp? && outs[0].status == CHECK_CONDITION))
  }

  lemma ReadOutcome(luns: Luns, n: nat, cmd: ScsiCommand)
    requires LunsOk(luns) && n < |luns| && luns[n].Some? && Reads(n, luns[n].value, cmd)
    ensures var (lu, outcome) := (luns[n].value, ExecuteSpec(luns, cmd, cmd.data).1);
            var (off, len) := ByteRange(cmd.cdb, lu.blockSize);
            && 0 < len < U32_SPAN && off + len <= |lu.Disk()|
            && (outcome == Good(lu.Disk()[off..off + len]) || (lu.master.faulty != {} && outcome.status == CHECK_CONDITION))
  {
    DispatchRead(luns[n].value, cmd.cdb, cmd.data);
    MulAtLeast(TransferOf(cmd.cdb).blocks, luns[n].value.blockSize);
  }

  /** A READ sends the disk's bytes as tiling Data-In PDUs, or a single failure response. */
  lemma ReadTiles(s: State, n: nat, cmd: ScsiCommand, bhs: HeaderBytes)
    requires StateOk(s) && s.target.Some? && n < |s.target.value.luns| && s.target.value.luns[n].Some?
    requires Reads(n, s.target.value.luns[n].value, cmd)
    ensures var lu := s.target.value.luns[n].value;
            Answers(ScsiCommandSpec(s, cmd, bhs).1, cmd.itt, SegmentLimit(s.params), lu.Disk(),
                    ByteRange(cmd.cdb, lu.blockSize), lu.master.faulty == {})
  {
    ReadOutcome(s.target.value.luns, n, cmd);
    var lu, outcome := s.target.value.luns[n].value, ExecuteSpec(s.target.value.luns, cmd, cmd.data).1;
    var sn, outs := ReadReply(s, cmd, bhs, outcome);
    if outcome.status == GOOD {
      AnswersWith(cmd, sn, SegmentLimit(s.params), lu.Disk(), ByteRange(cmd.cdb, lu.blockSize), lu.master.faulty == {});
    }
  }

  /** A command with the read flag replies in Data-In PDUs if it has data, else in one response. */
  lemma ReadReply(s: State, cmd: ScsiCommand, bhs: HeaderBytes, outcome: Outcome) returns (sn: Counters, outs: seq<Outbound>)
    requires StateOk(s) && s.target.Some? && cmd.read && !cmd.write
    requires outcome == ExecuteSpec(s.target.value.luns, cmd, cmd.data).1
    ensures outs == ScsiCommandSpec(s, cmd, bhs).1
    ensures outcome.status == GOOD && outcome.data != [] ==> outs == Chunks(cmd, sn, SegmentLimit(s.params), outcome.data, 0, 0)
    ensures outcome.status != GOOD ==> |outs| == 1 && outs[0].ScsiResp? && outs[0].status == outcome.status
  {
    sn := CountersOf(s.(expCmdSn := Wrap32(s.expCmdSn + 1)));
    outs := ScsiCommandSpec(s, cmd, bhs).1;
  }

  lemma AnswersWith(cmd: ScsiCommand, sn: Counters, seg: nat, disk: seq<byte>, range: (nat, nat), faultless: bool)
    requires seg > 0 && range.0 + range.1 <= |disk| && 0 < range.1 < U32_SPAN
    ensures Answers(Chunks(cmd, sn, seg, disk[range.0..range.0 + range.1], 0, 0), cmd.itt, seg, disk, range, faultless)
  {
    var data := disk[range.0..range.0 + range.1];
    ChunksTile(cmd, sn, seg, data, 0, 0);
    ChunksFitIff(cmd, sn, seg, data);
    assert data[0..] == data;
  }

  /**
   * End to end: after any run in which every executed write to LUN `n` completed (always so on a
   * master without faults), a READ delivers, tiled over Data-In PDUs, exactly the bytes of the flat
   * disk that those writes leave. Rejected, unaddressed and out-of-range commands leave it unchanged.
   */
  lemma ReadAfterRun(reg: Registry, s: State, inputs: seq<Input>, n: nat, cmd: ScsiCommand, bhs: HeaderBytes)
    requires RegistryOk(reg) && WellFormed(s) && s.target.Some?
    requires n < |s.target.value.luns| && s.target.value.luns[n].Some? && Reads(n, s.target.value.luns[n].value, cmd)
    requires s.target.value.luns[n].value.master.faulty == {} || AllCompleted(n, s.target.value.luns, Log(reg, s, inputs))
    requires Run(reg, s, inputs).0.stage.FullFeature?
    ensures var (lu, t) := (s.target.value.luns[n].value, Run(reg, s, inputs).0);
            && WellFormed(t)
            && Answers(Handle(reg, t, Command(cmd), bhs).1, cmd.itt, SegmentLimit(t.params),
                       FlatReplay(n, lu.Disk(), lu.blockSize, Log(reg, s, inputs)),
                       ByteRange(cmd.cdb, lu.blockSize), lu.master.faulty == {})
  {
    var luns, log, t := s.target.value.luns, Log(reg, s, inputs), Run(reg, s, inputs).0;
    StageSafety(reg, s, inputs);
    RunApplies(reg, s, inputs);
    if luns[n].value.master.faulty == {} {
      FaultlessCompletes(n, luns, log);
    }
    ReplayIsFlat(n, luns, log);
    ReadTiles(t, n, cmd, bhs);
  }
}
