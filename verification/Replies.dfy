/**
 * The reply to a command against what the command has done (iscsi/session/mod.rs:214-285 and
 * 402-428): a status the initiator sees is the truth about the disk, on every run.
 */
module Replies {
  import opened Bytes
  import opened Wrappers
  import opened Pdu
  import opened Scsi
  import opened Session
  import opened SessionRuns
  import opened Executions
  import opened WriteAssembly
  import opened ReadBack
  import opened Cdbs

  /** One SCSI response with this status, sense data and residual count. */
  predicate Responds(outs: seq<Outbound>, itt: u32, status: byte, sense: seq<byte>, residual: nat) {
    && |outs| == 1 && outs[0].ScsiResp? && outs[0].itt == itt
    && outs[0].status == status && outs[0].sense == sense && outs[0].residual == residual
  }

  /** Data-In PDUs of one command: every one is full but the last, which alone is final and carries the status. */
  predicate Segments(outs: seq<Outbound>, cmd: ScsiCommand, limit: nat) {
    && outs != []
    && outs[0].DataIn? && outs[0].itt == cmd.itt && outs[0].lun == cmd.lun && 0 < |outs[0].data| <= limit
    && (outs[0].final <==> |outs| == 1) && (outs[0].hasStatus <==> |outs| == 1)
    && (|outs| > 1 ==> |outs[0].data| == limit && Segments(outs[1..], cmd, limit))
  }

  lemma {:induction false} ChunksSegment(cmd: ScsiCommand, sn: Counters, seg: nat, data: seq<byte>, offset: nat, dataSn: nat)
    requires seg > 0 && offset < |data|
    ensures var outs := Chunks(cmd, sn, seg, data, offset, dataSn);
            Segments(outs, cmd, seg) && Delivered(outs) == data[offset..]
    decreases |data| - offset
  {
    var end := Min(offset + seg, |data|);
    var outs, rest := Chunks(cmd, sn, seg, data, offset, dataSn), Chunks(cmd, sn, seg, data, end, dataSn + 1);
    assert outs[1..] == rest;
    if end < |data| {
      ChunksSegment(cmd, sn, seg, data, end, dataSn + 1);
      assert data[offset..end] + data[end..] == data[offset..];
    } else {
      assert data[offset..end] == data[offset..];
    }
  }

  /** What of the expected length was not transferred; the transferred length is taken modulo 2^32. */
  function Shortfall(expected: u32, sent: nat): nat {
    var low := sent % 0x1_0000_0000;
    if low < expected then expected - low else 0
  }

  /** The PDUs tell exactly the outcome: its data if the command reads and there is any, else status and sense. */
  predicate Tells(outs: seq<Outbound>, cmd: ScsiCommand, told: Outcome, maxRecv: u32) {
    if cmd.read && !cmd.write && told.status == 0x00 && told.data != []
    then Segments(outs, cmd, if maxRecv < 512 then 512 else maxRecv) && Delivered(outs) == told.data
    else Responds(outs, cmd.itt, told.status, told.sense, if cmd.write then 0 else Shortfall(cmd.edtl, |told.data|))
  }

  lemma CommandTells(s: State, cmd: ScsiCommand, bhs: HeaderBytes)
    requires StateOk(s) && s.target.Some? && !cmd.write
    ensures Tells(ScsiCommandSpec(s, cmd, bhs).1, cmd, ExecuteSpec(s.target.value.luns, cmd, cmd.data).1, s.params.maxRecv)
  {
    var told := ExecuteSpec(s.target.value.luns, cmd, cmd.data).1;
    if cmd.read && told.status == GOOD && told.data != [] {
      var sn, outs := ReadReply(s, cmd, bhs, told);
      ChunksSegment(cmd, sn, SegmentLimit(s.params), told.data, 0, 0);
      assert told.data[0..] == told.data;
    }
  }

  lemma FinishTells(s: State, p: PendingWrite)
    requires StateOk(s) && s.target.Some? && p.cmd.write
    ensures Tells(FinishWrite(s, p).1, p.cmd, ExecuteSpec(s.target.value.luns, p.cmd, p.buf).1, s.params.maxRecv)
  {
  }

  /** Whatever a request executes, at once or by completing a write, its reply tells the outcome. */
  lemma ReplyTells(reg: Registry, s: State, req: Request, bhs: HeaderBytes, e: Execution)
    requires RegistryOk(reg) && WellFormed(s) && s.stage.FullFeature? && ExecutedBy(s, req) == Some(e)
    ensures Tells(Handle(reg, s, req, bhs).1, e.cmd, ExecuteSpec(s.target.value.luns, e.cmd, e.data).1, s.params.maxRecv)
  {
    match req {
      case Command(cmd) =>
        if cmd.write {
          WholeData(cmd);
          FinishTells(s.(expCmdSn := Wrap32(s.expCmdSn + 1)), PendingWrite(cmd, cmd.data, |cmd.data|, 0));
        } else {
          CommandTells(s, cmd, bhs);
        }
      case Data(d) =>
        DataOutLast(s, d, bhs);
        FinishTells(s.(inFlight := s.inFlight - {d.itt}), Placed(s.inFlight[d.itt], d));
    }
  }

  // ----- acknowledged writes -----

  /** The single response to an executed WRITE tells the truth about the units before and after it. */
  ghost predicate Acknowledges(outs: seq<Outbound>, luns: Luns, after: Luns, w: Write)
    requires LunsOk(luns)
  {
    && |outs| == 1 && outs[0].ScsiResp? && outs[0].itt == w.cmd.itt && outs[0].residual == 0
    && forall form, lba, n | Fits(form, lba, n) && w.cmd.cdb == WriteCdb(form, lba, n) ::
         exists done :: WriteTold(luns, after, w.cmd.lun, lba, n, w.payload, outs[0].status, outs[0].sense, done)
  }

  lemma WriteAcknowledged(reg: Registry, s: State, req: Request, bhs: HeaderBytes, w: Write)
    requires RegistryOk(reg) && WellFormed(s) && s.stage.FullFeature? && w.cmd.write
    requires ExecutedBy(s, req) == Some(Execution(w.cmd, w.payload))
    ensures var (t, outs) := Handle(reg, s, req, bhs);
            t.target.Some? && Acknowledges(outs, s.target.value.luns, t.target.value.luns, w)
  {
    var luns, outs := s.target.value.luns, Handle(reg, s, req, bhs).1;
    ReplyTells(reg, s, req, bhs, Execution(w.cmd, w.payload));
    HandleApplies(reg, s, req, bhs);
    var (after, told) := ExecuteSpec(luns, w.cmd, w.payload);
    forall form, lba, n | Fits(form, lba, n) && w.cmd.cdb == WriteCdb(form, lba, n)
      ensures exists done :: WriteTold(luns, after, w.cmd.lun, lba, n, w.payload, outs[0].status, outs[0].sense, done)
    {
      var done := WriteOutcome(luns, w.cmd, form, lba, n, w.payload);
    }
  }

  /** Every write the run completes is acknowledged truthfully. */
  ghost predicate AllAcknowledged(reg: Registry, s: State, ini: Outstanding, turns: seq<Turn>)
    requires RegistryOk(reg) && WellFormed(s) && AllDisciplined(ini, turns)
    decreases |turns|
  {
    turns == [] ||
    (HandleKeepsOk(reg, s, RequestOf(turns[0].a), turns[0].bhs);
     var (t, outs) := Handle(reg, s, RequestOf(turns[0].a), turns[0].bhs);
     var w := Completes(ini, turns[0].a);
     && (w.Some? ==> s.target.Some? && t.target.Some? && Acknowledges(outs, s.target.value.luns, t.target.value.luns, w.value))
     && AllAcknowledged(reg, t, After(ini, turns[0].a), turns[1..]))
  }

  /**
   * Over every run and every interleaving of writes: a completed write is answered GOOD exactly if its
   * payload is on the disk then (or it asked for no block), and otherwise with the cause and with
   * exactly the part of it on the disk that the cause let through.
   */
  lemma {:induction false} RunAcknowledges(reg: Registry, s: State, ini: Outstanding, turns: seq<Turn>)
    requires RegistryOk(reg) && InStep(s, ini) && AllDisciplined(ini, turns)
    ensures AllAcknowledged(reg, s, ini, turns)
    decreases |turns|
  {
    if turns != [] {
      var a, bhs := turns[0].a, turns[0].bhs;
      StepAssembles(reg, s, ini, a, bhs);
      var w := Completes(ini, a);
      if w.Some? {
        WriteAcknowledged(reg, s, RequestOf(a), bhs, w.value);
      }
      RunAcknowledges(reg, Handle(reg, s, RequestOf(a), bhs).0, After(ini, a), turns[1..]);
    }
  }

  // ----- what the initiator may conclude -----

  /** Every response to a completed write said GOOD: what the initiator has seen. */
  ghost predicate SeenGood(reg: Registry, s: State, ini: Outstanding, turns: seq<Turn>)
    requires RegistryOk(reg) && WellFormed(s) && AllDisciplined(ini, turns)
    decreases |turns|
  {
    turns == [] ||
    (HandleKeepsOk(reg, s, RequestOf(turns[0].a), turns[0].bhs);
     var (t, outs) := Handle(reg, s, RequestOf(turns[0].a), turns[0].bhs);
     && (Completes(ini, turns[0].a).Some? ==> outs != [] && outs[0].ScsiResp? && outs[0].status == 0x00)
     && SeenGood(reg, t, After(ini, turns[0].a), turns[1..]))
  }

  lemma CompletedHead(n: nat, luns: Luns, e: Execution, rest: seq<Execution>)
    requires LunsOk(luns) && n < |luns| && luns[n].Some?
    requires WritesTo(n, |luns[n].value.master.bytes|, luns[n].value.blockSize, e) ==> ExecuteSpec(luns, e.cmd, e.data).1.status == GOOD
    requires LunsOk(Apply(luns, Some(e))) && n < |Apply(luns, Some(e))| && Apply(luns, Some(e))[n].Some?
    requires AllCompleted(n, Apply(luns, Some(e)), rest)
    ensures AllCompleted(n, luns, [e] + rest)
  {
    assert ([e] + rest)[1..] == rest;
  }

  /** If no command hides a WRITE behind a missing flag, GOOD responses mean that every write took full effect. */
  lemma {:induction false} GoodMeansCompleted(reg: Registry, s: State, ini: Outstanding, turns: seq<Turn>, n: nat)
    requires RegistryOk(reg) && InStep(s, ini) && AllDisciplined(ini, turns) && FlagsHonest(turns)
    requires s.target.Some? && n < |s.target.value.luns| && s.target.value.luns[n].Some?
    requires SeenGood(reg, s, ini, turns)
    ensures AllCompleted(n, s.target.value.luns, Asked(ini, turns))
    decreases |turns|
  {
    if turns != [] {
      var a, bhs := turns[0].a, turns[0].bhs;
      var luns, t := s.target.value.luns, Handle(reg, s, RequestOf(a), bhs).0;
      var e := ExecutedBy(s, RequestOf(a));
      StepAssembles(reg, s, ini, a, bhs);
      StepAsks(reg, s, ini, a, bhs);
      HandleApplies(reg, s, RequestOf(a), bhs);
      if e.Some? {
        LunKept(n, luns, e.value);
      }
      GoodMeansCompleted(reg, t, After(ini, a), turns[1..], n);
      if e.Some? {
        ReplyTells(reg, s, RequestOf(a), bhs, e.value);
        CompletedHead(n, luns, e.value, Asked(After(ini, a), turns[1..]));
      } else {
        assert [] + Asked(After(ini, a), turns[1..]) == Asked(After(ini, a), turns[1..]);
      }
    }
  }

  /**
   * An initiator that has seen only GOOD for its writes reads back exactly them, in completion order,
   * whatever the master's faults; only the READ itself can still meet one.
   */
  lemma SeenGoodReadsBack(reg: Registry, s: State, ini: Outstanding, turns: seq<Turn>, n: nat, cmd: ScsiCommand, bhs: HeaderBytes)
    requires RegistryOk(reg) && InStep(s, ini) && AllDisciplined(ini, turns) && FlagsHonest(turns)
    requires s.target.Some? && n < |s.target.value.luns| && s.target.value.luns[n].Some? && Reads(n, s.target.value.luns[n].value, cmd)
    requires SeenGood(reg, s, ini, turns)
    ensures var (lu, t) := (s.target.value.luns[n].value, Run(reg, s, InputsOf(turns)).0);
            && InStep(t, AfterAll(ini, turns))
            && Answers(Handle(reg, t, Command(cmd), bhs).1, cmd.itt, SegmentLimit(t.params),
                       FlatReplay(n, lu.Disk(), lu.blockSize, Completed(ini, turns)),
                       ByteRange(cmd.cdb, lu.blockSize), lu.master.faulty == {})
  {
    GoodMeansCompleted(reg, s, ini, turns, n);
    ReadsBack(reg, s, ini, turns, n, cmd, bhs);
  }
}
