/**
 * Writing through a session and reading back: the disk a READ delivers is the one the initiator's own
 * writes leave, in the order in which they complete (iscsi/session/mod.rs:325-428, iscsi/scsi/mod.rs).
 */
module ReadBack {
  import opened Bytes
  import opened Wrappers
  import opened Pdu
  import opened Scsi
  import opened Session
  import opened SessionRuns
  import opened Executions
  import opened WriteAssembly

  /** What an action asks the target to do now, from the initiator's bookkeeping alone. */
  function Asks(ini: Outstanding, a: Action): seq<Execution>
    requires Disciplined(ini, a)
  {
    match Completes(ini, a)
    case Some(w) => [Execution(w.cmd, w.payload)]
    case None => if a.Other? && a.req.Command? then [Execution(a.req.cmd, a.req.cmd.data)] else []
  }

  /** Everything asked for: each write when its last byte goes out, with its payload, and every other command at once. */
  function Asked(ini: Outstanding, turns: seq<Turn>): seq<Execution>
    requires AllDisciplined(ini, turns)
    decreases |turns|
  {
    if turns == [] then [] else Asks(ini, turns[0].a) + Asked(After(ini, turns[0].a), turns[1..])
  }

  /** The writes alone, in the order in which they complete. */
  function Completed(ini: Outstanding, turns: seq<Turn>): seq<Execution>
    requires AllDisciplined(ini, turns)
    decreases |turns|
  {
    if turns == [] then []
    else
      (if Completes(ini, turns[0].a).Some? then Asks(ini, turns[0].a) else [])
      + Completed(After(ini, turns[0].a), turns[1..])
  }

  lemma OtherExecutes(s: State, req: Request)
    requires s.stage.FullFeature? && s.target.Some? && !req.Data? && (req.Command? ==> !req.cmd.write)
    ensures ExecutedBy(s, req) == if req.Command? then Some(Execution(req.cmd, req.cmd.data)) else None
  {
  }

  lemma StepAsks(reg: Registry, s: State, ini: Outstanding, a: Action, bhs: HeaderBytes)
    requires RegistryOk(reg) && InStep(s, ini) && Disciplined(ini, a)
    ensures var e := ExecutedBy(s, RequestOf(a));
            Asks(ini, a) == if e.Some? then [e.value] else []
  {
    StepAssembles(reg, s, ini, a, bhs);
    if a.Other? {
      OtherExecutes(s, a.req);
    }
  }

  /** What the session executes over a run is exactly what the initiator asked for, in that order. */
  lemma {:induction false} LogIsAsked(reg: Registry, s: State, ini: Outstanding, turns: seq<Turn>)
    requires RegistryOk(reg) && InStep(s, ini) && AllDisciplined(ini, turns)
    ensures Log(reg, s, InputsOf(turns)) == Asked(ini, turns)
    decreases |turns|
  {
    if turns != [] {
      var a, bhs := turns[0].a, turns[0].bhs;
      StepAssembles(reg, s, ini, a, bhs);
      StepAsks(reg, s, ini, a, bhs);
      InputsOfNext(turns);
      LogIsAsked(reg, Handle(reg, s, RequestOf(a), bhs).0, After(ini, a), turns[1..]);
    }
  }

  /** No command without the write flag carries a WRITE CDB: the target looks at the CDB, not at the flag. */
  predicate FlagsHonest(turns: seq<Turn>) {
    turns == [] ||
    (var a := turns[0].a;
     (a.Other? && a.req.Command? ==> !TransferOf(a.req.cmd.cdb).WriteBlocks?) && FlagsHonest(turns[1..]))
  }

  /** A WRITE CDB without the write flag is executed with its immediate data: the LUN's blocks change. */
  lemma FlaglessWrites(reg: Registry, s: State, n: nat, cmd: ScsiCommand, bhs: HeaderBytes)
    requires RegistryOk(reg) && WellFormed(s) && s.stage.FullFeature? && s.target.Some? && !cmd.write
    requires n < |s.target.value.luns| && s.target.value.luns[n].Some? && s.target.value.luns[n].value.master.faulty == {}
    requires var lu := s.target.value.luns[n].value;
             LunNumber(cmd.lun) == Some(n) && Replaces(|lu.master.bytes|, lu.blockSize, cmd.cdb, cmd.data)
    ensures var (lu, t) := (s.target.value.luns[n].value, Handle(reg, s, Command(cmd), bhs).0);
            && t.target.Some? && n < |t.target.value.luns| && t.target.value.luns[n].Some? && t.target.value.luns[n].value.Valid()
            && ByteCount(TransferOf(cmd.cdb).lba, lu.blockSize) + |cmd.data| <= |lu.Disk()|
            && t.target.value.luns[n].value.Disk() == Patch(lu.Disk(), ByteCount(TransferOf(cmd.cdb).lba, lu.blockSize), cmd.data)
  {
    var luns, e := s.target.value.luns, Execution(cmd, cmd.data);
    OtherExecutes(s, Command(cmd));
    HandleApplies(reg, s, Command(cmd), bhs);
    ExecuteIsFlat(n, luns, e);
    FlatWrites(n, luns[n].value.Disk(), luns[n].value.blockSize, e);
  }

  lemma FlatWrites(n: nat, disk: seq<byte>, blockSize: u32, e: Execution)
    requires blockSize > 0 && WritesTo(n, |disk|, blockSize, e)
    ensures ByteCount(TransferOf(e.cmd.cdb).lba, blockSize) + |e.data| <= |disk|
    ensures FlatExecute(n, disk, blockSize, e) == Patch(disk, ByteCount(TransferOf(e.cmd.cdb).lba, blockSize), e.data)
  {
    InRangeBytes(|disk|, blockSize, TransferOf(e.cmd.cdb).lba, TransferOf(e.cmd.cdb).blocks);
  }

  lemma {:induction false} ReplayConcat(n: nat, disk: seq<byte>, blockSize: u32, a: seq<Execution>, b: seq<Execution>)
    requires blockSize > 0
    ensures FlatReplay(n, disk, blockSize, a + b) == FlatReplay(n, FlatReplay(n, disk, blockSize, a), blockSize, b)
    decreases |a|
  {
    if a == [] {
      assert a + b == b;
    } else {
      assert (a + b)[1..] == a[1..] + b;
      ReplayConcat(n, FlatExecute(n, disk, blockSize, a[0]), blockSize, a[1..], b);
    }
  }

  /** With honest flags only the writes move the disk. */
  lemma {:induction false} WritesDecide(n: nat, disk: seq<byte>, blockSize: u32, ini: Outstanding, turns: seq<Turn>)
    requires blockSize > 0 && AllDisciplined(ini, turns) && FlagsHonest(turns)
    ensures FlatReplay(n, disk, blockSize, Asked(ini, turns)) == FlatReplay(n, disk, blockSize, Completed(ini, turns))
    decreases |turns|
  {
    if turns != [] {
      var a, next := turns[0].a, After(ini, turns[0].a);
      var asked := Asks(ini, a);
      var after := FlatReplay(n, disk, blockSize, asked);
      ReplayConcat(n, disk, blockSize, asked, Asked(next, turns[1..]));
      WritesDecide(n, after, blockSize, next, turns[1..]);
      if Completes(ini, a).Some? {
        ReplayConcat(n, disk, blockSize, asked, Completed(next, turns[1..]));
      } else {
        NoWriteNoChange(n, disk, blockSize, asked);
        assert [] + Completed(next, turns[1..]) == Completed(next, turns[1..]);
      }
    }
  }

  lemma NoWriteNoChange(n: nat, disk: seq<byte>, blockSize: u32, asked: seq<Execution>)
    requires blockSize > 0 && |asked| <= 1
    requires asked != [] ==> !TransferOf(asked[0].cmd.cdb).WriteBlocks?
    ensures FlatReplay(n, disk, blockSize, asked) == disk
  {
  }

  /**
   * End to end, from the initiator's side: after any interleaving of its writes, a READ delivers the
   * flat disk on which the payloads were written one after the other in completion order.
   */
  lemma ReadsBack(reg: Registry, s: State, ini: Outstanding, turns: seq<Turn>, n: nat, cmd: ScsiCommand, bhs: HeaderBytes)
    requires RegistryOk(reg) && InStep(s, ini) && AllDisciplined(ini, turns) && s.target.Some?
    requires n < |s.target.value.luns| && s.target.value.luns[n].Some? && Reads(n, s.target.value.luns[n].value, cmd)
    requires s.target.value.luns[n].value.master.faulty == {} || AllCompleted(n, s.target.value.luns, Asked(ini, turns))
    ensures var (lu, t) := (s.target.value.luns[n].value, Run(reg, s, InputsOf(turns)).0);
            && InStep(t, AfterAll(ini, turns))
            && Answers(Handle(reg, t, Command(cmd), bhs).1, cmd.itt, SegmentLimit(t.params),
                       FlatReplay(n, lu.Disk(), lu.blockSize, Asked(ini, turns)),
                       ByteRange(cmd.cdb, lu.blockSize), lu.master.faulty == {})
            && (FlagsHonest(turns) ==>
                  FlatReplay(n, lu.Disk(), lu.blockSize, Asked(ini, turns)) == FlatReplay(n, lu.Disk(), lu.blockSize, Completed(ini, turns)))
  {
    RunAssembles(reg, s, ini, turns);
    LogIsAsked(reg, s, ini, turns);
    ReadAfterRun(reg, s, InputsOf(turns), n, cmd, bhs);
    if FlagsHonest(turns) {
      WritesDecide(n, s.target.value.luns[n].value.Disk(), s.target.value.luns[n].value.blockSize, ini, turns);
    }
  }
}
