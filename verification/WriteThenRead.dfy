/**
 * What was written to blocks is read from the same blocks: WRITE(10) or (16), then READ(10) or (16),
 * as an initiator lays them out (iscsi/scsi/cdb.rs, iscsi/session/mod.rs:214-428).
 */
module WriteThenRead {
  import opened Bytes
  import opened Wrappers
  import opened Pdu
  import opened Scsi
  import opened Session
  import opened SessionRuns
  import opened Executions
  import opened WriteAssembly
  import opened ReadBack
  import opened Cdbs
  import opened Replies
  import opened Logins

  /** The execution writes none of the `n` blocks from `lba` on of LUN `k`. */
  ghost predicate Elsewhere(e: Execution, k: nat, lba: u64, n: u32) {
    LunNumber(e.cmd.lun) == Some(k) ==>
      forall form, l: u64, m: u32 | Fits(form, l, m) && e.cmd.cdb == WriteCdb(form, l, m) :: l + m <= lba || lba + n <= l
  }

  ghost predicate AllElsewhere(log: seq<Execution>, k: nat, lba: u64, n: u32) {
    log == [] || (Elsewhere(log[0], k, lba, n) && AllElsewhere(log[1..], k, lba, n))
  }

  /** Blocks apart are bytes apart. */
  lemma Apart(a: nat, n: nat, b: nat, size: nat)
    requires a + n <= b
    ensures a * size + n * size <= b * size
  {
    MulMono(a + n, b, size);
    Distribute(a, n, size);
  }

  lemma ElsewhereKeeps(k: nat, disk: seq<byte>, blockSize: u32, e: Execution, lba: u64, n: u32)
    requires blockSize > 0 && Elsewhere(e, k, lba, n) && ByteCount(lba, blockSize) + ByteCount(n, blockSize) <= |disk|
    ensures var (off, len) := (ByteCount(lba, blockSize), ByteCount(n, blockSize));
            FlatExecute(k, disk, blockSize, e)[off..off + len] == disk[off..off + len]
  {
    if WritesTo(k, |disk|, blockSize, e) {
      var t := TransferOf(e.cmd.cdb);
      TransferIff(e.cmd.cdb, t.lba, t.blocks);
      FlatWrites(k, disk, blockSize, e);
      if t.lba + t.blocks <= lba {
        Apart(t.lba, t.blocks, lba, blockSize);
      } else {
        Apart(lba, n, t.lba, blockSize);
      }
    }
  }

  lemma {:induction false} ReplayKeeps(k: nat, disk: seq<byte>, blockSize: u32, log: seq<Execution>, lba: u64, n: u32)
    requires blockSize > 0 && AllElsewhere(log, k, lba, n) && ByteCount(lba, blockSize) + ByteCount(n, blockSize) <= |disk|
    ensures var (off, len) := (ByteCount(lba, blockSize), ByteCount(n, blockSize));
            FlatReplay(k, disk, blockSize, log)[off..off + len] == disk[off..off + len]
    decreases |log|
  {
    if log != [] {
      ElsewhereKeeps(k, disk, blockSize, log[0], lba, n);
      ReplayKeeps(k, FlatExecute(k, disk, blockSize, log[0]), blockSize, log[1..], lba, n);
    }
  }

  /** The execution is a WRITE of exactly the `n` blocks from `lba` on of LUN `k`, in either form. */
  predicate Writes(e: Execution, form: Form, k: nat, lba: u64, n: u32, blockSize: u32) {
    && LunNumber(e.cmd.lun) == Some(k) && Fits(form, lba, n) && e.cmd.cdb == WriteCdb(form, lba, n)
    && n > 0 && |e.data| == ByteCount(n, blockSize)
  }

  /** The command is a READ of exactly the `n` blocks from `lba` on of LUN `k`, in either form. */
  predicate ReadsBlocks(cmd: ScsiCommand, form: Form, k: nat, lba: u64, n: u32) {
    cmd.read && !cmd.write && LunNumber(cmd.lun) == Some(k) && Fits(form, lba, n) && cmd.cdb == ReadCdb(form, lba, n)
  }

  lemma WriteHolds(k: nat, disk: seq<byte>, blockSize: u32, e: Execution, form: Form, lba: u64, n: u32)
    requires blockSize > 0 && |disk| < U64_SPAN && (lba + n) * blockSize <= |disk| && Writes(e, form, k, lba, n, blockSize)
    ensures var (off, len) := (ByteCount(lba, blockSize), ByteCount(n, blockSize));
            off + len <= |disk| && FlatExecute(k, disk, blockSize, e)[off..off + len] == e.data
  {
    WriteCdbWrites(form, lba, n);
    InRangeIff(|disk|, blockSize, lba, n);
    Distribute(lba, n, blockSize);
    FlatWrites(k, disk, blockSize, e);
  }

  lemma ReplayOne(k: nat, disk: seq<byte>, blockSize: u32, before: seq<Execution>, e: Execution, after: seq<Execution>)
    requires blockSize > 0
    ensures FlatReplay(k, disk, blockSize, before + [e] + after)
         == FlatReplay(k, FlatExecute(k, FlatReplay(k, disk, blockSize, before), blockSize, e), blockSize, after)
  {
    assert before + [e] + after == before + ([e] + after);
    ReplayConcat(k, disk, blockSize, before, [e] + after);
    assert ([e] + after)[1..] == after;
  }

  /** On the flat disk: the range holds what was last written to it. */
  lemma ReplayHolds(k: nat, disk: seq<byte>, blockSize: u32, before: seq<Execution>, e: Execution, after: seq<Execution>,
                    form: Form, lba: u64, n: u32)
    requires blockSize > 0 && |disk| < U64_SPAN && (lba + n) * blockSize <= |disk|
    requires Writes(e, form, k, lba, n, blockSize) && AllElsewhere(after, k, lba, n)
    ensures var (off, len) := (ByteCount(lba, blockSize), ByteCount(n, blockSize));
            off + len <= |disk| && FlatReplay(k, disk, blockSize, before + [e] + after)[off..off + len] == e.data
  {
    var mid := FlatReplay(k, disk, blockSize, before);
    ReplayOne(k, disk, blockSize, before, e, after);
    WriteHolds(k, mid, blockSize, e, form, lba, n);
    ReplayKeeps(k, FlatExecute(k, mid, blockSize, e), blockSize, after, lba, n);
  }

  /** The PDUs deliver exactly `data`, or say that the master failed under the READ. */
  predicate Fetches(outs: seq<Outbound>, itt: u32, limit: nat, data: seq<byte>, faultless: bool) {
    || (Tiles(outs, itt, limit, 0, 0, |data|) && Delivered(outs) == data)
    || (!faultless && |outs| == 1 && outs[0].ScsiResp? && outs[0].status == 0x02)
  }

  /** A READ of the range on the flat disk fetches what was last written to it. */
  lemma AnswersFetch(outs: seq<Outbound>, itt: u32, limit: nat, faultless: bool, k: nat, disk: seq<byte>, blockSize: u32,
                     log: seq<Execution>, before: seq<Execution>, e: Execution, after: seq<Execution>, form: Form, lba: u64, n: u32)
    requires blockSize > 0 && |disk| < U64_SPAN && (lba + n) * blockSize <= |disk| && log == before + [e] + after
    requires Writes(e, form, k, lba, n, blockSize) && AllElsewhere(after, k, lba, n)
    requires Answers(outs, itt, limit, FlatReplay(k, disk, blockSize, log), (ByteCount(lba, blockSize), ByteCount(n, blockSize)), faultless)
    ensures Fetches(outs, itt, limit, e.data, faultless)
  {
    ReplayHolds(k, disk, blockSize, before, e, after, form, lba, n);
  }

  /** The master has no fault, or the initiator has seen only GOOD for its writes and hid none behind a missing flag. */
  ghost predicate Trusted(reg: Registry, s: State, ini: Outstanding, turns: seq<Turn>, lu: LogicalUnit)
    requires RegistryOk(reg) && WellFormed(s) && AllDisciplined(ini, turns)
  {
    lu.master.faulty == {} || (FlagsHonest(turns) && SeenGood(reg, s, ini, turns))
  }

  lemma TrustedReadsBack(reg: Registry, s: State, ini: Outstanding, turns: seq<Turn>, n: nat, cmd: ScsiCommand, bhs: HeaderBytes)
    requires RegistryOk(reg) && InStep(s, ini) && AllDisciplined(ini, turns) && s.target.Some?
    requires n < |s.target.value.luns| && s.target.value.luns[n].Some? && Reads(n, s.target.value.luns[n].value, cmd)
    requires Trusted(reg, s, ini, turns, s.target.value.luns[n].value)
    ensures var (lu, t) := (s.target.value.luns[n].value, Run(reg, s, InputsOf(turns)).0);
            && InStep(t, AfterAll(ini, turns))
            && Answers(Handle(reg, t, Command(cmd), bhs).1, cmd.itt, SegmentLimit(t.params),
                       FlatReplay(n, lu.Disk(), lu.blockSize, Asked(ini, turns)),
                       ByteRange(cmd.cdb, lu.blockSize), lu.master.faulty == {})
  {
    if s.target.value.luns[n].value.master.faulty != {} {
      GoodMeansCompleted(reg, s, ini, turns, n);
    }
    ReadsBack(reg, s, ini, turns, n, cmd, bhs);
  }

  lemma ReadsFits(cmd: ScsiCommand, form: Form, k: nat, lba: u64, n: u32, lu: LogicalUnit)
    requires lu.Valid() && ReadsBlocks(cmd, form, k, lba, n) && n > 0
    requires (lba + n) * lu.blockSize <= |lu.Disk()| && ByteCount(n, lu.blockSize) < U32_SPAN
    ensures Reads(k, lu, cmd)
    ensures ByteRange(cmd.cdb, lu.blockSize) == (ByteCount(lba, lu.blockSize), ByteCount(n, lu.blockSize))
  {
    ReadCdbReads(form, lba, n);
    InRangeIff(|lu.master.bytes|, lu.blockSize, lba, n);
  }

  /**
   * End to end: blocks written by WRITE(10) or WRITE(16) are read back, byte for byte, by READ(10) or
   * READ(16) of the same blocks, in every mix of forms, whatever else the initiator did meanwhile, if
   * nothing was written to them afterwards and either the master has no fault or only GOOD was seen.
   */
  lemma WrittenIsRead(reg: Registry, s: State, ini: Outstanding, turns: seq<Turn>,
                      before: seq<Execution>, e: Execution, after: seq<Execution>, wf: Form, rf: Form,
                      k: nat, lba: u64, n: u32, cmd: ScsiCommand, bhs: HeaderBytes)
    requires RegistryOk(reg) && InStep(s, ini) && AllDisciplined(ini, turns)
    requires s.target.Some? && k < |s.target.value.luns| && s.target.value.luns[k].Some?
    requires var lu := s.target.value.luns[k].value;
             && (lba + n) * lu.blockSize <= |lu.Disk()| && Writes(e, wf, k, lba, n, lu.blockSize) && |e.data| < U32_SPAN
             && Trusted(reg, s, ini, turns, lu)
    requires Asked(ini, turns) == before + [e] + after && AllElsewhere(after, k, lba, n)
    requires ReadsBlocks(cmd, rf, k, lba, n)
    ensures var t := Run(reg, s, InputsOf(turns)).0;
            && InStep(t, AfterAll(ini, turns))
            && Fetches(Handle(reg, t, Command(cmd), bhs).1, cmd.itt, SegmentLimit(t.params), e.data,
                       s.target.value.luns[k].value.master.faulty == {})
  {
    var lu, t := s.target.value.luns[k].value, Run(reg, s, InputsOf(turns)).0;
    ReadsFits(cmd, rf, k, lba, n, lu);
    TrustedReadsBack(reg, s, ini, turns, k, cmd, bhs);
    AnswersFetch(Handle(reg, t, Command(cmd), bhs).1, cmd.itt, SegmentLimit(t.params), lu.master.faulty == {},
                 k, lu.Disk(), lu.blockSize, Asked(ini, turns), before, e, after, wf, lba, n);
  }

  /**
   * From the first login PDU on: log in to a target by name in the usual two steps, write to its blocks
   * among anything else, and READ fetches what was written.
   */
  lemma LoginWriteRead(reg: Registry, a: Input, b: Input, name: string, s: State, turns: seq<Turn>,
                       before: seq<Execution>, e: Execution, after: seq<Execution>, wf: Form, rf: Form,
                       k: nat, lba: u64, n: u32, cmd: ScsiCommand, bhs: HeaderBytes)
    requires RegistryOk(reg) && a.req.Login? && b.req.Login? && TwoSteps(a.req.login, b.req.login)
    requires name in reg.targets && NamedInTwo(a.req.login, b.req.login, name) && WellFormed(INITIAL)
    requires s == Run(reg, INITIAL, [a, b]).0 && WellFormed(s) && AllDisciplined(map[], turns)
    requires k < |reg.targets[name]| && reg.targets[name][k].Some?
    requires var lu := reg.targets[name][k].value;
             && (lba + n) * lu.blockSize <= |lu.Disk()| && Writes(e, wf, k, lba, n, lu.blockSize) && |e.data| < U32_SPAN
             && Trusted(reg, s, map[], turns, lu)
    requires Asked(map[], turns) == before + [e] + after && AllElsewhere(after, k, lba, n)
    requires ReadsBlocks(cmd, rf, k, lba, n)
    ensures var t := Run(reg, INITIAL, [a, b] + InputsOf(turns)).0;
            && WellFormed(t) && t.stage.FullFeature?
            && Fetches(Handle(reg, t, Command(cmd), bhs).1, cmd.itt, SegmentLimit(t.params), e.data,
                       reg.targets[name][k].value.master.faulty == {})
  {
    TwoStepLogin(reg, a, b, name);
    RunThen(reg, INITIAL, [a, b], InputsOf(turns));
    WrittenIsRead(reg, s, map[], turns, before, e, after, wf, rf, k, lba, n, cmd, bhs);
  }
}
