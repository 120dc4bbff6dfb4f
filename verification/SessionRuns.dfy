/** Whole runs of the session state machine: stage safety and status numbering. */
module SessionRuns {
  import opened Bytes
  import opened Wrappers
  import opened Pdu
  import opened Scsi
  import opened Session

  type HeaderBytes = s: seq<byte> | |s| == BHS_LEN witness Zeros(BHS_LEN)

  /** One decoded PDU with its raw header. */
  datatype Input = Input(req: Request, bhs: HeaderBytes)

  ghost predicate WellFormed(s: State) {
    StateOk(s) && Bound(s)
  }

  /** The state after a run and every PDU it sent, in order. */
  ghost function Run(reg: Registry, s: State, inputs: seq<Input>): (State, seq<Outbound>)
    requires RegistryOk(reg) && WellFormed(s)
    decreases |inputs|
  {
    if inputs == [] then (s, [])
    else
      HandleKeepsOk(reg, s, inputs[0].req, inputs[0].bhs);
      var (next, out) := Handle(reg, s, inputs[0].req, inputs[0].bhs);
      var (end, rest) := Run(reg, next, inputs[1..]);
      (end, out + rest)
  }

  lemma RunOne(reg: Registry, s: State, i: Input, more: seq<Input>)
    requires RegistryOk(reg) && WellFormed(s)
    ensures WellFormed(Handle(reg, s, i.req, i.bhs).0)
    ensures var (t, out) := Handle(reg, s, i.req, i.bhs);
            var (end, rest) := Run(reg, t, more);
            Run(reg, s, [i] + more) == (end, out + rest)
  {
    HandleKeepsOk(reg, s, i.req, i.bhs);
    assert ([i] + more)[1..] == more;
  }

  lemma Associate(a: seq<Outbound>, b: seq<Outbound>, c: seq<Outbound>)
    ensures (a + b) + c == a + (b + c)
  {
  }

  /** A run of two parts is the second part's run from where the first ends. */
  lemma {:induction false} RunThen(reg: Registry, s: State, a: seq<Input>, b: seq<Input>)
    requires RegistryOk(reg) && WellFormed(s)
    ensures WellFormed(Run(reg, s, a).0)
    ensures var (t, outs) := Run(reg, s, a);
            var (end, more) := Run(reg, t, b);
            Run(reg, s, a + b) == (end, outs + more)
    decreases |a|
  {
    if a == [] {
      assert a + b == b;
      assert [] + Run(reg, s, b).1 == Run(reg, s, b).1;
    } else {
      var i, rest := a[0], a[1..];
      var (next, out) := Handle(reg, s, i.req, i.bhs);
      HandleKeepsOk(reg, s, i.req, i.bhs);
      RunThen(reg, next, rest, b);
      var (t, outs) := Run(reg, next, rest);
      assert a == [i] + rest && a + b == [i] + (rest + b);
      RunOne(reg, s, i, rest);
      RunOne(reg, s, i, rest + b);
      Associate(out, outs, Run(reg, t, b).1);
    }
  }

  // ----- stage safety -----

  /** Downward only: burst lengths shrink and flow flags are cleared. */
  predicate NoHigher(p: Params, q: Params) {
    && p.firstBurst <= q.firstBurst && p.maxBurst <= q.maxBurst
    && (p.immediateData ==> q.immediateData) && (p.initialR2T ==> q.initialR2T)
  }

  /** How a later state relates to an earlier one. */
  predicate Follows(s: State, t: State) {
    && (s.target.Some? ==> t.target.Some? && t.target.value.name == s.target.value.name)
    && (s.stage.Closing? ==> t.stage.Closing?)
    && NoHigher(t.params, s.params)
    && (!s.stage.LoginStage? ==> !t.stage.LoginStage? && t.params == s.params)
  }

  lemma {:induction false} NegotiateLowers(p: Params, text: seq<Pair>)
    ensures NoHigher(NegotiateAll(p, text), p)
    decreases |text|
  {
    if text != [] {
      NegotiateLowers(Negotiate(p, text[0]), text[1..]);
    }
  }

  lemma HandleFollows(reg: Registry, s: State, req: Request, bhs: HeaderBytes)
    requires RegistryOk(reg) && WellFormed(s)
    ensures Follows(s, Handle(reg, s, req, bhs).0)
  {
    if s.stage.FullFeature? {
      match req {
        case Command(cmd) => CommandKeepsOk(s, cmd, bhs);
        case Data(d) => DataOutKeepsOk(s, d, bhs);
        case _ =>
      }
    } else if s.stage.LoginStage? && req.Login? {
      NegotiateLowers(s.params, req.login.text);
    }
  }

  /**
   * Over any run: FullFeature and every write in flight imply a bound target, a binding never
   * changes, Closing is final, and negotiation only lowers the limits and stops with login.
   */
  lemma {:induction false} StageSafety(reg: Registry, s: State, inputs: seq<Input>)
    requires RegistryOk(reg) && WellFormed(s)
    ensures WellFormed(Run(reg, s, inputs).0) && Follows(s, Run(reg, s, inputs).0)
    decreases |inputs|
  {
    if inputs != [] {
      var next := Handle(reg, s, inputs[0].req, inputs[0].bhs).0;
      HandleKeepsOk(reg, s, inputs[0].req, inputs[0].bhs);
      HandleFollows(reg, s, inputs[0].req, inputs[0].bhs);
      StageSafety(reg, next, inputs[1..]);
    }
  }

  /** A new connection satisfies the invariants, so every run from it does. */
  lemma InitialWellFormed()
    ensures WellFormed(INITIAL)
  {
  }

  // ----- status numbering -----

  /** PDUs that carry status and so consume a StatSN. */
  predicate Status(o: Outbound) {
    !o.R2t? && !o.NopIn? && (o.DataIn? ==> o.hasStatus)
  }

  function StatusCount(outs: seq<Outbound>): nat {
    if outs == [] then 0 else (if Status(outs[0]) then 1 else 0) + StatusCount(outs[1..])
  }

  /** Each PDU carries the next number; only a status-bearing one consumes it. */
  predicate Numbered(outs: seq<Outbound>, sn: nat) {
    outs == [] ||
    (outs[0].sn.statSn == Wrap32(sn) && Numbered(outs[1..], if Status(outs[0]) then sn + 1 else sn))
  }

  lemma {:induction false} NumberedConcat(a: seq<Outbound>, b: seq<Outbound>, sn: nat)
    requires Numbered(a, sn) && Numbered(b, sn + StatusCount(a))
    ensures Numbered(a + b, sn) && StatusCount(a + b) == StatusCount(a) + StatusCount(b)
  {
    if a == [] {
      assert a + b == b;
    } else {
      assert (a + b)[1..] == a[1..] + b;
      NumberedConcat(a[1..], b, if Status(a[0]) then sn + 1 else sn);
    }
  }

  lemma WrapCong(a: nat, b: nat)
    requires Wrap32(a) == Wrap32(b)
    ensures Wrap32(a + 1) == Wrap32(b + 1)
  {
  }

  lemma {:induction false} NumberedCong(outs: seq<Outbound>, a: nat, b: nat)
    requires Numbered(outs, a) && Wrap32(a) == Wrap32(b)
    ensures Numbered(outs, b)
  {
    if outs != [] {
      WrapCong(a, b);
      NumberedCong(outs[1..], if Status(outs[0]) then a + 1 else a, if Status(outs[0]) then b + 1 else b);
    }
  }

  /** What numbering says of each PDU: it carries the start plus the status-bearing PDUs before it, modulo 2^32. */
  lemma {:induction false} NumberedAt(outs: seq<Outbound>, sn: nat, i: nat)
    requires Numbered(outs, sn) && i < |outs|
    ensures outs[i].sn.statSn == Wrap32(sn + StatusCount(outs[..i]))
  {
    if i > 0 {
      NumberedAt(outs[1..], if Status(outs[0]) then sn + 1 else sn, i - 1);
      assert outs[..i][1..] == outs[1..][..i - 1];
    }
  }

  /** A Data-In burst carries one number throughout and consumes it once. */
  lemma {:induction false} ChunksNumbered(cmd: ScsiCommand, sn: Counters, seg: nat, data: seq<byte>, offset: nat, dataSn: nat)
    requires seg > 0 && offset < |data|
    ensures var outs := Chunks(cmd, sn, seg, data, offset, dataSn);
            Numbered(outs, sn.statSn) && StatusCount(outs) == 1
    decreases |data| - offset
  {
    var end := Min(offset + seg, |data|);
    var outs := Chunks(cmd, sn, seg, data, offset, dataSn);
    assert outs[1..] == Chunks(cmd, sn, seg, data, end, dataSn + 1);
    if end < |data| {
      ChunksNumbered(cmd, sn, seg, data, end, dataSn + 1);
    }
  }

  /** A step's PDUs are numbered from the state's StatSN, and the state moves on by those consumed. */
  ghost predicate StepNumbered(s: State, t: State, outs: seq<Outbound>) {
    Numbered(outs, s.statSn) && t.statSn == Wrap32(s.statSn + StatusCount(outs))
  }

  lemma One(o: Outbound)
    ensures [o][1..] == []
  {
  }

  lemma DataOutNumbered(s: State, d: DataOut, bhs: HeaderBytes)
    requires StateOk(s) && s.target.Some?
    ensures var (t, outs) := DataOutSpec(s, d, bhs);
            StepNumbered(s, t, outs)
  {
    var outs := DataOutSpec(s, d, bhs).1;
    One(outs[0]);
  }

  lemma CommandNumbered(s: State, cmd: ScsiCommand, bhs: HeaderBytes)
    requires StateOk(s) && s.target.Some?
    ensures var (t, outs) := ScsiCommandSpec(s, cmd, bhs);
            StepNumbered(s, t, outs)
  {
    var outs := ScsiCommandSpec(s, cmd, bhs).1;
    if cmd.write {
      One(outs[0]);
    } else {
      ReadNumbered(s, cmd, bhs);
    }
  }

  lemma ReadNumbered(s: State, cmd: ScsiCommand, bhs: HeaderBytes)
    requires StateOk(s) && s.target.Some? && !cmd.write
    ensures var (t, outs) := ScsiCommandSpec(s, cmd, bhs);
            StepNumbered(s, t, outs)
  {
    var outcome := ExecuteSpec(s.target.value.luns, cmd, cmd.data).1;
    if cmd.read && outcome.status == GOOD && outcome.data != [] {
      var s' := s.(expCmdSn := Wrap32(s.expCmdSn + 1));
      ChunksNumbered(cmd, CountersOf(s'), SegmentLimit(s.params), outcome.data, 0, 0);
    } else {
      One(ScsiCommandSpec(s, cmd, bhs).1[0]);
    }
  }

  lemma HandleNumbered(reg: Registry, s: State, req: Request, bhs: HeaderBytes)
    requires RegistryOk(reg) && WellFormed(s) && !s.stage.LoginStage?
    ensures var (t, outs) := Handle(reg, s, req, bhs);
            StepNumbered(s, t, outs)
  {
    if s.stage.FullFeature? && req.Command? {
      CommandNumbered(s, req.cmd, bhs);
    } else if s.stage.FullFeature? && req.Data? {
      DataOutNumbered(s, req.dataOut, bhs);
    } else {
      One(Handle(reg, s, req, bhs).1[0]);
    }
  }

  /**
   * From the entry to FullFeature on, over any run: the i-th PDU sent carries the starting StatSN plus
   * the number of status-bearing PDUs before it, modulo 2^32. So status-bearing PDUs are numbered
   * consecutively, and R2T, Nop-In and non-final Data-In carry the next number without consuming it.
   */
  lemma StatusNumbering(reg: Registry, s: State, inputs: seq<Input>, i: nat)
    requires RegistryOk(reg) && WellFormed(s) && !s.stage.LoginStage? && i < |Run(reg, s, inputs).1|
    ensures var outs := Run(reg, s, inputs).1;
            outs[i].sn.statSn == Wrap32(s.statSn + StatusCount(outs[..i]))
  {
    var (t, outs) := Run(reg, s, inputs);
    assert Numbered(outs, s.statSn) by {
      RunNumbered(reg, s, inputs);
    }
    NumberedAt(outs, s.statSn, i);
  }

  lemma {:induction false} RunNumbered(reg: Registry, s: State, inputs: seq<Input>)
    requires RegistryOk(reg) && WellFormed(s) && !s.stage.LoginStage?
    ensures var (t, outs) := Run(reg, s, inputs);
            StepNumbered(s, t, outs)
    decreases |inputs|
  {
    if inputs != [] {
      var (next, out) := Handle(reg, s, inputs[0].req, inputs[0].bhs);
      HandleKeepsOk(reg, s, inputs[0].req, inputs[0].bhs);
      HandleFollows(reg, s, inputs[0].req, inputs[0].bhs);
      HandleNumbered(reg, s, inputs[0].req, inputs[0].bhs);
      RunNumbered(reg, next, inputs[1..]);
      Join(s, next, Run(reg, next, inputs[1..]).0, out, Run(reg, next, inputs[1..]).1);
    }
  }

  lemma Join(s: State, t: State, u: State, a: seq<Outbound>, b: seq<Outbound>)
    requires StepNumbered(s, t, a) && StepNumbered(t, u, b)
    ensures StepNumbered(s, u, a + b)
  {
    NumberedCong(b, t.statSn, s.statSn + StatusCount(a));
    NumberedConcat(a, b, s.statSn);
  }

  // ----- the command window -----

  /** Every PDU advertises a window of QUEUE_DEPTH commands. */
  predicate WindowOk(outs: seq<Outbound>) {
    outs == [] || (outs[0].sn.maxCmdSn == Wrap32(outs[0].sn.expCmdSn + QUEUE_DEPTH) && WindowOk(outs[1..]))
  }

  lemma {:induction false} WindowConcat(a: seq<Outbound>, b: seq<Outbound>)
    requires WindowOk(a) && WindowOk(b)
    ensures WindowOk(a + b)
  {
    if a == [] {
      assert a + b == b;
    } else {
      assert (a + b)[1..] == a[1..] + b;
      WindowConcat(a[1..], b);
    }
  }

  lemma {:induction false} ChunksWindow(cmd: ScsiCommand, sn: Counters, seg: nat, data: seq<byte>, offset: nat, dataSn: nat)
    requires seg > 0 && offset <= |data| && sn.maxCmdSn == Wrap32(sn.expCmdSn + QUEUE_DEPTH)
    ensures WindowOk(Chunks(cmd, sn, seg, data, offset, dataSn))
    decreases |data| - offset
  {
    if offset < |data| {
      var end := Min(offset + seg, |data|);
      var outs := Chunks(cmd, sn, seg, data, offset, dataSn);
      assert outs[1..] == Chunks(cmd, sn, seg, data, end, dataSn + 1);
      ChunksWindow(cmd, sn, seg, data, end, dataSn + 1);
    }
  }

  /** SCSI commands taken in FullFeature: the only requests that advance ExpCmdSN. */
  function Takes(s: State, req: Request): nat {
    if s.stage.FullFeature? && req.Command? then 1 else 0
  }

  /** A stretch of a run that took `taken` commands. */
  predicate Advanced(s: u32, t: u32, taken: nat, outs: seq<Outbound>) {
    t == Wrap32(s + taken) && WindowOk(outs)
  }

  lemma JoinWindows(s: u32, t: u32, u: u32, m: nat, n: nat, total: nat, a: seq<Outbound>, b: seq<Outbound>)
    requires Advanced(s, t, m, a) && Advanced(t, u, n, b) && total == m + n
    ensures Advanced(s, u, total, a + b)
  {
    WindowConcat(a, b);
  }

  lemma CommandWindow(s: State, cmd: ScsiCommand, bhs: HeaderBytes)
    requires StateOk(s) && s.target.Some?
    ensures var (t, outs) := ScsiCommandSpec(s, cmd, bhs);
            Advanced(s.expCmdSn, t.expCmdSn, 1, outs)
  {
    var outs := ScsiCommandSpec(s, cmd, bhs).1;
    if cmd.write {
      One(outs[0]);
    } else {
      ReadWindow(s, cmd, bhs);
    }
  }

  lemma ReadWindow(s: State, cmd: ScsiCommand, bhs: HeaderBytes)
    requires StateOk(s) && s.target.Some? && !cmd.write
    ensures var (t, outs) := ScsiCommandSpec(s, cmd, bhs);
            Advanced(s.expCmdSn, t.expCmdSn, 1, outs)
  {
    var outcome := ExecuteSpec(s.target.value.luns, cmd, cmd.data).1;
    if cmd.read && outcome.status == GOOD && outcome.data != [] {
      var s' := s.(expCmdSn := Wrap32(s.expCmdSn + 1));
      ChunksWindow(cmd, CountersOf(s'), SegmentLimit(s.params), outcome.data, 0, 0);
    } else {
      One(ScsiCommandSpec(s, cmd, bhs).1[0]);
    }
  }

  lemma HandleWindow(reg: Registry, s: State, req: Request, bhs: HeaderBytes)
    requires RegistryOk(reg) && WellFormed(s) && !s.stage.LoginStage?
    ensures var (t, outs) := Handle(reg, s, req, bhs);
            Advanced(s.expCmdSn, t.expCmdSn, Takes(s, req), outs)
  {
    if s.stage.FullFeature? && req.Command? {
      CommandWindow(s, req.cmd, bhs);
    } else if s.stage.FullFeature? && req.Data? {
      var outs := DataOutSpec(s, req.dataOut, bhs).1;
      One(outs[0]);
    } else {
      One(Handle(reg, s, req, bhs).1[0]);
    }
  }

  ghost function Taken(reg: Registry, s: State, inputs: seq<Input>): nat
    requires RegistryOk(reg) && WellFormed(s)
    decreases |inputs|
  {
    if inputs == [] then 0
    else
      HandleKeepsOk(reg, s, inputs[0].req, inputs[0].bhs);
      Takes(s, inputs[0].req) + Taken(reg, Handle(reg, s, inputs[0].req, inputs[0].bhs).0, inputs[1..])
  }

  lemma NoCommands(reg: Registry, s: State)
    requires RegistryOk(reg) && WellFormed(s)
    ensures Advanced(s.expCmdSn, s.expCmdSn, Taken(reg, s, []), [])
  {
  }

  lemma TakenNext(reg: Registry, s: State, inputs: seq<Input>, next: State)
    requires RegistryOk(reg) && WellFormed(s) && WellFormed(next) && inputs != []
    requires next == Handle(reg, s, inputs[0].req, inputs[0].bhs).0
    ensures Taken(reg, s, inputs) == Takes(s, inputs[0].req) + Taken(reg, next, inputs[1..])
  {
  }

  /** From FullFeature on, ExpCmdSN counts the SCSI commands taken, modulo 2^32, and every PDU advertises 16 beyond it. */
  lemma {:induction false} CommandNumbering(reg: Registry, s: State, inputs: seq<Input>)
    requires RegistryOk(reg) && WellFormed(s) && !s.stage.LoginStage?
    ensures var (t, outs) := Run(reg, s, inputs);
            Advanced(s.expCmdSn, t.expCmdSn, Taken(reg, s, inputs), outs)
    decreases |inputs|
  {
    if inputs == [] {
      NoCommands(reg, s);
    } else {
      var req, bhs := inputs[0].req, inputs[0].bhs;
      var (next, out) := Handle(reg, s, req, bhs);
      HandleKeepsOk(reg, s, req, bhs);
      HandleFollows(reg, s, req, bhs);
      HandleWindow(reg, s, req, bhs);
      CommandNumbering(reg, next, inputs[1..]);
      var (end, rest) := Run(reg, next, inputs[1..]);
      TakenNext(reg, s, inputs, next);
      JoinWindows(s.expCmdSn, next.expCmdSn, end.expCmdSn, Takes(s, req), Taken(reg, next, inputs[1..]),
                  Taken(reg, s, inputs), out, rest);
    }
  }
}
