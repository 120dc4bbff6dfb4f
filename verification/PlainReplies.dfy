/** Requests that reach no LUN (iscsi/session/mod.rs:120-209, 325-399): what each is answered, and what it changes. */
module PlainReplies {
  import opened Bytes
  import opened Wrappers
  import opened Pdu
  import opened Scsi
  import opened Session
  import opened SessionRuns
  import opened Executions
  import opened WriteAssembly

  /** The counters of the state: StatSN, ExpCmdSN, and a window of sixteen. */
  predicate SnOf(s: State, sn: Counters) {
    sn.statSn == s.statSn && sn.expCmdSn == s.expCmdSn && sn.maxCmdSn == (s.expCmdSn + 16) % 0x1_0000_0000
  }

  /** The one reply consumes a StatSN, and nothing else changes. */
  ghost predicate Answered(s: State, t: State, o: Outbound) {
    SnOf(s, o.sn) && t == s.(statSn := (s.statSn + 1) % 0x1_0000_0000)
  }

  /** A rejection for the given reason that carries the request's header. */
  predicate Rejected(outs: seq<Outbound>, reason: byte, bhs: seq<byte>) {
    |outs| == 1 && outs[0].Reject? && outs[0].reason == reason && outs[0].header == bhs
  }

  /** The names of all targets, as TargetName keys in the registry's order, if SendTargets is asked for. */
  predicate ListsTargets(names: seq<Iqn>, asked: seq<Pair>, reply: seq<Pair>) {
    if exists i :: 0 <= i < |asked| && asked[i].key == "SendTargets"
    then |reply| == |names| && forall i :: 0 <= i < |names| ==> reply[i].key == "TargetName" && reply[i].value == names[i]
    else reply == []
  }

  /** What a request that is neither a command nor write data is answered in the full-feature phase. */
  ghost predicate PlainStep(reg: Registry, s: State, req: Request, bhs: seq<byte>, t: State, outs: seq<Outbound>) {
    |outs| == 1 &&
    match req
    case NopOut(lun, itt, _, _, _, data) =>
      t == s && SnOf(s, outs[0].sn) && outs[0].NopIn? && outs[0].lun == lun && outs[0].itt == itt && outs[0].data == data
    case Text(_, _, _, itt, _, _, _, text) =>
      Answered(s, t, outs[0]) && outs[0].TextResp? && outs[0].itt == itt && ListsTargets(reg.names, text, outs[0].text)
    case TaskMgmt(_, _, itt, _, _, _) => Answered(s, t, outs[0]) && outs[0].TaskMgmtResp? && outs[0].itt == itt
    case Logout(_, _, _, _, _) => Answered(s.(stage := Closing), t, outs[0]) && outs[0].LogoutResp?
    case Login(_) => Answered(s, t, outs[0]) && Rejected(outs, 4, bhs)
    case Unsupported(_, _) => Answered(s, t, outs[0]) && Rejected(outs, 5, bhs)
    case _ => true
  }

  lemma {:induction false} ValueOfIff(text: seq<Pair>, key: string)
    ensures ValueOf(text, key).Some? <==> exists i :: 0 <= i < |text| && text[i].key == key
    decreases |text|
  {
    if text != [] {
      ValueOfIff(text[1..], key);
      if ValueOf(text[1..], key).Some? {
        var i :| 0 <= i < |text[1..]| && text[1..][i].key == key;
        assert text[i + 1].key == key;
      }
      if i :| 0 <= i < |text| && text[i].key == key {
        assert i > 0 ==> text[1..][i - 1].key == key;
      }
    }
  }

  /** Every such request is answered so. */
  lemma PlainAnswered(reg: Registry, s: State, req: Request, bhs: HeaderBytes)
    requires RegistryOk(reg) && WellFormed(s) && s.stage.FullFeature? && !req.Command? && !req.Data?
    ensures var (t, outs) := Handle(reg, s, req, bhs); PlainStep(reg, s, req, bhs, t, outs)
  {
    if req.Text? {
      ValueOfIff(req.text, "SendTargets");
    }
  }

  /** Before login is complete every other request ends the session, and once it is closing every request is rejected. */
  lemma OutOfPhase(reg: Registry, s: State, req: Request, bhs: HeaderBytes)
    requires RegistryOk(reg) && WellFormed(s) && !s.stage.FullFeature? && (s.stage.LoginStage? ==> !req.Login?)
    ensures var (t, outs) := Handle(reg, s, req, bhs);
            Rejected(outs, 4, bhs) && Answered(s.(stage := Closing), t, outs[0])
  {
  }

  /** The write data belongs to no write in flight, or does not fit the one it names. */
  predicate Misplaced(s: State, d: DataOut) {
    d.itt in s.inFlight ==> d.bufferOffset + |d.data| > s.inFlight[d.itt].cmd.edtl
  }

  /** Misplaced write data is rejected; if it names a write in flight, that write is given up and nothing of it executed. */
  lemma MisplacedRejected(reg: Registry, s: State, d: DataOut, bhs: HeaderBytes)
    requires RegistryOk(reg) && WellFormed(s) && s.stage.FullFeature? && Misplaced(s, d)
    ensures var (t, outs) := Handle(reg, s, Data(d), bhs);
            Rejected(outs, 4, bhs) && Answered(s.(inFlight := s.inFlight - {d.itt}), t, outs[0])
  {
    DataOutStray(s, d, bhs);
  }

  /** A write whose immediate data is longer than the whole is rejected and not executed. */
  lemma OverlongRejected(reg: Registry, s: State, cmd: ScsiCommand, bhs: HeaderBytes)
    requires RegistryOk(reg) && WellFormed(s) && s.stage.FullFeature? && cmd.write && |cmd.data| > cmd.edtl
    ensures var (t, outs) := Handle(reg, s, Command(cmd), bhs);
            Rejected(outs, 4, bhs) && Answered(s.(expCmdSn := (s.expCmdSn + 1) % 0x1_0000_0000), t, outs[0])
  {
  }
}
