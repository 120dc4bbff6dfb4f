/** The iSCSI session state machine, as a function of requests (iscsi/session/mod.rs, login.rs, params.rs). */
module Session {
  import opened Bytes
  import opened Wrappers
  import opened Pdu
  import opened Scsi
  import opened Numerals

  const QUEUE_DEPTH: nat := 16
  const NO_TAG: u32 := 0xffff_ffff
  const PROTOCOL_ERROR: byte := 0x04
  const COMMAND_NOT_SUPPORTED: byte := 0x05

  type Iqn = string

  /** Every registered target, and the order in which the registry lists their names. */
  datatype Registry = Registry(targets: map<Iqn, Luns>, names: seq<Iqn>)

  ghost predicate RegistryOk(reg: Registry) {
    forall name :: name in reg.targets ==> LunsOk(reg.targets[name])
  }

  // ----- negotiated parameters -----

  datatype Params = Params(maxRecv: u32, firstBurst: u32, maxBurst: u32, immediateData: bool, initialR2T: bool)

  const DEFAULT_PARAMS: Params := Params(8192, 65536, 262144, true, true)

  predicate SaysYes(s: string) {
    |s| == 3 && s[0] in "Yy" && s[1] in "Ee" && s[2] in "Ss"
  }

  /** `negotiate`: sizes take the minimum, the two flow flags are ANDed, MaxRecv is declarative. */
  function Negotiate(p: Params, pair: Pair): Params {
    var n := ParseUnsigned(pair.value, U32_SPAN - 1);
    match pair.key
    case "MaxRecvDataSegmentLength" => if n.Some? then p.(maxRecv := n.value) else p
    case "FirstBurstLength" => if n.Some? then p.(firstBurst := Min(p.firstBurst, n.value)) else p
    case "MaxBurstLength" => if n.Some? then p.(maxBurst := Min(p.maxBurst, n.value)) else p
    case "ImmediateData" => p.(immediateData := p.immediateData && SaysYes(pair.value))
    case "InitialR2T" => p.(initialR2T := p.initialR2T && SaysYes(pair.value))
    case _ => p
  }

  function NegotiateAll(p: Params, text: seq<Pair>): Params
    decreases |text|
  {
    if text == [] then p else NegotiateAll(Negotiate(p, text[0]), text[1..])
  }

  // ----- state -----

  datatype Stage = LoginStage | FullFeature | Closing

  datatype PendingWrite = PendingWrite(cmd: ScsiCommand, buf: seq<byte>, received: u32, r2tSn: u32)

  /** The target a connection is bound to: its name and its LUNs, which this connection alone changes. */
  datatype Binding = Binding(name: Iqn, luns: Luns)

  datatype State = State(
    stage: Stage, params: Params, target: Option<Binding>, statSn: u32, expCmdSn: u32, inFlight: map<u32, PendingWrite>)

  const INITIAL: State := State(LoginStage, DEFAULT_PARAMS, None, 0, 0, map[])

  /** The sequence numbers every response carries. */
  datatype Counters = Counters(statSn: u32, expCmdSn: u32, maxCmdSn: u32)

  function CountersOf(s: State): Counters {
    Counters(s.statSn, s.expCmdSn, Wrap32(s.expCmdSn + QUEUE_DEPTH))
  }

  datatype Outbound =
    | LoginResp(transit: bool, csg: byte, nsg: byte, isid: seq<byte>, tsih: u16, itt: u32, sn: Counters,
                statusClass: byte, statusDetail: byte, text: seq<Pair>)
    | ScsiResp(status: byte, itt: u32, sn: Counters, residual: u32, sense: seq<byte>)
    | DataIn(final: bool, hasStatus: bool, lun: u64, itt: u32, sn: Counters, dataSn: u32, bufferOffset: u32, data: seq<byte>)
    | R2t(lun: u64, itt: u32, ttt: u32, sn: Counters, r2tSn: u32, bufferOffset: u32, desiredLength: u32)
    | NopIn(lun: u64, itt: u32, sn: Counters, data: seq<byte>)
    | TextResp(itt: u32, sn: Counters, text: seq<Pair>)
    | LogoutResp(sn: Counters)
    | TaskMgmtResp(itt: u32, sn: Counters)
    | Reject(reason: byte, sn: Counters, header: seq<byte>)

  function NextStatSn(s: State): State {
    s.(statSn := Wrap32(s.statSn + 1))
  }

  function RejectWith(s: State, reason: byte, bhs: seq<byte>): (State, seq<Outbound>)
    requires |bhs| == BHS_LEN
  {
    (NextStatSn(s), [Reject(reason, CountersOf(s), bhs)])
  }

  // ----- login -----

  function ValueOf(text: seq<Pair>, key: string): Option<string> {
    if text == [] then None
    else if text[0].key == key then Some(text[0].value)
    else ValueOf(text[1..], key)
  }

  function YesNo(b: bool): string {
    if b then "Yes" else "No"
  }

  function ReplyKeys(p: Params): seq<Pair> {
    [Pair("MaxBurstLength", DecimalOf(p.maxBurst)), Pair("FirstBurstLength", DecimalOf(p.firstBurst)),
     Pair("ImmediateData", YesNo(p.immediateData)), Pair("InitialR2T", YesNo(p.initialR2T)),
     Pair("HeaderDigest", "None"), Pair("DataDigest", "None")]
  }

  function LoginFailure(s: State, l: LoginRequest): (State, seq<Outbound>) {
    (NextStatSn(s.(stage := Closing)),
     [LoginResp(false, l.csg, l.csg, l.isid, l.tsih, l.itt, CountersOf(s), 0x02, 0x03, [])])
  }

  /** The target after this request: bound on the first TargetName, `None` when login must fail. */
  function Resolve(reg: Registry, s: State, l: LoginRequest): (r: Option<Option<Binding>>)
    ensures s.target.Some? ==> r == Some(s.target)
  {
    var name := ValueOf(l.text, "TargetName");
    if s.target.Some? then Some(s.target)
    else if name.Some? then
      if name.value in reg.targets then Some(Some(Binding(name.value, reg.targets[name.value]))) else None
    else if l.transit && l.nsg == 3 then None
    else Some(None)
  }

  predicate Negotiates(l: LoginRequest) {
    l.csg == 1 || (l.csg == 0 && l.nsg == 3)
  }

  function LoginSucceeds(s: State, l: LoginRequest): (State, seq<Outbound>) {
    var params := if Negotiates(l) then NegotiateAll(s.params, l.text) else s.params;
    var transit := l.transit && (l.nsg == 1 || l.nsg == 3);
    var s' := s.(params := params, stage := if transit && l.nsg == 3 then FullFeature else s.stage);
    (NextStatSn(s'),
     [LoginResp(transit, l.csg, l.nsg, l.isid, if l.tsih == 0 then 1 else l.tsih, l.itt, CountersOf(s'), 0, 0,
                if Negotiates(l) then ReplyKeys(params) else [])])
  }

  function HandleLogin(reg: Registry, s: State, l: LoginRequest): (State, seq<Outbound>) {
    var s' := s.(statSn := if s.statSn == 0 then l.expStatSn else s.statSn, expCmdSn := l.cmdSn);
    match Resolve(reg, s, l)
    case None => LoginFailure(s', l)
    case Some(target) => LoginSucceeds(s'.(target := target), l)
  }

  // ----- full feature -----

  /** The Data-In PDUs for `data` from `offset` on: only the last is final and takes the StatSN. */
  function Chunks(cmd: ScsiCommand, sn: Counters, seg: nat, data: seq<byte>, offset: nat, dataSn: nat): seq<Outbound>
    requires seg > 0 && offset <= |data|
    decreases |data| - offset
  {
    if offset == |data| then []
    else
      var end := Min(offset + seg, |data|);
      [DataIn(end == |data|, end == |data|, cmd.lun, cmd.itt, sn, Wrap32(dataSn), Wrap32(offset), data[offset..end])]
      + Chunks(cmd, sn, seg, data, end, dataSn + 1)
  }

  function SegmentLimit(p: Params): (n: nat)
    ensures n >= 512 && n >= p.maxRecv && (n == 512 || n == p.maxRecv)
  {
    Max(p.maxRecv, 512)
  }

  ghost function ScsiCommandSpec(s: State, cmd: ScsiCommand, bhs: seq<byte>): (State, seq<Outbound>)
    requires StateOk(s) && |bhs| == BHS_LEN
  {
    if s.target.None? then RejectWith(s, PROTOCOL_ERROR, bhs)
    else
      var s' := s.(expCmdSn := Wrap32(s.expCmdSn + 1));
      if cmd.write then BeginWrite(s', cmd, bhs)
      else
        var (luns, outcome) := ExecuteSpec(s.target.value.luns, cmd, cmd.data);
        var after := s'.(target := Some(Binding(s.target.value.name, luns)));
        if cmd.read && outcome.status == GOOD && outcome.data != []
        then (NextStatSn(after), Chunks(cmd, CountersOf(after), SegmentLimit(s.params), outcome.data, 0, 0))
        else
          (NextStatSn(after),
           [ScsiResp(outcome.status, cmd.itt, CountersOf(after), Max(cmd.edtl - Wrap32(|outcome.data|), 0), outcome.sense)])
  }

  /** The R2T that asks for the bytes not yet received, up to MaxBurstLength. */
  function NextR2t(s: State, p: PendingWrite): Outbound
    requires p.received <= p.cmd.edtl
  {
    R2t(p.cmd.lun, p.cmd.itt, p.cmd.itt, CountersOf(s), p.r2tSn, p.received, Min(p.cmd.edtl - p.received, s.params.maxBurst))
  }

  ghost function BeginWrite(s: State, cmd: ScsiCommand, bhs: seq<byte>): (State, seq<Outbound>)
    requires StateOk(s) && s.target.Some? && |bhs| == BHS_LEN
  {
    if |cmd.data| > cmd.edtl then RejectWith(s, PROTOCOL_ERROR, bhs)
    else
      var p := PendingWrite(cmd, Patch(Zeros(cmd.edtl), 0, cmd.data), |cmd.data|, 0);
      if p.received == cmd.edtl then FinishWrite(s, p)
      else
        var s' := s.(inFlight := s.inFlight[cmd.itt := p]);
        (s', [NextR2t(s', p)])
  }

  /** The write after a Data-Out's bytes have been placed and counted. */
  function Placed(p: PendingWrite, d: DataOut): PendingWrite
    requires d.bufferOffset + |d.data| <= |p.buf|
  {
    p.(buf := Patch(p.buf, d.bufferOffset, d.data), received := Wrap32(p.received + |d.data|))
  }

  ghost function DataOutSpec(s: State, d: DataOut, bhs: seq<byte>): (State, seq<Outbound>)
    requires StateOk(s) && (s.inFlight != map[] ==> s.target.Some?) && |bhs| == BHS_LEN
  {
    if d.itt !in s.inFlight then RejectWith(s, PROTOCOL_ERROR, bhs)
    else
      var p := s.inFlight[d.itt];
      if d.bufferOffset + |d.data| > |p.buf| then
        RejectWith(s.(inFlight := s.inFlight - {d.itt}), PROTOCOL_ERROR, bhs)
      else
        var p' := Placed(p, d);
        if p'.received < p.cmd.edtl then
          var p'' := p'.(r2tSn := Wrap32(p.r2tSn + 1));
          var s' := s.(inFlight := s.inFlight[d.itt := p'']);
          (s', [NextR2t(s', p'')])
        else FinishWrite(s.(inFlight := s.inFlight - {d.itt}), p')
  }

  ghost function FinishWrite(s: State, p: PendingWrite): (State, seq<Outbound>)
    requires StateOk(s) && s.target.Some?
  {
    var (luns, outcome) := ExecuteSpec(s.target.value.luns, p.cmd, p.buf);
    var after := s.(target := Some(Binding(s.target.value.name, luns)));
    (NextStatSn(after), [ScsiResp(outcome.status, p.cmd.itt, CountersOf(after), 0, outcome.sense)])
  }

  /** One TargetName key per registered target. */
  function TargetNames(names: seq<Iqn>): (keys: seq<Pair>)
    ensures |keys| == |names| && forall i :: 0 <= i < |names| ==> keys[i] == Pair("TargetName", names[i])
  {
    seq(|names|, i requires 0 <= i < |names| => Pair("TargetName", names[i]))
  }

  function TextResponse(reg: Registry, s: State, itt: u32, text: seq<Pair>): (State, seq<Outbound>) {
    (NextStatSn(s),
     [TextResp(itt, CountersOf(s), if ValueOf(text, "SendTargets").Some? then TargetNames(reg.names) else [])])
  }

  ghost function HandleFullFeature(reg: Registry, s: State, req: Request, bhs: seq<byte>): (State, seq<Outbound>)
    requires StateOk(s) && Bound(s) && |bhs| == BHS_LEN
  {
    match req
    case Command(cmd) => ScsiCommandSpec(s, cmd, bhs)
    case Data(d) => DataOutSpec(s, d, bhs)
    case NopOut(lun, itt, _, _, _, data) => (s, [NopIn(lun, itt, CountersOf(s), data)])
    case Text(_, _, _, itt, _, _, _, text) => TextResponse(reg, s, itt, text)
    case TaskMgmt(_, _, itt, _, _, _) => (NextStatSn(s), [TaskMgmtResp(itt, CountersOf(s))])
    case Logout(_, _, _, _, _) => (NextStatSn(s.(stage := Closing)), [LogoutResp(CountersOf(s))])
    case Login(_) => RejectWith(s, PROTOCOL_ERROR, bhs)
    case Unsupported(_, _) => RejectWith(s, COMMAND_NOT_SUPPORTED, bhs)
  }

  ghost function Handle(reg: Registry, s: State, req: Request, bhs: seq<byte>): (State, seq<Outbound>)
    requires StateOk(s) && Bound(s) && |bhs| == BHS_LEN
  {
    if s.stage.LoginStage? && req.Login? then HandleLogin(reg, s, req.login)
    else if s.stage.FullFeature? then HandleFullFeature(reg, s, req, bhs)
    else RejectWith(s.(stage := Closing), PROTOCOL_ERROR, bhs)
  }

  // ----- what every reachable state satisfies -----

  /** A write in flight is still short of its expected length and has a buffer of exactly that length. */
  predicate PendingOk(itt: u32, p: PendingWrite) {
    p.cmd.itt == itt && |p.buf| == p.cmd.edtl && p.received < p.cmd.edtl && p.cmd.write
  }

  ghost predicate StateOk(s: State) {
    && (s.target.Some? ==> LunsOk(s.target.value.luns))
    && (forall itt :: itt in s.inFlight ==> PendingOk(itt, s.inFlight[itt]))
  }

  /** FullFeature implies a bound target, and so does any write in flight. */
  predicate Bound(s: State) {
    && (s.stage.FullFeature? ==> s.target.Some?)
    && (s.inFlight != map[] ==> s.target.Some?)
  }

  lemma FinishKeepsOk(s: State, p: PendingWrite)
    requires StateOk(s) && s.target.Some?
    ensures var s' := FinishWrite(s, p).0;
            StateOk(s') && s'.target.Some? && s'.target.value.name == s.target.value.name
  {
    ExecuteKeepsOk(s.target.value.luns, p.cmd, p.buf);
  }

  lemma InsertKeepsOk(s: State, itt: u32, p: PendingWrite)
    requires StateOk(s) && PendingOk(itt, p)
    ensures StateOk(s.(inFlight := s.inFlight[itt := p]))
  {
  }

  lemma BeginKeepsOk(s: State, cmd: ScsiCommand, bhs: seq<byte>)
    requires StateOk(s) && s.target.Some? && |bhs| == BHS_LEN && cmd.write
    ensures var s' := BeginWrite(s, cmd, bhs).0;
            StateOk(s') && s'.target.Some? && s'.target.value.name == s.target.value.name
  {
    if |cmd.data| == cmd.edtl {
      FinishKeepsOk(s, PendingWrite(cmd, Patch(Zeros(cmd.edtl), 0, cmd.data), |cmd.data|, 0));
    }
  }

  /** A Data-Out that leaves bytes missing: the write stays in flight. */
  lemma DataOutMore(s: State, d: DataOut, bhs: seq<byte>)
    requires StateOk(s) && s.target.Some? && |bhs| == BHS_LEN && d.itt in s.inFlight
    requires d.bufferOffset + |d.data| <= |s.inFlight[d.itt].buf| && Placed(s.inFlight[d.itt], d).received < s.inFlight[d.itt].cmd.edtl
    ensures var next := Placed(s.inFlight[d.itt], d).(r2tSn := Wrap32(s.inFlight[d.itt].r2tSn + 1));
            var t := s.(inFlight := s.inFlight[d.itt := next]);
            DataOutSpec(s, d, bhs) == (t, [NextR2t(t, next)])
  {
  }

  /** A Data-Out that completes the count: the write leaves the table and is executed. */
  lemma DataOutLast(s: State, d: DataOut, bhs: seq<byte>)
    requires StateOk(s) && s.target.Some? && |bhs| == BHS_LEN && d.itt in s.inFlight
    requires d.bufferOffset + |d.data| <= |s.inFlight[d.itt].buf| && Placed(s.inFlight[d.itt], d).received >= s.inFlight[d.itt].cmd.edtl
    ensures DataOutSpec(s, d, bhs) == FinishWrite(s.(inFlight := s.inFlight - {d.itt}), Placed(s.inFlight[d.itt], d))
  {
  }

  /** Any other Data-Out is rejected; one that does not fit its write takes the write with it. */
  lemma DataOutStray(s: State, d: DataOut, bhs: seq<byte>)
    requires StateOk(s) && s.target.Some? && |bhs| == BHS_LEN
    requires d.itt in s.inFlight ==> d.bufferOffset + |d.data| > |s.inFlight[d.itt].buf|
    ensures DataOutSpec(s, d, bhs) == RejectWith(s.(inFlight := s.inFlight - {d.itt}), PROTOCOL_ERROR, bhs)
  {
    assert d.itt !in s.inFlight ==> s.inFlight - {d.itt} == s.inFlight;
  }

  lemma DataOutKeepsOk(s: State, d: DataOut, bhs: seq<byte>)
    requires StateOk(s) && s.target.Some? && |bhs| == BHS_LEN
    ensures var s' := DataOutSpec(s, d, bhs).0;
            StateOk(s') && s'.target.Some? && s'.target.value.name == s.target.value.name
  {
    if d.itt !in s.inFlight || d.bufferOffset + |d.data| > |s.inFlight[d.itt].buf| {
      DataOutStray(s, d, bhs);
    } else if Placed(s.inFlight[d.itt], d).received >= s.inFlight[d.itt].cmd.edtl {
      DataOutLast(s, d, bhs);
      FinishKeepsOk(s.(inFlight := s.inFlight - {d.itt}), Placed(s.inFlight[d.itt], d));
    } else {
      DataOutMore(s, d, bhs);
      InsertKeepsOk(s, d.itt, Placed(s.inFlight[d.itt], d).(r2tSn := Wrap32(s.inFlight[d.itt].r2tSn + 1)));
    }
  }

  lemma CommandKeepsOk(s: State, cmd: ScsiCommand, bhs: seq<byte>)
    requires StateOk(s) && s.target.Some? && |bhs| == BHS_LEN
    ensures var s' := ScsiCommandSpec(s, cmd, bhs).0;
            StateOk(s') && s'.target.Some? && s'.target.value.name == s.target.value.name
  {
    var s' := s.(expCmdSn := Wrap32(s.expCmdSn + 1));
    if cmd.write {
      BeginKeepsOk(s', cmd, bhs);
    } else {
      ExecuteKeepsOk(s.target.value.luns, cmd, cmd.data);
    }
  }

  /** Every request keeps the state invariants. */
  lemma HandleKeepsOk(reg: Registry, s: State, req: Request, bhs: seq<byte>)
    requires RegistryOk(reg) && StateOk(s) && Bound(s) && |bhs| == BHS_LEN
    ensures var s' := Handle(reg, s, req, bhs).0;
            StateOk(s') && Bound(s')
  {
    if s.stage.FullFeature? {
      match req {
        case Command(cmd) => CommandKeepsOk(s, cmd, bhs);
        case Data(d) => DataOutKeepsOk(s, d, bhs);
        case _ =>
      }
    }
  }
}
