/** `Connection`: the session state machine as the object that runs it (iscsi/session/). */
module Connections {
  import opened Bytes
  import opened Wrappers
  import opened Pdu
  import opened Scsi
  import opened Session

  class Connection {
    const targets: map<Iqn, ScsiTarget>
    const names: seq<Iqn>
    var stage: Stage
    var params: Params
    var target: ScsiTarget?
    var statSn: u32
    var expCmdSn: u32
    var inFlight: map<u32, PendingWrite>
    ghost var boundTo: Iqn

    constructor (targets: map<Iqn, ScsiTarget>, names: seq<Iqn>)
      requires forall name :: name in targets ==> LunsOk(targets[name].luns)
      ensures this.targets == targets && this.names == names
      ensures Valid() && View() == INITIAL
    {
      this.targets, this.names := targets, names;
      stage, params, target := LoginStage, DEFAULT_PARAMS, null;
      statSn, expCmdSn, inFlight := 0, 0, map[];
      boundTo := "";
    }

    /** The state machine's state. */
    ghost function View(): State
      reads this, targets.Values, target
    {
      State(stage, params, if target == null then None else Some(Binding(boundTo, target.luns)), statSn, expCmdSn, inFlight)
    }

    ghost function Reg(): Registry
      reads targets.Values
    {
      Registry(map name | name in targets :: targets[name].luns, names)
    }

    ghost predicate Valid()
      reads this, targets.Values, target
    {
      && StateOk(View()) && Bound(View())
      && (forall name :: name in targets ==> LunsOk(targets[name].luns))
      && (target != null ==> boundTo in targets && targets[boundTo] == target)
    }

    /** `handle`: the object makes exactly the state machine's step, and changes no other target. */
    method Handle(req: Request, bhs: seq<byte>) returns (out: seq<Outbound>)
      requires Valid() && |bhs| == BHS_LEN
      modifies this, targets.Values
      ensures Valid()
      ensures (View(), out) == Session.Handle(old(Reg()), old(View()), req, bhs)
      ensures forall t :: t in targets.Values && t != old(target) ==> t.luns == old(t.luns)
      ensures old(target) != null ==> target == old(target)
    {
      HandleKeepsOk(Reg(), View(), req, bhs);
      out := Dispatch(req, bhs);
    }

    method Dispatch(req: Request, bhs: seq<byte>) returns (out: seq<Outbound>)
      requires Valid() && |bhs| == BHS_LEN
      modifies this, target
      ensures (View(), out) == Session.Handle(old(Reg()), old(View()), req, bhs)
      ensures target != null ==> boundTo in targets && targets[boundTo] == target
      ensures old(target) != null ==> target == old(target)
    {
      if stage.LoginStage? && req.Login? {
        out := HandleLogin(req.login);
      } else if stage.FullFeature? {
        out := HandleFullFeature(req, bhs);
      } else {
        stage := Closing;
        out := RejectPdu(PROTOCOL_ERROR, bhs);
      }
    }

    /** The current StatSN, then the next one. */
    method NextStatSn() returns (sn: Counters)
      modifies this`statSn
      ensures sn == Counters(old(statSn), expCmdSn, Wrap32(expCmdSn + QUEUE_DEPTH))
      ensures statSn == Wrap32(old(statSn) + 1)
    {
      sn := Sn();
      statSn := Wrap32(statSn + 1);
    }

    /** The counters of a response that does not consume a StatSN. */
    function Sn(): Counters
      reads this
    {
      Counters(statSn, expCmdSn, Wrap32(expCmdSn + QUEUE_DEPTH))
    }

    method RejectPdu(reason: byte, bhs: seq<byte>) returns (out: seq<Outbound>)
      requires |bhs| == BHS_LEN
      modifies this`statSn
      ensures (View(), out) == RejectWith(old(View()), reason, bhs)
    {
      var sn := NextStatSn();
      out := [Reject(reason, sn, bhs)];
    }

    // ----- login -----

    method HandleLogin(l: LoginRequest) returns (out: seq<Outbound>)
      requires forall name :: name in targets ==> LunsOk(targets[name].luns)
      requires target != null ==> boundTo in targets && targets[boundTo] == target
      modifies this
      ensures (View(), out) == Session.HandleLogin(Reg(), old(View()), l)
      ensures target != null ==> boundTo in targets && targets[boundTo] == target
      ensures old(target) != null ==> target == old(target)
    {
      if statSn == 0 {
        statSn := l.expStatSn;
      }
      expCmdSn := l.cmdSn;
      if target == null {
        var name := ValueOf(l.text, "TargetName");
        if name.Some? {
          if name.value !in targets {
            out := Fail(l);
            return;
          }
          target, boundTo := targets[name.value], name.value;
        } else if l.transit && l.nsg == 3 {
          out := Fail(l);
          return;
        }
      }
      out := Accept(l);
    }

    method Accept(l: LoginRequest) returns (out: seq<Outbound>)
      modifies this`params, this`stage, this`statSn
      ensures (View(), out) == LoginSucceeds(old(View()), l)
    {
      var keys: seq<Pair> := [];
      if Negotiates(l) {
        params := NegotiateKeys(params, l.text);
        keys := ReplyKeys(params);
      }
      var transit := l.transit && (l.nsg == 1 || l.nsg == 3);
      if transit && l.nsg == 3 {
        stage := FullFeature;
      }
      var sn := NextStatSn();
      out := [LoginResp(transit, l.csg, l.nsg, l.isid, if l.tsih == 0 then 1 else l.tsih, l.itt, sn, 0, 0, keys)];
    }

    method Fail(l: LoginRequest) returns (out: seq<Outbound>)
      modifies this`stage, this`statSn
      ensures (View(), out) == LoginFailure(old(View()), l)
    {
      stage := Closing;
      var sn := NextStatSn();
      out := [LoginResp(false, l.csg, l.csg, l.isid, l.tsih, l.itt, sn, 0x02, 0x03, [])];
    }

    // ----- full feature -----

    method HandleFullFeature(req: Request, bhs: seq<byte>) returns (out: seq<Outbound>)
      requires Valid() && stage.FullFeature? && |bhs| == BHS_LEN
      modifies this, target
      ensures (View(), out) == Session.HandleFullFeature(old(Reg()), old(View()), req, bhs)
      ensures target == old(target) && boundTo == old(boundTo)
    {
      match req {
        case Command(cmd) => out := ScsiCommand(cmd, bhs);
        case Data(d) => out := DataOut(d, bhs);
        case NopOut(lun, itt, _, _, _, data) => out := [NopIn(lun, itt, Sn(), data)];
        case Text(_, _, _, itt, _, _, _, text) => out := SendTargets(itt, text);
        case TaskMgmt(_, _, itt, _, _, _) =>
          var sn := NextStatSn();
          out := [TaskMgmtResp(itt, sn)];
        case Logout(_, _, _, _, _) =>
          stage := Closing;
          var sn := NextStatSn();
          out := [LogoutResp(sn)];
        case Login(_) => out := RejectPdu(PROTOCOL_ERROR, bhs);
        case Unsupported(_, _) => out := RejectPdu(COMMAND_NOT_SUPPORTED, bhs);
      }
    }

    method SendTargets(itt: u32, text: seq<Pair>) returns (out: seq<Outbound>)
      modifies this`statSn
      ensures (View(), out) == TextResponse(Reg(), old(View()), itt, text)
    {
      var keys: seq<Pair> := [];
      if ValueOf(text, "SendTargets").Some? {
        for i := 0 to |names|
          invariant |keys| == i && forall k :: 0 <= k < i ==> keys[k] == Pair("TargetName", names[k])
        {
          keys := keys + [Pair("TargetName", names[i])];
        }
        assert keys == TargetNames(names);
      }
      var sn := NextStatSn();
      out := [TextResp(itt, sn, keys)];
    }

    method ScsiCommand(cmd: ScsiCommand, bhs: seq<byte>) returns (out: seq<Outbound>)
      requires StateOk(View()) && |bhs| == BHS_LEN
      modifies this`expCmdSn, this`statSn, this`inFlight, target
      ensures (View(), out) == ScsiCommandSpec(old(View()), cmd, bhs)
    {
      if target == null {
        out := RejectPdu(PROTOCOL_ERROR, bhs);
        return;
      }
      expCmdSn := Wrap32(expCmdSn + 1);
      if cmd.write {
        out := BeginWrite(cmd, bhs);
        return;
      }
      var outcome := target.Execute(cmd, cmd.data);
      if cmd.read && outcome.status == GOOD && outcome.data != [] {
        out := DataInChunks(cmd, outcome.data);
        return;
      }
      var sn := NextStatSn();
      out := [ScsiResp(outcome.status, cmd.itt, sn, Max(cmd.edtl - Wrap32(|outcome.data|), 0), outcome.sense)];
    }

    method DataInChunks(cmd: ScsiCommand, data: seq<byte>) returns (out: seq<Outbound>)
      requires data != []
      modifies this`statSn
      ensures View() == Session.NextStatSn(old(View()))
      ensures out == Chunks(cmd, CountersOf(old(View())), SegmentLimit(params), data, 0, 0)
    {
      var seg := Max(params.maxRecv, 512);
      ghost var sn, rest := Sn(), Chunks(cmd, Sn(), seg, data, 0, 0);
      ghost var whole := rest;
      out := [];
      var offset: nat, dataSn: nat := 0, 0;
      while offset < |data|
        invariant offset <= |data| && rest == Chunks(cmd, sn, seg, data, offset, dataSn)
        invariant out + rest == whole
        invariant statSn == if offset < |data| then sn.statSn else Wrap32(sn.statSn + 1)
      {
        var end := Min(offset + seg, |data|);
        var isLast := end == |data|;
        var now := Sn();
        if isLast {
          now := NextStatSn();
        }
        var pdu := DataIn(isLast, isLast, cmd.lun, cmd.itt, now, Wrap32(dataSn), Wrap32(offset), data[offset..end]);
        rest := Chunks(cmd, sn, seg, data, end, dataSn + 1);
        Rejoin(out, pdu, rest);
        out := out + [pdu];
        offset, dataSn := end, dataSn + 1;
      }
      assert rest == [];
    }

    method BeginWrite(cmd: ScsiCommand, bhs: seq<byte>) returns (out: seq<Outbound>)
      requires StateOk(View()) && target != null && |bhs| == BHS_LEN
      modifies this`statSn, this`inFlight, target
      ensures (View(), out) == Session.BeginWrite(old(View()), cmd, bhs)
    {
      if |cmd.data| > cmd.edtl {
        out := RejectPdu(PROTOCOL_ERROR, bhs);
        return;
      }
      var pending := PendingWrite(cmd, Patch(Zeros(cmd.edtl), 0, cmd.data), |cmd.data|, 0);
      if pending.received == cmd.edtl {
        out := FinishWrite(pending);
        return;
      }
      inFlight := inFlight[cmd.itt := pending];
      out := [R2tPdu(pending)];
    }

    method DataOut(d: DataOut, bhs: seq<byte>) returns (out: seq<Outbound>)
      requires StateOk(View()) && target != null && |bhs| == BHS_LEN
      modifies this`statSn, this`inFlight, target
      ensures (View(), out) == DataOutSpec(old(View()), d, bhs)
    {
      if d.itt !in inFlight {
        out := RejectPdu(PROTOCOL_ERROR, bhs);
        return;
      }
      var p := inFlight[d.itt];
      if d.bufferOffset + |d.data| > |p.buf| {
        inFlight := inFlight - {d.itt};
        out := RejectPdu(PROTOCOL_ERROR, bhs);
        return;
      }
      p := Placed(p, d);
      if p.received < p.cmd.edtl {
        p := p.(r2tSn := Wrap32(p.r2tSn + 1));
        inFlight := inFlight[d.itt := p];
        out := [R2tPdu(p)];
        return;
      }
      inFlight := inFlight - {d.itt};
      out := FinishWrite(p);
    }

    /** R2T does not consume a StatSN. */
    function R2tPdu(p: PendingWrite): Outbound
      requires p.received <= p.cmd.edtl
      reads this
    {
      R2t(p.cmd.lun, p.cmd.itt, p.cmd.itt, Sn(), p.r2tSn, p.received, Min(p.cmd.edtl - p.received, params.maxBurst))
    }

    method FinishWrite(p: PendingWrite) returns (out: seq<Outbound>)
      requires StateOk(View()) && target != null
      modifies this`statSn, target
      ensures (View(), out) == Session.FinishWrite(old(View()), p)
    {
      var outcome := target.Execute(p.cmd, p.buf);
      var sn := NextStatSn();
      out := [ScsiResp(outcome.status, p.cmd.itt, sn, 0, outcome.sense)];
    }
  }

  lemma Rejoin(out: seq<Outbound>, pdu: Outbound, rest: seq<Outbound>)
    ensures out + ([pdu] + rest) == (out + [pdu]) + rest
  {
  }

  /** `SessionParams::negotiate`, folded over the keys of a login request. */
  method NegotiateKeys(params: Params, text: seq<Pair>) returns (p: Params)
    ensures p == NegotiateAll(params, text)
  {
    p := params;
    var rest := text;
    while rest != []
      invariant NegotiateAll(p, rest) == NegotiateAll(params, text)
      decreases |rest|
    {
      p := Negotiate(p, rest[0]);
      rest := rest[1..];
    }
  }
}
