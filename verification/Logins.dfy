/**
 * What a login comes to, on the fields of its requests (iscsi/session/login.rs:10-116, params.rs:36-59;
 * RFC 7143 sections 6.3 and 11.12): every single PDU, every run of PDUs, and the parameters in force.
 */
module Logins {
  import opened Bytes
  import opened Wrappers
  import opened Numerals
  import opened Pdu
  import opened Scsi
  import opened Session
  import opened SessionRuns

  // ----- which target a request names -----

  predicate Nameless(text: seq<Pair>) {
    forall i :: 0 <= i < |text| ==> text[i].key != "TargetName"
  }

  /** The first TargetName key stands at `i`. */
  predicate NameAt(text: seq<Pair>, i: nat) {
    i < |text| && text[i].key == "TargetName" && forall j :: 0 <= j < i ==> text[j].key != "TargetName"
  }

  ghost predicate Names(text: seq<Pair>, name: string) {
    exists i: nat :: NameAt(text, i) && text[i].value == name
  }

  lemma {:induction false} ValueOfFirst(text: seq<Pair>, key: string) returns (i: nat)
    ensures i <= |text| && forall j :: 0 <= j < i ==> text[j].key != key
    ensures i < |text| ==> text[i].key == key && ValueOf(text, key) == Some(text[i].value)
    ensures i == |text| ==> ValueOf(text, key) == None
  {
    if text == [] || text[0].key == key {
      i := 0;
    } else {
      i := ValueOfFirst(text[1..], key);
      i := i + 1;
      assert forall j :: 0 < j < i ==> text[j] == text[1..][j - 1];
    }
  }

  lemma NameFound(text: seq<Pair>)
    ensures ValueOf(text, "TargetName").None? <==> Nameless(text)
    ensures ValueOf(text, "TargetName").Some? ==> Names(text, ValueOf(text, "TargetName").value)
    ensures forall name :: Names(text, name) ==> ValueOf(text, "TargetName") == Some(name)
  {
    var i := ValueOfFirst(text, "TargetName");
    if i < |text| {
      assert NameAt(text, i);
    }
    forall name | Names(text, name)
      ensures ValueOf(text, "TargetName") == Some(name)
    {
      var j: nat :| NameAt(text, j) && text[j].value == name;
      assert i <= j && !(i < j);
    }
  }

  // ----- one PDU -----

  /** The request asks for the transition to the full-feature phase. */
  predicate AsksFull(l: LoginRequest) {
    l.transit && l.nsg == 3
  }

  /** The target in force once the request is accepted. */
  ghost predicate BindsTo(reg: Registry, s: State, l: LoginRequest, target: Option<Binding>) {
    if s.target.Some? then target == s.target
    else if Nameless(l.text) then target == None
    else target.Some? && Names(l.text, target.value.name) && target.value.name in reg.targets
         && target.value.luns == reg.targets[target.value.name]
  }

  /** The request is turned down: it names no registered target where it has to, or one that is not there. */
  ghost predicate TurnedDown(reg: Registry, s: State, l: LoginRequest) {
    s.target.None? && if Nameless(l.text) then AsksFull(l) else exists name :: Names(l.text, name) && name !in reg.targets
  }

  /** The phase for operational keys, or the jump straight to the full-feature phase. */
  predicate Operational(l: LoginRequest) {
    l.csg == 1 || (l.csg == 0 && l.nsg == 3)
  }

  /** The counters of a login reply: the first request sets StatSN, every one sets ExpCmdSN. */
  predicate LoginSn(s: State, l: LoginRequest, sn: Counters) {
    && sn.statSn == (if s.statSn == 0 then l.expStatSn else s.statSn)
    && sn.expCmdSn == l.cmdSn && sn.maxCmdSn == (l.cmdSn + 16) % 0x1_0000_0000
  }

  predicate FailureReply(s: State, l: LoginRequest, o: Outbound) {
    && o.LoginResp? && LoginSn(s, l, o.sn)
    && !o.transit && o.csg == l.csg && o.nsg == l.csg && o.isid == l.isid && o.tsih == l.tsih && o.itt == l.itt
    && o.statusClass == 2 && o.statusDetail == 3 && o.text == []
  }

  /** The reply to an accepted request grants a transition exactly if one to stage 1 or 3 was asked for. */
  predicate SuccessReply(s: State, l: LoginRequest, o: Outbound) {
    && o.LoginResp? && LoginSn(s, l, o.sn)
    && (o.transit <==> l.transit && (l.nsg == 1 || l.nsg == 3))
    && o.csg == l.csg && o.nsg == l.nsg && o.isid == l.isid && o.itt == l.itt
    && o.tsih == (if l.tsih == 0 then 1 else l.tsih)
    && o.statusClass == 0 && o.statusDetail == 0
  }

  /**
   * Every login PDU in the login stage: which stage it leads to, which target it binds, which parameters
   * it leaves in force, and a reply that says so.
   */
  ghost predicate LoginStep(reg: Registry, s: State, l: LoginRequest, t: State, outs: seq<Outbound>) {
    && |outs| == 1 && t.inFlight == s.inFlight
    && t.statSn == Wrap32(outs[0].sn.statSn + 1) && t.expCmdSn == l.cmdSn
    && if TurnedDown(reg, s, l)
       then t.stage == Closing && t.target == None && t.params == s.params && FailureReply(s, l, outs[0])
       else
         && t.stage == (if AsksFull(l) then FullFeature else LoginStage) && BindsTo(reg, s, l, t.target)
         && SuccessReply(s, l, outs[0])
         && ParamsStep(s.params, l, t.params, outs[0].text)
  }

  /** Operational keys are negotiated and the result announced; otherwise the parameters stand and nothing is said. */
  ghost predicate ParamsStep(p: Params, l: LoginRequest, q: Params, reply: seq<Pair>) {
    if Operational(l) then Negotiated(p, l.text, q) && Announces(q, reply) else q == p && reply == []
  }

  lemma LoginParams(p: Params, l: LoginRequest)
    ensures var q := if Negotiates(l) then NegotiateAll(p, l.text) else p;
            ParamsStep(p, l, q, if Negotiates(l) then ReplyKeys(q) else [])
  {
    if Operational(l) {
      NegotiatedAll(p, l.text, NegotiateAll(p, l.text));
      AnnouncesReply(NegotiateAll(p, l.text));
    }
  }

  lemma SuccessPlain(s: State, l: LoginRequest, q: Params, reply: seq<Pair>)
    requires s.stage.LoginStage? && q == if Negotiates(l) then NegotiateAll(s.params, l.text) else s.params
    requires reply == if Negotiates(l) then ReplyKeys(q) else []
    ensures LoginSucceeds(s, l)
         == (s.(params := q, stage := if AsksFull(l) then FullFeature else LoginStage, statSn := Wrap32(s.statSn + 1)),
             [LoginResp(l.transit && (l.nsg == 1 || l.nsg == 3), l.csg, l.nsg, l.isid, if l.tsih == 0 then 1 else l.tsih,
                        l.itt, CountersOf(s), 0, 0, reply)])
  {
  }

  lemma SuccessShape(s: State, l: LoginRequest) returns (q: Params, reply: seq<Pair>)
    requires s.stage.LoginStage?
    ensures ParamsStep(s.params, l, q, reply)
    ensures LoginSucceeds(s, l)
         == (s.(params := q, stage := if AsksFull(l) then FullFeature else LoginStage, statSn := Wrap32(s.statSn + 1)),
             [LoginResp(l.transit && (l.nsg == 1 || l.nsg == 3), l.csg, l.nsg, l.isid, if l.tsih == 0 then 1 else l.tsih,
                        l.itt, CountersOf(s), 0, 0, reply)])
  {
    q := if Negotiates(l) then NegotiateAll(s.params, l.text) else s.params;
    reply := if Negotiates(l) then ReplyKeys(q) else [];
    SuccessPlain(s, l, q, reply);
    LoginParams(s.params, l);
  }

  lemma ResolveMeans(reg: Registry, s: State, l: LoginRequest)
    ensures Resolve(reg, s, l).None? <==> TurnedDown(reg, s, l)
    ensures Resolve(reg, s, l).Some? ==> BindsTo(reg, s, l, Resolve(reg, s, l).value)
  {
    NameFound(l.text);
  }

  /** An accepted request's state and reply, spelled out. */
  lemma AcceptedStep(reg: Registry, s: State, l: LoginRequest, target: Option<Binding>, q: Params, sn: Counters, text: seq<Pair>)
    requires !TurnedDown(reg, s, l) && BindsTo(reg, s, l, target) && ParamsStep(s.params, l, q, text) && LoginSn(s, l, sn)
    requires s.stage.LoginStage?
    ensures LoginStep(reg, s, l,
                      State(if AsksFull(l) then FullFeature else LoginStage, q, target, Wrap32(sn.statSn + 1), l.cmdSn, s.inFlight),
                      [LoginResp(l.transit && (l.nsg == 1 || l.nsg == 3), l.csg, l.nsg, l.isid, if l.tsih == 0 then 1 else l.tsih,
                                 l.itt, sn, 0, 0, text)])
  {
  }

  lemma LoginAccepted(reg: Registry, s: State, l: LoginRequest)
    requires s.stage.LoginStage? && !TurnedDown(reg, s, l)
    ensures var (t, outs) := Session.HandleLogin(reg, s, l); LoginStep(reg, s, l, t, outs)
  {
    ResolveMeans(reg, s, l);
    var s' := s.(statSn := if s.statSn == 0 then l.expStatSn else s.statSn, expCmdSn := l.cmdSn, target := Resolve(reg, s, l).value);
    var q, text := SuccessShape(s', l);
    AcceptedStep(reg, s, l, s'.target, q, CountersOf(s'), text);
  }

  lemma LoginTurnedDown(reg: Registry, s: State, l: LoginRequest)
    requires s.stage.LoginStage? && TurnedDown(reg, s, l)
    ensures var (t, outs) := Session.HandleLogin(reg, s, l); LoginStep(reg, s, l, t, outs)
  {
    ResolveMeans(reg, s, l);
  }

  lemma LoginMeans(reg: Registry, s: State, l: LoginRequest, bhs: HeaderBytes)
    requires RegistryOk(reg) && WellFormed(s) && s.stage.LoginStage?
    ensures var (t, outs) := Handle(reg, s, Login(l), bhs); LoginStep(reg, s, l, t, outs)
  {
    if TurnedDown(reg, s, l) {
      LoginTurnedDown(reg, s, l);
    } else {
      LoginAccepted(reg, s, l);
    }
  }

  /** The full-feature phase is entered exactly by a transition to stage 3 with a target bound or a registered one named. */
  lemma FullFeatureIff(reg: Registry, s: State, l: LoginRequest, bhs: HeaderBytes)
    requires RegistryOk(reg) && WellFormed(s) && s.stage.LoginStage?
    ensures var (t, outs) := Handle(reg, s, Login(l), bhs);
            && (t.stage.FullFeature? <==> l.transit && l.nsg == 3
                                          && (s.target.Some? || exists name :: Names(l.text, name) && name in reg.targets))
            && (t.stage.Closing? <==> s.target.None? && ((exists name :: Names(l.text, name) && name !in reg.targets)
                                                         || (Nameless(l.text) && l.transit && l.nsg == 3)))
            && |outs| == 1 && outs[0].LoginResp?
            && (t.stage.FullFeature? <==> outs[0].transit && outs[0].nsg == 3)
            && (t.stage.Closing? <==> outs[0].statusClass != 0)
  {
    LoginMeans(reg, s, l, bhs);
    NameFound(l.text);
  }

  // ----- the parameters -----

  /** "Yes" in any mix of cases. */
  predicate Yes(s: string) {
    || s == "Yes" || s == "YES" || s == "yes" || s == "YEs"
    || s == "yEs" || s == "yES" || s == "YeS" || s == "yeS"
  }

  /** `s` is read as the 32-bit number `n`. */
  predicate NumberIs(s: string, n: nat) {
    ParseUnsigned(s, 0xffff_ffff) == Some(n)
  }

  /** The key is offered at `i` as the number `n`. */
  predicate Offers(text: seq<Pair>, key: string, i: nat, n: nat) {
    i < |text| && text[i].key == key && NumberIs(text[i].value, n)
  }

  /** The least of a start value and every number offered for the key. */
  ghost predicate Least(start: nat, text: seq<Pair>, key: string, v: nat) {
    && v <= start && (forall i: nat, n: nat :: Offers(text, key, i, n) ==> v <= n)
    && (v == start || exists i: nat :: Offers(text, key, i, v))
  }

  /** The number offered last for the key. */
  ghost predicate LastOffer(text: seq<Pair>, key: string, v: nat) {
    exists i: nat :: Offers(text, key, i, v) && forall j: nat, n: nat :: Offers(text, key, j, n) ==> j <= i
  }

  /** The number offered last for the key, or the start value. */
  ghost predicate Latest(start: nat, text: seq<Pair>, key: string, v: nat) {
    LastOffer(text, key, v) || (v == start && forall i: nat, n: nat :: !Offers(text, key, i, n))
  }

  /** The flag stands and nothing but yes was said to it. */
  predicate Agreed(start: bool, text: seq<Pair>, key: string) {
    start && forall i :: 0 <= i < |text| && text[i].key == key ==> Yes(text[i].value)
  }

  /** What negotiation means, whatever the order and number of keys. */
  ghost predicate Negotiated(p: Params, text: seq<Pair>, q: Params) {
    && Latest(p.maxRecv, text, "MaxRecvDataSegmentLength", q.maxRecv)
    && Least(p.firstBurst, text, "FirstBurstLength", q.firstBurst)
    && Least(p.maxBurst, text, "MaxBurstLength", q.maxBurst)
    && (q.immediateData <==> Agreed(p.immediateData, text, "ImmediateData"))
    && (q.initialR2T <==> Agreed(p.initialR2T, text, "InitialR2T"))
  }

  lemma YesIff(s: string)
    ensures SaysYes(s) <==> Yes(s)
  {
    if SaysYes(s) {
      assert s == [s[0], s[1], s[2]];
    }
  }

  lemma OffersNext(text: seq<Pair>, key: string, i: nat, n: nat)
    requires text != []
    ensures Offers(text, key, i + 1, n) <==> Offers(text[1..], key, i, n)
  {
  }

  lemma LaterOffer(text: seq<Pair>, key: string, i: nat, n: nat)
    requires text != [] && Offers(text, key, i, n) && i > 0
    ensures Offers(text[1..], key, i - 1, n)
  {
    OffersNext(text, key, i - 1, n);
  }

  /** The value after the first key: its number if it is an offer for `key`, combined with the start value by `least`. */
  ghost predicate FirstStep(start: nat, pair: Pair, key: string, least: bool, mid: nat) {
    if pair.key == key && exists n: nat :: NumberIs(pair.value, n)
    then exists n: nat :: NumberIs(pair.value, n) && mid == if least then Min(start, n) else n
    else mid == start
  }

  lemma LeastNext(start: nat, text: seq<Pair>, key: string, v: nat, mid: nat)
    requires text != [] && Least(mid, text[1..], key, v) && FirstStep(start, text[0], key, true, mid)
    ensures Least(start, text, key, v)
  {
    forall i: nat, n: nat | Offers(text, key, i, n)
      ensures v <= n
    {
      if i > 0 {
        LaterOffer(text, key, i, n);
      }
    }
    if v != start && v != mid {
      var i: nat :| Offers(text[1..], key, i, v);
      OffersNext(text, key, i, v);
    } else if v != start {
      assert Offers(text, key, 0, v);
    }
  }

  lemma LatestNext(start: nat, text: seq<Pair>, key: string, v: nat, mid: nat)
    requires text != [] && Latest(mid, text[1..], key, v) && FirstStep(start, text[0], key, false, mid)
    ensures Latest(start, text, key, v)
  {
    if LastOffer(text[1..], key, v) {
      var last: nat :| Offers(text[1..], key, last, v) && forall j: nat, n: nat :: Offers(text[1..], key, j, n) ==> j <= last;
      OffersNext(text, key, last, v);
      forall j: nat, n: nat | Offers(text, key, j, n)
        ensures j <= last + 1
      {
        if j > 0 {
          LaterOffer(text, key, j, n);
        }
      }
    } else {
      forall i: nat, n: nat | Offers(text, key, i, n)
        ensures i == 0
      {
        if i > 0 {
          LaterOffer(text, key, i, n);
        }
      }
      if mid != start {
        assert Offers(text, key, 0, mid);
      }
    }
  }

  lemma AgreedNext(start: bool, text: seq<Pair>, key: string, mid: bool)
    requires text != [] && mid == if text[0].key == key then start && Yes(text[0].value) else start
    ensures Agreed(mid, text[1..], key) <==> Agreed(start, text, key)
  {
    if Agreed(mid, text[1..], key) {
      forall i | 0 <= i < |text| && text[i].key == key
        ensures Yes(text[i].value)
      {
        assert i > 0 ==> text[1..][i - 1] == text[i];
      }
    }
  }

  /** One key moves only its own parameter, and as its rule says. */
  lemma NegotiateOne(p: Params, pair: Pair)
    ensures var q := Negotiate(p, pair);
            && FirstStep(p.maxRecv, pair, "MaxRecvDataSegmentLength", false, q.maxRecv)
            && FirstStep(p.firstBurst, pair, "FirstBurstLength", true, q.firstBurst)
            && FirstStep(p.maxBurst, pair, "MaxBurstLength", true, q.maxBurst)
            && q.immediateData == (if pair.key == "ImmediateData" then p.immediateData && Yes(pair.value) else p.immediateData)
            && q.initialR2T == (if pair.key == "InitialR2T" then p.initialR2T && Yes(pair.value) else p.initialR2T)
  {
    YesIff(pair.value);
    var n := ParseUnsigned(pair.value, U32_SPAN - 1);
    if n.Some? {
      assert NumberIs(pair.value, n.value);
    }
  }

  /** Folding the keys one by one comes to exactly that. */
  lemma {:induction false} NegotiatedAll(p: Params, text: seq<Pair>, q: Params)
    requires q == NegotiateAll(p, text)
    ensures Negotiated(p, text, q)
    decreases |text|
  {
    if text != [] {
      var mid := Negotiate(p, text[0]);
      NegotiateOne(p, text[0]);
      NegotiatedAll(mid, text[1..], q);
      LatestNext(p.maxRecv, text, "MaxRecvDataSegmentLength", q.maxRecv, mid.maxRecv);
      LeastNext(p.firstBurst, text, "FirstBurstLength", q.firstBurst, mid.firstBurst);
      LeastNext(p.maxBurst, text, "MaxBurstLength", q.maxBurst, mid.maxBurst);
      AgreedNext(p.immediateData, text, "ImmediateData", mid.immediateData);
      AgreedNext(p.initialR2T, text, "InitialR2T", mid.initialR2T);
    }
  }

  /** The keys of a reply say the parameters in force, as an initiator reads them. */
  predicate Announces(p: Params, text: seq<Pair>) {
    && |text| == 6
    && text[0].key == "MaxBurstLength" && NumberIs(text[0].value, p.maxBurst)
    && text[1].key == "FirstBurstLength" && NumberIs(text[1].value, p.firstBurst)
    && text[2] == Pair("ImmediateData", if p.immediateData then "Yes" else "No")
    && text[3] == Pair("InitialR2T", if p.initialR2T then "Yes" else "No")
    && text[4] == Pair("HeaderDigest", "None") && text[5] == Pair("DataDigest", "None")
  }

  lemma DecimalNumber(n: u32)
    ensures NumberIs(DecimalOf(n), n)
  {
    DecimalRoundTrip(n, U32_SPAN - 1);
  }

  lemma AnnouncesReply(p: Params)
    ensures Announces(p, ReplyKeys(p))
  {
    DecimalNumber(p.maxBurst);
    DecimalNumber(p.firstBurst);
  }

  // ----- runs of login PDUs -----

  predicate AllLogins(inputs: seq<Input>) {
    forall i :: 0 <= i < |inputs| ==> inputs[i].req.Login?
  }

  /** The first request that asks for the full-feature phase. */
  predicate FirstAsk(inputs: seq<Input>, i: nat)
    requires AllLogins(inputs)
  {
    i < |inputs| && AsksFull(inputs[i].req.login) && forall j :: 0 <= j < i ==> !AsksFull(inputs[j].req.login)
  }

  /** The first request that names a target. */
  predicate FirstNaming(inputs: seq<Input>, m: nat)
    requires AllLogins(inputs)
  {
    m < |inputs| && !Nameless(inputs[m].req.login.text) && forall j :: 0 <= j < m ==> Nameless(inputs[j].req.login.text)
  }

  ghost predicate Registered(reg: Registry, text: seq<Pair>) {
    exists name :: Names(text, name) && name in reg.targets
  }

  /** By request `i` a registered target has been named: by the first request that names any. */
  ghost predicate NamedBy(reg: Registry, inputs: seq<Input>, i: nat)
    requires AllLogins(inputs)
  {
    exists m: nat :: m <= i && FirstNaming(inputs, m) && Registered(reg, inputs[m].req.login.text)
  }

  /** The first request that asks for the full-feature phase comes with or after the name of a registered target. */
  ghost predicate Reaches(reg: Registry, bound: bool, inputs: seq<Input>)
    requires AllLogins(inputs)
  {
    exists i: nat :: FirstAsk(inputs, i) && (bound || NamedBy(reg, inputs, i))
  }

  lemma AsksNext(inputs: seq<Input>, i: nat)
    requires AllLogins(inputs) && inputs != [] && !AsksFull(inputs[0].req.login)
    ensures FirstAsk(inputs, i + 1) <==> FirstAsk(inputs[1..], i)
    ensures !FirstAsk(inputs, 0)
  {
    if FirstAsk(inputs[1..], i) {
      forall j | 0 <= j < i + 1
        ensures !AsksFull(inputs[j].req.login)
      {
        assert j > 0 ==> inputs[1..][j - 1] == inputs[j];
      }
    }
    if FirstAsk(inputs, i + 1) {
      forall j | 0 <= j < i
        ensures !AsksFull(inputs[1..][j].req.login)
      {
        assert inputs[1..][j] == inputs[j + 1];
      }
    }
  }

  lemma NamingNext(inputs: seq<Input>, m: nat)
    requires AllLogins(inputs) && inputs != [] && Nameless(inputs[0].req.login.text)
    ensures FirstNaming(inputs, m + 1) <==> FirstNaming(inputs[1..], m)
    ensures !FirstNaming(inputs, 0)
  {
    if FirstNaming(inputs[1..], m) {
      forall j | 0 <= j < m + 1
        ensures Nameless(inputs[j].req.login.text)
      {
        assert j > 0 ==> inputs[1..][j - 1] == inputs[j];
      }
    }
    if FirstNaming(inputs, m + 1) {
      forall j | 0 <= j < m
        ensures Nameless(inputs[1..][j].req.login.text)
      {
        assert inputs[1..][j] == inputs[j + 1];
      }
    }
  }

  lemma NamedNext(reg: Registry, inputs: seq<Input>, i: nat)
    requires AllLogins(inputs) && inputs != [] && Nameless(inputs[0].req.login.text)
    ensures NamedBy(reg, inputs, i + 1) <==> NamedBy(reg, inputs[1..], i)
  {
    if NamedBy(reg, inputs, i + 1) {
      var m: nat :| m <= i + 1 && FirstNaming(inputs, m) && Registered(reg, inputs[m].req.login.text);
      NamingNext(inputs, 0);
      NamingNext(inputs, m - 1);
    }
    if NamedBy(reg, inputs[1..], i) {
      var m: nat :| m <= i && FirstNaming(inputs[1..], m) && Registered(reg, inputs[1..][m].req.login.text);
      NamingNext(inputs, m);
    }
  }

  /** With a name in the first request only that name matters. */
  lemma NamedAtOnce(reg: Registry, inputs: seq<Input>, i: nat)
    requires AllLogins(inputs) && inputs != [] && !Nameless(inputs[0].req.login.text)
    ensures NamedBy(reg, inputs, i) <==> Registered(reg, inputs[0].req.login.text)
  {
    assert FirstNaming(inputs, 0);
    if m: nat :| m <= i && FirstNaming(inputs, m) && Registered(reg, inputs[m].req.login.text) {
      assert m == 0;
    }
  }

  /** A first request that does not ask yet: the rest decides, given whether a target is bound by then. */
  lemma ReachesNext(reg: Registry, bound: bool, inputs: seq<Input>)
    requires AllLogins(inputs) && inputs != [] && !AsksFull(inputs[0].req.login)
    requires !bound ==> Nameless(inputs[0].req.login.text) || Registered(reg, inputs[0].req.login.text)
    ensures Reaches(reg, bound, inputs) <==> Reaches(reg, bound || !Nameless(inputs[0].req.login.text), inputs[1..])
  {
    var named := !Nameless(inputs[0].req.login.text);
    if i: nat :| FirstAsk(inputs, i) && (bound || NamedBy(reg, inputs, i)) {
      AsksNext(inputs, 0);
      AsksNext(inputs, i - 1);
      if !named {
        NamedNext(reg, inputs, i - 1);
      }
      assert FirstAsk(inputs[1..], i - 1);
    }
    if i: nat :| FirstAsk(inputs[1..], i) && (bound || named || NamedBy(reg, inputs[1..], i)) {
      AsksNext(inputs, i);
      if named {
        NamedAtOnce(reg, inputs, i + 1);
      } else {
        NamedNext(reg, inputs, i);
      }
      assert FirstAsk(inputs, i + 1);
    }
  }

  /** A first request that asks at once, or is turned down, decides alone. */
  lemma ReachesNow(reg: Registry, bound: bool, inputs: seq<Input>)
    requires AllLogins(inputs) && inputs != []
    ensures AsksFull(inputs[0].req.login) ==>
              (Reaches(reg, bound, inputs) <==> bound || Registered(reg, inputs[0].req.login.text))
    ensures !bound && !Nameless(inputs[0].req.login.text) && !Registered(reg, inputs[0].req.login.text) ==> !Reaches(reg, bound, inputs)
  {
    var l := inputs[0].req.login;
    NameFound(l.text);
    if AsksFull(l) {
      assert FirstAsk(inputs, 0);
      if Nameless(l.text) {
        NamingNext(inputs, 0);
      } else {
        NamedAtOnce(reg, inputs, 0);
      }
    }
    if !Nameless(l.text) {
      forall i: nat
        ensures NamedBy(reg, inputs, i) <==> Registered(reg, l.text)
      {
        NamedAtOnce(reg, inputs, i);
      }
    }
  }

  /** Once the login stage is left, login requests change neither stage nor target. */
  lemma {:induction false} LoginsRejected(reg: Registry, s: State, inputs: seq<Input>)
    requires RegistryOk(reg) && WellFormed(s) && !s.stage.LoginStage? && AllLogins(inputs)
    ensures var t := Run(reg, s, inputs).0;
            t.stage == s.stage && t.target == s.target && t.params == s.params && t.inFlight == s.inFlight
    decreases |inputs|
  {
    if inputs != [] {
      HandleKeepsOk(reg, s, inputs[0].req, inputs[0].bhs);
      LoginsRejected(reg, Handle(reg, s, inputs[0].req, inputs[0].bhs).0, inputs[1..]);
    }
  }

  /** The binding after a run of login requests is to the target named first. */
  ghost predicate BoundAs(reg: Registry, inputs: seq<Input>, target: Option<Binding>)
    requires AllLogins(inputs)
  {
    && target.Some? && target.value.name in reg.targets && target.value.luns == reg.targets[target.value.name]
    && exists m: nat :: FirstNaming(inputs, m) && Names(inputs[m].req.login.text, target.value.name)
  }

  lemma BoundNext(reg: Registry, inputs: seq<Input>, target: Option<Binding>)
    requires AllLogins(inputs) && inputs != [] && Nameless(inputs[0].req.login.text) && BoundAs(reg, inputs[1..], target)
    ensures BoundAs(reg, inputs, target)
  {
    var m: nat :| FirstNaming(inputs[1..], m) && Names(inputs[1..][m].req.login.text, target.value.name);
    NamingNext(inputs, m);
  }

  /**
   * Over every run of login requests: the full-feature phase is reached exactly if the first request that
   * asks for it comes with or after the name of a registered target, and the session is then bound to
   * the target named first.
   */
  lemma {:induction false} LoginRunIff(reg: Registry, s: State, inputs: seq<Input>)
    requires RegistryOk(reg) && WellFormed(s) && s.stage.LoginStage? && AllLogins(inputs)
    ensures var t := Run(reg, s, inputs).0;
            && (t.stage.FullFeature? <==> Reaches(reg, s.target.Some?, inputs))
            && (s.target.Some? ==> t.target == s.target)
            && (s.target.None? && t.stage.FullFeature? ==> BoundAs(reg, inputs, t.target))
    decreases |inputs|
  {
    if inputs != [] {
      var l, rest := inputs[0].req.login, inputs[1..];
      var next := Handle(reg, s, inputs[0].req, inputs[0].bhs).0;
      HandleKeepsOk(reg, s, inputs[0].req, inputs[0].bhs);
      LoginMeans(reg, s, l, inputs[0].bhs);
      NameFound(l.text);
      ReachesNow(reg, s.target.Some?, inputs);
      if next.stage.LoginStage? {
        LoginRunIff(reg, next, rest);
        ReachesNext(reg, s.target.Some?, inputs);
        if s.target.None? && Nameless(l.text) && Run(reg, next, rest).0.stage.FullFeature? {
          BoundNext(reg, inputs, Run(reg, next, rest).0.target);
        }
      } else {
        LoginsRejected(reg, next, rest);
      }
      if s.target.None? && !Nameless(l.text) {
        assert FirstNaming(inputs, 0);
      }
    }
  }

  /** The usual two requests: security to operational negotiation, then on to the full-feature phase. */
  predicate TwoSteps(a: LoginRequest, b: LoginRequest) {
    && a.transit && a.csg == 0 && a.nsg == 1
    && b.transit && b.csg == 1 && b.nsg == 3
  }

  /** The first of the two that names a target names this one. */
  ghost predicate NamedInTwo(a: LoginRequest, b: LoginRequest, name: string) {
    Names(a.text, name) || (Nameless(a.text) && Names(b.text, name))
  }

  lemma {:induction false} RunOfTwo(reg: Registry, s: State, a: Input, b: Input)
    requires RegistryOk(reg) && WellFormed(s)
    ensures var (mid, out) := Handle(reg, s, a.req, a.bhs);
            && WellFormed(mid)
            && Run(reg, s, [a, b]) == (Handle(reg, mid, b.req, b.bhs).0, out + Handle(reg, mid, b.req, b.bhs).1)
  {
    var (mid, out) := Handle(reg, s, a.req, a.bhs);
    HandleKeepsOk(reg, s, a.req, a.bhs);
    HandleKeepsOk(reg, mid, b.req, b.bhs);
    var (end, rest) := Handle(reg, mid, b.req, b.bhs);
    assert [a, b][1..] == [b] && [b][1..] == [];
    assert Run(reg, end, []) == (end, []);
    assert Run(reg, mid, [b]) == (end, rest + []);
    assert rest + [] == rest;
  }

  /** What the two requests come to. */
  ghost predicate LoggedIn(reg: Registry, name: string, b: LoginRequest, t: State, outs: seq<Outbound>)
    requires name in reg.targets
  {
    && t.stage == FullFeature && t.target == Some(Binding(name, reg.targets[name])) && t.inFlight == map[]
    && Negotiated(Params(8192, 65536, 262144, true, true), b.text, t.params)
    && |outs| == 2 && outs[0].LoginResp? && outs[1].LoginResp?
    && outs[0].transit && outs[0].nsg == 1 && outs[0].statusClass == 0
    && outs[1].transit && outs[1].nsg == 3 && outs[1].statusClass == 0 && Announces(t.params, outs[1].text)
  }

  /** From the initial state the two requests end in the full-feature phase, bound to the target named, with the negotiated parameters. */
  lemma TwoStepLogin(reg: Registry, a: Input, b: Input, name: string)
    requires RegistryOk(reg) && a.req.Login? && b.req.Login? && TwoSteps(a.req.login, b.req.login)
    requires name in reg.targets && NamedInTwo(a.req.login, b.req.login, name)
    ensures WellFormed(INITIAL)
    ensures var (t, outs) := Run(reg, INITIAL, [a, b]); WellFormed(t) && LoggedIn(reg, name, b.req.login, t, outs)
  {
    var (mid, out) := Handle(reg, INITIAL, a.req, a.bhs);
    RunOfTwo(reg, INITIAL, a, b);
    StageSafety(reg, INITIAL, [a, b]);
    NameFound(a.req.login.text);
    NameFound(b.req.login.text);
    LoginMeans(reg, INITIAL, a.req.login, a.bhs);
    LoginMeans(reg, mid, b.req.login, b.bhs);
  }
}
