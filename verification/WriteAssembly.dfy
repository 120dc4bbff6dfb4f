/**
 * Assembling the data of many writes in flight (iscsi/session/mod.rs:325-428; RFC 7143 sections
 * 11.7 and 11.8), against an initiator that sends each write's bytes in order.
 */
module WriteAssembly {
  import opened Bytes
  import opened Wrappers
  import opened Pdu
  import opened Scsi
  import opened Session
  import opened SessionRuns
  import opened Executions
  import opened Numerals

  /** A write as its initiator sees it: the command and the whole payload. */
  datatype Write = Write(cmd: ScsiCommand, payload: seq<byte>)

  /** A write not yet complete: the bytes sent so far and the R2Ts received for it. */
  datatype Sending = Sending(w: Write, sent: nat, r2ts: nat)

  type Outstanding = map<u32, Sending>

  /** What the initiator may do; `Other` is anything that is neither write data nor the end of the session. */
  datatype Action = Start(w: Write) | Send(d: DataOut) | Other(req: Request)

  function RequestOf(a: Action): Request {
    match a
    case Start(w) => Command(w.cmd)
    case Send(d) => Data(d)
    case Other(req) => req
  }

  /**
   * The initiator's discipline: a fresh tag for each write, immediate data that begins the payload,
   * and Data-Outs that are not empty and start exactly at the bytes already sent for their tag.
   */
  predicate Disciplined(ini: Outstanding, a: Action) {
    match a
    case Start(w) =>
      w.cmd.write && w.cmd.itt !in ini && |w.payload| == w.cmd.edtl && w.cmd.data <= w.payload
    case Send(d) =>
      && d.itt in ini && d.data != [] && d.bufferOffset == ini[d.itt].sent
      && d.bufferOffset + |d.data| <= |ini[d.itt].w.payload|
      && d.data == ini[d.itt].w.payload[d.bufferOffset..d.bufferOffset + |d.data|]
    case Other(req) => !req.Data? && !req.Logout? && (req.Command? ==> !req.cmd.write)
  }

  /** The initiator after its action. */
  function After(ini: Outstanding, a: Action): Outstanding
    requires Disciplined(ini, a)
  {
    match a
    case Start(w) => if |w.cmd.data| == |w.payload| then ini else ini[w.cmd.itt := Sending(w, |w.cmd.data|, 1)]
    case Send(d) =>
      var o := ini[d.itt];
      var sent := o.sent + |d.data|;
      if sent == |o.w.payload| then ini - {d.itt} else ini[d.itt := Sending(o.w, sent, o.r2ts + 1)]
    case Other(_) => ini
  }

  /** A write in flight holds exactly the payload's first `sent` bytes, and has been sent `r2ts` R2Ts. */
  predicate Tracks(itt: u32, p: PendingWrite, o: Sending) {
    && p.cmd == o.w.cmd && p.cmd.itt == itt && p.cmd.write && |o.w.payload| == p.cmd.edtl == |p.buf|
    && p.received == o.sent < |o.w.payload|
    && p.buf[..o.sent] == o.w.payload[..o.sent]
    && 1 <= o.r2ts == p.r2tSn + 1 <= o.sent + 1
  }

  /** Session and initiator agree on every write in flight. */
  ghost predicate Agree(inFlight: map<u32, PendingWrite>, ini: Outstanding) {
    && inFlight.Keys == ini.Keys
    && forall itt :: itt in ini ==> itt in inFlight && Tracks(itt, inFlight[itt], ini[itt])
  }

  lemma AgreeOnUpdate(inFlight: map<u32, PendingWrite>, ini: Outstanding, itt: u32, p: PendingWrite, o: Sending)
    requires Agree(inFlight, ini) && Tracks(itt, p, o)
    ensures Agree(inFlight[itt := p], ini[itt := o])
  {
  }

  lemma AgreeOnRemoval(inFlight: map<u32, PendingWrite>, ini: Outstanding, itt: u32)
    requires Agree(inFlight, ini)
    ensures Agree(inFlight - {itt}, ini - {itt})
  {
  }

  ghost predicate InStep(s: State, ini: Outstanding) {
    WellFormed(s) && s.stage.FullFeature? && Agree(s.inFlight, ini)
  }

  /** The write an action completes. */
  function Completes(ini: Outstanding, a: Action): Option<Write>
    requires Disciplined(ini, a)
  {
    match a
    case Start(w) => if |w.cmd.data| == |w.payload| then Some(w) else None
    case Send(d) => if ini[d.itt].sent + |d.data| == |ini[d.itt].w.payload| then Some(ini[d.itt].w) else None
    case Other(_) => None
  }

  /**
   * The R2T for a write that still lacks data: it starts at the bytes received, stays within the
   * expected length and the burst limit, and R2TSN counts 0, 1, 2, ... for its tag.
   */
  predicate R2tOk(o: Outbound, maxBurst: u32, ini: Outstanding, itt: u32) {
    && o.R2t? && o.itt == itt && o.ttt == itt && itt in ini
    && o.lun == ini[itt].w.cmd.lun && o.bufferOffset == ini[itt].sent && o.r2tSn == ini[itt].r2ts - 1
    && o.desiredLength == Min(|ini[itt].w.payload| - ini[itt].sent, maxBurst)
  }

  /** A completing action executes exactly its write; any other write action is answered by an R2T. */
  predicate ReplyOk(maxBurst: u32, ini: Outstanding, a: Action, outs: seq<Outbound>, e: Option<Execution>)
    requires Disciplined(ini, a)
  {
    match Completes(ini, a)
    case Some(w) => e == Some(Execution(w.cmd, w.payload)) && |outs| == 1 && outs[0].ScsiResp? && outs[0].itt == w.cmd.itt
    case None =>
      match a
      case Start(w) => e.None? && |outs| == 1 && R2tOk(outs[0], maxBurst, After(ini, a), w.cmd.itt)
      case Send(d) => e.None? && |outs| == 1 && R2tOk(outs[0], maxBurst, After(ini, a), d.itt)
      case Other(_) => e.Some? ==> !e.value.cmd.write
  }

  lemma StartAssembles(s: State, ini: Outstanding, w: Write, bhs: HeaderBytes)
    requires InStep(s, ini) && Disciplined(ini, Start(w))
    ensures var (t, outs) := ScsiCommandSpec(s, w.cmd, bhs);
            && Agree(t.inFlight, After(ini, Start(w))) && t.stage == s.stage && t.params == s.params
            && ReplyOk(s.params.maxBurst, ini, Start(w), outs, ExecutedBy(s, Command(w.cmd)))
  {
    var cmd := w.cmd;
    if |cmd.data| < cmd.edtl {
      var buf := Patch(Zeros(cmd.edtl), 0, cmd.data);
      assert buf[..|cmd.data|] == cmd.data == w.payload[..|cmd.data|];
      AgreeOnUpdate(s.inFlight, ini, cmd.itt, PendingWrite(cmd, buf, |cmd.data|, 0), Sending(w, |cmd.data|, 1));
    } else {
      assert cmd.data == w.payload;
    }
  }

  /** Patching the next bytes extends the assembled prefix. */
  lemma PatchExtends(buf: seq<byte>, payload: seq<byte>, sent: nat, n: nat)
    requires |buf| == |payload| && sent + n <= |payload| && buf[..sent] == payload[..sent]
    ensures Patch(buf, sent, payload[sent..sent + n])[..sent + n] == payload[..sent + n]
    ensures sent + n == |payload| ==> Patch(buf, sent, payload[sent..sent + n]) == payload
  {
    var after := Patch(buf, sent, payload[sent..sent + n]);
    forall k | 0 <= k < sent + n
      ensures after[k] == payload[k]
    {
      assert k < sent ==> buf[k] == buf[..sent][k] == payload[..sent][k];
    }
  }

  /** A Data-Out that leaves bytes missing: the buffer grows and the next R2T goes out. */
  lemma SendMore(s: State, p: PendingWrite, d: DataOut, bhs: HeaderBytes)
    requires StateOk(s) && s.stage.FullFeature? && s.target.Some? && d.itt in s.inFlight && s.inFlight[d.itt] == p
    requires d.bufferOffset + |d.data| <= |p.buf| && Wrap32(p.received + |d.data|) < p.cmd.edtl
    ensures var next := PendingWrite(p.cmd, Patch(p.buf, d.bufferOffset, d.data), Wrap32(p.received + |d.data|), Wrap32(p.r2tSn + 1));
            var t := s.(inFlight := s.inFlight[d.itt := next]);
            DataOutSpec(s, d, bhs) == (t, [NextR2t(t, next)])
    ensures ExecutedBy(s, Data(d)) == None
  {
    DataOutMore(s, d, bhs);
  }

  /** A Data-Out that completes the count: the write leaves the table and is executed. */
  lemma SendLast(s: State, p: PendingWrite, d: DataOut, bhs: HeaderBytes)
    requires StateOk(s) && s.stage.FullFeature? && s.target.Some? && d.itt in s.inFlight && s.inFlight[d.itt] == p
    requires d.bufferOffset + |d.data| <= |p.buf| && Wrap32(p.received + |d.data|) >= p.cmd.edtl
    ensures var (t, outs) := DataOutSpec(s, d, bhs);
            && t.inFlight == s.inFlight - {d.itt} && t.stage == s.stage && t.params == s.params
            && |outs| == 1 && outs[0].ScsiResp? && outs[0].itt == d.itt
    ensures ExecutedBy(s, Data(d)) == Some(Execution(p.cmd, Patch(p.buf, d.bufferOffset, d.data)))
  {
    DataOutLast(s, d, bhs);
  }

  /** The next bytes in order: the grown write tracks the grown bookkeeping, or is complete. */
  lemma TracksMore(itt: u32, p: PendingWrite, o: Sending, n: nat)
    requires Tracks(itt, p, o) && 0 < n && o.sent + n <= |o.w.payload|
    ensures var buf := Patch(p.buf, o.sent, o.w.payload[o.sent..o.sent + n]);
            && Wrap32(p.received + n) == o.sent + n && Wrap32(p.r2tSn + 1) == p.r2tSn + 1
            && (if o.sent + n < |o.w.payload|
                then Tracks(itt, PendingWrite(p.cmd, buf, o.sent + n, p.r2tSn + 1), Sending(o.w, o.sent + n, o.r2ts + 1))
                else buf == o.w.payload)
  {
    PatchExtends(p.buf, o.w.payload, o.sent, n);
  }

  /** The grown write agrees with the grown bookkeeping, and its R2T asks for what is next. */
  lemma MoreAgrees(s: State, ini: Outstanding, d: DataOut, next: PendingWrite)
    requires InStep(s, ini) && Disciplined(ini, Send(d)) && ini[d.itt].sent + |d.data| < |ini[d.itt].w.payload|
    requires var p := s.inFlight[d.itt];
             next == PendingWrite(p.cmd, Patch(p.buf, d.bufferOffset, d.data), Wrap32(p.received + |d.data|), Wrap32(p.r2tSn + 1))
    ensures next.received < next.cmd.edtl
    ensures var t := s.(inFlight := s.inFlight[d.itt := next]);
            Agree(t.inFlight, After(ini, Send(d))) && R2tOk(NextR2t(t, next), s.params.maxBurst, After(ini, Send(d)), d.itt)
  {
    var p, o := s.inFlight[d.itt], ini[d.itt];
    var more := Sending(o.w, o.sent + |d.data|, o.r2ts + 1);
    NextTracks(p, o, d, next);
    AgreeOnUpdate(s.inFlight, ini, d.itt, next, more);
    TrackedR2t(s.(inFlight := s.inFlight[d.itt := next]), d.itt, next, more, ini[d.itt := more]);
  }

  lemma NextTracks(p: PendingWrite, o: Sending, d: DataOut, next: PendingWrite)
    requires Tracks(d.itt, p, o) && d.bufferOffset == o.sent && d.data != [] && o.sent + |d.data| < |o.w.payload|
    requires d.data == o.w.payload[o.sent..o.sent + |d.data|]
    requires next == PendingWrite(p.cmd, Patch(p.buf, d.bufferOffset, d.data), Wrap32(p.received + |d.data|), Wrap32(p.r2tSn + 1))
    ensures Tracks(d.itt, next, Sending(o.w, o.sent + |d.data|, o.r2ts + 1))
  {
    TracksMore(d.itt, p, o, |d.data|);
  }

  lemma TrackedR2t(s: State, itt: u32, p: PendingWrite, o: Sending, ini: Outstanding)
    requires Tracks(itt, p, o) && itt in ini && ini[itt] == o
    ensures R2tOk(NextR2t(s, p), s.params.maxBurst, ini, itt)
  {
  }

  lemma MoreAssembles(s: State, ini: Outstanding, d: DataOut, bhs: HeaderBytes)
    requires InStep(s, ini) && Disciplined(ini, Send(d)) && ini[d.itt].sent + |d.data| < |ini[d.itt].w.payload|
    ensures var (t, outs) := DataOutSpec(s, d, bhs);
            && Agree(t.inFlight, After(ini, Send(d))) && t.stage == s.stage && t.params == s.params
            && |outs| == 1 && R2tOk(outs[0], s.params.maxBurst, After(ini, Send(d)), d.itt)
    ensures ExecutedBy(s, Data(d)) == None
  {
    var p := s.inFlight[d.itt];
    var next := PendingWrite(p.cmd, Patch(p.buf, d.bufferOffset, d.data), Wrap32(p.received + |d.data|), Wrap32(p.r2tSn + 1));
    MoreAgrees(s, ini, d, next);
    SendMore(s, p, d, bhs);
  }

  lemma LastAssembles(s: State, ini: Outstanding, d: DataOut, bhs: HeaderBytes)
    requires InStep(s, ini) && Disciplined(ini, Send(d)) && ini[d.itt].sent + |d.data| == |ini[d.itt].w.payload|
    ensures var (t, outs) := DataOutSpec(s, d, bhs);
            && Agree(t.inFlight, After(ini, Send(d))) && t.stage == s.stage && t.params == s.params
            && |outs| == 1 && outs[0].ScsiResp? && outs[0].itt == d.itt
    ensures ExecutedBy(s, Data(d)) == Some(Execution(ini[d.itt].w.cmd, ini[d.itt].w.payload))
  {
    var p, o := s.inFlight[d.itt], ini[d.itt];
    TracksMore(d.itt, p, o, |d.data|);
    SendLast(s, p, d, bhs);
    AgreeOnRemoval(s.inFlight, ini, d.itt);
  }

  lemma SendAssembles(s: State, ini: Outstanding, d: DataOut, bhs: HeaderBytes)
    requires InStep(s, ini) && Disciplined(ini, Send(d))
    ensures var (t, outs) := DataOutSpec(s, d, bhs);
            && Agree(t.inFlight, After(ini, Send(d))) && t.stage == s.stage && t.params == s.params
            && ReplyOk(s.params.maxBurst, ini, Send(d), outs, ExecutedBy(s, Data(d)))
  {
    if ini[d.itt].sent + |d.data| < |ini[d.itt].w.payload| {
      MoreAssembles(s, ini, d, bhs);
    } else {
      LastAssembles(s, ini, d, bhs);
    }
  }

  lemma StepAssembles(reg: Registry, s: State, ini: Outstanding, a: Action, bhs: HeaderBytes)
    requires RegistryOk(reg) && InStep(s, ini) && Disciplined(ini, a)
    ensures var (t, outs) := Handle(reg, s, RequestOf(a), bhs);
            && InStep(t, After(ini, a)) && t.params == s.params
            && ReplyOk(s.params.maxBurst, ini, a, outs, ExecutedBy(s, RequestOf(a)))
  {
    HandleKeepsOk(reg, s, RequestOf(a), bhs);
    match a {
      case Start(w) => StartAssembles(s, ini, w, bhs);
      case Send(d) => SendAssembles(s, ini, d, bhs);
      case Other(req) => OtherAssembles(reg, s, ini, req, bhs);
    }
  }

  lemma OtherAssembles(reg: Registry, s: State, ini: Outstanding, req: Request, bhs: HeaderBytes)
    requires RegistryOk(reg) && InStep(s, ini) && Disciplined(ini, Other(req))
    ensures var t := Handle(reg, s, req, bhs).0;
            t.inFlight == s.inFlight && t.stage.FullFeature? && t.params == s.params
    ensures ExecutedBy(s, req).Some? ==> !ExecutedBy(s, req).value.cmd.write
  {
  }

  // ----- whole runs -----

  datatype Turn = Turn(a: Action, bhs: HeaderBytes)

  function InputsOf(turns: seq<Turn>): (inputs: seq<Input>)
    ensures |inputs| == |turns|
  {
    if turns == [] then [] else [Input(RequestOf(turns[0].a), turns[0].bhs)] + InputsOf(turns[1..])
  }

  predicate AllDisciplined(ini: Outstanding, turns: seq<Turn>)
    decreases |turns|
  {
    turns == [] || (Disciplined(ini, turns[0].a) && AllDisciplined(After(ini, turns[0].a), turns[1..]))
  }

  function AfterAll(ini: Outstanding, turns: seq<Turn>): Outstanding
    requires AllDisciplined(ini, turns)
    decreases |turns|
  {
    if turns == [] then ini else AfterAll(After(ini, turns[0].a), turns[1..])
  }

  /** Every reply of the run is as it should be. */
  ghost predicate AllReplies(reg: Registry, s: State, ini: Outstanding, turns: seq<Turn>)
    requires RegistryOk(reg) && WellFormed(s) && AllDisciplined(ini, turns)
    decreases |turns|
  {
    turns == [] ||
    (HandleKeepsOk(reg, s, RequestOf(turns[0].a), turns[0].bhs);
     var (t, outs) := Handle(reg, s, RequestOf(turns[0].a), turns[0].bhs);
     && ReplyOk(s.params.maxBurst, ini, turns[0].a, outs, ExecutedBy(s, RequestOf(turns[0].a)))
     && AllReplies(reg, t, After(ini, turns[0].a), turns[1..]))
  }

  /**
   * Write assembly over whole runs: however the initiator interleaves its writes, each buffer in
   * flight holds its payload's prefix, every R2T asks for exactly the bytes that follow, and a write
   * is executed with exactly its payload.
   */
  lemma {:induction false} RunAssembles(reg: Registry, s: State, ini: Outstanding, turns: seq<Turn>)
    requires RegistryOk(reg) && InStep(s, ini) && AllDisciplined(ini, turns)
    ensures InStep(Run(reg, s, InputsOf(turns)).0, AfterAll(ini, turns))
    ensures AllReplies(reg, s, ini, turns)
    decreases |turns|
  {
    if turns != [] {
      var a, bhs := turns[0].a, turns[0].bhs;
      StepAssembles(reg, s, ini, a, bhs);
      InputsOfNext(turns);
      RunAssembles(reg, Handle(reg, s, RequestOf(a), bhs).0, After(ini, a), turns[1..]);
    }
  }

  lemma InputsOfNext(turns: seq<Turn>)
    requires turns != []
    ensures InputsOf(turns)[0] == Input(RequestOf(turns[0].a), turns[0].bhs)
    ensures InputsOf(turns)[1..] == InputsOf(turns[1..])
  {
  }

  // ----- exactly once -----

  function InFlight(ini: Outstanding, itt: u32): seq<Write> {
    if itt in ini then [ini[itt].w] else []
  }

  /** The writes started with one tag, in order. */
  function Started(turns: seq<Turn>, itt: u32): seq<Write> {
    if turns == [] then []
    else
      var a := turns[0].a;
      (if a.Start? && a.w.cmd.itt == itt then [a.w] else []) + Started(turns[1..], itt)
  }

  function AsWrite(e: Execution, itt: u32): seq<Write> {
    if e.cmd.write && e.cmd.itt == itt then [Write(e.cmd, e.data)] else []
  }

  /** The writes with one tag that were executed, in order, with the data they were executed with. */
  function Executed(log: seq<Execution>, itt: u32): seq<Write> {
    if log == [] then [] else AsWrite(log[0], itt) + Executed(log[1..], itt)
  }

  lemma {:induction false} ExecutedConcat(a: seq<Execution>, b: seq<Execution>, itt: u32)
    requires |a| <= 1
    ensures Executed(a + b, itt) == Executed(a, itt) + Executed(b, itt)
  {
    if a == [] {
      assert a + b == b;
    } else {
      assert (a + b)[1..] == b && a[1..] == [];
    }
  }

  lemma ExecutedNext(reg: Registry, s: State, turns: seq<Turn>, itt: u32)
    requires RegistryOk(reg) && WellFormed(s) && turns != []
    ensures var (e, t) := (ExecutedBy(s, RequestOf(turns[0].a)), Handle(reg, s, RequestOf(turns[0].a), turns[0].bhs).0);
            && WellFormed(t)
            && Executed(Log(reg, s, InputsOf(turns)), itt)
            == (if e.Some? then AsWrite(e.value, itt) else []) + Executed(Log(reg, t, InputsOf(turns[1..])), itt)
  {
    var a, bhs := turns[0].a, turns[0].bhs;
    HandleKeepsOk(reg, s, RequestOf(a), bhs);
    InputsOfNext(turns);
    var e, t := ExecutedBy(s, RequestOf(a)), Handle(reg, s, RequestOf(a), bhs).0;
    ExecutedConcat(if e.Some? then [e.value] else [], Log(reg, t, InputsOf(turns[1..])), itt);
  }

  /** Every tag names its own write, and only writes are outstanding. */
  ghost predicate Keyed(ini: Outstanding) {
    forall itt :: itt in ini ==> ini[itt].w.cmd.itt == itt && ini[itt].w.cmd.write
  }

  /** One action's bookkeeping for one tag: in flight before, plus started, is executed, plus in flight after. */
  lemma ReplyOnce(maxBurst: u32, ini: Outstanding, a: Action, outs: seq<Outbound>, e: Option<Execution>, itt: u32)
    requires Keyed(ini) && Disciplined(ini, a) && ReplyOk(maxBurst, ini, a, outs, e)
    ensures InFlight(ini, itt) + (if a.Start? && a.w.cmd.itt == itt then [a.w] else [])
         == (if e.Some? then AsWrite(e.value, itt) else []) + InFlight(After(ini, a), itt)
  {
  }

  lemma StepOnce(reg: Registry, s: State, ini: Outstanding, a: Action, bhs: HeaderBytes, itt: u32)
    requires RegistryOk(reg) && InStep(s, ini) && Disciplined(ini, a)
    ensures var e := ExecutedBy(s, RequestOf(a));
            InFlight(ini, itt) + (if a.Start? && a.w.cmd.itt == itt then [a.w] else [])
            == (if e.Some? then AsWrite(e.value, itt) else []) + InFlight(After(ini, a), itt)
  {
    StepAssembles(reg, s, ini, a, bhs);
    ReplyOnce(s.params.maxBurst, ini, a, Handle(reg, s, RequestOf(a), bhs).1, ExecutedBy(s, RequestOf(a)), itt);
  }

  /**
   * Exactly once: for every tag, the writes in flight at the start followed by those started are, in
   * order, the writes executed, each with exactly its payload, followed by the one still in flight.
   */
  lemma {:induction false} ExactlyOnce(reg: Registry, s: State, ini: Outstanding, turns: seq<Turn>, itt: u32)
    requires RegistryOk(reg) && InStep(s, ini) && AllDisciplined(ini, turns)
    ensures InFlight(ini, itt) + Started(turns, itt)
         == Executed(Log(reg, s, InputsOf(turns)), itt) + InFlight(AfterAll(ini, turns), itt)
    decreases |turns|
  {
    if turns == [] {
      assert Executed([], itt) == [];
    } else {
      var a, bhs := turns[0].a, turns[0].bhs;
      var t, e := Handle(reg, s, RequestOf(a), bhs).0, ExecutedBy(s, RequestOf(a));
      StepAssembles(reg, s, ini, a, bhs);
      StepOnce(reg, s, ini, a, bhs, itt);
      ExecutedNext(reg, s, turns, itt);
      ExactlyOnce(reg, t, After(ini, a), turns[1..], itt);
      Shuffle(InFlight(ini, itt), if a.Start? && a.w.cmd.itt == itt then [a.w] else [], Started(turns[1..], itt),
              if e.Some? then AsWrite(e.value, itt) else [], InFlight(After(ini, a), itt),
              Executed(Log(reg, t, InputsOf(turns[1..])), itt), InFlight(AfterAll(ini, turns), itt));
    }
  }

  lemma Shuffle<T>(before: seq<T>, start: seq<T>, later: seq<T>, done: seq<T>, mid: seq<T>, rest: seq<T>, end: seq<T>)
    requires before + start == done + mid && mid + later == rest + end
    ensures before + (start + later) == (done + rest) + end
  {
    assert before + (start + later) == (before + start) + later == done + (mid + later) == (done + rest) + end;
  }

  // ----- progress -----

  function Sends(turns: seq<Turn>, itt: u32): nat {
    if turns == [] then 0
    else (if turns[0].a.Send? && turns[0].a.d.itt == itt then 1 else 0) + Sends(turns[1..], itt)
  }

  /** What an action does to one tag's write: only a Data-Out for the tag moves it on. */
  lemma AfterFor(ini: Outstanding, a: Action, itt: u32)
    requires Disciplined(ini, a) && itt in ini
    ensures itt in After(ini, a) ==>
              && After(ini, a)[itt].w == ini[itt].w
              && After(ini, a)[itt].sent >= ini[itt].sent + (if a.Send? && a.d.itt == itt then 1 else 0)
  {
  }

  /** After one action the write is still in flight and nothing was executed for its tag, or it was executed. */
  lemma StillOrDone(ini: Outstanding, a: Action, itt: u32, done: seq<Write>)
    requires Disciplined(ini, a) && itt in ini
    requires InFlight(ini, itt) == done + InFlight(After(ini, a), itt)
    ensures if itt in After(ini, a) then
              && done == [] && After(ini, a)[itt].w == ini[itt].w
              && After(ini, a)[itt].sent >= ini[itt].sent + (if a.Send? && a.d.itt == itt then 1 else 0)
            else done != [] && done[0] == ini[itt].w
  {
    AfterFor(ini, a, itt);
    assert |InFlight(ini, itt)| == |done| + |InFlight(After(ini, a), itt)|;
    assert InFlight(ini, itt)[0] == ini[itt].w;
  }

  /** A write completes within as many of its own Data-Outs as it lacks bytes, whatever else is interleaved. */
  lemma {:induction false} CompletesInTime(reg: Registry, s: State, ini: Outstanding, turns: seq<Turn>, itt: u32)
    requires RegistryOk(reg) && InStep(s, ini) && AllDisciplined(ini, turns) && itt in ini
    requires Sends(turns, itt) >= |ini[itt].w.payload| - ini[itt].sent
    ensures var done := Executed(Log(reg, s, InputsOf(turns)), itt);
            done != [] && done[0] == ini[itt].w
    decreases |turns|
  {
    var a, bhs := turns[0].a, turns[0].bhs;
    var t, e := Handle(reg, s, RequestOf(a), bhs).0, ExecutedBy(s, RequestOf(a));
    StepAssembles(reg, s, ini, a, bhs);
    StepOnce(reg, s, ini, a, bhs, itt);
    ExecutedNext(reg, s, turns, itt);
    StillOrDone(ini, a, itt, if e.Some? then AsWrite(e.value, itt) else []);
    if itt in After(ini, a) {
      CompletesInTime(reg, t, After(ini, a), turns[1..], itt);
    }
  }

  /** An R2T asks for at least one byte exactly when the negotiated MaxBurstLength is not zero. */
  lemma R2tAsksIff(o: Outbound, maxBurst: u32, ini: Outstanding, itt: u32)
    requires R2tOk(o, maxBurst, ini, itt) && ini[itt].sent < |ini[itt].w.payload|
    ensures o.desiredLength >= 1 <==> maxBurst >= 1
  {
  }

  /** A key that offers a MaxBurstLength of zero. */
  predicate OffersZero(pair: Pair) {
    pair.key == "MaxBurstLength" && ParseUnsigned(pair.value, U32_SPAN - 1) == Some(0)
  }

  /** Negotiation reaches a MaxBurstLength of zero exactly if it was zero or some key offers zero. */
  lemma {:induction false} BurstZeroIff(p: Params, text: seq<Pair>)
    ensures NegotiateAll(p, text).maxBurst == 0 <==> p.maxBurst == 0 || exists i :: 0 <= i < |text| && OffersZero(text[i])
    decreases |text|
  {
    if text != [] {
      BurstZeroNow(p, text[0]);
      BurstZeroIff(Negotiate(p, text[0]), text[1..]);
      FirstOrLater(text);
    }
  }

  lemma BurstZeroNow(p: Params, pair: Pair)
    ensures Negotiate(p, pair).maxBurst == 0 <==> p.maxBurst == 0 || OffersZero(pair)
  {
  }

  lemma FirstOrLater(text: seq<Pair>)
    requires text != []
    ensures (exists i :: 0 <= i < |text| && OffersZero(text[i]))
       <==> OffersZero(text[0]) || exists i :: 0 <= i < |text[1..]| && OffersZero(text[1..][i])
  {
    if i :| 0 <= i < |text| && OffersZero(text[i]) && i > 0 {
      assert OffersZero(text[1..][i - 1]);
    }
  }

  /** Nothing in the negotiation keeps MaxBurstLength from reaching zero. */
  lemma BurstCanReachZero()
    ensures Negotiate(DEFAULT_PARAMS, Pair("MaxBurstLength", "0")).maxBurst == 0
  {
    assert "0"[..0] == "";
    assert Decimal("0") == Decimal("") * 10 + 0;
  }

  /** One byte at offset 0 for a two-byte write that has nothing yet, and then once more. */
  lemma SameByteTwice(s: State, cmd: ScsiCommand, d: DataOut, bhs: HeaderBytes)
    requires WellFormed(s) && s.stage.FullFeature? && cmd.write && cmd.edtl == 2
    requires cmd.itt in s.inFlight && s.inFlight[cmd.itt] == PendingWrite(cmd, [0, 0], 0, 0)
    requires d.itt == cmd.itt && d.bufferOffset == 0 && |d.data| == 1
    ensures var t := DataOutSpec(s, d, bhs).0;
            t.stage.FullFeature? && t.target.Some? && ExecutedBy(t, Data(d)) == Some(Execution(cmd, [d.data[0], 0]))
    ensures ExecutedBy(s, Data(d)) == None
  {
    DataOutMore(s, d, bhs);
    assert Patch([0, 0], 0, d.data) == [d.data[0], 0];
    assert Patch([d.data[0], 0], 0, d.data) == [d.data[0], 0];
  }

  lemma TwoByteWriteBegins(s: State, cmd: ScsiCommand, bhs: HeaderBytes)
    requires StateOk(s) && s.target.Some? && cmd.write && cmd.edtl == 2 && cmd.data == []
    ensures var t := ScsiCommandSpec(s, cmd, bhs).0;
            && t.stage == s.stage && cmd.itt in t.inFlight && t.inFlight[cmd.itt] == PendingWrite(cmd, [0, 0], 0, 0)
  {
    assert Patch(Zeros(2), 0, cmd.data) == [0, 0];
  }

  /**
   * The discipline matters: bytes are counted, not covered. After any two-byte write command without
   * immediate data, two Data-Outs at offset 0 execute it although its second byte was never sent.
   */
  lemma CountsNotCovers(reg: Registry, s: State, cmd: ScsiCommand, d: DataOut, bhs: HeaderBytes)
    requires RegistryOk(reg) && WellFormed(s) && s.stage.FullFeature?
    requires cmd.write && cmd.edtl == 2 && cmd.data == []
    requires d.itt == cmd.itt && d.bufferOffset == 0 && |d.data| == 1
    ensures Log(reg, s, [Input(Command(cmd), bhs), Input(Data(d), bhs), Input(Data(d), bhs)]) == [Execution(cmd, [d.data[0], 0])]
  {
    var i, j := Input(Command(cmd), bhs), Input(Data(d), bhs);
    var t := Handle(reg, s, Command(cmd), bhs).0;
    HandleKeepsOk(reg, s, Command(cmd), bhs);
    TwoByteWriteBegins(s, cmd, bhs);
    HandleKeepsOk(reg, t, Data(d), bhs);
    SameByteTwice(t, cmd, d, bhs);
    var u := Handle(reg, t, Data(d), bhs).0;
    LogNext(reg, u, j, []);
    LogNext(reg, t, j, [j]);
    LogNext(reg, s, i, [j, j]);
    assert [j] + [] == [j] && [j] + [j] == [j, j] && [i] + [j, j] == [i, j, j];
  }

  lemma LogNext(reg: Registry, s: State, i: Input, more: seq<Input>)
    requires RegistryOk(reg) && WellFormed(s)
    ensures var (e, t) := (ExecutedBy(s, i.req), Handle(reg, s, i.req, i.bhs).0);
            WellFormed(t) && Log(reg, s, [i] + more) == (if e.Some? then [e.value] else []) + Log(reg, t, more)
  {
    HandleKeepsOk(reg, s, i.req, i.bhs);
    assert ([i] + more)[1..] == more;
  }
}
