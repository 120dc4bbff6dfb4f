/** Sessions with an initiator that serves its R2Ts in order (iscsi/session/mod.rs:325-428), among any other traffic. */
module R2tRuns {
  import opened Bytes
  import opened Wrappers
  import opened Pdu
  import opened Scsi
  import opened Session
  import opened SessionRuns
  import opened Executions
  import opened WriteAssembly
  import opened WriteCoverage
  import opened R2tServing

  /** The Data-Out carries these bytes of the write's payload. */
  predicate Carries(d: DataOut, w: Write, out: Range) {
    && d.itt == w.cmd.itt && out.lo <= out.hi <= |w.payload|
    && d.bufferOffset == out.lo && d.data == w.payload[out.lo..out.hi]
  }

  /** The only reply is an R2T for these bytes. */
  predicate IsAsk(outs: seq<Outbound>, itt: u32, ask: Range) {
    && |outs| == 1 && outs[0].R2t? && outs[0].itt == itt
    && ask == Range(outs[0].bufferOffset, outs[0].bufferOffset + outs[0].desiredLength)
  }

  /** Data-Outs the target accepts, R2Ts that ask for something, and a count that does not wrap. */
  predicate Limits(w: Write, burst: u32, seg: nat) {
    1 <= seg <= MAX_DATA_SEGMENT && 1 <= burst && |w.payload| + seg <= U32_SPAN
  }

  /** The session holds the write as the client has sent it. */
  predicate Serving(ini: Placings, w: Write, c: Client) {
    && w.cmd.itt in ini && ini[w.cmd.itt] == Placing(w, c.ranges)
    && WriteCoverage.Total(c.ranges) == c.count && Busy(|w.payload|, c)
  }

  lemma ReplyAsks(s: State, d: DataOut, bhs: HeaderBytes, p: PendingWrite, w: Write, c: Client, seg: nat)
    requires StateOk(s) && s.stage.FullFeature? && s.target.Some? && d.itt in s.inFlight && s.inFlight[d.itt] == p
    requires Holds(d.itt, p, Placing(w, c.ranges)) && WriteCoverage.Total(c.ranges) == c.count && Busy(|w.payload|, c)
    requires Limits(w, s.params.maxBurst, seg) && Carries(d, w, NextOut(seg, c))
    ensures var next := Serve(|w.payload|, s.params.maxBurst, seg, c);
            next.count < |w.payload| ==>
              IsAsk(DataOutSpec(s, d, bhs).1, w.cmd.itt, AskFor(|w.payload|, s.params.maxBurst, next.count))
  {
    CountsOn(p, w, c, s.params.maxBurst, seg, d);
    if Serve(|w.payload|, s.params.maxBurst, seg, c).count < |w.payload| {
      R2tAfter(s, d, bhs, p);
    }
  }

  /** The session's count after the Data-Out is the client's. */
  lemma CountsOn(p: PendingWrite, w: Write, c: Client, burst: u32, seg: nat, d: DataOut)
    requires Holds(d.itt, p, Placing(w, c.ranges)) && WriteCoverage.Total(c.ranges) == c.count && Busy(|w.payload|, c)
    requires Limits(w, burst, seg) && Carries(d, w, NextOut(seg, c))
    ensures d.bufferOffset + |d.data| <= |p.buf| && p.cmd.itt == w.cmd.itt && p.cmd.edtl == |w.payload|
    ensures var next := Serve(|w.payload|, burst, seg, c);
            next.count < |w.payload| ==> Wrap32(p.received + |d.data|) == next.count
  {
  }

  lemma R2tAfter(s: State, d: DataOut, bhs: HeaderBytes, p: PendingWrite)
    requires StateOk(s) && s.stage.FullFeature? && s.target.Some? && d.itt in s.inFlight && s.inFlight[d.itt] == p
    requires d.bufferOffset + |d.data| <= |p.buf| && Wrap32(p.received + |d.data|) < p.cmd.edtl
    ensures IsAsk(DataOutSpec(s, d, bhs).1, p.cmd.itt, AskFor(p.cmd.edtl, s.params.maxBurst, Wrap32(p.received + |d.data|)))
  {
    SendMore(s, p, d, bhs);
  }

  /** The client's bookkeeping after one Data-Out, as the session will see it. */
  lemma ClientStep(ini: Placings, w: Write, c: Client, burst: u32, seg: nat, d: DataOut)
    requires Serving(ini, w, c) && Limits(w, burst, seg) && Carries(d, w, NextOut(seg, c))
    ensures Honest(ini, Send(d))
    ensures var next := Serve(|w.payload|, burst, seg, c);
            && Extended(ini, Send(d)) == Some(Placing(w, next.ranges)) && WriteCoverage.Total(next.ranges) == next.count
            && (Counted(Placing(w, next.ranges)) <==> next.count >= |w.payload|)
            && (next.count < |w.payload| ==> Serving(Place(ini, Send(d)), w, next))
  {
    var out := NextOut(seg, c);
    assert (c.ranges + [out])[..|c.ranges|] == c.ranges;
  }

  /** One Data-Out of the client: an R2T for what follows the count, or the execution of what has been sent. */
  lemma ClientServed(reg: Registry, s: State, ini: Placings, w: Write, c: Client, seg: nat, d: DataOut, bhs: HeaderBytes)
    requires RegistryOk(reg) && Aligned(s, ini) && Serving(ini, w, c)
    requires Limits(w, s.params.maxBurst, seg) && Carries(d, w, NextOut(seg, c))
    ensures Honest(ini, Send(d))
    ensures var next := Serve(|w.payload|, s.params.maxBurst, seg, c);
            if next.count < |w.payload|
            then IsAsk(Handle(reg, s, Data(d), bhs).1, w.cmd.itt, AskFor(|w.payload|, s.params.maxBurst, next.count))
            else ExecutedBy(s, Data(d)) == Some(Execution(w.cmd, Masked(w.payload, next.ranges)))
  {
    ClientStep(ini, w, c, s.params.maxBurst, seg, d);
    StepPlaces(reg, s, ini, Send(d), bhs);
    ReplyAsks(s, d, bhs, s.inFlight[d.itt], w, c, seg);
  }

  // ----- whole runs -----

  /** The action starts the write's tag or sends data for it. */
  predicate Mine(a: Action, itt: u32) {
    (a.Start? && a.w.cmd.itt == itt) || (a.Send? && a.d.itt == itt)
  }

  /** Among any other turns, the client's are those of one that serves its R2Ts in order, until the count is complete. */
  predicate InOrderTurns(w: Write, burst: u32, seg: nat, c: Client, turns: seq<Turn>)
    requires 1 <= burst && 1 <= seg && (c.count < |w.payload| ==> Busy(|w.payload|, c))
    decreases |turns|
  {
    if turns == [] then c.count >= |w.payload|
    else
      var a := turns[0].a;
      if !Mine(a, w.cmd.itt) then InOrderTurns(w, burst, seg, c, turns[1..])
      else
        && c.count < |w.payload| && a.Send? && Carries(a.d, w, NextOut(seg, c))
        && InOrderTurns(w, burst, seg, Serve(|w.payload|, burst, seg, c), turns[1..])
  }

  /** Every R2T the session sends the client is the one the client goes on to serve. */
  ghost predicate AsksAreServed(reg: Registry, s: State, w: Write, seg: nat, c: Client, turns: seq<Turn>)
    requires RegistryOk(reg) && WellFormed(s) && 1 <= s.params.maxBurst && 1 <= seg
    requires c.count < |w.payload| ==> Busy(|w.payload|, c)
    requires InOrderTurns(w, s.params.maxBurst, seg, c, turns) && s.stage.FullFeature?
    decreases |turns|
  {
    turns == [] ||
    (var a, bhs := turns[0].a, turns[0].bhs;
     HandleKeepsOk(reg, s, RequestOf(a), bhs);
     HandleFollows(reg, s, RequestOf(a), bhs);
     var (t, outs) := Handle(reg, s, RequestOf(a), bhs);
     var next := if Mine(a, w.cmd.itt) then Serve(|w.payload|, s.params.maxBurst, seg, c) else c;
     && (Mine(a, w.cmd.itt) && next.count < |w.payload| ==>
           IsAsk(outs, w.cmd.itt, AskFor(|w.payload|, s.params.maxBurst, next.count)))
     && t.stage.FullFeature? && AsksAreServed(reg, t, w, seg, next, turns[1..]))
  }

  lemma AlignedKeyed(s: State, ini: Placings)
    requires Aligned(s, ini)
    ensures WriteCoverage.Keyed(ini)
  {
    forall itt | itt in ini
      ensures ini[itt].w.cmd.itt == itt
    {
      assert Holds(itt, s.inFlight[itt], ini[itt]);
    }
  }

  lemma OthersKeep(ini: Placings, a: Action, w: Write, c: Client)
    requires WriteCoverage.Keyed(ini) && Honest(ini, a) && !Mine(a, w.cmd.itt)
    ensures Serving(ini, w, c) ==> Serving(Place(ini, a), w, c)
    ensures DoneNow(ini, a, w.cmd.itt) == []
  {
  }

  /** What the session completes for the tag, and the R2Ts on the way there. */
  lemma {:induction false} TurnsServe(reg: Registry, s: State, ini: Placings, w: Write, seg: nat, c: Client, turns: seq<Turn>)
    requires RegistryOk(reg) && Aligned(s, ini) && AllHonest(ini, turns) && Limits(w, s.params.maxBurst, seg)
    requires c.count < |w.payload| ==> Serving(ini, w, c)
    requires InOrderTurns(w, s.params.maxBurst, seg, c, turns)
    ensures WriteCoverage.Done(ini, turns, w.cmd.itt)
         == if c.count < |w.payload| then [Placing(w, Finish(|w.payload|, s.params.maxBurst, seg, c).ranges)] else []
    ensures AsksAreServed(reg, s, w, seg, c, turns)
    decreases |turns|
  {
    if turns != [] {
      var a, bhs := turns[0].a, turns[0].bhs;
      var t := Handle(reg, s, RequestOf(a), bhs).0;
      StepPlaces(reg, s, ini, a, bhs);
      HandleFollows(reg, s, RequestOf(a), bhs);
      if Mine(a, w.cmd.itt) {
        var next := Serve(|w.payload|, s.params.maxBurst, seg, c);
        ClientStep(ini, w, c, s.params.maxBurst, seg, a.d);
        ClientServed(reg, s, ini, w, c, seg, a.d, bhs);
        TurnsServe(reg, t, Place(ini, a), w, seg, next, turns[1..]);
      } else {
        AlignedKeyed(s, ini);
        OthersKeep(ini, a, w, c);
        TurnsServe(reg, t, Place(ini, a), w, seg, c, turns[1..]);
      }
    }
  }

  lemma StartServes(reg: Registry, s: State, ini: Placings, w: Write, bhs: HeaderBytes)
    requires RegistryOk(reg) && Aligned(s, ini) && Honest(ini, Start(w)) && |w.cmd.data| < |w.payload| && 1 <= s.params.maxBurst
    ensures var c := Opening(|w.payload|, s.params.maxBurst, |w.cmd.data|);
            && Serving(Place(ini, Start(w)), w, c) && DoneNow(ini, Start(w), w.cmd.itt) == []
            && IsAsk(Handle(reg, s, Command(w.cmd), bhs).1, w.cmd.itt, c.asks[0])
  {
    OneRange(w.cmd.data, w.payload);
  }

  /**
   * Answering the R2Ts: a write whose initiator serves them in the order in which they come is executed once,
   * with the payload where it was sent; that is the payload, whatever it is, exactly under a condition on
   * the length, the immediate data, MaxBurstLength and the size of the Data-Outs alone.
   */
  lemma ServingExecutes(reg: Registry, s: State, ini: Placings, w: Write, bhs: HeaderBytes, turns: seq<Turn>, seg: nat)
    requires RegistryOk(reg) && Aligned(s, ini) && Honest(ini, Start(w)) && |w.cmd.data| < |w.payload|
    requires Limits(w, s.params.maxBurst, seg) && AllHonest(ini, [Turn(Start(w), bhs)] + turns)
    requires InOrderTurns(w, s.params.maxBurst, seg, Opening(|w.payload|, s.params.maxBurst, |w.cmd.data|), turns)
    ensures var (n, imm, burst) := (|w.payload|, |w.cmd.data|, s.params.maxBurst);
            var executed := Executed(Log(reg, s, InputsOf([Turn(Start(w), bhs)] + turns)), w.cmd.itt);
            && executed == [Write(w.cmd, Masked(w.payload, Finish(n, burst, seg, Opening(n, burst, imm)).ranges))]
            && (InStepWith(n, burst, seg, imm) ==> executed == [w])
            && (!InStepWith(n, burst, seg, imm) && (forall k :: 0 <= k < n ==> w.payload[k] != 0) ==> executed != [w])
  {
    var c, all := Opening(|w.payload|, s.params.maxBurst, |w.cmd.data|), [Turn(Start(w), bhs)] + turns;
    ServingDone(reg, s, ini, w, bhs, turns, seg);
    ExecutedAsSent(reg, s, ini, all, w.cmd.itt);
    AsSentOne(Placing(w, Finish(|w.payload|, s.params.maxBurst, seg, c).ranges));
    MaskedWhole(w, s.params.maxBurst, seg);
  }

  lemma ServingDone(reg: Registry, s: State, ini: Placings, w: Write, bhs: HeaderBytes, turns: seq<Turn>, seg: nat)
    requires RegistryOk(reg) && Aligned(s, ini) && Honest(ini, Start(w)) && |w.cmd.data| < |w.payload|
    requires Limits(w, s.params.maxBurst, seg) && AllHonest(ini, [Turn(Start(w), bhs)] + turns)
    requires InOrderTurns(w, s.params.maxBurst, seg, Opening(|w.payload|, s.params.maxBurst, |w.cmd.data|), turns)
    ensures WriteCoverage.Done(ini, [Turn(Start(w), bhs)] + turns, w.cmd.itt)
         == [Placing(w, Finish(|w.payload|, s.params.maxBurst, seg, Opening(|w.payload|, s.params.maxBurst, |w.cmd.data|)).ranges)]
  {
    var c, all := Opening(|w.payload|, s.params.maxBurst, |w.cmd.data|), [Turn(Start(w), bhs)] + turns;
    assert all[0] == Turn(Start(w), bhs) && all[1..] == turns;
    StepPlaces(reg, s, ini, Start(w), bhs);
    HandleFollows(reg, s, Command(w.cmd), bhs);
    StartServes(reg, s, ini, w, bhs);
    TurnsServe(reg, Handle(reg, s, Command(w.cmd), bhs).0, Place(ini, Start(w)), w, seg, c, turns);
  }

  /** Masking by what has been sent is the identity on every payload exactly when everything has. */
  lemma MaskedWhole(w: Write, burst: u32, seg: nat)
    requires |w.cmd.data| < |w.payload| && burst >= 1 && seg >= 1
    ensures var (n, imm) := (|w.payload|, |w.cmd.data|);
            var sent := Masked(w.payload, Finish(n, burst, seg, Opening(n, burst, imm)).ranges);
            && (InStepWith(n, burst, seg, imm) ==> sent == w.payload)
            && (!InStepWith(n, burst, seg, imm) && (forall k :: 0 <= k < n ==> w.payload[k] != 0) ==> sent != w.payload)
  {
    var ranges := Finish(|w.payload|, burst, seg, Opening(|w.payload|, burst, |w.cmd.data|)).ranges;
    WholeIff(|w.payload|, burst, seg, |w.cmd.data|);
    MaskedIff(w.payload, ranges);
  }

  lemma AsSentOne(o: Placing)
    ensures AsSent([o]) == [Write(o.w.cmd, Masked(o.w.payload, o.ranges))]
  {
    assert [o][1..] == [];
  }
}
