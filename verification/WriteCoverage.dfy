/**
 * What a write executes when its initiator sends the payload's own bytes at any offset, in any
 * order, with any overlap (iscsi/session/mod.rs:325-428). The session counts bytes, so it may
 * execute before every byte has been sent; the condition under which that does no harm is exact.
 */
module WriteCoverage {
  import opened Bytes
  import opened Wrappers
  import opened Pdu
  import opened Scsi
  import opened Session
  import opened SessionRuns
  import opened Executions
  import opened WriteAssembly

  /** The bytes `lo` to `hi` of a payload, sent once. */
  datatype Range = Range(lo: nat, hi: nat)

  /** A write with every range of it sent so far, the immediate data first. */
  datatype Placing = Placing(w: Write, ranges: seq<Range>)

  type Placings = map<u32, Placing>

  predicate Sent(ranges: seq<Range>, k: nat) {
    ranges != [] && (ranges[|ranges| - 1].lo <= k < ranges[|ranges| - 1].hi || Sent(ranges[..|ranges| - 1], k))
  }

  /** The bytes counted: every range at its full length, however they overlap. */
  function Total(ranges: seq<Range>): int {
    if ranges == [] then 0 else Total(ranges[..|ranges| - 1]) + ranges[|ranges| - 1].hi - ranges[|ranges| - 1].lo
  }

  predicate Within(ranges: seq<Range>, n: nat) {
    ranges == [] || (ranges[|ranges| - 1].lo <= ranges[|ranges| - 1].hi <= n && Within(ranges[..|ranges| - 1], n))
  }

  /** The payload where it was sent, zeros elsewhere. */
  function Masked(payload: seq<byte>, ranges: seq<Range>): (s: seq<byte>)
    ensures |s| == |payload|
    ensures forall k :: 0 <= k < |s| ==> s[k] == if Sent(ranges, k) then payload[k] else 0
  {
    seq(|payload|, k requires 0 <= k < |payload| => if Sent(ranges, k) then payload[k] else 0)
  }

  /** Every byte that was not sent is zero. */
  predicate ZeroOutside(payload: seq<byte>, ranges: seq<Range>) {
    forall k :: 0 <= k < |payload| && !Sent(ranges, k) ==> payload[k] == 0
  }

  /** Sending nothing but the payload's own bytes; where and in which order is left open. */
  predicate Honest(ini: Placings, a: Action) {
    match a
    case Start(w) => w.cmd.write && w.cmd.itt !in ini && |w.payload| == w.cmd.edtl && w.cmd.data <= w.payload
    case Send(d) =>
      && d.itt in ini && d.bufferOffset + |d.data| <= |ini[d.itt].w.payload|
      && d.data == ini[d.itt].w.payload[d.bufferOffset..d.bufferOffset + |d.data|]
    case Other(req) => !req.Data? && !req.Logout? && (req.Command? ==> !req.cmd.write)
  }

  /** The write with the range of one more Data-Out. */
  function With(o: Placing, d: DataOut): Placing {
    Placing(o.w, o.ranges + [Range(d.bufferOffset, d.bufferOffset + |d.data|)])
  }

  /** The write an action concerns, with the range it sends added. */
  function Extended(ini: Placings, a: Action): Option<Placing>
    requires Honest(ini, a)
  {
    match a
    case Start(w) => Some(Placing(w, [Range(0, |w.cmd.data|)]))
    case Send(d) => Some(With(ini[d.itt], d))
    case Other(_) => None
  }

  /** The session's 32-bit count has reached the expected length. */
  predicate Counted(o: Placing) {
    Total(o.ranges) >= 0 && Wrap32(Total(o.ranges)) >= |o.w.payload|
  }

  function Place(ini: Placings, a: Action): Placings
    requires Honest(ini, a)
  {
    match Extended(ini, a)
    case None => ini
    case Some(o) => if Counted(o) then ini - {o.w.cmd.itt} else ini[o.w.cmd.itt := o]
  }

  /** A write in flight holds the payload where it was sent and zeros elsewhere. */
  predicate Holds(itt: u32, p: PendingWrite, o: Placing) {
    && p.cmd == o.w.cmd && p.cmd.itt == itt && p.cmd.write && |o.w.payload| == p.cmd.edtl == |p.buf|
    && Within(o.ranges, |o.w.payload|) && Total(o.ranges) >= 0 && p.received == Wrap32(Total(o.ranges)) < |o.w.payload|
    && p.buf == Masked(o.w.payload, o.ranges)
  }

  ghost predicate Matches(inFlight: map<u32, PendingWrite>, ini: Placings) {
    && inFlight.Keys == ini.Keys
    && forall itt :: itt in ini ==> itt in inFlight && Holds(itt, inFlight[itt], ini[itt])
  }

  ghost predicate Aligned(s: State, ini: Placings) {
    WellFormed(s) && s.stage.FullFeature? && Matches(s.inFlight, ini)
  }

  lemma MatchesOnUpdate(inFlight: map<u32, PendingWrite>, ini: Placings, itt: u32, p: PendingWrite, o: Placing)
    requires Matches(inFlight, ini) && Holds(itt, p, o)
    ensures Matches(inFlight[itt := p], ini[itt := o])
  {
  }

  lemma MatchesOnRemoval(inFlight: map<u32, PendingWrite>, ini: Placings, itt: u32)
    requires Matches(inFlight, ini)
    ensures Matches(inFlight - {itt}, ini - {itt})
  {
  }

  /** Patching one more range into a masked buffer masks by one more range. */
  lemma MaskMore(payload: seq<byte>, ranges: seq<Range>, lo: nat, hi: nat)
    requires lo <= hi <= |payload|
    ensures Patch(Masked(payload, ranges), lo, payload[lo..hi]) == Masked(payload, ranges + [Range(lo, hi)])
  {
    assert (ranges + [Range(lo, hi)])[..|ranges|] == ranges;
  }

  lemma TotalMore(ranges: seq<Range>, lo: nat, hi: nat, n: nat)
    requires lo <= hi <= n && Within(ranges, n) && Total(ranges) >= 0
    ensures Total(ranges + [Range(lo, hi)]) == Total(ranges) + hi - lo
    ensures Within(ranges + [Range(lo, hi)], n)
    ensures Wrap32(Wrap32(Total(ranges)) + (hi - lo)) == Wrap32(Total(ranges) + hi - lo)
  {
    assert (ranges + [Range(lo, hi)])[..|ranges|] == ranges;
  }

  lemma OneRange(data: seq<byte>, payload: seq<byte>)
    requires data <= payload
    ensures var ranges := [Range(0, |data|)];
            && Total(ranges) == |data| && Within(ranges, |payload|)
            && Patch(Zeros(|payload|), 0, data) == Masked(payload, ranges)
  {
    MaskedEmpty(payload);
    MaskMore(payload, [], 0, |data|);
    TotalMore([], 0, |data|, |payload|);
    assert [] + [Range(0, |data|)] == [Range(0, |data|)];
    assert payload[0..|data|] == data;
  }

  lemma MaskedEmpty(payload: seq<byte>)
    ensures Masked(payload, []) == Zeros(|payload|)
  {
  }

  /** The execution an action causes: for a write, when the count is reached, the masked payload. */
  ghost predicate PlacedOk(ini: Placings, a: Action, e: Option<Execution>)
    requires Honest(ini, a)
  {
    match Extended(ini, a)
    case None => e.Some? ==> !e.value.cmd.write
    case Some(o) => e == if Counted(o) then Some(Execution(o.w.cmd, Masked(o.w.payload, o.ranges))) else None
  }

  lemma StartPlaces(s: State, ini: Placings, w: Write, bhs: HeaderBytes)
    requires Aligned(s, ini) && Honest(ini, Start(w))
    ensures var t := ScsiCommandSpec(s, w.cmd, bhs).0;
            Matches(t.inFlight, Place(ini, Start(w))) && t.stage == s.stage
    ensures PlacedOk(ini, Start(w), ExecutedBy(s, Command(w.cmd)))
  {
    var cmd, o := w.cmd, Placing(w, [Range(0, |w.cmd.data|)]);
    OneRange(cmd.data, w.payload);
    if |cmd.data| < cmd.edtl {
      MatchesOnUpdate(s.inFlight, ini, cmd.itt, PendingWrite(cmd, Patch(Zeros(cmd.edtl), 0, cmd.data), |cmd.data|, 0), o);
    } else {
      WholeData(cmd);
      assert ini - {cmd.itt} == ini;
    }
  }

  /** One more range: the grown pending write holds the grown placing, unless the count is reached. */
  lemma HoldsMore(itt: u32, p: PendingWrite, o: Placing, lo: nat, hi: nat, sn: u32)
    requires Holds(itt, p, o) && lo <= hi <= |o.w.payload|
    ensures var next := Placing(o.w, o.ranges + [Range(lo, hi)]);
            var buf, received := Patch(p.buf, lo, o.w.payload[lo..hi]), Wrap32(p.received + (hi - lo));
            && buf == Masked(o.w.payload, next.ranges)
            && (Counted(next) <==> received >= p.cmd.edtl)
            && (!Counted(next) ==> Holds(itt, PendingWrite(p.cmd, buf, received, sn), next))
  {
    MaskMore(o.w.payload, o.ranges, lo, hi);
    TotalMore(o.ranges, lo, hi, |o.w.payload|);
  }

  lemma LastPlaces(s: State, d: DataOut, bhs: HeaderBytes, p: PendingWrite, o: Placing)
    requires StateOk(s) && s.stage.FullFeature? && s.target.Some? && d.itt in s.inFlight && s.inFlight[d.itt] == p
    requires Holds(d.itt, p, o) && d.bufferOffset + |d.data| <= |o.w.payload|
    requires d.data == o.w.payload[d.bufferOffset..d.bufferOffset + |d.data|] && Counted(With(o, d))
    ensures var t := DataOutSpec(s, d, bhs).0;
            t.inFlight == s.inFlight - {d.itt} && t.stage == s.stage
    ensures ExecutedBy(s, Data(d)) == Some(Execution(o.w.cmd, Masked(o.w.payload, With(o, d).ranges)))
  {
    HoldsMore(d.itt, p, o, d.bufferOffset, d.bufferOffset + |d.data|, 0);
    SendLast(s, p, d, bhs);
  }

  lemma MorePlaces(s: State, d: DataOut, bhs: HeaderBytes, p: PendingWrite, o: Placing) returns (q: PendingWrite)
    requires StateOk(s) && s.stage.FullFeature? && s.target.Some? && d.itt in s.inFlight && s.inFlight[d.itt] == p
    requires Holds(d.itt, p, o) && d.bufferOffset + |d.data| <= |o.w.payload|
    requires d.data == o.w.payload[d.bufferOffset..d.bufferOffset + |d.data|] && !Counted(With(o, d))
    ensures var t := DataOutSpec(s, d, bhs).0;
            t.inFlight == s.inFlight[d.itt := q] && t.stage == s.stage
    ensures Holds(d.itt, q, With(o, d)) && ExecutedBy(s, Data(d)) == None
  {
    var sn := Wrap32(p.r2tSn + 1);
    HoldsMore(d.itt, p, o, d.bufferOffset, d.bufferOffset + |d.data|, sn);
    SendMore(s, p, d, bhs);
    q := PendingWrite(p.cmd, Patch(p.buf, d.bufferOffset, d.data), Wrap32(p.received + |d.data|), sn);
  }

  lemma SendPlaces(s: State, ini: Placings, d: DataOut, bhs: HeaderBytes)
    requires Aligned(s, ini) && Honest(ini, Send(d))
    ensures var t := DataOutSpec(s, d, bhs).0;
            Matches(t.inFlight, Place(ini, Send(d))) && t.stage == s.stage
    ensures PlacedOk(ini, Send(d), ExecutedBy(s, Data(d)))
  {
    var o := ini[d.itt];
    if Counted(With(o, d)) {
      LastPlaces(s, d, bhs, s.inFlight[d.itt], o);
      MatchesOnRemoval(s.inFlight, ini, d.itt);
    } else {
      var q := MorePlaces(s, d, bhs, s.inFlight[d.itt], o);
      MatchesOnUpdate(s.inFlight, ini, d.itt, q, With(o, d));
    }
  }

  lemma StepPlaces(reg: Registry, s: State, ini: Placings, a: Action, bhs: HeaderBytes)
    requires RegistryOk(reg) && Aligned(s, ini) && Honest(ini, a)
    ensures Aligned(Handle(reg, s, RequestOf(a), bhs).0, Place(ini, a))
    ensures PlacedOk(ini, a, ExecutedBy(s, RequestOf(a)))
  {
    HandleKeepsOk(reg, s, RequestOf(a), bhs);
    match a {
      case Start(w) => StartPlaces(s, ini, w, bhs);
      case Send(d) => SendPlaces(s, ini, d, bhs);
      case Other(req) => OtherPlaces(reg, s, ini, req, bhs);
    }
  }

  lemma OtherPlaces(reg: Registry, s: State, ini: Placings, req: Request, bhs: HeaderBytes)
    requires RegistryOk(reg) && Aligned(s, ini) && Honest(ini, Other(req))
    ensures var t := Handle(reg, s, req, bhs).0;
            t.inFlight == s.inFlight && t.stage.FullFeature?
    ensures ExecutedBy(s, req).Some? ==> !ExecutedBy(s, req).value.cmd.write
  {
  }

  /**
   * The exact condition: when its count is reached, a write is executed with its payload if and only
   * if every payload byte outside the immediate data and the ranges sent is zero.
   */
  lemma ExecutesPayloadIff(reg: Registry, s: State, ini: Placings, a: Action)
    requires RegistryOk(reg) && Aligned(s, ini) && Honest(ini, a)
    requires Extended(ini, a).Some? && Counted(Extended(ini, a).value)
    ensures var o := Extended(ini, a).value;
            ExecutedBy(s, RequestOf(a)) == Some(Execution(o.w.cmd, o.w.payload)) <==> ZeroOutside(o.w.payload, o.ranges)
  {
    var o := Extended(ini, a).value;
    StepPlaces(reg, s, ini, a, Zeros(BHS_LEN));
    MaskedIff(o.w.payload, o.ranges);
  }

  lemma MaskedIff(payload: seq<byte>, ranges: seq<Range>)
    ensures Masked(payload, ranges) == payload <==> ZeroOutside(payload, ranges)
  {
    if Masked(payload, ranges) == payload {
      forall k | 0 <= k < |payload| && !Sent(ranges, k)
        ensures payload[k] == 0
      {
        assert Masked(payload, ranges)[k] == 0;
      }
    }
  }

  // ----- disjoint ranges cover -----

  /** No byte is sent twice. */
  predicate Disjoint(ranges: seq<Range>) {
    ranges == [] ||
    (var n := |ranges| - 1;
     Disjoint(ranges[..n]) && forall k: nat :: ranges[n].lo <= k < ranges[n].hi ==> !Sent(ranges[..n], k))
  }

  /** The bytes below `m` that were not sent. */
  function Missing(ranges: seq<Range>, m: nat): nat {
    if m == 0 then 0 else Missing(ranges, m - 1) + if Sent(ranges, m - 1) then 0 else 1
  }

  lemma {:induction false} MissingLess(ranges: seq<Range>, n: nat, m: nat)
    requires n < |ranges| && ranges[n].lo <= ranges[n].hi && n == |ranges| - 1
    requires forall k: nat :: ranges[n].lo <= k < ranges[n].hi ==> !Sent(ranges[..n], k)
    ensures Missing(ranges, m) == Missing(ranges[..n], m) - Max(0, Min(m, ranges[n].hi) - ranges[n].lo)
  {
    if m > 0 {
      MissingLess(ranges, n, m - 1);
    }
  }

  lemma {:induction false} MissingNone(m: nat)
    ensures Missing([], m) == m
  {
    if m > 0 {
      MissingNone(m - 1);
    }
  }

  /** Disjoint ranges leave exactly the bytes they do not count. */
  lemma {:induction false} MissingIsRest(ranges: seq<Range>, n: nat)
    requires Disjoint(ranges) && Within(ranges, n)
    ensures Missing(ranges, n) == n - Total(ranges)
  {
    if ranges == [] {
      MissingNone(n);
    } else {
      MissingIsRest(ranges[..|ranges| - 1], n);
      MissingLess(ranges, |ranges| - 1, n);
    }
  }

  lemma {:induction false} MissingSome(ranges: seq<Range>, m: nat, k: nat)
    requires k < m && !Sent(ranges, k)
    ensures Missing(ranges, m) > 0
  {
    if k < m - 1 {
      MissingSome(ranges, m - 1, k);
    }
  }

  /** Pairwise disjoint ranges suffice: once the count is reached, every byte has been sent. */
  lemma DisjointCovers(o: Placing)
    requires Disjoint(o.ranges) && Within(o.ranges, |o.w.payload|) && Counted(o) && |o.w.payload| < U32_SPAN
    ensures forall k :: 0 <= k < |o.w.payload| ==> Sent(o.ranges, k)
    ensures ZeroOutside(o.w.payload, o.ranges)
  {
    var n := |o.w.payload|;
    MissingIsRest(o.ranges, n);
    forall k | 0 <= k < n
      ensures Sent(o.ranges, k)
    {
      if !Sent(o.ranges, k) {
        MissingSome(o.ranges, n, k);
      }
    }
  }

  // ----- whole runs -----

  predicate AllHonest(ini: Placings, turns: seq<Turn>)
    decreases |turns|
  {
    turns == [] || (Honest(ini, turns[0].a) && AllHonest(Place(ini, turns[0].a), turns[1..]))
  }

  function PlaceAll(ini: Placings, turns: seq<Turn>): Placings
    requires AllHonest(ini, turns)
    decreases |turns|
  {
    if turns == [] then ini else PlaceAll(Place(ini, turns[0].a), turns[1..])
  }

  function DoneNow(ini: Placings, a: Action, itt: u32): seq<Placing>
    requires Honest(ini, a)
  {
    match Extended(ini, a)
    case Some(o) => if o.w.cmd.itt == itt && Counted(o) then [o] else []
    case None => []
  }

  /** The writes of one tag whose count was reached, in order, with the ranges sent for each. */
  function Done(ini: Placings, turns: seq<Turn>, itt: u32): seq<Placing>
    requires AllHonest(ini, turns)
    decreases |turns|
  {
    if turns == [] then [] else DoneNow(ini, turns[0].a, itt) + Done(Place(ini, turns[0].a), turns[1..], itt)
  }

  function AsSent(done: seq<Placing>): seq<Write> {
    if done == [] then [] else [Write(done[0].w.cmd, Masked(done[0].w.payload, done[0].ranges))] + AsSent(done[1..])
  }

  function AsMeant(done: seq<Placing>): seq<Write> {
    if done == [] then [] else [done[0].w] + AsMeant(done[1..])
  }

  lemma {:induction false} AsSentConcat(a: seq<Placing>, b: seq<Placing>)
    requires |a| <= 1
    ensures AsSent(a + b) == AsSent(a) + AsSent(b)
  {
    if a == [] {
      assert a + b == b;
    } else {
      assert (a + b)[1..] == b && a[1..] == [];
    }
  }

  lemma StepDone(reg: Registry, s: State, ini: Placings, a: Action, itt: u32)
    requires RegistryOk(reg) && Aligned(s, ini) && Honest(ini, a)
    ensures var e := ExecutedBy(s, RequestOf(a));
            (if e.Some? then AsWrite(e.value, itt) else []) == AsSent(DoneNow(ini, a, itt))
  {
    StepPlaces(reg, s, ini, a, Zeros(BHS_LEN));
    var o := Extended(ini, a);
    if o.Some? {
      assert [o.value][1..] == [];
    }
  }

  /** Over any run of an honest initiator, what is executed for a tag is each completed write as far as it was sent. */
  lemma {:induction false} ExecutedAsSent(reg: Registry, s: State, ini: Placings, turns: seq<Turn>, itt: u32)
    requires RegistryOk(reg) && Aligned(s, ini) && AllHonest(ini, turns)
    ensures Aligned(Run(reg, s, InputsOf(turns)).0, PlaceAll(ini, turns))
    ensures Executed(Log(reg, s, InputsOf(turns)), itt) == AsSent(Done(ini, turns, itt))
    decreases |turns|
  {
    if turns == [] {
      assert Executed([], itt) == [];
    } else {
      var a, bhs := turns[0].a, turns[0].bhs;
      StepPlaces(reg, s, ini, a, bhs);
      StepDone(reg, s, ini, a, itt);
      ExecutedNext(reg, s, turns, itt);
      InputsOfNext(turns);
      ExecutedAsSent(reg, Handle(reg, s, RequestOf(a), bhs).0, Place(ini, a), turns[1..], itt);
      AsSentConcat(DoneNow(ini, a, itt), Done(Place(ini, a), turns[1..], itt));
    }
  }

  predicate AllZeroOutside(done: seq<Placing>) {
    done == [] || (ZeroOutside(done[0].w.payload, done[0].ranges) && AllZeroOutside(done[1..]))
  }

  lemma {:induction false} SentIsMeantIff(done: seq<Placing>)
    ensures |AsSent(done)| == |AsMeant(done)| == |done|
    ensures AsSent(done) == AsMeant(done) <==> AllZeroOutside(done)
  {
    if done != [] {
      SentIsMeantIff(done[1..]);
      MaskedIff(done[0].w.payload, done[0].ranges);
      ConsEqual(AsSent(done), AsMeant(done));
    }
  }

  lemma ConsEqual(a: seq<Write>, b: seq<Write>)
    requires |a| == |b| > 0
    ensures a == b <==> a[0] == b[0] && a[1..] == b[1..]
  {
    if a[0] == b[0] && a[1..] == b[1..] {
      assert a == [a[0]] + a[1..] && b == [b[0]] + b[1..];
    }
  }

  /**
   * Over whole runs: for every tag, the writes are executed with exactly their payloads if and only
   * if each of them is zero wherever it was not sent.
   */
  lemma RunExecutesPayloadsIff(reg: Registry, s: State, ini: Placings, turns: seq<Turn>, itt: u32)
    requires RegistryOk(reg) && Aligned(s, ini) && AllHonest(ini, turns)
    ensures Executed(Log(reg, s, InputsOf(turns)), itt) == AsMeant(Done(ini, turns, itt))
       <==> AllZeroOutside(Done(ini, turns, itt))
  {
    ExecutedAsSent(reg, s, ini, turns, itt);
    SentIsMeantIff(Done(ini, turns, itt));
  }

  predicate AllDisjoint(done: seq<Placing>) {
    done == [] || (Disjoint(done[0].ranges) && AllDisjoint(done[1..]))
  }

  predicate AllInRange(done: seq<Placing>) {
    done == [] || (Counted(done[0]) && Within(done[0].ranges, |done[0].w.payload|) && |done[0].w.payload| < U32_SPAN && AllInRange(done[1..]))
  }

  lemma {:induction false} DoneInRange(reg: Registry, s: State, ini: Placings, turns: seq<Turn>, itt: u32)
    requires RegistryOk(reg) && Aligned(s, ini) && AllHonest(ini, turns)
    ensures AllInRange(Done(ini, turns, itt))
    decreases |turns|
  {
    if turns != [] {
      var a, bhs := turns[0].a, turns[0].bhs;
      StepPlaces(reg, s, ini, a, bhs);
      if Extended(ini, a).Some? {
        ExtendedInRange(s, ini, a);
      }
      DoneInRange(reg, Handle(reg, s, RequestOf(a), bhs).0, Place(ini, a), turns[1..], itt);
      var now, later := DoneNow(ini, a, itt), Done(Place(ini, a), turns[1..], itt);
      if now != [] {
        assert (now + later)[1..] == later;
      } else {
        assert now + later == later;
      }
    }
  }

  lemma ExtendedInRange(s: State, ini: Placings, a: Action)
    requires Aligned(s, ini) && Honest(ini, a) && Extended(ini, a).Some?
    ensures var o := Extended(ini, a).value;
            Within(o.ranges, |o.w.payload|) && |o.w.payload| < U32_SPAN
  {
    match a {
      case Start(w) => OneRange(w.cmd.data, w.payload);
      case Send(d) =>
        TotalMore(ini[d.itt].ranges, d.bufferOffset, d.bufferOffset + |d.data|, |ini[d.itt].w.payload|);
      case Other(_) =>
    }
  }

  lemma {:induction false} DisjointAreWhole(done: seq<Placing>)
    requires AllDisjoint(done) && AllInRange(done)
    ensures AllZeroOutside(done)
  {
    if done != [] {
      DisjointCovers(done[0]);
      DisjointAreWhole(done[1..]);
    }
  }

  /** An initiator that sends no byte of a write twice has every write executed with its payload, in whatever order it sends. */
  lemma DisjointRunsExecutePayloads(reg: Registry, s: State, ini: Placings, turns: seq<Turn>, itt: u32)
    requires RegistryOk(reg) && Aligned(s, ini) && AllHonest(ini, turns)
    requires AllDisjoint(Done(ini, turns, itt))
    ensures Executed(Log(reg, s, InputsOf(turns)), itt) == AsMeant(Done(ini, turns, itt))
  {
    DoneInRange(reg, s, ini, turns, itt);
    DisjointAreWhole(Done(ini, turns, itt));
    RunExecutesPayloadsIff(reg, s, ini, turns, itt);
  }

  // ----- exactly once, in any order of bytes -----

  function Open(ini: Placings, itt: u32): seq<Write> {
    if itt in ini then [ini[itt].w] else []
  }

  lemma {:induction false} AsMeantConcat(a: seq<Placing>, b: seq<Placing>)
    requires |a| <= 1
    ensures AsMeant(a + b) == AsMeant(a) + AsMeant(b)
  {
    if a == [] {
      assert a + b == b;
    } else {
      assert (a + b)[1..] == b && a[1..] == [];
    }
  }

  /** Every tag names its own write. */
  ghost predicate Keyed(ini: Placings) {
    forall itt :: itt in ini ==> ini[itt].w.cmd.itt == itt
  }

  lemma OpenStep(ini: Placings, a: Action, itt: u32)
    requires Keyed(ini) && Honest(ini, a)
    ensures Open(ini, itt) + (if a.Start? && a.w.cmd.itt == itt then [a.w] else [])
         == AsMeant(DoneNow(ini, a, itt)) + Open(Place(ini, a), itt)
  {
    var o := Extended(ini, a);
    if o.Some? {
      MeantOne(o.value);
    }
  }

  lemma MeantOne(o: Placing)
    ensures AsMeant([o]) == [o.w]
  {
    assert [o][1..] == [];
  }

  /** The completed writes are, in order, those started: each completes once, whatever order its bytes come in. */
  lemma {:induction false} StartedAreDone(reg: Registry, s: State, ini: Placings, turns: seq<Turn>, itt: u32)
    requires RegistryOk(reg) && Aligned(s, ini) && AllHonest(ini, turns)
    ensures Open(ini, itt) + Started(turns, itt) == AsMeant(Done(ini, turns, itt)) + Open(PlaceAll(ini, turns), itt)
    decreases |turns|
  {
    if turns != [] {
      var a, bhs := turns[0].a, turns[0].bhs;
      var next := Place(ini, a);
      StepPlaces(reg, s, ini, a, bhs);
      OpenStep(ini, a, itt);
      StartedAreDone(reg, Handle(reg, s, RequestOf(a), bhs).0, next, turns[1..], itt);
      AsMeantConcat(DoneNow(ini, a, itt), Done(next, turns[1..], itt));
      Shuffle(Open(ini, itt), if a.Start? && a.w.cmd.itt == itt then [a.w] else [], Started(turns[1..], itt),
              AsMeant(DoneNow(ini, a, itt)), Open(next, itt), AsMeant(Done(next, turns[1..], itt)), Open(PlaceAll(ini, turns), itt));
    }
  }
}
