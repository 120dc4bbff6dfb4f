/** From the first byte on the wire to the last: log in, write, read back (iscsi/transport.rs, iscsi/session/, iscsi/scsi/). */
module Wire {
  import opened Bytes
  import opened Wrappers
  import opened Pdu
  import opened Scsi
  import opened Session
  import opened SessionRuns
  import opened Executions
  import opened WriteAssembly
  import opened ReadBack
  import opened Cdbs
  import opened Logins
  import opened WriteThenRead
  import opened Transport
  import opened Streams

  /** A command leaves the session in the full-feature phase, with its parameters. */
  lemma CommandStays(reg: Registry, s: State, cmd: ScsiCommand, bhs: HeaderBytes)
    requires RegistryOk(reg) && WellFormed(s) && s.stage.FullFeature? && !cmd.write
    ensures var t := Handle(reg, s, Command(cmd), bhs).0; t.stage.FullFeature? && t.params == s.params
  {
  }

  /** A last request after a run. */
  lemma LastOfRun(reg: Registry, s: State, inputs: seq<Input>, last: Input)
    requires RegistryOk(reg) && WellFormed(s)
    ensures WellFormed(Run(reg, s, inputs).0)
    ensures var (t, outs) := Run(reg, s, inputs);
            var (end, more) := Handle(reg, t, last.req, last.bhs);
            Run(reg, s, inputs + [last]) == (end, outs + more)
  {
    RunThen(reg, s, inputs, [last]);
    var t := Run(reg, s, inputs).0;
    RunOne(reg, t, last, []);
    assert [last] + [] == [last];
    var more := Handle(reg, t, last.req, last.bhs).1;
    assert more + [] == more;
  }

  /** A stream that keeps the session open, however it is cut into reads, has the effect of its requests run in order. */
  lemma ChunksRun(reg: Registry, chunks: seq<seq<byte>>, sents: seq<Sent>)
    requires RegistryOk(reg) && WellFormed(INITIAL) && AllEncodable(sents) && Concat(chunks) == Stream(sents)
    requires !Run(reg, INITIAL, InputsFor(sents)).0.stage.Closing?
    ensures var d := Feed(reg, Drain(reg, INITIAL, []), chunks);
            var (t, outs) := Run(reg, INITIAL, InputsFor(sents));
            d.inputs == InputsFor(sents) && d.s == t && d.out == outs && d.stop.Open? && d.rest == []
  {
    FeedIsDrain(reg, INITIAL, [], chunks);
    assert [] + Concat(chunks) == Stream(sents) + [];
    TailDecides(reg, INITIAL, sents, []);
  }

  /**
   * However the bytes of two login requests, any disciplined traffic and a READ arrive, the session takes
   * exactly those requests, and its last replies fetch what was last written to the blocks.
   */
  lemma WireWriteRead(reg: Registry, chunks: seq<seq<byte>>, sents: seq<Sent>, a: Input, b: Input, name: string, s: State,
                      turns: seq<Turn>, before: seq<Execution>, e: Execution, after: seq<Execution>, wf: Form, rf: Form,
                      k: nat, lba: u64, n: u32, cmd: ScsiCommand, bhs: HeaderBytes)
    returns (earlier: seq<Outbound>, fetched: seq<Outbound>)
    requires AllEncodable(sents) && Concat(chunks) == Stream(sents)
    requires InputsFor(sents) == [a, b] + InputsOf(turns) + [Input(Command(cmd), bhs)]
    requires RegistryOk(reg) && a.req.Login? && b.req.Login? && TwoSteps(a.req.login, b.req.login)
    requires name in reg.targets && NamedInTwo(a.req.login, b.req.login, name) && WellFormed(INITIAL)
    requires s == Run(reg, INITIAL, [a, b]).0 && WellFormed(s) && AllDisciplined(map[], turns)
    requires k < |reg.targets[name]| && reg.targets[name][k].Some?
    requires var lu := reg.targets[name][k].value;
             && (lba + n) * lu.blockSize <= |lu.Disk()| && Writes(e, wf, k, lba, n, lu.blockSize) && |e.data| < U32_SPAN
             && Trusted(reg, s, map[], turns, lu)
    requires Asked(map[], turns) == before + [e] + after && AllElsewhere(after, k, lba, n)
    requires ReadsBlocks(cmd, rf, k, lba, n)
    ensures var d := Feed(reg, Drain(reg, INITIAL, []), chunks);
            && d.stop.Open? && d.inputs == InputsFor(sents) && d.out == earlier + fetched
            && Fetches(fetched, cmd.itt, SegmentLimit(d.s.params), e.data, reg.targets[name][k].value.master.faulty == {})
  {
    var inputs := [a, b] + InputsOf(turns);
    LoginWriteRead(reg, a, b, name, s, turns, before, e, after, wf, rf, k, lba, n, cmd, bhs);
    LastOfRun(reg, INITIAL, inputs, Input(Command(cmd), bhs));
    var (t, outs) := Run(reg, INITIAL, inputs);
    CommandStays(reg, t, cmd, bhs);
    ChunksRun(reg, chunks, sents);
    earlier, fetched := outs, Handle(reg, t, Command(cmd), bhs).1;
  }
}
