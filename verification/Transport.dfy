/** The accumulate-and-drain loop over a TCP stream (iscsi/transport.rs). */
module Transport {
  import opened Bytes
  import opened Wrappers
  import opened Pdu
  import opened Scsi
  import opened Session
  import opened SessionRuns
  import opened Connections

  datatype Stop = Open | SessionClosed | Malformed(error: PduError)

  /** What draining has done: the requests handed over, the replies, the session, the bytes left, and why it stopped. */
  datatype Drained = Drained(inputs: seq<Input>, out: seq<Outbound>, s: State, rest: seq<byte>, stop: Stop)

  function Prepend(inputs: seq<Input>, out: seq<Outbound>, d: Drained): Drained {
    d.(inputs := inputs + d.inputs, out := out + d.out)
  }

  /** The inner loop: hand over every complete PDU in `buf`. */
  ghost function Drain(reg: Registry, s: State, buf: seq<byte>): (d: Drained)
    requires RegistryOk(reg) && WellFormed(s)
    ensures WellFormed(d.s)
    decreases |buf|
  {
    match Decode(buf)
    case Ok((req, used)) => (
      var bhs := buf[..BHS_LEN];
      HandleKeepsOk(reg, s, req, bhs);
      var (t, out) := Handle(reg, s, req, bhs);
      if t.stage.Closing? then Drained([Input(req, bhs)], out, t, buf[used..], SessionClosed)
      else Prepend([Input(req, bhs)], out, Drain(reg, t, buf[used..]))
    )
    case Err(e) => Drained([], [], s, buf, if e.ShortHeader? || e.ShortData? then Open else Malformed(e))
  }

  /** The outer loop: append each chunk read and drain again. A read that timed out is an empty chunk. */
  ghost function Feed(reg: Registry, d: Drained, chunks: seq<seq<byte>>): Drained
    requires RegistryOk(reg) && WellFormed(d.s)
    decreases |chunks|
  {
    if chunks == [] || !d.stop.Open? then d
    else Feed(reg, Prepend(d.inputs, d.out, Drain(reg, d.s, d.rest + chunks[0])), chunks[1..])
  }

  function Concat(chunks: seq<seq<byte>>): seq<byte> {
    if chunks == [] then [] else chunks[0] + Concat(chunks[1..])
  }

  /** Draining more bytes goes on where draining fewer left off; a stopped drain ignores what follows. */
  lemma {:induction false} DrainAppend(reg: Registry, s: State, a: seq<byte>, b: seq<byte>)
    requires RegistryOk(reg) && WellFormed(s)
    ensures var d := Drain(reg, s, a);
            Drain(reg, s, a + b)
            == if d.stop.Open? then Prepend(d.inputs, d.out, Drain(reg, d.s, d.rest + b)) else d.(rest := d.rest + b)
    decreases |a|
  {
    if Short(Decode(a)) {
      PrependNothing(Drain(reg, s, a + b));
    } else {
      DecodeStable(a, b);
      if Decode(a).Ok? {
        var (req, used) := Decode(a).value;
        var bhs := a[..BHS_LEN];
        assert (a + b)[..BHS_LEN] == bhs && (a + b)[used..] == a[used..] + b;
        HandleKeepsOk(reg, s, req, bhs);
        var (t, out) := Handle(reg, s, req, bhs);
        if !t.stage.Closing? {
          DrainAppend(reg, t, a[used..], b);
          var d := Drain(reg, t, a[used..]);
          PrependTwice([Input(req, bhs)], out, d.inputs, d.out, Drain(reg, d.s, d.rest + b));
        }
      }
    }
  }

  lemma PrependNothing(d: Drained)
    ensures Prepend([], [], d) == d
  {
  }

  lemma PrependTwice(i: seq<Input>, o: seq<Outbound>, j: seq<Input>, p: seq<Outbound>, d: Drained)
    ensures Prepend(i, o, Prepend(j, p, d)) == Prepend(i + j, o + p, d)
  {
    assert i + (j + d.inputs) == (i + j) + d.inputs;
    assert o + (p + d.out) == (o + p) + d.out;
  }

  /** Everything the session and its peer can see. */
  ghost predicate SameEffect(d: Drained, e: Drained) {
    d.inputs == e.inputs && d.out == e.out && d.s == e.s && d.stop == e.stop && (d.stop.Open? ==> d.rest == e.rest)
  }

  lemma ConcatNext(buf: seq<byte>, chunks: seq<seq<byte>>)
    requires chunks != []
    ensures buf + Concat(chunks) == (buf + chunks[0]) + Concat(chunks[1..])
  {
  }

  lemma FeedNext(reg: Registry, s: State, buf: seq<byte>, chunks: seq<seq<byte>>)
    requires RegistryOk(reg) && WellFormed(s) && chunks != [] && Drain(reg, s, buf).stop.Open?
    ensures Feed(reg, Drain(reg, s, buf), chunks) == Feed(reg, Drain(reg, s, buf + chunks[0]), chunks[1..])
  {
    DrainAppend(reg, s, buf, chunks[0]);
  }

  /** Feeding chunks one by one is draining them all at once. */
  lemma {:induction false} FeedIsDrain(reg: Registry, s: State, buf: seq<byte>, chunks: seq<seq<byte>>)
    requires RegistryOk(reg) && WellFormed(s)
    ensures SameEffect(Feed(reg, Drain(reg, s, buf), chunks), Drain(reg, s, buf + Concat(chunks)))
    decreases |chunks|
  {
    var d := Drain(reg, s, buf);
    if chunks == [] {
      assert buf + Concat([]) == buf;
    } else {
      if d.stop.Open? {
        FeedNext(reg, s, buf, chunks);
        FeedIsDrain(reg, s, buf + chunks[0], chunks[1..]);
        ConcatNext(buf, chunks);
      } else {
        DrainAppend(reg, s, buf, Concat(chunks));
      }
    }
  }

  /**
   * Framing does not depend on segmentation: two ways of cutting one byte stream into reads hand the
   * session the same requests with the same headers, and end in the same session, replies and stop.
   */
  lemma SegmentationIndependent(reg: Registry, s: State, chunks: seq<seq<byte>>, others: seq<seq<byte>>)
    requires RegistryOk(reg) && WellFormed(s) && Concat(chunks) == Concat(others)
    ensures SameEffect(Feed(reg, Drain(reg, s, []), chunks), Feed(reg, Drain(reg, s, []), others))
  {
    FeedIsDrain(reg, s, [], chunks);
    FeedIsDrain(reg, s, [], others);
  }

  /** The session only ever sees whole requests: its state and replies are a run over the inputs handed over. */
  lemma {:induction false} DrainRuns(reg: Registry, s: State, buf: seq<byte>)
    requires RegistryOk(reg) && WellFormed(s)
    ensures var d := Drain(reg, s, buf);
            Run(reg, s, d.inputs) == (d.s, d.out)
    decreases |buf|
  {
    if Decode(buf).Ok? {
      var (req, used) := Decode(buf).value;
      var bhs := buf[..BHS_LEN];
      HandleKeepsOk(reg, s, req, bhs);
      var (t, out) := Handle(reg, s, req, bhs);
      if t.stage.Closing? {
        RunOne(reg, s, Input(req, bhs), []);
        assert [Input(req, bhs)] + [] == [Input(req, bhs)] && out + [] == out;
      } else {
        var d := Drain(reg, t, buf[used..]);
        DrainRuns(reg, t, buf[used..]);
        RunOne(reg, s, Input(req, bhs), d.inputs);
      }
    }
  }

  // ----- the loop itself -----

  /** A bound session no longer looks at the registry's targets. */
  lemma BoundIgnoresTargets(reg: Registry, now: Registry, s: State, req: Request, bhs: seq<byte>)
    requires StateOk(s) && Bound(s) && |bhs| == BHS_LEN
    requires now == reg || (s.target.Some? && now.names == reg.names)
    ensures Session.Handle(now, s, req, bhs) == Session.Handle(reg, s, req, bhs)
  {
  }

  /** The registry as it was when the connection began, for every purpose the session still has for it. */
  ghost predicate SameRegistry(conn: Connection, reg: Registry)
    reads conn, conn.targets.Values
  {
    conn.Reg() == reg || (conn.target != null && conn.Reg().names == reg.names)
  }

  method HandOver(conn: Connection, req: Request, bhs: HeaderBytes, ghost reg: Registry) returns (out: seq<Outbound>)
    requires conn.Valid() && RegistryOk(reg) && SameRegistry(conn, reg)
    modifies conn, conn.targets.Values
    ensures conn.Valid() && SameRegistry(conn, reg)
    ensures (conn.View(), out) == Session.Handle(reg, old(conn.View()), req, bhs)
  {
    BoundIgnoresTargets(reg, conn.Reg(), conn.View(), req, bhs);
    ghost var before, unbound := conn.Reg(), conn.target == null;
    HandleKeepsOk(reg, conn.View(), req, bhs);
    out := conn.Handle(req, bhs);
    if unbound {
      assert conn.Reg() == before;
    }
  }

  /** One request handed over moves what is still to be drained into what has been done. */
  lemma HandedOver(reg: Registry, s: State, inputs: seq<Input>, out: seq<Outbound>, buf: seq<byte>, t: State, replies: seq<Outbound>)
    requires RegistryOk(reg) && WellFormed(s) && Decode(buf).Ok?
    requires (t, replies) == Handle(reg, s, Decode(buf).value.0, buf[..BHS_LEN])
    ensures WellFormed(t)
    ensures var (req, used) := Decode(buf).value;
            Prepend(inputs, out, Drain(reg, s, buf))
            == Prepend(inputs + [Input(req, buf[..BHS_LEN])], out + replies,
                       if t.stage.Closing? then Drained([], [], t, buf[used..], SessionClosed) else Drain(reg, t, buf[used..]))
  {
    var (req, used) := Decode(buf).value;
    HandleKeepsOk(reg, s, req, buf[..BHS_LEN]);
    PrependTwice(inputs, out, [Input(req, buf[..BHS_LEN])], replies,
                 if t.stage.Closing? then Drained([], [], t, buf[used..], SessionClosed) else Drain(reg, t, buf[used..]));
  }

  lemma DrainStops(reg: Registry, s: State, inputs: seq<Input>, out: seq<Outbound>, buf: seq<byte>)
    requires RegistryOk(reg) && WellFormed(s) && Decode(buf).Err?
    ensures Prepend(inputs, out, Drain(reg, s, buf))
         == Drained(inputs, out, s, buf, if Short(Decode(buf)) then Open else Malformed(Decode(buf).error))
  {
  }

  /** The drain loop of `handle_conn`. */
  method DrainBuffer(conn: Connection, buf: seq<byte>, ghost reg: Registry)
    returns (out: seq<Outbound>, rest: seq<byte>, stop: Stop, ghost inputs: seq<Input>)
    requires conn.Valid() && RegistryOk(reg) && SameRegistry(conn, reg)
    modifies conn, conn.targets.Values
    ensures conn.Valid() && SameRegistry(conn, reg)
    ensures Drained(inputs, out, conn.View(), rest, stop) == Drain(reg, old(conn.View()), buf)
  {
    out, rest, stop, inputs := [], buf, Open, [];
    ghost var whole := Drain(reg, conn.View(), buf);
    PrependNothing(whole);
    while true
      invariant conn.Valid() && SameRegistry(conn, reg)
      invariant Prepend(inputs, out, Drain(reg, conn.View(), rest)) == whole
      decreases |rest|
    {
      ghost var s := conn.View();
      match Decode(rest) {
        case Ok((req, used)) =>
          var bhs := rest[..BHS_LEN];
          var replies := HandOver(conn, req, bhs, reg);
          HandedOver(reg, s, inputs, out, rest, conn.View(), replies);
          out, rest, inputs := out + replies, rest[used..], inputs + [Input(req, bhs)];
          if conn.stage.Closing? {
            stop := SessionClosed;
            return;
          }
        case Err(e) =>
          DrainStops(reg, s, inputs, out, rest);
          stop := if e.ShortHeader? || e.ShortData? then Open else Malformed(e);
          return;
      }
    }
  }

  /** `handle_conn` over the chunks the socket delivers before the peer stops sending. */
  method HandleConn(conn: Connection, chunks: seq<seq<byte>>)
    returns (out: seq<Outbound>, buf: seq<byte>, stop: Stop, ghost inputs: seq<Input>)
    requires conn.Valid()
    modifies conn, conn.targets.Values
    ensures conn.Valid()
    ensures Drained(inputs, out, conn.View(), buf, stop)
         == Feed(old(conn.Reg()), Drain(old(conn.Reg()), old(conn.View()), []), chunks)
  {
    ghost var reg := conn.Reg();
    out, buf, stop, inputs := DrainBuffer(conn, [], reg);
    ghost var whole := Feed(reg, Drained(inputs, out, conn.View(), buf, stop), chunks);
    var i := 0;
    while i < |chunks| && stop.Open?
      invariant conn.Valid() && SameRegistry(conn, reg) && i <= |chunks|
      invariant Feed(reg, Drained(inputs, out, conn.View(), buf, stop), chunks[i..]) == whole
    {
      var replies, rest, next, more := DrainBuffer(conn, buf + chunks[i], reg);
      assert chunks[i..][1..] == chunks[i + 1..];
      out, buf, stop, inputs, i := out + replies, rest, next, inputs + more, i + 1;
    }
  }
}
