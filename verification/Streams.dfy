/**
 * A byte stream of requests as the initiator lays them out, handed to the session one by one
 * (iscsi/transport.rs:52-113, iscsi/pdu.rs:136-175).
 */
module Streams {
  import opened Bytes
  import opened Wrappers
  import opened Pdu
  import opened Session
  import opened SessionRuns
  import opened Initiator
  import opened Transport

  /** A request with the text segment a login or text request carries. */
  datatype Sent = Sent(req: Request, text: Segment)

  predicate AllEncodable(sents: seq<Sent>) {
    forall i :: 0 <= i < |sents| ==> Encodable(sents[i].req, sents[i].text)
  }

  function Stream(sents: seq<Sent>): seq<byte>
    requires AllEncodable(sents)
  {
    if sents == [] then [] else Encode(sents[0].req, sents[0].text) + Stream(sents[1..])
  }

  /** The request with the header it was sent under. */
  function InputFor(sent: Sent): Input
    requires Encodable(sent.req, sent.text)
  {
    Input(sent.req, Bhs(HeaderOf(sent.req), |SegmentOf(sent.req, sent.text)|))
  }

  function InputsFor(sents: seq<Sent>): (inputs: seq<Input>)
    requires AllEncodable(sents)
    ensures |inputs| == |sents|
  {
    if sents == [] then [] else [InputFor(sents[0])] + InputsFor(sents[1..])
  }

  /** The first request of a stream is decoded to itself, header and all. */
  lemma FirstDecoded(sent: Sent, more: seq<byte>)
    requires Encodable(sent.req, sent.text)
    ensures var (pdu, bhs) := (Encode(sent.req, sent.text), InputFor(sent).bhs);
            && Decode(pdu + more) == Ok((sent.req, |pdu|))
            && (pdu + more)[..BHS_LEN] == bhs && (pdu + more)[|pdu|..] == more
  {
    DecodeEncode(sent.req, sent.text, more);
    var data := SegmentOf(sent.req, sent.text);
    FramedFront(InputFor(sent).bhs, data, more);
  }

  lemma FramedFront(bhs: HeaderBytes, data: seq<byte>, more: seq<byte>)
    ensures (Framed(bhs, data) + more)[..BHS_LEN] == bhs && (Framed(bhs, data) + more)[|Framed(bhs, data)|..] == more
  {
  }

  /** One request at the front of the stream. */
  lemma DrainFirst(reg: Registry, s: State, sent: Sent, more: seq<byte>)
    requires RegistryOk(reg) && WellFormed(s) && Encodable(sent.req, sent.text)
    ensures var i := InputFor(sent);
            var (t, out) := Handle(reg, s, i.req, i.bhs);
            && WellFormed(t)
            && Drain(reg, s, Encode(sent.req, sent.text) + more)
            == if t.stage.Closing? then Drained([i], out, t, more, SessionClosed) else Prepend([i], out, Drain(reg, t, more))
  {
    FirstDecoded(sent, more);
    HandleKeepsOk(reg, s, sent.req, InputFor(sent).bhs);
  }

  lemma ClosingStays(reg: Registry, s: State, inputs: seq<Input>)
    requires RegistryOk(reg) && WellFormed(s) && s.stage.Closing?
    ensures Run(reg, s, inputs).0.stage.Closing?
  {
    StageSafety(reg, s, inputs);
  }

  /**
   * As long as the session stays open, every request of the stream is handed over, in order, with its own
   * header, and draining goes on with what follows.
   */
  lemma {:induction false} StreamHandedOver(reg: Registry, s: State, sents: seq<Sent>, more: seq<byte>)
    requires RegistryOk(reg) && WellFormed(s) && AllEncodable(sents)
    requires !Run(reg, s, InputsFor(sents)).0.stage.Closing?
    ensures var (t, outs) := Run(reg, s, InputsFor(sents));
            WellFormed(t) && Drain(reg, s, Stream(sents) + more) == Prepend(InputsFor(sents), outs, Drain(reg, t, more))
    decreases |sents|
  {
    if sents == [] {
      assert [] + more == more;
      PrependNothing(Drain(reg, s, more));
    } else {
      var i, rest := InputFor(sents[0]), sents[1..];
      var (t, out) := Handle(reg, s, i.req, i.bhs);
      HandleKeepsOk(reg, s, i.req, i.bhs);
      assert InputsFor(sents)[1..] == InputsFor(rest);
      if t.stage.Closing? {
        ClosingStays(reg, t, InputsFor(rest));
      }
      StreamNext(sents, more);
      DrainFirst(reg, s, sents[0], Stream(rest) + more);
      StreamHandedOver(reg, t, rest, more);
      var (end, outs) := Run(reg, t, InputsFor(rest));
      StageSafety(reg, t, InputsFor(rest));
      PrependTwice([i], out, InputsFor(rest), outs, Drain(reg, end, more));
    }
  }

  lemma StreamNext(sents: seq<Sent>, more: seq<byte>)
    requires AllEncodable(sents) && sents != []
    ensures Stream(sents) + more == Encode(sents[0].req, sents[0].text) + (Stream(sents[1..]) + more)
  {
    Regrouped(Encode(sents[0].req, sents[0].text), Stream(sents[1..]), more);
  }

  lemma Regrouped(a: seq<byte>, b: seq<byte>, c: seq<byte>)
    ensures a + b + c == a + (b + c)
  {
  }

  /** An incomplete PDU at the end is kept and waited for; anything else that is not a PDU ends the connection. */
  lemma TailDecides(reg: Registry, s: State, sents: seq<Sent>, tail: seq<byte>)
    requires RegistryOk(reg) && WellFormed(s) && AllEncodable(sents) && Decode(tail).Err?
    requires !Run(reg, s, InputsFor(sents)).0.stage.Closing?
    ensures var (t, outs) := Run(reg, s, InputsFor(sents));
            Drain(reg, s, Stream(sents) + tail)
            == Drained(InputsFor(sents), outs, t, tail, if Short(Decode(tail)) then Open else Malformed(Decode(tail).error))
  {
    StreamHandedOver(reg, s, sents, tail);
    var (t, outs) := Run(reg, s, InputsFor(sents));
    DrainStops(reg, t, InputsFor(sents), outs, tail);
  }

  /** The request that closes the session is the last one handed over; what follows it is not looked at. */
  lemma ClosingStops(reg: Registry, s: State, sents: seq<Sent>, last: Sent, more: seq<byte>)
    requires RegistryOk(reg) && WellFormed(s) && AllEncodable(sents) && Encodable(last.req, last.text)
    requires !Run(reg, s, InputsFor(sents)).0.stage.Closing?
    requires Run(reg, s, InputsFor(sents) + [InputFor(last)]).0.stage.Closing?
    ensures var (t, outs) := Run(reg, s, InputsFor(sents) + [InputFor(last)]);
            Drain(reg, s, Stream(sents) + (Encode(last.req, last.text) + more))
            == Drained(InputsFor(sents) + [InputFor(last)], outs, t, more, SessionClosed)
  {
    var (mid, outs) := Run(reg, s, InputsFor(sents));
    StreamHandedOver(reg, s, sents, Encode(last.req, last.text) + more);
    RunThen(reg, s, InputsFor(sents), [InputFor(last)]);
    RunOne(reg, mid, InputFor(last), []);
    assert [InputFor(last)] + [] == [InputFor(last)];
    DrainFirst(reg, mid, last, more);
    var out := Handle(reg, mid, last.req, InputFor(last).bhs).1;
    assert out + [] == out;
  }
}
