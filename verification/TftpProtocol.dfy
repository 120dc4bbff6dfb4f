/**
 * The TFTP sender against a client that follows RFC 1350 sections 2 and 6, over a network that
 * loses, duplicates and reorders: a packet once sent may be delivered any number of times, ever or never.
 */
module TftpProtocol {
  import opened Bytes
  import opened Wrappers
  import opened Tftp

  datatype Packet = Packet(block: u16, chunk: seq<byte>)

  /** A receiver: the next block it expects and the bytes it holds. */
  datatype Client = Client(expected: nat, bytes: seq<byte>, done: bool)

  /** Both ends, with every packet ever put on the wire in each direction. */
  datatype Net = Net(server: Server, client: Client, toClient: set<Packet>, toServer: set<u16>)

  datatype Action =
    | Wait(e: Event)          // the server's wait ends with `e`, and it acts on it
    | Deliver(p: Packet)      // a DATA packet reaches the client
    | Resend                  // the client repeats its last ACK

  /** The client acknowledges the block it expects, and repeats the ACK of the one before. */
  function Receive(c: Client, blksize: nat, p: Packet): (Client, Option<u16>) {
    if !c.done && p.block == c.expected then (Client(c.expected + 1, c.bytes + p.chunk, |p.chunk| < blksize), Some(p.block))
    else if p.block == c.expected - 1 then (c, Some(p.block))
    else (c, None)
  }

  function Sent(data: seq<byte>, blksize: nat, s: Server): (p: set<Packet>)
    requires ServerOk(data, blksize, s)
  {
    if s.stop.Some? then {} else {Packet(s.current, Chunk(data, blksize, s.current))}
  }

  function StartNet(cfg: Config, data: seq<byte>, blksize: nat): Net
    requires blksize > 0
  {
    Net(Start(cfg), Client(1, [], false), {Packet(1, Chunk(data, blksize, 1))}, {})
  }

  /** An action the network allows: only packets that were sent arrive, and a stopped server waits no more. */
  predicate Enabled(n: Net, a: Action) {
    match a
    case Wait(e) => n.server.stop.None? && (e.Ack? ==> e.block in n.toServer)
    case Deliver(p) => p in n.toClient
    case Resend => true
  }

  function Step(cfg: Config, data: seq<byte>, blksize: nat, n: Net, a: Action): Net
    requires ServerOk(data, blksize, n.server) && Enabled(n, a)
  {
    match a
    case Wait(e) =>
      OnEventOk(cfg, data, blksize, n.server, e);
      var s := OnEvent(cfg, data, blksize, n.server, e);
      n.(server := s, toClient := n.toClient + Sent(data, blksize, s))
    case Deliver(p) =>
      var (c, ack) := Receive(n.client, blksize, p);
      n.(client := c, toServer := n.toServer + match ack case Some(b) => {b} case None => {})
    case Resend => if 1 <= n.client.expected <= 0x1_0000 then n.(toServer := n.toServer + {n.client.expected - 1}) else n
  }

  /** Block `k` as the server sends it. */
  predicate Genuine(data: seq<byte>, blksize: nat, current: u16, p: Packet) {
    1 <= p.block <= current && Span(p.block - 1, blksize) <= |data| && p.chunk == Chunk(data, blksize, p.block)
  }

  /** The client holds everything before the block it expects; it is done once that reaches past the end. */
  predicate Holds(data: seq<byte>, blksize: nat, c: Client) {
    && c.expected >= 1
    && c.bytes == data[..Min(Span(c.expected - 1, blksize), |data|)]
    && (c.done <==> Span(c.expected - 1, blksize) > |data|)
  }

  predicate NetOk(data: seq<byte>, blksize: nat, n: Net) {
    && ServerOk(data, blksize, n.server) && n.server.stop != Some(Crashed)
    && n.server.current <= n.client.expected <= n.server.current + 1
    && Holds(data, blksize, n.client)
    && (forall p :: p in n.toClient ==> Genuine(data, blksize, n.server.current, p))
    && (forall a :: a in n.toServer ==> a < n.client.expected)
    && (n.server.stop == Some(Finished) ==> n.client.done)
  }

  lemma StartOk(cfg: Config, data: seq<byte>, blksize: nat)
    requires blksize > 0
    ensures NetOk(data, blksize, StartNet(cfg, data, blksize))
  {
    assert Span(0, blksize) == 0;
  }

  lemma WaitKeeps(cfg: Config, data: seq<byte>, blksize: nat, n: Net, e: Event)
    requires NetOk(data, blksize, n) && Enabled(n, Wait(e)) && |data| < Span(LAST_BLOCK, blksize)
    ensures NetOk(data, blksize, Step(cfg, data, blksize, n, Wait(e)))
  {
    OnEventOk(cfg, data, blksize, n.server, e);
    ServerMoves(cfg, data, blksize, n, e);
  }

  /** The server moves on only past a block the client has, and finishes only when the client is done. */
  lemma ServerMoves(cfg: Config, data: seq<byte>, blksize: nat, n: Net, e: Event)
    requires NetOk(data, blksize, n) && Enabled(n, Wait(e)) && |data| < Span(LAST_BLOCK, blksize)
    ensures var s := OnEvent(cfg, data, blksize, n.server, e);
            && n.server.current <= s.current <= n.client.expected && s.stop != Some(Crashed)
            && (s.stop == Some(Finished) ==> n.client.done)
  {
    assert Span(n.server.current, blksize) == Span(n.server.current - 1, blksize) + blksize;
  }

  lemma DeliverKeeps(cfg: Config, data: seq<byte>, blksize: nat, n: Net, p: Packet)
    requires NetOk(data, blksize, n) && Enabled(n, Deliver(p))
    ensures NetOk(data, blksize, Step(cfg, data, blksize, n, Deliver(p)))
  {
    if !n.client.done && p.block == n.client.expected {
      ReceiveHolds(data, blksize, n.client, p);
    }
  }

  lemma ReceiveHolds(data: seq<byte>, blksize: nat, c: Client, p: Packet)
    requires blksize > 0 && Holds(data, blksize, c) && !c.done && p.block == c.expected
    requires p.chunk == Chunk(data, blksize, p.block)
    ensures Holds(data, blksize, Receive(c, blksize, p).0)
  {
    var at := Span(c.expected - 1, blksize);
    assert Span(c.expected, blksize) == at + blksize;
    assert data[..at] + data[at..Min(at + blksize, |data|)] == data[..Min(at + blksize, |data|)];
  }

  lemma StepKeeps(cfg: Config, data: seq<byte>, blksize: nat, n: Net, a: Action)
    requires NetOk(data, blksize, n) && Enabled(n, a) && |data| < Span(LAST_BLOCK, blksize)
    ensures NetOk(data, blksize, Step(cfg, data, blksize, n, a))
  {
    match a {
      case Wait(e) => WaitKeeps(cfg, data, blksize, n, e);
      case Deliver(p) => DeliverKeeps(cfg, data, blksize, n, p);
      case Resend =>
    }
  }

  // ----- every schedule -----

  predicate Schedule(cfg: Config, data: seq<byte>, blksize: nat, n: Net, actions: seq<Action>)
    requires ServerOk(data, blksize, n.server)
    decreases |actions|
  {
    actions == [] ||
    (&& Enabled(n, actions[0])
     && (StepServerOk(cfg, data, blksize, n, actions[0]);
         Schedule(cfg, data, blksize, Step(cfg, data, blksize, n, actions[0]), actions[1..])))
  }

  lemma StepServerOk(cfg: Config, data: seq<byte>, blksize: nat, n: Net, a: Action)
    requires ServerOk(data, blksize, n.server) && Enabled(n, a)
    ensures ServerOk(data, blksize, Step(cfg, data, blksize, n, a).server)
  {
    if a.Wait? {
      OnEventOk(cfg, data, blksize, n.server, a.e);
    }
  }

  function Run(cfg: Config, data: seq<byte>, blksize: nat, n: Net, actions: seq<Action>): Net
    requires ServerOk(data, blksize, n.server) && Schedule(cfg, data, blksize, n, actions)
    decreases |actions|
  {
    if actions == [] then n
    else
      StepServerOk(cfg, data, blksize, n, actions[0]);
      Run(cfg, data, blksize, Step(cfg, data, blksize, n, actions[0]), actions[1..])
  }

  lemma {:induction false} RunKeeps(cfg: Config, data: seq<byte>, blksize: nat, n: Net, actions: seq<Action>)
    requires NetOk(data, blksize, n) && Schedule(cfg, data, blksize, n, actions) && |data| < Span(LAST_BLOCK, blksize)
    ensures NetOk(data, blksize, Run(cfg, data, blksize, n, actions))
    decreases |actions|
  {
    if actions != [] {
      StepKeeps(cfg, data, blksize, n, actions[0]);
      RunKeeps(cfg, data, blksize, Step(cfg, data, blksize, n, actions[0]), actions[1..]);
    }
  }

  /**
   * Transfer safety: for a file of fewer than 65535 blocks, whatever the network does, the client's
   * bytes are a prefix of the file, its expected block is the server's current one or the next, and
   * if the server stops on the final ACK the client holds the whole file and knows it.
   */
  lemma TransferSafety(cfg: Config, data: seq<byte>, blksize: nat, actions: seq<Action>)
    requires blksize > 0 && |data| < Span(LAST_BLOCK, blksize)
    requires Schedule(cfg, data, blksize, StartNet(cfg, data, blksize), actions)
    ensures var n := Run(cfg, data, blksize, StartNet(cfg, data, blksize), actions);
            && n.client.bytes <= data
            && (n.client.expected == n.server.current || n.client.expected == n.server.current + 1)
            && n.server.stop != Some(Crashed)
            && (n.client.done ==> n.client.bytes == data)
            && (n.server.stop == Some(Finished) ==> n.client.done && n.client.bytes == data)
  {
    StartOk(cfg, data, blksize);
    RunKeeps(cfg, data, blksize, StartNet(cfg, data, blksize), actions);
  }

  /** A file whose length is a multiple of the block size ends with an empty block, which the client needs to finish. */
  lemma EmptyLastBlock(data: seq<byte>, blksize: nat, k: nat, c: Client)
    requires blksize > 0 && |data| == Span(k, blksize) && Holds(data, blksize, c) && c.bytes == data
    ensures Chunk(data, blksize, k + 1) == []
    ensures c.done <==> c.expected >= k + 2
  {
    if c.expected >= k + 2 {
      SpanMono(k + 1, c.expected - 1, blksize);
    } else {
      SpanMono(c.expected - 1, k, blksize);
    }
  }
}
