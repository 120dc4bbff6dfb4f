/** The TFTP sender: stop-and-wait with retries and backoff (net/tftp/server.rs; RFC 1350, RFC 2348). */
module Tftp {
  import opened Bytes
  import opened Wrappers
  import opened Numerals

  const LAST_BLOCK: u16 := 0xffff

  // ----- block size -----

  function ParseU16(s: string): Option<u16> {
    match ParseUnsigned(s, 0xffff)
    case Some(v) => Some(v)
    case None => None
  }

  /** An offer the server takes up: the first `blksize` option of at least 8. */
  predicate Usable(o: (string, string)) {
    o.0 == "blksize" && ParseU16(o.1).Some? && ParseU16(o.1).value >= 8
  }

  /** The first usable offer. */
  function Offer(options: seq<(string, string)>): (v: Option<u16>)
    ensures v.Some? ==> v.value >= 8
  {
    if options == [] then None
    else if Usable(options[0]) then ParseU16(options[0].1)
    else Offer(options[1..])
  }

  /** `negotiate_blksize`: the first usable offer capped at the server's maximum, or 512. */
  method NegotiateBlksize(options: seq<(string, string)>, maxBlksize: u16) returns (size: u16)
    ensures size == match Offer(options) case Some(v) => Min(v, maxBlksize) case None => 512
    ensures maxBlksize >= 8 ==> 8 <= size <= Max(maxBlksize, 512)
  {
    var rest := options;
    while rest != []
      invariant Offer(rest) == Offer(options)
      decreases |rest|
    {
      if rest[0].0 == "blksize" {
        var v := ParseU16(rest[0].1);
        if v.Some? && v.value >= 8 {
          return Min(v.value, maxBlksize);
        }
      }
      rest := rest[1..];
    }
    size := 512;
  }

  /** An offer is taken up exactly when a usable one was made: the earliest. */
  lemma {:induction false} OfferIsFirst(options: seq<(string, string)>, i: nat)
    requires i < |options| && Usable(options[i]) && forall j :: 0 <= j < i ==> !Usable(options[j])
    ensures Offer(options) == ParseU16(options[i].1)
  {
    if i > 0 {
      OfferIsFirst(options[1..], i - 1);
    }
  }

  // ----- one transfer as a state machine -----

  /** What the wait after one DATA packet brings: an ACK, anything else received (or a receive error), or nothing. */
  datatype Event = Ack(block: u16) | Junk | Timeout

  /** `Crashed` is the out-of-range slice at block number 0, which follows block 65535. */
  datatype Stop = Finished | GaveUp | TimedOut | Crashed

  datatype Config = Config(maxRetries: nat, baseTimeout: nat)

  datatype Server = Server(current: u16, retries: nat, timeout: nat, stop: Option<Stop>)

  function Start(cfg: Config): Server {
    Server(1, 0, cfg.baseTimeout, None)
  }

  /** Block `k` is short, and so the last: the file ends inside it or right before it. */
  predicate Last(len: nat, blksize: nat, k: nat)
    requires k >= 1
  {
    len < Span(k - 1, blksize) + blksize
  }

  /** The bytes of block `k` of `data`, block numbers from 1. */
  function Chunk(data: seq<byte>, blksize: nat, k: nat): (c: seq<byte>)
    requires k >= 1 && Span(k - 1, blksize) <= |data|
    ensures |c| <= blksize
    ensures |c| < blksize <==> Last(|data|, blksize, k)
  {
    data[Span(k - 1, blksize)..Min(Span(k - 1, blksize) + blksize, |data|)]
  }

  /** The 16-bit wrapping successor. */
  function NextBlock(b: u16): u16 {
    if b == LAST_BLOCK then 0 else b + 1
  }

  function Retry(cfg: Config, s: Server, e: Event, last: bool): Server {
    if s.retries + 1 > cfg.maxRetries
    then s.(retries := s.retries + 1, stop := Some(if e.Timeout? && !last then TimedOut else GaveUp))
    else s.(retries := s.retries + 1, timeout := s.timeout * 2)
  }

  /** One round: block `current` has been sent and `e` is what came back. */
  function OnEvent(cfg: Config, data: seq<byte>, blksize: nat, s: Server, e: Event): Server
    requires ServerOk(data, blksize, s) && s.stop.None?
  {
    var last := Last(|data|, blksize, s.current);
    if e == Ack(s.current) then
      if last then s.(stop := Some(Finished))
      else
        Server(NextBlock(s.current), 0, cfg.baseTimeout, if s.current == LAST_BLOCK then Some(Crashed) else None)
    else Retry(cfg, s, e, last)
  }

  /** The current block lies in the file, or just behind its last full block. */
  predicate ServerOk(data: seq<byte>, blksize: nat, s: Server) {
    && blksize > 0
    && (s.stop != Some(Crashed) ==> s.current >= 1 && Span(s.current - 1, blksize) <= |data|)
    && (s.stop == Some(Crashed) ==> Span(LAST_BLOCK, blksize) <= |data|)
  }

  lemma OnEventOk(cfg: Config, data: seq<byte>, blksize: nat, s: Server, e: Event)
    requires ServerOk(data, blksize, s) && s.stop.None?
    ensures ServerOk(data, blksize, OnEvent(cfg, data, blksize, s, e))
  {
    assert Span(s.current, blksize) == Span(s.current - 1, blksize) + blksize;
  }

  /** The server after a history of rounds; rounds after it has stopped do not happen. */
  function After(cfg: Config, data: seq<byte>, blksize: nat, events: seq<Event>): (s: Server)
    requires blksize > 0
    ensures ServerOk(data, blksize, s)
  {
    if events == [] then Start(cfg)
    else
      var s := After(cfg, data, blksize, events[..|events| - 1]);
      if s.stop.Some? then s
      else
        OnEventOk(cfg, data, blksize, s, events[|events| - 1]);
        OnEvent(cfg, data, blksize, s, events[|events| - 1])
  }

  lemma AfterNext(cfg: Config, data: seq<byte>, blksize: nat, events: seq<Event>, e: Event)
    requires blksize > 0 && After(cfg, data, blksize, events).stop.None?
    ensures After(cfg, data, blksize, events + [e]) == OnEvent(cfg, data, blksize, After(cfg, data, blksize, events), e)
  {
    assert (events + [e])[..|events|] == events;
  }

  function Pow2(n: nat): nat {
    if n == 0 then 1 else 2 * Pow2(n - 1)
  }

  /** A DATA packet as sent, and how long the server then waited. */
  datatype Attempt = Attempt(block: u16, chunk: seq<byte>, timeout: nat)

  /** Each DATA sent is the current block's, and the wait after it doubles with every retry. */
  predicate AttemptOk(cfg: Config, data: seq<byte>, blksize: nat, s: Server, a: Attempt) {
    && ServerOk(data, blksize, s) && s.stop.None?
    && a.block == s.current && a.chunk == Chunk(data, blksize, s.current)
    && a.timeout == cfg.baseTimeout * Pow2(s.retries)
  }

  /** Every DATA packet sent, each against the server's state at the time. */
  predicate AttemptsOk(cfg: Config, data: seq<byte>, blksize: nat, events: seq<Event>, attempts: seq<Attempt>)
    requires blksize > 0
    decreases |events|
  {
    && |attempts| == |events|
    && (events == [] ||
        var n := |events| - 1;
        && AttemptsOk(cfg, data, blksize, events[..n], attempts[..n])
        && AttemptOk(cfg, data, blksize, After(cfg, data, blksize, events[..n]), attempts[n]))
  }

  lemma AttemptsNext(cfg: Config, data: seq<byte>, blksize: nat, events: seq<Event>, attempts: seq<Attempt>, e: Event, a: Attempt)
    requires blksize > 0 && AttemptsOk(cfg, data, blksize, events, attempts)
    requires AttemptOk(cfg, data, blksize, After(cfg, data, blksize, events), a)
    ensures AttemptsOk(cfg, data, blksize, events + [e], attempts + [a])
  {
    assert (events + [e])[..|events|] == events && (attempts + [a])[..|events|] == attempts;
  }

  /** The number of DATA packets a transfer can send. */
  function MostSends(cfg: Config, len: nat, blksize: nat): nat
    requires blksize > 0
  {
    Span(Quot(len, blksize) + 1, cfg.maxRetries + 1)
  }

  /** The timeout doubles with every retry, and a live transfer has not used its retries up. */
  lemma {:induction false} BackoffHolds(cfg: Config, data: seq<byte>, blksize: nat, events: seq<Event>)
    requires blksize > 0 && After(cfg, data, blksize, events).stop.None?
    ensures var s := After(cfg, data, blksize, events);
            s.timeout == cfg.baseTimeout * Pow2(s.retries) && s.retries <= cfg.maxRetries
  {
    if events != [] {
      BackoffHolds(cfg, data, blksize, events[..|events| - 1]);
      var r := After(cfg, data, blksize, events[..|events| - 1]).retries;
      DoublePow(cfg.baseTimeout, r);
    }
  }

  lemma DoublePow(base: nat, n: nat)
    ensures base * Pow2(n) * 2 == base * Pow2(n + 1)
    ensures base * Pow2(0) == base
  {
  }

  /** Each of the `k` blocks acknowledged so far cost at most `maxRetries + 1` sends. */
  lemma {:induction false} SendsSoFar(cfg: Config, data: seq<byte>, blksize: nat, events: seq<Event>) returns (k: nat, retries: nat)
    requires blksize > 0 && After(cfg, data, blksize, events).stop.None?
    ensures k + 1 == After(cfg, data, blksize, events).current && Span(k, blksize) <= |data|
    ensures retries == After(cfg, data, blksize, events).retries <= cfg.maxRetries
    ensures |events| <= Span(k, cfg.maxRetries + 1) + retries
  {
    if events == [] {
      k, retries := 0, 0;
    } else {
      var before, e := events[..|events| - 1], events[|events| - 1];
      var j, r := SendsSoFar(cfg, data, blksize, before);
      SendsStep(cfg, data, blksize, After(cfg, data, blksize, before), e, |before|);
      k, retries := After(cfg, data, blksize, events).current - 1, After(cfg, data, blksize, events).retries;
    }
  }

  lemma SendsStep(cfg: Config, data: seq<byte>, blksize: nat, s: Server, e: Event, sends: nat)
    requires ServerOk(data, blksize, s) && s.stop.None? && s.retries <= cfg.maxRetries
    requires sends <= Span(s.current - 1, cfg.maxRetries + 1) + s.retries
    ensures var t := OnEvent(cfg, data, blksize, s, e);
            ServerOk(data, blksize, t)
            && (t.stop.None? ==> t.retries <= cfg.maxRetries && sends + 1 <= Span(t.current - 1, cfg.maxRetries + 1) + t.retries)
  {
    OnEventOk(cfg, data, blksize, s, e);
  }

  /** Sends for `k` finished blocks and one more, over a file that holds `k` blocks. */
  lemma SendsTotal(sends: nat, k: nat, retries: nat, len: nat, blksize: nat, m: nat)
    requires blksize > 0 && Span(k, blksize) <= len && sends <= Span(k, m) + retries && retries < m
    ensures sends + 1 <= Span(Quot(len, blksize) + 1, m)
  {
    BlocksInFile(k, len, blksize);
    SpanMono(k + 1, Quot(len, blksize) + 1, m);
  }

  lemma BlocksInFile(k: nat, len: nat, blksize: nat)
    requires blksize > 0 && Span(k, blksize) <= len
    ensures k <= Quot(len, blksize)
  {
    QuotRem(len, blksize);
    SpanIsProduct(Quot(len, blksize), blksize);
    if k > Quot(len, blksize) {
      SpanMono(Quot(len, blksize) + 1, k, blksize);
    }
  }

  /** A transfer sends at most `(len / blksize + 1) * (maxRetries + 1)` DATA packets, whatever comes back. */
  lemma SendsBounded(cfg: Config, data: seq<byte>, blksize: nat, events: seq<Event>)
    requires blksize > 0 && After(cfg, data, blksize, events).stop.None?
    ensures |events| + 1 <= MostSends(cfg, |data|, blksize)
  {
    var k, retries := SendsSoFar(cfg, data, blksize, events);
    SendsTotal(|events|, k, retries, |data|, blksize, cfg.maxRetries + 1);
  }

  /** The i-th round ended with what the environment answers to the i-th DATA packet. */
  ghost predicate Answers(env: nat -> Event, events: seq<Event>) {
    forall i :: 0 <= i < |events| ==> events[i] == env(i)
  }

  lemma AnswersNext(env: nat -> Event, events: seq<Event>)
    requires Answers(env, events)
    ensures Answers(env, events + [env(|events|)])
  {
  }

  /** A transfer so far: the environment's answers, the DATA packets sent and their number. */
  ghost predicate SoFar(cfg: Config, data: seq<byte>, blksize: nat, env: nat -> Event, events: seq<Event>, attempts: seq<Attempt>)
    requires blksize > 0
  {
    && Answers(env, events)
    && AttemptsOk(cfg, data, blksize, events, attempts)
    && |attempts| <= MostSends(cfg, |data|, blksize)
  }

  /** One more round of the loop. */
  lemma RoundOk(cfg: Config, data: seq<byte>, blksize: nat, env: nat -> Event, events: seq<Event>, attempts: seq<Attempt>, s: Server)
    requires blksize > 0 && SoFar(cfg, data, blksize, env, events, attempts)
    requires s == After(cfg, data, blksize, events) && s.stop.None?
    ensures var a := Attempt(s.current, Chunk(data, blksize, s.current), s.timeout);
            SoFar(cfg, data, blksize, env, events + [env(|events|)], attempts + [a])
    ensures After(cfg, data, blksize, events + [env(|events|)]) == OnEvent(cfg, data, blksize, s, env(|events|))
    ensures s.retries <= cfg.maxRetries
  {
    var e, a := env(|events|), Attempt(s.current, Chunk(data, blksize, s.current), s.timeout);
    BackoffHolds(cfg, data, blksize, events);
    AnswersNext(env, events);
    SendsBounded(cfg, data, blksize, events);
    AfterNext(cfg, data, blksize, events, e);
    AttemptsNext(cfg, data, blksize, events, attempts, e, a);
  }

  /** Slice the data for block `k`. */
  method Block(data: seq<byte>, blksize: u16, k: u16) returns (chunk: seq<byte>)
    requires k >= 1 && Span(k - 1, blksize) <= |data|
    ensures chunk == Chunk(data, blksize, k)
  {
    SpanIsProduct(k - 1, blksize);
    var start := (k - 1) * blksize;
    chunk := data[start..Min(start + blksize, |data|)];
  }

  /**
   * `transfer_blocks`, against an environment that answers the i-th DATA packet with `env(i)`; it
   * returns what it sent and what it received.
   */
  method TransferBlocks(data: seq<byte>, blksize: u16, cfg: Config, env: nat -> Event)
    returns (stop: Stop, attempts: seq<Attempt>, events: seq<Event>)
    requires blksize > 0
    ensures SoFar(cfg, data, blksize, env, events, attempts)
    ensures After(cfg, data, blksize, events).stop == Some(stop)
  {
    var current: u16, retries: nat, timeout: nat := 1, 0, cfg.baseTimeout;
    attempts, events := [], [];
    while true
      invariant SoFar(cfg, data, blksize, env, events, attempts) && |events| == |attempts|
      invariant After(cfg, data, blksize, events) == Server(current, retries, timeout, if current == 0 then Some(Crashed) else None)
      decreases if current == 0 then 0 else 0x1_0000 - current, cfg.maxRetries + 1 - retries
    {
      if current == 0 {
        return Crashed, attempts, events;
      }
      RoundOk(cfg, data, blksize, env, events, attempts, Server(current, retries, timeout, None));
      var chunk := Block(data, blksize, current);
      var e := env(|attempts|);
      attempts, events := attempts + [Attempt(current, chunk, timeout)], events + [e];
      if |chunk| < blksize {
        if e == Ack(current) {
          return Finished, attempts, events;
        }
        retries := retries + 1;
        if retries > cfg.maxRetries {
          return GaveUp, attempts, events;
        }
        timeout := timeout * 2;
        continue;
      }
      if e == Ack(current) {
        current, retries, timeout := NextBlock(current), 0, cfg.baseTimeout;
      } else {
        retries := retries + 1;
        if retries > cfg.maxRetries {
          return if e.Timeout? then TimedOut else GaveUp, attempts, events;
        }
        timeout := timeout * 2;
      }
    }
  }

  // ----- the block number wraps -----

  /** A client that acknowledges every block at once. */
  function AckAll(n: nat): seq<Event>
    requires n <= LAST_BLOCK
  {
    if n == 0 then [] else AckAll(n - 1) + [Ack(n)]
  }

  lemma AckStep(cfg: Config, data: seq<byte>, blksize: nat, n: u16)
    requires blksize > 0 && n >= 1 && Span(n, blksize) <= |data|
    ensures var s := Server(n, 0, cfg.baseTimeout, None);
            && ServerOk(data, blksize, s)
            && OnEvent(cfg, data, blksize, s, Ack(n))
            == Server(NextBlock(n), 0, cfg.baseTimeout, if n == LAST_BLOCK then Some(Crashed) else None)
  {
  }

  lemma {:induction false} AckAllReaches(cfg: Config, data: seq<byte>, blksize: nat, n: nat)
    requires blksize > 0 && n <= LAST_BLOCK && Span(n, blksize) <= |data|
    ensures After(cfg, data, blksize, AckAll(n))
         == Server(NextBlock(n), 0, cfg.baseTimeout, if n == LAST_BLOCK then Some(Crashed) else None)
  {
    if n > 0 {
      AckAllReaches(cfg, data, blksize, n - 1);
      AckStep(cfg, data, blksize, n);
      AfterNext(cfg, data, blksize, AckAll(n - 1), Ack(n));
    }
  }

  /** The transfer can reach block number 0, where slicing the data fails, exactly from 65535 blocks' length on. */
  lemma CrashIff(cfg: Config, data: seq<byte>, blksize: nat)
    requires blksize > 0
    ensures (exists events :: After(cfg, data, blksize, events).stop == Some(Crashed)) <==> Span(LAST_BLOCK, blksize) <= |data|
  {
    if Span(LAST_BLOCK, blksize) <= |data| {
      AckAllReaches(cfg, data, blksize, LAST_BLOCK);
    }
  }
}
