/**
 * When a TFTP transfer ends and how (net/tftp/server.rs:222-323): every outcome from the shape of the
 * replies alone, and progress over the network.
 */
module TftpProgress {
  import opened Bytes
  import opened Wrappers
  import opened Tftp
  import opened TftpProtocol

  /** The blocks of a file: full ones and a short last one. */
  function BlockCount(len: nat, blksize: nat): (n: nat)
    requires blksize > 0
    ensures n >= 1
  {
    Quot(len, blksize) + 1
  }

  /** The events acknowledge blocks 1 to `n` in order, none after more than `maxRetries` other events, and end there. */
  ghost predicate Through(maxRetries: nat, n: nat, events: seq<Event>) {
    if n == 0 then events == []
    else exists m: nat :: LastLeg(maxRetries, n, events, m) && Through(maxRetries, n - 1, events[..m])
  }

  /** From `m` on: at most `maxRetries` events that are not the ACK of block `n`, then that ACK. */
  predicate LastLeg(maxRetries: nat, n: nat, events: seq<Event>, m: nat) {
    && m < |events| <= m + maxRetries + 1
    && Fruitless(n, events[..|events| - 1], m)
    && n <= 0xffff && events[|events| - 1] == Ack(n)
  }

  /** No event from `m` on is the ACK of block `n`. */
  predicate Fruitless(n: nat, events: seq<Event>, m: nat) {
    m <= |events| && forall i :: m <= i < |events| ==> !(events[i].Ack? && events[i].block == n)
  }

  /** The first `k` blocks are acknowledged by `m`, and nothing since then acknowledges the next. */
  ghost predicate At(maxRetries: nat, events: seq<Event>, k: nat, m: nat) {
    m <= |events| && Through(maxRetries, k, events[..m]) && Fruitless(k + 1, events, m)
  }

  lemma LastIff(len: nat, blksize: nat, k: nat)
    requires blksize > 0 && k >= 1
    ensures Last(len, blksize, k) <==> k >= BlockCount(len, blksize)
  {
    var q := Quot(len, blksize);
    QuotRem(len, blksize);
    SpanIsProduct(q, blksize);
    if k >= q + 1 {
      SpanMono(q + 1, k, blksize);
    } else {
      SpanMono(k, q, blksize);
    }
  }

  lemma CountFits(len: nat, blksize: nat)
    requires blksize > 0
    ensures len < Span(LAST_BLOCK, blksize) <==> BlockCount(len, blksize) <= 0xffff
  {
    LastIff(len, blksize, LAST_BLOCK);
    assert Span(LAST_BLOCK, blksize) == Span(LAST_BLOCK - 1, blksize) + blksize;
  }

  /** While fewer than all blocks are through and the retries last, the transfer is live, at the next block. */
  lemma {:induction false} LiveAt(cfg: Config, data: seq<byte>, blksize: nat, events: seq<Event>, k: nat, m: nat, total: nat)
    requires blksize > 0 && total == BlockCount(|data|, blksize) && total <= LAST_BLOCK
    requires At(cfg.maxRetries, events, k, m) && k < total && |events| - m <= cfg.maxRetries
    ensures var s := After(cfg, data, blksize, events);
            s.stop.None? && s.current == k + 1 && s.retries == |events| - m
    decreases |events|
  {
    if events != [] {
      var n := |events| - 1;
      var before, e := events[..n], events[n];
      assert events == before + [e];
      if m <= n {
        assert before[..m] == events[..m];
        LiveAt(cfg, data, blksize, before, k, m, total);
        RetryRound(cfg, data, blksize, before, e, total);
      } else {
        assert events[..m] == events;
        var m' := LegBefore(cfg.maxRetries, k, events);
        LiveAt(cfg, data, blksize, before, k - 1, m', total);
        AckRound(cfg, data, blksize, before, k, total);
      }
    }
  }

  /** Blocks through, the last with the last event: before it, one block fewer. */
  lemma LegBefore(maxRetries: nat, k: nat, events: seq<Event>) returns (m: nat)
    requires Through(maxRetries, k, events) && events != []
    ensures k >= 1 && m < |events| <= m + maxRetries + 1 && k <= LAST_BLOCK && events[|events| - 1] == Ack(k)
    ensures At(maxRetries, events[..|events| - 1], k - 1, m)
  {
    m :| LastLeg(maxRetries, k, events, m) && Through(maxRetries, k - 1, events[..m]);
    assert events[..|events| - 1][..m] == events[..m];
  }

  /** A round without the ACK uses up one retry, or ends the transfer. */
  lemma RetryRound(cfg: Config, data: seq<byte>, blksize: nat, before: seq<Event>, e: Event, total: nat)
    requires blksize > 0 && total == BlockCount(|data|, blksize) && After(cfg, data, blksize, before).stop.None?
    requires e != Ack(After(cfg, data, blksize, before).current)
    ensures var (s, t) := (After(cfg, data, blksize, before), After(cfg, data, blksize, before + [e]));
            && t.current == s.current && t.retries == s.retries + 1
            && t.stop == (if s.retries < cfg.maxRetries then None else Some(if e.Timeout? && s.current < total then TimedOut else GaveUp))
  {
    AfterNext(cfg, data, blksize, before, e);
    LastIff(|data|, blksize, After(cfg, data, blksize, before).current);
  }

  /** The ACK of the current block moves on to the next, or finishes. */
  lemma AckRound(cfg: Config, data: seq<byte>, blksize: nat, before: seq<Event>, k: u16, total: nat)
    requires blksize > 0 && total == BlockCount(|data|, blksize) && total <= LAST_BLOCK && k <= total
    requires After(cfg, data, blksize, before).stop.None? && After(cfg, data, blksize, before).current == k
    ensures var t := After(cfg, data, blksize, before + [Ack(k)]);
            if k < total then t.stop.None? && t.current == k + 1 && t.retries == 0 else t.stop == Some(Finished)
  {
    AfterNext(cfg, data, blksize, before, Ack(k));
    LastIff(|data|, blksize, k);
  }

  lemma {:induction false} StoppedStays(cfg: Config, data: seq<byte>, blksize: nat, events: seq<Event>, n: nat)
    requires blksize > 0 && n <= |events| && After(cfg, data, blksize, events[..n]).stop.Some?
    ensures After(cfg, data, blksize, events) == After(cfg, data, blksize, events[..n])
    decreases |events|
  {
    if n == |events| {
      assert events[..n] == events;
    } else {
      assert events[..|events| - 1][..n] == events[..n];
      StoppedStays(cfg, data, blksize, events[..|events| - 1], n);
    }
  }

  /** All blocks through: finished. */
  lemma ThroughFinishes(cfg: Config, data: seq<byte>, blksize: nat, events: seq<Event>, total: nat)
    requires blksize > 0 && total == BlockCount(|data|, blksize) && total <= LAST_BLOCK && Through(cfg.maxRetries, total, events)
    ensures After(cfg, data, blksize, events).stop == Some(Finished)
  {
    var m := LegBefore(cfg.maxRetries, total, events);
    LiveAt(cfg, data, blksize, events[..|events| - 1], total - 1, m, total);
    AckRound(cfg, data, blksize, events[..|events| - 1], total, total);
    assert events == events[..|events| - 1] + [Ack(total)];
  }

  /** Block `k + 1` went unacknowledged through the first send and every retry. */
  ghost predicate Exhausted(maxRetries: nat, events: seq<Event>, k: nat) {
    exists m: nat :: At(maxRetries, events, k, m) && |events| == m + maxRetries + 1
  }

  lemma ExhaustedStops(cfg: Config, data: seq<byte>, blksize: nat, events: seq<Event>, k: nat, total: nat)
    requires blksize > 0 && total == BlockCount(|data|, blksize) && total <= LAST_BLOCK && k < total
    requires Exhausted(cfg.maxRetries, events, k)
    ensures events != []
    ensures After(cfg, data, blksize, events).stop == Some(if events[|events| - 1].Timeout? && k + 1 < total then TimedOut else GaveUp)
  {
    var m: nat :| At(cfg.maxRetries, events, k, m) && |events| == m + cfg.maxRetries + 1;
    var before := events[..|events| - 1];
    assert before[..m] == events[..m];
    assert events == before + [events[|events| - 1]];
    LiveAt(cfg, data, blksize, before, k, m, total);
    RetryRound(cfg, data, blksize, before, events[|events| - 1], total);
  }

  /** What a history comes to. */
  datatype Outcome = Live(k: nat, m: nat) | Complete(n: nat) | Failed(n: nat, k: nat)

  ghost predicate ComesTo(maxRetries: nat, events: seq<Event>, total: nat, o: Outcome) {
    match o
    case Live(k, m) => k < total && At(maxRetries, events, k, m) && |events| <= m + maxRetries
    case Complete(n) => n <= |events| && Through(maxRetries, total, events[..n])
    case Failed(n, k) => n <= |events| && k < total && Exhausted(maxRetries, events[..n], k)
  }

  /** Every history is live, through all blocks, or out of retries. */
  lemma {:induction false} Outcomes(maxRetries: nat, events: seq<Event>, total: nat) returns (o: Outcome)
    requires 1 <= total <= LAST_BLOCK
    ensures ComesTo(maxRetries, events, total, o)
  {
    if events == [] {
      assert events[..0] == events;
      o := Live(0, 0);
    } else {
      var n := |events| - 1;
      o := Outcomes(maxRetries, events[..n], total);
      match o {
        case Live(k, m) =>
          o := OneMore(maxRetries, events, total, k, m);
        case Complete(j) =>
          assert events[..n][..j] == events[..j];
        case Failed(j, k) =>
          assert events[..n][..j] == events[..j];
      }
    }
  }

  lemma OneMore(maxRetries: nat, events: seq<Event>, total: nat, k: nat, m: nat) returns (o: Outcome)
    requires events != [] && k < total <= LAST_BLOCK
    requires At(maxRetries, events[..|events| - 1], k, m) && |events| - 1 <= m + maxRetries
    ensures ComesTo(maxRetries, events, total, o)
  {
    var n := |events| - 1;
    assert events[..n][..m] == events[..m] && events[..|events|] == events;
    if events[n] == Ack(k + 1) {
      assert LastLeg(maxRetries, k + 1, events, m);
      assert Through(maxRetries, k + 1, events);
      o := if k + 1 == total then Complete(|events|) else Live(k + 1, |events|);
    } else {
      assert At(maxRetries, events, k, m);
      o := if |events| <= m + maxRetries then Live(k, m) else Failed(|events|, k);
    }
  }

  /** With 65535 full blocks or more no history ends a transfer by the final ACK. */
  lemma {:induction false} LongNeverFinishes(cfg: Config, data: seq<byte>, blksize: nat, events: seq<Event>)
    requires blksize > 0 && |data| >= Span(LAST_BLOCK, blksize)
    ensures After(cfg, data, blksize, events).stop != Some(Finished)
  {
    if events != [] {
      LongNeverFinishes(cfg, data, blksize, events[..|events| - 1]);
      var s := After(cfg, data, blksize, events[..|events| - 1]);
      if s.stop.None? {
        SpanMono(s.current, LAST_BLOCK, blksize);
      }
    }
  }

  /**
   * A transfer is finished exactly if some prefix of what came back acknowledges every block of the file
   * in order, each before the retries ran out.
   */
  lemma FinishedIff(cfg: Config, data: seq<byte>, blksize: nat, events: seq<Event>)
    requires blksize > 0
    ensures After(cfg, data, blksize, events).stop == Some(Finished)
       <==> |data| < Span(LAST_BLOCK, blksize)
            && exists n :: 0 <= n <= |events| && Through(cfg.maxRetries, BlockCount(|data|, blksize), events[..n])
  {
    var total := BlockCount(|data|, blksize);
    CountFits(|data|, blksize);
    if |data| >= Span(LAST_BLOCK, blksize) {
      LongNeverFinishes(cfg, data, blksize, events);
    } else {
      if n: nat :| n <= |events| && Through(cfg.maxRetries, total, events[..n]) {
        ThroughFinishes(cfg, data, blksize, events[..n], total);
        StoppedStays(cfg, data, blksize, events, n);
      }
      OutcomeStops(cfg, data, blksize, events, total);
    }
  }

  /** Only all blocks through make a transfer finished, and only exhausted retries make it fail. */
  lemma OutcomeStops(cfg: Config, data: seq<byte>, blksize: nat, events: seq<Event>, total: nat)
    requires blksize > 0 && total == BlockCount(|data|, blksize) && total <= LAST_BLOCK
    ensures After(cfg, data, blksize, events).stop == Some(Finished)
        ==> exists n :: 0 <= n <= |events| && Through(cfg.maxRetries, total, events[..n])
    ensures After(cfg, data, blksize, events).stop == Some(GaveUp) || After(cfg, data, blksize, events).stop == Some(TimedOut)
        ==> exists n, k: nat :: 0 <= n <= |events| && k < total && Exhausted(cfg.maxRetries, events[..n], k)
    ensures After(cfg, data, blksize, events).stop == None
        ==> exists k: nat, m: nat :: k < total && At(cfg.maxRetries, events, k, m) && |events| <= m + cfg.maxRetries
    ensures After(cfg, data, blksize, events).stop != Some(Crashed)
  {
    var o := Outcomes(cfg.maxRetries, events, total);
    match o {
      case Live(k, m) =>
        LiveAt(cfg, data, blksize, events, k, m, total);
      case Complete(n) =>
        ThroughFinishes(cfg, data, blksize, events[..n], total);
        StoppedStays(cfg, data, blksize, events, n);
      case Failed(n, k) =>
        ExhaustedStops(cfg, data, blksize, events[..n], k, total);
        StoppedStays(cfg, data, blksize, events, n);
    }
  }

  /** After `n` events block `k + 1` has gone unacknowledged too often, which is reported as `stop`. */
  ghost predicate FailsAt(maxRetries: nat, events: seq<Event>, total: nat, n: nat, k: nat, stop: Stop) {
    && 0 < n <= |events| && k < total && Exhausted(maxRetries, events[..n], k)
    && stop == if events[n - 1].Timeout? && k + 1 < total then TimedOut else GaveUp
  }

  lemma FailsAtStops(cfg: Config, data: seq<byte>, blksize: nat, events: seq<Event>, total: nat, n: nat, k: nat, stop: Stop)
    requires blksize > 0 && total == BlockCount(|data|, blksize) && total <= LAST_BLOCK
    requires FailsAt(cfg.maxRetries, events, total, n, k, stop)
    ensures After(cfg, data, blksize, events).stop == Some(stop)
  {
    ExhaustedStops(cfg, data, blksize, events[..n], k, total);
    StoppedStays(cfg, data, blksize, events, n);
    assert events[..n][n - 1] == events[n - 1];
  }

  /**
   * A transfer fails exactly if some block goes unacknowledged through its first send and every retry;
   * it is reported as timed out exactly if the last wait was and the block was not the last.
   */
  lemma FailsIff(cfg: Config, data: seq<byte>, blksize: nat, events: seq<Event>, stop: Stop)
    requires blksize > 0 && |data| < Span(LAST_BLOCK, blksize) && (stop == GaveUp || stop == TimedOut)
    ensures After(cfg, data, blksize, events).stop == Some(stop)
       <==> exists n: nat, k: nat :: FailsAt(cfg.maxRetries, events, BlockCount(|data|, blksize), n, k, stop)
  {
    var total := BlockCount(|data|, blksize);
    CountFits(|data|, blksize);
    if n: nat, k: nat :| FailsAt(cfg.maxRetries, events, total, n, k, stop) {
      FailsAtStops(cfg, data, blksize, events, total, n, k, stop);
    }
    if After(cfg, data, blksize, events).stop == Some(stop) {
      OutcomeStops(cfg, data, blksize, events, total);
      var n, k: nat :| 0 <= n <= |events| && k < total && Exhausted(cfg.maxRetries, events[..n], k);
      var reported := if events[..n][n - 1].Timeout? && k + 1 < total then TimedOut else GaveUp;
      FailsAtStops(cfg, data, blksize, events, total, n, k, reported);
      assert FailsAt(cfg.maxRetries, events, total, n, k, stop);
    }
  }

  // ----- a client that acknowledges every block at once -----

  ghost predicate AcksAtOnce(env: nat -> Event) {
    forall i: nat :: i < 0xffff ==> env(i) == Ack(i + 1)
  }

  lemma {:induction false} AtOnceThrough(maxRetries: nat, events: seq<Event>)
    requires |events| <= 0xffff && forall i :: 0 <= i < |events| ==> events[i] == Ack(i + 1)
    ensures Through(maxRetries, |events|, events)
    decreases |events|
  {
    if events != [] {
      var m := |events| - 1;
      AtOnceThrough(maxRetries, events[..m]);
      assert LastLeg(maxRetries, |events|, events, m);
    }
  }

  /** The DATA packet is block `i + 1` of the file. */
  predicate IsBlock(data: seq<byte>, blksize: nat, a: Attempt, i: nat) {
    Span(i, blksize) <= |data| && a.block == i + 1 && a.chunk == Chunk(data, blksize, i + 1)
  }

  /** The DATA packets are blocks 1, 2, .. of the file, each once, in order. */
  predicate EachOnce(data: seq<byte>, blksize: nat, attempts: seq<Attempt>) {
    forall i :: 0 <= i < |attempts| ==> IsBlock(data, blksize, attempts[i], i)
  }

  function Joined(attempts: seq<Attempt>): seq<byte> {
    if attempts == [] then [] else Joined(attempts[..|attempts| - 1]) + attempts[|attempts| - 1].chunk
  }

  lemma Extend(data: seq<byte>, at: nat, more: nat)
    requires at <= |data|
    ensures data[..at] + data[at..Min(at + more, |data|)] == data[..Min(at + more, |data|)]
  {
  }

  lemma {:induction false} JoinedIs(data: seq<byte>, blksize: nat, attempts: seq<Attempt>)
    requires blksize > 0 && EachOnce(data, blksize, attempts)
    ensures Joined(attempts) == data[..Min(Span(|attempts|, blksize), |data|)]
    decreases |attempts|
  {
    if attempts != [] {
      var n := |attempts| - 1;
      JoinedIs(data, blksize, attempts[..n]);
      assert IsBlock(data, blksize, attempts[n], n);
      Extend(data, Span(n, blksize), blksize);
    }
  }

  lemma {:induction false} AttemptsBlocks(cfg: Config, data: seq<byte>, blksize: nat, events: seq<Event>, attempts: seq<Attempt>, total: nat)
    requires blksize > 0 && AttemptsOk(cfg, data, blksize, events, attempts)
    requires total == BlockCount(|data|, blksize) && |events| <= total <= LAST_BLOCK
    requires forall i :: 0 <= i < |events| ==> events[i] == Ack(i + 1)
    ensures EachOnce(data, blksize, attempts)
    decreases |events|
  {
    if events != [] {
      var n := |events| - 1;
      AttemptsBlocks(cfg, data, blksize, events[..n], attempts[..n], total);
      AtOnceThrough(cfg.maxRetries, events[..n]);
      assert events[..n][..n] == events[..n];
      LiveAt(cfg, data, blksize, events[..n], n, n, total);
      forall i | 0 <= i < n
        ensures IsBlock(data, blksize, attempts[i], i)
      {
        assert attempts[..n][i] == attempts[i];
      }
    }
  }

  lemma {:induction false} LivePrefix(cfg: Config, data: seq<byte>, blksize: nat, events: seq<Event>, attempts: seq<Attempt>, n: nat)
    requires blksize > 0 && AttemptsOk(cfg, data, blksize, events, attempts) && n < |events|
    ensures After(cfg, data, blksize, events[..n]).stop.None?
    decreases |events|
  {
    var last := |events| - 1;
    if n < last {
      LivePrefix(cfg, data, blksize, events[..last], attempts[..last], n);
      assert events[..last][..n] == events[..n];
    }
  }

  /**
   * With such a client a transfer of fewer than 65535 blocks' length finishes, after sending each of its
   * `len / blksize + 1` blocks exactly once: what was sent is the file.
   */
  lemma AtOnceFinishes(cfg: Config, data: seq<byte>, blksize: nat, env: nat -> Event, events: seq<Event>, attempts: seq<Attempt>, stop: Stop)
    requires blksize > 0 && |data| < Span(LAST_BLOCK, blksize) && AcksAtOnce(env)
    requires SoFar(cfg, data, blksize, env, events, attempts) && After(cfg, data, blksize, events).stop == Some(stop)
    ensures stop == Finished && |attempts| == BlockCount(|data|, blksize)
    ensures EachOnce(data, blksize, attempts) && Joined(attempts) == data
  {
    var total := BlockCount(|data|, blksize);
    CountFits(|data|, blksize);
    if |events| > total {
      AtOnceThrough(cfg.maxRetries, events[..total]);
      ThroughFinishes(cfg, data, blksize, events[..total], total);
      LivePrefix(cfg, data, blksize, events, attempts, total);
      assert false;
    }
    AtOnceThrough(cfg.maxRetries, events);
    if |events| < total {
      assert events[..|events|] == events;
      LiveAt(cfg, data, blksize, events, |events|, |events|, total);
      assert false;
    }
    ThroughFinishes(cfg, data, blksize, events, total);
    AttemptsBlocks(cfg, data, blksize, events, attempts, total);
    JoinedIs(data, blksize, attempts);
    LastIff(|data|, blksize, total);
    assert data[..|data|] == data;
  }

  // ----- progress over the network -----

  function Current(data: seq<byte>, blksize: nat, s: Server): Packet
    requires ServerOk(data, blksize, s) && s.stop.None?
  {
    Packet(s.current, Chunk(data, blksize, s.current))
  }

  /** A live server's current DATA is on the wire. */
  predicate OnWire(data: seq<byte>, blksize: nat, n: Net) {
    NetOk(data, blksize, n) && (n.server.stop.None? ==> Current(data, blksize, n.server) in n.toClient)
  }

  lemma StepOnWire(cfg: Config, data: seq<byte>, blksize: nat, n: Net, a: Action)
    requires OnWire(data, blksize, n) && Enabled(n, a) && |data| < Span(LAST_BLOCK, blksize)
    ensures OnWire(data, blksize, Step(cfg, data, blksize, n, a))
  {
    StepKeeps(cfg, data, blksize, n, a);
  }

  lemma {:induction false} RunOnWire(cfg: Config, data: seq<byte>, blksize: nat, n: Net, actions: seq<Action>)
    requires OnWire(data, blksize, n) && Schedule(cfg, data, blksize, n, actions) && |data| < Span(LAST_BLOCK, blksize)
    ensures OnWire(data, blksize, TftpProtocol.Run(cfg, data, blksize, n, actions))
    decreases |actions|
  {
    if actions != [] {
      StepOnWire(cfg, data, blksize, n, actions[0]);
      RunOnWire(cfg, data, blksize, Step(cfg, data, blksize, n, actions[0]), actions[1..]);
    }
  }

  /** The client answers the current DATA with its ACK, whether it is new to it or not. */
  lemma CurrentAnswered(cfg: Config, data: seq<byte>, blksize: nat, n: Net)
    requires OnWire(data, blksize, n) && n.server.stop.None? && |data| < Span(LAST_BLOCK, blksize)
    ensures var a := Deliver(Current(data, blksize, n.server));
            && Enabled(n, a)
            && var t := Step(cfg, data, blksize, n, a);
               OnWire(data, blksize, t) && t.server == n.server && n.server.current in t.toServer
  {
    StepOnWire(cfg, data, blksize, n, Deliver(Current(data, blksize, n.server)));
  }

  /** That ACK moves the server on to the next block with fresh retries, and past the last block to the end. */
  lemma AckMoves(cfg: Config, data: seq<byte>, blksize: nat, n: Net)
    requires OnWire(data, blksize, n) && n.server.stop.None? && n.server.current in n.toServer && |data| < Span(LAST_BLOCK, blksize)
    ensures var a := Wait(Ack(n.server.current));
            && Enabled(n, a)
            && var t := Step(cfg, data, blksize, n, a);
               && OnWire(data, blksize, t)
               && if n.server.current < BlockCount(|data|, blksize)
                  then t.server.current == n.server.current + 1 && t.server.retries == 0 && t.server.stop.None?
                  else t.server.stop == Some(Finished)
  {
    StepOnWire(cfg, data, blksize, n, Wait(Ack(n.server.current)));
    LastIff(|data|, blksize, n.server.current);
    CountFits(|data|, blksize);
  }

  lemma ScheduleTwo(cfg: Config, data: seq<byte>, blksize: nat, n: Net, a: Action, b: Action, rest: seq<Action>, end: Net)
    requires ServerOk(data, blksize, n.server) && Enabled(n, a)
    requires ServerOk(data, blksize, Step(cfg, data, blksize, n, a).server) && Enabled(Step(cfg, data, blksize, n, a), b)
    requires var t := Step(cfg, data, blksize, Step(cfg, data, blksize, n, a), b);
             ServerOk(data, blksize, t.server) && Schedule(cfg, data, blksize, t, rest) && TftpProtocol.Run(cfg, data, blksize, t, rest) == end
    ensures Schedule(cfg, data, blksize, n, [a, b] + rest) && TftpProtocol.Run(cfg, data, blksize, n, [a, b] + rest) == end
  {
    var all := [a, b] + rest;
    assert all[0] == a && all[1..] == [b] + rest && ([b] + rest)[1..] == rest && all[1..][0] == b;
    var mid := Step(cfg, data, blksize, n, a);
    assert Schedule(cfg, data, blksize, mid, [b] + rest) && TftpProtocol.Run(cfg, data, blksize, mid, [b] + rest) == end;
  }

  /** From any live state two deliveries for each block still open finish the transfer. */
  lemma {:induction false} CanFinish(cfg: Config, data: seq<byte>, blksize: nat, n: Net) returns (actions: seq<Action>)
    requires OnWire(data, blksize, n) && n.server.stop.None? && |data| < Span(LAST_BLOCK, blksize)
    ensures n.server.current <= BlockCount(|data|, blksize)
    ensures |actions| == 2 * (BlockCount(|data|, blksize) + 1 - n.server.current)
    ensures Schedule(cfg, data, blksize, n, actions)
    ensures var t := TftpProtocol.Run(cfg, data, blksize, n, actions);
            OnWire(data, blksize, t) && t.server.stop == Some(Finished)
    decreases BlockCount(|data|, blksize) - n.server.current
  {
    BlocksInFile(n.server.current - 1, |data|, blksize);
    var a, b := Deliver(Current(data, blksize, n.server)), Wait(Ack(n.server.current));
    CurrentAnswered(cfg, data, blksize, n);
    var mid := Step(cfg, data, blksize, n, a);
    AckMoves(cfg, data, blksize, mid);
    var next := Step(cfg, data, blksize, mid, b);
    var rest: seq<Action> := [];
    if n.server.current < BlockCount(|data|, blksize) {
      rest := CanFinish(cfg, data, blksize, next);
    }
    ScheduleTwo(cfg, data, blksize, n, a, b, rest, TftpProtocol.Run(cfg, data, blksize, next, rest));
    actions := [a, b] + rest;
  }

  /**
   * Whatever the network has done, as long as the server has not given up, delivering its current DATA and
   * the ACK of it block by block finishes the transfer, with the whole file at the client.
   */
  lemma NeverStuck(cfg: Config, data: seq<byte>, blksize: nat, past: seq<Action>) returns (actions: seq<Action>)
    requires blksize > 0 && |data| < Span(LAST_BLOCK, blksize)
    requires Schedule(cfg, data, blksize, StartNet(cfg, data, blksize), past)
    requires TftpProtocol.Run(cfg, data, blksize, StartNet(cfg, data, blksize), past).server.stop.None?
    ensures var n := TftpProtocol.Run(cfg, data, blksize, StartNet(cfg, data, blksize), past);
            && ServerOk(data, blksize, n.server) && Schedule(cfg, data, blksize, n, actions)
            && n.server.current <= BlockCount(|data|, blksize)
            && |actions| == 2 * (BlockCount(|data|, blksize) + 1 - n.server.current)
            && var t := TftpProtocol.Run(cfg, data, blksize, n, actions);
               t.server.stop == Some(Finished) && t.client.done && t.client.bytes == data
  {
    StartOk(cfg, data, blksize);
    RunOnWire(cfg, data, blksize, StartNet(cfg, data, blksize), past);
    actions := CanFinish(cfg, data, blksize, TftpProtocol.Run(cfg, data, blksize, StartNet(cfg, data, blksize), past));
  }
}
