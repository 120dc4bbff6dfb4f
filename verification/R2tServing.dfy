/**
 * An initiator that answers the R2Ts it gets, in the order in which it gets them (iscsi/session/mod.rs:325-399;
 * RFC 7143 section 11.8). The session sends a new R2T after every Data-Out, so such an initiator may send
 * bytes twice, and then the count is complete before the data is. When that happens is exact.
 */
module R2tServing {
  import opened Bytes
  import opened Wrappers
  import opened Pdu
  import opened Scsi
  import opened Session
  import opened SessionRuns
  import opened Executions
  import opened WriteAssembly
  import opened WriteCoverage

  /** The R2Ts still to be served, the first perhaps in part; every range sent; and the bytes sent in all. */
  datatype Client = Client(asks: seq<Range>, ranges: seq<Range>, count: nat)

  /** What an R2T asks for when `count` of `n` bytes have been counted. */
  function AskFor(n: nat, burst: nat, count: nat): Range
    requires count <= n
  {
    Range(count, count + Min(n - count, burst))
  }

  /** After a command with `imm` bytes of immediate data, which the session answers by the first R2T. */
  function Opening(n: nat, burst: nat, imm: nat): (c: Client)
    requires imm <= n
    ensures imm < n && burst >= 1 ==> Busy(n, c)
  {
    Client([AskFor(n, burst, imm)], [Range(0, imm)], imm)
  }

  predicate Asked(asks: seq<Range>, n: nat) {
    forall i :: 0 <= i < |asks| ==> asks[i].lo < asks[i].hi <= n
  }

  predicate Busy(n: nat, c: Client) {
    c.count < n && c.asks != [] && Asked(c.asks, n)
  }

  /** The next Data-Out: from the first R2T, at most `seg` bytes. */
  function NextOut(seg: nat, c: Client): Range
    requires c.asks != []
  {
    Range(c.asks[0].lo, Min(c.asks[0].lo + seg, c.asks[0].hi))
  }

  /** The R2Ts left once `out` has been sent. */
  function Left(asks: seq<Range>, out: Range): seq<Range>
    requires asks != []
  {
    if out.hi == asks[0].hi then asks[1..] else [Range(out.hi, asks[0].hi)] + asks[1..]
  }

  /** One Data-Out, and the R2T it is answered by if the count is not complete. */
  function Serve(n: nat, burst: nat, seg: nat, c: Client): (d: Client)
    requires Busy(n, c) && burst >= 1 && seg >= 1
    ensures c.count < d.count <= c.count + seg && (d.count < n ==> Busy(n, d))
  {
    var out := NextOut(seg, c);
    var count := c.count + (out.hi - out.lo);
    Client(Left(c.asks, out) + (if count < n then [AskFor(n, burst, count)] else []), c.ranges + [out], count)
  }

  /** The client when the count is complete. */
  function Finish(n: nat, burst: nat, seg: nat, c: Client): (d: Client)
    requires (c.count < n ==> Busy(n, c)) && burst >= 1 && seg >= 1
    ensures d.count >= n
    decreases n - c.count
  {
    if c.count >= n then c else Finish(n, burst, seg, Serve(n, burst, seg, c))
  }

  // ----- when everything has been sent -----

  /** The first `m` bytes have been sent. */
  predicate UpTo(ranges: seq<Range>, m: nat) {
    forall k :: 0 <= k < m ==> Sent(ranges, k)
  }

  lemma SentMore(ranges: seq<Range>, out: Range, k: nat)
    ensures Sent(ranges + [out], k) <==> out.lo <= k < out.hi || Sent(ranges, k)
  {
    assert (ranges + [out])[..|ranges|] == ranges;
  }

  lemma UpToMore(ranges: seq<Range>, out: Range, m: nat)
    requires UpTo(ranges, m) && out.lo <= m
    ensures UpTo(ranges + [out], Max(m, out.hi))
  {
    forall k | 0 <= k < Max(m, out.hi)
      ensures Sent(ranges + [out], k)
    {
      SentMore(ranges, out, k);
    }
  }

  /** An R2T that asks for everything left is served to its end before any other. */
  lemma {:induction false} OneBurst(n: nat, burst: nat, seg: nat, c: Client)
    requires Busy(n, c) && burst >= 1 && seg >= 1 && c.asks[0] == Range(c.count, n) && UpTo(c.ranges, c.count)
    ensures UpTo(Finish(n, burst, seg, c).ranges, n)
    decreases n - c.count
  {
    UpToMore(c.ranges, NextOut(seg, c), c.count);
    var d := Serve(n, burst, seg, c);
    if d.count < n {
      OneBurst(n, burst, seg, d);
    }
  }

  /** R2Ts of at most one Data-Out each are served in step. */
  lemma {:induction false} LockStep(n: nat, burst: nat, seg: nat, c: Client)
    requires Busy(n, c) && 1 <= burst <= seg && c.asks == [AskFor(n, burst, c.count)] && UpTo(c.ranges, c.count)
    ensures UpTo(Finish(n, burst, seg, c).ranges, n)
    decreases n - c.count
  {
    UpToMore(c.ranges, NextOut(seg, c), c.count);
    var d := Serve(n, burst, seg, c);
    if d.count < n {
      LockStep(n, burst, seg, d);
    }
  }

  /** One Data-Out for the first of two known R2Ts. */
  lemma ServeTo(n: nat, burst: nat, seg: nat, c: Client, out: Range, left: seq<Range>)
    requires Busy(n, c) && burst >= 1 && seg >= 1 && out == NextOut(seg, c) && left == Left(c.asks, out)
    ensures var count := c.count + out.hi - out.lo;
            Serve(n, burst, seg, c) == Client(left + (if count < n then [AskFor(n, burst, count)] else []), c.ranges + [out], count)
  {
  }

  /** R2Ts of less than two Data-Outs, and no more than two Data-Outs' worth of data: the second R2T asks for the rest. */
  lemma TwoAndARest(n: nat, burst: nat, seg: nat, imm: nat)
    requires seg < burst < 2 * seg && burst < n - imm <= 2 * seg
    ensures UpTo(Finish(n, burst, seg, Opening(n, burst, imm)).ranges, n)
  {
    var c := Opening(n, burst, imm);
    var r1, r2, r3 := Range(imm, imm + seg), Range(imm + seg, imm + burst), Range(imm + seg, n);
    OneRangeUpTo(imm);
    ServeTo(n, burst, seg, c, r1, [r2]);
    var c1 := Serve(n, burst, seg, c);
    assert c1 == Client([r2, r3], [Range(0, imm)] + [r1], imm + seg);
    UpToMore(c.ranges, r1, imm);
    ServeTo(n, burst, seg, c1, r2, [r3]);
    var c2 := Serve(n, burst, seg, c1);
    UpToMore(c1.ranges, r2, imm + seg);
    ServeTo(n, burst, seg, c2, r3, c2.asks[1..]);
    UpToMore(c2.ranges, r3, imm + burst);
    var c3 := Serve(n, burst, seg, c2);
    assert Finish(n, burst, seg, c) == Finish(n, burst, seg, c1) == Finish(n, burst, seg, c2) == c3;
  }

  lemma OneRangeUpTo(imm: nat)
    ensures UpTo([Range(0, imm)], imm)
  {
  }

  // ----- when something has not -----

  /** A range takes no more from what is missing than its part that was not sent before. */
  lemma {:induction false} MissingMore(ranges: seq<Range>, lo: nat, mid: nat, hi: nat, m: nat)
    requires lo <= mid <= hi && forall k :: lo <= k < mid ==> Sent(ranges, k)
    ensures Missing(ranges + [Range(lo, hi)], m) >= Missing(ranges, m) - Max(0, Min(m, hi) - mid)
  {
    if m > 0 {
      MissingMore(ranges, lo, mid, hi, m - 1);
      SentMore(ranges, Range(lo, hi), m - 1);
    }
  }

  lemma {:induction false} UpToMissesNone(ranges: seq<Range>, m: nat)
    requires UpTo(ranges, m)
    ensures Missing(ranges, m) == 0
  {
    if m > 0 {
      UpToMissesNone(ranges, m - 1);
    }
  }

  lemma {:induction false} OpeningMisses(imm: nat, m: nat)
    ensures Missing([Range(0, imm)], m) >= m - imm
  {
    MissingNone(m);
    MissingMore([], 0, 0, imm, m);
    assert [] + [Range(0, imm)] == [Range(0, imm)];
  }

  /** More is missing than the count admits, by at least one Data-Out, or the count is complete too early. */
  predicate Behind(n: nat, seg: nat, c: Client) {
    if c.count < n then Missing(c.ranges, n) >= n - c.count + seg else Missing(c.ranges, n) > 0
  }

  /** From there on the count is complete before the data. */
  lemma {:induction false} BehindStays(n: nat, burst: nat, seg: nat, c: Client)
    requires (c.count < n ==> Busy(n, c)) && burst >= 1 && seg >= 1 && Behind(n, seg, c)
    ensures Missing(Finish(n, burst, seg, c).ranges, n) > 0
    decreases n - c.count
  {
    if c.count < n {
      var out := NextOut(seg, c);
      MissingMore(c.ranges, out.lo, out.lo, out.hi, n);
      BehindStays(n, burst, seg, Serve(n, burst, seg, c));
    }
  }

  /** A Data-Out of bytes that were all sent before puts the data behind the count for good. */
  lemma RepeatMisses(n: nat, burst: nat, seg: nat, c: Client)
    requires Busy(n, c) && burst >= 1 && seg >= 1 && c.asks[0].lo + seg <= c.asks[0].hi
    requires UpTo(c.ranges, c.asks[0].lo + seg) && Missing(c.ranges, n) >= n - c.count
    ensures Missing(Finish(n, burst, seg, c).ranges, n) > 0
  {
    var out := NextOut(seg, c);
    MissingMore(c.ranges, out.lo, out.hi, out.hi, n);
    ServeTo(n, burst, seg, c, out, Left(c.asks, out));
    BehindStays(n, burst, seg, Serve(n, burst, seg, c));
  }

  /** In the middle of the first R2T, with the second known. */
  predicate InFirst(n: nat, imm: nat, burst: nat, c: Client, second: Range) {
    && Busy(n, c) && imm + burst < n && c.count < imm + burst && |c.asks| >= 2
    && c.asks[0] == Range(c.count, imm + burst) && c.asks[1] == second
    && UpTo(c.ranges, c.count) && Missing(c.ranges, n) >= n - c.count
  }

  /** The first R2T has been served, and the second is next. */
  predicate FirstDone(n: nat, imm: nat, burst: nat, c: Client, second: Range) {
    && Busy(n, c) && c.count == imm + burst && c.asks[0] == second
    && UpTo(c.ranges, c.count) && Missing(c.ranges, n) >= n - c.count
  }

  lemma FirstGoesOn(n: nat, imm: nat, burst: nat, seg: nat, c: Client, second: Range)
    requires burst >= 1 && seg >= 1 && InFirst(n, imm, burst, c, second) && c.count + seg < imm + burst
    ensures InFirst(n, imm, burst, Serve(n, burst, seg, c), second)
  {
    var out := Range(c.count, c.count + seg);
    UpToMore(c.ranges, out, c.count);
    MissingMore(c.ranges, out.lo, out.lo, out.hi, n);
    ServeTo(n, burst, seg, c, out, Left(c.asks, out));
    LeftKeepsNext(c.asks, out, [AskFor(n, burst, out.hi)]);
  }

  lemma FirstEnds(n: nat, imm: nat, burst: nat, seg: nat, c: Client, second: Range)
    requires burst >= 1 && seg >= 1 && InFirst(n, imm, burst, c, second) && c.count + seg >= imm + burst
    ensures FirstDone(n, imm, burst, Serve(n, burst, seg, c), second)
  {
    var out := Range(c.count, imm + burst);
    UpToMore(c.ranges, out, c.count);
    MissingMore(c.ranges, out.lo, out.lo, out.hi, n);
    ServeTo(n, burst, seg, c, out, Left(c.asks, out));
    LeftKeepsNext(c.asks, out, [AskFor(n, burst, out.hi)]);
  }

  /** What is left begins with the rest of the first R2T, or else with the second. */
  lemma LeftKeepsNext(asks: seq<Range>, out: Range, more: seq<Range>)
    requires |asks| >= 2
    ensures if out.hi == asks[0].hi then (Left(asks, out) + more)[0] == asks[1]
            else (Left(asks, out) + more)[0] == Range(out.hi, asks[0].hi) && (Left(asks, out) + more)[1] == asks[1]
  {
  }

  /** The first R2T comes to its end. */
  lemma {:induction false} FirstServed(n: nat, imm: nat, burst: nat, seg: nat, c: Client, second: Range) returns (d: Client)
    requires burst >= 1 && seg >= 1 && InFirst(n, imm, burst, c, second)
    ensures FirstDone(n, imm, burst, d, second) && Finish(n, burst, seg, d) == Finish(n, burst, seg, c)
    decreases imm + burst - c.count
  {
    d := Serve(n, burst, seg, c);
    if c.count + seg < imm + burst {
      FirstGoesOn(n, imm, burst, seg, c, second);
      d := FirstServed(n, imm, burst, seg, d, second);
    } else {
      FirstEnds(n, imm, burst, seg, c, second);
    }
  }

  lemma OpeningStep(n: nat, burst: nat, seg: nat, imm: nat) returns (c1: Client)
    requires 1 <= seg < burst < n - imm
    ensures c1 == Serve(n, burst, seg, Opening(n, burst, imm))
    ensures c1.count == imm + seg && c1.asks == [Range(imm + seg, imm + burst), AskFor(n, burst, imm + seg)]
    ensures InFirst(n, imm, burst, c1, AskFor(n, burst, imm + seg))
    ensures Finish(n, burst, seg, Opening(n, burst, imm)) == Finish(n, burst, seg, c1)
  {
    var c, r1 := Opening(n, burst, imm), Range(imm, imm + seg);
    ServeTo(n, burst, seg, c, r1, [Range(imm + seg, imm + burst)]);
    c1 := Serve(n, burst, seg, c);
    OneRangeUpTo(imm);
    OpeningMisses(imm, n);
    UpToMore(c.ranges, r1, imm);
    MissingMore(c.ranges, imm, imm, imm + seg, n);
  }

  /** R2Ts of two Data-Outs or more: the second R2T's first Data-Out repeats bytes of the first R2T. */
  lemma LongBurstsMiss(n: nat, burst: nat, seg: nat, imm: nat)
    requires seg >= 1 && 2 * seg <= burst < n - imm
    ensures Missing(Finish(n, burst, seg, Opening(n, burst, imm)).ranges, n) > 0
  {
    var c1 := OpeningStep(n, burst, seg, imm);
    var c := FirstServed(n, imm, burst, seg, c1, AskFor(n, burst, imm + seg));
    RepeatMisses(n, burst, seg, c);
  }

  /** R2Ts of between one and two Data-Outs: half a Data-Out is repeated at once, and a whole one soon after. */
  lemma ShortBurstsMiss(n: nat, burst: nat, seg: nat, imm: nat)
    requires seg >= 1 && seg < burst < 2 * seg < n - imm
    ensures Missing(Finish(n, burst, seg, Opening(n, burst, imm)).ranges, n) > 0
  {
    var c1 := OpeningStep(n, burst, seg, imm);
    var r2 := c1.asks[0];
    UpToMore(c1.ranges, r2, imm + seg);
    MissingMore(c1.ranges, r2.lo, r2.lo, r2.hi, n);
    ServeTo(n, burst, seg, c1, r2, c1.asks[1..]);
    SecondRepeats(n, burst, seg, imm, Serve(n, burst, seg, c1));
  }

  lemma SecondRepeats(n: nat, burst: nat, seg: nat, imm: nat, c: Client)
    requires seg >= 1 && seg < burst < 2 * seg < n - imm && Busy(n, c) && c.count == imm + burst
    requires c.asks == [AskFor(n, burst, imm + seg), AskFor(n, burst, imm + burst)]
    requires UpTo(c.ranges, imm + burst) && Missing(c.ranges, n) >= n - imm - burst
    ensures Missing(Finish(n, burst, seg, c).ranges, n) > 0
  {
    var r3 := Range(imm + seg, imm + 2 * seg);
    UpToMore(c.ranges, r3, imm + burst);
    MissingMore(c.ranges, r3.lo, imm + burst, r3.hi, n);
    ServeTo(n, burst, seg, c, r3, Left(c.asks, r3));
    var d := Serve(n, burst, seg, c);
    if d.count >= n {
      BehindStays(n, burst, seg, d);
    } else {
      assert Left(c.asks, r3) == [Range(imm + 2 * seg, imm + seg + burst), AskFor(n, burst, imm + burst)];
      ThirdRepeats(n, burst, seg, imm, d);
    }
  }

  lemma ThirdRepeats(n: nat, burst: nat, seg: nat, imm: nat, c: Client)
    requires seg >= 1 && seg < burst < 2 * seg && Busy(n, c) && c.count == imm + burst + seg
    requires |c.asks| >= 2 && c.asks[0] == Range(imm + 2 * seg, imm + seg + burst) && c.asks[1] == AskFor(n, burst, imm + burst)
    requires UpTo(c.ranges, imm + 2 * seg) && Missing(c.ranges, n) >= n - imm - 2 * seg
    ensures Missing(Finish(n, burst, seg, c).ranges, n) > 0
  {
    var r4, count := c.asks[0], imm + 2 * burst;
    MissingMore(c.ranges, r4.lo, r4.lo, r4.hi, n);
    UpToMore(c.ranges, r4, imm + 2 * seg);
    ServeTo(n, burst, seg, c, r4, c.asks[1..]);
    var d := Serve(n, burst, seg, c);
    assert d.count == count && Missing(d.ranges, n) >= n - imm - seg - burst;
    if count >= n {
      BehindStays(n, burst, seg, d);
    } else {
      assert d.asks[0] == AskFor(n, burst, imm + burst);
      FourthRepeats(n, burst, seg, imm, d);
    }
  }

  lemma FourthRepeats(n: nat, burst: nat, seg: nat, imm: nat, d: Client)
    requires seg >= 1 && seg < burst < 2 * seg && Busy(n, d) && d.count == imm + 2 * burst
    requires d.asks[0] == AskFor(n, burst, imm + burst)
    requires UpTo(d.ranges, imm + seg + burst) && Missing(d.ranges, n) >= n - imm - seg - burst
    ensures Missing(Finish(n, burst, seg, d).ranges, n) > 0
  {
    RepeatMisses(n, burst, seg, d);
  }

  /** The R2Ts cannot make the client repeat itself: each fits one Data-Out, or all that is asked for fits one R2T or two Data-Outs. */
  predicate InStepWith(n: nat, burst: nat, seg: nat, imm: nat)
    requires imm <= n
  {
    burst <= seg || n - imm <= Max(burst, 2 * seg)
  }

  /**
   * Serving R2Ts in order sends every byte by the time the count is complete if and only if each R2T fits one
   * Data-Out, or the data that was not immediate fits one R2T or two Data-Outs.
   */
  lemma WholeIff(n: nat, burst: nat, seg: nat, imm: nat)
    requires imm < n && burst >= 1 && seg >= 1
    ensures UpTo(Finish(n, burst, seg, Opening(n, burst, imm)).ranges, n) <==> InStepWith(n, burst, seg, imm)
  {
    var c := Opening(n, burst, imm);
    OneRangeUpTo(imm);
    if burst <= seg {
      LockStep(n, burst, seg, c);
    } else if n - imm <= burst {
      OneBurst(n, burst, seg, c);
    } else if 2 * seg <= burst {
      LongBurstsMiss(n, burst, seg, imm);
    } else if n - imm <= 2 * seg {
      TwoAndARest(n, burst, seg, imm);
    } else {
      ShortBurstsMiss(n, burst, seg, imm);
    }
    if UpTo(Finish(n, burst, seg, c).ranges, n) {
      UpToMissesNone(Finish(n, burst, seg, c).ranges, n);
    }
  }
}
