/**
 * Writers that share a block (volume/mod.rs:83-97). A partly covered block is read, changed and stored
 * back in separate steps, so of two writers in one block the later store can undo the earlier one.
 * Writers always leave what some sequential order leaves exactly if no two of them share a block.
 */
module LostUpdates {
  import opened Bytes
  import opened Wrappers
  import opened Store
  import opened Volume
  import opened VolumeWriters
  import opened VolumeWriterRuns
  import opened Schedules

  // ----- runs of any writers -----

  predicate CanStep(size: nat, w: Writer) {
    && RangeOk(size, w.blk, w.within, |w.rest|)
    && (w.phase.Loaded? && w.rest != [] ==> |w.phase.block| == BlockLen(size, w.blk))
  }

  ghost predicate Runnable(size: nat, s: System) {
    ContractOk(size, s.blocks) && forall i :: 0 <= i < |s.writers| ==> CanStep(size, s.writers[i])
  }

  lemma StepRunnable(master: BackingStore, s: System, i: nat)
    requires Runnable(|master.bytes|, s) && i < |s.writers|
    ensures Runnable(|master.bytes|, StepSystem(master, s, i))
  {
    var w := s.writers[i];
    if w.rest != [] {
      NextRange(|master.bytes|, w.blk, w.within, |w.rest|);
    }
  }

  /** Any writers, whatever they share, under any schedule. */
  ghost function RunAny(master: BackingStore, s: System, schedule: seq<nat>): (t: System)
    requires Runnable(|master.bytes|, s) && Fits(schedule, |s.writers|)
    ensures Runnable(|master.bytes|, t) && |t.writers| == |s.writers|
    decreases |schedule|
  {
    if schedule == [] then s
    else
      StepRunnable(master, s, schedule[0]);
      RunAny(master, StepSystem(master, s, schedule[0]), schedule[1..])
  }

  lemma {:induction false} RunConcat(master: BackingStore, s: System, a: seq<nat>, b: seq<nat>)
    requires Runnable(|master.bytes|, s) && Fits(a, |s.writers|) && Fits(b, |s.writers|)
    ensures RunAny(master, s, a + b) == RunAny(master, RunAny(master, s, a), b)
    decreases |a|
  {
    if a == [] {
      assert a + b == b;
    } else {
      StepRunnable(master, s, a[0]);
      assert (a + b)[1..] == a[1..] + b;
      RunConcat(master, StepSystem(master, s, a[0]), a[1..], b);
    }
  }

  lemma OkIsRunnable(master: BackingStore, calls: seq<Call>, before: Blocks, s: System)
    requires SystemOk(master, calls, before, s)
    ensures Runnable(|master.bytes|, s)
  {
    forall i | 0 <= i < |s.writers|
      ensures CanStep(|master.bytes|, s.writers[i])
    {
      assert WriterOk(master, before, s.blocks, calls[i], s.writers[i]);
    }
  }

  /** On disjoint blocks this is the run of `VolumeWriters`. */
  lemma {:induction false} RunsAgree(master: BackingStore, calls: seq<Call>, before: Blocks, s: System, schedule: seq<nat>)
    requires SystemOk(master, calls, before, s) && Disjoint(calls) && Fits(schedule, |calls|)
    ensures Runnable(|master.bytes|, s)
    ensures RunAny(master, s, schedule) == RunWriters(master, calls, before, s, schedule)
    decreases |schedule|
  {
    OkIsRunnable(master, calls, before, s);
    if schedule != [] {
      StepKeeps(master, calls, before, s, schedule[0]);
      RunsAgree(master, calls, before, StepSystem(master, s, schedule[0]), schedule[1..]);
    }
  }

  // ----- one writer running alone -----

  function Solo(i: nat, n: nat): (schedule: seq<nat>)
    ensures |schedule| == n && forall k :: 0 <= k < n ==> schedule[k] == i
  {
    seq(n, _ => i)
  }

  lemma SoloNext(master: BackingStore, s: System, i: nat, n: nat)
    requires Runnable(|master.bytes|, s) && i < |s.writers| && n > 0
    ensures Runnable(|master.bytes|, StepSystem(master, s, i))
    ensures RunAny(master, s, Solo(i, n)) == RunAny(master, StepSystem(master, s, i), Solo(i, n - 1))
  {
    StepRunnable(master, s, i);
    assert Solo(i, n)[1..] == Solo(i, n - 1);
  }

  lemma SoloSum(master: BackingStore, s: System, i: nat, m: nat, n: nat)
    requires Runnable(|master.bytes|, s) && i < |s.writers|
    ensures RunAny(master, s, Solo(i, m + n)) == RunAny(master, RunAny(master, s, Solo(i, m)), Solo(i, n))
  {
    assert Solo(i, m + n) == Solo(i, m) + Solo(i, n);
    RunConcat(master, s, Solo(i, m), Solo(i, n));
  }

  /** On a master without faults a writer that runs alone for long enough finishes, and the others stand still. */
  lemma {:induction false} SoloFinishes(master: BackingStore, s: System, i: nat, n: nat)
    requires Runnable(|master.bytes|, s) && i < |s.writers| && master.faulty == {} && !s.writers[i].phase.Stuck?
    ensures var t := RunAny(master, s, Solo(i, n));
            && (n >= StepsLeft(s.writers[i]) ==> t.writers[i].rest == [])
            && t.writers == s.writers[i := t.writers[i]]
    decreases n
  {
    var w := s.writers[i];
    StepProgress(master, s.blocks, w);
    if n > 0 {
      SoloNext(master, s, i, n);
      SoloFinishes(master, StepSystem(master, s, i), i, n - 1);
    }
  }

  // ----- one writer running up to a block -----

  /** The byte position at which a writer's call ends. */
  function EndOf(w: Writer): nat {
    w.blk * BLOCK + w.within + |w.rest|
  }

  /** A writer on its way to block `sb`, which holds the end of its call but is not filled by it. */
  predicate Heading(size: nat, w: Writer, sb: nat) {
    && w.rest != [] && w.blk <= sb && sb * BLOCK < EndOf(w)
    && sb * BLOCK < size && EndOf(w) < sb * BLOCK + BlockLen(size, sb)
  }

  /** Before block `sb` the writer stores its next block in at most three steps of its own. */
  lemma StoreOne(master: BackingStore, s: System, i: nat, sb: nat) returns (k: nat)
    requires Runnable(|master.bytes|, s) && i < |s.writers| && master.faulty == {}
    requires s.writers[i].phase.Ready? && Heading(|master.bytes|, s.writers[i], sb) && s.writers[i].blk < sb
    ensures var t := RunAny(master, s, Solo(i, k));
            && t.writers == s.writers[i := Advance(|master.bytes|, s.writers[i])]
            && (sb in t.blocks <==> sb in s.blocks) && (sb in s.blocks ==> t.blocks[sb] == s.blocks[sb])
  {
    var w := s.writers[i];
    ChunkAlone(master, s.blocks, w);
    var one := StepSystem(master, s, i);
    SoloNext(master, s, i, 1);
    if |Chunk(|master.bytes|, w)| == BlockLen(|master.bytes|, w.blk) {
      k := 1;
    } else {
      var two := StepSystem(master, one, i);
      SoloNext(master, one, i, 1);
      if w.blk in s.blocks {
        k := 2;
        SoloNext(master, s, i, 2);
      } else {
        k := 3;
        SoloNext(master, s, i, 3);
        SoloNext(master, one, i, 2);
        SoloNext(master, two, i, 1);
      }
    }
  }

  lemma AdvanceHeads(size: nat, w: Writer, sb: nat)
    requires RangeOk(size, w.blk, w.within, |w.rest|) && Heading(size, w, sb) && w.blk < sb
    ensures Heading(size, Advance(size, w), sb) && EndOf(Advance(size, w)) == EndOf(w)
  {
  }

  /** A writer alone gets to a stored block that its call ends in, and loads it. */
  lemma {:induction false} Approach(master: BackingStore, s: System, i: nat, sb: nat) returns (k: nat)
    requires Runnable(|master.bytes|, s) && i < |s.writers| && master.faulty == {}
    requires s.writers[i].phase.Ready? && Heading(|master.bytes|, s.writers[i], sb) && sb in s.blocks
    ensures var t := RunAny(master, s, Solo(i, k));
            && sb in t.blocks && t.blocks[sb] == s.blocks[sb]
            && t.writers == s.writers[i := t.writers[i]]
            && Holding(t.writers[i], sb, EndOf(s.writers[i]), s.blocks[sb])
    decreases sb - s.writers[i].blk
  {
    var w := s.writers[i];
    if w.blk == sb {
      k := 1;
      SoloNext(master, s, i, 1);
    } else {
      var m := StoreOne(master, s, i, sb);
      AdvanceHeads(|master.bytes|, w, sb);
      var n := Approach(master, RunAny(master, s, Solo(i, m)), i, sb);
      k := m + n;
      SoloSum(master, s, i, m, n);
    }
  }

  /** The writer has loaded block `sb`, its last one, as `block`. */
  predicate Holding(w: Writer, sb: nat, end: nat, block: seq<byte>) {
    w.blk == sb && w.rest != [] && w.phase == Loaded(block) && EndOf(w) == end
  }

  /** Its store puts back, beyond the end of its call, what it loaded. */
  lemma StoreBack(master: BackingStore, s: System, i: nat, sb: nat, end: nat, block: seq<byte>, x: nat)
    requires Runnable(|master.bytes|, s) && i < |s.writers| && Holding(s.writers[i], sb, end, block)
    requires sb * BLOCK + x >= end && x < |block| == BlockLen(|master.bytes|, sb)
    ensures var t := RunAny(master, s, Solo(i, 1));
            && sb in t.blocks && |t.blocks[sb]| == |block| && t.blocks[sb][x] == block[x]
            && t.writers == s.writers[i := t.writers[i]] && t.writers[i].rest == []
  {
    SoloNext(master, s, i, 1);
  }

  // ----- everyone else -----

  /** Byte `x` of block `b` is none of those the writer has left. */
  predicate Misses(w: Writer, b: nat, x: nat) {
    w.rest == [] || !(w.blk * BLOCK + w.within <= b * BLOCK + x < EndOf(w))
  }

  lemma StepKeepsCell(master: BackingStore, blocks: Blocks, w: Writer, b: nat, x: nat)
    requires ContractOk(|master.bytes|, blocks) && CanStep(|master.bytes|, w) && PhaseOk(master, blocks, w)
    requires InDisk(|master.bytes|, b, x) && Misses(w, b, x)
    ensures var (after, next) := StepWriter(master, blocks, w);
            && ContractOk(|master.bytes|, after) && CanStep(|master.bytes|, next) && PhaseOk(master, after, next)
            && Cell(master, after, b, x) == Cell(master, blocks, b, x) && Misses(next, b, x)
  {
    if w.rest != [] {
      var chunk := Chunk(|master.bytes|, w);
      if w.phase.Ready? && |chunk| == BlockLen(|master.bytes|, w.blk) {
        StoreKeepsCell(master, blocks, w, chunk, b, x);
      } else if w.phase.Loaded? {
        StoreKeepsCell(master, blocks, w, Patch(w.phase.block, w.within, chunk), b, x);
      } else {
        QuietPhase(master, blocks, w);
        QuietCanStep(master, blocks, w);
      }
    }
  }

  lemma QuietCanStep(master: BackingStore, blocks: Blocks, w: Writer)
    requires ContractOk(|master.bytes|, blocks) && CanStep(|master.bytes|, w) && w.rest != [] && !w.phase.Loaded?
    ensures CanStep(|master.bytes|, StepWriter(master, blocks, w).1)
  {
    NextRange(|master.bytes|, w.blk, w.within, |w.rest|);
  }

  /** A store of what the block holds with the writer's own bytes over it. */
  lemma StoreKeepsCell(master: BackingStore, blocks: Blocks, w: Writer, block: seq<byte>, b: nat, x: nat)
    requires ContractOk(|master.bytes|, blocks) && RangeOk(|master.bytes|, w.blk, w.within, |w.rest|) && w.rest != []
    requires Overwrites(master, blocks, w, block) && InDisk(|master.bytes|, b, x) && Misses(w, b, x)
    ensures var (after, next) := (blocks[w.blk := block], Advance(|master.bytes|, w));
            && ContractOk(|master.bytes|, after) && CanStep(|master.bytes|, next) && PhaseOk(master, after, next)
            && Cell(master, after, b, x) == Cell(master, blocks, b, x) && Misses(next, b, x)
  {
    NextRange(|master.bytes|, w.blk, w.within, |w.rest|);
    StoreKeepsContract(|master.bytes|, blocks, w.blk, block);
    AdvanceMisses(|master.bytes|, w, b, x);
  }

  lemma AdvanceMisses(size: nat, w: Writer, b: nat, x: nat)
    requires RangeOk(size, w.blk, w.within, |w.rest|) && w.rest != [] && Misses(w, b, x)
    ensures Misses(Advance(size, w), b, x)
    ensures b == w.blk ==> !(w.within <= x < w.within + |Chunk(size, w)|)
  {
  }

  /** A writer alone, at a true start, changes no byte that is not its own. */
  lemma {:induction false} SoloKeepsCell(master: BackingStore, s: System, i: nat, n: nat, b: nat, x: nat)
    requires Runnable(|master.bytes|, s) && i < |s.writers| && PhaseOk(master, s.blocks, s.writers[i])
    requires InDisk(|master.bytes|, b, x) && Misses(s.writers[i], b, x)
    ensures var t := RunAny(master, s, Solo(i, n));
            Cell(master, t.blocks, b, x) == Cell(master, s.blocks, b, x) && t.writers == s.writers[i := t.writers[i]]
    decreases n
  {
    if n > 0 {
      StepKeepsCell(master, s.blocks, s.writers[i], b, x);
      SoloNext(master, s, i, n);
      SoloKeepsCell(master, StepSystem(master, s, i), i, n - 1, b, x);
    }
  }

  /** The first `n` writers one after the other, each with all the turns it can need. */
  function OneByOne(calls: seq<Call>, n: nat): (schedule: seq<nat>)
    requires n <= |calls|
    ensures Fits(schedule, n)
  {
    if n == 0 then [] else OneByOne(calls, n - 1) + Solo(n - 1, 3 * |calls[n - 1].data|)
  }

  lemma {:induction false} TurnsConcat(a: seq<nat>, b: seq<nat>, i: nat)
    ensures Turns(a + b, i) == Turns(a, i) + Turns(b, i)
    decreases |a|
  {
    if a == [] {
      assert a + b == b;
    } else {
      assert (a + b)[1..] == a[1..] + b;
      TurnsConcat(a[1..], b, i);
    }
  }

  lemma {:induction false} SoloTurns(i: nat, n: nat)
    ensures Turns(Solo(i, n), i) == n
  {
    if n > 0 {
      assert Solo(i, n)[1..] == Solo(i, n - 1);
      SoloTurns(i, n - 1);
    }
  }

  lemma {:induction false} OneByOneTurns(calls: seq<Call>, n: nat, i: nat)
    requires i < n <= |calls|
    ensures Turns(OneByOne(calls, n), i) >= 3 * |calls[i].data|
  {
    TurnsConcat(OneByOne(calls, n - 1), Solo(n - 1, 3 * |calls[n - 1].data|), i);
    if i == n - 1 {
      SoloTurns(i, 3 * |calls[i].data|);
    } else {
      OneByOneTurns(calls, n - 1, i);
    }
  }

  /** A writer that has not begun, or has finished. */
  predicate Idle(call: Call, w: Writer) {
    w == Start(call) || w.rest == []
  }

  /** None of the first `n` writers is under way, and none has the byte to write. */
  predicate IdleBelow(calls: seq<Call>, ws: seq<Writer>, b: nat, x: nat, n: nat)
    requires n <= |calls| == |ws|
  {
    n == 0 || (IdleBelow(calls, ws, b, x, n - 1) && Idle(calls[n - 1], ws[n - 1]) && Misses(ws[n - 1], b, x))
  }

  lemma {:induction false} AllIdle(calls: seq<Call>, ws: seq<Writer>, b: nat, x: nat, n: nat)
    requires n <= |calls| == |ws| && forall i :: 0 <= i < n ==> Idle(calls[i], ws[i]) && Misses(ws[i], b, x)
    ensures IdleBelow(calls, ws, b, x, n)
  {
    if n > 0 {
      AllIdle(calls, ws, b, x, n - 1);
    }
  }

  lemma {:induction false} OneByOneKeepsCell(master: BackingStore, calls: seq<Call>, s: System, n: nat, b: nat, x: nat)
    requires Runnable(|master.bytes|, s) && n <= |calls| == |s.writers| && InDisk(|master.bytes|, b, x)
    requires IdleBelow(calls, s.writers, b, x, n)
    ensures var t := RunAny(master, s, OneByOne(calls, n));
            Cell(master, t.blocks, b, x) == Cell(master, s.blocks, b, x) && SameFrom(s.writers, t.writers, n)
  {
    if n > 0 {
      OneByOneKeepsCell(master, calls, s, n - 1, b, x);
      NextKeepsCell(master, calls, s, OneByOne(calls, n - 1), n - 1, 3 * |calls[n - 1].data|, b, x);
    }
  }

  /** After such a schedule the next writer in line, which has not moved yet, runs alone. */
  lemma NextKeepsCell(master: BackingStore, calls: seq<Call>, s: System, schedule: seq<nat>, i: nat, turns: nat, b: nat, x: nat)
    requires Runnable(|master.bytes|, s) && i < |calls| == |s.writers| && InDisk(|master.bytes|, b, x) && Fits(schedule, |calls|)
    requires Idle(calls[i], s.writers[i]) && Misses(s.writers[i], b, x)
    requires SameFrom(s.writers, RunAny(master, s, schedule).writers, i)
    requires Cell(master, RunAny(master, s, schedule).blocks, b, x) == Cell(master, s.blocks, b, x)
    ensures Fits(schedule + Solo(i, turns), |calls|)
    ensures var end := RunAny(master, s, schedule + Solo(i, turns));
            Cell(master, end.blocks, b, x) == Cell(master, s.blocks, b, x) && SameFrom(s.writers, end.writers, i + 1)
  {
    var t := RunAny(master, s, schedule);
    RunConcat(master, s, schedule, Solo(i, turns));
    IdleKeepsCell(master, calls[i], t, i, turns, b, x);
    MovedOne(s.writers, t.writers, i, RunAny(master, t, Solo(i, turns)).writers[i]);
  }

  /** The writers from `n` on have not moved. */
  predicate SameFrom(ws: seq<Writer>, vs: seq<Writer>, n: nat) {
    |ws| == |vs| && forall i :: n <= i < |ws| ==> vs[i] == ws[i]
  }

  lemma MovedOne(ws: seq<Writer>, vs: seq<Writer>, i: nat, w: Writer)
    requires SameFrom(ws, vs, i) && i < |ws|
    ensures SameFrom(ws, vs[i := w], i + 1)
  {
  }

  lemma IdleKeepsCell(master: BackingStore, call: Call, s: System, i: nat, n: nat, b: nat, x: nat)
    requires Runnable(|master.bytes|, s) && i < |s.writers| && InDisk(|master.bytes|, b, x)
    requires Idle(call, s.writers[i]) && Misses(s.writers[i], b, x)
    ensures var t := RunAny(master, s, Solo(i, n));
            Cell(master, t.blocks, b, x) == Cell(master, s.blocks, b, x) && t.writers == s.writers[i := t.writers[i]]
  {
    SoloKeepsCell(master, s, i, n, b, x);
  }

  // ----- the exact condition -----

  /** No two calls write the same byte. */
  predicate Apart(calls: seq<Call>) {
    forall i, j :: 0 <= i < |calls| && 0 <= j < |calls| && i != j ==>
      calls[i].off + |calls[i].data| <= calls[j].off || calls[j].off + |calls[j].data| <= calls[i].off
  }

  /** Non-empty calls on the disk that never write the same byte. */
  predicate Proper(calls: seq<Call>, size: nat) {
    InBounds(calls, size) && Apart(calls) && forall i :: 0 <= i < |calls| ==> calls[i].data != []
  }

  function Begin(calls: seq<Call>, before: Blocks): VolumeWriters.System {
    System(before, InitialWriters(calls))
  }

  lemma BeginRunnable(calls: seq<Call>, before: Blocks, size: nat)
    requires ContractOk(size, before) && InBounds(calls, size)
    ensures Runnable(size, Begin(calls, before))
  {
  }

  /** A starting overlay, a fair schedule and an order of all the calls. */
  ghost predicate Admissible(master: BackingStore, calls: seq<Call>, before: Blocks, schedule: seq<nat>, order: seq<nat>) {
    && ContractOk(|master.bytes|, before) && Fits(schedule, |calls|) && Fair(calls, schedule)
    && Fits(order, |calls|) && forall i :: 0 <= i < |calls| ==> i in order
  }

  /** The run leaves what the calls leave one after the other. */
  ghost predicate Sequential(master: BackingStore, calls: seq<Call>, before: Blocks, schedule: seq<nat>, order: seq<nat>)
    requires InBounds(calls, |master.bytes|) && Admissible(master, calls, before, schedule, order)
  {
    BeginRunnable(calls, before, |master.bytes|);
    DiskOf(master, RunAny(master, Begin(calls, before), schedule).blocks) == InOrder(DiskOf(master, before), calls, order)
  }

  lemma DisjointSequential(master: BackingStore, calls: seq<Call>, before: Blocks, schedule: seq<nat>, order: seq<nat>)
    requires Proper(calls, |master.bytes|) && master.faulty == {} && Disjoint(calls)
    requires Admissible(master, calls, before, schedule, order)
    ensures Sequential(master, calls, before, schedule, order)
  {
    InterleavingIsSequential(master, calls, before, schedule, order);
    RunsAgree(master, calls, before, Begin(calls, before), schedule);
  }

  /** A block that two calls share holds the end of the lower one and the beginning of the upper one. */
  lemma SharedBlock(size: nat, low: Call, high: Call, b: nat)
    requires low.data != [] && high.data != [] && low.off + |low.data| <= high.off && high.off + |high.data| <= size
    requires Touches(low, b) && Touches(high, b)
    ensures b == high.off / BLOCK && Heading(size, Start(low), b) && EndOf(Start(low)) == low.off + |low.data|
  {
  }

  /** Load in the lower call, run the upper one out, then store: the lower writer puts back what it loaded. */
  function Overtake(calls: seq<Call>, i: nat, j: nat, k: nat): (schedule: seq<nat>)
    requires i < |calls| && j < |calls|
    ensures Fits(schedule, |calls|)
  {
    Solo(i, k) + Solo(j, 3 * |calls[j].data|) + Solo(i, 1)
  }

  lemma Overtaken(master: BackingStore, calls: seq<Call>, before: Blocks, i: nat, j: nat, sb: nat, x: nat) returns (k: nat)
    requires Proper(calls, |master.bytes|) && master.faulty == {} && ContractOk(|master.bytes|, before) && sb in before
    requires i < |calls| && j < |calls| && i != j && Heading(|master.bytes|, Start(calls[i]), sb)
    requires EndOf(Start(calls[i])) <= sb * BLOCK + x && x < BlockLen(|master.bytes|, sb)
    ensures Runnable(|master.bytes|, Begin(calls, before))
    ensures var t := RunAny(master, Begin(calls, before), Overtake(calls, i, j, k));
            && sb in t.blocks && x < |t.blocks[sb]| && t.blocks[sb][x] == before[sb][x]
            && t.writers[i].rest == [] && t.writers[j].rest == []
            && forall m :: 0 <= m < |calls| && m != i && m != j ==> t.writers[m] == Start(calls[m])
  {
    var s := Begin(calls, before);
    BeginRunnable(calls, before, |master.bytes|);
    k := Approach(master, s, i, sb);
    var loaded := RunAny(master, s, Solo(i, k));
    var n := 3 * |calls[j].data|;
    SoloFinishes(master, loaded, j, n);
    var passed := RunAny(master, loaded, Solo(j, n));
    StoreBack(master, passed, i, sb, EndOf(s.writers[i]), before[sb], x);
    RunConcat(master, s, Solo(i, k), Solo(j, n));
    RunConcat(master, s, Solo(i, k) + Solo(j, n), Solo(i, 1));
  }

  lemma OvertakeMisses(master: BackingStore, calls: seq<Call>, before: Blocks, i: nat, j: nat, sb: nat, x: nat) returns (k: nat)
    requires Proper(calls, |master.bytes|) && master.faulty == {} && ContractOk(|master.bytes|, before) && sb in before
    requires i < |calls| && j < |calls| && i != j && Heading(|master.bytes|, Start(calls[i]), sb)
    requires EndOf(Start(calls[i])) <= sb * BLOCK + x && x < BlockLen(|master.bytes|, sb)
    requires forall m :: 0 <= m < |calls| && m != j ==> Misses(Start(calls[m]), sb, x)
    ensures Runnable(|master.bytes|, Begin(calls, before))
    ensures var t := RunAny(master, Begin(calls, before), Overtake(calls, i, j, k) + OneByOne(calls, |calls|));
            InDisk(|master.bytes|, sb, x) && Cell(master, t.blocks, sb, x) == before[sb][x]
  {
    k := Overtaken(master, calls, before, i, j, sb, x);
    var t := RunAny(master, Begin(calls, before), Overtake(calls, i, j, k));
    RunConcat(master, Begin(calls, before), Overtake(calls, i, j, k), OneByOne(calls, |calls|));
    AllIdle(calls, t.writers, sb, x, |calls|);
    OneByOneKeepsCell(master, calls, t, |calls|, sb, x);
  }

  lemma OnlyOwnerHas(calls: seq<Call>, size: nat, j: nat, b: nat, x: nat)
    requires Proper(calls, size) && j < |calls| && b * BLOCK + x == calls[j].off
    ensures InRange(calls[j], calls[j].off)
    ensures forall m :: 0 <= m < |calls| && m != j ==> Misses(Start(calls[m]), b, x) && !InRange(calls[m], calls[j].off)
  {
  }

  function AllOf(n: nat): (order: seq<nat>)
    ensures Fits(order, n) && forall i :: 0 <= i < n ==> i in order
  {
    if n == 0 then [] else AllOf(n - 1) + [n - 1]
  }

  lemma OvertakeFair(calls: seq<Call>, i: nat, j: nat, k: nat)
    requires i < |calls| && j < |calls|
    ensures Fair(calls, Overtake(calls, i, j, k) + OneByOne(calls, |calls|))
  {
    forall m | 0 <= m < |calls|
      ensures Turns(Overtake(calls, i, j, k) + OneByOne(calls, |calls|), m) >= 3 * |calls[m].data|
    {
      TurnsConcat(Overtake(calls, i, j, k), OneByOne(calls, |calls|), m);
      OneByOneTurns(calls, |calls|, m);
    }
  }

  /** If two calls share a block, some overlay and some fair schedule lose the first byte of the upper one. */
  lemma SharedLoses(master: BackingStore, calls: seq<Call>, i: nat, j: nat, sb: nat)
    returns (before: Blocks, schedule: seq<nat>, order: seq<nat>)
    requires Proper(calls, |master.bytes|) && master.faulty == {} && i < |calls| && j < |calls| && i != j
    requires calls[i].off + |calls[i].data| <= calls[j].off && Touches(calls[i], sb) && Touches(calls[j], sb)
    ensures Admissible(master, calls, before, schedule, order) && !Sequential(master, calls, before, schedule, order)
  {
    var x := calls[j].off % BLOCK;
    var other: byte := if calls[j].data[0] == 0 then 1 else 0;
    SharedBlock(|master.bytes|, calls[i], calls[j], sb);
    before := map[sb := Fill(BlockLen(|master.bytes|, sb), other)];
    order := AllOf(|calls|);
    OnlyOwnerHas(calls, |master.bytes|, j, sb, x);
    var k := OvertakeMisses(master, calls, before, i, j, sb, x);
    schedule := Overtake(calls, i, j, k) + OneByOne(calls, |calls|);
    OvertakeFair(calls, i, j, k);
    LostByte(master, calls, before, schedule, order, j, sb, x);
  }

  /** A byte that only call `j` writes and that does not end up as its data shows that no order explains the run. */
  lemma LostByte(master: BackingStore, calls: seq<Call>, before: Blocks, schedule: seq<nat>, order: seq<nat>, j: nat, b: nat, x: nat)
    requires InBounds(calls, |master.bytes|) && Admissible(master, calls, before, schedule, order) && j < |calls|
    requires calls[j].data != [] && calls[j].off == b * BLOCK + x && InDisk(|master.bytes|, b, x)
    requires forall m :: 0 <= m < |calls| && m != j ==> !InRange(calls[m], calls[j].off)
    requires Runnable(|master.bytes|, Begin(calls, before))
    requires Cell(master, RunAny(master, Begin(calls, before), schedule).blocks, b, x) != calls[j].data[0]
    ensures !Sequential(master, calls, before, schedule, order)
  {
    BlockAndByte(calls[j].off, b, x);
    InOrderTouched(DiskOf(master, before), calls, order, j, calls[j].off);
  }

  /**
   * Writers on a faultless master that never write the same byte always leave what some sequential order
   * leaves, for every overlay, every fair schedule and every order, if and only if no two share a block.
   */
  lemma SequentialIff(master: BackingStore, calls: seq<Call>)
    requires Proper(calls, |master.bytes|) && master.faulty == {}
    ensures Disjoint(calls) <==> forall before, schedule, order ::
              Admissible(master, calls, before, schedule, order) ==> Sequential(master, calls, before, schedule, order)
  {
    if Disjoint(calls) {
      forall before, schedule, order | Admissible(master, calls, before, schedule, order)
        ensures Sequential(master, calls, before, schedule, order)
      {
        DisjointSequential(master, calls, before, schedule, order);
      }
    } else {
      var i, j, b :| 0 <= i < j < |calls| && Touches(calls[i], b) && Touches(calls[j], b);
      if calls[i].off + |calls[i].data| <= calls[j].off {
        var before, schedule, order := SharedLoses(master, calls, i, j, b);
      } else {
        var before, schedule, order := SharedLoses(master, calls, j, i, b);
      }
    }
  }

  /** The smallest case: two writers of one byte each, side by side in a stored block; the second byte is lost. */
  lemma UpdateLost(master: BackingStore, was: seq<byte>, a: byte, b: byte)
    requires |master.bytes| >= 2 && |was| == BlockLen(|master.bytes|, 0)
    ensures var s := Begin([Call(0, [a]), Call(1, [b])], map[0 := was]);
            && Runnable(|master.bytes|, s)
            && var t := RunAny(master, s, [0, 1, 1, 0]);
               && t.writers[0].rest == [] && t.writers[1].rest == []
               && DiskOf(master, t.blocks)[0] == a && DiskOf(master, t.blocks)[1] == was[1]
  {
    UpdateRun(master, was, a, b);
    OverlaidByte(master, map[0 := was[0 := a]], 0);
    OverlaidByte(master, map[0 := was[0 := a]], 1);
  }

  lemma OverlaidByte(master: BackingStore, blocks: Blocks, p: nat)
    requires ContractOk(|master.bytes|, blocks) && 0 in blocks && p < BLOCK && p < |master.bytes|
    ensures p < |blocks[0]| && DiskOf(master, blocks)[p] == blocks[0][p]
  {
  }

  lemma UpdateRun(master: BackingStore, was: seq<byte>, a: byte, b: byte)
    requires |master.bytes| >= 2 && |was| == BlockLen(|master.bytes|, 0)
    ensures var s := Begin([Call(0, [a]), Call(1, [b])], map[0 := was]);
            && Runnable(|master.bytes|, s)
            && RunAny(master, s, [0, 1, 1, 0]) == System(map[0 := was[0 := a]], [Writer(1, 0, [], Ready), Writer(1, 0, [], Ready)])
  {
    var calls, s := [Call(0, [a]), Call(1, [b])], Begin([Call(0, [a]), Call(1, [b])], map[0 := was]);
    BeginRunnable(calls, map[0 := was], |master.bytes|);
    var wa, wb, done := Writer(0, 0, [a], Loaded(was)), Writer(0, 1, [b], Loaded(was)), Writer(1, 0, [], Ready);
    assert InitialWriters(calls) == [Start(calls[0]), Start(calls[1])];
    OneByteSteps(master, map[0 := was], 0, a, was);
    OneByteSteps(master, map[0 := was], 1, b, was);
    OneByteSteps(master, map[0 := was[1 := b]], 0, a, was);
    var s1, s2 := System(map[0 := was], [wa, Start(calls[1])]), System(map[0 := was], [wa, wb]);
    var s3 := System(map[0 := was[1 := b]], [wa, done]);
    OneStep(master, s, 0, s1, [1, 1, 0]);
    OneStep(master, s1, 1, s2, [1, 0]);
    OneStep(master, s2, 1, s3, [0]);
    OneStep(master, s3, 0, System(map[0 := was[0 := a]], [done, done]), []);
  }

  lemma OneStep(master: BackingStore, s: System, i: nat, t: System, more: seq<nat>)
    requires Runnable(|master.bytes|, s) && i < |s.writers| && Fits(more, |s.writers|) && StepSystem(master, s, i) == t
    ensures Runnable(|master.bytes|, t) && |t.writers| == |s.writers|
    ensures RunAny(master, s, [i] + more) == RunAny(master, t, more)
  {
    StepRunnable(master, s, i);
    assert ([i] + more)[1..] == more;
  }

  /** A writer of one byte in stored block 0 first loads it, and then stores it with that byte changed. */
  lemma OneByteSteps(master: BackingStore, blocks: Blocks, x: nat, v: byte, loaded: seq<byte>)
    requires ContractOk(|master.bytes|, blocks) && 0 in blocks && x < |loaded| == BlockLen(|master.bytes|, 0)
    requires 2 <= |loaded|
    ensures Start(Call(x, [v])) == Writer(0, x, [v], Ready)
    ensures StepWriter(master, blocks, Writer(0, x, [v], Ready)) == (blocks, Writer(0, x, [v], Loaded(blocks[0])))
    ensures StepWriter(master, blocks, Writer(0, x, [v], Loaded(loaded))) == (blocks[0 := loaded[x := v]], Writer(1, 0, [], Ready))
  {
    assert [v][..1] == [v] && [v][1..] == [];
    assert Patch(loaded, x, [v]) == loaded[x := v];
  }
}
