/**
 * Whole runs of concurrent writers on disjoint blocks (volume/mod.rs:76-101): every writer comes to an
 * end, and each ends as it would have alone, faults of the master included.
 */
module VolumeWriterRuns {
  import opened Bytes
  import opened Wrappers
  import opened Store
  import opened Volume
  import opened VolumeWriters
  import opened Schedules

  // ----- progress -----

  /** A bound on the steps a writer still takes: three for each byte left, less what its phase has done. */
  function StepsLeft(w: Writer): int {
    if w.rest == [] || w.phase.Stuck? then 0
    else 3 * |w.rest| - match w.phase case Missed => 1 case Loaded(_) => 2 case _ => 0
  }

  predicate Stopped(w: Writer) {
    w.rest == [] || w.phase.Stuck?
  }

  /** A step of a writer that has not stopped brings it closer to its end; a stopped one stays as it is. */
  lemma StepProgress(master: BackingStore, blocks: Blocks, w: Writer)
    requires RangeOk(|master.bytes|, w.blk, w.within, |w.rest|)
    requires w.phase.Loaded? && w.rest != [] ==> |w.phase.block| == BlockLen(|master.bytes|, w.blk)
    ensures var next := StepWriter(master, blocks, w).1;
            && 0 <= StepsLeft(next)
            && (Stopped(w) ==> next == w) && (!Stopped(w) ==> StepsLeft(next) < StepsLeft(w))
  {
  }

  // ----- each writer's fate -----

  /** How a write of `data` alone would go on from here, on the overlay as it was at the start. */
  function Alone(master: BackingStore, before: Blocks, w: Writer): Written
    requires ContractOk(|master.bytes|, before) && RangeOk(|master.bytes|, w.blk, w.within, |w.rest|)
  {
    WriteFrom(master, before, w.blk, w.within, w.rest)
  }

  lemma StoreKeepsContract(size: nat, blocks: Blocks, blk: nat, block: seq<byte>)
    requires ContractOk(size, blocks) && blk * BLOCK < size && |block| == BlockLen(size, blk)
    ensures ContractOk(size, blocks[blk := block])
  {
  }

  lemma SameSupply(master: BackingStore, b1: Blocks, b2: Blocks, blk: nat, within: nat, chunk: seq<byte>)
    requires ContractOk(|master.bytes|, b1) && ContractOk(|master.bytes|, b2) && (blk in b1 <==> blk in b2)
    requires blk * BLOCK < |master.bytes| && within + |chunk| <= BlockLen(|master.bytes|, blk)
    ensures NewBlock(master, b1, blk, within, chunk).Some? <==> NewBlock(master, b2, blk, within, chunk).Some?
  {
  }

  /** How far a write gets, one block at a time. */
  lemma DoneNext(master: BackingStore, blocks: Blocks, blk: nat, within: nat, data: seq<byte>, next: Option<seq<byte>>, done: nat, ok: bool)
    requires ContractOk(|master.bytes|, blocks) && RangeOk(|master.bytes|, blk, within, |data|) && data != []
    requires next == NewBlock(master, blocks, blk, within, data[..TakeOf(|master.bytes|, blk, within, |data|)])
    requires next.Some? ==>
               var rest := WriteFrom(master, blocks[blk := next.value], blk + 1, 0, data[TakeOf(|master.bytes|, blk, within, |data|)..]);
               done == rest.done && ok == rest.ok
    ensures var w := WriteFrom(master, blocks, blk, within, data);
            if next.None? then w.done == 0 && !w.ok
            else w.done == TakeOf(|master.bytes|, blk, within, |data|) + done && w.ok == ok
  {
    WriteFromNext(master, blocks, blk, within, data);
  }

  /** How far a write gets depends only on which blocks from its own on are in the overlay. */
  lemma {:induction false} SameFate(master: BackingStore, b1: Blocks, b2: Blocks, blk: nat, within: nat, data: seq<byte>)
    requires ContractOk(|master.bytes|, b1) && ContractOk(|master.bytes|, b2) && RangeOk(|master.bytes|, blk, within, |data|)
    requires forall b :: b >= blk ==> (b in b1 <==> b in b2)
    ensures var (w1, w2) := (WriteFrom(master, b1, blk, within, data), WriteFrom(master, b2, blk, within, data));
            w1.done == w2.done && w1.ok == w2.ok
    decreases |data|
  {
    if data != [] {
      var take := TakeOf(|master.bytes|, blk, within, |data|);
      var (n1, n2) := (NewBlock(master, b1, blk, within, data[..take]), NewBlock(master, b2, blk, within, data[..take]));
      NextRange(|master.bytes|, blk, within, |data|);
      SameSupply(master, b1, b2, blk, within, data[..take]);
      var rest := Written(b1, 0, false);
      if n1.Some? {
        StoreKeepsContract(|master.bytes|, b1, blk, n1.value);
        StoreKeepsContract(|master.bytes|, b2, blk, n2.value);
        SameFate(master, b1[blk := n1.value], b2[blk := n2.value], blk + 1, 0, data[take..]);
        rest := WriteFrom(master, b1[blk := n1.value], blk + 1, 0, data[take..]);
      }
      DoneNext(master, b1, blk, within, data, n1, rest.done, rest.ok);
      DoneNext(master, b2, blk, within, data, n2, rest.done, rest.ok);
    }
  }

  /** Storing one block does not change how the rest of the write goes. */
  lemma NextFate(master: BackingStore, before: Blocks, blk: nat, within: nat, data: seq<byte>)
    requires ContractOk(|master.bytes|, before) && RangeOk(|master.bytes|, blk, within, |data|) && data != []
    requires NewBlock(master, before, blk, within, data[..TakeOf(|master.bytes|, blk, within, |data|)]).Some?
    ensures var take := TakeOf(|master.bytes|, blk, within, |data|);
            var (now, next) := (WriteFrom(master, before, blk, within, data), WriteFrom(master, before, blk + 1, 0, data[take..]));
            now.done == take + next.done && now.ok == next.ok
  {
    var take := TakeOf(|master.bytes|, blk, within, |data|);
    var block := NewBlock(master, before, blk, within, data[..take]).value;
    WriteFromNext(master, before, blk, within, data);
    NextRange(|master.bytes|, blk, within, |data|);
    StoreKeepsContract(|master.bytes|, before, blk, block);
    SameFate(master, before[blk := block], before, blk + 1, 0, data[take..]);
  }

  lemma AloneNext(master: BackingStore, before: Blocks, w: Writer)
    requires ContractOk(|master.bytes|, before) && RangeOk(|master.bytes|, w.blk, w.within, |w.rest|) && w.rest != []
    requires NewBlock(master, before, w.blk, w.within, Chunk(|master.bytes|, w)).Some?
    ensures var (now, next) := (Alone(master, before, w), Alone(master, before, Advance(|master.bytes|, w)));
            now.done == |Chunk(|master.bytes|, w)| + next.done && now.ok == next.ok
  {
    NextFate(master, before, w.blk, w.within, w.rest);
  }

  /** The blocks a writer has yet to store are in the overlay exactly if they were at the start. */
  ghost predicate Ahead(before: Blocks, blocks: Blocks, call: Call, w: Writer) {
    w.rest != [] ==> forall b :: b >= w.blk && Touches(call, b) ==> (b in blocks <==> b in before)
  }

  /** The writer is on the way to where it would have got alone. */
  ghost predicate Fated(master: BackingStore, before: Blocks, call: Call, w: Writer)
    requires ContractOk(|master.bytes|, before) && PositionOk(|master.bytes|, call, w)
  {
    var (whole, left) := (WriteSpec(master, before, call.off, call.data), Alone(master, before, w));
    && whole.done == |call.data| - |w.rest| + left.done && whole.ok == left.ok
    && (w.rest != [] ==>
          var chunk := Chunk(|master.bytes|, w);
          && (w.phase.Missed? ==> |chunk| < BlockLen(|master.bytes|, w.blk))
          && (w.phase.Loaded? ==> NewBlock(master, before, w.blk, w.within, chunk).Some?)
          && (w.phase.Stuck? ==> left == Written(before, 0, false)))
  }

  /** A store brings the writer to its next block, on the same way. */
  lemma StoreFate(master: BackingStore, before: Blocks, call: Call, w: Writer)
    requires ContractOk(|master.bytes|, before) && PositionOk(|master.bytes|, call, w) && w.rest != []
    requires Fated(master, before, call, w) && NewBlock(master, before, w.blk, w.within, Chunk(|master.bytes|, w)).Some?
    ensures PositionOk(|master.bytes|, call, Advance(|master.bytes|, w))
    ensures Fated(master, before, call, Advance(|master.bytes|, w))
  {
    AdvancePosition(|master.bytes|, call, w);
    AloneNext(master, before, w);
  }

  /** A lookup or a read of the master changes the phase alone, as the write alone would find it. */
  lemma PhaseFate(master: BackingStore, before: Blocks, blocks: Blocks, call: Call, w: Writer)
    requires WriterOk(master, before, blocks, call, w) && Ahead(before, blocks, call, w) && Fated(master, before, call, w)
    requires w.rest != [] && (w.phase.Missed? || (w.phase.Ready? && |Chunk(|master.bytes|, w)| < BlockLen(|master.bytes|, w.blk)))
    ensures var next := StepWriter(master, blocks, w).1;
            next == w.(phase := next.phase) && Fated(master, before, call, next)
  {
    WriteFromNext(master, before, w.blk, w.within, w.rest);
  }

  lemma OwnFate(master: BackingStore, before: Blocks, blocks: Blocks, call: Call, w: Writer)
    requires WriterOk(master, before, blocks, call, w) && Ahead(before, blocks, call, w) && Fated(master, before, call, w)
    ensures var (after, next) := StepWriter(master, blocks, w);
            && PositionOk(|master.bytes|, call, next)
            && Ahead(before, after, call, next) && Fated(master, before, call, next)
  {
    if w.rest != [] && !w.phase.Stuck? {
      if w.phase.Loaded? || (w.phase.Ready? && |Chunk(|master.bytes|, w)| == BlockLen(|master.bytes|, w.blk)) {
        StoreFate(master, before, call, w);
      } else {
        PhaseFate(master, before, blocks, call, w);
      }
    }
  }

  lemma OtherAhead(before: Blocks, blocks: Blocks, after: Blocks, blk: nat, call: Call, w: Writer)
    requires Ahead(before, blocks, call, w) && OnlyBlock(blocks, after, blk) && !Touches(call, blk)
    ensures Ahead(before, after, call, w)
  {
    forall b | b != blk
      ensures b in after <==> b in blocks
    {
      assert b in after - {blk} <==> b in blocks - {blk};
    }
  }

  // ----- whole runs -----

  ghost predicate OnTrack(master: BackingStore, before: Blocks, blocks: Blocks, call: Call, w: Writer) {
    WriterOk(master, before, blocks, call, w) && Ahead(before, blocks, call, w) && Fated(master, before, call, w)
  }

  ghost predicate SystemFated(master: BackingStore, calls: seq<Call>, before: Blocks, s: System) {
    && SystemOk(master, calls, before, s)
    && forall i :: 0 <= i < |calls| ==> OnTrack(master, before, s.blocks, calls[i], s.writers[i])
  }

  lemma OwnTrack(master: BackingStore, before: Blocks, blocks: Blocks, call: Call, w: Writer)
    requires OnTrack(master, before, blocks, call, w)
    ensures var (after, next) := StepWriter(master, blocks, w);
            OnTrack(master, before, after, call, next)
  {
    OwnStep(master, before, blocks, call, w);
    OwnFate(master, before, blocks, call, w);
  }

  lemma OtherTrack(master: BackingStore, before: Blocks, blocks: Blocks, after: Blocks, blk: nat, call: Call, w: Writer)
    requires OnTrack(master, before, blocks, call, w)
    requires ContractOk(|master.bytes|, after) && OnlyBlock(blocks, after, blk) && !Touches(call, blk)
    ensures OnTrack(master, before, after, call, w)
  {
    OtherStep(master, before, blocks, after, blk, call, w);
    OtherAhead(before, blocks, after, blk, call, w);
  }

  lemma StepFated(master: BackingStore, calls: seq<Call>, before: Blocks, s: System, i: nat)
    requires SystemFated(master, calls, before, s) && Disjoint(calls) && i < |calls|
    ensures SystemFated(master, calls, before, StepSystem(master, s, i))
  {
    var t, blk := StepSystem(master, s, i), s.writers[i].blk;
    StepKeeps(master, calls, before, s, i);
    OwnTrack(master, before, s.blocks, calls[i], s.writers[i]);
    StepWhere(master, before, s.blocks, calls[i], s.writers[i]);
    forall j | 0 <= j < |calls|
      ensures OnTrack(master, before, t.blocks, calls[j], t.writers[j])
    {
      if j != i && t.blocks != s.blocks {
        assert !Touches(calls[j], blk);
        OtherTrack(master, before, s.blocks, t.blocks, blk, calls[j], s.writers[j]);
      }
    }
  }

  lemma InitialFated(master: BackingStore, calls: seq<Call>, before: Blocks)
    requires ContractOk(|master.bytes|, before)
    requires forall i :: 0 <= i < |calls| ==> calls[i].off + |calls[i].data| <= |master.bytes|
    ensures SystemFated(master, calls, before, System(before, InitialWriters(calls)))
  {
    InitialOk(master, calls, before);
    forall i | 0 <= i < |calls|
      ensures OnTrack(master, before, before, calls[i], InitialWriters(calls)[i])
    {
      assert WriterOk(master, before, before, calls[i], InitialWriters(calls)[i]);
    }
  }

  lemma {:induction false} RunFated(master: BackingStore, calls: seq<Call>, before: Blocks, s: System, schedule: seq<nat>)
    requires SystemFated(master, calls, before, s) && Disjoint(calls) && Fits(schedule, |calls|)
    ensures SystemFated(master, calls, before, RunWriters(master, calls, before, s, schedule))
    decreases |schedule|
  {
    if schedule != [] {
      StepKeeps(master, calls, before, s, schedule[0]);
      StepFated(master, calls, before, s, schedule[0]);
      RunFated(master, calls, before, StepSystem(master, s, schedule[0]), schedule[1..]);
    }
  }

  /** Enough turns of its own bring a writer to its end, whatever the others do. */
  lemma {:induction false} WriterStops(master: BackingStore, calls: seq<Call>, before: Blocks, s: System, schedule: seq<nat>, i: nat)
    requires SystemOk(master, calls, before, s) && Disjoint(calls) && Fits(schedule, |calls|) && i < |calls|
    requires Turns(schedule, i) >= StepsLeft(s.writers[i])
    ensures |RunWriters(master, calls, before, s, schedule).writers| == |calls|
    ensures Stopped(RunWriters(master, calls, before, s, schedule).writers[i])
    decreases |schedule|
  {
    assert WriterOk(master, before, s.blocks, calls[i], s.writers[i]);
    if schedule != [] {
      var k := schedule[0];
      StepKeeps(master, calls, before, s, k);
      StepProgress(master, s.blocks, s.writers[k]);
      WriterStops(master, calls, before, StepSystem(master, s, k), schedule[1..], i);
    }
  }

  /** Each call cut to what it would have stored alone. */
  function Served(master: BackingStore, before: Blocks, calls: seq<Call>): (served: seq<Call>)
    requires ContractOk(|master.bytes|, before)
    requires forall i :: 0 <= i < |calls| ==> calls[i].off + |calls[i].data| <= |master.bytes|
    ensures |served| == |calls|
    ensures forall i :: 0 <= i < |calls| ==>
              served[i] == Call(calls[i].off, calls[i].data[..WriteSpec(master, before, calls[i].off, calls[i].data).done])
  {
    seq(|calls|, i requires 0 <= i < |calls| =>
      Call(calls[i].off, calls[i].data[..WriteSpec(master, before, calls[i].off, calls[i].data).done]))
  }

  /** A stopped writer has stored exactly what it would have stored alone. */
  lemma StoppedIsServed(master: BackingStore, before: Blocks, blocks: Blocks, call: Call, w: Writer)
    requires WriterOk(master, before, blocks, call, w) && Fated(master, before, call, w) && Stopped(w)
    ensures var alone := WriteSpec(master, before, call.off, call.data);
            |call.data| - |w.rest| == alone.done && (w.rest == [] <==> alone.ok)
  {
  }

  /** Enough turns for everyone. */
  predicate Fair(calls: seq<Call>, schedule: seq<nat>) {
    forall i :: 0 <= i < |calls| ==> Turns(schedule, i) >= 3 * |calls[i].data|
  }

  lemma FairStops(master: BackingStore, calls: seq<Call>, before: Blocks, schedule: seq<nat>, i: nat)
    requires SystemFated(master, calls, before, System(before, InitialWriters(calls)))
    requires Disjoint(calls) && Fits(schedule, |calls|) && Fair(calls, schedule) && i < |calls|
    ensures var end := RunWriters(master, calls, before, System(before, InitialWriters(calls)), schedule);
            && SystemFated(master, calls, before, end) && |end.writers| == |calls| && Stopped(end.writers[i])
  {
    var s := System(before, InitialWriters(calls));
    RunFated(master, calls, before, s, schedule);
    WriterStops(master, calls, before, s, schedule, i);
  }

  predicate InBounds(calls: seq<Call>, size: nat) {
    forall i :: 0 <= i < |calls| ==> calls[i].off + |calls[i].data| <= size
  }

  /**
   * A writer has failed exactly if it would have failed alone, and the disk is what the calls, each as
   * far as it gets alone, leave in this order.
   */
  ghost predicate AsIfAlone(master: BackingStore, calls: seq<Call>, before: Blocks, end: VolumeWriters.System, order: seq<nat>)
    requires ContractOk(|master.bytes|, before) && InBounds(calls, |master.bytes|) && Fits(order, |calls|)
  {
    && ContractOk(|master.bytes|, end.blocks) && |end.writers| == |calls|
    && (forall i :: 0 <= i < |calls| ==>
          (end.writers[i].rest == [] <==> WriteSpec(master, before, calls[i].off, calls[i].data).ok))
    && DiskOf(master, end.blocks) == InOrder(DiskOf(master, before), Served(master, before, calls), order)
  }

  /** Once every writer has stopped, the disk is what the calls leave in any order, each as far as it gets alone. */
  lemma StoppedIsSequential(master: BackingStore, calls: seq<Call>, before: Blocks, end: VolumeWriters.System, order: seq<nat>)
    requires SystemFated(master, calls, before, end) && Disjoint(calls) && InBounds(calls, |master.bytes|)
    requires forall i :: 0 <= i < |calls| ==> Stopped(end.writers[i])
    requires Fits(order, |calls|) && forall i :: 0 <= i < |calls| ==> i in order
    ensures AsIfAlone(master, calls, before, end, order)
  {
    StateIsSequential(master, calls, before, end, order);
    forall i | 0 <= i < |calls|
      ensures |calls[i].data| - |end.writers[i].rest| == WriteSpec(master, before, calls[i].off, calls[i].data).done
      ensures end.writers[i].rest == [] <==> WriteSpec(master, before, calls[i].off, calls[i].data).ok
    {
      assert OnTrack(master, before, end.blocks, calls[i], end.writers[i]);
      StoppedIsServed(master, before, end.blocks, calls[i], end.writers[i]);
    }
    assert AllEffective(calls, end.writers) == Served(master, before, calls);
  }

  /**
   * Concurrent writers on disjoint blocks, faults included: under every fair schedule every writer
   * stops, one has failed exactly if it would have failed alone, and the disk is what the calls, each
   * as far as it gets alone, leave in any sequential order.
   */
  lemma FairRunsAreSequential(master: BackingStore, calls: seq<Call>, before: Blocks, schedule: seq<nat>, order: seq<nat>)
    requires ContractOk(|master.bytes|, before) && Disjoint(calls) && InBounds(calls, |master.bytes|)
    requires Fits(schedule, |calls|) && Fair(calls, schedule)
    requires Fits(order, |calls|) && forall i :: 0 <= i < |calls| ==> i in order
    ensures SystemOk(master, calls, before, System(before, InitialWriters(calls)))
    ensures var end := RunWriters(master, calls, before, System(before, InitialWriters(calls)), schedule);
            && AsIfAlone(master, calls, before, end, order)
            && forall i :: 0 <= i < |calls| ==> Stopped(end.writers[i])
  {
    InitialFated(master, calls, before);
    var end := RunWriters(master, calls, before, System(before, InitialWriters(calls)), schedule);
    RunFated(master, calls, before, System(before, InitialWriters(calls)), schedule);
    forall i | 0 <= i < |calls|
      ensures Stopped(end.writers[i])
    {
      FairStops(master, calls, before, schedule, i);
    }
    StoppedIsSequential(master, calls, before, end, order);
  }

  lemma StuckHasFault(master: BackingStore, before: Blocks, call: Call, w: Writer)
    requires ContractOk(|master.bytes|, before) && PositionOk(|master.bytes|, call, w) && Fated(master, before, call, w)
    requires w.rest != [] && w.phase.Stuck?
    ensures master.faulty != {}
  {
    FailedWriteHasFault(master, before, call.off, call.data);
  }

  /** Without master faults no writer has failed in any reachable state, under any schedule. */
  lemma NoFaultNoFailure(master: BackingStore, calls: seq<Call>, before: Blocks, schedule: seq<nat>, i: nat)
    requires ContractOk(|master.bytes|, before) && Disjoint(calls) && master.faulty == {}
    requires InBounds(calls, |master.bytes|) && Fits(schedule, |calls|) && i < |calls|
    ensures SystemOk(master, calls, before, System(before, InitialWriters(calls)))
    ensures var end := RunWriters(master, calls, before, System(before, InitialWriters(calls)), schedule);
            i < |end.writers| && (end.writers[i].rest != [] ==> !end.writers[i].phase.Stuck?)
  {
    InitialFated(master, calls, before);
    RunFated(master, calls, before, System(before, InitialWriters(calls)), schedule);
    var end := RunWriters(master, calls, before, System(before, InitialWriters(calls)), schedule);
    assert OnTrack(master, before, end.blocks, calls[i], end.writers[i]);
    if end.writers[i].rest != [] && end.writers[i].phase.Stuck? {
      StuckHasFault(master, before, calls[i], end.writers[i]);
    }
  }

  /** On a master without faults every call takes full effect. */
  lemma FaultlessServed(master: BackingStore, calls: seq<Call>, before: Blocks)
    requires ContractOk(|master.bytes|, before) && master.faulty == {}
    requires forall i :: 0 <= i < |calls| ==> calls[i].off + |calls[i].data| <= |master.bytes|
    ensures Served(master, before, calls) == calls
    ensures forall i :: 0 <= i < |calls| ==> WriteSpec(master, before, calls[i].off, calls[i].data).ok
  {
    forall i | 0 <= i < |calls|
      ensures WriteSpec(master, before, calls[i].off, calls[i].data).ok
    {
      FailedWriteHasFault(master, before, calls[i].off, calls[i].data);
    }
    forall i | 0 <= i < |calls|
      ensures Served(master, before, calls)[i] == calls[i]
    {
      assert calls[i].data[..|calls[i].data|] == calls[i].data;
    }
  }

  /** So on such a master every fair schedule finishes every writer and leaves what the whole calls leave in any order. */
  lemma InterleavingIsSequential(master: BackingStore, calls: seq<Call>, before: Blocks, schedule: seq<nat>, order: seq<nat>)
    requires ContractOk(|master.bytes|, before) && Disjoint(calls) && master.faulty == {}
    requires forall i :: 0 <= i < |calls| ==> calls[i].off + |calls[i].data| <= |master.bytes|
    requires Fits(schedule, |calls|) && Fair(calls, schedule)
    requires Fits(order, |calls|) && forall i :: 0 <= i < |calls| ==> i in order
    ensures SystemOk(master, calls, before, System(before, InitialWriters(calls)))
    ensures var end := RunWriters(master, calls, before, System(before, InitialWriters(calls)), schedule);
            && ContractOk(|master.bytes|, end.blocks) && |end.writers| == |calls|
            && (forall i :: 0 <= i < |calls| ==> end.writers[i].rest == [])
            && DiskOf(master, end.blocks) == InOrder(DiskOf(master, before), calls, order)
  {
    FairRunsAreSequential(master, calls, before, schedule, order);
    FaultlessServed(master, calls, before);
  }
}
