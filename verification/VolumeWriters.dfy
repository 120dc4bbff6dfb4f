/**
 * Concurrent writers on one volume. `write_at` holds no lock across a block: it looks the block
 * up in the overlay, may read the master, and stores the result, each as a separate step.
 */
module VolumeWriters {
  import opened Bytes
  import opened Wrappers
  import opened Store
  import opened Volume
  import opened Schedules

  /** One `write_at` call. */
  datatype Call = Call(off: nat, data: seq<byte>)

  /** Where a writer stands inside its current block. */
  datatype Phase = Ready | Missed | Loaded(block: seq<byte>) | Stuck

  datatype Writer = Writer(blk: nat, within: nat, rest: seq<byte>, phase: Phase)

  datatype System = System(blocks: Blocks, writers: seq<Writer>)

  function Start(call: Call): Writer {
    Writer(call.off / BLOCK, call.off % BLOCK, call.data, Ready)
  }

  function Chunk(size: nat, w: Writer): seq<byte>
    requires RangeOk(size, w.blk, w.within, |w.rest|) && w.rest != []
  {
    w.rest[..TakeOf(size, w.blk, w.within, |w.rest|)]
  }

  function Advance(size: nat, w: Writer): Writer
    requires RangeOk(size, w.blk, w.within, |w.rest|) && w.rest != []
  {
    Writer(w.blk + 1, 0, w.rest[|Chunk(size, w)|..], Ready)
  }

  /** One atomic step of one writer: an overlay lookup, a master read, or an overlay store. */
  function StepWriter(master: BackingStore, blocks: Blocks, w: Writer): (Blocks, Writer)
    requires RangeOk(|master.bytes|, w.blk, w.within, |w.rest|)
    requires w.phase.Loaded? && w.rest != [] ==> |w.phase.block| == BlockLen(|master.bytes|, w.blk)
  {
    if w.rest == [] then (blocks, w)
    else
      var chunk, blen := Chunk(|master.bytes|, w), BlockLen(|master.bytes|, w.blk);
      match w.phase
      case Ready =>
        if |chunk| == blen then (blocks[w.blk := chunk], Advance(|master.bytes|, w))
        else if w.blk in blocks then (blocks, w.(phase := Loaded(blocks[w.blk])))
        else (blocks, w.(phase := Missed))
      case Missed =>
        (blocks, w.(phase := match master.Read(w.blk * BLOCK, blen) case Ok(base) => Loaded(base) case Err(_) => Stuck))
      case Loaded(block) =>
        (blocks[w.blk := Patch(block, w.within, chunk)], Advance(|master.bytes|, w))
      case Stuck => (blocks, w)
  }

  /** A writer left alone stores, in at most three steps, exactly the block `write_at` stores. */
  lemma ChunkAlone(master: BackingStore, blocks: Blocks, w: Writer)
    requires ContractOk(|master.bytes|, blocks) && RangeOk(|master.bytes|, w.blk, w.within, |w.rest|)
    requires w.rest != [] && w.phase.Ready?
    ensures var chunk := Chunk(|master.bytes|, w);
            var stored := NewBlock(master, blocks, w.blk, w.within, chunk);
            var one := StepWriter(master, blocks, w);
            if |chunk| == BlockLen(|master.bytes|, w.blk) then
              one == (blocks[w.blk := stored.value], Advance(|master.bytes|, w))
            else
              var two := StepWriter(master, one.0, one.1);
              if w.blk in blocks then two == (blocks[w.blk := stored.value], Advance(|master.bytes|, w))
              else if stored.None? then two.0 == blocks && two.1.phase.Stuck?
              else StepWriter(master, two.0, two.1) == (blocks[w.blk := stored.value], Advance(|master.bytes|, w))
  {
  }

  // ----- what each writer owns -----

  predicate Touches(call: Call, b: nat) {
    call.data != [] && call.off / BLOCK <= b <= (call.off + |call.data| - 1) / BLOCK
  }

  ghost predicate Disjoint(calls: seq<Call>) {
    forall i, j, b :: 0 <= i < j < |calls| && Touches(calls[i], b) ==> !Touches(calls[j], b)
  }

  predicate InDisk(size: nat, b: nat, x: nat) {
    x < BLOCK && b * BLOCK + x < size
  }

  /** The cell's value once the first `done` bytes of the call have been stored. */
  function Expect(master: BackingStore, before: Blocks, call: Call, done: nat, b: nat, x: nat): byte
    requires ContractOk(|master.bytes|, before) && InDisk(|master.bytes|, b, x) && done <= |call.data|
  {
    var k := b * BLOCK + x - call.off;
    if 0 <= k < done then call.data[k] else Cell(master, before, b, x)
  }

  /** The writer's position in its call. */
  predicate PositionOk(size: nat, call: Call, w: Writer) {
    && |w.rest| <= |call.data| && call.off + |call.data| <= size
    && w.rest == call.data[|call.data| - |w.rest|..]
    && RangeOk(size, w.blk, w.within, |w.rest|)
    && (w.rest != [] ==> w.blk * BLOCK + w.within == call.off + (|call.data| - |w.rest|) && Touches(call, w.blk))
  }

  /** What a writer has seen of its current block is still true of the overlay. */
  ghost predicate PhaseOk(master: BackingStore, blocks: Blocks, w: Writer)
    requires ContractOk(|master.bytes|, blocks)
  {
    w.rest != [] && w.blk * BLOCK < |master.bytes| ==>
      && (w.phase.Missed? ==> w.blk !in blocks)
      && (w.phase.Loaded? ==> |w.phase.block| == BlockLen(|master.bytes|, w.blk)
                              && forall x :: 0 <= x < |w.phase.block| ==> w.phase.block[x] == Cell(master, blocks, w.blk, x))
  }

  ghost predicate CellsOk(master: BackingStore, before: Blocks, blocks: Blocks, call: Call, w: Writer)
    requires ContractOk(|master.bytes|, before) && ContractOk(|master.bytes|, blocks)
    requires |w.rest| <= |call.data|
  {
    forall b, x :: Touches(call, b) && InDisk(|master.bytes|, b, x) ==>
      Cell(master, blocks, b, x) == Expect(master, before, call, |call.data| - |w.rest|, b, x)
  }

  ghost predicate WriterOk(master: BackingStore, before: Blocks, blocks: Blocks, call: Call, w: Writer) {
    && ContractOk(|master.bytes|, before) && ContractOk(|master.bytes|, blocks)
    && PositionOk(|master.bytes|, call, w)
    && PhaseOk(master, blocks, w)
    && CellsOk(master, before, blocks, call, w)
  }

  /** Blocks no call touches are as they were. */
  ghost predicate OthersKept(calls: seq<Call>, before: Blocks, blocks: Blocks) {
    forall b :: (forall i :: 0 <= i < |calls| ==> !Touches(calls[i], b)) ==>
      (b in blocks <==> b in before) && (b in blocks && b in before ==> blocks[b] == before[b])
  }

  ghost predicate SystemOk(master: BackingStore, calls: seq<Call>, before: Blocks, s: System) {
    && ContractOk(|master.bytes|, before) && ContractOk(|master.bytes|, s.blocks)
    && |s.writers| == |calls|
    && (forall i :: 0 <= i < |calls| ==> WriterOk(master, before, s.blocks, calls[i], s.writers[i]))
    && OthersKept(calls, before, s.blocks)
  }

  // ----- steps keep the invariant -----

  /** `after` differs from `blocks` only in block `blk`. */
  predicate OnlyBlock(blocks: Blocks, after: Blocks, blk: nat) {
    blocks - {blk} == after - {blk}
  }

  lemma OtherCells(master: BackingStore, blocks: Blocks, after: Blocks, blk: nat, b: nat, x: nat)
    requires ContractOk(|master.bytes|, blocks) && ContractOk(|master.bytes|, after)
    requires OnlyBlock(blocks, after, blk) && b != blk && InDisk(|master.bytes|, b, x)
    ensures b in after <==> b in blocks
    ensures Cell(master, after, b, x) == Cell(master, blocks, b, x)
  {
    assert b in blocks <==> b in blocks - {blk};
    assert b in after <==> b in after - {blk};
    if b in blocks {
      assert (blocks - {blk})[b] == (after - {blk})[b];
    }
  }

  /** What a writer's store puts in its block: the chunk over what the block held. */
  ghost predicate Overwrites(master: BackingStore, blocks: Blocks, w: Writer, block: seq<byte>)
    requires ContractOk(|master.bytes|, blocks) && RangeOk(|master.bytes|, w.blk, w.within, |w.rest|) && w.rest != []
  {
    var chunk := Chunk(|master.bytes|, w);
    && |block| == BlockLen(|master.bytes|, w.blk)
    && forall x :: 0 <= x < |block| ==>
         block[x] == if w.within <= x < w.within + |chunk| then chunk[x - w.within] else Cell(master, blocks, w.blk, x)
  }

  /** One cell of the stored block. */
  lemma StoredCell(master: BackingStore, before: Blocks, blocks: Blocks, call: Call, w: Writer, block: seq<byte>, x: nat)
    requires ContractOk(|master.bytes|, before) && ContractOk(|master.bytes|, blocks)
    requires PositionOk(|master.bytes|, call, w) && w.rest != [] && InDisk(|master.bytes|, w.blk, x)
    requires Overwrites(master, blocks, w, block)
    requires Cell(master, blocks, w.blk, x) == Expect(master, before, call, |call.data| - |w.rest|, w.blk, x)
    ensures x < |block|
    ensures block[x] == Expect(master, before, call, |call.data| - |w.rest| + |Chunk(|master.bytes|, w)|, w.blk, x)
  {
    var chunk := Chunk(|master.bytes|, w);
    assert chunk == call.data[|call.data| - |w.rest|..][..|chunk|];
  }

  /** The block a writer stores, when its step is a store. */
  lemma StoreStep(master: BackingStore, before: Blocks, blocks: Blocks, call: Call, w: Writer, block: seq<byte>)
    requires WriterOk(master, before, blocks, call, w) && w.rest != [] && Overwrites(master, blocks, w, block)
    ensures WriterOk(master, before, blocks[w.blk := block], call, Advance(|master.bytes|, w))
  {
    var size, after, chunk := |master.bytes|, blocks[w.blk := block], Chunk(|master.bytes|, w);
    AdvancePosition(size, call, w);
    forall b, x | Touches(call, b) && InDisk(size, b, x)
      ensures Cell(master, after, b, x) == Expect(master, before, call, |call.data| - |w.rest| + |chunk|, b, x)
    {
      if b == w.blk {
        StoredCell(master, before, blocks, call, w, block, x);
      } else {
        OtherCells(master, blocks, after, w.blk, b, x);
        NotInChunk(size, call, w, b, x);
      }
    }
  }

  /** A chunk lies in one block: it reaches no cell of another. */
  lemma NotInChunk(size: nat, call: Call, w: Writer, b: nat, x: nat)
    requires PositionOk(size, call, w) && w.rest != [] && b != w.blk && InDisk(size, b, x)
    ensures var (k, done) := (b * BLOCK + x - call.off, |call.data| - |w.rest|);
            k < done || k >= done + |Chunk(size, w)|
  {
  }

  lemma AdvancePosition(size: nat, call: Call, w: Writer)
    requires PositionOk(size, call, w) && w.rest != []
    ensures PositionOk(size, call, Advance(size, w))
  {
    var chunk, done := Chunk(size, w), |call.data| - |w.rest|;
    assert w.rest[|chunk|..] == call.data[done + |chunk|..];
  }

  lemma OwnStep(master: BackingStore, before: Blocks, blocks: Blocks, call: Call, w: Writer)
    requires WriterOk(master, before, blocks, call, w)
    ensures var (after, next) := StepWriter(master, blocks, w);
            WriterOk(master, before, after, call, next)
  {
    if w.rest != [] {
      var chunk := Chunk(|master.bytes|, w);
      if w.phase.Ready? && |chunk| == BlockLen(|master.bytes|, w.blk) {
        StoreStep(master, before, blocks, call, w, chunk);
      } else if w.phase.Loaded? {
        StoreStep(master, before, blocks, call, w, Patch(w.phase.block, w.within, chunk));
      } else {
        QuietPhase(master, blocks, w);
        QuietStep(master, before, blocks, call, w, StepWriter(master, blocks, w).1.phase);
      }
    }
  }

  /** A lookup or a master read leaves the overlay alone, and what it learns is true. */
  lemma QuietPhase(master: BackingStore, blocks: Blocks, w: Writer)
    requires ContractOk(|master.bytes|, blocks) && RangeOk(|master.bytes|, w.blk, w.within, |w.rest|) && w.rest != []
    requires PhaseOk(master, blocks, w) && !w.phase.Loaded?
    requires w.phase.Ready? ==> |Chunk(|master.bytes|, w)| != BlockLen(|master.bytes|, w.blk)
    ensures var (after, next) := StepWriter(master, blocks, w);
            after == blocks && next == w.(phase := next.phase) && PhaseOk(master, blocks, next)
  {
  }

  lemma QuietStep(master: BackingStore, before: Blocks, blocks: Blocks, call: Call, w: Writer, phase: Phase)
    requires WriterOk(master, before, blocks, call, w) && PhaseOk(master, blocks, w.(phase := phase))
    ensures WriterOk(master, before, blocks, call, w.(phase := phase))
  {
  }

  lemma StepWhere(master: BackingStore, before: Blocks, blocks: Blocks, call: Call, w: Writer)
    requires WriterOk(master, before, blocks, call, w)
    ensures var (after, next) := StepWriter(master, blocks, w);
            && OnlyBlock(blocks, after, w.blk)
            && (after != blocks ==> Touches(call, w.blk))
  {
  }

  /** A step of one writer leaves a writer of other blocks alone. */
  lemma OtherStep(master: BackingStore, before: Blocks, blocks: Blocks, after: Blocks, blk: nat, call: Call, w: Writer)
    requires WriterOk(master, before, blocks, call, w)
    requires ContractOk(|master.bytes|, after) && OnlyBlock(blocks, after, blk) && !Touches(call, blk)
    ensures WriterOk(master, before, after, call, w)
  {
    forall b, x | Touches(call, b) && InDisk(|master.bytes|, b, x)
      ensures Cell(master, after, b, x) == Cell(master, blocks, b, x)
    {
      OtherCells(master, blocks, after, blk, b, x);
    }
    if w.rest != [] {
      OtherCells(master, blocks, after, blk, w.blk, 0);
    }
  }

  function StepSystem(master: BackingStore, s: System, i: nat): System
    requires i < |s.writers|
    requires RangeOk(|master.bytes|, s.writers[i].blk, s.writers[i].within, |s.writers[i].rest|)
    requires s.writers[i].phase.Loaded? && s.writers[i].rest != [] ==>
               |s.writers[i].phase.block| == BlockLen(|master.bytes|, s.writers[i].blk)
  {
    var (after, next) := StepWriter(master, s.blocks, s.writers[i]);
    System(after, s.writers[i := next])
  }

  lemma StepKeeps(master: BackingStore, calls: seq<Call>, before: Blocks, s: System, i: nat)
    requires SystemOk(master, calls, before, s) && Disjoint(calls) && i < |calls|
    ensures WriterOk(master, before, s.blocks, calls[i], s.writers[i])
    ensures SystemOk(master, calls, before, StepSystem(master, s, i))
  {
    var t, blk := StepSystem(master, s, i), s.writers[i].blk;
    OwnStep(master, before, s.blocks, calls[i], s.writers[i]);
    StepWhere(master, before, s.blocks, calls[i], s.writers[i]);
    forall j | 0 <= j < |calls|
      ensures WriterOk(master, before, t.blocks, calls[j], t.writers[j])
    {
      if j != i && t.blocks != s.blocks {
        assert !Touches(calls[j], blk);
        OtherStep(master, before, s.blocks, t.blocks, blk, calls[j], s.writers[j]);
      }
    }
    OthersStay(calls, before, s.blocks, t.blocks, blk, i);
  }

  lemma OthersStay(calls: seq<Call>, before: Blocks, blocks: Blocks, after: Blocks, blk: nat, i: nat)
    requires OthersKept(calls, before, blocks) && OnlyBlock(blocks, after, blk)
    requires i < |calls| && (after != blocks ==> Touches(calls[i], blk))
    ensures OthersKept(calls, before, after)
  {
    forall b | forall k :: 0 <= k < |calls| ==> !Touches(calls[k], b)
      ensures (b in after <==> b in before) && (b in after && b in before ==> after[b] == before[b])
    {
      if after != blocks {
        assert b != blk;
        assert b in after <==> b in after - {blk};
        assert b in blocks <==> b in blocks - {blk};
        if b in after {
          assert (after - {blk})[b] == (blocks - {blk})[b];
        }
      }
    }
  }

  // ----- whole runs -----

  function InitialWriters(calls: seq<Call>): (ws: seq<Writer>)
    ensures |ws| == |calls|
  {
    seq(|calls|, i requires 0 <= i < |calls| => Start(calls[i]))
  }

  /** Any scheduler: at each turn the named writer makes one atomic step. */
  ghost function RunWriters(master: BackingStore, calls: seq<Call>, before: Blocks, s: System, schedule: seq<nat>): System
    requires SystemOk(master, calls, before, s) && Disjoint(calls)
    requires Fits(schedule, |calls|)
    decreases |schedule|
  {
    if schedule == [] then s
    else
      StepKeeps(master, calls, before, s, schedule[0]);
      RunWriters(master, calls, before, StepSystem(master, s, schedule[0]), schedule[1..])
  }

  lemma InitialOk(master: BackingStore, calls: seq<Call>, before: Blocks)
    requires ContractOk(|master.bytes|, before)
    requires forall i :: 0 <= i < |calls| ==> calls[i].off + |calls[i].data| <= |master.bytes|
    ensures SystemOk(master, calls, before, System(before, InitialWriters(calls)))
  {
    forall i | 0 <= i < |calls|
      ensures WriterOk(master, before, before, calls[i], InitialWriters(calls)[i])
    {
      var call := calls[i];
      if call.data != [] {
        assert call.data[0..] == call.data;
        assert Touches(call, call.off / BLOCK);
      }
    }
  }

  lemma {:induction false} RunKeeps(master: BackingStore, calls: seq<Call>, before: Blocks, s: System, schedule: seq<nat>)
    requires SystemOk(master, calls, before, s) && Disjoint(calls)
    requires Fits(schedule, |calls|)
    ensures SystemOk(master, calls, before, RunWriters(master, calls, before, s, schedule))
    decreases |schedule|
  {
    if schedule != [] {
      StepKeeps(master, calls, before, s, schedule[0]);
      RunKeeps(master, calls, before, StepSystem(master, s, schedule[0]), schedule[1..]);
    }
  }

  /** The flat disk after the calls named by `order`, one whole call after another. */
  function InOrder(disk: seq<byte>, calls: seq<Call>, order: seq<nat>): (d: seq<byte>)
    requires forall i :: 0 <= i < |calls| ==> calls[i].off + |calls[i].data| <= |disk|
    requires Fits(order, |calls|)
    ensures |d| == |disk|
    decreases |order|
  {
    if order == [] then disk
    else InOrder(Patch(disk, calls[order[0]].off, calls[order[0]].data), calls, order[1..])
  }

  predicate InRange(call: Call, p: nat) {
    call.off <= p < call.off + |call.data|
  }

  lemma {:induction false} InOrderUntouched(disk: seq<byte>, calls: seq<Call>, order: seq<nat>, p: nat)
    requires forall i :: 0 <= i < |calls| ==> calls[i].off + |calls[i].data| <= |disk|
    requires Fits(order, |calls|)
    requires p < |disk| && forall k :: 0 <= k < |order| ==> !InRange(calls[order[k]], p)
    ensures InOrder(disk, calls, order)[p] == disk[p]
    decreases |order|
  {
    if order != [] {
      var call := calls[order[0]];
      assert !InRange(call, p);
      InOrderUntouched(Patch(disk, call.off, call.data), calls, order[1..], p);
    }
  }

  /** In any order that includes call `i`, a byte only that call covers ends up as its data. */
  lemma {:induction false} InOrderTouched(disk: seq<byte>, calls: seq<Call>, order: seq<nat>, i: nat, p: nat)
    requires forall j :: 0 <= j < |calls| ==> calls[j].off + |calls[j].data| <= |disk|
    requires Fits(order, |calls|)
    requires i < |calls| && i in order && p < |disk| && InRange(calls[i], p)
    requires forall j :: 0 <= j < |calls| && j != i ==> !InRange(calls[j], p)
    ensures InOrder(disk, calls, order)[p] == calls[i].data[p - calls[i].off]
    decreases |order|
  {
    var call := calls[order[0]];
    var next := Patch(disk, call.off, call.data);
    if i in order[1..] {
      InOrderTouched(next, calls, order[1..], i, p);
    } else {
      InOrderUntouched(next, calls, order[1..], p);
    }
  }

  lemma RangeTouches(call: Call, p: nat)
    requires InRange(call, p)
    ensures Touches(call, p / BLOCK)
  {
  }

  /** The part of a call that has taken effect. */
  function Effective(call: Call, w: Writer): Call
    requires |w.rest| <= |call.data|
  {
    Call(call.off, call.data[..|call.data| - |w.rest|])
  }

  function AllEffective(calls: seq<Call>, ws: seq<Writer>): (done: seq<Call>)
    requires |ws| == |calls| && forall i :: 0 <= i < |calls| ==> |ws[i].rest| <= |calls[i].data|
    ensures |done| == |calls| && forall i :: 0 <= i < |calls| ==> done[i] == Effective(calls[i], ws[i])
  {
    seq(|calls|, i requires 0 <= i < |calls| => Effective(calls[i], ws[i]))
  }

  /**
   * Writers on disjoint blocks: in every state of every interleaving, failed writers included, the
   * disk is what the parts done so far leave in any sequential order.
   */
  lemma StateIsSequential(master: BackingStore, calls: seq<Call>, before: Blocks, s: System, order: seq<nat>)
    requires SystemOk(master, calls, before, s) && Disjoint(calls)
    requires Fits(order, |calls|) && forall i :: 0 <= i < |calls| ==> i in order
    ensures forall i :: 0 <= i < |calls| ==> |s.writers[i].rest| <= |calls[i].data| && calls[i].off + |calls[i].data| <= |master.bytes|
    ensures DiskOf(master, s.blocks) == InOrder(DiskOf(master, before), AllEffective(calls, s.writers), order)
  {
    forall i | 0 <= i < |calls|
      ensures PositionOk(|master.bytes|, calls[i], s.writers[i])
    {
      assert WriterOk(master, before, s.blocks, calls[i], s.writers[i]);
    }
    forall p | 0 <= p < |master.bytes|
      ensures DiskOf(master, s.blocks)[p] == InOrder(DiskOf(master, before), AllEffective(calls, s.writers), order)[p]
    {
      EffectiveByte(master, calls, before, s, order, p);
    }
  }

  lemma EffectiveByte(master: BackingStore, calls: seq<Call>, before: Blocks, s: System, order: seq<nat>, p: nat)
    requires SystemOk(master, calls, before, s) && Disjoint(calls) && p < |master.bytes|
    requires forall i :: 0 <= i < |calls| ==> |s.writers[i].rest| <= |calls[i].data| && calls[i].off + |calls[i].data| <= |master.bytes|
    requires Fits(order, |calls|) && forall i :: 0 <= i < |calls| ==> i in order
    ensures DiskOf(master, s.blocks)[p] == InOrder(DiskOf(master, before), AllEffective(calls, s.writers), order)[p]
  {
    if i :| 0 <= i < |calls| && Touches(calls[i], p / BLOCK) {
      TouchedEffect(DiskOf(master, before), calls, s.writers, order, i, p);
      OwnedByte(master, before, s.blocks, calls[i], s.writers[i], p);
    } else {
      FreeEffect(DiskOf(master, before), calls, s.writers, order, p);
      UntouchedByte(master, calls, before, s.blocks, p);
    }
  }

  /** A byte in a block that call `i` touches changes exactly if that call has got to it. */
  lemma TouchedEffect(disk: seq<byte>, calls: seq<Call>, ws: seq<Writer>, order: seq<nat>, i: nat, p: nat)
    requires Disjoint(calls) && |ws| == |calls| && p < |disk|
    requires forall j :: 0 <= j < |calls| ==> |ws[j].rest| <= |calls[j].data| && calls[j].off + |calls[j].data| <= |disk|
    requires Fits(order, |calls|) && i < |calls| && i in order && Touches(calls[i], p / BLOCK)
    ensures InOrder(disk, AllEffective(calls, ws), order)[p]
         == if InRange(Effective(calls[i], ws[i]), p) then calls[i].data[p - calls[i].off] else disk[p]
  {
    var done := AllEffective(calls, ws);
    OnlyOwner(calls, done, i, p);
    OneCovers(disk, done, order, i, p);
  }

  lemma FreeEffect(disk: seq<byte>, calls: seq<Call>, ws: seq<Writer>, order: seq<nat>, p: nat)
    requires |ws| == |calls| && p < |disk| && Fits(order, |calls|)
    requires forall j :: 0 <= j < |calls| ==> |ws[j].rest| <= |calls[j].data| && calls[j].off + |calls[j].data| <= |disk|
    requires forall j :: 0 <= j < |calls| ==> !Touches(calls[j], p / BLOCK)
    ensures InOrder(disk, AllEffective(calls, ws), order)[p] == disk[p]
  {
    forall j | 0 <= j < |calls|
      ensures !InRange(Effective(calls[j], ws[j]), p)
    {
      RangeTouchesEffective(calls[j], ws[j], p);
    }
    InOrderUntouched(disk, AllEffective(calls, ws), order, p);
  }

  lemma UntouchedByte(master: BackingStore, calls: seq<Call>, before: Blocks, blocks: Blocks, p: nat)
    requires ContractOk(|master.bytes|, before) && ContractOk(|master.bytes|, blocks) && OthersKept(calls, before, blocks)
    requires p < |master.bytes| && forall i :: 0 <= i < |calls| ==> !Touches(calls[i], p / BLOCK)
    ensures DiskOf(master, blocks)[p] == DiskOf(master, before)[p]
  {
    SameCell(master, before, blocks, p / BLOCK, p % BLOCK);
  }

  lemma SameCell(master: BackingStore, before: Blocks, blocks: Blocks, b: nat, x: nat)
    requires ContractOk(|master.bytes|, before) && ContractOk(|master.bytes|, blocks) && InDisk(|master.bytes|, b, x)
    requires (b in blocks <==> b in before) && (b in blocks && b in before ==> blocks[b] == before[b])
    ensures Cell(master, blocks, b, x) == Cell(master, before, b, x)
  {
  }

  lemma RangeTouchesEffective(call: Call, w: Writer, p: nat)
    requires |w.rest| <= |call.data|
    ensures InRange(Effective(call, w), p) ==> Touches(call, p / BLOCK)
  {
    if InRange(Effective(call, w), p) {
      RangeTouches(call, p);
    }
  }

  /** Only the call that touches a byte's block can cover the byte. */
  lemma OnlyOwner(calls: seq<Call>, done: seq<Call>, i: nat, p: nat)
    requires Disjoint(calls) && i < |calls| == |done| && Touches(calls[i], p / BLOCK)
    requires forall j :: 0 <= j < |calls| ==> done[j].off == calls[j].off && |done[j].data| <= |calls[j].data|
    ensures forall j :: 0 <= j < |calls| && j != i ==> !InRange(done[j], p)
  {
    forall j | 0 <= j < |calls| && InRange(done[j], p)
      ensures j == i
    {
      RangeTouches(calls[j], p);
    }
  }

  lemma OneCovers(disk: seq<byte>, done: seq<Call>, order: seq<nat>, i: nat, p: nat)
    requires forall j :: 0 <= j < |done| ==> done[j].off + |done[j].data| <= |disk|
    requires Fits(order, |done|) && i < |done| && i in order && p < |disk|
    requires forall j :: 0 <= j < |done| && j != i ==> !InRange(done[j], p)
    ensures InOrder(disk, done, order)[p] == if InRange(done[i], p) then done[i].data[p - done[i].off] else disk[p]
  {
    if InRange(done[i], p) {
      InOrderTouched(disk, done, order, i, p);
    } else {
      InOrderUntouched(disk, done, order, p);
    }
  }

  lemma OwnedByte(master: BackingStore, before: Blocks, blocks: Blocks, call: Call, w: Writer, p: nat)
    requires WriterOk(master, before, blocks, call, w) && p < |master.bytes| && Touches(call, p / BLOCK)
    ensures DiskOf(master, blocks)[p]
         == if InRange(Effective(call, w), p) then call.data[p - call.off] else DiskOf(master, before)[p]
  {
    TouchedByte(master, before, blocks, call, w, p / BLOCK, p % BLOCK);
  }

  lemma TouchedByte(master: BackingStore, before: Blocks, blocks: Blocks, call: Call, w: Writer, b: nat, x: nat)
    requires WriterOk(master, before, blocks, call, w) && Touches(call, b) && InDisk(|master.bytes|, b, x)
    ensures Cell(master, blocks, b, x) == Expect(master, before, call, |call.data| - |w.rest|, b, x)
  {
  }
}
