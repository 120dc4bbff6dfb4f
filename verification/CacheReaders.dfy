/**
 * Concurrent readers of one shared cache (cache/mod.rs). The lock is held for a lookup and for an
 * insertion, never across the disk read between them, so any other steps may run in the gap.
 */
module CacheReaders {
  import opened Bytes
  import opened Wrappers
  import opened Store
  import opened Volume
  import opened Cache
  import opened Schedules

  /** Where a reader is in its block loop: before a lookup, before the disk read, before an insertion. */
  datatype Phase = Ready | Missed | Fetched(blk: nat, full: seq<byte>) | Failed

  /** A reader of `len` bytes at `off`, with the bytes it has received so far. */
  datatype Reader = Reader(off: nat, len: nat, out: seq<byte>, phase: Phase)

  /** What the mutex protects. */
  datatype Shared = Shared(entries: Entries, currentBytes: int)

  datatype System = System(cache: Shared, readers: seq<Reader>)

  /** The eviction loop, driven by the byte counter as in the source. */
  function EvictCounted(c: Shared, budget: nat): Shared
    decreases |c.entries|
  {
    if c.currentBytes <= budget || c.entries == [] then c
    else
      var last := |c.entries| - 1;
      EvictCounted(Shared(c.entries[..last], c.currentBytes - |c.entries[last].data|), budget)
  }

  function InsertCounted(c: Shared, blk: nat, data: seq<byte>, budget: nat): Shared {
    var replaced := match Lookup(c.entries, blk) case Some(d) => |d| case None => 0;
    EvictCounted(Shared(Put(c.entries, blk, data), c.currentBytes - replaced + |data|), budget)
  }

  /** The reader after copying its share of the block it is in. */
  function Copied(size: nat, r: Reader, block: seq<byte>, phase: Phase): Reader
    requires |r.out| < r.len && r.off + r.len <= size
    requires |block| == BlockLen(size, (r.off + |r.out|) / BLOCK)
  {
    var pos := r.off + |r.out|;
    var take := TakeOf(size, pos / BLOCK, pos % BLOCK, r.len - |r.out|);
    Reader(r.off, r.len, r.out + block[pos % BLOCK..pos % BLOCK + take], phase)
  }

  /** The next atomic step of one reader; nothing if it is done or has failed. */
  function ReaderStep(master: BackingStore, budget: nat, c: Shared, r: Reader): (Shared, Reader)
    requires ReaderOk(master, budget, r) && Sound(master, budget, c.entries)
  {
    var blk := (r.off + |r.out|) / BLOCK;
    match r.phase
    case Ready =>
      if |r.out| == r.len then (c, r)
      else (
        match Lookup(c.entries, blk)
        case None => (c, r.(phase := Missed))
        case Some(data) =>
          LookupFaithful(master, c.entries, blk);
          (c.(entries := Put(c.entries, blk, data)), Copied(|master.bytes|, r, data, Ready))
      )
    case Missed => (
      match MasterBlock(master, blk)
      case Err(_) => (c, r.(phase := Phase.Failed))
      case Ok(full) => (c, Copied(|master.bytes|, r, full, AfterFetch(budget, blk, full)))
    )
    case Fetched(b, full) => (InsertCounted(c, b, full, budget), r.(phase := Ready))
    case Failed => (c, r)
  }

  /** A reader holds a prefix of the master's bytes for its range; it fails only on an unreadable block. */
  predicate ReaderOk(master: BackingStore, budget: nat, r: Reader) {
    && r.off + r.len <= |master.bytes| && |r.out| <= r.len
    && r.out == master.bytes[r.off..r.off + |r.out|]
    && (r.phase.Missed? ==> |r.out| < r.len)
    && (r.phase.Fetched? ==> MasterBlock(master, r.phase.blk) == Ok(r.phase.full) && |r.phase.full| <= budget)
    && (r.phase.Failed? ==> |r.out| < r.len && MasterBlock(master, (r.off + |r.out|) / BLOCK).Err?)
  }

  /** The byte counter is the sum of the cached lengths, within budget; every cached block is the master's. */
  predicate CacheOk(master: BackingStore, budget: nat, c: Shared) {
    c.currentBytes == Sum(c.entries) && Sound(master, budget, c.entries)
  }

  lemma {:induction false} EvictCountedIsEvict(c: Shared, budget: nat)
    requires c.currentBytes == Sum(c.entries)
    ensures EvictCounted(c, budget) == Shared(Evict(c.entries, budget), Sum(Evict(c.entries, budget)))
    decreases |c.entries|
  {
    if c.currentBytes > budget {
      var last := |c.entries| - 1;
      SumDropLast(c.entries);
      EvictCountedIsEvict(Shared(c.entries[..last], c.currentBytes - |c.entries[last].data|), budget);
    }
  }

  /** Inserting a readable block keeps the accounting exact, and the block survives its own eviction loop. */
  lemma InsertKeeps(master: BackingStore, budget: nat, c: Shared, blk: nat, data: seq<byte>)
    requires CacheOk(master, budget, c) && MasterBlock(master, blk) == Ok(data) && |data| <= budget
    ensures var after := InsertCounted(c, blk, data, budget);
            CacheOk(master, budget, after) && after.entries != [] && after.entries[0] == Entry(blk, data)
  {
    var all := Put(c.entries, blk, data);
    PutSum(c.entries, blk, data);
    PutFaithful(master, c.entries, blk, data);
    PutDistinct(c.entries, blk, data);
    var replaced := match Lookup(c.entries, blk) case Some(d) => |d| case None => 0;
    EvictCountedIsEvict(Shared(all, c.currentBytes - replaced + |data|), budget);
    EvictPrefix(all, budget);
    EvictKeepsNewest(all, budget);
    PrefixFaithful(master, all, Evict(all, budget));
    PrefixDistinct(all, Evict(all, budget));
  }

  lemma HitKeeps(master: BackingStore, budget: nat, c: Shared, blk: nat)
    requires CacheOk(master, budget, c) && Lookup(c.entries, blk).Some?
    ensures CacheOk(master, budget, c.(entries := Put(c.entries, blk, Lookup(c.entries, blk).value)))
  {
    var data := Lookup(c.entries, blk).value;
    LookupFaithful(master, c.entries, blk);
    PutFaithful(master, c.entries, blk, data);
    PutDistinct(c.entries, blk, data);
    PutSum(c.entries, blk, data);
  }

  lemma CopyExtends(d: seq<byte>, off: nat, pos: nat, b: nat, x: nat, block: seq<byte>, take: nat)
    requires off <= pos == b * BLOCK + x && x + take <= |block| && b * BLOCK + |block| <= |d|
    requires block == d[b * BLOCK..b * BLOCK + |block|]
    ensures d[off..pos] + block[x..x + take] == d[off..pos + take]
  {
    SliceOfSlice(d, b * BLOCK, |block|, x, take);
    JoinSlices(d, off, pos, pos + take);
  }

  lemma CopiedAt(size: nat, r: Reader, block: seq<byte>, phase: Phase, b: nat, x: nat)
    requires |r.out| < r.len && r.off + r.len <= size && x < BLOCK && r.off + |r.out| == b * BLOCK + x
    requires |block| == BlockLen(size, b)
    ensures (r.off + |r.out|) / BLOCK == b && (r.off + |r.out|) % BLOCK == x
    ensures var take := TakeOf(size, b, x, r.len - |r.out|);
            Copied(size, r, block, phase) == Reader(r.off, r.len, r.out + block[x..x + take], phase)
  {
    BlockAndByte(r.off + |r.out|, b, x);
  }

  /** Copying from the master's block extends the prefix the reader holds. */
  lemma CopyKeeps(master: BackingStore, budget: nat, r: Reader, block: seq<byte>, phase: Phase)
    requires ReaderOk(master, budget, r) && |r.out| < r.len
    requires MasterBlock(master, (r.off + |r.out|) / BLOCK) == Ok(block)
    requires phase.Ready? || (phase == Fetched((r.off + |r.out|) / BLOCK, block) && |block| <= budget)
    ensures ReaderOk(master, budget, Copied(|master.bytes|, r, block, phase))
    ensures |Copied(|master.bytes|, r, block, phase).out| > |r.out|
  {
    CopyKeepsAt(master, budget, r, block, phase, (r.off + |r.out|) / BLOCK, (r.off + |r.out|) % BLOCK);
  }

  lemma CopyKeepsAt(master: BackingStore, budget: nat, r: Reader, block: seq<byte>, phase: Phase, b: nat, x: nat)
    requires ReaderOk(master, budget, r) && |r.out| < r.len && x < BLOCK && r.off + |r.out| == b * BLOCK + x
    requires MasterBlock(master, b) == Ok(block)
    requires phase.Ready? || (phase == Fetched(b, block) && |block| <= budget)
    ensures |block| == BlockLen(|master.bytes|, (r.off + |r.out|) / BLOCK)
    ensures var after := Copied(|master.bytes|, r, block, phase);
            ReaderOk(master, budget, after) && |after.out| > |r.out|
  {
    CopiedAt(|master.bytes|, r, block, phase, b, x);
    CopyExtends(master.bytes, r.off, r.off + |r.out|, b, x, block, TakeOf(|master.bytes|, b, x, r.len - |r.out|));
  }

  predicate Stopped(r: Reader) {
    r.phase.Failed? || (r.phase.Ready? && |r.out| == r.len)
  }

  /** The steps a reader still needs at most: three for each byte not yet received, less what its phase has done. */
  function StepsLeft(r: Reader): int {
    if r.phase.Failed? then 0
    else 3 * (r.len - |r.out|) + (match r.phase case Fetched(_, _) => 1 case Missed => -1 case _ => 0)
  }

  /** Cache and reader are as they should be, and the reader has moved on unless it had stopped. */
  predicate MovedOn(master: BackingStore, budget: nat, r: Reader, after: (Shared, Reader)) {
    && CacheOk(master, budget, after.0) && ReaderOk(master, budget, after.1) && SameRange(after.1, r)
    && 0 <= StepsLeft(after.1) && (if Stopped(r) then after.1 == r else StepsLeft(after.1) < StepsLeft(r))
  }

  predicate SameRange(a: Reader, b: Reader) {
    a.off == b.off && a.len == b.len
  }

  lemma CopyMovesOn(master: BackingStore, budget: nat, c: Shared, r: Reader, block: seq<byte>, phase: Phase)
    requires CacheOk(master, budget, c) && ReaderOk(master, budget, r) && |r.out| < r.len && (r.phase.Ready? || r.phase.Missed?)
    requires MasterBlock(master, (r.off + |r.out|) / BLOCK) == Ok(block)
    requires phase.Ready? || (phase == Fetched((r.off + |r.out|) / BLOCK, block) && |block| <= budget)
    ensures MovedOn(master, budget, r, (c, Copied(|master.bytes|, r, block, phase)))
  {
    CopyKeeps(master, budget, r, block, phase);
  }

  lemma ReadyKeeps(master: BackingStore, budget: nat, c: Shared, r: Reader)
    requires CacheOk(master, budget, c) && ReaderOk(master, budget, r) && r.phase.Ready?
    ensures MovedOn(master, budget, r, ReaderStep(master, budget, c, r))
  {
    var blk := (r.off + |r.out|) / BLOCK;
    if |r.out| < r.len && Lookup(c.entries, blk).Some? {
      LookupFaithful(master, c.entries, blk);
      var data := Lookup(c.entries, blk).value;
      HitKeeps(master, budget, c, blk);
      CopyMovesOn(master, budget, c.(entries := Put(c.entries, blk, data)), r, data, Ready);
    }
  }

  lemma MissedKeeps(master: BackingStore, budget: nat, c: Shared, r: Reader)
    requires CacheOk(master, budget, c) && ReaderOk(master, budget, r) && r.phase.Missed?
    ensures MovedOn(master, budget, r, ReaderStep(master, budget, c, r))
  {
    match MasterBlock(master, (r.off + |r.out|) / BLOCK) {
      case Err(_) =>
      case Ok(full) => FetchedMovesOn(master, budget, c, r, full);
    }
  }

  lemma FetchedMovesOn(master: BackingStore, budget: nat, c: Shared, r: Reader, full: seq<byte>)
    requires CacheOk(master, budget, c) && ReaderOk(master, budget, r) && r.phase.Missed?
    requires MasterBlock(master, (r.off + |r.out|) / BLOCK) == Ok(full)
    ensures MovedOn(master, budget, r, ReaderStep(master, budget, c, r))
  {
    MissedStep(master, budget, c, r, full);
    CopyMovesOn(master, budget, c, r, full, AfterFetch(budget, (r.off + |r.out|) / BLOCK, full));
  }

  /** A block over the whole budget is never cached. */
  function AfterFetch(budget: nat, blk: nat, full: seq<byte>): Phase {
    if |full| <= budget then Fetched(blk, full) else Ready
  }

  lemma MissedStep(master: BackingStore, budget: nat, c: Shared, r: Reader, full: seq<byte>)
    requires ReaderOk(master, budget, r) && Sound(master, budget, c.entries) && r.phase.Missed?
    requires MasterBlock(master, (r.off + |r.out|) / BLOCK) == Ok(full)
    ensures ReaderStep(master, budget, c, r) == (c, Copied(|master.bytes|, r, full, AfterFetch(budget, (r.off + |r.out|) / BLOCK, full)))
  {
  }

  lemma ReaderStepKeeps(master: BackingStore, budget: nat, c: Shared, r: Reader)
    requires CacheOk(master, budget, c) && ReaderOk(master, budget, r)
    ensures MovedOn(master, budget, r, ReaderStep(master, budget, c, r))
    ensures r.phase.Fetched? ==> var c' := ReaderStep(master, budget, c, r).0;
                                 c'.entries != [] && c'.entries[0] == Entry(r.phase.blk, r.phase.full)
  {
    match r.phase {
      case Ready => ReadyKeeps(master, budget, c, r);
      case Missed => MissedKeeps(master, budget, c, r);
      case Fetched(b, full) => InsertKeeps(master, budget, c, b, full);
      case Failed =>
    }
  }

  // ----- any number of readers, scheduled in any order -----

  predicate SystemOk(master: BackingStore, budget: nat, s: System) {
    CacheOk(master, budget, s.cache) && forall i :: 0 <= i < |s.readers| ==> ReaderOk(master, budget, s.readers[i])
  }

  function Step(master: BackingStore, budget: nat, s: System, i: nat): System
    requires SystemOk(master, budget, s) && i < |s.readers|
  {
    var (c, r) := ReaderStep(master, budget, s.cache, s.readers[i]);
    System(c, s.readers[i := r])
  }

  function Run(master: BackingStore, budget: nat, s: System, schedule: seq<nat>): System
    requires SystemOk(master, budget, s) && Fits(schedule, |s.readers|)
    decreases |schedule|
  {
    if schedule == [] then s
    else
      ReaderStepKeeps(master, budget, s.cache, s.readers[schedule[0]]);
      Run(master, budget, Step(master, budget, s, schedule[0]), schedule[1..])
  }

  /** One step keeps the invariants; only the reader it belongs to moves, and if it moves it has fewer steps left. */
  lemma StepKeeps(master: BackingStore, budget: nat, s: System, k: nat)
    requires SystemOk(master, budget, s) && k < |s.readers|
    ensures var t := Step(master, budget, s, k);
            && SystemOk(master, budget, t) && |t.readers| == |s.readers|
            && (forall i :: 0 <= i < |s.readers| && i != k ==> t.readers[i] == s.readers[i])
            && MovedOn(master, budget, s.readers[k], (t.cache, t.readers[k]))
  {
    ReaderStepKeeps(master, budget, s.cache, s.readers[k]);
  }

  /** Every reachable state keeps the cache exact, within budget and faithful, and every reader on the master's bytes. */
  lemma {:induction false} RunKeeps(master: BackingStore, budget: nat, s: System, schedule: seq<nat>)
    requires SystemOk(master, budget, s) && Fits(schedule, |s.readers|)
    ensures var end := Run(master, budget, s, schedule);
            && SystemOk(master, budget, end) && |end.readers| == |s.readers|
            && forall i :: 0 <= i < |s.readers| ==> SameRange(end.readers[i], s.readers[i])
    decreases |schedule|
  {
    if schedule != [] {
      StepKeeps(master, budget, s, schedule[0]);
      RunKeeps(master, budget, Step(master, budget, s, schedule[0]), schedule[1..]);
    }
  }

  function Start(ranges: seq<(nat, nat)>): System {
    System(Shared([], 0), seq(|ranges|, i requires 0 <= i < |ranges| => Reader(ranges[i].0, ranges[i].1, [], Ready)))
  }

  /**
   * The cache is invisible: whatever the schedule, a reader that has received all its bytes has the
   * master's, and a reader has failed only if the master cannot supply the block it is in.
   */
  lemma ReadersSeeTheMaster(master: BackingStore, budget: nat, ranges: seq<(nat, nat)>, schedule: seq<nat>, i: nat)
    requires forall k :: 0 <= k < |ranges| ==> ranges[k].0 + ranges[k].1 <= |master.bytes|
    requires Fits(schedule, |ranges|) && i < |ranges|
    ensures SystemOk(master, budget, Start(ranges))
    ensures var end := Run(master, budget, Start(ranges), schedule);
            && CacheOk(master, budget, end.cache) && i < |end.readers|
            && var r, (off, len) := end.readers[i], ranges[i];
               && (|r.out| == len ==> r.out == master.bytes[off..off + len])
               && (r.phase.Failed? ==> |r.out| < len && MasterBlock(master, (off + |r.out|) / BLOCK).Err?)
  {
    assert SystemOk(master, budget, Start(ranges));
    RunKeeps(master, budget, Start(ranges), schedule);
  }

  /** A reader that takes no step has stopped; one with no steps left too. */
  lemma StuckIsStopped(master: BackingStore, budget: nat, s: System, i: nat)
    requires SystemOk(master, budget, s) && i < |s.readers|
    ensures Step(master, budget, s, i).readers[i] == s.readers[i] ==> Stopped(s.readers[i])
    ensures Stopped(s.readers[i]) <==> StepsLeft(s.readers[i]) == 0
    ensures Stopped(s.readers[i]) ==> Step(master, budget, s, i).readers[i] == s.readers[i]
  {
    ReaderStepKeeps(master, budget, s.cache, s.readers[i]);
  }

  /** Steps of one reader make progress whatever the others do: it stops within `3 * len` of its own steps. */
  lemma {:induction false} ReaderStops(master: BackingStore, budget: nat, s: System, schedule: seq<nat>, i: nat)
    requires SystemOk(master, budget, s) && i < |s.readers| && Fits(schedule, |s.readers|)
    requires Turns(schedule, i) >= StepsLeft(s.readers[i])
    ensures |Run(master, budget, s, schedule).readers| == |s.readers|
    ensures Stopped(Run(master, budget, s, schedule).readers[i])
    decreases |schedule|
  {
    if schedule != [] {
      var k := schedule[0];
      StepKeeps(master, budget, s, k);
      StuckIsStopped(master, budget, s, i);
      ReaderStops(master, budget, Step(master, budget, s, k), schedule[1..], i);
    }
  }
}
