/** The LRU stack property of the shared cache (cache/mod.rs): a larger budget never loses a hit. */
module CacheTraces {
  import opened Bytes
  import opened Wrappers
  import opened Store
  import opened Volume
  import opened Cache

  lemma {:induction false} RemovePrefix(p: Entries, q: Entries, blk: nat)
    requires p <= q
    ensures Remove(p, blk) <= Remove(q, blk)
  {
    if p != [] {
      assert p[1..] <= q[1..];
      RemovePrefix(p[1..], q[1..], blk);
    }
  }

  /** Evicting to a smaller budget leaves a most-recently-used prefix of evicting to a larger one. */
  lemma EvictNests(p: Entries, q: Entries, small: nat, large: nat)
    requires p <= q && small <= large
    ensures Evict(p, small) <= Evict(q, large)
  {
    EvictPrefix(p, small);
    EvictIsLongest(q, large, Evict(p, small));
  }

  lemma PutNests(p: Entries, q: Entries, blk: nat, data: seq<byte>)
    requires p <= q
    ensures Put(p, blk, data) <= Put(q, blk, data)
  {
    RemovePrefix(p, q, blk);
  }

  /** One access keeps the smaller cache a prefix of the larger, and hits in it only if the larger hits. */
  lemma AccessNests(master: BackingStore, small: nat, large: nat, s: State, t: State, blk: nat)
    requires BLOCK <= small <= large && s.entries <= t.entries && s.hits <= t.hits
    requires Sound(master, small, s.entries) && Sound(master, large, t.entries)
    ensures var (s', t') := (Access(master, small, s, blk), Access(master, large, t, blk));
            s'.entries <= t'.entries && s'.hits <= t'.hits
    ensures Lookup(s.entries, blk).Some? ==> Lookup(t.entries, blk) == Lookup(s.entries, blk)
  {
    PrefixLookup(t.entries, s.entries, blk);
    if Lookup(t.entries, blk).Some? {
      var data := Lookup(t.entries, blk).value;
      LookupFaithful(master, t.entries, blk);
      PutNests(s.entries, t.entries, blk, data);
      EvictPrefix(Put(s.entries, blk, data), small);
    } else if MasterBlock(master, blk).Ok? {
      var data := MasterBlock(master, blk).value;
      PutNests(s.entries, t.entries, blk, data);
      EvictNests(Put(s.entries, blk, data), Put(t.entries, blk, data), small, large);
    }
  }

  /** Inclusion over any history of block accesses. */
  lemma {:induction false} ReplayNests(master: BackingStore, small: nat, large: nat, log: seq<nat>)
    requires BLOCK <= small <= large
    ensures Replay(master, small, log).entries <= Replay(master, large, log).entries
    ensures Replay(master, small, log).hits <= Replay(master, large, log).hits
  {
    if log != [] {
      var before := log[..|log| - 1];
      ReplayNests(master, small, large, before);
      ReplaySound(master, small, before);
      ReplaySound(master, large, before);
      AccessNests(master, small, large, Replay(master, small, before), Replay(master, large, before), log[|log| - 1]);
    }
  }

  /** The byte ranges of successive reads. */
  datatype Range = Range(off: nat, len: nat)

  predicate InRange(size: nat, trace: seq<Range>) {
    forall r :: r in trace ==> r.off + r.len <= size
  }

  /** The block accesses of a trace of reads: they do not depend on the budget. */
  function TraceLog(master: BackingStore, trace: seq<Range>): seq<nat>
    requires InRange(|master.bytes|, trace)
  {
    if trace == [] then []
    else
      var last := trace[|trace| - 1];
      VisitFrom(master, TraceLog(master, trace[..|trace| - 1]), last.off / BLOCK, last.off % BLOCK, last.len).log
  }

  /** Reading a whole trace through one cache leaves exactly the state of its block accesses. */
  method ReadTrace(store: CachedStore, trace: seq<Range>)
    requires store.Valid() && store.log == [] && InRange(|store.inner.bytes|, trace) && |store.inner.bytes| < U64_SPAN
    modifies store, store.lru
    ensures store.Valid() && store.log == TraceLog(store.inner, trace)
    ensures State(store.lru.entries, store.hits, store.misses) == Replay(store.inner, store.budget, TraceLog(store.inner, trace))
  {
    for i := 0 to |trace|
      invariant store.Valid() && store.log == TraceLog(store.inner, trace[..i])
    {
      var buf := new byte[trace[i].len](_ => 0);
      var r := store.ReadAt(trace[i].off, buf);
      assert trace[..i + 1][..i] == trace[..i];
    }
    assert trace[..|trace|] == trace;
  }

  lemma LookupOne(e: Entry, blk: nat)
    ensures Lookup([e], blk) == if e.blk == blk then Some(e.data) else None
    ensures Remove([e], blk) == if e.blk == blk then [] else [e]
  {
    assert [e][1..] == [];
  }

  /** A cache of one fitting block. */
  lemma FirstAccess(master: BackingStore, budget: nat, blk: nat)
    requires MasterBlock(master, blk).Ok? && |MasterBlock(master, blk).value| <= budget
    ensures Replay(master, budget, [blk]).entries == [Entry(blk, MasterBlock(master, blk).value)]
  {
    var data := MasterBlock(master, blk).value;
    ReplayNext(master, budget, [], blk);
    assert [] + [blk] == [blk];
    EvictKeepsNewest(Put([], blk, data), budget);
    EvictPrefix(Put([], blk, data), budget);
    assert Put([], blk, data) == [Entry(blk, data)];
  }

  // ----- budgets below one block -----

  /** The budgets for which inclusion holds on every store and every history. */
  predicate BudgetsNest(small: nat, large: nat) {
    small == 0 || BLOCK <= small || large < BLOCK
  }

  /** Below one block only the short tail block fits. */
  lemma HeadIsTail(master: BackingStore, es: Entries)
    requires Faithful(master, es) && Sum(es) < BLOCK && es != []
    ensures es[0].blk == |master.bytes| / BLOCK
  {
    assert EntryOk(master, es[0]) && |es[0].data| <= Sum(es);
  }

  /** So it alone is cached, if anything is. */
  lemma OnlyTheTail(master: BackingStore, budget: nat, es: Entries)
    requires budget < BLOCK && Sound(master, budget, es) && es != []
    ensures |es| == 1 && es[0].blk == |master.bytes| / BLOCK && EntryOk(master, es[0])
  {
    HeadIsTail(master, es);
    if |es| > 1 {
      HeadIsTail(master, es[1..]);
      assert false;
    }
  }

  /** One access under two budgets below a block keeps the smaller cache a prefix of the larger. */
  lemma TailNests(master: BackingStore, small: nat, large: nat, s: State, t: State, blk: nat)
    requires small <= large < BLOCK && s.entries <= t.entries
    requires Sound(master, small, s.entries) && Sound(master, large, t.entries)
    ensures Access(master, small, s, blk).entries <= Access(master, large, t, blk).entries
  {
    var s', t' := Access(master, small, s, blk), Access(master, large, t, blk);
    AccessKeepsSound(master, small, s, blk);
    AccessKeepsSound(master, large, t, blk);
    TailAccess(master, small, s, blk);
    TailAccess(master, large, t, blk);
    if s'.entries != [] {
      OnlyTheTail(master, small, s'.entries);
      OnlyTheTail(master, large, t'.entries);
    }
  }

  /** The tail block is cached after an access exactly if it was before, or is the block accessed and fits. */
  lemma TailAccess(master: BackingStore, budget: nat, s: State, blk: nat)
    requires budget < BLOCK && Sound(master, budget, s.entries)
    ensures var after := Access(master, budget, s, blk).entries;
            after != [] <==> s.entries != [] || (MasterBlock(master, blk).Ok? && |MasterBlock(master, blk).value| <= budget)
  {
    var full := MasterBlock(master, blk);
    if Lookup(s.entries, blk).None? && full.Ok? && |full.value| <= budget {
      EvictKeepsNewest(Put(s.entries, blk, full.value), budget);
    }
  }

  /** Inclusion over any history, whenever the budgets nest. */
  lemma {:induction false} BudgetsReplay(master: BackingStore, small: nat, large: nat, log: seq<nat>)
    requires small <= large && BudgetsNest(small, large)
    ensures Replay(master, small, log).entries <= Replay(master, large, log).entries
  {
    if BLOCK <= small {
      ReplayNests(master, small, large, log);
    } else if small == 0 {
      ReplaySound(master, 0, log);
      NothingFits(master, Replay(master, 0, log).entries);
    } else if log != [] {
      var before := log[..|log| - 1];
      BudgetsReplay(master, small, large, before);
      ReplaySound(master, small, before);
      ReplaySound(master, large, before);
      TailNests(master, small, large, Replay(master, small, before), Replay(master, large, before), log[|log| - 1]);
    }
  }

  /** Blocks are not empty, so without a budget none is cached. */
  lemma NothingFits(master: BackingStore, es: Entries)
    requires Sound(master, 0, es)
    ensures es == []
  {
    if es != [] {
      assert EntryOk(master, es[0]) && |es[0].data| <= Sum(es);
    }
  }

  // ----- any other pair of budgets loses a hit -----

  /** The tail block `n`, then the blocks `0` to `k - 1`. */
  function Sweep(n: nat, k: nat): seq<nat> {
    if k == 0 then [n] else Sweep(n, k - 1) + [k - 1]
  }

  /** A readable store of `n` whole blocks and one more byte. */
  predicate OneOver(m: BackingStore, n: nat) {
    |m.bytes| == n * BLOCK + 1 && m.faulty == {}
  }

  function DataOf(m: BackingStore, blk: nat): seq<byte> {
    match MasterBlock(m, blk)
    case Ok(data) => data
    case Err(_) => []
  }

  lemma StoreBlocks(m: BackingStore, n: nat, blk: nat)
    requires OneOver(m, n) && blk <= n
    ensures MasterBlock(m, blk) == Ok(DataOf(m, blk))
    ensures |DataOf(m, blk)| == if blk == n then 1 else BLOCK
  {
  }

  lemma SweepStart(m: BackingStore, budget: nat, n: nat)
    requires OneOver(m, n) && budget >= 1
    ensures Replay(m, budget, Sweep(n, 0)).entries == [Entry(n, DataOf(m, n))]
  {
    StoreBlocks(m, n, n);
    FirstAccess(m, budget, n);
  }

  lemma SweepNext(m: BackingStore, budget: nat, n: nat, k: nat)
    requires k > 0
    ensures Replay(m, budget, Sweep(n, k)) == Access(m, budget, Replay(m, budget, Sweep(n, k - 1)), k - 1)
  {
    ReplayNext(m, budget, Sweep(n, k - 1), k - 1);
  }

  lemma SmallStep(m: BackingStore, n: nat, k: nat, small: nat, s: State)
    requires OneOver(m, n) && 1 <= small < BLOCK && 0 < k <= n && s.entries == [Entry(n, DataOf(m, n))]
    ensures Access(m, small, s, k - 1).entries == s.entries
  {
    StoreBlocks(m, n, k - 1);
    LookupOne(Entry(n, DataOf(m, n)), k - 1);
  }

  /** Below a block the tail stays cached: the sweep's whole blocks do not fit. */
  lemma {:induction false} SmallKeepsTail(m: BackingStore, n: nat, k: nat, small: nat)
    requires OneOver(m, n) && 1 <= small < BLOCK && k <= n
    ensures Replay(m, small, Sweep(n, k)).entries == [Entry(n, DataOf(m, n))]
  {
    if k == 0 {
      SweepStart(m, small, n);
    } else {
      SmallKeepsTail(m, n, k - 1, small);
      SweepNext(m, small, n, k);
      SmallStep(m, n, k, small, Replay(m, small, Sweep(n, k - 1)));
    }
  }

  /** What an unbounded cache would hold after the sweep. */
  function Everything(m: BackingStore, n: nat, k: nat): Entries {
    if k == 0 then [Entry(n, DataOf(m, n))] else [Entry(k - 1, DataOf(m, k - 1))] + Everything(m, n, k - 1)
  }

  lemma {:induction false} AbsentAhead(m: BackingStore, n: nat, k: nat, p: Entries, blk: nat)
    requires k <= blk < n && p <= Everything(m, n, k)
    ensures Lookup(p, blk).None? && Remove(p, blk) == p
  {
    if p != [] {
      assert p[0] == Everything(m, n, k)[0];
      if k > 0 {
        assert p[1..] <= Everything(m, n, k - 1);
        AbsentAhead(m, n, k - 1, p[1..], blk);
      } else {
        assert p[1..] == [];
      }
    }
  }

  /** A miss puts its block ahead of what was there, and eviction only shortens that. */
  lemma MissAhead(master: BackingStore, budget: nat, s: State, all: Entries, blk: nat, data: seq<byte>)
    requires s.entries <= all && Lookup(s.entries, blk).None? && Remove(s.entries, blk) == s.entries
    requires MasterBlock(master, blk) == Ok(data) && |data| <= budget
    ensures Access(master, budget, s, blk).entries <= [Entry(blk, data)] + all
  {
    EvictPrefix(Put(s.entries, blk, data), budget);
  }

  lemma LargeStep(m: BackingStore, n: nat, k: nat, large: nat, s: State)
    requires OneOver(m, n) && BLOCK <= large && 0 < k <= n && s.entries <= Everything(m, n, k - 1)
    ensures Access(m, large, s, k - 1).entries <= Everything(m, n, k)
  {
    StoreBlocks(m, n, k - 1);
    AbsentAhead(m, n, k - 1, s.entries, k - 1);
    MissAhead(m, large, s, Everything(m, n, k - 1), k - 1, DataOf(m, k - 1));
  }

  lemma {:induction false} LargeHoldsRecent(m: BackingStore, n: nat, k: nat, large: nat)
    requires OneOver(m, n) && BLOCK <= large && k <= n
    ensures Replay(m, large, Sweep(n, k)).entries <= Everything(m, n, k)
  {
    if k == 0 {
      SweepStart(m, large, n);
    } else {
      LargeHoldsRecent(m, n, k - 1, large);
      SweepNext(m, large, n, k);
      LargeStep(m, n, k, large, Replay(m, large, Sweep(n, k - 1)));
    }
  }

  /** The tail is the oldest: whatever still holds it holds everything. */
  lemma {:induction false} TailIsLast(m: BackingStore, n: nat, k: nat, p: Entries)
    requires k <= n && p <= Everything(m, n, k) && Lookup(p, n).Some?
    ensures p == Everything(m, n, k)
  {
    if k > 0 {
      assert p[0] == Everything(m, n, k)[0] && p[1..] <= Everything(m, n, k - 1);
      TailIsLast(m, n, k - 1, p[1..]);
    }
  }

  lemma {:induction false} EverythingIsLarge(m: BackingStore, n: nat, k: nat)
    requires OneOver(m, n) && k <= n
    ensures Sum(Everything(m, n, k)) == k * BLOCK + 1
  {
    StoreBlocks(m, n, n);
    if k > 0 {
      StoreBlocks(m, n, k - 1);
      EverythingIsLarge(m, n, k - 1);
      assert Everything(m, n, k)[1..] == Everything(m, n, k - 1);
    } else {
      assert Everything(m, n, 0)[1..] == [];
    }
  }

  /** For any other budgets, sweeping a store larger than the larger cache evicts the tail there and not in the smaller. */
  lemma LosesHit(m: BackingStore, n: nat, small: nat, large: nat)
    requires small <= large && !BudgetsNest(small, large) && OneOver(m, n) && large <= n * BLOCK
    ensures var log := Sweep(n, n);
            && Lookup(Replay(m, small, log).entries, n).Some?
            && Lookup(Replay(m, large, log).entries, n).None?
  {
    var es := Replay(m, large, Sweep(n, n)).entries;
    SmallKeepsTail(m, n, n, small);
    LookupOne(Entry(n, DataOf(m, n)), n);
    LargeHoldsRecent(m, n, n, large);
    ReplaySound(m, large, Sweep(n, n));
    EverythingIsLarge(m, n, n);
    if Lookup(es, n).Some? {
      TailIsLast(m, n, n, es);
    }
  }

  /** For stores of up to `limit` bytes, the cache under the smaller budget is a most-recently-used prefix of the larger. */
  ghost predicate PrefixAlways(small: nat, large: nat, limit: nat) {
    forall master: BackingStore, log: seq<nat> :: |master.bytes| <= limit ==>
      Replay(master, small, log).entries <= Replay(master, large, log).entries
  }

  /** For stores of up to `limit` bytes, every access that hits under the smaller budget hits under the larger. */
  ghost predicate HitsAlways(small: nat, large: nat, limit: nat) {
    forall master: BackingStore, log: seq<nat>, blk: nat :: |master.bytes| <= limit ==>
      Lookup(Replay(master, small, log).entries, blk).Some? ==> Lookup(Replay(master, large, log).entries, blk).Some?
  }

  /**
   * LRU inclusion, exactly: over every store and history, the smaller cache is a most-recently-used
   * prefix of the larger, and every hit in it a hit in the larger, if and only if the smaller budget
   * is zero or at least a block, or both are below a block. No bound on the store's size changes this
   * as long as it admits one block more than the larger budget.
   */
  lemma InclusionIff(small: nat, large: nat, limit: nat)
    requires small <= large && large + BLOCK <= limit
    ensures PrefixAlways(small, large, limit) <==> BudgetsNest(small, large)
    ensures HitsAlways(small, large, limit) <==> BudgetsNest(small, large)
  {
    if BudgetsNest(small, large) {
      forall master: BackingStore, log: seq<nat>
        ensures Replay(master, small, log).entries <= Replay(master, large, log).entries
      {
        BudgetsReplay(master, small, large, log);
      }
    } else {
      var n: nat := (large + BLOCK - 1) / BLOCK;
      LosesHit(BackingStore(Zeros(n * BLOCK + 1), {}), n, small, large);
    }
    if PrefixAlways(small, large, limit) {
      PrefixGivesHits(small, large, limit);
    }
  }

  lemma PrefixGivesHits(small: nat, large: nat, limit: nat)
    requires PrefixAlways(small, large, limit)
    ensures HitsAlways(small, large, limit)
  {
    forall master: BackingStore, log: seq<nat>, blk: nat | |master.bytes| <= limit && Lookup(Replay(master, small, log).entries, blk).Some?
      ensures Lookup(Replay(master, large, log).entries, blk).Some?
    {
      PrefixLookup(Replay(master, large, log).entries, Replay(master, small, log).entries, blk);
    }
  }

  /**
   * Inclusion on any read trace, multi-block reads and the short tail block included, whenever the
   * budgets nest: the cache is a most-recently-used prefix of the cache under the larger budget, and
   * every access that hits in it hits there.
   */
  lemma TraceInclusion(master: BackingStore, small: nat, large: nat, trace: seq<Range>, i: nat)
    requires InRange(|master.bytes|, trace) && small <= large && BudgetsNest(small, large) && i < |TraceLog(master, trace)|
    ensures Replay(master, small, TraceLog(master, trace)).entries <= Replay(master, large, TraceLog(master, trace)).entries
    ensures var log := TraceLog(master, trace);
            Lookup(Replay(master, small, log[..i]).entries, log[i]).Some?
            ==> Lookup(Replay(master, large, log[..i]).entries, log[i]).Some?
  {
    var log := TraceLog(master, trace);
    BudgetsReplay(master, small, large, log);
    BudgetsReplay(master, small, large, log[..i]);
    PrefixLookup(Replay(master, large, log[..i]).entries, Replay(master, small, log[..i]).entries, log[i]);
  }

  /**
   * The smallest instance of `LosesHit`: a budget below one block skips full blocks, so a cached tail
   * block outlives its copy in a cache of one block.
   */
  lemma SmallBudgetCanHitMore(master: BackingStore)
    requires |master.bytes| == BLOCK + 1 && master.faulty == {}
    ensures Lookup(Replay(master, 1, [1, 0]).entries, 1).Some?
    ensures Lookup(Replay(master, BLOCK, [1, 0]).entries, 1).None?
  {
    var tail, full := MasterBlock(master, 1).value, MasterBlock(master, 0).value;
    assert [1] + [0] == [1, 0];
    FirstAccess(master, 1, 1);
    ReplayNext(master, 1, [1], 0);
    FirstAccess(master, BLOCK, 1);
    ReplayNext(master, BLOCK, [1], 0);
    var both := Put([Entry(1, tail)], 0, full);
    LookupOne(Entry(1, tail), 0);
    LookupOne(Entry(1, tail), 1);
    LookupOne(Entry(0, full), 1);
    assert both == [Entry(0, full), Entry(1, tail)];
    EvictKeepsNewest(both, BLOCK);
    EvictPrefix(both, BLOCK);
    SumDropLast(both);
    assert both[..1] == [Entry(0, full)];
    SumDropLast(both[..1]);
  }
}
