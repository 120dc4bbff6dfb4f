/** The shared, byte-budgeted LRU cache of master blocks (cache/mod.rs). */
module Cache {
  import opened Bytes
  import opened Wrappers
  import opened Store
  import opened Volume

  datatype Entry = Entry(blk: nat, data: seq<byte>)

  /** A recency-ordered cache: the most recently used entry comes first. */
  type Entries = seq<Entry>

  function Sum(es: Entries): nat {
    if es == [] then 0 else |es[0].data| + Sum(es[1..])
  }

  function Lookup(es: Entries, blk: nat): Option<seq<byte>> {
    if es == [] then None
    else if es[0].blk == blk then Some(es[0].data)
    else Lookup(es[1..], blk)
  }

  /** `es` without its entry for `blk`. */
  function Remove(es: Entries, blk: nat): Entries {
    if es == [] then []
    else if es[0].blk == blk then es[1..]
    else [es[0]] + Remove(es[1..], blk)
  }

  /** `LruCache::put`: the entry becomes the most recent one. */
  function Put(es: Entries, blk: nat, data: seq<byte>): Entries {
    [Entry(blk, data)] + Remove(es, blk)
  }

  /** The eviction loop: drop least recent entries until the budget holds. */
  function Evict(es: Entries, budget: nat): Entries {
    if Sum(es) <= budget then es else Evict(es[..|es| - 1], budget)
  }

  /** No block is cached twice. */
  predicate Distinct(es: Entries) {
    es == [] || (Lookup(es[1..], es[0].blk).None? && Distinct(es[1..]))
  }

  lemma {:induction false} LookupRemoved(es: Entries, blk: nat, other: nat)
    requires Distinct(es)
    ensures Lookup(Remove(es, blk), other) == if other == blk then None else Lookup(es, other)
  {
    if es != [] && es[0].blk != blk {
      LookupRemoved(es[1..], blk, other);
      assert Remove(es, blk)[1..] == Remove(es[1..], blk);
    }
  }

  /** Only the block's own entry goes; the others keep their order. */
  lemma {:induction false} RemoveAt(es: Entries, blk: nat) returns (i: nat)
    ensures i <= |es| && forall j :: 0 <= j < i ==> es[j].blk != blk
    ensures i < |es| ==> es[i].blk == blk && Lookup(es, blk) == Some(es[i].data) && Remove(es, blk) == es[..i] + es[i + 1..]
    ensures i == |es| ==> Lookup(es, blk).None? && Remove(es, blk) == es
  {
    if es == [] || es[0].blk == blk {
      i := 0;
    } else {
      var k := RemoveAt(es[1..], blk);
      i := k + 1;
      if k < |es[1..]| {
        assert [es[0]] + (es[1..][..k] + es[1..][k + 1..]) == es[..i] + es[i + 1..];
      }
    }
  }

  lemma {:induction false} RemoveDistinct(es: Entries, blk: nat)
    requires Distinct(es)
    ensures Distinct(Remove(es, blk))
  {
    if es != [] && es[0].blk != blk {
      RemoveDistinct(es[1..], blk);
      LookupRemoved(es[1..], blk, es[0].blk);
      assert Remove(es, blk)[1..] == Remove(es[1..], blk);
    }
  }

  lemma PutDistinct(es: Entries, blk: nat, data: seq<byte>)
    requires Distinct(es)
    ensures Distinct(Put(es, blk, data))
  {
    RemoveDistinct(es, blk);
    LookupRemoved(es, blk, blk);
    assert Put(es, blk, data)[1..] == Remove(es, blk);
  }

  lemma {:induction false} PrefixDistinct(es: Entries, p: Entries)
    requires Distinct(es) && p <= es
    ensures Distinct(p)
  {
    if p != [] {
      assert p[1..] <= es[1..];
      PrefixDistinct(es[1..], p[1..]);
      PrefixLookup(es[1..], p[1..], p[0].blk);
    }
  }

  lemma {:induction false} PrefixLookup(es: Entries, p: Entries, blk: nat)
    requires p <= es
    ensures Lookup(p, blk).Some? ==> Lookup(p, blk) == Lookup(es, blk)
  {
    if p != [] {
      assert p[1..] <= es[1..];
      PrefixLookup(es[1..], p[1..], blk);
    }
  }

  lemma {:induction false} EvictPrefix(es: Entries, budget: nat)
    ensures Evict(es, budget) <= es
    ensures Sum(Evict(es, budget)) <= budget
  {
    if Sum(es) > budget {
      EvictPrefix(es[..|es| - 1], budget);
    }
  }

  lemma {:induction false} SumDropLast(es: Entries)
    requires es != []
    ensures Sum(es) == Sum(es[..|es| - 1]) + |es[|es| - 1].data|
  {
    if |es| > 1 {
      SumDropLast(es[1..]);
      assert es[1..][..|es| - 2] == es[..|es| - 1][1..];
    }
  }

  lemma {:induction false} RemoveSum(es: Entries, blk: nat)
    ensures Sum(es) == Sum(Remove(es, blk)) + match Lookup(es, blk) case Some(d) => |d| case None => 0
  {
    if es != [] && es[0].blk != blk {
      RemoveSum(es[1..], blk);
      assert Remove(es, blk)[1..] == Remove(es[1..], blk);
    }
  }

  lemma PutSum(es: Entries, blk: nat, data: seq<byte>)
    ensures Sum(Put(es, blk, data)) + (match Lookup(es, blk) case Some(d) => |d| case None => 0) == Sum(es) + |data|
  {
    RemoveSum(es, blk);
    assert Put(es, blk, data)[1..] == Remove(es, blk);
  }

  /** A block that fits the budget survives the eviction loop its own insertion runs. */
  lemma {:induction false} EvictKeepsNewest(es: Entries, budget: nat)
    requires es != [] && |es[0].data| <= budget
    ensures Evict(es, budget) != [] && Evict(es, budget)[0] == es[0]
  {
    if |es| == 1 {
      assert Sum(es[1..]) == 0;
    } else if Sum(es) > budget {
      EvictKeepsNewest(es[..|es| - 1], budget);
    }
  }

  /** Eviction keeps the longest most-recent run that fits. */
  lemma {:induction false} EvictIsLongest(es: Entries, budget: nat, p: Entries)
    requires p <= es && Sum(p) <= budget
    ensures p <= Evict(es, budget)
  {
    if Sum(es) > budget {
      assert p != es;
      EvictIsLongest(es[..|es| - 1], budget, p);
    }
  }

  // ----- the mutex-protected state -----

  class LruState {
    var entries: Entries
    var currentBytes: nat

    ghost predicate Valid()
      reads this
    {
      Distinct(entries) && currentBytes == Sum(entries)
    }

    constructor ()
      ensures Valid() && entries == [] && currentBytes == 0
    {
      entries, currentBytes := [], 0;
    }

    /** `LruCache::get`: a hit becomes the most recent entry. */
    method Get(blk: nat) returns (r: Option<seq<byte>>)
      requires Valid()
      modifies this
      ensures Valid()
      ensures r == Lookup(old(entries), blk)
      ensures entries == if r.Some? then Put(old(entries), blk, r.value) else old(entries)
      ensures currentBytes == old(currentBytes)
    {
      r := Lookup(entries, blk);
      if r.Some? {
        PutDistinct(entries, blk, r.value);
        PutSum(entries, blk, r.value);
        entries := Put(entries, blk, r.value);
      }
    }

    /** `LruState::insert`. */
    method Insert(blk: nat, data: seq<byte>, budget: nat)
      requires Valid()
      modifies this
      ensures Valid()
      ensures entries == Evict(Put(old(entries), blk, data), budget)
      ensures currentBytes <= budget
      ensures |data| <= budget ==> entries != [] && entries[0] == Entry(blk, data)
    {
      var replaced := Lookup(entries, blk);
      ghost var all := Put(entries, blk, data);
      PutDistinct(entries, blk, data);
      PutSum(entries, blk, data);
      entries := Put(entries, blk, data);
      if replaced.Some? {
        currentBytes := currentBytes - |replaced.value|;
      }
      currentBytes := currentBytes + |data|;
      while currentBytes > budget
        invariant Valid() && Evict(entries, budget) == Evict(all, budget)
        decreases |entries|
      {
        if entries == [] {
          break;
        }
        SumDropLast(entries);
        PrefixDistinct(entries, entries[..|entries| - 1]);
        currentBytes := currentBytes - |entries[|entries| - 1].data|;
        entries := entries[..|entries| - 1];
      }
      EvictPrefix(all, budget);
      if |data| <= budget {
        EvictKeepsNewest(all, budget);
      }
    }
  }

  // ----- reads through the cache -----

  /** A cached block is a readable block of the master. */
  predicate EntryOk(master: BackingStore, e: Entry) {
    MasterBlock(master, e.blk) == Ok(e.data)
  }

  predicate Faithful(master: BackingStore, es: Entries) {
    es == [] || (EntryOk(master, es[0]) && Faithful(master, es[1..]))
  }

  lemma {:induction false} LookupFaithful(master: BackingStore, es: Entries, blk: nat)
    requires Faithful(master, es) && Lookup(es, blk).Some?
    ensures EntryOk(master, Entry(blk, Lookup(es, blk).value))
  {
    if es[0].blk != blk {
      LookupFaithful(master, es[1..], blk);
    }
  }

  lemma {:induction false} RemoveFaithful(master: BackingStore, es: Entries, blk: nat)
    requires Faithful(master, es)
    ensures Faithful(master, Remove(es, blk))
  {
    if es != [] && es[0].blk != blk {
      RemoveFaithful(master, es[1..], blk);
      assert Remove(es, blk)[1..] == Remove(es[1..], blk);
    }
  }

  lemma {:induction false} PrefixFaithful(master: BackingStore, es: Entries, p: Entries)
    requires Faithful(master, es) && p <= es
    ensures Faithful(master, p)
  {
    if p != [] {
      assert p[1..] <= es[1..];
      PrefixFaithful(master, es[1..], p[1..]);
    }
  }

  lemma PutFaithful(master: BackingStore, es: Entries, blk: nat, data: seq<byte>)
    requires Faithful(master, es) && EntryOk(master, Entry(blk, data))
    ensures Faithful(master, Put(es, blk, data))
  {
    RemoveFaithful(master, es, blk);
    assert Put(es, blk, data)[1..] == Remove(es, blk);
  }

  datatype State = State(entries: Entries, hits: nat, misses: nat)

  const EMPTY: State := State([], 0, 0)

  /** One block access: a hit refreshes; a miss reads the whole block and caches it if it fits. */
  function Access(master: BackingStore, budget: nat, s: State, blk: nat): State {
    match Lookup(s.entries, blk)
    case Some(data) => State(Put(s.entries, blk, data), s.hits + 1, s.misses)
    case None =>
      match MasterBlock(master, blk)
      case Err(_) => State(s.entries, s.hits, s.misses + 1)
      case Ok(full) =>
        State(if |full| <= budget then Evict(Put(s.entries, blk, full), budget) else s.entries, s.hits, s.misses + 1)
  }

  /** The whole block, as a miss reads it. */
  function MasterBlock(master: BackingStore, blk: nat): Result<seq<byte>, IoError> {
    if blk * BLOCK < |master.bytes| then master.Read(blk * BLOCK, BlockLen(|master.bytes|, blk)) else Err(ReadFault)
  }

  /** The cache after a history of block accesses. */
  function Replay(master: BackingStore, budget: nat, log: seq<nat>): State {
    if log == [] then EMPTY
    else Access(master, budget, Replay(master, budget, log[..|log| - 1]), log[|log| - 1])
  }

  predicate Holds(es: Entries, blk: nat) {
    exists i :: 0 <= i < |es| && es[i].blk == blk
  }

  lemma HoldsIff(es: Entries, blk: nat)
    ensures Lookup(es, blk).Some? <==> Holds(es, blk)
  {
    var i := RemoveAt(es, blk);
  }

  /** How many accesses of the history find their block cached at the time. */
  function Found(master: BackingStore, budget: nat, log: seq<nat>): nat {
    if log == [] then 0
    else
      var before := log[..|log| - 1];
      Found(master, budget, before) + if Holds(Replay(master, budget, before).entries, log[|log| - 1]) then 1 else 0
  }

  /** The statistics count every access once: as a hit if its block was cached, else as a miss. */
  lemma {:induction false} HitsAreFound(master: BackingStore, budget: nat, log: seq<nat>)
    ensures Replay(master, budget, log).hits == Found(master, budget, log)
    ensures Replay(master, budget, log).hits + Replay(master, budget, log).misses == |log|
  {
    if log != [] {
      HitsAreFound(master, budget, log[..|log| - 1]);
      HoldsIff(Replay(master, budget, log[..|log| - 1]).entries, log[|log| - 1]);
    }
  }

  lemma ReplayNext(master: BackingStore, budget: nat, log: seq<nat>, blk: nat)
    ensures Replay(master, budget, log + [blk]) == Access(master, budget, Replay(master, budget, log), blk)
  {
    assert (log + [blk])[..|log|] == log;
  }

  /** The blocks a read of `len` bytes from byte `within` of block `blk` on touches, in order. */
  function Touched(size: nat, blk: nat, within: nat, len: nat): (bs: seq<nat>)
    requires RangeOk(size, blk, within, len)
    decreases len
  {
    if len == 0 then [] else [blk] + Touched(size, blk + 1, 0, len - TakeOf(size, blk, within, len))
  }

  /** They are the consecutive blocks from the first byte's to the last byte's. */
  lemma {:induction false} TouchedConsecutive(size: nat, blk: nat, within: nat, len: nat, i: nat)
    requires RangeOk(size, blk, within, len) && i < |Touched(size, blk, within, len)|
    ensures Touched(size, blk, within, len)[i] == blk + i
    ensures i * BLOCK < within + len
    ensures i + 1 < |Touched(size, blk, within, len)| <==> (i + 1) * BLOCK < within + len
    decreases len
  {
    var take := TakeOf(size, blk, within, len);
    if i > 0 {
      TouchedConsecutive(size, blk + 1, 0, len - take, i - 1);
    } else {
      assert take < len <==> BLOCK < within + len;
    }
  }

  /** A read stops at the first block the master cannot supply. */
  function UpToFault(master: BackingStore, bs: seq<nat>): seq<nat> {
    if bs == [] then []
    else if MasterBlock(master, bs[0]).Err? then [bs[0]]
    else [bs[0]] + UpToFault(master, bs[1..])
  }

  predicate AllReadable(master: BackingStore, bs: seq<nat>) {
    bs == [] || (MasterBlock(master, bs[0]).Ok? && AllReadable(master, bs[1..]))
  }

  /** A history of block accesses, and whether the read that ends it got all its bytes. */
  datatype Visit = Visit(log: seq<nat>, ok: bool)

  /** The block loop of a read after the accesses in `log`: it stops at the first block the master cannot supply. */
  function VisitFrom(master: BackingStore, log: seq<nat>, blk: nat, within: nat, len: nat): Visit
    requires RangeOk(|master.bytes|, blk, within, len)
    decreases len
  {
    if len == 0 then Visit(log, true)
    else if MasterBlock(master, blk).Err? then Visit(log + [blk], false)
    else VisitFrom(master, log + [blk], blk + 1, 0, len - TakeOf(|master.bytes|, blk, within, len))
  }

  /** The loop visits the blocks of its range in order, up to the first unreadable one. */
  lemma {:induction false} VisitMeans(master: BackingStore, log: seq<nat>, blk: nat, within: nat, len: nat)
    requires RangeOk(|master.bytes|, blk, within, len)
    ensures var touched := Touched(|master.bytes|, blk, within, len);
            VisitFrom(master, log, blk, within, len) == Visit(log + UpToFault(master, touched), AllReadable(master, touched))
    decreases len
  {
    if len > 0 {
      var next := len - TakeOf(|master.bytes|, blk, within, len);
      var todo := Touched(|master.bytes|, blk + 1, 0, next);
      UpToFaultNext(master, blk, todo);
      Shift(log, blk, UpToFault(master, todo));
      VisitMeans(master, log + [blk], blk + 1, 0, next);
    }
  }

  lemma UpToFaultNext(master: BackingStore, blk: nat, rest: seq<nat>)
    ensures UpToFault(master, [blk] + rest)
         == if MasterBlock(master, blk).Err? then [blk] else [blk] + UpToFault(master, rest)
    ensures AllReadable(master, [blk] + rest) <==> MasterBlock(master, blk).Ok? && AllReadable(master, rest)
  {
    assert ([blk] + rest)[1..] == rest;
  }

  /** Cache state that holds between accesses. */
  predicate Sound(master: BackingStore, budget: nat, es: Entries) {
    Faithful(master, es) && Distinct(es) && Sum(es) <= budget
  }

  lemma AccessKeepsSound(master: BackingStore, budget: nat, s: State, blk: nat)
    requires Sound(master, budget, s.entries)
    ensures Sound(master, budget, Access(master, budget, s, blk).entries)
  {
    var es := s.entries;
    match Lookup(es, blk) {
      case Some(data) =>
        LookupFaithful(master, es, blk);
        PutFaithful(master, es, blk, data);
        PutDistinct(es, blk, data);
        PutSum(es, blk, data);
      case None =>
        var full := MasterBlock(master, blk);
        if full.Ok? {
          var all := Put(es, blk, full.value);
          PutFaithful(master, es, blk, full.value);
          PutDistinct(es, blk, full.value);
          EvictPrefix(all, budget);
          PrefixFaithful(master, all, Evict(all, budget));
          PrefixDistinct(all, Evict(all, budget));
        }
    }
  }

  /** After any history the cache holds only the master's own blocks, once each, within budget. */
  lemma {:induction false} ReplaySound(master: BackingStore, budget: nat, log: seq<nat>)
    ensures Sound(master, budget, Replay(master, budget, log).entries)
  {
    if log != [] {
      ReplaySound(master, budget, log[..|log| - 1]);
      AccessKeepsSound(master, budget, Replay(master, budget, log[..|log| - 1]), log[|log| - 1]);
    }
  }

  // ----- the cached store as a store -----

  /** The store as its cache reads it, whole blocks at a time: a fault anywhere in a block is a fault of the block. */
  function Rounded(master: BackingStore): (store: BackingStore)
    ensures store.bytes == master.bytes
    ensures forall p :: 0 <= p < |master.bytes| ==> (p in store.faulty <==> MasterBlock(master, p / BLOCK).Err?)
    ensures master.faulty == {} ==> store.faulty == {}
  {
    BackingStore(master.bytes, set p | 0 <= p < |master.bytes| && MasterBlock(master, p / BLOCK).Err?)
  }

  lemma BlockReadable(master: BackingStore, blk: nat, within: nat, take: nat)
    requires 0 < take && within + take <= BLOCK && blk * BLOCK + within + take <= |master.bytes|
    ensures Rounded(master).Readable(blk * BLOCK + within, take) <==> MasterBlock(master, blk).Ok?
  {
    forall p | blk * BLOCK + within <= p < blk * BLOCK + within + take
      ensures p / BLOCK == blk
    {
      BlockAndByte(p, blk, p - blk * BLOCK);
    }
    assert (blk * BLOCK + within) / BLOCK == blk;
  }

  /** A read visits only blocks it can have exactly if the rounded store can supply its range. */
  lemma {:induction false} VisitsReadable(master: BackingStore, log: seq<nat>, blk: nat, within: nat, len: nat, off: nat)
    requires RangeOk(|master.bytes|, blk, within, len) && off + len <= |master.bytes| && (len > 0 ==> off == blk * BLOCK + within)
    ensures VisitFrom(master, log, blk, within, len).ok <==> Rounded(master).Readable(off, len)
    decreases len
  {
    if len > 0 {
      var take := TakeOf(|master.bytes|, blk, within, len);
      NextRange(|master.bytes|, blk, within, len);
      BlockReadable(master, blk, within, take);
      ReadableParts(Rounded(master), off, take, len - take);
      VisitsReadable(master, log + [blk], blk + 1, 0, len - take, off + take);
    }
  }

  lemma ReadableParts(store: BackingStore, off: nat, a: nat, b: nat)
    ensures store.Readable(off, a + b) <==> store.Readable(off, a) && store.Readable(off + a, b)
  {
  }

  class CachedStore {
    const inner: BackingStore
    const budget: nat
    const lru: LruState
    var hits: nat
    var misses: nat
    ghost var log: seq<nat>

    constructor (inner: BackingStore, budget: nat)
      ensures this.inner == inner && this.budget == budget && log == []
      ensures fresh(lru) && Valid()
    {
      this.inner, this.budget, hits, misses := inner, budget, 0, 0;
      log := [];
      lru := new LruState();
    }

    /** The cache and its counters are exactly what the history of accesses leaves. */
    ghost predicate Valid()
      reads this, lru
    {
      State(lru.entries, hits, misses) == Replay(inner, budget, log) && lru.currentBytes == Sum(lru.entries)
    }

    /**
     * `CachedStore::read_at`. The source does no bounds check here (its caller, `Volume`, does):
     * outside the image its block length underflows, so the range is required to be inside.
     * After an error the contents of `buf` are unspecified.
     */
    method ReadAt(offset: u64, buf: array<byte>) returns (r: Result<Unit, IoError>)
      requires Valid() && offset + buf.Length <= |inner.bytes|
      modifies this, lru, buf
      ensures Valid()
      ensures r.Ok? <==> Rounded(inner).Readable(offset, buf.Length)
      ensures r.Ok? ==> buf[..] == inner.bytes[offset..offset + buf.Length]
      ensures Visit(log, r.Ok?) == VisitFrom(inner, old(log), offset / BLOCK, offset % BLOCK, buf.Length)
    {
      VisitsReadable(inner, log, offset / BLOCK, offset % BLOCK, buf.Length, offset);
      var bytes := ReadBlocks(offset, buf.Length, offset / BLOCK, offset % BLOCK);
      if bytes.Err? {
        return Err(bytes.error);
      }
      CopyInto(buf, 0, bytes.value);
      r := Ok(Done);
    }

    /** The block loop of `read_at`, from byte `x0` of block `b0` on. */
    method ReadBlocks(offset: nat, len: nat, ghost b0: nat, ghost x0: nat) returns (r: Result<seq<byte>, IoError>)
      requires Valid() && offset + len <= |inner.bytes| && x0 < BLOCK && offset == b0 * BLOCK + x0
      modifies this, lru
      ensures Valid()
      ensures r.Ok? ==> r.value == inner.bytes[offset..offset + len]
      ensures Visit(log, r.Ok?) == VisitFrom(inner, old(log), b0, x0, len)
    {
      var pos: nat, left: nat, out: seq<byte> := offset, len, [];
      ghost var target := inner.bytes[offset..offset + len];
      ghost var b: nat, x: nat, whole := b0, x0, VisitFrom(inner, log, b0, x0, left);
      while left > 0
        invariant Valid() && |out| + left == len && pos == offset + |out|
        invariant x < BLOCK && (left > 0 ==> pos == b * BLOCK + x) && VisitFrom(inner, log, b, x, left) == whole
        invariant out <= target
      {
        var chunk := ReadNext(pos, left, b, x, offset, len, out);
        if chunk.Err? {
          return Err(chunk.error);
        }
        pos, left, out := pos + |chunk.value|, left - |chunk.value|, out + chunk.value;
        b, x := b + 1, 0;
      }
      r := Ok(out);
    }

    /** The next part of a read that has received `sofar`. */
    method ReadNext(pos: nat, left: nat, ghost b: nat, ghost x: nat, ghost off: nat, ghost len: nat, ghost sofar: seq<byte>)
      returns (r: Result<seq<byte>, IoError>)
      requires Valid() && 0 < left && x < BLOCK && pos == b * BLOCK + x
      requires off + len <= |inner.bytes| && pos == off + |sofar| && |sofar| + left == len && sofar <= inner.bytes[off..off + len]
      modifies this, lru
      ensures Valid() && log == old(log) + [b]
      ensures r.Ok? <==> MasterBlock(inner, b).Ok?
      ensures r.Ok? ==> |r.value| == TakeOf(|inner.bytes|, b, x, left) && sofar + r.value <= inner.bytes[off..off + len]
    {
      r := ReadChunk(pos, left, b, x);
      if r.Ok? {
        TargetGrows(inner.bytes, off, len, sofar, r.value);
      }
    }

    /** The part of a read that falls in one block. */
    method ReadChunk(pos: nat, left: nat, ghost b: nat, ghost x: nat) returns (r: Result<seq<byte>, IoError>)
      requires Valid() && 0 < left && pos + left <= |inner.bytes| && x < BLOCK && pos == b * BLOCK + x
      modifies this, lru
      ensures Valid() && log == old(log) + [b]
      ensures r.Ok? <==> MasterBlock(inner, b).Ok?
      ensures r.Ok? ==> |r.value| == TakeOf(|inner.bytes|, b, x, left) && r.value == inner.bytes[pos..pos + |r.value|]
    {
      BlockAndByte(pos, b, x);
      var blk, within := pos / BLOCK, pos % BLOCK;
      var take := TakeOf(|inner.bytes|, blk, within, left);
      var block := ReadBlock(blk);
      if block.Err? {
        return block;
      }
      SliceOfSlice(inner.bytes, blk * BLOCK, |block.value|, within, take);
      r := Ok(block.value[within..within + take]);
    }

    /** One iteration's block: from the cache, or from the master and then cached. */
    method ReadBlock(blk: nat) returns (r: Result<seq<byte>, IoError>)
      requires Valid() && blk * BLOCK < |inner.bytes|
      modifies this, lru
      ensures Valid() && log == old(log) + [blk]
      ensures r == MasterBlock(inner, blk)
    {
      ReplaySound(inner, budget, log);
      ReplayNext(inner, budget, log, blk);
      log := log + [blk];
      var blen := BlockLen(|inner.bytes|, blk);
      var cached := lru.Get(blk);
      if cached.Some? {
        LookupFaithful(inner, old(lru.entries), blk);
        hits := hits + 1;
        return Ok(cached.value);
      }
      misses := misses + 1;
      var full := inner.Read(blk * BLOCK, blen);
      if full.Err? {
        return full;
      }
      if blen <= budget {
        lru.Insert(blk, full.value, budget);
      }
      r := full;
    }
  }

  lemma Shift<T>(s: seq<T>, x: T, t: seq<T>)
    ensures s + ([x] + t) == (s + [x]) + t
  {
  }

  lemma JoinSlices(d: seq<byte>, a: nat, b: nat, c: nat)
    requires a <= b <= c <= |d|
    ensures d[a..b] + d[b..c] == d[a..c]
  {
  }

  /** A read holds the first bytes of its range, then some more of them. */
  lemma TargetGrows(d: seq<byte>, off: nat, len: nat, sofar: seq<byte>, more: seq<byte>)
    requires off + len <= |d| && |sofar| + |more| <= len && sofar <= d[off..off + len]
    requires more == d[off + |sofar|..off + |sofar| + |more|]
    ensures sofar + more <= d[off..off + len]
  {
  }

  lemma SliceOfSlice(d: seq<byte>, start: nat, len: nat, within: nat, take: nat)
    requires start + len <= |d| && within + take <= len
    ensures d[start..start + len][within..within + take] == d[start + within..start + within + take]
  {
    var block, part := d[start..start + len], d[start + within..start + within + take];
    forall k | 0 <= k < take
      ensures part[k] == block[within..within + take][k]
    {
      assert part[k] == d[start + (within + k)] == block[within + k];
    }
  }
}
