/**
 * A volume over a cached master, as the server stacks them (volume/mod.rs over cache/mod.rs). A volume
 * reads its master in two places only. Over a cache both do what they do over the rounded store, so that
 * every result about volumes and sessions holds with the rounded store as the master.
 */
module CachedVolumes {
  import opened Bytes
  import opened Wrappers
  import opened Store
  import opened Volume
  import opened Cache

  class CachedVolume {
    const cache: CachedStore
    const overlay: RamOverlay

    constructor (cache: CachedStore, overlay: RamOverlay)
      requires cache.Valid() && ContractOk(|cache.inner.bytes|, overlay.blocks) && |cache.inner.bytes| < U64_SPAN
      ensures this.cache == cache && this.overlay == overlay
      ensures Valid()
    {
      this.cache, this.overlay := cache, overlay;
    }

    ghost predicate Valid()
      reads cache, cache.lru, overlay
    {
      cache.Valid() && ContractOk(|cache.inner.bytes|, overlay.blocks) && |cache.inner.bytes| < U64_SPAN
    }

    /** `read_at` of the master, through the cache. */
    method ReadMaster(off: u64, len: nat) returns (r: Result<seq<byte>, IoError>)
      requires Valid() && off + len <= |cache.inner.bytes|
      modifies cache, cache.lru
      ensures Valid()
      ensures r.Ok? <==> Rounded(cache.inner).Readable(off, len)
      ensures r.Ok? ==> r.value == cache.inner.bytes[off..off + len]
    {
      var part := new byte[len](_ => 0);
      var read := cache.ReadAt(off, part);
      r := if read.Ok? then Ok(part[..]) else Err(read.error);
    }

    /** The part of a read that falls in one block: as `Volume.ReadChunk` has it, over the rounded store. */
    method ReadChunk(blk: nat, within: nat, take: nat) returns (r: Result<seq<byte>, IoError>)
      requires Valid() && blk * BLOCK < |cache.inner.bytes| && 0 < take && within + take <= BlockLen(|cache.inner.bytes|, blk)
      modifies cache, cache.lru
      ensures Valid()
      ensures r.Ok? <==> CanRead(Rounded(cache.inner), overlay.blocks, blk * BLOCK + within, take)
      ensures r.Ok? ==> r.value == DiskOf(Rounded(cache.inner), overlay.blocks)[blk * BLOCK + within..blk * BLOCK + within + take]
    {
      BlockRange(blk, within, take);
      var block := new byte[BlockLen(|cache.inner.bytes|, blk)](_ => 0);
      var hit := overlay.ReadBlock(blk, block);
      if hit {
        return Ok(block[within..within + take]);
      }
      r := ReadMaster(blk * BLOCK + within, take);
    }

    /** The part of a write that falls in one block: as `Volume.WriteChunk` has it, over the rounded store. */
    method WriteChunk(blk: nat, within: nat, chunk: seq<byte>) returns (r: Result<Unit, IoError>)
      requires Valid() && blk * BLOCK < |cache.inner.bytes| && within + |chunk| <= BlockLen(|cache.inner.bytes|, blk)
      modifies cache, cache.lru, overlay
      ensures Valid()
      ensures var next := NewBlock(Rounded(cache.inner), old(overlay.blocks), blk, within, chunk);
              && (r.Ok? <==> next.Some?)
              && overlay.blocks == if next.Some? then old(overlay.blocks)[blk := next.value] else old(overlay.blocks)
    {
      var blen := BlockLen(|cache.inner.bytes|, blk);
      if |chunk| == blen {
        overlay.WriteBlock(blk, chunk);
        return Ok(Done);
      }
      var block := new byte[blen](_ => 0);
      var hit := overlay.ReadBlock(blk, block);
      if !hit {
        var base := ReadMaster(blk * BLOCK, blen);
        if base.Err? {
          return Err(base.error);
        }
        CopyInto(block, 0, base.value);
        assert block[..] == base.value;
      }
      CopyInto(block, within, chunk);
      overlay.WriteBlock(blk, block[..]);
      r := Ok(Done);
    }
  }

  lemma BlockRange(blk: nat, within: nat, take: nat)
    requires within + take <= BLOCK
    ensures forall p :: blk * BLOCK + within <= p < blk * BLOCK + within + take ==> p / BLOCK == blk && p % BLOCK == p - blk * BLOCK
  {
    forall p | blk * BLOCK + within <= p < blk * BLOCK + within + take
      ensures p / BLOCK == blk && p % BLOCK == p - blk * BLOCK
    {
      BlockAndByte(p, blk, p - blk * BLOCK);
    }
  }
}
