/**
 * The dynamic-VHD writer behind `xboot flatten` (vhd/write.rs): the layout it produces
 * as a function of the source, and the streaming writer that produces it.
 */
module VhdWriter {
  import opened Bytes
  import opened Wrappers
  import opened Store
  import opened VhdFormat

  // ----- layout -----

  predicate IsPow2(n: nat) {
    n == 1 || (n > 0 && n % 2 == 0 && IsPow2(n / 2))
  }

  /** The block sizes the reader accepts. The writer itself always uses DEFAULT_BLOCK_SIZE. */
  predicate BlockSizeOk(bs: nat) {
    0 < bs < U32_SPAN && bs % SECTOR == 0 && IsPow2(bs)
  }

  function BitmapBytes(bs: nat): nat {
    DivCeil(bs / SECTOR, 8)
  }

  function BitmapSize(bs: nat): nat {
    DivCeil(BitmapBytes(bs), SECTOR) * SECTOR
  }

  /** Bytes one allocated block takes in the file: its bitmap, then its data. */
  function ExtentSize(bs: nat): nat {
    BitmapSize(bs) + bs
  }

  function BlocksStart(nBlocks: nat): nat {
    1536 + DivCeil(4 * nBlocks, SECTOR) * SECTOR
  }

  function FullBitmap(bs: nat): (s: seq<byte>)
    ensures |s| == BitmapSize(bs)
  {
    Fill(BitmapBytes(bs), 0xFF) + Zeros(BitmapSize(bs) - BitmapBytes(bs))
  }

  lemma BlockStartInRange(size: nat, bs: nat, i: nat)
    requires bs > 0
    ensures i < DivCeil(size, bs) <==> i * bs < size
  {
    var n := DivCeil(size, bs);
    DivCeilBounds(size, bs);
    if i < n {
      assert i * bs <= (n - 1) * bs;
    } else {
      assert i * bs >= n * bs;
    }
  }

  /** Block `i` of the source, zero-padded to a whole block. */
  function BlockOf(src: seq<byte>, bs: nat, i: nat): (b: seq<byte>)
    requires bs > 0 && i * bs <= |src|
    ensures |b| == bs
  {
    var end := Min(i * bs + bs, |src|);
    src[i * bs..end] + Zeros(i * bs + bs - end)
  }

  function BlocksOf(src: seq<byte>, bs: nat): (blocks: seq<seq<byte>>)
    requires bs > 0
    ensures |blocks| == DivCeil(|src|, bs)
    ensures forall i :: 0 <= i < |blocks| ==> |blocks[i]| == bs
  {
    seq(DivCeil(|src|, bs), i requires 0 <= i < DivCeil(|src|, bs) => BlockStartInRange(|src|, bs, i); BlockOf(src, bs, i))
  }

  predicate AllZero(s: seq<byte>) {
    forall k :: 0 <= k < |s| ==> s[k] == 0
  }

  /** The space taken by the stored ones among the first `i` blocks, each taking `e`. */
  function Taken(blocks: seq<seq<byte>>, e: nat, i: nat): nat
    requires i <= |blocks|
  {
    if i == 0 then 0 else Taken(blocks, e, i - 1) + if AllZero(blocks[i - 1]) then 0 else e
  }

  /** The sector where block `i` begins when storing starts at `first` and each block takes `unit`. */
  function SectorOf(blocks: seq<seq<byte>>, first: nat, unit: nat, i: nat): nat
    requires i <= |blocks|
  {
    first + Taken(blocks, unit, i)
  }

  /** The BAT entry the running, wrapping `u32` sector number gives block `i`. */
  function EntryAt(blocks: seq<seq<byte>>, first: nat, unit: nat, i: nat): u32
    requires i < |blocks|
  {
    if AllZero(blocks[i]) then HOLE else Wrap32(SectorOf(blocks, first, unit, i))
  }

  function FirstSector(nBlocks: nat): nat {
    BlocksStart(nBlocks) / SECTOR
  }

  function UnitSectors(bs: nat): nat {
    ExtentSize(bs) / SECTOR
  }

  function EntryOf(blocks: seq<seq<byte>>, bs: nat, i: nat): u32
    requires i < |blocks|
  {
    EntryAt(blocks, FirstSector(|blocks|), UnitSectors(bs), i)
  }

  function BatOf(blocks: seq<seq<byte>>, bs: nat): (bat: seq<u32>)
    ensures |bat| == |blocks|
  {
    seq(|blocks|, i requires 0 <= i < |blocks| => EntryOf(blocks, bs, i))
  }

  function BatBytes(bat: seq<u32>): (s: seq<byte>)
    ensures |s| == 4 * |bat|
  {
    if bat == [] then [] else BatBytes(bat[..|bat| - 1]) + ToBE(bat[|bat| - 1], 4)
  }

  /** The stored extents of the first `i` blocks, in file order, each headed by bitmap `bm`. */
  function Extents(blocks: seq<seq<byte>>, bm: seq<byte>, i: nat): seq<byte>
    requires i <= |blocks|
  {
    if i == 0 then []
    else
      Extents(blocks, bm, i - 1) + if AllZero(blocks[i - 1]) then [] else bm + blocks[i - 1]
  }

  function Image(src: seq<byte>, bs: nat, footer: seq<byte>, header: seq<byte>): seq<byte>
    requires bs > 0
  {
    var blocks := BlocksOf(src, bs);
    var n := |blocks|;
    var pad := BlocksStart(n) - 1536 - 4 * n;
    footer + header + (BatBytes(BatOf(blocks, bs)) + Fill(pad, 0xFF)) + Extents(blocks, FullBitmap(bs), n) + footer
  }

  /** `img` is what the writer produces for `src`, up to the footer's clock-dependent bytes. */
  predicate IsImage(img: seq<byte>, src: seq<byte>, bs: nat)
    requires bs > 0
  {
    && |src| < U64_SPAN && bs < U32_SPAN && DivCeil(|src|, bs) < U32_SPAN
    && |img| >= 1536
    && IsFooter(img[0..512], |src|)
    && IsHeader(img[512..1536], DivCeil(|src|, bs), bs)
    && img == Image(src, bs, img[0..512], img[512..1536])
  }

  lemma ExtentSectors(bs: nat)
    requires bs % SECTOR == 0
    ensures ExtentSize(bs) % SECTOR == 0
  {
    AddSectors(DivCeil(BitmapBytes(bs), SECTOR), bs);
  }

  lemma AddSectors(k: nat, bs: nat)
    requires bs % SECTOR == 0
    ensures (k * SECTOR + bs) % SECTOR == 0
  {
  }

  lemma StartAligned(n: nat)
    ensures BlocksStart(n) % SECTOR == 0
  {
  }

  lemma {:induction false} ExtentsLength(blocks: seq<seq<byte>>, bm: seq<byte>, e: nat, i: nat)
    requires i <= |blocks| && forall k :: 0 <= k < |blocks| ==> |bm| + |blocks[k]| == e
    ensures |Extents(blocks, bm, i)| == Taken(blocks, e, i)
  {
    if i > 0 {
      ExtentsLength(blocks, bm, e, i - 1);
    }
  }

  /** Later blocks are appended: what is in the file never moves. */
  lemma {:induction false} ExtentsGrow(blocks: seq<seq<byte>>, bm: seq<byte>, i: nat, j: nat)
    requires i <= j <= |blocks|
    ensures Extents(blocks, bm, i) <= Extents(blocks, bm, j)
  {
    if i < j {
      ExtentsGrow(blocks, bm, i, j - 1);
    }
  }

  lemma {:induction false} TakenGrows(blocks: seq<seq<byte>>, e: nat, i: nat, j: nat)
    requires i <= j <= |blocks|
    ensures Taken(blocks, e, i) <= Taken(blocks, e, j)
    ensures i < j && !AllZero(blocks[i]) ==> Taken(blocks, e, i) + e <= Taken(blocks, e, j)
  {
    if i < j {
      TakenGrows(blocks, e, i, j - 1);
    }
  }

  /** The extents hold each stored block's bitmap and data at that block's place. */
  lemma ExtentAt(blocks: seq<seq<byte>>, bm: seq<byte>, e: nat, i: nat)
    requires i < |blocks| && forall k :: 0 <= k < |blocks| ==> |bm| + |blocks[k]| == e
    requires !AllZero(blocks[i])
    ensures var all, at := Extents(blocks, bm, |blocks|), Taken(blocks, e, i);
            at + e <= |all| && all[at..at + e] == bm + blocks[i]
  {
    ExtentsLength(blocks, bm, e, i);
    ExtentsGrow(blocks, bm, i + 1, |blocks|);
    var here := Extents(blocks, bm, i);
    assert Extents(blocks, bm, i + 1) == here + (bm + blocks[i]);
    PrefixSlice(here, bm + blocks[i], Extents(blocks, bm, |blocks|));
  }

  lemma PrefixSlice(a: seq<byte>, b: seq<byte>, all: seq<byte>)
    requires a + b <= all
    ensures |a| + |b| <= |all| && all[|a|..|a| + |b|] == b
  {
    assert all[..|a + b|] == a + b;
    assert all[|a|..|a| + |b|] == (a + b)[|a|..];
  }

  lemma {:induction false} BatBytesAt(bat: seq<u32>, i: nat)
    requires i < |bat|
    ensures BatBytes(bat)[4 * i..4 * i + 4] == ToBE(bat[i], 4)
  {
    var last := |bat| - 1;
    if i < last {
      BatBytesAt(bat[..last], i);
      assert BatBytes(bat)[4 * i..4 * i + 4] == BatBytes(bat[..last])[4 * i..4 * i + 4];
    }
  }

  lemma BatBytesAppend(bat: seq<u32>, e: u32)
    ensures BatBytes(bat + [e]) == BatBytes(bat) + ToBE(e, 4)
  {
    assert (bat + [e])[..|bat|] == bat;
  }

  // ----- the size bound -----

  /** No stored block starts at or beyond the hole marker. */
  predicate FitsBlocks(blocks: seq<seq<byte>>, bs: nat) {
    LastBelow(blocks, FirstSector(|blocks|), UnitSectors(bs))
  }

  predicate LastBelow(blocks: seq<seq<byte>>, first: nat, unit: nat) {
    var taken := Taken(blocks, unit, |blocks|);
    taken == 0 || first + taken - unit < HOLE
  }

  /** Every stored block's BAT entry addresses that block and is not mistaken for a hole. */
  ghost predicate BatExact(blocks: seq<seq<byte>>, bs: nat) {
    forall i :: 0 <= i < |blocks| && !AllZero(blocks[i]) ==>
      && EntryOf(blocks, bs, i) == SectorOf(blocks, FirstSector(|blocks|), UnitSectors(bs), i)
      && EntryOf(blocks, bs, i) != HOLE
  }

  predicate Fits(src: seq<byte>, bs: nat)
    requires bs > 0
  {
    FitsBlocks(BlocksOf(src, bs), bs)
  }

  /** The running `u32` sector number is right for the whole image exactly when the image fits. */
  lemma BatExactIffFits(blocks: seq<seq<byte>>, bs: nat)
    requires bs > 0 && bs % SECTOR == 0
    ensures BatExact(blocks, bs) <==> FitsBlocks(blocks, bs)
  {
    var first, unit := FirstSector(|blocks|), UnitSectors(bs);
    AllBelowIffLastBelow(blocks, first, unit);
    forall i | 0 <= i < |blocks| && !AllZero(blocks[i])
      ensures EntryOf(blocks, bs, i) == SectorOf(blocks, first, unit, i) != HOLE
         <==> SectorOf(blocks, first, unit, i) < HOLE
    {
      WrapExact(SectorOf(blocks, first, unit, i));
    }
  }

  lemma WrapExact(x: nat)
    ensures Wrap32(x) == x != HOLE <==> x < HOLE
  {
  }

  lemma AllBelowIffLastBelow(blocks: seq<seq<byte>>, first: nat, unit: nat)
    requires unit > 0
    ensures LastBelow(blocks, first, unit)
       <==> forall i :: 0 <= i < |blocks| && !AllZero(blocks[i]) ==> SectorOf(blocks, first, unit, i) < HOLE
  {
    var n := |blocks|;
    if LastBelow(blocks, first, unit) {
      forall i | 0 <= i < n && !AllZero(blocks[i])
        ensures SectorOf(blocks, first, unit, i) < HOLE
      {
        TakenGrows(blocks, unit, i, n);
      }
    } else {
      var i := LastStored(blocks, unit, n);
      assert SectorOf(blocks, first, unit, i) >= HOLE;
    }
  }

  lemma {:induction false} LastStored(blocks: seq<seq<byte>>, e: nat, n: nat) returns (i: nat)
    requires n <= |blocks| && Taken(blocks, e, n) > 0
    ensures i < n && !AllZero(blocks[i]) && Taken(blocks, e, i) == Taken(blocks, e, n) - e
  {
    if AllZero(blocks[n - 1]) {
      i := LastStored(blocks, e, n - 1);
    } else {
      i := n - 1;
    }
  }

  const GIB: nat := 1024 * 1024 * 1024

  /** With the writer's own 2 MiB blocks, every source of up to 2040 GiB fits. */
  lemma FitsUpTo2040GiB(src: seq<byte>)
    requires |src| <= 2040 * GIB
    ensures BlockSizeOk(DEFAULT_BLOCK_SIZE)
    ensures DivCeil(|src|, DEFAULT_BLOCK_SIZE) < U32_SPAN
    ensures Fits(src, DEFAULT_BLOCK_SIZE)
  {
    var bs := DEFAULT_BLOCK_SIZE;
    var blocks := BlocksOf(src, bs);
    assert |blocks| <= 1044480;
    assert UnitSectors(bs) == 4097;
    TakenOfAll(blocks, 4097, |blocks|);
    DefaultIsPow2();
  }

  lemma DefaultIsPow2()
    ensures IsPow2(DEFAULT_BLOCK_SIZE)
  {
    assert IsPow2(32);
    assert IsPow2(256);
    assert IsPow2(2048);
    assert IsPow2(16384);
    assert IsPow2(131072);
    assert IsPow2(1048576);
  }

  /** A 2 TiB source without a zero block passes the writer's only guard yet does not fit. */
  lemma DenseTwoTiBDoesNotFit(src: seq<byte>)
    requires |src| == 2048 * GIB
    requires forall i :: 0 <= i < |BlocksOf(src, DEFAULT_BLOCK_SIZE)| ==> !AllZero(BlocksOf(src, DEFAULT_BLOCK_SIZE)[i])
    ensures DivCeil(|src|, DEFAULT_BLOCK_SIZE) < U32_SPAN
    ensures !BatExact(BlocksOf(src, DEFAULT_BLOCK_SIZE), DEFAULT_BLOCK_SIZE)
  {
    var bs := DEFAULT_BLOCK_SIZE;
    var blocks := BlocksOf(src, bs);
    assert |blocks| == 1048576;
    TakenOfAll(blocks, 4097, |blocks|);
    assert UnitSectors(bs) == 4097;
    BatExactIffFits(blocks, bs);
  }

  lemma {:induction false} TakenOfAll(blocks: seq<seq<byte>>, e: nat, i: nat)
    requires i <= |blocks|
    ensures Taken(blocks, e, i) <= i * e
    ensures (forall k :: 0 <= k < i ==> !AllZero(blocks[k])) ==> Taken(blocks, e, i) == i * e
  {
    if i > 0 {
      TakenOfAll(blocks, e, i - 1);
      MulSucc(i - 1, e);
    }
  }

  lemma MulSucc(u: nat, e: nat)
    ensures (u + 1) * e == u * e + e
  {
  }

  // ----- conservation -----

  /** Byte `p` of the file lies in the extent of block `i`. */
  predicate InExtent(blocks: seq<seq<byte>>, bs: nat, i: nat, p: nat)
    requires i < |blocks|
  {
    && !AllZero(blocks[i])
    && EntryOf(blocks, bs, i) * SECTOR <= p < EntryOf(blocks, bs, i) * SECTOR + ExtentSize(bs)
  }

  /**
   * The extents the BAT points at are disjoint and cover exactly the bytes between the
   * padded BAT and the trailing footer, so the file is the sum of its parts.
   */
  lemma ExtentsTileFile(src: seq<byte>, bs: nat, img: seq<byte>, p: nat)
    requires bs > 0 && bs % SECTOR == 0
    requires IsImage(img, src, bs) && Fits(src, bs)
    ensures var blocks := BlocksOf(src, bs);
            && |img| == BlocksStart(|blocks|) + Taken(blocks, ExtentSize(bs), |blocks|) + 512
            && (BlocksStart(|blocks|) <= p < |img| - 512 <==> exists i :: 0 <= i < |blocks| && InExtent(blocks, bs, i, p))
            && forall i, j :: 0 <= i < |blocks| && 0 <= j < |blocks| && InExtent(blocks, bs, i, p) && InExtent(blocks, bs, j, p) ==> i == j
  {
    var blocks := BlocksOf(src, bs);
    var n, e, start := |blocks|, ExtentSize(bs), BlocksStart(|blocks|);
    ExtentsLength(blocks, FullBitmap(bs), e, n);
    BatExactIffFits(blocks, bs);
    forall i | 0 <= i < n
      ensures InExtent(blocks, bs, i, p) <==> Covers(blocks, start, e, i, p)
    {
      if !AllZero(blocks[i]) {
        EntryAddress(blocks, bs, i);
      }
    }
    Tiles(blocks, start, e, p);
  }

  /** `InExtent` in terms of the space taken by the blocks before block `i`. */
  predicate Covers(blocks: seq<seq<byte>>, start: nat, e: nat, i: nat, p: nat)
    requires i < |blocks|
  {
    !AllZero(blocks[i]) && start + Taken(blocks, e, i) <= p < start + Taken(blocks, e, i) + e
  }

  lemma Tiles(blocks: seq<seq<byte>>, start: nat, e: nat, p: nat)
    ensures start <= p < start + Taken(blocks, e, |blocks|) <==> exists i :: 0 <= i < |blocks| && Covers(blocks, start, e, i, p)
    ensures forall i, j :: 0 <= i < |blocks| && 0 <= j < |blocks| && Covers(blocks, start, e, i, p) && Covers(blocks, start, e, j, p) ==> i == j
  {
    var n := |blocks|;
    forall i | 0 <= i < n && Covers(blocks, start, e, i, p)
      ensures start <= p < start + Taken(blocks, e, n)
    {
      TakenGrows(blocks, e, i, n);
    }
    forall i, j | 0 <= i < n && 0 <= j < n && Covers(blocks, start, e, i, p) && Covers(blocks, start, e, j, p)
      ensures i == j
    {
      if i < j {
        TakenGrows(blocks, e, i, j);
      } else if j < i {
        TakenGrows(blocks, e, j, i);
      }
    }
    if start <= p < start + Taken(blocks, e, n) {
      var i := FindExtent(blocks, e, n, p - start);
      assert Covers(blocks, start, e, i, p);
    }
  }

  lemma {:induction false} FindExtent(blocks: seq<seq<byte>>, e: nat, n: nat, q: nat) returns (i: nat)
    requires n <= |blocks| && q < Taken(blocks, e, n)
    ensures i < n && !AllZero(blocks[i])
    ensures Taken(blocks, e, i) <= q < Taken(blocks, e, i) + e
  {
    if q < Taken(blocks, e, n - 1) {
      i := FindExtent(blocks, e, n - 1, q);
    } else {
      i := n - 1;
    }
  }

  /** A stored block's BAT entry, as a byte address. */
  lemma EntryAddress(blocks: seq<seq<byte>>, bs: nat, i: nat)
    requires bs > 0 && bs % SECTOR == 0 && BatExact(blocks, bs)
    requires i < |blocks| && !AllZero(blocks[i])
    ensures EntryOf(blocks, bs, i) * SECTOR == BlocksStart(|blocks|) + Taken(blocks, ExtentSize(bs), i)
  {
    ExtentSectors(bs);
    StartAligned(|blocks|);
    TakenSectors(blocks, ExtentSize(bs), i);
  }

  lemma {:induction false} TakenSectors(blocks: seq<seq<byte>>, e: nat, i: nat)
    requires e % SECTOR == 0 && i <= |blocks|
    ensures Taken(blocks, e / SECTOR, i) * SECTOR == Taken(blocks, e, i)
  {
    if i > 0 {
      TakenSectors(blocks, e, i - 1);
    }
  }

  // ----- the streaming writer -----

  /** Fill `buf` with the source block at `off`, zeroing the tail of a partial last block. */
  method ReadBlock(source: BackingStore, off: nat, buf: array<byte>) returns (r: Result<Unit, IoError>)
    requires off < |source.bytes|
    modifies buf
    ensures r.Ok? <==> source.Readable(off, Min(buf.Length, |source.bytes| - off))
    ensures r.Ok? ==> var end := Min(off + buf.Length, |source.bytes|);
                      buf[..] == source.bytes[off..end] + Zeros(off + buf.Length - end)
  {
    var len := Min(buf.Length, |source.bytes| - off);
    CopyInto(buf, len, Zeros(buf.Length - len));
    var read := source.Read(off, len);
    if read.Err? {
      return Err(read.error);
    }
    CopyInto(buf, 0, read.value);
    r := Ok(Done);
  }

  /** What the block loop has produced so far. */
  datatype Progress = Progress(file: seq<byte>, bat: seq<u32>, next: u32)

  /** The progress after the first `i` blocks. */
  function ProgressAt(front: seq<byte>, blocks: seq<seq<byte>>, bs: nat, i: nat): Progress
    requires i <= |blocks|
  {
    Progress(
      front + Extents(blocks, FullBitmap(bs), i),
      BatOf(blocks, bs)[..i] + Fill32(|blocks| - i),
      Wrap32(SectorOf(blocks, FirstSector(|blocks|), UnitSectors(bs), i)))
  }

  /** Store block `i` unless it is all zeros. */
  method StoreBlock(p: Progress, block: seq<byte>, bs: nat, i: nat, ghost front: seq<byte>, ghost blocks: seq<seq<byte>>)
    returns (q: Progress)
    requires i < |blocks| && block == blocks[i] && p == ProgressAt(front, blocks, bs, i)
    ensures q == ProgressAt(front, blocks, bs, i + 1)
  {
    BatAt(blocks, bs, i);
    if AllZero(block) {
      return p;
    }
    ExtentsNext(front, blocks, FullBitmap(bs), i);
    NextSector(blocks, FirstSector(|blocks|), UnitSectors(bs), i);
    q := Progress(
      p.file + FullBitmap(bs) + block,
      p.bat[i := p.next],
      Wrap32(p.next + Wrap32(UnitSectors(bs))));
  }

  /** The block loop: appends every non-zero block to `file` and records where it went. */
  method WriteBlocks(source: BackingStore, bs: nat, ghost blocks: seq<seq<byte>>, n: nat, front: seq<byte>)
    returns (r: Result<(seq<byte>, seq<u32>), IoError>)
    requires bs > 0 && blocks == BlocksOf(source.bytes, bs) && n == |blocks|
    ensures r.Ok? <==> source.Readable(0, |source.bytes|)
    ensures r.Ok? ==> r.value == (front + Extents(blocks, FullBitmap(bs), n), BatOf(blocks, bs))
  {
    var p := Progress(front, Fill32(n), Wrap32(FirstSector(n)));
    var blockBuf := new byte[bs](_ => 0);
    var off := 0;
    for i := 0 to n
      invariant off == i * bs
      invariant p == ProgressAt(front, blocks, bs, i)
      invariant forall p :: 0 <= p < off && p < |source.bytes| ==> p !in source.faulty
    {
      BlockAt(source.bytes, bs, i);
      MulSucc(i, bs);
      var read := ReadBlock(source, off, blockBuf);
      if read.Err? {
        return Err(read.error);
      }
      off := off + bs;
      p := StoreBlock(p, blockBuf[..], bs, i, front, blocks);
    }
    BlockStartInRange(|source.bytes|, bs, n);
    ProgressEnd(front, blocks, bs);
    r := Ok((p.file, p.bat));
  }

  lemma ProgressEnd(front: seq<byte>, blocks: seq<seq<byte>>, bs: nat)
    ensures var p := ProgressAt(front, blocks, bs, |blocks|);
            p.file == front + Extents(blocks, FullBitmap(bs), |blocks|) && p.bat == BatOf(blocks, bs)
  {
    WholePrefix(BatOf(blocks, bs));
  }

  lemma WholePrefix(bat: seq<u32>)
    ensures bat[..|bat|] + Fill32(0) == bat
  {
  }

  lemma BlockAt(src: seq<byte>, bs: nat, i: nat)
    requires bs > 0 && i < |BlocksOf(src, bs)|
    ensures i * bs < |src| && BlocksOf(src, bs)[i] == BlockOf(src, bs, i)
  {
    BlockStartInRange(|src|, bs, i);
  }

  lemma BatAt(blocks: seq<seq<byte>>, bs: nat, i: nat)
    requires i < |blocks|
    ensures BatOf(blocks, bs)[i] == EntryAt(blocks, FirstSector(|blocks|), UnitSectors(bs), i)
  {
  }

  lemma ExtentsNext(front: seq<byte>, blocks: seq<seq<byte>>, bm: seq<byte>, i: nat)
    requires i < |blocks| && !AllZero(blocks[i])
    ensures front + Extents(blocks, bm, i) + bm + blocks[i] == front + Extents(blocks, bm, i + 1)
  {
    assert Extents(blocks, bm, i + 1) == Extents(blocks, bm, i) + (bm + blocks[i]);
  }

  /**
   * `write_dynamic_vhd` over an in-memory file. The source's block size is the constant
   * DEFAULT_BLOCK_SIZE; it is a parameter here so that the layout is proved for every size.
   */
  method WriteDynamicVhd(source: BackingStore, bs: nat, stamp: Stamp) returns (r: Result<seq<byte>, IoError>)
    requires BlockSizeOk(bs) && stamp.Valid() && |source.bytes| < U64_SPAN
    ensures DivCeil(|source.bytes|, bs) >= U32_SPAN ==> r == Err(InvalidData)
    ensures DivCeil(|source.bytes|, bs) < U32_SPAN ==> (r.Ok? <==> source.Readable(0, |source.bytes|))
    ensures r.Ok? ==> IsImage(r.value, source.bytes, bs)
  {
    var virtualSize := |source.bytes|;
    var nBlocks := DivCeil(virtualSize, bs);
    if nBlocks > 0xFFFF_FFFF {
      return Err(InvalidData);
    }
    var footer := BuildFooter(virtualSize, stamp);
    var header := BuildHeader(nBlocks, bs);
    ghost var blocks := BlocksOf(source.bytes, bs);

    // The BAT area is reserved here and backfilled once every entry is known.
    var reserved := BlocksStart(nBlocks) - 1536;
    var written := WriteBlocks(source, bs, blocks, nBlocks, footer + header + Fill(reserved, 0xFF));
    if written.Err? {
      return Err(written.error);
    }
    var file, bat := written.value.0 + footer, written.value.1;
    var batBuf := EncodeBat(bat);
    Backfill(footer, header, reserved, Extents(blocks, FullBitmap(bs), nBlocks), batBuf);
    r := Ok(Patch(file, 1536, batBuf));
  }

  lemma Backfill(footer: seq<byte>, header: seq<byte>, reserved: nat, data: seq<byte>, bat: seq<byte>)
    requires |footer| == 512 && |header| == 1024 && |bat| <= reserved
    ensures var file := Patch(footer + header + Fill(reserved, 0xFF) + data + footer, 1536, bat);
            && file == footer + header + (bat + Fill(reserved - |bat|, 0xFF)) + data + footer
            && file[0..512] == footer && file[512..1536] == header
  {
    var file := footer + header + Fill(reserved, 0xFF) + data + footer;
    assert file[..1536] == footer + header;
    assert file[1536 + |bat|..] == Fill(reserved - |bat|, 0xFF) + data + footer;
  }

  function Fill32(n: nat): (s: seq<u32>)
    ensures |s| == n && forall i :: 0 <= i < n ==> s[i] == HOLE
  {
    seq(n, _ => HOLE)
  }

  lemma NextSector(blocks: seq<seq<byte>>, first: nat, unit: nat, i: nat)
    requires i < |blocks| && !AllZero(blocks[i])
    ensures Wrap32(SectorOf(blocks, first, unit, i + 1))
         == Wrap32(Wrap32(SectorOf(blocks, first, unit, i)) + Wrap32(unit))
  {
    WrapSum(SectorOf(blocks, first, unit, i), unit);
  }

  lemma WrapSum(a: nat, b: nat)
    ensures Wrap32(a + b) == Wrap32(Wrap32(a) + Wrap32(b))
  {
  }

  method EncodeBat(bat: seq<u32>) returns (buf: seq<byte>)
    ensures buf == BatBytes(bat)
  {
    buf := [];
    for i := 0 to |bat|
      invariant buf == BatBytes(bat[..i])
    {
      BatBytesAppend(bat[..i], bat[i]);
      assert bat[..i + 1] == bat[..i] + [bat[i]];
      buf := buf + ToBE(bat[i], 4);
    }
    assert bat[..|bat|] == bat;
  }
}
