/**
 * `xboot flatten` preserves every byte: the reader inverts the writer, for every source
 * that fits and every legal block size.
 */
module Flatten {
  import opened Bytes
  import opened Wrappers
  import opened Store
  import opened BlockMap
  import opened VhdFormat
  import opened VhdWriter
  import opened DynamicVhd

  /** `block`, headed by bitmap `bm`, is in the file at `at`. */
  ghost predicate StoredAt(img: seq<byte>, at: nat, bm: seq<byte>, block: seq<byte>) {
    && at + |bm| + |block| <= |img|
    && img[at..at + |bm|] == bm
    && img[at + |bm|..at + |bm| + |block|] == block
  }

  /** Every block is either a hole of zeros or stored, with a full bitmap, where the BAT says. */
  ghost predicate Laid(img: seq<byte>, bat: seq<u32>, bm: seq<byte>, blocks: seq<seq<byte>>) {
    && |bat| == |blocks|
    && forall i :: 0 <= i < |blocks| ==> LaidBlock(img, bat[i], bm, blocks[i])
  }

  ghost predicate LaidBlock(img: seq<byte>, entry: u32, bm: seq<byte>, block: seq<byte>) {
    if entry == HOLE then AllZero(block) else StoredAt(img, entry * SECTOR, bm, block)
  }

  // ----- the writer lays every block out -----

  /** The same footer at both ends of a file, `bat` after the header, and `data` from `start` to the trailing footer. */
  ghost predicate Parts(img: seq<byte>, bat: seq<byte>, start: nat, data: seq<byte>) {
    && 1536 + |bat| <= start && |img| == start + |data| + 512
    && img[|img| - 512..] == img[0..512]
    && img[1536..1536 + |bat|] == bat
    && img[start..start + |data|] == data
  }

  lemma Concatenation(img: seq<byte>, footer: seq<byte>, header: seq<byte>, bat: seq<byte>, pad: nat, data: seq<byte>)
    requires |footer| == 512 && |header| == 1024
    requires img == footer + header + (bat + Fill(pad, 0xFF)) + data + footer
    ensures Parts(img, bat, 1536 + |bat| + pad, data)
  {
  }

  lemma PlaceExtent(img: seq<byte>, start: nat, data: seq<byte>, blocks: seq<seq<byte>>, bm: seq<byte>, e: nat, i: nat)
    requires start + |data| <= |img| && img[start..start + |data|] == data
    requires i < |blocks| && forall k :: 0 <= k < |blocks| ==> |bm| + |blocks[k]| == e
    requires data == Extents(blocks, bm, |blocks|) && !AllZero(blocks[i])
    ensures StoredAt(img, start + Taken(blocks, e, i), bm, blocks[i])
  {
    ExtentAt(blocks, bm, e, i);
    HeadOfExtent(img, start, data, Taken(blocks, e, i), bm, blocks[i]);
  }

  lemma HeadOfExtent(img: seq<byte>, start: nat, data: seq<byte>, at: nat, bm: seq<byte>, block: seq<byte>)
    requires start + |data| <= |img| && img[start..start + |data|] == data
    requires at + |bm| + |block| <= |data| && data[at..at + (|bm| + |block|)] == bm + block
    ensures StoredAt(img, start + at, bm, block)
  {
    var x, from := bm + block, start + at;
    forall k | from <= k < from + |x|
      ensures img[k] == x[k - from]
    {
      assert img[k] == img[start..start + |data|][k - start] == data[at..at + |x|][k - from];
    }
    assert img[from..from + |bm|] == bm;
    assert img[from + |bm|..from + |x|] == block;
  }

  /** The blocks' layout, from the position of the data area alone. */
  lemma BlocksLaid(img: seq<byte>, data: seq<byte>, blocks: seq<seq<byte>>, bs: nat)
    requires bs > 0 && bs % SECTOR == 0 && FitsBlocks(blocks, bs)
    requires forall k :: 0 <= k < |blocks| ==> |blocks[k]| == bs
    requires data == Extents(blocks, FullBitmap(bs), |blocks|)
    requires Parts(img, BatBytes(BatOf(blocks, bs)), BlocksStart(|blocks|), data)
    ensures Laid(img, BatOf(blocks, bs), FullBitmap(bs), blocks)
  {
    BatExactIffFits(blocks, bs);
    forall i | 0 <= i < |blocks|
      ensures LaidBlock(img, BatOf(blocks, bs)[i], FullBitmap(bs), blocks[i])
    {
      BatAt(blocks, bs, i);
      if !AllZero(blocks[i]) {
        EntryAddress(blocks, bs, i);
        PlaceExtent(img, BlocksStart(|blocks|), data, blocks, FullBitmap(bs), ExtentSize(bs), i);
      }
    }
  }

  // ----- the reader recovers the layout -----

  lemma BatDecodes(bat: seq<u32>)
    ensures DecodeBat(BatBytes(bat), |bat|) == bat
  {
    forall i | 0 <= i < |bat|
      ensures DecodeBat(BatBytes(bat), |bat|)[i] == bat[i]
    {
      EntryDecodes(bat, i);
    }
  }

  lemma EntryDecodes(bat: seq<u32>, i: nat)
    requires i < |bat|
    ensures BE32(BatBytes(bat)[4 * i..4 * i + 4]) == bat[i]
  {
    BatBytesAt(bat, i);
    BE32RoundTrip(bat[i]);
  }

  lemma LaidBitmaps(img: seq<byte>, bat: seq<u32>, bm: seq<byte>, blocks: seq<seq<byte>>)
    requires Laid(img, bat, bm, blocks)
    ensures forall i :: 0 <= i < |bat| ==> ReadBitmap(img, bat[i], |bm|) == Ok(if bat[i] == HOLE then None else Some(bm))
  {
    forall i | 0 <= i < |bat|
      ensures ReadBitmap(img, bat[i], |bm|) == Ok(if bat[i] == HOLE then None else Some(bm))
    {
      assert LaidBlock(img, bat[i], bm, blocks[i]);
    }
  }

  lemma HeaderReads(hdr: seq<byte>, n: u32, bs: u32)
    requires IsHeader(hdr, n, bs)
    ensures BE64(hdr[16..24]) == 1536 && BE32(hdr[28..32]) == n && BE32(hdr[32..36]) == bs && hdr[0..8] == HEADER_COOKIE
  {
    BE64RoundTrip(1536);
    BE32RoundTrip(n);
    BE32RoundTrip(bs);
  }

  lemma BodyOpens(img: seq<byte>, size: u64, hdr: seq<byte>, bat: seq<u32>, bs: nat)
    requires BlockSizeOk(bs) && |bat| < U32_SPAN && IsHeader(hdr, |bat|, bs)
    requires 1536 + 4 * |bat| <= |img| && img[1536..1536 + 4 * |bat|] == BatBytes(bat)
    requires forall i :: 0 <= i < |bat| ==> ReadBitmap(img, bat[i], BitmapSize(bs)).Ok?
    ensures OpenBody(img, size, hdr) == Ok(Vhd(img, size, bs, BitmapSize(bs), bat, Bitmaps(img, bat, BitmapSize(bs))))
  {
    HeaderReads(hdr, |bat|, bs);
    BatDecodes(bat);
    assert ReadExact(img, 1536, 4 * |bat|) == Ok(BatBytes(bat));
  }

  /** A reader over laid-out blocks with full bitmaps. */
  ghost predicate Reads(v: Vhd, blocks: seq<seq<byte>>) {
    && v.Valid()
    && Laid(v.file, v.bat, FullBitmap(v.blockSize), blocks)
    && (forall k :: 0 <= k < |blocks| ==> |blocks[k]| == v.blockSize)
    && forall i :: 0 <= i < |blocks| && v.bat[i] != HOLE ==> v.bitmaps[i] == Some(FullBitmap(v.blockSize))
  }

  /** The fixed structures of an image: a footer at both ends, the header and the BAT. */
  ghost predicate Emitted(img: seq<byte>, size: u64, bs: nat, bat: seq<u32>) {
    && BlockSizeOk(bs) && |bat| < U32_SPAN && 1536 + 4 * |bat| + 512 <= |img|
    && FooterOf(img[|img| - 512..]) == Ok(VhdFooter(512, size, DYNAMIC_DISK))
    && IsHeader(img[512..1536], |bat|, bs)
    && img[1536..1536 + 4 * |bat|] == BatBytes(bat)
  }

  lemma PartsEmit(img: seq<byte>, size: u64, bs: nat, bat: seq<u32>, start: nat, data: seq<byte>)
    requires Parts(img, BatBytes(bat), start, data) && BlockSizeOk(bs) && |bat| < U32_SPAN
    requires FooterOf(img[0..512]) == Ok(VhdFooter(512, size, DYNAMIC_DISK)) && IsHeader(img[512..1536], |bat|, bs)
    ensures Emitted(img, size, bs, bat)
  {
    PartsTable(img, bat, start, data);
    FooterFirst(img, size, bs, bat);
  }

  lemma PartsTable(img: seq<byte>, bat: seq<u32>, start: nat, data: seq<byte>)
    requires Parts(img, BatBytes(bat), start, data)
    ensures 1536 + 4 * |bat| + 512 <= |img|
    ensures img[|img| - 512..] == img[0..512] && img[1536..1536 + 4 * |bat|] == BatBytes(bat)
  {
  }

  lemma FooterFirst(img: seq<byte>, size: u64, bs: nat, bat: seq<u32>)
    requires 1536 + 4 * |bat| + 512 <= |img|
    requires img[|img| - 512..] == img[0..512] && img[1536..1536 + 4 * |bat|] == BatBytes(bat)
    requires BlockSizeOk(bs) && |bat| < U32_SPAN && IsHeader(img[512..1536], |bat|, bs)
    requires FooterOf(img[0..512]) == Ok(VhdFooter(512, size, DYNAMIC_DISK))
    ensures Emitted(img, size, bs, bat)
  {
  }

  /** Where the emitted bytes keep the BAT and the blocks. */
  lemma ImageParts(src: seq<byte>, bs: nat, img: seq<byte>, blocks: seq<seq<byte>>)
    requires BlockSizeOk(bs) && IsImage(img, src, bs) && blocks == BlocksOf(src, bs)
    ensures Emitted(img, |src|, bs, BatOf(blocks, bs))
    ensures Parts(img, BatBytes(BatOf(blocks, bs)), BlocksStart(|blocks|), Extents(blocks, FullBitmap(bs), |blocks|))
  {
    var data, bat := Extents(blocks, FullBitmap(bs), |blocks|), BatOf(blocks, bs);
    Concatenation(img, img[0..512], img[512..1536], BatBytes(bat), BlocksStart(|blocks|) - 1536 - 4 * |blocks|, data);
    FooterRoundTrip(img[0..512], |src|);
    PartsEmit(img, |src|, bs, bat, BlocksStart(|blocks|), data);
  }

  lemma ImageLaid(src: seq<byte>, bs: nat, img: seq<byte>)
    requires BlockSizeOk(bs) && IsImage(img, src, bs) && Fits(src, bs)
    ensures Emitted(img, |src|, bs, BatOf(BlocksOf(src, bs), bs))
    ensures Laid(img, BatOf(BlocksOf(src, bs), bs), FullBitmap(bs), BlocksOf(src, bs))
  {
    var blocks := BlocksOf(src, bs);
    ImageParts(src, bs, img, blocks);
    BlocksLaid(img, Extents(blocks, FullBitmap(bs), |blocks|), blocks, bs);
  }

  /** Such a file opens whenever every bitmap can be read. */
  lemma EmittedOpens(img: seq<byte>, size: u64, bs: nat, bat: seq<u32>)
    requires Emitted(img, size, bs, bat)
    requires forall i :: 0 <= i < |bat| ==> ReadBitmap(img, bat[i], BitmapSize(bs)).Ok?
    ensures OpenSpec(img) == Ok(Vhd(img, size, bs, BitmapSize(bs), bat, Bitmaps(img, bat, BitmapSize(bs))))
  {
    BodyOpens(img, size, img[512..1536], bat, bs);
  }

  /** The file opened, with this size and block size, and these blocks where the reader looks for them. */
  ghost predicate Opens(r: Result<Vhd, IoError>, size: u64, bs: nat, blocks: seq<seq<byte>>) {
    r.Ok? && r.value.Valid() && r.value.virtualSize == size && r.value.blockSize == bs && Reads(r.value, blocks)
  }

  lemma LaidOpens(img: seq<byte>, size: u64, bat: seq<u32>, blocks: seq<seq<byte>>, bs: nat)
    requires Emitted(img, size, bs, bat) && Laid(img, bat, FullBitmap(bs), blocks)
    requires forall k :: 0 <= k < |blocks| ==> |blocks[k]| == bs
    ensures Opens(OpenSpec(img), size, bs, blocks)
  {
    LaidBitmaps(img, bat, FullBitmap(bs), blocks);
    EmittedOpens(img, size, bs, bat);
  }

  /** Opening the emitted bytes succeeds and recovers the size and the layout. */
  lemma OpensBack(src: seq<byte>, bs: nat, img: seq<byte>)
    requires BlockSizeOk(bs) && IsImage(img, src, bs) && Fits(src, bs)
    ensures Opens(OpenSpec(img), |src|, bs, BlocksOf(src, bs))
  {
    ImageLaid(src, bs, img);
    LaidOpens(img, |src|, BatOf(BlocksOf(src, bs), bs), BlocksOf(src, bs), bs);
  }

  // ----- reading a byte back -----

  lemma FullBitmapBits(bs: nat, k: nat)
    requires BlockSizeOk(bs) && k < bs / SECTOR
    ensures k / 8 < |FullBitmap(bs)| && BitSet(FullBitmap(bs), k)
  {
    BitInBitmap(bs, k);
    assert FullBitmap(bs)[k / 8] == 0xFF;
    OnesByte(7 - k % 8);
  }

  lemma OnesByte(j: nat)
    requires j < 8
    ensures (0xFF / Pow2(j)) % 2 == 1
  {
    assert j == 0 || j == 1 || j == 2 || j == 3 || j == 4 || j == 5 || j == 6 || j == 7;
  }

  /** A position reads the byte of the block it falls in. */
  lemma ReadsBlock(v: Vhd, blocks: seq<seq<byte>>, p: nat)
    requires Reads(v, blocks) && Quot(p, v.blockSize) < |blocks|
    ensures v.ByteAt(p) == Ok(blocks[Quot(p, v.blockSize)][Rem(p, v.blockSize)])
  {
    var i, x := Quot(p, v.blockSize), Rem(p, v.blockSize);
    assert LaidBlock(v.file, v.bat[i], FullBitmap(v.blockSize), blocks[i]);
    if v.bat[i] == HOLE {
      HoleReadsZero(v, p);
    } else {
      DataPositionOf(v, p);
      FullBitmapBits(v.blockSize, v.SectorInBlock(p / SECTOR));
      PresentSector(v, p, v.DataOffset(p / SECTOR));
      StoredByte(v.file, v.bat[i] * SECTOR, FullBitmap(v.blockSize), blocks[i], x);
    }
  }

  lemma StoredByte(img: seq<byte>, at: nat, bm: seq<byte>, block: seq<byte>, x: nat)
    requires StoredAt(img, at, bm, block) && x < |block|
    ensures at + |bm| + x < |img| && img[at + |bm| + x] == block[x]
  {
    assert img[at + |bm| + x] == img[at + |bm|..at + |bm| + |block|][x];
  }

  lemma BlockByte(src: seq<byte>, bs: nat, p: nat)
    requires bs > 0 && p < |src|
    ensures Quot(p, bs) < |BlocksOf(src, bs)|
    ensures BlocksOf(src, bs)[Quot(p, bs)][Rem(p, bs)] == src[p]
  {
    var i, x := Quot(p, bs), Rem(p, bs);
    QuotRem(p, bs);
    BlockStartInRange(|src|, bs, i);
    BlockAt(src, bs, i);
    assert BlockOf(src, bs, i)[x] == src[p];
  }

  /**
   * Flatten round trip: the emitted bytes open to a disk of the source's size whose every
   * byte, stored or skipped, is the source's.
   */
  lemma FlattenRoundTrip(src: seq<byte>, bs: nat, img: seq<byte>)
    requires BlockSizeOk(bs) && IsImage(img, src, bs) && Fits(src, bs)
    ensures OpenSpec(img).Ok?
    ensures OpenSpec(img).value.virtualSize == |src|
    ensures forall p :: 0 <= p < |src| ==> OpenSpec(img).value.ByteAt(p) == Ok(src[p])
  {
    OpensBack(src, bs, img);
    var v := OpenSpec(img).value;
    forall p | 0 <= p < |src|
      ensures v.ByteAt(p) == Ok(src[p])
    {
      BlockByte(src, bs, p);
      ReadsBlock(v, BlocksOf(src, bs), p);
    }
  }

  /** With the writer's own block size the round trip holds for every source of up to 2040 GiB. */
  lemma FlattenUpTo2040GiB(src: seq<byte>, img: seq<byte>)
    requires |src| <= 2040 * GIB && IsImage(img, src, DEFAULT_BLOCK_SIZE)
    ensures OpenSpec(img).Ok? && OpenSpec(img).value.virtualSize == |src|
    ensures forall p :: 0 <= p < |src| ==> OpenSpec(img).value.ByteAt(p) == Ok(src[p])
  {
    FitsUpTo2040GiB(src);
    FlattenRoundTrip(src, DEFAULT_BLOCK_SIZE, img);
  }

  /** The file opens as a disk whose bytes are `src`. */
  ghost predicate ReadsAs(img: seq<byte>, src: seq<byte>) {
    && OpenSpec(img).Ok? && OpenSpec(img).value.virtualSize == |src|
    && forall p :: 0 <= p < |src| ==> OpenSpec(img).value.ByteAt(p) == Ok(src[p])
  }

  method OpenAndRead(img: seq<byte>, ghost src: seq<byte>, offset: u64, buf: array<byte>) returns (r: Result<Unit, IoError>)
    modifies buf
    ensures ReadsAs(img, src) ==> (r.Ok? <==> offset + buf.Length <= |src|)
    ensures ReadsAs(img, src) && r.Ok? ==> buf[..] == src[offset..offset + buf.Length]
  {
    var disk := DynamicVhd.Open(img);
    if disk.Err? {
      return Err(disk.error);
    }
    r := disk.value.ReadAt(offset, buf);
  }

  /** What the writer demands of its source: fewer than 2^32 blocks, all readable. */
  predicate Writable(source: BackingStore) {
    DivCeil(|source.bytes|, DEFAULT_BLOCK_SIZE) < U32_SPAN && source.Readable(0, |source.bytes|)
  }

  /**
   * Flatten, open and read. The writer accepts every readable source with fewer than 2^32 blocks;
   * of one that fits, every range comes back, whatever the footer's clock bytes.
   */
  method FlattenAndRead(source: BackingStore, stamp: Stamp, offset: u64, buf: array<byte>) returns (r: Result<Unit, IoError>)
    requires stamp.Valid() && |source.bytes| < U64_SPAN
    modifies buf
    ensures !Writable(source) ==> r.Err?
    ensures Writable(source) && Fits(source.bytes, DEFAULT_BLOCK_SIZE) ==> (r.Ok? <==> offset + buf.Length <= |source.bytes|)
    ensures r.Ok? && Fits(source.bytes, DEFAULT_BLOCK_SIZE) ==>
              offset + buf.Length <= |source.bytes| && buf[..] == source.bytes[offset..offset + buf.Length]
  {
    DefaultIsPow2();
    var img := WriteDynamicVhd(source, DEFAULT_BLOCK_SIZE, stamp);
    if img.Err? {
      return Err(img.error);
    }
    if Fits(source.bytes, DEFAULT_BLOCK_SIZE) {
      FlattenRoundTrip(source.bytes, DEFAULT_BLOCK_SIZE, img.value);
    }
    r := OpenAndRead(img.value, source.bytes, offset, buf);
  }

  // ----- past the bound -----

  /** The first block of a dense 2 TiB source whose sector number wraps, and the BAT slot it then lies on. */
  const FIRST_WRAPPED: nat := 1048319
  const HIT_SLOT: nat := 491520

  /** A 2 TiB source without a zero block. */
  ghost predicate DenseTwoTiB(src: seq<byte>) {
    |src| == 2048 * GIB && forall i :: 0 <= i < |BlocksOf(src, DEFAULT_BLOCK_SIZE)| ==> !AllZero(BlocksOf(src, DEFAULT_BLOCK_SIZE)[i])
  }

  /** Its BAT, as far as the loss is concerned. */
  predicate DenseBat(bat: seq<u32>) {
    |bat| == 1048576 && bat[FIRST_WRAPPED] == 3842 && bat[HIT_SLOT] == 2013765635
  }

  lemma DenseEntries(blocks: seq<seq<byte>>, bs: nat)
    requires |blocks| == 1048576 && bs == DEFAULT_BLOCK_SIZE
    requires forall i :: 0 <= i < |blocks| ==> !AllZero(blocks[i])
    ensures DenseBat(BatOf(blocks, bs))
  {
    assert FirstSector(|blocks|) == 8195 && UnitSectors(bs) == 4097;
    BatAt(blocks, bs, FIRST_WRAPPED);
    TakenOfAll(blocks, 4097, FIRST_WRAPPED);
    BatAt(blocks, bs, HIT_SLOT);
    TakenOfAll(blocks, 4097, HIT_SLOT);
  }

  lemma DenseLength(blocks: seq<seq<byte>>, bs: nat)
    requires |blocks| == 1048576 && bs == DEFAULT_BLOCK_SIZE
    requires forall i :: 0 <= i < |blocks| ==> |blocks[i]| == bs && !AllZero(blocks[i])
    ensures |Extents(blocks, FullBitmap(bs), |blocks|)| >= U32_SPAN * SECTOR
  {
    assert |FullBitmap(bs)| + bs == 2097664;
    ExtentsLength(blocks, FullBitmap(bs), 2097664, |blocks|);
    TakenOfAll(blocks, 2097664, |blocks|);
  }

  /** A file so long that every 32-bit sector number lies inside it opens, whatever its BAT says. */
  lemma LongFileOpens(img: seq<byte>, size: u64, bs: nat, bat: seq<u32>)
    requires Emitted(img, size, bs, bat) && BitmapSize(bs) == SECTOR && |img| >= U32_SPAN * SECTOR
    ensures OpenedAs(OpenSpec(img), img, size, bs, bat)
  {
    forall i | 0 <= i < |bat|
      ensures ReadBitmap(img, bat[i], BitmapSize(bs)).Ok?
    {
      assert bat[i] * SECTOR + SECTOR <= U32_SPAN * SECTOR;
    }
    EmittedOpens(img, size, bs, bat);
  }

  ghost predicate OpenedAs(r: Result<Vhd, IoError>, file: seq<byte>, size: u64, bs: nat, bat: seq<u32>) {
    && r.Ok? && r.value.Valid() && r.value.file == file && r.value.virtualSize == size
    && r.value.blockSize == bs && r.value.bat == bat
  }

  lemma TableByte(img: seq<byte>, bat: seq<u32>, i: nat)
    requires 1536 + 4 * |bat| <= |img| && img[1536..1536 + 4 * |bat|] == BatBytes(bat) && i < |bat|
    ensures img[1536 + 4 * i] == ToBE(bat[i], 4)[0]
  {
    BatBytesAt(bat, i);
    assert img[1536 + 4 * i] == BatBytes(bat)[4 * i];
    assert BatBytes(bat)[4 * i..4 * i + 4][0] == BatBytes(bat)[4 * i];
  }

  lemma TopByte()
    ensures ToBE(2013765635, 4)[0] == 0x78
  {
    assert ToBE(2013765635, 4) == ToBE(7866272, 3) + [2013765635 % 256];
    assert ToBE(7866272, 3) == ToBE(30727, 2) + [7866272 % 256];
    assert ToBE(30727, 2) == ToBE(120, 1) + [30727 % 256];
    assert ToBE(120, 1) == ToBE(0, 0) + [120];
  }

  /** The first byte of a stored block is read from behind its bitmap, or as zero if its bit is clear. */
  lemma FirstByteOf(v: Vhd, i: nat, p: nat)
    requires v.Valid() && p == i * v.blockSize && i < |v.bat| && v.bat[i] != HOLE
    ensures v.ByteAt(p) == Ok(0) || v.ByteAt(p) == FileByte(v.file, v.bat[i] * SECTOR + v.bitmapSize)
  {
    DivUnique(p, v.blockSize, i, 0);
    assert Quot(p, v.blockSize) == i && Rem(p, v.blockSize) == 0;
    DataPositionOf(v, p);
    if v.SectorOffset(p / SECTOR).value.Some? {
      PresentSector(v, p, v.DataOffset(p / SECTOR));
    }
  }

  /** The reader follows the first wrapped entry into the BAT, where it finds the top byte of another entry. */
  lemma WrappedReads(img: seq<byte>, size: u64, bs: nat, bat: seq<u32>)
    requires Emitted(img, size, bs, bat) && bs == DEFAULT_BLOCK_SIZE && |img| >= U32_SPAN * SECTOR && DenseBat(bat)
    ensures OpenSpec(img).Ok? && OpenSpec(img).value.virtualSize == size
    ensures ZeroOr78(OpenSpec(img).value.ByteAt(FIRST_WRAPPED * DEFAULT_BLOCK_SIZE))
  {
    LongFileOpens(img, size, bs, bat);
    FirstByteOf(OpenSpec(img).value, FIRST_WRAPPED, FIRST_WRAPPED * DEFAULT_BLOCK_SIZE);
    TableByte(img, bat, HIT_SLOT);
    TopByte();
  }

  predicate ZeroOr78(b: Result<byte, IoError>) {
    b == Ok(0) || b == Ok(0x78)
  }

  /**
   * Data is lost past the bound: the image of a dense 2 TiB source opens, with the right size, but the
   * first byte of its first wrapped block reads as 0 or 0x78, whatever the source has there.
   */
  lemma DenseTwoTiBReads(src: seq<byte>, img: seq<byte>)
    requires DenseTwoTiB(src) && IsImage(img, src, DEFAULT_BLOCK_SIZE)
    ensures OpenSpec(img).Ok? && OpenSpec(img).value.virtualSize == |src|
    ensures ZeroOr78(OpenSpec(img).value.ByteAt(FIRST_WRAPPED * DEFAULT_BLOCK_SIZE))
  {
    DenseSizes(|src|, DEFAULT_BLOCK_SIZE);
    DenseLost(src, DEFAULT_BLOCK_SIZE, img);
  }

  lemma DenseSizes(size: nat, bs: nat)
    requires size == 2048 * GIB && bs == DEFAULT_BLOCK_SIZE
    ensures DivCeil(size, bs) == 1048576 && BlockSizeOk(bs)
  {
    DefaultIsPow2();
  }

  lemma DenseLost(src: seq<byte>, bs: nat, img: seq<byte>)
    requires bs == DEFAULT_BLOCK_SIZE && BlockSizeOk(bs) && IsImage(img, src, bs) && DivCeil(|src|, bs) == 1048576
    requires forall i :: 0 <= i < |BlocksOf(src, bs)| ==> !AllZero(BlocksOf(src, bs)[i])
    ensures OpenSpec(img).Ok? && OpenSpec(img).value.virtualSize == |src|
    ensures ZeroOr78(OpenSpec(img).value.ByteAt(FIRST_WRAPPED * DEFAULT_BLOCK_SIZE))
  {
    var blocks := BlocksOf(src, bs);
    DenseEntries(blocks, bs);
    DenseLength(blocks, bs);
    ImageParts(src, bs, img, blocks);
    WrappedReads(img, |src|, bs, BatOf(blocks, bs));
  }

  /** A 2 TiB source of nothing but ones does not come back. */
  lemma OnesTwoTiBLosesData(src: seq<byte>, img: seq<byte>)
    requires |src| == 2048 * GIB && (forall k :: 0 <= k < |src| ==> src[k] == 1)
    requires IsImage(img, src, DEFAULT_BLOCK_SIZE)
    ensures OpenSpec(img).Ok? && OpenSpec(img).value.virtualSize == |src|
    ensures OpenSpec(img).value.ByteAt(FIRST_WRAPPED * DEFAULT_BLOCK_SIZE) != Ok(src[FIRST_WRAPPED * DEFAULT_BLOCK_SIZE])
  {
    OnesAreDense(src, DEFAULT_BLOCK_SIZE);
    DenseTwoTiBReads(src, img);
  }

  lemma OnesAreDense(src: seq<byte>, bs: nat)
    requires bs > 0 && forall k :: 0 <= k < |src| ==> src[k] == 1
    ensures forall i :: 0 <= i < |BlocksOf(src, bs)| ==> !AllZero(BlocksOf(src, bs)[i])
  {
    forall i | 0 <= i < |BlocksOf(src, bs)|
      ensures !AllZero(BlocksOf(src, bs)[i])
    {
      BlockAt(src, bs, i);
      assert BlockOf(src, bs, i)[0] == 1;
    }
  }
}
