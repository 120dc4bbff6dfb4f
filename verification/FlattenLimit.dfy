/**
 * Past the size bound (vhd/write.rs:139-167). Which blocks are all zeros decides whether the image fits, and
 * if it does not, sources with exactly these zero blocks do not all come back: of two that differ only from
 * a block on whose sector number is out of range, at most one does.
 */
module FlattenLimit {
  import opened Bytes
  import opened Wrappers
  import opened Store
  import opened BlockMap
  import opened VhdFormat
  import opened VhdWriter
  import opened DynamicVhd
  import opened Flatten

  /** The same blocks are all zeros. */
  ghost predicate SamePattern(xs: seq<seq<byte>>, ys: seq<seq<byte>>) {
    |xs| == |ys| && forall i :: 0 <= i < |xs| ==> (AllZero(xs[i]) <==> AllZero(ys[i]))
  }

  lemma {:induction false} TakenSame(xs: seq<seq<byte>>, ys: seq<seq<byte>>, e: nat, i: nat)
    requires SamePattern(xs, ys) && i <= |xs|
    ensures Taken(xs, e, i) == Taken(ys, e, i)
  {
    if i > 0 {
      TakenSame(xs, ys, e, i - 1);
    }
  }

  lemma BatSame(xs: seq<seq<byte>>, ys: seq<seq<byte>>, bs: nat)
    requires SamePattern(xs, ys)
    ensures BatOf(xs, bs) == BatOf(ys, bs)
    ensures FitsBlocks(xs, bs) <==> FitsBlocks(ys, bs)
  {
    TakenSame(xs, ys, UnitSectors(bs), |xs|);
    forall i | 0 <= i < |xs|
      ensures BatOf(xs, bs)[i] == BatOf(ys, bs)[i]
    {
      BatAt(xs, bs, i);
      BatAt(ys, bs, i);
      TakenSame(xs, ys, UnitSectors(bs), i);
    }
  }

  // ----- the two images agree up to the block -----

  lemma {:induction false} ExtentsSame(xs: seq<seq<byte>>, ys: seq<seq<byte>>, bm: seq<byte>, i: nat)
    requires i <= |xs| && i <= |ys| && forall k :: 0 <= k < i ==> xs[k] == ys[k]
    ensures Extents(xs, bm, i) == Extents(ys, bm, i)
  {
    if i > 0 {
      ExtentsSame(xs, ys, bm, i - 1);
    }
  }

  /** The files are equally long and agree below `at`. */
  ghost predicate AgreeBelow(f: seq<byte>, g: seq<byte>, at: nat) {
    |f| == |g| && at <= |f| && f[..at] == g[..at]
  }

  lemma AgreeInside(front: seq<byte>, x: seq<byte>, y: seq<byte>, back: seq<byte>, m: nat)
    requires |x| == |y| && m <= |x| && x[..m] == y[..m]
    ensures AgreeBelow(front + x + back, front + y + back, |front| + m)
  {
    assert (front + x + back)[..|front| + m] == front + x[..m];
    assert (front + y + back)[..|front| + m] == front + y[..m];
  }

  lemma ExtentsAgree(xs: seq<seq<byte>>, ys: seq<seq<byte>>, bm: seq<byte>, e: nat, i: nat)
    requires SamePattern(xs, ys) && i <= |xs| && forall k :: 0 <= k < i ==> xs[k] == ys[k]
    requires forall k :: 0 <= k < |xs| ==> |bm| + |xs[k]| == e && |bm| + |ys[k]| == e
    ensures var (x, y, m) := (Extents(xs, bm, |xs|), Extents(ys, bm, |ys|), Taken(xs, e, i));
            |x| == |y| && m <= |x| && x[..m] == y[..m]
  {
    TakenSame(xs, ys, e, |xs|);
    ExtentsLength(xs, bm, e, |xs|);
    ExtentsLength(ys, bm, e, |ys|);
    ExtentsLength(xs, bm, e, i);
    ExtentsGrow(xs, bm, i, |xs|);
    ExtentsGrow(ys, bm, i, |ys|);
    ExtentsSame(xs, ys, bm, i);
  }

  /** What precedes the blocks. */
  function FrontOf(bat: seq<u32>, footer: seq<byte>, header: seq<byte>): (front: seq<byte>)
    requires |footer| == 512 && |header| == 1024
    ensures |front| == BlocksStart(|bat|)
  {
    footer + header + (BatBytes(bat) + Fill(BlocksStart(|bat|) - 1536 - 4 * |bat|, 0xFF))
  }

  /** A whole file: `Image` in terms of the blocks. */
  function FileOf(blocks: seq<seq<byte>>, bs: nat, footer: seq<byte>, header: seq<byte>): seq<byte>
    requires |footer| == 512 && |header| == 1024
  {
    FrontOf(BatOf(blocks, bs), footer, header) + Extents(blocks, FullBitmap(bs), |blocks|) + footer
  }

  lemma ImageIsFile(src: seq<byte>, bs: nat, img: seq<byte>)
    requires BlockSizeOk(bs) && IsImage(img, src, bs)
    ensures img == FileOf(BlocksOf(src, bs), bs, img[0..512], img[512..1536])
    ensures Emitted(img, |src|, bs, BatOf(BlocksOf(src, bs), bs))
  {
    ImageParts(src, bs, img, BlocksOf(src, bs));
  }

  lemma FilesAgree(xs: seq<seq<byte>>, ys: seq<seq<byte>>, bs: nat, footer: seq<byte>, header: seq<byte>, i: nat)
    requires |footer| == 512 && |header| == 1024 && SamePattern(xs, ys) && i <= |xs|
    requires forall k :: 0 <= k < |xs| ==> |xs[k]| == bs && |ys[k]| == bs
    requires forall k :: 0 <= k < i ==> xs[k] == ys[k]
    ensures AgreeBelow(FileOf(xs, bs, footer, header), FileOf(ys, bs, footer, header), BlocksStart(|xs|) + Taken(xs, ExtentSize(bs), i))
  {
    BatSame(xs, ys, bs);
    ExtentsAgree(xs, ys, FullBitmap(bs), ExtentSize(bs), i);
    AgreeInside(FrontOf(BatOf(xs, bs), footer, header), Extents(xs, FullBitmap(bs), |xs|), Extents(ys, FullBitmap(bs), |ys|),
                footer, Taken(xs, ExtentSize(bs), i));
  }

  // ----- the reader looks below the block -----

  /** A stored block's place in the file, whether or not its sector number fits 32 bits. */
  lemma SectorAddress(blocks: seq<seq<byte>>, bs: nat, i: nat)
    requires bs > 0 && bs % SECTOR == 0 && i <= |blocks|
    ensures SectorOf(blocks, FirstSector(|blocks|), UnitSectors(bs), i) * SECTOR
         == BlocksStart(|blocks|) + Taken(blocks, ExtentSize(bs), i)
  {
    ExtentSectors(bs);
    StartAligned(|blocks|);
    TakenSectors(blocks, ExtentSize(bs), i);
  }

  /** The wrapped number of a block out of range, unless it is taken for a hole, leads to before the block. */
  lemma WrapsBelow(sector: nat, bs: nat)
    requires BlockSizeOk(bs) && sector >= HOLE && Wrap32(sector) != HOLE
    ensures Wrap32(sector) * SECTOR + ExtentSize(bs) <= sector * SECTOR
  {
    assert sector >= U32_SPAN;
    WrapLess(sector);
    ExtentSmall(bs);
  }

  lemma WrapLess(sector: nat)
    requires sector >= U32_SPAN
    ensures Wrap32(sector) + U32_SPAN <= sector
  {
  }

  lemma ExtentSmall(bs: nat)
    requires BlockSizeOk(bs)
    ensures ExtentSize(bs) <= U32_SPAN * SECTOR
  {
  }

  /** Readers with the same BAT whose files agree below `at` return the same byte of a block that lies below it. */
  lemma SameByte(v: Vhd, w: Vhd, at: nat, p: nat)
    requires v.Valid() && w.Valid() && v.blockSize == w.blockSize && v.bat == w.bat
    requires AgreeBelow(v.file, w.file, at) && Quot(p, v.blockSize) < |v.bat|
    requires var i := Quot(p, v.blockSize);
             v.bat[i] == HOLE || (v.bitmaps[i] == w.bitmaps[i] && v.bat[i] * SECTOR + v.bitmapSize + v.blockSize <= at)
    ensures v.ByteAt(p) == w.ByteAt(p)
  {
    if v.bat[Quot(p, v.blockSize)] == HOLE {
      HoleReadsZero(v, p);
      HoleReadsZero(w, p);
    } else {
      DataPositionOf(v, p);
      DataPositionOf(w, p);
      var off := v.DataOffset(p / SECTOR) + p % SECTOR;
      assert off < at;
      assert v.file[off] == v.file[..at][off] == w.file[..at][off] == w.file[off];
      if v.SectorOffset(p / SECTOR) == Ok(Some(v.DataOffset(p / SECTOR))) {
        PresentSector(v, p, v.DataOffset(p / SECTOR));
        PresentSector(w, p, v.DataOffset(p / SECTOR));
      }
    }
  }

  // ----- opening either image -----

  /** If a file with these structures opens at all, then with this BAT, and every bitmap was read. */
  lemma BodyFields(img: seq<byte>, size: u64, hdr: seq<byte>, bat: seq<u32>, bs: nat)
    requires BlockSizeOk(bs) && |bat| < U32_SPAN && IsHeader(hdr, |bat|, bs)
    requires 1536 + 4 * |bat| <= |img| && img[1536..1536 + 4 * |bat|] == BatBytes(bat)
    requires OpenBody(img, size, hdr).Ok?
    ensures forall i :: 0 <= i < |bat| ==> ReadBitmap(img, bat[i], BitmapSize(bs)).Ok?
  {
    HeaderReads(hdr, |bat|, bs);
    BatDecodes(bat);
    assert ReadExact(img, 1536, 4 * |bat|) == Ok(BatBytes(bat));
  }

  lemma EmittedFields(img: seq<byte>, size: u64, bs: nat, bat: seq<u32>)
    requires Emitted(img, size, bs, bat) && OpenSpec(img).Ok?
    ensures OpenedAs(OpenSpec(img), img, size, bs, bat)
    ensures forall i :: 0 <= i < |bat| ==> Ok(OpenSpec(img).value.bitmaps[i]) == ReadBitmap(img, bat[i], BitmapSize(bs))
  {
    BodyFields(img, size, img[512..1536], bat, bs);
    EmittedOpens(img, size, bs, bat);
  }

  lemma SameBitmap(f: seq<byte>, g: seq<byte>, at: nat, entry: u32, size: nat)
    requires AgreeBelow(f, g, at) && entry * SECTOR + size <= at
    ensures ReadBitmap(f, entry, size) == ReadBitmap(g, entry, size)
  {
    if size > 0 {
      assert f[entry * SECTOR..entry * SECTOR + size] == f[..at][entry * SECTOR..entry * SECTOR + size];
      assert g[entry * SECTOR..entry * SECTOR + size] == g[..at][entry * SECTOR..entry * SECTOR + size];
    }
  }

  /** Whatever the two images open to reads the same byte in a block whose entry leads to below `at`. */
  lemma SameByteOpened(f: seq<byte>, g: seq<byte>, size: u64, bs: nat, bat: seq<u32>, at: nat, p: nat)
    requires Emitted(f, size, bs, bat) && Emitted(g, size, bs, bat) && AgreeBelow(f, g, at)
    requires OpenSpec(f).Ok? && OpenSpec(g).Ok? && Quot(p, bs) < |bat|
    requires bat[Quot(p, bs)] == HOLE || bat[Quot(p, bs)] * SECTOR + ExtentSize(bs) <= at
    ensures OpenSpec(f).value.ByteAt(p) == OpenSpec(g).value.ByteAt(p)
  {
    EmittedFields(f, size, bs, bat);
    EmittedFields(g, size, bs, bat);
    var i := Quot(p, bs);
    if bat[i] != HOLE {
      SameBitmap(f, g, at, bat[i], BitmapSize(bs));
    }
    SameByte(OpenSpec(f).value, OpenSpec(g).value, at, p);
  }

  /** Block `i` is stored, from a sector on that the BAT has no number for. */
  ghost predicate OutOfRange(blocks: seq<seq<byte>>, bs: nat, i: nat) {
    i < |blocks| && !AllZero(blocks[i]) && SectorOf(blocks, FirstSector(|blocks|), UnitSectors(bs), i) >= HOLE
  }

  lemma EntryLeadsBelow(blocks: seq<seq<byte>>, bs: nat, i: nat)
    requires BlockSizeOk(bs) && OutOfRange(blocks, bs, i)
    ensures var (entry, at) := (BatOf(blocks, bs)[i], BlocksStart(|blocks|) + Taken(blocks, ExtentSize(bs), i));
            entry == HOLE || entry * SECTOR + ExtentSize(bs) <= at
  {
    BatAt(blocks, bs, i);
    SectorAddress(blocks, bs, i);
    if BatOf(blocks, bs)[i] != HOLE {
      WrapsBelow(SectorOf(blocks, FirstSector(|blocks|), UnitSectors(bs), i), bs);
    }
  }

  /** The files of two such lists of blocks read the same byte there. */
  lemma SameByteOfFiles(
    xs: seq<seq<byte>>, ys: seq<seq<byte>>, bs: nat, size: u64, footer: seq<byte>, header: seq<byte>, f: seq<byte>, g: seq<byte>, p: nat)
    requires |footer| == 512 && |header| == 1024 && BlockSizeOk(bs)
    requires f == FileOf(xs, bs, footer, header) && g == FileOf(ys, bs, footer, header)
    requires Emitted(f, size, bs, BatOf(xs, bs)) && Emitted(g, size, bs, BatOf(ys, bs))
    requires forall k :: 0 <= k < |xs| && k < |ys| ==> |xs[k]| == bs && |ys[k]| == bs
    requires SamePattern(xs, ys) && OutOfRange(xs, bs, Quot(p, bs)) && forall k :: 0 <= k < Quot(p, bs) ==> xs[k] == ys[k]
    requires OpenSpec(f).Ok? && OpenSpec(g).Ok?
    ensures OpenSpec(f).value.ByteAt(p) == OpenSpec(g).value.ByteAt(p)
  {
    var i := Quot(p, bs);
    BatSame(xs, ys, bs);
    FilesAgree(xs, ys, bs, footer, header, i);
    EntryLeadsBelow(xs, bs, i);
    SameByteOpened(f, g, size, bs, BatOf(xs, bs), BlocksStart(|xs|) + Taken(xs, ExtentSize(bs), i), p);
  }

  /**
   * Of two sources with the same zero blocks that agree before a block out of range and differ in it, written
   * with the same footer and header, at most one comes back.
   */
  lemma OneComesBack(src: seq<byte>, other: seq<byte>, bs: nat, img: seq<byte>, image: seq<byte>, p: nat)
    requires BlockSizeOk(bs) && IsImage(img, src, bs) && IsImage(image, other, bs)
    requires img[0..512] == image[0..512] && img[512..1536] == image[512..1536]
    requires |other| == |src| && p < |src| && other[p] != src[p]
    requires SamePattern(BlocksOf(src, bs), BlocksOf(other, bs)) && OutOfRange(BlocksOf(src, bs), bs, Quot(p, bs))
    requires forall k :: 0 <= k < Quot(p, bs) ==> BlocksOf(src, bs)[k] == BlocksOf(other, bs)[k]
    ensures !(ReadsAs(img, src) && ReadsAs(image, other))
  {
    ImageIsFile(src, bs, img);
    ImageIsFile(other, bs, image);
    if ReadsAs(img, src) && ReadsAs(image, other) {
      SameByteOfFiles(BlocksOf(src, bs), BlocksOf(other, bs), bs, |src|, img[0..512], img[512..1536], img, image, p);
    }
  }

  // ----- there always is such a pair -----

  /** A byte of a block is the source's byte there, or zero past the source's end. */
  lemma BlockCell(src: seq<byte>, bs: nat, i: nat, x: nat)
    requires bs > 0 && i < |BlocksOf(src, bs)| && x < bs
    ensures i * bs >= 0
    ensures BlocksOf(src, bs)[i][x] == if i * bs + x < |src| then src[i * bs + x] else 0
  {
    BlockAt(src, bs, i);
    MulNat(i, bs);
    assert BlockOf(src, bs, i)[x] == if i * bs + x < |src| then src[i * bs + x] else 0;
  }

  /** Changing one byte of the source changes one byte of one block. */
  lemma OtherBlocks(src: seq<byte>, bs: nat, i: nat, x: nat, p: nat, b: byte, k: nat)
    requires bs > 0 && x < bs && p == i * bs + x && p < |src| && k < |BlocksOf(src, bs)|
    ensures k < |BlocksOf(src[p := b], bs)|
    ensures k != i ==> BlocksOf(src[p := b], bs)[k] == BlocksOf(src, bs)[k]
    ensures k == i ==> BlocksOf(src[p := b], bs)[k][x] == b
  {
    var other := src[p := b];
    forall y | 0 <= y < bs && k != i
      ensures BlocksOf(other, bs)[k][y] == BlocksOf(src, bs)[k][y]
    {
      BlockCell(src, bs, k, y);
      BlockCell(other, bs, k, y);
      if k * bs + y == p {
        DivUnique(p, bs, k, y);
        DivUnique(p, bs, i, x);
      }
    }
    BlockCell(other, bs, k, x);
  }

  lemma ImageOfOther(src: seq<byte>, other: seq<byte>, bs: nat, img: seq<byte>) returns (image: seq<byte>)
    requires BlockSizeOk(bs) && IsImage(img, src, bs) && |other| == |src|
    ensures IsImage(image, other, bs) && image[0..512] == img[0..512] && image[512..1536] == img[512..1536]
  {
    var footer, header := img[0..512], img[512..1536];
    image := Image(other, bs, footer, header);
    ImageHasHeads(BlocksOf(other, bs), bs, footer, header);
  }

  lemma ImageHasHeads(blocks: seq<seq<byte>>, bs: nat, footer: seq<byte>, header: seq<byte>)
    requires |footer| == 512 && |header| == 1024
    ensures var file := FileOf(blocks, bs, footer, header);
            |file| >= 1536 && file[0..512] == footer && file[512..1536] == header
  {
    FrontHeads(footer, header, BatBytes(BatOf(blocks, bs)) + Fill(BlocksStart(|blocks|) - 1536 - 4 * |blocks|, 0xFF),
               Extents(blocks, FullBitmap(bs), |blocks|), footer);
  }

  lemma FrontHeads(footer: seq<byte>, header: seq<byte>, table: seq<byte>, data: seq<byte>, end: seq<byte>)
    requires |footer| == 512 && |header| == 1024
    ensures var file := footer + header + table + data + end;
            |file| >= 1536 && file[0..512] == footer && file[512..1536] == header
  {
  }

  /** A source with the same zero blocks that differs in one byte of block `i`, and its image with the same heads. */
  lemma Rival(src: seq<byte>, bs: nat, img: seq<byte>, i: nat) returns (other: seq<byte>, image: seq<byte>, p: nat)
    requires BlockSizeOk(bs) && IsImage(img, src, bs) && i < |BlocksOf(src, bs)| && !AllZero(BlocksOf(src, bs)[i])
    ensures |other| == |src| && p < |src| && Quot(p, bs) == i && other[p] != src[p]
    ensures IsImage(image, other, bs) && image[0..512] == img[0..512] && image[512..1536] == img[512..1536]
    ensures SamePattern(BlocksOf(src, bs), BlocksOf(other, bs))
    ensures forall k :: 0 <= k < i ==> BlocksOf(src, bs)[k] == BlocksOf(other, bs)[k]
  {
    var x :| 0 <= x < bs && BlocksOf(src, bs)[i][x] != 0;
    BlockCell(src, bs, i, x);
    p := i * bs + x;
    DivUnique(p, bs, i, x);
    var b: byte := if src[p] == 1 then 2 else 1;
    other := src[p := b];
    forall k | 0 <= k < |BlocksOf(src, bs)|
      ensures k != i ==> BlocksOf(other, bs)[k] == BlocksOf(src, bs)[k]
      ensures AllZero(BlocksOf(src, bs)[k]) <==> AllZero(BlocksOf(other, bs)[k])
    {
      OtherBlocks(src, bs, i, x, p, b, k);
    }
    image := ImageOfOther(src, other, bs, img);
  }

  /** Every source of this size with these zero blocks comes back, whatever the clock bytes of its image. */
  ghost predicate PatternComesBack(src: seq<byte>, bs: nat)
    requires bs > 0
  {
    forall other: seq<byte>, image: seq<byte> | |other| == |src| && SamePattern(BlocksOf(src, bs), BlocksOf(other, bs)) ::
      IsImage(image, other, bs) ==> ReadsAs(image, other)
  }

  lemma PatternReturns(src: seq<byte>, bs: nat)
    requires BlockSizeOk(bs) && Fits(src, bs)
    ensures PatternComesBack(src, bs)
  {
    forall other: seq<byte>, image: seq<byte> |
      |other| == |src| && SamePattern(BlocksOf(src, bs), BlocksOf(other, bs)) && IsImage(image, other, bs)
      ensures ReadsAs(image, other)
    {
      BatSame(BlocksOf(src, bs), BlocksOf(other, bs), bs);
      FlattenRoundTrip(other, bs, image);
    }
  }

  lemma FindOutOfRange(blocks: seq<seq<byte>>, bs: nat) returns (i: nat)
    requires BlockSizeOk(bs) && !FitsBlocks(blocks, bs)
    ensures OutOfRange(blocks, bs, i)
  {
    i := LastStored(blocks, UnitSectors(bs), |blocks|);
  }

  lemma PatternLoses(src: seq<byte>, bs: nat, img: seq<byte>)
    requires BlockSizeOk(bs) && IsImage(img, src, bs) && !Fits(src, bs)
    ensures !PatternComesBack(src, bs)
  {
    var i := FindOutOfRange(BlocksOf(src, bs), bs);
    var other, image, p := Rival(src, bs, img, i);
    OneComesBack(src, other, bs, img, image, p);
    if PatternComesBack(src, bs) {
      assert SamePattern(BlocksOf(src, bs), BlocksOf(src, bs));
    }
  }

  /**
   * Exactly: for any size, legal block size and set of zero blocks, every source that has just these zero
   * blocks comes back from its image if and only if the image fits.
   */
  lemma PatternIff(src: seq<byte>, bs: nat, img: seq<byte>)
    requires BlockSizeOk(bs) && IsImage(img, src, bs)
    ensures PatternComesBack(src, bs) <==> Fits(src, bs)
  {
    if Fits(src, bs) {
      PatternReturns(src, bs);
    } else {
      PatternLoses(src, bs, img);
    }
  }
}
