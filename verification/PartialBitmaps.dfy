/**
 * Sector bitmaps as sets of sectors, and reads of blocks of which only some sectors have been written
 * (storage/vhd/dynamic.rs:103-136, storage/vhd/chain.rs:57-106).
 */
module PartialBitmaps {
  import opened Bytes
  import opened Wrappers
  import opened Store
  import opened BlockMap
  import opened VhdFormat
  import opened VhdWriter
  import opened DynamicVhd
  import opened ChainedVhd

  // ----- one byte -----

  /** What the sector at place `j` of a byte adds to it: the first sector is the most significant bit. */
  function Weight(j: nat): byte
    requires j < 8
  {
    [0x80, 0x40, 0x20, 0x10, 0x08, 0x04, 0x02, 0x01][j]
  }

  /** A row of bits as a number, the first the most significant. */
  function Value(bits: seq<bool>): nat {
    if bits == [] then 0 else 2 * Value(bits[..|bits| - 1]) + if bits[|bits| - 1] then 1 else 0
  }

  lemma Double(m: nat)
    requires m < 7
    ensures DynamicVhd.Pow2(m + 1) == 2 * DynamicVhd.Pow2(m)
  {
    assert m == 0 || m == 1 || m == 2 || m == 3 || m == 4 || m == 5 || m == 6;
  }

  lemma {:induction false} ValueBound(bits: seq<bool>)
    requires |bits| < 8
    ensures Value(bits) < DynamicVhd.Pow2(|bits|)
  {
    if bits != [] {
      ValueBound(bits[..|bits| - 1]);
      Double(|bits| - 1);
    }
  }

  /** The byte of eight sectors. */
  function ByteOf(bits: seq<bool>): byte
    requires |bits| == 8
  {
    ValueBound(bits[..7]);
    Value(bits)
  }

  lemma Halved(a: nat, b: nat, q: nat)
    requires q > 0 && b < 2
    ensures (2 * a + b) / (2 * q) == a / q
  {
    var d, r := a / q, a % q;
    assert a == d * q + r;
    assert 2 * a + b == d * (2 * q) + (2 * r + b);
    DivUnique(2 * a + b, 2 * q, d, 2 * r + b);
  }

  lemma {:induction false} ValueBit(bits: seq<bool>, j: nat)
    requires j < |bits| <= 8
    ensures Value(bits) / DynamicVhd.Pow2(|bits| - 1 - j) % 2 == 1 <==> bits[j]
  {
    var n := |bits|;
    var front, last := bits[..n - 1], if bits[n - 1] then 1 else 0;
    if j == n - 1 {
      assert Value(bits) == 2 * Value(front) + last;
    } else {
      ValueBit(front, j);
      Double(n - 2 - j);
      Halved(Value(front), last, DynamicVhd.Pow2(n - 2 - j));
    }
  }

  lemma {:induction false} ValueMark(bits: seq<bool>, j: nat)
    requires j < |bits| <= 8 && !bits[j]
    ensures Value(bits[j := true]) == Value(bits) + DynamicVhd.Pow2(|bits| - 1 - j)
  {
    var n, more := |bits|, bits[j := true];
    if j == n - 1 {
      assert more[..n - 1] == bits[..n - 1];
    } else {
      ValueMark(bits[..n - 1], j);
      Double(n - 2 - j);
      assert more[..n - 1] == bits[..n - 1][j := true];
    }
  }

  lemma {:induction false} ValueOnto(v: nat, n: nat) returns (bits: seq<bool>)
    requires n <= 8 && (if n < 8 then v < DynamicVhd.Pow2(n) else v < 256)
    ensures |bits| == n && Value(bits) == v
  {
    if n == 0 {
      bits := [];
    } else {
      if n < 8 {
        Double(n - 1);
      }
      var front := ValueOnto(v / 2, n - 1);
      bits := front + [v % 2 == 1];
      assert bits[..n - 1] == front;
    }
  }

  // ----- a bitmap -----

  /** The bitmap of a row of sectors, eight to a byte. */
  function BitmapOf(bits: seq<bool>): (bitmap: seq<byte>)
    requires |bits| % 8 == 0
    ensures |bitmap| == |bits| / 8
  {
    seq(|bits| / 8, i requires 0 <= i < |bits| / 8 => ByteOf(bits[8 * i..8 * i + 8]))
  }

  /** Of `8 * n` sectors exactly those in `written`. */
  function SectorsOf(written: set<nat>, n: nat): (bits: seq<bool>)
    ensures |bits| == 8 * n && |bits| % 8 == 0 && |bits| / 8 == n
  {
    seq(8 * n, k => k in written)
  }

  /** The bit of a sector says whether it is in the row. */
  lemma BitmapMeans(bits: seq<bool>, k: nat)
    requires |bits| % 8 == 0 && k < |bits|
    ensures k / 8 < |BitmapOf(bits)| && (BitSet(BitmapOf(bits), k) <==> bits[k])
  {
    var i, j := k / 8, k % 8;
    var eight := bits[8 * i..8 * i + 8];
    assert eight[j] == bits[k];
    ValueBit(eight, j);
  }

  /** Any set of written sectors is read back from its bitmap. */
  lemma SetMeans(written: set<nat>, n: nat, k: nat)
    requires k < 8 * n
    ensures BitSet(BitmapOf(SectorsOf(written, n)), k) <==> k in written
  {
    BitmapMeans(SectorsOf(written, n), k);
  }

  lemma MarkInByte(bits: seq<bool>, j: nat)
    requires |bits| == 8 && j < 8 && !bits[j]
    ensures ByteOf(bits[j := true]) == ByteOf(bits) + Weight(j)
  {
    ValueMark(bits, j);
    assert j == 0 || j == 1 || j == 2 || j == 3 || j == 4 || j == 5 || j == 6 || j == 7;
  }

  lemma {:induction false} NoneSet(bits: seq<bool>)
    requires forall i :: 0 <= i < |bits| ==> !bits[i]
    ensures Value(bits) == 0
  {
    if bits != [] {
      NoneSet(bits[..|bits| - 1]);
    }
  }

  lemma OneInByte(bits: seq<bool>, j: nat)
    requires |bits| == 8 && j < 8 && forall i :: 0 <= i < 8 ==> bits[i] == (i == j)
    ensures ByteOf(bits) == Weight(j)
  {
    var none := bits[j := false];
    NoneSet(none);
    MarkInByte(none, j);
    assert none[j := true] == bits;
  }

  /** Marking sector `k` alone: zeros, with one of 0x80, 0x40, .., 1 in byte `k / 8`. */
  lemma MarkedAlone(n: nat, k: nat, j: nat)
    requires k < 8 * n && j < 8 * n
    ensures BitSet(Zeros(n)[k / 8 := Weight(k % 8)], j) <==> j == k
  {
    var bits := seq(8 * n, i => i == k);
    var bitmap := Zeros(n)[k / 8 := Weight(k % 8)];
    assert |bits| % 8 == 0;
    forall i | 0 <= i < n
      ensures BitmapOf(bits)[i] == bitmap[i]
    {
      if i == k / 8 {
        OneInByte(bits[8 * i..8 * i + 8], k % 8);
      } else {
        NoneSet(bits[8 * i..8 * i + 8]);
      }
    }
    assert BitmapOf(bits) == bitmap;
    BitmapMeans(bits, j);
  }

  /** Every bitmap is that of some row of sectors. */
  lemma {:induction false} BitmapHasBits(bitmap: seq<byte>) returns (bits: seq<bool>)
    ensures |bits| == 8 * |bitmap| && BitmapOf(bits) == bitmap
  {
    if bitmap == [] {
      bits := [];
    } else {
      var n := |bitmap| - 1;
      var front := BitmapHasBits(bitmap[..n]);
      var last := ValueOnto(bitmap[n], 8);
      bits := front + last;
      forall i | 0 <= i < |bitmap|
        ensures BitmapOf(bits)[i] == bitmap[i]
      {
        if i < n {
          assert bits[8 * i..8 * i + 8] == front[8 * i..8 * i + 8];
          assert BitmapOf(front)[i] == bitmap[..n][i];
        } else {
          assert bits[8 * i..8 * i + 8] == last;
        }
      }
    }
  }

  /** Marking one more sector of any bitmap changes the answer for that sector alone. */
  lemma MarkOneMore(bitmap: seq<byte>, k: nat, j: nat)
    requires k < 8 * |bitmap| && j < 8 * |bitmap| && !BitSet(bitmap, k)
    ensures bitmap[k / 8] + Weight(k % 8) < 256
    ensures BitSet(bitmap[k / 8 := bitmap[k / 8] + Weight(k % 8)], j) <==> j == k || BitSet(bitmap, j)
  {
    var bits := BitmapHasBits(bitmap);
    BitmapMeans(bits, k);
    BitmapMeans(bits, j);
    var more := bits[k := true];
    var at := k / 8;
    MarkInByte(bits[8 * at..8 * at + 8], k % 8);
    forall i | 0 <= i < |bitmap|
      ensures BitmapOf(more)[i] == if i == at then bitmap[at] + Weight(k % 8) else bitmap[i]
    {
      if i == at {
        assert more[8 * i..8 * i + 8] == bits[8 * i..8 * i + 8][k % 8 := true];
      } else {
        assert more[8 * i..8 * i + 8] == bits[8 * i..8 * i + 8];
      }
    }
    assert BitmapOf(more) == bitmap[at := bitmap[at] + Weight(k % 8)];
    BitmapMeans(more, j);
  }

  /** The bitmap takes the fewest whole sectors that have a bit for each sector of the block. */
  lemma BitmapFits(bs: nat)
    requires BlockSizeOk(bs)
    ensures BitmapSize(bs) % 512 == 0 && 8 * BitmapSize(bs) >= bs / 512 && 8 * (BitmapSize(bs) - 512) < bs / 512
  {
    DivCeilBounds(bs / SECTOR, 8);
    DivCeilBounds(BitmapBytes(bs), SECTOR);
  }

  // ----- reading a block of which some sectors are written -----

  /** Block `b` of the image: its bitmap marks the sectors in `written`, and `data` follows it. */
  predicate Partly(v: Vhd, b: nat, written: set<nat>, data: seq<byte>)
    requires v.Valid()
  {
    && b < |v.bat| && v.bat[b] != HOLE && |data| == v.blockSize
    && v.bitmaps[b] == Some(BitmapOf(SectorsOf(written, v.bitmapSize)))
    && var at := v.bat[b] * 512 + v.bitmapSize;
       at + |data| <= |v.file| && v.file[at..at + |data|] == data
  }

  /** On an opened file the bitmap of a block is what stands at its BAT entry. */
  lemma OpenedPartly(file: seq<byte>, v: Vhd, b: nat, at: nat, written: set<nat>, data: seq<byte>)
    requires OpenSpec(file) == Ok(v) && b < |v.bat| && v.bat[b] != HOLE && at == v.bat[b] * SECTOR && |data| == v.blockSize
    requires at + v.bitmapSize + |data| <= |file|
    requires file[at..at + v.bitmapSize] == BitmapOf(SectorsOf(written, v.bitmapSize))
    requires file[at + v.bitmapSize..at + v.bitmapSize + |data|] == data
    ensures Partly(v, b, written, data)
  {
    OpenedBitmap(file, v, b);
  }

  lemma OpenedBitmap(file: seq<byte>, v: Vhd, b: nat)
    requires OpenSpec(file) == Ok(v) && b < |v.bat|
    ensures v.file == file && Ok(v.bitmaps[b]) == ReadBitmap(file, v.bat[b], v.bitmapSize)
    ensures v.bat[b] != HOLE ==> v.bitmapSize > 0
  {
    BitmapFits(v.blockSize);
  }

  lemma PartlyHas(v: Vhd, p: nat, written: set<nat>, data: seq<byte>)
    requires v.Valid() && Partly(v, Quot(p, v.blockSize), written, data)
    ensures HasBlock(v, p / SECTOR)
    ensures HasSector(v, p / SECTOR) <==> Rem(p, v.blockSize) / SECTOR in written
    ensures FileByte(v.file, v.DataOffset(p / SECTOR) + p % SECTOR) == Ok(data[Rem(p, v.blockSize)])
  {
    Split(v, p);
    DataPositionOf(v, p);
    var k := v.SectorInBlock(p / SECTOR);
    DivUnique(Rem(p, v.blockSize), SECTOR, k, p % SECTOR);
    BitInBitmap(v.blockSize, k);
    SetMeans(written, v.bitmapSize, k);
    var at, w := v.bat[Quot(p, v.blockSize)] * 512 + v.bitmapSize, Rem(p, v.blockSize);
    assert v.file[at..at + |data|][w] == v.file[at + w];
  }

  /** A read gives the block's data in the sectors written and zero in the others. */
  lemma ReadsPartly(v: Vhd, p: nat, written: set<nat>, data: seq<byte>)
    requires v.Valid() && Partly(v, Quot(p, v.blockSize), written, data)
    ensures var w := Rem(p, v.blockSize); v.ByteAt(p) == Ok(if w / 512 in written then data[w] else 0)
  {
    PartlyHas(v, p, written, data);
  }

  // ----- chains -----

  /** What a layer keeps of the block a position lies in. */
  datatype Kept = Nothing | Kept(written: set<nat>, data: seq<byte>)

  predicate Keeps(v: Vhd, p: nat, kept: Kept)
    requires v.Valid()
  {
    match kept
    case Nothing => Quot(p, v.blockSize) < |v.bat| && v.bat[Quot(p, v.blockSize)] == HOLE
    case Kept(written, data) => Partly(v, Quot(p, v.blockSize), written, data)
  }

  /** The layer has the position's sector marked as written. */
  predicate Marks(v: Vhd, p: nat, kept: Kept)
    requires v.Valid()
  {
    kept.Kept? && Rem(p, v.blockSize) / 512 in kept.written
  }

  ghost predicate AllKeep(layers: seq<Vhd>, p: nat, kept: seq<Kept>) {
    |kept| == |layers| && forall j :: 0 <= j < |layers| ==> layers[j].Valid() && Keeps(layers[j], p, kept[j])
  }

  /** Layer `k` is the first that marks the sector, or, if none does, the first that stores its block. */
  ghost predicate Serves(layers: seq<Vhd>, p: nat, kept: seq<Kept>, k: nat)
    requires AllKeep(layers, p, kept)
  {
    && k < |layers| && kept[k].Kept?
    && (|| (Marks(layers[k], p, kept[k]) && forall j :: 0 <= j < k ==> !Marks(layers[j], p, kept[j]))
        || ((forall j :: 0 <= j < |layers| ==> !Marks(layers[j], p, kept[j])) && forall j :: 0 <= j < k ==> kept[j].Nothing?))
  }

  lemma KeepsHas(v: Vhd, p: nat, kept: Kept)
    requires v.Valid() && Keeps(v, p, kept)
    ensures ChainedVhd.Covers(v, p / SECTOR)
    ensures HasBlock(v, p / SECTOR) <==> kept.Kept?
    ensures HasSector(v, p / SECTOR) <==> Marks(v, p, kept)
    ensures kept.Kept? ==> FileByte(v.file, v.DataOffset(p / SECTOR) + p % SECTOR) == Ok(kept.data[Rem(p, v.blockSize)])
  {
    Split(v, p);
    if kept.Kept? {
      PartlyHas(v, p, kept.written, kept.data);
    }
  }

  lemma AllKeepHas(layers: seq<Vhd>, p: nat, kept: seq<Kept>)
    requires AllKeep(layers, p, kept)
    ensures Covered(layers, p / SECTOR)
    ensures forall j :: 0 <= j < |layers| ==> (HasBlock(layers[j], p / SECTOR) <==> kept[j].Kept?)
    ensures forall j :: 0 <= j < |layers| ==> (HasSector(layers[j], p / SECTOR) <==> Marks(layers[j], p, kept[j]))
  {
    forall j | 0 <= j < |layers|
      ensures ChainedVhd.Covers(layers[j], p / SECTOR) && (HasBlock(layers[j], p / SECTOR) <==> kept[j].Kept?)
      ensures HasSector(layers[j], p / SECTOR) <==> Marks(layers[j], p, kept[j])
    {
      KeepsHas(layers[j], p, kept[j]);
    }
  }

  /**
   * A chain read gives the data of the newest layer whose bitmap marks the sector, else of the newest
   * layer that stores its block, else the base's byte.
   */
  lemma ChainReads(c: Chain, p: nat, kept: seq<Kept>)
    requires c.Valid() && AllKeep(c.overlays, p, kept)
    ensures forall k :: 0 <= k < |kept| && Serves(c.overlays, p, kept, k) ==>
              Rem(p, c.overlays[k].blockSize) < |kept[k].data| && ChainedVhd.ByteAt(c, p) == Ok(kept[k].data[Rem(p, c.overlays[k].blockSize)])
    ensures (forall k :: 0 <= k < |kept| ==> kept[k].Nothing?) ==> ChainedVhd.ByteAt(c, p) == BaseByte(c.base, p)
    ensures (exists k :: 0 <= k < |kept| && Serves(c.overlays, p, kept, k)) || forall k :: 0 <= k < |kept| ==> kept[k].Nothing?
  {
    AllKeepHas(c.overlays, p, kept);
    forall k | 0 <= k < |kept| && Serves(c.overlays, p, kept, k)
      ensures Rem(p, c.overlays[k].blockSize) < |kept[k].data| && ChainedVhd.ByteAt(c, p) == Ok(kept[k].data[Rem(p, c.overlays[k].blockSize)])
    {
      KeepsHas(c.overlays[k], p, kept[k]);
      OwnerServes(c.overlays, p / SECTOR, k);
    }
    var k := ReadsOwner(c, p);
    if k < |c.overlays| {
      assert HasBlock(c.overlays[k], p / SECTOR);
      assert Serves(c.overlays, p, kept, k);
    }
  }
}
