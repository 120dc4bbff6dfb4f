/** The dynamic-VHD reader (vhd/dynamic.rs). */
module DynamicVhd {
  import opened Bytes
  import opened Wrappers
  import opened Store
  import opened BlockMap
  import opened VhdFormat
  import opened VhdWriter

  /** `1 << k` for the bits of one byte. */
  function Pow2(k: nat): (p: nat)
    requires k < 8
    ensures p > 0
  {
    [1, 2, 4, 8, 16, 32, 64, 128][k]
  }

  /** Sector `k` of a bitmap, most significant bit first. */
  predicate BitSet(bitmap: seq<byte>, k: nat)
    requires k / 8 < |bitmap|
  {
    (bitmap[k / 8] / Pow2(7 - k % 8)) % 2 == 1
  }

  datatype Vhd = Vhd(
    file: seq<byte>,
    virtualSize: u64,
    blockSize: nat,
    bitmapSize: nat,
    bat: seq<u32>,
    bitmaps: seq<Option<seq<byte>>>)
  {
    /** What `open` establishes. */
    predicate Valid() {
      && BlockSizeOk(blockSize)
      && bitmapSize == BitmapSize(blockSize)
      && |bitmaps| == |bat|
      && forall i :: 0 <= i < |bat| ==> SlotOk(i)
    }

    predicate SlotOk(i: nat)
      requires i < |bat| && |bitmaps| == |bat|
    {
      if bat[i] == HOLE then bitmaps[i].None? else bitmaps[i].Some? && |bitmaps[i].value| == bitmapSize
    }

    function SectorsPerBlock(): nat {
      blockSize / SECTOR
    }

    function BlockIndex(sector: nat): nat
      requires Valid()
    {
      Quot(sector, SectorsPerBlock())
    }

    function SectorInBlock(sector: nat): (k: nat)
      requires Valid()
      ensures k < SectorsPerBlock()
    {
      Rem(sector, SectorsPerBlock())
    }

    /** File offset of `sector`'s data, given that its block is stored. */
    function DataOffset(sector: nat): nat
      requires Valid() && BlockIndex(sector) < |bat|
    {
      bat[BlockIndex(sector)] * SECTOR + bitmapSize + SectorInBlock(sector) * SECTOR
    }

    /** `sector_offset`: where the sector is, if its block is stored and its bit is set. */
    function SectorOffset(sector: nat): Result<Option<nat>, IoError>
      requires Valid()
    {
      var block := BlockIndex(sector);
      if block >= |bat| then Err(InvalidData)
      else if bat[block] == HOLE then Ok(None)
      else
        var k := SectorInBlock(sector);
        assert SlotOk(block);
        BitInBitmap(blockSize, k);
        if !BitSet(bitmaps[block].value, k) then Ok(None) else Ok(Some(DataOffset(sector)))
    }

    /** `block_sector_offset`: where the sector is if its block is stored, whatever its bit. */
    function BlockSectorOffset(sector: nat): Result<Option<nat>, IoError>
      requires Valid()
    {
      var block := BlockIndex(sector);
      if block >= |bat| then Err(InvalidData)
      else if bat[block] == HOLE then Ok(None)
      else Ok(Some(DataOffset(sector)))
    }

    function Locate(sector: nat): Result<Location, IoError>
      requires Valid()
    {
      match SectorOffset(sector)
      case Err(e) => Err(e)
      case Ok(None) => Ok(Zero)
      case Ok(Some(off)) => Ok(At(off))
    }

    function Locator(): nat -> Result<Location, IoError>
      requires Valid()
    {
      (s: nat) => if Valid() then Locate(s) else Err(InvalidData)
    }

    /** The byte a read returns for virtual position `p`. */
    function ByteAt(p: nat): Result<byte, IoError>
      requires Valid()
    {
      UnitByte(file, SECTOR, Locator(), p)
    }

    /** `DynamicVhd::read_at`. */
    method ReadAt(offset: u64, buf: array<byte>) returns (r: Result<Unit, IoError>)
      requires Valid()
      modifies buf
      ensures offset + buf.Length > virtualSize ==> r == Err(InvalidData) && buf[..] == old(buf[..])
      ensures offset + buf.Length <= virtualSize ==>
                (r.Ok? <==> forall p :: offset <= p < offset + buf.Length ==> ByteAt(p).Ok?)
      ensures r.Ok? ==> forall k :: 0 <= k < buf.Length ==> Ok(buf[k]) == ByteAt(offset + k)
    {
      r := ReadUnits(offset, buf, virtualSize, SECTOR, Locator(), file);
      forall p: nat
        ensures ByteAt(p) == UnitByte(file, SECTOR, Locator(), p)
      {
      }
    }
  }

  lemma BitInBitmap(bs: nat, k: nat)
    requires BlockSizeOk(bs) && k < bs / SECTOR
    ensures k / 8 < BitmapBytes(bs) <= BitmapSize(bs)
  {
  }

  // ----- reads in terms of whole blocks -----

  /** Splitting a position into block, sector and byte agrees with splitting it by block size. */
  lemma SectorSplit(p: nat, spb: nat)
    requires spb > 0
    ensures Quot(p / SECTOR, spb) == Quot(p, spb * SECTOR)
    ensures Rem(p / SECTOR, spb) * SECTOR + p % SECTOR == Rem(p, spb * SECTOR)
  {
    var s, w := p / SECTOR, p % SECTOR;
    var b, k := Quot(s, spb), Rem(s, spb);
    QuotRem(s, spb);
    assert (b * spb) * SECTOR == b * (spb * SECTOR);
    DivUnique(p, spb * SECTOR, b, k * SECTOR + w);
  }

  lemma Split(v: Vhd, p: nat)
    requires v.Valid()
    ensures v.BlockIndex(p / SECTOR) == Quot(p, v.blockSize)
    ensures v.SectorInBlock(p / SECTOR) * SECTOR + p % SECTOR == Rem(p, v.blockSize)
  {
    SectorSplit(p, v.SectorsPerBlock());
  }

  lemma HoleReadsZero(v: Vhd, p: nat)
    requires v.Valid() && Quot(p, v.blockSize) < |v.bat| && v.bat[Quot(p, v.blockSize)] == HOLE
    ensures v.ByteAt(p) == Ok(0)
  {
    Split(v, p);
  }

  /** The file position that holds virtual byte `p` when its block is stored. */
  function DataPosition(v: Vhd, p: nat): nat
    requires v.Valid() && Quot(p, v.blockSize) < |v.bat|
  {
    v.bat[Quot(p, v.blockSize)] * SECTOR + v.bitmapSize + Rem(p, v.blockSize)
  }

  function FileByte(file: seq<byte>, at: nat): Result<byte, IoError> {
    if at < |file| then Ok(file[at]) else Err(UnexpectedEof)
  }

  lemma PresentSector(v: Vhd, p: nat, off: nat)
    requires v.Valid() && v.SectorOffset(p / SECTOR) == Ok(Some(off))
    ensures v.ByteAt(p) == FileByte(v.file, off + p % SECTOR)
  {
  }

  lemma DataPositionOf(v: Vhd, p: nat)
    requires v.Valid() && Quot(p, v.blockSize) < |v.bat|
    ensures v.BlockIndex(p / SECTOR) == Quot(p, v.blockSize)
    ensures v.DataOffset(p / SECTOR) + p % SECTOR == DataPosition(v, p)
  {
    Split(v, p);
  }

  /** `DynamicVhd::open` as a function of the file. */
  function OpenSpec(file: seq<byte>): (r: Result<Vhd, IoError>)
    ensures r.Ok? ==> r.value.Valid()
  {
    if |file| < 512 then Err(InvalidData)
    else
      match FooterOf(file[|file| - 512..])
      case Err(e) => Err(e)
      case Ok(footer) =>
        if footer.diskType != DYNAMIC_DISK then Err(InvalidData)
        else
          match ReadExact(file, footer.dataOffset, 1024)
          case Err(e) => Err(e)
          case Ok(hdr) => OpenBody(file, footer.currentSize, hdr)
  }

  function OpenBody(file: seq<byte>, virtualSize: u64, hdr: seq<byte>): (r: Result<Vhd, IoError>)
    requires |hdr| == 1024
    ensures r.Ok? ==> r.value.Valid()
  {
    var tableOffset, maxEntries, blockSize := BE64(hdr[16..24]), BE32(hdr[28..32]), BE32(hdr[32..36]);
    if hdr[0..8] != HEADER_COOKIE then Err(InvalidData)
    else if !BlockSizeOk(blockSize) then Err(InvalidData)
    else
      match ReadExact(file, tableOffset, 4 * maxEntries)
      case Err(e) => Err(e)
      case Ok(raw) =>
        var bat := DecodeBat(raw, maxEntries);
        var size := BitmapSize(blockSize);
        if forall i :: 0 <= i < |bat| ==> ReadBitmap(file, bat[i], size).Ok?
        then Ok(Vhd(file, virtualSize, blockSize, size, bat, Bitmaps(file, bat, size)))
        else Err(UnexpectedEof)
  }

  function DecodeBat(raw: seq<byte>, n: nat): (bat: seq<u32>)
    requires |raw| == 4 * n
    ensures |bat| == n
    ensures forall i :: 0 <= i < n ==> bat[i] == BE32(raw[4 * i..4 * i + 4])
  {
    seq(n, i requires 0 <= i < n => BE32(raw[4 * i..4 * i + 4]))
  }

  /** The bitmap of one BAT slot: absent for a hole, else read from the start of its block. */
  function ReadBitmap(file: seq<byte>, entry: u32, size: nat): Result<Option<seq<byte>>, IoError> {
    if entry == HOLE then Ok(None)
    else
      match ReadExact(file, entry * SECTOR, size)
      case Err(e) => Err(e)
      case Ok(bm) => Ok(Some(bm))
  }

  function Bitmaps(file: seq<byte>, bat: seq<u32>, size: nat): (bitmaps: seq<Option<seq<byte>>>)
    requires forall i :: 0 <= i < |bat| ==> ReadBitmap(file, bat[i], size).Ok?
    ensures |bitmaps| == |bat|
    ensures forall i :: 0 <= i < |bat| ==> bitmaps[i] == ReadBitmap(file, bat[i], size).value
  {
    seq(|bat|, i requires 0 <= i < |bat| => ReadBitmap(file, bat[i], size).value)
  }

  /** `DynamicVhd::open`: parse the footer and header, then load the BAT and every bitmap. */
  method Open(file: seq<byte>) returns (r: Result<Vhd, IoError>)
    ensures r == OpenSpec(file)
  {
    if |file| < 512 {
      return Err(InvalidData);
    }
    var parsed := ParseFooter(file[|file| - 512..]);
    if parsed.Err? {
      return Err(parsed.error);
    }
    var footer := parsed.value;
    if footer.diskType != DYNAMIC_DISK {
      return Err(InvalidData);
    }
    var header := ReadExact(file, footer.dataOffset, 1024);
    if header.Err? {
      return Err(header.error);
    }
    var hdr := header.value;
    if hdr[0..8] != HEADER_COOKIE {
      return Err(InvalidData);
    }
    var tableOffset, maxEntries, blockSize := BE64(hdr[16..24]), BE32(hdr[28..32]), BE32(hdr[32..36]);
    if !BlockSizeOk(blockSize) {
      return Err(InvalidData);
    }
    var size := BitmapSize(blockSize);
    var raw := ReadExact(file, tableOffset, 4 * (maxEntries as nat));
    if raw.Err? {
      return Err(raw.error);
    }
    var bat: seq<u32> := [];
    for i := 0 to maxEntries
      invariant |bat| == i && forall k :: 0 <= k < i ==> bat[k] == BE32(raw.value[4 * k..4 * k + 4])
    {
      bat := bat + [BE32(raw.value[4 * i..4 * i + 4])];
    }
    assert bat == DecodeBat(raw.value, maxEntries);
    var bitmaps: seq<Option<seq<byte>>> := [];
    for i := 0 to |bat|
      invariant |bitmaps| == i
      invariant forall k :: 0 <= k < i ==> Ok(bitmaps[k]) == ReadBitmap(file, bat[k], size)
    {
      var bitmap := ReadBitmap(file, bat[i], size);
      if bitmap.Err? {
        return Err(bitmap.error);
      }
      bitmaps := bitmaps + [bitmap.value];
    }
    assert bitmaps == Bitmaps(file, bat, size);
    r := Ok(Vhd(file, footer.currentSize, blockSize, size, bat, bitmaps));
  }
}
