/** The checksum-guarded VHDX structures (storage/vhdx/structs.rs; [MS-VHDX] sections 2.2.2 and 2.2.3). */
module Vhdx {
  import opened Wrappers
  import opened Crc32c

  const HEADER_LEN: nat := 4096
  const TABLE_LEN: nat := 65536
  const HEAD: seq<bv8> := [0x68, 0x65, 0x61, 0x64]
  const REGI: seq<bv8> := [0x72, 0x65, 0x67, 0x69]
  const BAT_GUID: seq<bv8> :=
    [0x66, 0x77, 0xC2, 0x2D, 0x23, 0xF6, 0x00, 0x42, 0x9D, 0x64, 0x11, 0x5E, 0x9B, 0xFD, 0x4A, 0x08]
  const METADATA_GUID: seq<bv8> :=
    [0x06, 0xA2, 0x7C, 0x8B, 0x90, 0x47, 0x9A, 0x4B, 0xB8, 0xFE, 0x57, 0x5F, 0x05, 0x0F, 0x88, 0x6E]

  datatype VhdxError = BadSignature | BadCrc | BadVersion | DirtyLog | TooManyEntries | NoValidHeader

  /** A little-endian field. */
  function LE(s: seq<bv8>): nat {
    if s == [] then 0 else s[0] as nat + 256 * LE(s[1..])
  }

  function LE32(s: seq<bv8>): bv32
    requires |s| == 4
  {
    s[0] as bv32 | (s[1] as bv32 << 8) | (s[2] as bv32 << 16) | (s[3] as bv32 << 24)
  }

  /** The first `len` bytes with the checksum field zeroed. */
  function Blanked(b: seq<bv8>, len: nat): (r: seq<bv8>)
    requires 8 <= len <= |b|
    ensures |r| == len
  {
    b[..4] + [0, 0, 0, 0] + b[8..len]
  }

  /** The guard both structures share: a signature, and a CRC over the rest. */
  predicate Guarded(b: seq<bv8>, signature: seq<bv8>, len: nat)
    requires len >= 8
  {
    |b| >= len && b[..4] == signature && CrcOf(Blanked(b, len)) == LE32(b[4..8])
  }

  // ----- headers -----

  datatype Header = Header(sequence: nat)

  function HeaderSpec(h: seq<bv8>): Result<Header, VhdxError> {
    if |h| < HEADER_LEN || h[..4] != HEAD then Err(BadSignature)
    else if CrcOf(Blanked(h, HEADER_LEN)) != LE32(h[4..8]) then Err(BadCrc)
    else if LE(h[66..68]) != 1 then Err(BadVersion)
    else if h[48..64] != seq(16, _ => 0 as bv8) then Err(DirtyLog)
    else Ok(Header(LE(h[8..16])))
  }

  /** A copy of the bytes with the checksum field zeroed in place. */
  method BlankCopy(b: seq<bv8>, len: nat) returns (tmp: seq<bv8>)
    requires 8 <= len <= |b|
    ensures tmp == Blanked(b, len)
  {
    var a := new bv8[len](i requires 0 <= i < len => b[i]);
    for i := 4 to 8
      invariant forall k :: 0 <= k < len ==> a[k] == if 4 <= k < i then 0 else b[k]
    {
      a[i] := 0;
    }
    tmp := a[..];
  }

  method ParseOneHeader(h: seq<bv8>) returns (r: Result<Header, VhdxError>)
    ensures r == HeaderSpec(h)
  {
    if |h| < HEADER_LEN || h[..4] != HEAD {
      return Err(BadSignature);
    }
    var stored := LE32(h[4..8]);
    var tmp := BlankCopy(h, HEADER_LEN);
    var crc := Crc(tmp);
    if crc != stored {
      return Err(BadCrc);
    }
    if LE(h[66..68]) != 1 {
      return Err(BadVersion);
    }
    for i := 48 to 64
      invariant forall k :: 48 <= k < i ==> h[k] == 0
    {
      if h[i] != 0 {
        assert h[48..64][i - 48] != 0;
        return Err(DirtyLog);
      }
    }
    assert h[48..64] == seq(16, _ => 0 as bv8);
    r := Ok(Header(LE(h[8..16])));
  }

  /** The valid header with the greatest sequence number; the first on a tie. */
  method ParseBestHeader(h1: seq<bv8>, h2: seq<bv8>) returns (r: Result<Header, VhdxError>)
    ensures r.Err? <==> HeaderSpec(h1).Err? && HeaderSpec(h2).Err?
    ensures r.Ok? ==> r == HeaderSpec(h1) || r == HeaderSpec(h2)
    ensures r.Ok? && HeaderSpec(h1).Ok? ==> r.value.sequence >= HeaderSpec(h1).value.sequence
    ensures r.Ok? && HeaderSpec(h2).Ok? ==> r.value.sequence >= HeaderSpec(h2).value.sequence
  {
    var a := ParseOneHeader(h1);
    var b := ParseOneHeader(h2);
    match (a, b) {
      case (Ok(x), Ok(y)) => r := if x.sequence >= y.sequence then a else b;
      case (Ok(_), Err(_)) => r := a;
      case (Err(_), Ok(_)) => r := b;
      case (Err(_), Err(_)) => r := Err(NoValidHeader);
    }
  }

  // ----- the region table -----

  datatype Region = Region(offset: nat, length: nat)

  datatype Regions = Regions(bat: Option<Region>, metadata: Option<Region>)

  function EntryGuid(rt: seq<bv8>, i: nat): seq<bv8>
    requires 16 + i * 32 + 32 <= |rt|
  {
    rt[16 + i * 32..16 + i * 32 + 16]
  }

  function EntryRegion(rt: seq<bv8>, i: nat): Region
    requires 16 + i * 32 + 32 <= |rt|
  {
    var e := 16 + i * 32;
    Region(LE(rt[e + 16..e + 24]), LE(rt[e + 24..e + 28]))
  }

  /** The last of the first `n` entries with this GUID. */
  function LastEntry(rt: seq<bv8>, guid: seq<bv8>, n: nat): Option<Region>
    requires 16 + n * 32 <= |rt|
  {
    if n == 0 then None
    else if EntryGuid(rt, n - 1) == guid then Some(EntryRegion(rt, n - 1))
    else LastEntry(rt, guid, n - 1)
  }

  function TableSpec(rt: seq<bv8>): Result<Regions, VhdxError> {
    if |rt| < TABLE_LEN || rt[..4] != REGI then Err(BadSignature)
    else if CrcOf(Blanked(rt, TABLE_LEN)) != LE32(rt[4..8]) then Err(BadCrc)
    else if 16 + LE(rt[8..12]) * 32 > TABLE_LEN then Err(TooManyEntries)
    else Ok(Regions(LastEntry(rt, BAT_GUID, LE(rt[8..12])), LastEntry(rt, METADATA_GUID, LE(rt[8..12]))))
  }

  /** `parse_region_table`: a later entry replaces an earlier one with the same GUID. */
  method ParseRegionTable(rt: seq<bv8>) returns (r: Result<Regions, VhdxError>)
    ensures r == TableSpec(rt)
  {
    if |rt| < TABLE_LEN || rt[..4] != REGI {
      return Err(BadSignature);
    }
    var stored := LE32(rt[4..8]);
    var tmp := BlankCopy(rt, TABLE_LEN);
    var crc := Crc(tmp);
    if crc != stored {
      return Err(BadCrc);
    }
    var count := LE(rt[8..12]);
    if 16 + count * 32 > TABLE_LEN {
      return Err(TooManyEntries);
    }
    var regions := PickRegions(rt, count);
    r := Ok(regions);
  }

  /** The entry loop. */
  method PickRegions(rt: seq<bv8>, count: nat) returns (regions: Regions)
    requires 16 + count * 32 <= |rt|
    ensures regions == Regions(LastEntry(rt, BAT_GUID, count), LastEntry(rt, METADATA_GUID, count))
  {
    GuidsDiffer();
    regions := Regions(None, None);
    for i := 0 to count
      invariant regions == Regions(LastEntry(rt, BAT_GUID, i), LastEntry(rt, METADATA_GUID, i))
    {
      var guid, region := EntryGuid(rt, i), EntryRegion(rt, i);
      if guid == BAT_GUID {
        regions := regions.(bat := Some(region));
      } else if guid == METADATA_GUID {
        regions := regions.(metadata := Some(region));
      }
    }
  }

  lemma GuidsDiffer()
    ensures BAT_GUID != METADATA_GUID
  {
    assert BAT_GUID[0] != METADATA_GUID[0];
  }

  // ----- corruption is detected -----

  /** `b` and `c` have the same length and differ, but only within `[i, j)`. */
  ghost predicate DifferWithin(b: seq<bv8>, c: seq<bv8>, i: nat, j: nat) {
    && |b| == |c| && i <= j <= |b| && b[i..j] != c[i..j]
    && forall k :: (0 <= k < i || j <= k < |b|) ==> b[k] == c[k]
  }

  lemma LE32Injective(s: seq<bv8>, t: seq<bv8>)
    requires |s| == |t| == 4 && LE32(s) == LE32(t)
    ensures s == t
  {
    FieldBytes(s[0], s[1], s[2], s[3]);
    FieldBytes(t[0], t[1], t[2], t[3]);
    Widen(s[0], t[0]);
    Widen(s[1], t[1]);
    Widen(s[2], t[2]);
    Widen(s[3], t[3]);
  }

  lemma FieldBytes(a: bv8, b: bv8, c: bv8, d: bv8)
    ensures var w := a as bv32 | (b as bv32 << 8) | (c as bv32 << 16) | (d as bv32 << 24);
            w & 0xFF == a as bv32 && (w >> 8) & 0xFF == b as bv32 && (w >> 16) & 0xFF == c as bv32 && w >> 24 == d as bv32
  {
  }

  /** A change behind the checksum field changes the checksum. */
  lemma BehindDetected(b: seq<bv8>, c: seq<bv8>, len: nat, i: nat, j: nat)
    requires DifferWithin(b, c, i, j) && j - i <= 4 && 8 <= i && j <= len <= |b|
    ensures CrcOf(Blanked(b, len)) != CrcOf(Blanked(c, len))
  {
    var x, y := Blanked(b, len), Blanked(c, len);
    forall k | 0 <= k < len && !(i <= k < j)
      ensures x[k] == y[k]
    {
      BlankedAt(b, len, k);
      BlankedAt(c, len, k);
    }
    assert x[..i] == y[..i] && x[j..] == y[j..];
    assert x[i..j] == b[i..j] && y[i..j] == c[i..j];
    assert x == x[..i] + b[i..j] + x[j..] && y == x[..i] + c[i..j] + x[j..];
    BurstDetected(x[..i], b[i..j], c[i..j], x[j..]);
  }

  lemma BlankedAt(b: seq<bv8>, len: nat, k: nat)
    requires 8 <= len <= |b| && k < len
    ensures Blanked(b, len)[k] == if 4 <= k < 8 then 0 else b[k]
  {
  }

  /**
   * Of two byte strings that differ only within four consecutive bytes on one side of, or inside, the
   * checksum field, at most one passes the guard.
   */
  lemma GuardDetects(b: seq<bv8>, c: seq<bv8>, signature: seq<bv8>, len: nat, i: nat, j: nat)
    requires DifferWithin(b, c, i, j) && j - i <= 4 && j <= len && len >= 8
    requires j <= 4 || 8 <= i || (4 <= i && j <= 8)
    requires Guarded(b, signature, len)
    ensures !Guarded(c, signature, len)
  {
    var k :| i <= k < j && b[k] != c[k];
    if j <= 4 {
      assert b[..4][k] != c[..4][k];
    } else if 8 <= i {
      BehindDetected(b, c, len, i, j);
      assert b[4..8] == c[4..8];
    } else {
      assert Blanked(b, len) == Blanked(c, len);
      assert b[4..8][k - 4] != c[4..8][k - 4];
      if LE32(b[4..8]) == LE32(c[4..8]) {
        LE32Injective(b[4..8], c[4..8]);
      }
    }
  }

  /** Any change of a single byte is one. */
  lemma OneByte(b: seq<bv8>, i: nat, x: bv8)
    requires i < |b| && b[i] != x
    ensures DifferWithin(b, b[i := x], i, i + 1)
  {
    assert b[i..i + 1][0] != b[i := x][i..i + 1][0];
  }

  /** An accepted header with any one of its 4096 bytes changed is rejected. */
  lemma HeaderByteDetected(h: seq<bv8>, i: nat, x: bv8)
    requires HeaderSpec(h).Ok? && i < HEADER_LEN && h[i] != x
    ensures HeaderSpec(h[i := x]).Err?
  {
    OneByte(h, i, x);
    GuardDetects(h, h[i := x], HEAD, HEADER_LEN, i, i + 1);
  }

  /** An accepted region table with any one of its 64 KiB changed is rejected. */
  lemma TableByteDetected(rt: seq<bv8>, i: nat, x: bv8)
    requires TableSpec(rt).Ok? && i < TABLE_LEN && rt[i] != x
    ensures TableSpec(rt[i := x]).Err?
  {
    OneByte(rt, i, x);
    GuardDetects(rt, rt[i := x], REGI, TABLE_LEN, i, i + 1);
  }
}
