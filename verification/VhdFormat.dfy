/**
 * The fixed structures of a dynamic VHD: the 512-byte footer, the 1024-byte dynamic
 * header and their ones-complement checksums (vhd/write.rs, vhd/footer.rs).
 */
module VhdFormat {
  import opened Bytes
  import opened Wrappers
  import opened Store

  const SECTOR: nat := 512
  const DEFAULT_BLOCK_SIZE: nat := 2 * 1024 * 1024
  const HOLE: u32 := 0xFFFF_FFFF
  const FIXED_DISK: u32 := 2
  const DYNAMIC_DISK: u32 := 3

  // ASCII "conectix" and "cxsparse".
  const FOOTER_COOKIE: seq<byte> := [0x63, 0x6F, 0x6E, 0x65, 0x63, 0x74, 0x69, 0x78]
  const HEADER_COOKIE: seq<byte> := [0x63, 0x78, 0x73, 0x70, 0x61, 0x72, 0x73, 0x65]

  /** Sum of the bytes of `s` whose index lies outside `lo..hi`. */
  function SumOutside(s: seq<byte>, lo: nat, hi: nat): nat {
    if s == [] then 0
    else
      var k := |s| - 1;
      SumOutside(s[..k], lo, hi) + if lo <= k < hi then 0 else s[k]
  }

  function ChecksumOf(s: seq<byte>, lo: nat, hi: nat): u32 {
    0xFFFF_FFFF - Wrap32(SumOutside(s, lo, hi))
  }

  lemma {:induction false} ZeroSum(n: nat, lo: nat, hi: nat)
    ensures SumOutside(Zeros(n), lo, hi) == 0
  {
    if n > 0 {
      assert Zeros(n)[..n - 1] == Zeros(n - 1);
      ZeroSum(n - 1, lo, hi);
    }
  }

  /** Checksum and sum of the bytes it covers come to all ones, modulo 2^32. */
  lemma ChecksumComplements(s: seq<byte>, lo: nat, hi: nat)
    ensures (ChecksumOf(s, lo, hi) + SumOutside(s, lo, hi)) % 0x1_0000_0000 == 0xFFFF_FFFF
  {
    var sum := SumOutside(s, lo, hi);
    DivUnique(ChecksumOf(s, lo, hi) + sum, U32_SPAN, sum / U32_SPAN, 0xFFFF_FFFF);
  }

  /** `checksum`: the wrapping loop computes the complemented sum outside the skipped field. */
  method Checksum(buf: seq<byte>, lo: nat, hi: nat) returns (c: u32)
    ensures c == ChecksumOf(buf, lo, hi)
  {
    var sum: u32 := 0;
    for i := 0 to |buf|
      invariant sum == Wrap32(SumOutside(buf[..i], lo, hi))
    {
      assert buf[..i + 1][..i] == buf[..i];
      if !(lo <= i < hi) {
        sum := Wrap32(sum + buf[i]);
      }
    }
    assert buf[..|buf|] == buf;
    c := 0xFFFF_FFFF - sum;
  }

  lemma {:induction false} SumIgnoresSkipped(s: seq<byte>, t: seq<byte>, lo: nat, hi: nat)
    requires |s| == |t|
    requires forall i :: 0 <= i < |s| && !(lo <= i < hi) ==> s[i] == t[i]
    ensures SumOutside(s, lo, hi) == SumOutside(t, lo, hi)
  {
    if s != [] {
      SumIgnoresSkipped(s[..|s| - 1], t[..|t| - 1], lo, hi);
    }
  }

  /** Filling in the checksum field does not change the checksum. */
  lemma ChecksumIgnoresField(s: seq<byte>, t: seq<byte>, lo: nat, hi: nat)
    requires |s| == |t| && lo <= hi <= |s|
    requires s[0..lo] == t[0..lo] && s[hi..|s|] == t[hi..|s|]
    ensures ChecksumOf(s, lo, hi) == ChecksumOf(t, lo, hi)
  {
    forall i | 0 <= i < |s| && !(lo <= i < hi)
      ensures s[i] == t[i]
    {
      if i < lo {
        SameSlice(s, t, 0, lo, i);
      } else {
        SameSlice(s, t, hi, |s|, i);
      }
    }
    SumIgnoresSkipped(s, t, lo, hi);
  }

  /** Changing one summed byte changes the sum by exactly that byte's change. */
  lemma {:induction false} SumOneChange(s: seq<byte>, k: nat, b: byte, lo: nat, hi: nat)
    requires k < |s| && !(lo <= k < hi)
    ensures SumOutside(s[k := b], lo, hi) == SumOutside(s, lo, hi) + b - s[k]
  {
    var t, n := s[k := b], |s| - 1;
    if k == n {
      assert t[..n] == s[..n];
    } else {
      assert t[..n] == s[..n][k := b];
      SumOneChange(s[..n], k, b, lo, hi);
    }
  }

  /** A slice of a buffer's contents is the same slice of the buffer. */
  lemma SlicesOf(a: array<byte>, s: seq<byte>)
    requires s == a[..]
    ensures forall lo, hi {:trigger s[lo..hi]} :: 0 <= lo <= hi <= |s| ==> s[lo..hi] == a[lo..hi]
  {
  }

  // ----- footer -----

  datatype VhdFooter = VhdFooter(dataOffset: u64, currentSize: u64, diskType: u32)

  /** The footer bytes that depend on the clock and on the CHS rounding; any value may appear. */
  datatype Stamp = Stamp(time: seq<byte>, geometry: seq<byte>, uuid: seq<byte>) {
    predicate Valid() {
      |time| == 4 && |geometry| == 4 && |uuid| == 16
    }
  }

  /** What a footer written for a `size`-byte dynamic disk must contain. */
  predicate IsFooter(f: seq<byte>, size: u64) {
    && |f| == 512
    && f[0..8] == FOOTER_COOKIE
    && f[16..24] == ToBE(512, 8)
    && f[48..56] == ToBE(size, 8)
    && f[60..64] == ToBE(DYNAMIC_DISK, 4)
    && f[64..68] == ToBE(ChecksumOf(f, 64, 68), 4)
  }

  /** The descriptive fields of `build_footer`, which no reader in this project looks at. */
  method PutIdentity(f: array<byte>, size: u64, stamp: Stamp)
    requires f.Length == 512 && stamp.Valid()
    modifies f
    ensures f[0..8] == old(f[0..8])
    ensures f[16..24] == old(f[16..24])
    ensures f[48..56] == old(f[48..56])
    ensures f[60..64] == old(f[60..64])
  {
    PutField(f, 8, ToBE(2, 4));          // features: reserved bit
    PutField(f, 12, ToBE(0x1_0000, 4));  // file format version
    PutCreator(f, size, stamp);
    PutField(f, 56, stamp.geometry);
    PutField(f, 68, stamp.uuid);
  }

  method PutCreator(f: array<byte>, size: u64, stamp: Stamp)
    requires f.Length == 512 && stamp.Valid()
    modifies f
    ensures forall lo, hi :: 0 <= lo <= hi <= 512 && (hi <= 24 || 48 <= lo) ==> f[lo..hi] == old(f[lo..hi])
  {
    PutField(f, 24, stamp.time);
    PutField(f, 28, [0x78, 0x62, 0x6F, 0x74]);  // creator application "xbot"
    PutField(f, 32, ToBE(0x1_0000, 4));         // creator version
    PutField(f, 36, [0x57, 0x69, 0x32, 0x6B]);  // creator host "Wi2k"
    PutField(f, 40, ToBE(size, 8));             // original size
  }

  /** `build_footer`. */
  method BuildFooter(size: u64, stamp: Stamp) returns (footer: seq<byte>)
    requires stamp.Valid()
    ensures IsFooter(footer, size)
  {
    var f := new byte[512](_ => 0);
    PutField(f, 0, FOOTER_COOKIE);
    PutField(f, 16, ToBE(512, 8));  // data offset: the dynamic header
    PutField(f, 48, ToBE(size, 8));  // current size
    PutField(f, 60, ToBE(DYNAMIC_DISK, 4));
    PutIdentity(f, size, stamp);
    var before := f[..];
    var cks := Checksum(before, 64, 68);
    PutField(f, 64, ToBE(cks, 4));
    footer := f[..];
    SlicesOf(f, footer);
    assert before[0..64] == f[0..64] && before[68..512] == f[68..512];
    ChecksumIgnoresField(before, footer, 64, 68);
  }

  function FooterOf(bytes: seq<byte>): Result<VhdFooter, IoError> {
    if |bytes| < 512 then Err(InvalidData)
    else
      var f := bytes[..512];
      if f[0..8] != FOOTER_COOKIE then Err(InvalidData)
      else if ChecksumOf(f, 64, 68) != BE32(f[64..68]) then Err(InvalidData)
      else Ok(VhdFooter(BE64(f[16..24]), BE64(f[48..56]), BE32(f[60..64])))
  }

  /** `VhdFooter::parse`. */
  method ParseFooter(bytes: seq<byte>) returns (r: Result<VhdFooter, IoError>)
    ensures r == FooterOf(bytes)
  {
    if |bytes| < 512 {
      return Err(InvalidData);
    }
    var f := bytes[..512];
    if f[0..8] != FOOTER_COOKIE {
      return Err(InvalidData);
    }
    var cks := Checksum(f, 64, 68);
    if cks != BE32(f[64..68]) {
      return Err(InvalidData);
    }
    r := Ok(VhdFooter(BE64(f[16..24]), BE64(f[48..56]), BE32(f[60..64])));
  }

  /** A written footer is accepted and gives back its size, header offset and type. */
  lemma FooterRoundTrip(f: seq<byte>, size: u64)
    requires IsFooter(f, size)
    ensures FooterOf(f) == Ok(VhdFooter(512, size, DYNAMIC_DISK))
  {
    assert f[..512] == f;
    BE64RoundTrip(512);
    BE64RoundTrip(size);
    BE32RoundTrip(DYNAMIC_DISK);
    BE32RoundTrip(ChecksumOf(f, 64, 68));
  }

  lemma SameSlice(s: seq<byte>, t: seq<byte>, lo: nat, hi: nat, k: nat)
    requires |s| == |t| && lo <= k < hi <= |s| && s[lo..hi] == t[lo..hi]
    ensures s[k] == t[k]
  {
    assert s[k] == s[lo..hi][k - lo];
  }

  /** Any change to any one byte of an accepted footer makes it rejected. */
  lemma FooterDetectsOneByte(f: seq<byte>, k: nat, b: byte)
    requires |f| == 512 && FooterOf(f).Ok?
    requires k < 512 && b != f[k]
    ensures FooterOf(f[k := b]).Err?
  {
    var g := f[k := b];
    assert f[..512] == f && g[..512] == g;
    if 64 <= k < 68 {
      SumIgnoresSkipped(f, g, 64, 68);
      if BE32(g[64..68]) == BE32(f[64..68]) {
        ToBEBE(g[64..68]);
        ToBEBE(f[64..68]);
        SameSlice(f, g, 64, 68, k);
      }
    } else {
      SumOneChange(f, k, b, 64, 68);
      assert g[64..68] == f[64..68];
    }
  }

  // ----- dynamic header -----

  /** What the dynamic header for `nBlocks` blocks of `bs` bytes must contain. */
  predicate IsHeader(h: seq<byte>, nBlocks: u32, bs: u32) {
    && |h| == 1024
    && h[0..8] == HEADER_COOKIE
    && h[16..24] == ToBE(1536, 8)
    && h[28..32] == ToBE(nBlocks, 4)
    && h[32..36] == ToBE(bs, 4)
    && h[36..40] == ToBE(ChecksumOf(h, 36, 40), 4)
  }

  method BuildHeader(nBlocks: u32, bs: u32) returns (header: seq<byte>)
    ensures IsHeader(header, nBlocks, bs)
  {
    var h := new byte[1024](_ => 0);
    PutField(h, 8, Fill(8, 0xFF));       // data offset: none
    PutField(h, 24, ToBE(0x1_0000, 4));  // header version
    PutField(h, 0, HEADER_COOKIE);
    PutField(h, 16, ToBE(1536, 8));      // table offset
    PutField(h, 28, ToBE(nBlocks, 4));   // max table entries
    PutField(h, 32, ToBE(bs, 4));
    var before := h[..];
    var cks := Checksum(before, 36, 40);
    PutField(h, 36, ToBE(cks, 4));
    header := h[..];
    SlicesOf(h, header);
    assert before[0..36] == h[0..36] && before[40..1024] == h[40..1024];
    ChecksumIgnoresField(before, header, 36, 40);
  }
}
