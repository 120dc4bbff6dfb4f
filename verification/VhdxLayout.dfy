/** VHDX headers and region tables laid out field by field ([MS-VHDX] sections 2.2.2 and 2.2.3), and read back. */
module VhdxLayout {
  import opened Wrappers
  import opened Crc32c
  import opened Vhdx

  // ----- little-endian fields -----

  function Pow256(n: nat): (p: nat)
    ensures p > 0
  {
    if n == 0 then 1 else 256 * Pow256(n - 1)
  }

  lemma Successor(x: bv8)
    requires x != 0xFF
    ensures (x + 1) as nat == x as nat + 1
  {
  }

  lemma Largest()
    ensures (0xFF as bv8) as nat == 255
  {
  }

  /** A byte's bits. */
  function Octet(b: nat): (x: bv8)
    requires b < 256
    ensures x as nat == b
  {
    if b == 0 then 0
    else
      var x := Octet(b - 1);
      Largest();
      Successor(x);
      x + 1
  }

  /** The low `n` bytes of `v`, least significant first. */
  function ToLE(v: nat, n: nat): (s: seq<bv8>)
    ensures |s| == n
  {
    if n == 0 then [] else [Octet(v % 256)] + ToLE(v / 256, n - 1)
  }

  lemma LENext(b: bv8, rest: seq<bv8>)
    ensures LE([b] + rest) == b as nat + 256 * LE(rest)
  {
    assert ([b] + rest)[1..] == rest;
  }

  lemma {:induction false} LEToLE(v: nat, n: nat)
    requires v < Pow256(n)
    ensures LE(ToLE(v, n)) == v
  {
    if n > 0 {
      LEToLE(v / 256, n - 1);
      LENext(Octet(v % 256), ToLE(v / 256, n - 1));
    }
  }

  /** The four bytes of a checksum, least significant first. */
  function Field32(c: bv32): (s: seq<bv8>)
    ensures |s| == 4
  {
    [(c & 0xFF) as bv8, ((c >> 8) & 0xFF) as bv8, ((c >> 16) & 0xFF) as bv8, (c >> 24) as bv8]
  }

  lemma Field32Back(c: bv32)
    ensures LE32(Field32(c)) == c
  {
  }

  // ----- guarded structures -----

  /** Signature, checksum of the whole with a zero checksum field, and the rest. */
  function Sealed(signature: seq<bv8>, body: seq<bv8>): (b: seq<bv8>)
    requires |signature| == 4
    ensures |b| == 8 + |body|
  {
    signature + Field32(CrcOf(signature + [0, 0, 0, 0] + body)) + body
  }

  lemma SealedGuarded(signature: seq<bv8>, body: seq<bv8>)
    requires |signature| == 4
    ensures var b := Sealed(signature, body);
            b[..4] == signature && b[8..] == body && CrcOf(Blanked(b, |b|)) == LE32(b[4..8])
  {
    var crc := CrcOf(signature + [0, 0, 0, 0] + body);
    Field32Back(crc);
    SealedParts(signature, Field32(crc), body);
  }

  lemma SealedParts(signature: seq<bv8>, field: seq<bv8>, body: seq<bv8>)
    requires |signature| == 4 && |field| == 4
    ensures var b := signature + field + body;
            b[..4] == signature && b[4..8] == field && b[8..] == body && Blanked(b, |b|) == signature + [0, 0, 0, 0] + body
  {
    var b := signature + field + body;
    assert b[8..|b|] == body;
  }

  // ----- headers -----

  /** A header behind its checksum: sequence number, three GUIDs, log version, version and what follows. */
  function HeaderBody(sequence: nat, fileGuid: seq<bv8>, dataGuid: seq<bv8>, logGuid: seq<bv8>, logVersion: seq<bv8>,
                      version: nat, rest: seq<bv8>): seq<bv8>
  {
    ToLE(sequence, 8) + fileGuid + dataGuid + logGuid + logVersion + ToLE(version, 2) + rest
  }

  predicate HeaderFits(sequence: nat, fileGuid: seq<bv8>, dataGuid: seq<bv8>, logGuid: seq<bv8>, logVersion: seq<bv8>,
                       version: nat, rest: seq<bv8>)
  {
    && sequence < Pow256(8) && version < Pow256(2)
    && |fileGuid| == 16 && |dataGuid| == 16 && |logGuid| == 16 && |logVersion| == 2 && |rest| == 4028
  }

  lemma BodyFields(sequence: nat, fileGuid: seq<bv8>, dataGuid: seq<bv8>, logGuid: seq<bv8>, logVersion: seq<bv8>,
                   version: nat, rest: seq<bv8>)
    requires HeaderFits(sequence, fileGuid, dataGuid, logGuid, logVersion, version, rest)
    ensures var b := HeaderBody(sequence, fileGuid, dataGuid, logGuid, logVersion, version, rest);
            && |b| == 4088 && b[0..8] == ToLE(sequence, 8) && b[40..56] == logGuid && b[58..60] == ToLE(version, 2)
  {
  }

  /**
   * A header laid out with its checksum is accepted exactly if its version is 1 and its log GUID is all
   * zero, and then gives its sequence number.
   */
  lemma HeaderReadBack(sequence: nat, fileGuid: seq<bv8>, dataGuid: seq<bv8>, logGuid: seq<bv8>, logVersion: seq<bv8>,
                       version: nat, rest: seq<bv8>)
    requires HeaderFits(sequence, fileGuid, dataGuid, logGuid, logVersion, version, rest)
    ensures HeaderSpec(Sealed([0x68, 0x65, 0x61, 0x64], HeaderBody(sequence, fileGuid, dataGuid, logGuid, logVersion, version, rest)))
         == if version != 1 then Err(BadVersion)
            else if exists i :: 0 <= i < 16 && logGuid[i] != 0 then Err(DirtyLog)
            else Ok(Header(sequence))
  {
    var body := HeaderBody(sequence, fileGuid, dataGuid, logGuid, logVersion, version, rest);
    var h := Sealed(HEAD, body);
    BodyFields(sequence, fileGuid, dataGuid, logGuid, logVersion, version, rest);
    SealedGuarded(HEAD, body);
    LEToLE(sequence, 8);
    LEToLE(version, 2);
    HeaderSlices(h, body);
    ZeroGuid(logGuid);
  }

  lemma HeaderSlices(h: seq<bv8>, body: seq<bv8>)
    requires |h| == 4096 && |body| == 4088 && h[8..] == body
    ensures h[8..16] == body[0..8] && h[48..64] == body[40..56] && h[66..68] == body[58..60]
  {
  }

  lemma ZeroGuid(guid: seq<bv8>)
    requires |guid| == 16
    ensures guid == seq(16, _ => 0 as bv8) <==> !exists i :: 0 <= i < 16 && guid[i] != 0
  {
  }

  // ----- region tables -----

  /** One entry: GUID, file offset, length and flags. */
  datatype Slot = Slot(guid: seq<bv8>, offset: nat, length: nat, flags: seq<bv8>)

  predicate SlotFits(s: Slot) {
    |s.guid| == 16 && s.offset < Pow256(8) && s.length < Pow256(4) && |s.flags| == 4
  }

  function SlotBytes(s: Slot): (b: seq<bv8>)
    requires SlotFits(s)
    ensures |b| == 32
  {
    s.guid + ToLE(s.offset, 8) + ToLE(s.length, 4) + s.flags
  }

  predicate AllFit(slots: seq<Slot>) {
    forall i :: 0 <= i < |slots| ==> SlotFits(slots[i])
  }

  function SlotsBytes(slots: seq<Slot>): (b: seq<bv8>)
    requires AllFit(slots)
    ensures |b| == 32 * |slots|
  {
    if slots == [] then [] else SlotsBytes(slots[..|slots| - 1]) + SlotBytes(slots[|slots| - 1])
  }

  lemma {:induction false} SlotAt(slots: seq<Slot>, i: nat)
    requires AllFit(slots) && i < |slots|
    ensures SlotsBytes(slots)[32 * i..32 * i + 32] == SlotBytes(slots[i])
    decreases |slots|
  {
    var n := |slots| - 1;
    if i < n {
      SlotAt(slots[..n], i);
      assert SlotsBytes(slots)[32 * i..32 * i + 32] == SlotsBytes(slots[..n])[32 * i..32 * i + 32];
    }
  }

  /** The last slot with the GUID, as a region. */
  ghost predicate LastWith(slots: seq<Slot>, guid: seq<bv8>, r: Option<Region>) {
    match r
    case None => forall i :: 0 <= i < |slots| ==> slots[i].guid != guid
    case Some(region) =>
      exists i: nat :: i < |slots| && slots[i].guid == guid && region == Region(slots[i].offset, slots[i].length)
                       && forall j :: i < j < |slots| ==> slots[j].guid != guid
  }

  /** A region table behind its checksum: entry count, reserved bytes, entries and padding. */
  function TableBody(reserved: seq<bv8>, slots: seq<Slot>, pad: seq<bv8>): seq<bv8>
    requires AllFit(slots)
  {
    ToLE(|slots|, 4) + reserved + SlotsBytes(slots) + pad
  }

  lemma SlotFields(b: seq<bv8>, s: Slot)
    requires SlotFits(s) && b == SlotBytes(s)
    ensures b[0..16] == s.guid && LE(b[16..24]) == s.offset && LE(b[24..28]) == s.length
  {
    LEToLE(s.offset, 8);
    LEToLE(s.length, 4);
    assert b[16..24] == ToLE(s.offset, 8);
    assert b[24..28] == ToLE(s.length, 4);
  }

  /** The table's entry `i` is slot `i`. */
  ghost predicate Holds(rt: seq<bv8>, slots: seq<Slot>) {
    16 + |slots| * 32 <= |rt| &&
    forall i: nat :: i < |slots| ==> EntryGuid(rt, i) == slots[i].guid && EntryRegion(rt, i) == Region(slots[i].offset, slots[i].length)
  }

  lemma EntryBytes(rt: seq<bv8>, i: nat, b: seq<bv8>)
    requires 16 + i * 32 + 32 <= |rt| && |b| == 32 && rt[16 + i * 32..16 + i * 32 + 32] == b
    ensures EntryGuid(rt, i) == b[0..16] && EntryRegion(rt, i) == Region(LE(b[16..24]), LE(b[24..28]))
  {
    var e := 16 + i * 32;
    SliceOf(rt, e, b, 0, 16);
    SliceOf(rt, e, b, 16, 24);
    SliceOf(rt, e, b, 24, 28);
  }

  lemma SliceOf(rt: seq<bv8>, e: nat, b: seq<bv8>, i: nat, j: nat)
    requires e + |b| <= |rt| && rt[e..e + |b|] == b && i <= j <= |b|
    ensures rt[e + i..e + j] == b[i..j]
  {
    forall k | 0 <= k < j - i
      ensures rt[e + i..e + j][k] == b[i..j][k]
    {
      assert rt[e..e + |b|][i + k] == rt[e + i + k];
    }
  }

  lemma EntrySlice(rt: seq<bv8>, entries: seq<bv8>, after: seq<bv8>, i: nat)
    requires 32 * i + 32 <= |entries| && |rt| == 16 + |entries| + |after| && rt[16..] == entries + after
    ensures rt[16 + i * 32..16 + i * 32 + 32] == entries[32 * i..32 * i + 32]
  {
    var e := 16 + i * 32;
    assert rt[e..e + 32] == rt[16..][32 * i..32 * i + 32];
  }

  lemma TableHolds(rt: seq<bv8>, slots: seq<Slot>, after: seq<bv8>)
    requires AllFit(slots) && |rt| == 16 + 32 * |slots| + |after| && rt[16..] == SlotsBytes(slots) + after
    ensures Holds(rt, slots)
  {
    forall i: nat | i < |slots|
      ensures EntryGuid(rt, i) == slots[i].guid && EntryRegion(rt, i) == Region(slots[i].offset, slots[i].length)
    {
      SlotAt(slots, i);
      EntrySlice(rt, SlotsBytes(slots), after, i);
      EntryBytes(rt, i, SlotBytes(slots[i]));
      SlotFields(SlotBytes(slots[i]), slots[i]);
    }
  }

  lemma {:induction false} LastEntryIs(rt: seq<bv8>, slots: seq<Slot>, guid: seq<bv8>, n: nat)
    requires Holds(rt, slots) && n <= |slots|
    ensures LastWith(slots[..n], guid, LastEntry(rt, guid, n))
  {
    if n > 0 {
      LastEntryIs(rt, slots, guid, n - 1);
      assert EntryGuid(rt, n - 1) == slots[n - 1].guid;
      var front, all := slots[..n - 1], slots[..n];
      if slots[n - 1].guid == guid {
        assert all[n - 1].guid == guid;
      } else {
        assert all == front + [slots[n - 1]];
        KeepsLast(front, slots[n - 1], guid, LastEntry(rt, guid, n - 1));
      }
    }
  }

  lemma KeepsLast(front: seq<Slot>, s: Slot, guid: seq<bv8>, r: Option<Region>)
    requires LastWith(front, guid, r) && s.guid != guid
    ensures LastWith(front + [s], guid, r)
  {
    if r.Some? {
      var i: nat :| i < |front| && front[i].guid == guid && r.value == Region(front[i].offset, front[i].length)
                    && forall j :: i < j < |front| ==> front[j].guid != guid;
      assert (front + [s])[i] == front[i];
    }
  }

  /** A region table laid out with its checksum is accepted, and gives the last BAT and metadata regions in it. */
  lemma TableReadBack(reserved: seq<bv8>, slots: seq<Slot>, pad: seq<bv8>)
    requires AllFit(slots) && |reserved| == 4 && 16 + 32 * |slots| + |pad| == TABLE_LEN
    ensures var r := TableSpec(Sealed([0x72, 0x65, 0x67, 0x69], TableBody(reserved, slots, pad)));
            r.Ok? && LastWith(slots, BAT_GUID, r.value.bat) && LastWith(slots, METADATA_GUID, r.value.metadata)
  {
    var body := TableBody(reserved, slots, pad);
    var rt := Sealed(REGI, body);
    SealedGuarded(REGI, body);
    BodySplits(reserved, slots, pad);
    CountField(rt, |slots|, reserved + SlotsBytes(slots) + pad, body);
    Behind(rt, body);
    TableHolds(rt, slots, pad);
    assert slots[..|slots|] == slots;
    LastEntryIs(rt, slots, BAT_GUID, |slots|);
    LastEntryIs(rt, slots, METADATA_GUID, |slots|);
    TableAccepted(rt, |slots|);
  }

  lemma BodySplits(reserved: seq<bv8>, slots: seq<Slot>, pad: seq<bv8>)
    requires AllFit(slots) && |reserved| == 4
    ensures var body := TableBody(reserved, slots, pad);
            && body == ToLE(|slots|, 4) + (reserved + SlotsBytes(slots) + pad)
            && body[8..] == SlotsBytes(slots) + pad
  {
    Regrouped(ToLE(|slots|, 4), reserved, SlotsBytes(slots), pad);
  }

  lemma Regrouped(count: seq<bv8>, reserved: seq<bv8>, entries: seq<bv8>, pad: seq<bv8>)
    requires |count| == 4 && |reserved| == 4
    ensures count + reserved + entries + pad == count + (reserved + entries + pad)
    ensures (count + reserved + entries + pad)[8..] == entries + pad
  {
  }

  lemma Behind(rt: seq<bv8>, body: seq<bv8>)
    requires |body| >= 8 && |rt| == 8 + |body| && rt[8..] == body
    ensures rt[16..] == body[8..]
  {
    assert rt[16..] == rt[8..][8..];
  }

  lemma TableAccepted(rt: seq<bv8>, count: nat)
    requires |rt| == TABLE_LEN && rt[..4] == REGI && CrcOf(Blanked(rt, TABLE_LEN)) == LE32(rt[4..8])
    requires LE(rt[8..12]) == count && 16 + count * 32 <= TABLE_LEN
    ensures TableSpec(rt) == Ok(Regions(LastEntry(rt, BAT_GUID, count), LastEntry(rt, METADATA_GUID, count)))
  {
  }

  lemma CountField(rt: seq<bv8>, count: nat, more: seq<bv8>, body: seq<bv8>)
    requires count < 65536 && body == ToLE(count, 4) + more && |rt| == 8 + |body| && rt[8..] == body
    ensures LE(rt[8..12]) == count
  {
    assert rt[8..12] == ToLE(count, 4);
    assert Pow256(4) == 256 * Pow256(3) && Pow256(3) == 256 * Pow256(2) && Pow256(2) == 256 * Pow256(1);
    LEToLE(count, 4);
  }
}
