/**
 * Command descriptor blocks laid out field by field as an initiator sends them (iscsi/scsi/cdb.rs,
 * sense.rs; the READ and WRITE commands of SBC-3), and what the target tells of a command and does for it,
 * in terms of those fields, of numbers and of the flat disk.
 */
module Cdbs {
  import opened Bytes
  import opened Wrappers
  import opened Store
  import V = Volume
  import opened Pdu
  import opened Scsi

  // ----- layout -----

  /** Four bytes, most significant first. */
  lemma BigEndian(a: byte, b: byte, c: byte, d: byte)
    ensures ToBE(0x100_0000 * a + 0x1_0000 * b + 0x100 * c + d, 4) == [a, b, c, d]
    ensures BE32([a, b, c, d]) == 0x100_0000 * a + 0x1_0000 * b + 0x100 * c + d
  {
    var v := 0x100_0000 * a + 0x1_0000 * b + 0x100 * c + d;
    DivUnique(v, 256, 0x1_0000 * a + 0x100 * b + c, d);
    DivUnique(v / 256, 256, 0x100 * a + b, c);
    DivUnique(v / 256 / 256, 256, a, b);
    assert ToBE(v / 256 / 256 / 256, 1) == ToBE(a / 256, 0) + [a % 256];
    assert ToBE(v / 256 / 256, 2) == ToBE(a, 1) + [b];
    BE32RoundTrip(v);
  }

  /** A block command's form, with every byte its direction, LBA and length leave open. */
  datatype Form = Ten(flags: byte, group: byte, tail: seq<byte>) | Sixteen(flags: byte, tail: seq<byte>)

  /** The LBA and the length are narrow enough for the form. */
  predicate Fits(form: Form, lba: u64, n: u32) {
    match form
    case Ten(_, _, tail) => lba < 0x1_0000_0000 && n < 0x1_0000 && |tail| == 7
    case Sixteen(_, tail) => |tail| == 2
  }

  /** Bytes 2 to 5 or 2 to 9 hold the LBA, bytes 7 and 8 or 10 to 13 the number of blocks. */
  function Laid(op: byte, form: Form, lba: u64, n: u32): Cdb
    requires Fits(form, lba, n)
  {
    match form
    case Ten(flags, group, tail) => [op, flags] + ToBE(lba, 4) + [group] + ToBE(n, 2) + tail
    case Sixteen(flags, tail) => [op, flags] + ToBE(lba, 8) + ToBE(n, 4) + tail
  }

  /** READ(10) or READ(16) of `n` blocks from `lba` on. */
  function ReadCdb(form: Form, lba: u64, n: u32): Cdb
    requires Fits(form, lba, n)
  {
    Laid(if form.Ten? then 0x28 else 0x88, form, lba, n)
  }

  /** WRITE(10) or WRITE(16) of `n` blocks from `lba` on. */
  function WriteCdb(form: Form, lba: u64, n: u32): Cdb
    requires Fits(form, lba, n)
  {
    Laid(if form.Ten? then 0x2a else 0x8a, form, lba, n)
  }

  lemma LaidTen(op: byte, form: Form, lba: u64, n: u32)
    requires form.Ten? && Fits(form, lba, n)
    ensures var cdb := Laid(op, form, lba, n);
            cdb[0] == op && Be32(cdb, 2) == lba && Be16(cdb, 7) == n
  {
    var cdb := Laid(op, form, lba, n);
    BE32RoundTrip(lba);
    BE16RoundTrip(n);
    assert cdb[2..6] == ToBE(lba, 4) && cdb[7..9] == ToBE(n, 2);
  }

  lemma LaidSixteen(op: byte, form: Form, lba: u64, n: u32)
    requires form.Sixteen? && Fits(form, lba, n)
    ensures var cdb := Laid(op, form, lba, n);
            cdb[0] == op && Be64(cdb, 2) == lba && Be32(cdb, 10) == n
  {
    var cdb := Laid(op, form, lba, n);
    BE64RoundTrip(lba);
    BE32RoundTrip(n);
    assert cdb[2..10] == ToBE(lba, 8) && cdb[10..14] == ToBE(n, 4);
  }

  /** A READ as laid out moves exactly its blocks from the disk, whatever its other bytes. */
  lemma ReadCdbReads(form: Form, lba: u64, n: u32)
    requires Fits(form, lba, n)
    ensures TransferOf(ReadCdb(form, lba, n)) == ReadBlocks(lba, n)
  {
    if form.Ten? {
      LaidTen(0x28, form, lba, n);
    } else {
      LaidSixteen(0x88, form, lba, n);
    }
  }

  /** A WRITE as laid out moves exactly its blocks to the disk, whatever its other bytes. */
  lemma WriteCdbWrites(form: Form, lba: u64, n: u32)
    requires Fits(form, lba, n)
    ensures TransferOf(WriteCdb(form, lba, n)) == WriteBlocks(lba, n)
  {
    if form.Ten? {
      LaidTen(0x2a, form, lba, n);
    } else {
      LaidSixteen(0x8a, form, lba, n);
    }
  }

  /** A field of a CDB written back where it was read. */
  lemma FieldBack(cdb: Cdb, at: nat, n: nat)
    requires at + n <= 16
    ensures ToBE(BE(cdb[at..at + n]), n) == cdb[at..at + n]
  {
    ToBEBE(cdb[at..at + n]);
  }

  lemma TenCovers(cdb: Cdb)
    ensures var form := Ten(cdb[1], cdb[6], cdb[9..]);
            Fits(form, Be32(cdb, 2), Be16(cdb, 7)) && cdb == Laid(cdb[0], form, Be32(cdb, 2), Be16(cdb, 7))
  {
    FieldBack(cdb, 2, 4);
    FieldBack(cdb, 7, 2);
    assert cdb == [cdb[0], cdb[1]] + cdb[2..6] + [cdb[6]] + cdb[7..9] + cdb[9..];
  }

  lemma SixteenCovers(cdb: Cdb)
    ensures var form := Sixteen(cdb[1], cdb[14..]);
            Fits(form, Be64(cdb, 2), Be32(cdb, 10)) && cdb == Laid(cdb[0], form, Be64(cdb, 2), Be32(cdb, 10))
  {
    FieldBack(cdb, 2, 8);
    FieldBack(cdb, 10, 4);
    assert cdb == [cdb[0], cdb[1]] + cdb[2..10] + cdb[10..14] + cdb[14..];
  }

  /** A CDB moves disk data exactly if it is one of the laid-out READs and WRITEs, and then those blocks. */
  lemma TransferIff(cdb: Cdb, lba: u64, n: u32)
    ensures TransferOf(cdb) == ReadBlocks(lba, n) <==> exists form :: Fits(form, lba, n) && cdb == ReadCdb(form, lba, n)
    ensures TransferOf(cdb) == WriteBlocks(lba, n) <==> exists form :: Fits(form, lba, n) && cdb == WriteCdb(form, lba, n)
  {
    TenCovers(cdb);
    SixteenCovers(cdb);
    var ten, sixteen := Ten(cdb[1], cdb[6], cdb[9..]), Sixteen(cdb[1], cdb[14..]);
    if TransferOf(cdb) == ReadBlocks(lba, n) {
      var form := if cdb[0] == 0x28 then ten else sixteen;
      assert Fits(form, lba, n) && cdb == ReadCdb(form, lba, n);
    }
    if TransferOf(cdb) == WriteBlocks(lba, n) {
      var form := if cdb[0] == 0x2a then ten else sixteen;
      assert Fits(form, lba, n) && cdb == WriteCdb(form, lba, n);
    }
    forall form | Fits(form, lba, n)
      ensures TransferOf(ReadCdb(form, lba, n)) == ReadBlocks(lba, n)
      ensures TransferOf(WriteCdb(form, lba, n)) == WriteBlocks(lba, n)
    {
      ReadCdbReads(form, lba, n);
      WriteCdbWrites(form, lba, n);
    }
  }

  /** Any other operation code moves nothing. */
  lemma OtherOpcodes(cdb: Cdb)
    requires cdb[0] !in {0x28, 0x88, 0x2a, 0x8a}
    ensures TransferOf(cdb) == NoTransfer
  {
  }

  /** A block range is accepted exactly when it lies inside the disk in bytes. */
  lemma InRangeIff(size: u64, blockSize: u32, lba: u64, n: u32)
    requires blockSize > 0
    ensures InRange(size, blockSize, lba, n) <==> (lba + n) * blockSize <= size
  {
    var q := Quot(size, blockSize);
    QuotRem(size, blockSize);
    assert Rem(size, blockSize) < blockSize;
    if lba + n <= q {
      MulMono(lba + n, q, blockSize);
    } else {
      MulMono(q + 1, lba + n, blockSize);
      Distribute(q, 1, blockSize);
    }
    MulMono(1, blockSize, lba + n);
  }

  /** The eight-byte LUN field: byte 0 must be zero, byte 1 is the number, the others are not looked at. */
  lemma LunField(first: byte, number: byte, rest: seq<byte>)
    requires |rest| == 6
    ensures LunNumber(BE64([first, number] + rest)) == if first == 0 then Some(number) else None
  {
    BEConcat([first, number], rest);
    BEBound(rest);
    Pow256Values();
    SixBytes();
    assert [first, number][..1] == [first] && [first][..0] == [];
    assert BE([first]) == BE([]) * 256 + first;
    var v, low := BE([first, number] + rest), BE(rest);
    DivUnique(v, 0x1_0000_0000_0000, first * 256 + number, low);
    DivUnique(v, 0x100_0000_0000_0000, first, number * 0x1_0000_0000_0000 + low);
  }

  lemma SixBytes()
    ensures Pow256(6) == 0x1_0000_0000_0000
  {
    Pow256Values();
    assert Pow256(6) == 256 * Pow256(5);
    assert Pow256(5) == 256 * Pow256(4);
  }

  lemma {:induction false} BEConcat(s: seq<byte>, t: seq<byte>)
    ensures BE(s + t) == BE(s) * Pow256(|t|) + BE(t)
  {
    if t == [] {
      assert s + t == s;
    } else {
      var front := t[..|t| - 1];
      BEConcat(s, front);
      assert (s + t)[..|s + t| - 1] == s + front;
      Widen(BE(s), Pow256(|front|), BE(front), t[|t| - 1]);
    }
  }

  lemma Widen(s: nat, p: nat, f: nat, b: nat)
    ensures (s * p + f) * 256 + b == s * (256 * p) + (f * 256 + b)
  {
  }

  /** Every present unit is listed: after the list's length in bytes, in order, as the LUN field that addresses it. */
  lemma UnitsListed(luns: Luns, n: nat)
    requires n < |luns| < 256 && luns[n].Some?
    ensures var data, at := ReportLunsData(luns), 8 + 8 * (Present(luns, 0) - Present(luns, n));
            && |data| == 8 + 8 * Present(luns, 0) && BE32(data[0..4]) == 8 * Present(luns, 0) && data[4..8] == Zeros(4)
            && 8 <= at && at + 8 <= |data| && data[at..at + 8] == [0, n, 0, 0, 0, 0, 0, 0]
  {
    var entries, data := LunEntries(luns, 0), ReportLunsData(luns);
    var p := 8 * (Present(luns, 0) - Present(luns, n));
    EntryOf(luns, 0, n);
    PresentBound(luns, 0);
    BE32RoundTrip(|entries|);
    assert data[0..4] == ToBE(|entries|, 4);
    assert data[8 + p..8 + p + 8] == entries[p..p + 8];
  }

  lemma {:induction false} PresentBound(luns: Luns, i: nat)
    requires i <= |luns|
    ensures Present(luns, i) <= |luns| - i
    decreases |luns| - i
  {
    if i < |luns| {
      PresentBound(luns, i + 1);
    }
  }

  // ----- what the target tells, and what it has done -----

  /** Fixed-format sense data (SPC-3 section 4.5.3): sense key in byte 2, additional sense code in byte 12. */
  predicate SenseIs(s: seq<byte>, key: byte, asc: byte) {
    && |s| == 18 && s[0] == 0x70 && s[2] == key && s[7] == 10 && s[12] == asc
    && forall i :: 0 <= i < 18 && i != 0 && i != 2 && i != 7 && i != 12 ==> s[i] == 0
  }

  /** GOOD status, without sense data. */
  predicate Succeeded(status: byte, sense: seq<byte>) {
    status == 0x00 && sense == []
  }

  /** CHECK CONDITION status, with the cause as sense data. */
  predicate Refused(status: byte, sense: seq<byte>, key: byte, asc: byte) {
    status == 0x02 && SenseIs(sense, key, asc)
  }

  /** No logical unit answers to the LUN field. */
  predicate NoUnit(luns: Luns, lun: u64) {
    match LunNumber(lun)
    case None => true
    case Some(k) => k >= |luns| || luns[k].None?
  }

  /** The first `done` bytes of `data` have replaced the disk's from block `lba` on, and nothing else has changed. */
  ghost predicate Replaced(before: LogicalUnit, after: LogicalUnit, lba: u64, data: seq<byte>, done: nat)
    requires before.Valid()
  {
    && after == before.(blocks := after.blocks) && after.Valid()
    && done <= |data| && lba * before.blockSize + |data| <= |before.Disk()|
    && after.Disk() == Patch(before.Disk(), lba * before.blockSize, data[..done])
  }

  /** A write of `len` bytes at `off` stops after `done`: there the master cannot supply a block the write only partly covers. */
  ghost predicate CutShort(lu: LogicalUnit, off: nat, len: nat, done: nat) {
    exists b, x :: V.StopsIn(lu.master, lu.blocks, off / 4096, off % 4096, len, done, b, x)
  }

  /** Every block that the write only partly covers is in the overlay or readable. */
  ghost predicate Supplied(lu: LogicalUnit, off: nat, len: nat) {
    forall b :: !V.Stuck(lu.master, lu.blocks, off, len, b)
  }

  /** What a WRITE in range and of the right length has done to its unit, and what is told of it. */
  ghost predicate Executed(lu: LogicalUnit, after: LogicalUnit, lba: u64, data: seq<byte>, status: byte, sense: seq<byte>, done: nat)
    requires lu.Valid()
  {
    && Replaced(lu, after, lba, data, done)
    && (done == |data| <==> Supplied(lu, lba * lu.blockSize, |data|))
    && if done == |data| then Succeeded(status, sense)
       else Refused(status, sense, 0x03, 0x0c) && CutShort(lu, lba * lu.blockSize, |data|, done)
  }

  /**
   * The truth about a WRITE of `n` blocks from `lba` on, executed with `data`: GOOD is told exactly if
   * the unit exists and all the data is on its disk or no block was asked for; otherwise the cause.
   */
  ghost predicate WriteTold(luns: Luns, after: Luns, lun: u64, lba: u64, n: u32, data: seq<byte>,
                            status: byte, sense: seq<byte>, done: nat)
    requires LunsOk(luns)
  {
    if NoUnit(luns, lun) then after == luns && Refused(status, sense, 0x05, 0x25)
    else
      var k := LunNumber(lun).value;
      var lu := luns[k].value;
      if n == 0 then after == luns && Succeeded(status, sense)
      else if (lba + n) * lu.blockSize > |lu.Disk()| then after == luns && Refused(status, sense, 0x05, 0x21)
      else if |data| != n * lu.blockSize then after == luns && Refused(status, sense, 0x05, 0x24)
      else
        |after| == |luns| && after[k].Some? && after == luns[k := after[k]] && Executed(lu, after[k].value, lba, data, status, sense, done)
  }

  /** The truth about a READ: its blocks, if the unit exists and every byte is written or readable; otherwise the cause. */
  ghost predicate ReadTold(luns: Luns, lun: u64, lba: u64, n: u32, told: Outcome)
    requires LunsOk(luns)
  {
    if NoUnit(luns, lun) then told.data == [] && Refused(told.status, told.sense, 0x05, 0x25)
    else
      var lu := luns[LunNumber(lun).value].value;
      if n == 0 then told.data == [] && Succeeded(told.status, told.sense)
      else if (lba + n) * lu.blockSize > |lu.Disk()| then told.data == [] && Refused(told.status, told.sense, 0x05, 0x21)
      else BlocksTold(lu, ByteCount(lba, lu.blockSize), ByteCount(n, lu.blockSize), told)
  }

  /** What a READ of the `len` bytes at `off` tells. */
  ghost predicate BlocksTold(lu: LogicalUnit, off: nat, len: nat, told: Outcome)
    requires lu.Valid()
  {
    off + len <= |lu.Disk()| &&
    if forall p :: off <= p < off + len ==> p / 4096 in lu.blocks || p !in lu.master.faulty
    then told.data == lu.Disk()[off..off + len] && Succeeded(told.status, told.sense)
    else told.data == [] && Refused(told.status, told.sense, 0x03, 0x11)
  }

  /** Any other command: the list of units, nothing, the unit's own data, or "invalid operation code". */
  ghost predicate OtherTold(luns: Luns, lun: u64, cdb: Cdb, told: Outcome)
    requires LunsOk(luns)
  {
    if NoUnit(luns, lun) then told.data == [] && Refused(told.status, told.sense, 0x05, 0x25)
    else
      var op := cdb[0];
      if op == 0xa0 then told == Outcome(0x00, ReportLunsData(luns), [])
      else if op == 0x00 || op == 0x35 || op == 0x91 || op == 0x1e || op == 0x1b then told == Outcome(0x00, [], [])
      else if op == 0x12 || op == 0x25 || op == 0x03 || op == 0x1a || op == 0x5a || (op == 0x9e && cdb[1] % 32 == 0x10)
      then told == luns[LunNumber(lun).value].value.tables(cdb)
      else told.data == [] && Refused(told.status, told.sense, 0x05, 0x20)
  }

  lemma CheckRefused(key: byte, asc: byte)
    requires key < 16
    ensures var o := Check(key, (asc, 0)); o.data == [] && Refused(o.status, o.sense, key, asc)
  {
  }

  /** A WRITE in range with exactly its data. */
  lemma WriteExecuted(lu: LogicalUnit, lba: u64, n: u32, data: seq<byte>) returns (done: nat)
    requires lu.Valid() && n > 0 && (lba + n) * lu.blockSize <= |lu.Disk()| && |data| == n * lu.blockSize
    ensures var (after, told) := Write(lu, lba, n, data);
            told.data == [] && Executed(lu, after, lba, data, told.status, told.sense, done)
  {
    var off := lba * lu.blockSize;
    InRangeIff(|lu.master.bytes|, lu.blockSize, lba, n);
    InRangeBytes(|lu.master.bytes|, lu.blockSize, lba, n);
    var w := V.WriteSpec(lu.master, lu.blocks, off, data);
    V.WritePatches(lu.master, lu.blocks, off, data);
    V.WriteSucceedsIff(lu.master, lu.blocks, off, data);
    done := w.done;
    CheckRefused(MEDIUM_ERROR, 0x0c);
    if !w.ok {
      var b, x := V.FailedWriteStops(lu.master, lu.blocks, off / V.BLOCK, off % V.BLOCK, data);
    }
  }

  /** A WRITE tells exactly the truth about the disk. */
  lemma WriteOutcome(luns: Luns, cmd: ScsiCommand, form: Form, lba: u64, n: u32, data: seq<byte>) returns (done: nat)
    requires LunsOk(luns) && Fits(form, lba, n) && cmd.cdb == WriteCdb(form, lba, n)
    ensures var (after, told) := ExecuteSpec(luns, cmd, data);
            told.data == [] && WriteTold(luns, after, cmd.lun, lba, n, data, told.status, told.sense, done)
  {
    done := 0;
    WriteCdbWrites(form, lba, n);
    CheckRefused(ILLEGAL_REQUEST, 0x25);
    CheckRefused(ILLEGAL_REQUEST, 0x21);
    CheckRefused(ILLEGAL_REQUEST, 0x24);
    var k := Selected(luns, cmd.lun);
    if k.Some? {
      var lu := luns[k.value].value;
      InRangeIff(|lu.master.bytes|, lu.blockSize, lba, n);
      if n > 0 && (lba + n) * lu.blockSize <= |lu.Disk()| && |data| == n * lu.blockSize {
        done := WriteExecuted(lu, lba, n, data);
      } else {
        assert luns[k.value := Some(lu)] == luns;
      }
    }
  }

  /** A READ tells exactly the truth about the disk, and changes nothing. */
  lemma ReadOutcome(luns: Luns, cmd: ScsiCommand, form: Form, lba: u64, n: u32, data: seq<byte>)
    requires LunsOk(luns) && Fits(form, lba, n) && cmd.cdb == ReadCdb(form, lba, n)
    ensures var (after, told) := ExecuteSpec(luns, cmd, data);
            after == luns && ReadTold(luns, cmd.lun, lba, n, told)
  {
    ReadCdbReads(form, lba, n);
    CheckRefused(ILLEGAL_REQUEST, 0x25);
    CheckRefused(ILLEGAL_REQUEST, 0x21);
    CheckRefused(MEDIUM_ERROR, 0x11);
    var k := Selected(luns, cmd.lun);
    if k.Some? {
      var lu := luns[k.value].value;
      InRangeIff(|lu.master.bytes|, lu.blockSize, lba, n);
      Distribute(lba, n, lu.blockSize);
      assert luns[k.value := Some(lu)] == luns;
    }
  }

  /** Every other command leaves the disks alone, and answers by its operation code. */
  lemma OtherOutcome(luns: Luns, cmd: ScsiCommand, data: seq<byte>)
    requires LunsOk(luns) && cmd.cdb[0] !in {0x28, 0x88, 0x2a, 0x8a}
    ensures var (after, told) := ExecuteSpec(luns, cmd, data);
            after == luns && OtherTold(luns, cmd.lun, cmd.cdb, told)
  {
    OtherOpcodes(cmd.cdb);
    CheckRefused(ILLEGAL_REQUEST, 0x25);
    CheckRefused(ILLEGAL_REQUEST, 0x20);
    var k := Selected(luns, cmd.lun);
    if k.Some? {
      assert luns[k.value := luns[k.value]] == luns;
    }
  }
}
