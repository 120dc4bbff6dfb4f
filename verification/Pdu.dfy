/** iSCSI PDUs: decoding requests and framing responses (iscsi/pdu.rs, iscsi/text.rs; RFC 7143 section 11). */
module Pdu {
  import opened Bytes
  import opened Wrappers
  import opened Store

  const BHS_LEN: nat := 48
  const MAX_DATA_SEGMENT: nat := 262144
  const LENGTH_SPAN: nat := 0x100_0000

  datatype PduError = ShortHeader | ShortData | UnexpectedAhs | DataSegmentTooLong

  /** A received data segment: decoding bounds its length. */
  type Segment = s: seq<byte> | |s| <= MAX_DATA_SEGMENT witness []

  type Cdb = s: seq<byte> | |s| == 16 witness Zeros(16)

  datatype Pair = Pair(key: string, value: string)

  datatype LoginRequest = LoginRequest(
    transit: bool, continued: bool, csg: byte, nsg: byte, versionMax: byte, versionMin: byte,
    isid: seq<byte>, tsih: u16, itt: u32, cid: u16, cmdSn: u32, expStatSn: u32, text: seq<Pair>)

  datatype ScsiCommand = ScsiCommand(
    final: bool, read: bool, write: bool, attr: byte, lun: u64, itt: u32, edtl: u32,
    cmdSn: u32, expStatSn: u32, cdb: Cdb, data: Segment)

  datatype DataOut = DataOut(
    final: bool, lun: u64, itt: u32, ttt: u32, expStatSn: u32, dataSn: u32, bufferOffset: u32, data: Segment)

  datatype Request =
    | Login(login: LoginRequest)
    | Text(final: bool, continued: bool, lun: u64, itt: u32, ttt: u32, cmdSn: u32, expStatSn: u32, text: seq<Pair>)
    | Command(cmd: ScsiCommand)
    | Data(dataOut: DataOut)
    | NopOut(lun: u64, itt: u32, ttt: u32, cmdSn: u32, expStatSn: u32, data: Segment)
    | Logout(reason: byte, itt: u32, cid: u16, cmdSn: u32, expStatSn: u32)
    | TaskMgmt(code: byte, lun: u64, itt: u32, refTaskTag: u32, cmdSn: u32, expStatSn: u32)
    | Unsupported(opcode: byte, itt: u32)

  // ----- key=value text -----

  function IndexOf(s: seq<byte>, b: byte): (k: nat)
    ensures k <= |s|
    ensures k < |s| ==> s[k] == b
  {
    if s == [] || s[0] == b then 0 else 1 + IndexOf(s[1..], b)
  }

  function Chars(s: seq<byte>): string {
    seq(|s|, i requires 0 <= i < |s| => s[i] as char)
  }

  /** Pairs split at NUL and at the first `=`; entries without a key are skipped. */
  function ParsePairs(data: seq<byte>): seq<Pair> {
    if data == [] then []
    else
      var end := IndexOf(data, 0);
      var eq := IndexOf(data[..end], '=' as int);
      (if 0 < eq < end then [Pair(Chars(data[..eq]), Chars(data[eq + 1..end]))] else [])
      + (if end < |data| then ParsePairs(data[end + 1..]) else [])
  }

  // ----- decoding -----

  /** Whether the bit of weight `mask` is set. */
  predicate Bit(b: byte, mask: nat)
    requires mask > 0
  {
    Quot(b, mask) % 2 == 1
  }

  function Be16(h: seq<byte>, off: nat): u16
    requires off + 2 <= |h|
  {
    BE16(h[off..off + 2])
  }

  function Be32(h: seq<byte>, off: nat): u32
    requires off + 4 <= |h|
  {
    BE32(h[off..off + 4])
  }

  function Be64(h: seq<byte>, off: nat): u64
    requires off + 8 <= |h|
  {
    BE64(h[off..off + 8])
  }

  function Pad4(n: nat): (p: nat)
    ensures p < 4 && (n + p) % 4 == 0
  {
    (4 - n % 4) % 4
  }

  function Opcode(h: seq<byte>): byte
    requires |h| >= 1
  {
    h[0] % 64
  }

  function DataLen(h: seq<byte>): (n: nat)
    requires |h| >= BHS_LEN
    ensures n < LENGTH_SPAN
  {
    BEBound(h[5..8]);
    Pow256Values();
    BE(h[5..8])
  }

  /** The whole PDU: header, data segment and padding. */
  function Total(h: seq<byte>): (n: nat)
    requires |h| >= BHS_LEN
    ensures n >= BHS_LEN && n % 4 == 0
  {
    BHS_LEN + DataLen(h) + Pad4(DataLen(h))
  }

  function LoginOf(h: seq<byte>, data: Segment): LoginRequest
    requires |h| == BHS_LEN
  {
    LoginRequest(Bit(h[1], 0x80), Bit(h[1], 0x40), h[1] / 4 % 4, h[1] % 4, h[2], h[3], h[8..14],
                 Be16(h, 14), Be32(h, 16), Be16(h, 20), Be32(h, 24), Be32(h, 28), ParsePairs(data))
  }

  function CommandOf(h: seq<byte>, data: Segment): ScsiCommand
    requires |h| == BHS_LEN
  {
    ScsiCommand(Bit(h[1], 0x80), Bit(h[1], 0x40), Bit(h[1], 0x20), h[1] % 8, Be64(h, 8), Be32(h, 16), Be32(h, 20),
                Be32(h, 24), Be32(h, 28), h[32..48], data)
  }

  function DataOutOf(h: seq<byte>, data: Segment): DataOut
    requires |h| == BHS_LEN
  {
    DataOut(Bit(h[1], 0x80), Be64(h, 8), Be32(h, 16), Be32(h, 20), Be32(h, 28), Be32(h, 36), Be32(h, 40), data)
  }

  /** The fields of a complete PDU. */
  function ParseRequest(h: seq<byte>, data: Segment): Request
    requires |h| == BHS_LEN
  {
    match Opcode(h)
    case 0x03 => Login(LoginOf(h, data))
    case 0x04 => Text(Bit(h[1], 0x80), Bit(h[1], 0x40), Be64(h, 8), Be32(h, 16), Be32(h, 20), Be32(h, 24),
                      Be32(h, 28), ParsePairs(data))
    case 0x01 => Command(CommandOf(h, data))
    case 0x05 => Data(DataOutOf(h, data))
    case 0x00 => NopOut(Be64(h, 8), Be32(h, 16), Be32(h, 20), Be32(h, 24), Be32(h, 28), data)
    case 0x06 => Logout(h[1] % 128, Be32(h, 16), Be16(h, 20), Be32(h, 24), Be32(h, 28))
    case 0x02 => TaskMgmt(h[1] % 128, Be64(h, 8), Be32(h, 16), Be32(h, 20), Be32(h, 24), Be32(h, 28))
    case other => Unsupported(other, Be32(h, 16))
  }

  /** `decode`: the request at the front of `buf` and the bytes it occupies. */
  function Decode(buf: seq<byte>): (r: Result<(Request, nat), PduError>)
    ensures r.Ok? ==> BHS_LEN <= r.value.1 <= |buf| && r.value.1 % 4 == 0
  {
    if |buf| < BHS_LEN then Err(ShortHeader)
    else if buf[4] != 0 then Err(UnexpectedAhs)
    else if DataLen(buf) > MAX_DATA_SEGMENT then Err(DataSegmentTooLong)
    else if |buf| < Total(buf) then Err(ShortData)
    else Ok((ParseRequest(buf[..BHS_LEN], buf[BHS_LEN..BHS_LEN + DataLen(buf)]), Total(buf)))
  }

  predicate Short(r: Result<(Request, nat), PduError>) {
    r == Err(ShortHeader) || r == Err(ShortData)
  }

  /** Appended bytes change nothing but a "short" result. */
  lemma DecodeStable(buf: seq<byte>, more: seq<byte>)
    requires !Short(Decode(buf))
    ensures Decode(buf + more) == Decode(buf)
  {
    HeaderStable(buf, more);
    if Decode(buf).Ok? {
      assert (buf + more)[..BHS_LEN] == buf[..BHS_LEN];
      assert (buf + more)[BHS_LEN..BHS_LEN + DataLen(buf)] == buf[BHS_LEN..BHS_LEN + DataLen(buf)];
    }
  }

  lemma HeaderStable(buf: seq<byte>, more: seq<byte>)
    requires |buf| >= BHS_LEN
    ensures DataLen(buf + more) == DataLen(buf) && Total(buf + more) == Total(buf)
  {
    assert (buf + more)[5..8] == buf[5..8];
  }

  /** More bytes than any PDU takes. */
  const PLENTY: nat := BHS_LEN + LENGTH_SPAN + 4

  /** Enough bytes always decide. */
  lemma PlentyDecides(buf: seq<byte>)
    requires |buf| >= PLENTY
    ensures !Short(Decode(buf))
  {
  }

  /**
   * "Short" means exactly that bytes yet to come can change the answer, and then some do settle it:
   * waiting is never wrong, and no other answer is ever revised.
   */
  lemma ShortIff(buf: seq<byte>)
    ensures Short(Decode(buf)) <==> exists more :: Decode(buf + more) != Decode(buf)
    ensures exists more :: !Short(Decode(buf + more))
    ensures Short(Decode(buf))
       <==> |buf| < BHS_LEN || (buf[4] == 0 && DataLen(buf) <= MAX_DATA_SEGMENT && |buf| < Total(buf))
  {
    var more := Zeros(PLENTY);
    PlentyDecides(buf + more);
    if !Short(Decode(buf)) {
      forall more: seq<byte>
        ensures Decode(buf + more) == Decode(buf)
      {
        DecodeStable(buf, more);
      }
    }
  }

  function ThreeBytes(a: nat, b: nat, c: nat): nat {
    0x1_0000 * a + 0x100 * b + c
  }

  /** The data segment's length stands in bytes 5 to 7, most significant first. */
  lemma DataLenBytes(h: seq<byte>)
    requires |h| >= BHS_LEN
    ensures DataLen(h) == ThreeBytes(h[5], h[6], h[7])
  {
    var f := h[5..8];
    assert f[..2][..1] == [h[5]] && f[..2][1] == h[6] && f[2] == h[7];
    assert BE([h[5]]) == h[5] by { assert [h[5]][..0] == []; }
    assert BE(f[..2]) == BE(f[..2][..1]) * 256 + h[6];
  }

  /** The two ways in which a whole header is refused: additional header segments, and data over 256 KiB. */
  lemma RefusedIff(buf: seq<byte>)
    ensures Decode(buf) == Err(UnexpectedAhs) <==> |buf| >= 48 && buf[4] != 0
    ensures Decode(buf) == Err(DataSegmentTooLong)
       <==> |buf| >= 48 && buf[4] == 0 && ThreeBytes(buf[5], buf[6], buf[7]) > 0x4_0000
  {
    if |buf| >= BHS_LEN {
      DataLenBytes(buf);
    }
  }

  // ----- framing responses -----

  /** `frame`: the length field is set in place, then the data is appended and padded. */
  method Frame(bhs: array<byte>, data: seq<byte>) returns (out: seq<byte>)
    requires bhs.Length == BHS_LEN
    modifies bhs
    ensures |out| == BHS_LEN + |data| + Pad4(|data|)
    ensures out[..5] == old(bhs[..5]) && out[8..BHS_LEN] == old(bhs[8..])
    ensures out[5..8] == ToBE(|data|, 3)
    ensures out[BHS_LEN..BHS_LEN + |data|] == data
    ensures out[BHS_LEN + |data|..] == Zeros(Pad4(|data|))
  {
    PutField(bhs, 5, ToBE(|data|, 3));
    assert bhs[..5] == bhs[0..5] && bhs[8..] == bhs[8..BHS_LEN];
    out := bhs[..] + data + Zeros(Pad4(|data|));
  }

  /**
   * The receiver finds the end of a framed response exactly when its data fits the 24-bit length
   * field. Nothing in the encoder or the negotiation keeps a longer segment from being framed.
   */
  lemma FrameLengthIff(out: seq<byte>, data: seq<byte>)
    requires |out| == BHS_LEN + |data| + Pad4(|data|) && out[5..8] == ToBE(|data|, 3)
    ensures Total(out) == |out| && DataLen(out) == |data| <==> |data| < LENGTH_SPAN
  {
    BEToBE(|data|, 3);
    Pow256Values();
  }
}
