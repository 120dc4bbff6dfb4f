/** The initiator's side of the wire: requests laid out as RFC 7143 section 11 has them, and decoded back. */
module Initiator {
  import opened Bytes
  import opened Wrappers
  import opened Pdu

  /** The fields every request header shares; `tail` is bytes 32 to 47. */
  datatype Header = Header(top: seq<byte>, eight: seq<byte>, w16: u32, w20: seq<byte>, w24: u32, w28: u32, tail: seq<byte>)

  predicate HeaderOk(h: Header) {
    |h.top| == 4 && |h.eight| == 8 && |h.w20| == 4 && |h.tail| == 16
  }

  function Bhs(h: Header, n: nat): (s: seq<byte>)
    requires HeaderOk(h)
    ensures |s| == BHS_LEN
  {
    h.top + [0] + ToBE(n, 3) + h.eight + ToBE(h.w16, 4) + h.w20 + ToBE(h.w24, 4) + ToBE(h.w28, 4) + h.tail
  }

  lemma BhsFields(h: Header, n: nat)
    requires HeaderOk(h) && n < LENGTH_SPAN
    ensures var s := Bhs(h, n);
            && s[..4] == h.top && s[4] == 0 && DataLen(s) == n && s[8..16] == h.eight
            && Be32(s, 16) == h.w16 && s[20..24] == h.w20 && Be32(s, 24) == h.w24 && Be32(s, 28) == h.w28
            && s[32..48] == h.tail
  {
    var s := Bhs(h, n);
    BEToBE(n, 3);
    Pow256Values();
    BE32RoundTrip(h.w16);
    BE32RoundTrip(h.w24);
    BE32RoundTrip(h.w28);
    assert s[5..8] == ToBE(n, 3);
    assert s[16..20] == ToBE(h.w16, 4);
    assert s[24..28] == ToBE(h.w24, 4);
    assert s[28..32] == ToBE(h.w28, 4);
  }

  function Flag(b: bool, weight: byte): byte {
    if b then weight else 0
  }

  /** The flag byte: three flags above five low bits. */
  function FlagByte(a: bool, b: bool, c: bool, low: nat): byte
    requires low < 32
  {
    Flag(a, 0x80) + Flag(b, 0x40) + Flag(c, 0x20) + low
  }

  predicate Known(opcode: byte) {
    opcode <= 6
  }

  /** Requests whose fields fit the wire layout; `text` is the text segment of a login or text request. */
  predicate Encodable(req: Request, text: Segment) {
    match req
    case Login(l) => l.csg < 4 && l.nsg < 4 && |l.isid| == 6 && l.text == ParsePairs(text)
    case Text(_, _, _, _, _, _, _, pairs) => pairs == ParsePairs(text)
    case Command(c) => c.attr < 8
    case Logout(reason, _, _, _, _) => reason < 128
    case TaskMgmt(code, _, _, _, _, _) => code < 128
    case Unsupported(opcode, _) => opcode < 64 && !Known(opcode)
    case _ => true
  }

  function LoginHeader(l: LoginRequest): (h: Header)
    requires l.csg < 4 && l.nsg < 4 && |l.isid| == 6
    ensures HeaderOk(h)
  {
    Header([3, FlagByte(l.transit, l.continued, false, l.csg * 4 + l.nsg), l.versionMax, l.versionMin],
           l.isid + ToBE(l.tsih, 2), l.itt, ToBE(l.cid, 2) + [0, 0], l.cmdSn, l.expStatSn, Zeros(16))
  }

  function CommandHeader(c: ScsiCommand): (h: Header)
    requires c.attr < 8
    ensures HeaderOk(h)
  {
    Header([1, FlagByte(c.final, c.read, c.write, c.attr), 0, 0],
           ToBE(c.lun, 8), c.itt, ToBE(c.edtl, 4), c.cmdSn, c.expStatSn, c.cdb)
  }

  function DataOutHeader(d: DataOut): (h: Header)
    ensures HeaderOk(h)
  {
    Header([5, FlagByte(d.final, false, false, 0), 0, 0], ToBE(d.lun, 8), d.itt, ToBE(d.ttt, 4), 0, d.expStatSn,
           Zeros(4) + ToBE(d.dataSn, 4) + ToBE(d.bufferOffset, 4) + Zeros(4))
  }

  function HeaderOf(req: Request): (h: Header)
    requires req.Login? ==> req.login.csg < 4 && req.login.nsg < 4 && |req.login.isid| == 6
    requires req.Command? ==> req.cmd.attr < 8
    requires req.Logout? ==> req.reason < 128
    requires req.TaskMgmt? ==> req.code < 128
    ensures HeaderOk(h)
  {
    match req
    case Login(l) => LoginHeader(l)
    case Command(c) => CommandHeader(c)
    case Data(d) => DataOutHeader(d)
    case Text(final, continued, lun, itt, ttt, cmdSn, expStatSn, _) =>
      Header([4, FlagByte(final, continued, false, 0), 0, 0], ToBE(lun, 8), itt, ToBE(ttt, 4), cmdSn, expStatSn, Zeros(16))
    case NopOut(lun, itt, ttt, cmdSn, expStatSn, _) =>
      Header([0, 0x80, 0, 0], ToBE(lun, 8), itt, ToBE(ttt, 4), cmdSn, expStatSn, Zeros(16))
    case Logout(reason, itt, cid, cmdSn, expStatSn) =>
      Header([6, 0x80 + reason, 0, 0], Zeros(8), itt, ToBE(cid, 2) + [0, 0], cmdSn, expStatSn, Zeros(16))
    case TaskMgmt(code, lun, itt, ref, cmdSn, expStatSn) =>
      Header([2, 0x80 + code, 0, 0], ToBE(lun, 8), itt, ToBE(ref, 4), cmdSn, expStatSn, Zeros(16))
    case Unsupported(opcode, itt) =>
      Header([opcode, 0x80, 0, 0], Zeros(8), itt, Zeros(4), 0, 0, Zeros(16))
  }

  function SegmentOf(req: Request, text: Segment): Segment {
    match req
    case Login(_) => text
    case Text(_, _, _, _, _, _, _, _) => text
    case Command(c) => c.data
    case Data(d) => d.data
    case NopOut(_, _, _, _, _, data) => data
    case _ => []
  }

  function Encode(req: Request, text: Segment): seq<byte>
    requires Encodable(req, text)
  {
    var data := SegmentOf(req, text);
    Framed(Bhs(HeaderOf(req), |data|), data)
  }

  function Framed(bhs: seq<byte>, data: seq<byte>): seq<byte> {
    bhs + data + Zeros(Pad4(|data|))
  }

  /** `s` is a header laid out from `h`, field by field as the decoder reads it. */
  predicate Laid(h: Header, s: seq<byte>) {
    && HeaderOk(h) && |s| == BHS_LEN
    && s[4] == 0 && s[0] == h.top[0] && s[1] == h.top[1] && s[2] == h.top[2] && s[3] == h.top[3]
    && s[8..16] == h.eight && s[8..14] == h.eight[..6] && s[14..16] == h.eight[6..]
    && Be32(s, 16) == h.w16 && s[20..24] == h.w20 && s[20..22] == h.w20[..2]
    && Be32(s, 24) == h.w24 && Be32(s, 28) == h.w28
    && s[32..48] == h.tail && s[36..40] == h.tail[4..8] && s[40..44] == h.tail[8..12]
  }

  lemma BhsLaid(h: Header, n: nat)
    requires HeaderOk(h) && n < LENGTH_SPAN
    ensures Laid(h, Bhs(h, n)) && DataLen(Bhs(h, n)) == n
  {
    var s := Bhs(h, n);
    BhsFields(h, n);
    assert s[..4][0] == s[0] && s[..4][1] == s[1] && s[..4][2] == s[2] && s[..4][3] == s[3];
    assert s[8..14] == s[8..16][..6] && s[14..16] == s[8..16][6..];
    assert s[20..22] == s[20..24][..2];
    assert s[36..40] == s[32..48][4..8] && s[40..44] == s[32..48][8..12];
  }

  lemma Flags(a: bool, b: bool, c: bool, low: nat)
    requires low < 32
    ensures var f := FlagByte(a, b, c, low);
            (Bit(f, 0x80) <==> a) && (Bit(f, 0x40) <==> b) && (Bit(f, 0x20) <==> c)
  {
  }

  lemma AboveBits(high: nat, low: nat)
    requires low < 32
    ensures (high * 32 + low) % 8 == low % 8 && (high * 32 + low) % 4 == low % 4
    ensures (high * 32 + low) / 4 % 4 == low / 4 % 4
  {
    DivUnique(high * 32 + low, 8, high * 4 + low / 8, low % 8);
    DivUnique(high * 32 + low, 4, high * 8 + low / 4, low % 4);
    DivUnique(high * 8 + low / 4, 4, high * 2 + low / 4 / 4, low / 4 % 4);
  }

  lemma LowBits(a: bool, b: bool, c: bool, low: nat)
    requires low < 32
    ensures var f := FlagByte(a, b, c, low);
            f % 8 == low % 8 && f % 4 == low % 4 && f / 4 % 4 == low / 4 % 4
  {
    var high: nat := (if a then 4 else 0) + (if b then 2 else 0) + (if c then 1 else 0);
    AboveBits(high, low);
  }

  lemma StageBits(csg: nat, nsg: nat)
    requires csg < 4 && nsg < 4
    ensures (csg * 4 + nsg) % 4 == nsg && (csg * 4 + nsg) / 4 % 4 == csg
  {
  }

  lemma LoginByte(l: LoginRequest, b: byte)
    requires l.csg < 4 && l.nsg < 4 && b == FlagByte(l.transit, l.continued, false, l.csg * 4 + l.nsg)
    ensures (Bit(b, 0x80) <==> l.transit) && (Bit(b, 0x40) <==> l.continued) && b / 4 % 4 == l.csg && b % 4 == l.nsg
  {
    Flags(l.transit, l.continued, false, l.csg * 4 + l.nsg);
    LowBits(l.transit, l.continued, false, l.csg * 4 + l.nsg);
    StageBits(l.csg, l.nsg);
  }

  lemma LoginWords(l: LoginRequest, s: seq<byte>)
    requires l.csg < 4 && l.nsg < 4 && |l.isid| == 6 && Laid(LoginHeader(l), s)
    ensures s[8..14] == l.isid && Be16(s, 14) == l.tsih && Be16(s, 20) == l.cid
  {
    BE16RoundTrip(l.tsih);
    BE16RoundTrip(l.cid);
    assert (l.isid + ToBE(l.tsih, 2))[..6] == l.isid && (l.isid + ToBE(l.tsih, 2))[6..] == ToBE(l.tsih, 2);
    assert (ToBE(l.cid, 2) + [0, 0])[..2] == ToBE(l.cid, 2);
  }

  lemma ParseLogin(l: LoginRequest, s: seq<byte>, text: Segment)
    requires l.csg < 4 && l.nsg < 4 && |l.isid| == 6 && l.text == ParsePairs(text) && Laid(LoginHeader(l), s)
    ensures LoginOf(s, text) == l
  {
    LoginByte(l, s[1]);
    LoginWords(l, s);
  }

  lemma ParseText(req: Request, s: seq<byte>, text: Segment)
    requires req.Text? && Encodable(req, text) && Laid(HeaderOf(req), s)
    ensures ParseRequest(s, text) == req
  {
    Flags(req.final, req.continued, false, 0);
    BE64RoundTrip(req.lun);
    BE32RoundTrip(req.ttt);
  }

  lemma ParseCommand(c: ScsiCommand, s: seq<byte>)
    requires c.attr < 8 && Laid(CommandHeader(c), s)
    ensures CommandOf(s, c.data) == c
  {
    Flags(c.final, c.read, c.write, c.attr);
    LowBits(c.final, c.read, c.write, c.attr);
    BE64RoundTrip(c.lun);
    BE32RoundTrip(c.edtl);
  }

  lemma ParseDataOut(d: DataOut, s: seq<byte>)
    requires Laid(DataOutHeader(d), s)
    ensures DataOutOf(s, d.data) == d
  {
    Flags(d.final, false, false, 0);
    BE64RoundTrip(d.lun);
    BE32RoundTrip(d.ttt);
    BE32RoundTrip(d.dataSn);
    BE32RoundTrip(d.bufferOffset);
    var tail := DataOutHeader(d).tail;
    assert tail[4..8] == ToBE(d.dataSn, 4) && tail[8..12] == ToBE(d.bufferOffset, 4);
  }

  lemma ParseNopOut(req: Request, s: seq<byte>)
    requires req.NopOut? && Laid(HeaderOf(req), s)
    ensures ParseRequest(s, req.data) == req
  {
    BE64RoundTrip(req.lun);
    BE32RoundTrip(req.ttt);
  }

  lemma ParseLogout(req: Request, s: seq<byte>)
    requires req.Logout? && req.reason < 128 && Laid(HeaderOf(req), s)
    ensures ParseRequest(s, []) == req
  {
    BE16RoundTrip(req.cid);
    assert HeaderOf(req).w20[..2] == ToBE(req.cid, 2);
  }

  lemma ParseTaskMgmt(req: Request, s: seq<byte>)
    requires req.TaskMgmt? && req.code < 128 && Laid(HeaderOf(req), s)
    ensures ParseRequest(s, []) == req
  {
    BE64RoundTrip(req.lun);
    BE32RoundTrip(req.refTaskTag);
  }

  lemma ParseUnsupported(req: Request, s: seq<byte>)
    requires req.Unsupported? && Encodable(req, []) && Laid(HeaderOf(req), s)
    ensures ParseRequest(s, []) == req
  {
  }

  /** The header alone determines the request, given its data segment. */
  lemma ParseHeader(req: Request, s: seq<byte>, text: Segment)
    requires Encodable(req, text) && Laid(HeaderOf(req), s)
    ensures ParseRequest(s, SegmentOf(req, text)) == req
  {
    match req {
      case Login(l) => ParseLogin(l, s, text);
      case Text(_, _, _, _, _, _, _, _) => ParseText(req, s, text);
      case Command(c) => ParseCommand(c, s);
      case Data(d) => ParseDataOut(d, s);
      case NopOut(_, _, _, _, _, _) => ParseNopOut(req, s);
      case Logout(_, _, _, _, _) => ParseLogout(req, s);
      case TaskMgmt(_, _, _, _, _, _) => ParseTaskMgmt(req, s);
      case Unsupported(_, _) => ParseUnsupported(req, s);
    }
  }

  lemma DecodeFramed(s: seq<byte>, data: Segment, req: Request, more: seq<byte>)
    requires |s| == BHS_LEN && s[4] == 0 && DataLen(s) == |data| && ParseRequest(s, data) == req
    ensures Decode(Framed(s, data) + more) == Ok((req, |Framed(s, data)|))
  {
    var pdu := Framed(s, data);
    FramedParts(s, data);
    assert pdu[4] == s[4];
    DecodeStable(pdu, more);
  }

  lemma FramedParts(s: seq<byte>, data: Segment)
    requires |s| == BHS_LEN && DataLen(s) == |data|
    ensures var pdu := Framed(s, data);
            && DataLen(pdu) == |data| && Total(pdu) == |pdu|
            && pdu[..BHS_LEN] == s && pdu[BHS_LEN..BHS_LEN + |data|] == data
  {
    HeaderStable(s, data + Zeros(Pad4(|data|)));
    assert Framed(s, data) == s + (data + Zeros(Pad4(|data|)));
  }

  /** Every request an initiator can lay out is decoded to exactly itself, whatever follows it in the stream. */
  lemma DecodeEncode(req: Request, text: Segment, more: seq<byte>)
    requires Encodable(req, text)
    ensures Decode(Encode(req, text) + more) == Ok((req, |Encode(req, text)|))
  {
    var h, data := HeaderOf(req), SegmentOf(req, text);
    BhsLaid(h, |data|);
    ParseHeader(req, Bhs(h, |data|), text);
    DecodeFramed(Bhs(h, |data|), data, req, more);
  }

  /** Whatever a PDU decodes to can be laid out, its text being the data segment it came with. */
  lemma DecodedFits(buf: seq<byte>)
    requires Decode(buf).Ok?
    ensures DataLen(buf) <= MAX_DATA_SEGMENT && BHS_LEN + DataLen(buf) <= |buf|
    ensures Encodable(Decode(buf).value.0, buf[BHS_LEN..BHS_LEN + DataLen(buf)])
  {
  }

  /**
   * Decoding yields exactly the requests an initiator can lay out: nothing else comes out, and
   * laying one out and decoding it gives it back.
   */
  lemma DecodedIffEncodable(req: Request)
    ensures (exists buf :: Decode(buf).Ok? && Decode(buf).value.0 == req) <==> exists text: Segment :: Encodable(req, text)
  {
    if buf :| Decode(buf).Ok? && Decode(buf).value.0 == req {
      DecodedFits(buf);
    }
    if text: Segment :| Encodable(req, text) {
      DecodeEncode(req, text, []);
      assert Decode(Encode(req, text) + []).Ok?;
    }
  }

  /** What was decoded survives being laid out and decoded again. */
  lemma RelayStable(buf: seq<byte>)
    requires Decode(buf).Ok?
    ensures DataLen(buf) <= MAX_DATA_SEGMENT && BHS_LEN + DataLen(buf) <= |buf|
    ensures var (req, text) := (Decode(buf).value.0, buf[BHS_LEN..BHS_LEN + DataLen(buf)]);
            Encodable(req, text) && Decode(Encode(req, text)) == Ok((req, |Encode(req, text)|))
  {
    DecodedFits(buf);
    var req, text := Decode(buf).value.0, buf[BHS_LEN..BHS_LEN + DataLen(buf)];
    DecodeEncode(req, text, []);
    assert Encode(req, text) + [] == Encode(req, text);
  }
}
