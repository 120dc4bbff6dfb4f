/** The DHCP packet codec (net/dhcp/packet.rs; RFC 2131 section 2, RFC 2132 section 2). */
module Dhcp {
  import opened Bytes
  import opened Wrappers
  import opened Store

  const COOKIE_OFFSET: nat := 236
  const MIN_LEN: nat := 240
  const MAGIC_COOKIE: seq<byte> := [0x63, 0x82, 0x53, 0x63]
  const PAD: byte := 0
  const END: byte := 255

  type Ipv4 = s: seq<byte> | |s| == 4 witness Zeros(4)
  type HardwareAddress = s: seq<byte> | |s| == 16 witness Zeros(16)

  datatype DhcpOption = DhcpOption(code: byte, data: seq<byte>)

  datatype Message = Message(
    op: byte, htype: byte, hlen: byte, hops: byte, xid: u32, secs: u16, flags: u16,
    ciaddr: Ipv4, yiaddr: Ipv4, siaddr: Ipv4, giaddr: Ipv4, chaddr: HardwareAddress, options: seq<DhcpOption>)

  datatype ParseError = TooShort(len: nat) | BadCookie | TruncatedOption(code: byte)

  // ----- the options area -----

  function Prepend(opts: seq<DhcpOption>, r: Result<seq<DhcpOption>, ParseError>): Result<seq<DhcpOption>, ParseError> {
    match r
    case Ok(rest) => Ok(opts + rest)
    case Err(e) => Err(e)
  }

  function OptionsOf(buf: seq<byte>): Result<seq<DhcpOption>, ParseError>
    decreases |buf|
  {
    if buf == [] || buf[0] == END then Ok([])
    else if buf[0] == PAD then OptionsOf(buf[1..])
    else if |buf| < 2 || 2 + buf[1] > |buf| then Err(TruncatedOption(buf[0]))
    else Prepend([DhcpOption(buf[0], buf[2..2 + buf[1]])], OptionsOf(buf[2 + buf[1]..]))
  }

  /** `parse_options`: total on every input, with every index in range. */
  method ParseOptions(buf: seq<byte>) returns (r: Result<seq<DhcpOption>, ParseError>)
    ensures r == OptionsOf(buf)
  {
    var opts: seq<DhcpOption> := [];
    var i: nat := 0;
    assert buf[0..] == buf;
    PrependNone(OptionsOf(buf));
    while i < |buf|
      invariant i <= |buf| && Prepend(opts, OptionsOf(buf[i..])) == OptionsOf(buf)
    {
      var code := buf[i];
      if code == PAD {
        assert buf[i..][1..] == buf[i + 1..];
        i := i + 1;
        continue;
      }
      if code == END {
        break;
      }
      if i + 1 >= |buf| {
        return Err(TruncatedOption(code));
      }
      var start := i + 2;
      var end := start + buf[i + 1];
      if end > |buf| {
        return Err(TruncatedOption(code));
      }
      NextOption(buf, i, opts);
      opts := opts + [DhcpOption(code, buf[start..end])];
      i := end;
    }
    assert opts + [] == opts;
    r := Ok(opts);
  }

  lemma PrependNone(r: Result<seq<DhcpOption>, ParseError>)
    ensures Prepend([], r) == r
  {
    if r.Ok? {
      assert [] + r.value == r.value;
    }
  }

  lemma PrependTwice(a: seq<DhcpOption>, b: seq<DhcpOption>, r: Result<seq<DhcpOption>, ParseError>)
    ensures Prepend(a, Prepend(b, r)) == Prepend(a + b, r)
  {
    if r.Ok? {
      assert a + (b + r.value) == (a + b) + r.value;
    }
  }

  lemma NextOption(buf: seq<byte>, i: nat, opts: seq<DhcpOption>)
    requires i + 1 < |buf| && buf[i] != PAD && buf[i] != END && i + 2 + buf[i + 1] <= |buf|
    ensures var end := i + 2 + buf[i + 1];
            Prepend(opts, OptionsOf(buf[i..])) == Prepend(opts + [DhcpOption(buf[i], buf[i + 2..end])], OptionsOf(buf[end..]))
  {
    var rest, end := buf[i..], i + 2 + buf[i + 1];
    assert rest[0] == buf[i] && rest[1] == buf[i + 1];
    assert rest[2..2 + rest[1]] == buf[i + 2..end] && rest[2 + rest[1]..] == buf[end..];
    PrependTwice(opts, [DhcpOption(buf[i], buf[i + 2..end])], OptionsOf(buf[end..]));
  }

  function EncodeOption(o: DhcpOption): seq<byte> {
    [o.code, |o.data| % 256] + o.data
  }

  function EncodeOptions(opts: seq<DhcpOption>): seq<byte> {
    if opts == [] then [] else EncodeOption(opts[0]) + EncodeOptions(opts[1..])
  }

  /** An option the wire format can carry: PAD and END are not options, and the length is one byte. */
  predicate Carried(o: DhcpOption) {
    o.code != PAD && o.code != END && |o.data| <= 255
  }

  predicate AllCarried(opts: seq<DhcpOption>) {
    opts == [] || (Carried(opts[0]) && AllCarried(opts[1..]))
  }

  lemma OneOption(o: DhcpOption, rest: seq<byte>)
    requires Carried(o)
    ensures OptionsOf(EncodeOption(o) + rest) == Prepend([o], OptionsOf(rest))
  {
    var buf := EncodeOption(o) + rest;
    assert buf[0] == o.code && buf[1] == |o.data|;
    assert buf[2..2 + buf[1]] == o.data && buf[2 + buf[1]..] == rest;
  }

  /** Encoded options are read back in front of whatever follows them. */
  lemma {:induction false} OptionsRoundTrip(opts: seq<DhcpOption>, more: seq<byte>)
    requires AllCarried(opts)
    ensures OptionsOf(EncodeOptions(opts) + more) == Prepend(opts, OptionsOf(more))
  {
    if opts == [] {
      assert [] + more == more;
      PrependNone(OptionsOf(more));
    } else {
      var rest := EncodeOptions(opts[1..]) + more;
      assert EncodeOptions(opts) + more == EncodeOption(opts[0]) + rest;
      OneOption(opts[0], rest);
      OptionsRoundTrip(opts[1..], more);
      PrependTwice([opts[0]], opts[1..], OptionsOf(more));
      assert [opts[0]] + opts[1..] == opts;
    }
  }

  /** PAD bytes are skipped. */
  lemma {:induction false} PadsIgnored(n: nat, more: seq<byte>)
    ensures OptionsOf(Zeros(n) + more) == OptionsOf(more)
  {
    if n == 0 {
      assert Zeros(0) + more == more;
    } else {
      assert (Zeros(n) + more)[1..] == Zeros(n - 1) + more;
      PadsIgnored(n - 1, more);
    }
  }

  /** Encoded options with `pads[i]` PAD bytes before the i-th one. */
  function Padded(opts: seq<DhcpOption>, pads: seq<nat>): seq<byte>
    requires |pads| == |opts|
  {
    if opts == [] then [] else Zeros(pads[0]) + EncodeOption(opts[0]) + Padded(opts[1..], pads[1..])
  }

  /** However many PAD bytes stand before each option, the options are read back in front of whatever follows. */
  lemma {:induction false} PaddedRoundTrip(opts: seq<DhcpOption>, pads: seq<nat>, more: seq<byte>)
    requires |pads| == |opts| && AllCarried(opts)
    ensures OptionsOf(Padded(opts, pads) + more) == Prepend(opts, OptionsOf(more))
  {
    if opts == [] {
      assert Padded([], pads) + more == more;
      PrependNone(OptionsOf(more));
    } else {
      var rest := Padded(opts[1..], pads[1..]) + more;
      assert Padded(opts, pads) + more == Zeros(pads[0]) + (EncodeOption(opts[0]) + rest);
      PadsIgnored(pads[0], EncodeOption(opts[0]) + rest);
      OneOption(opts[0], rest);
      PaddedRoundTrip(opts[1..], pads[1..], more);
      PrependTwice([opts[0]], opts[1..], OptionsOf(more));
      assert [opts[0]] + opts[1..] == opts;
    }
  }

  /** PAD bytes before any options and before END, and bytes after END, change nothing. */
  lemma PaddingIgnored(opts: seq<DhcpOption>, pads: seq<nat>, last: nat, trailing: seq<byte>)
    requires |pads| == |opts| && AllCarried(opts)
    ensures OptionsOf(Padded(opts, pads) + (Zeros(last) + ([END] + trailing))) == Ok(opts)
  {
    PaddedRoundTrip(opts, pads, Zeros(last) + ([END] + trailing));
    PadsIgnored(last, [END] + trailing);
    assert opts + [] == opts;
  }

  /** The parser only ever produces options the wire format can carry. */
  lemma {:induction false} ParsedAreCarried(buf: seq<byte>)
    requires OptionsOf(buf).Ok?
    ensures AllCarried(OptionsOf(buf).value)
    decreases |buf|
  {
    if buf != [] && buf[0] != END {
      if buf[0] == PAD {
        ParsedAreCarried(buf[1..]);
      } else {
        ParsedAreCarried(buf[2 + buf[1]..]);
        var rest := OptionsOf(buf[2 + buf[1]..]).value;
        assert OptionsOf(buf).value[1..] == rest;
      }
    }
  }

  // ----- whole messages -----

  function MessageOf(buf: seq<byte>): Result<Message, ParseError> {
    if |buf| < MIN_LEN then Err(TooShort(|buf|))
    else if buf[COOKIE_OFFSET..MIN_LEN] != MAGIC_COOKIE then Err(BadCookie)
    else
      match OptionsOf(buf[MIN_LEN..])
      case Err(e) => Err(e)
      case Ok(options) =>
        Ok(Message(buf[0], buf[1], buf[2], buf[3], BE32(buf[4..8]), BE16(buf[8..10]), BE16(buf[10..12]),
                   buf[12..16], buf[16..20], buf[20..24], buf[24..28], buf[28..44], options))
  }

  method Parse(buf: seq<byte>) returns (r: Result<Message, ParseError>)
    ensures r == MessageOf(buf)
  {
    if |buf| < MIN_LEN {
      return Err(TooShort(|buf|));
    }
    if buf[COOKIE_OFFSET..MIN_LEN] != MAGIC_COOKIE {
      return Err(BadCookie);
    }
    var options := ParseOptions(buf[MIN_LEN..]);
    if options.Err? {
      return Err(options.error);
    }
    r := Ok(Message(buf[0], buf[1], buf[2], buf[3], BE32(buf[4..8]), BE16(buf[8..10]), BE16(buf[10..12]),
                    buf[12..16], buf[16..20], buf[20..24], buf[24..28], buf[28..44], options.value));
  }

  /** The fixed header: each field in its place, zeros up to the cookie. */
  predicate HeaderIs(h: seq<byte>, m: Message) {
    && |h| == MIN_LEN
    && h[0] == m.op && h[1] == m.htype && h[2] == m.hlen && h[3] == m.hops
    && h[4..8] == ToBE(m.xid, 4) && h[8..10] == ToBE(m.secs, 2) && h[10..12] == ToBE(m.flags, 2)
    && h[12..16] == m.ciaddr && h[16..20] == m.yiaddr && h[20..24] == m.siaddr && h[24..28] == m.giaddr
    && h[28..44] == m.chaddr && h[44..COOKIE_OFFSET] == Zeros(192) && h[COOKIE_OFFSET..MIN_LEN] == MAGIC_COOKIE
  }

  /** `encode`: header, cookie, TLV options, END. */
  method Encode(m: Message) returns (out: seq<byte>)
    ensures |out| >= MIN_LEN && HeaderIs(out[..MIN_LEN], m)
    ensures out[MIN_LEN..] == EncodeOptions(m.options) + [END]
  {
    var header := EncodeHeader(m);
    var options := EncodeAll(m.options);
    out := header + options + [END];
    assert out[..MIN_LEN] == header && out[MIN_LEN..] == options + [END];
  }

  /** The option loop. */
  method EncodeAll(opts: seq<DhcpOption>) returns (out: seq<byte>)
    ensures out == EncodeOptions(opts)
  {
    out := [];
    var rest := opts;
    while rest != []
      invariant out + EncodeOptions(rest) == EncodeOptions(opts)
      decreases |rest|
    {
      var o := rest[0];
      assert out + (EncodeOption(o) + EncodeOptions(rest[1..])) == (out + EncodeOption(o)) + EncodeOptions(rest[1..]);
      out := out + ([o.code, |o.data| % 256] + o.data);
      rest := rest[1..];
    }
  }

  method EncodeHeader(m: Message) returns (h: seq<byte>)
    ensures HeaderIs(h, m)
  {
    var a := new byte[MIN_LEN](_ => 0);
    assert a[44..COOKIE_OFFSET] == Zeros(192);
    PutNumbers(a, m);
    PutAddresses(a, m);
    PutField(a, COOKIE_OFFSET, MAGIC_COOKIE);
    h := a[..];
    assert a[0..4][0] == a[0] && a[0..4][1] == a[1] && a[0..4][2] == a[2] && a[0..4][3] == a[3];
    SameSlices(a, h);
  }

  lemma SameSlices(a: array<byte>, h: seq<byte>)
    requires a[..] == h && a.Length == MIN_LEN
    ensures h[4..8] == a[4..8] && h[8..10] == a[8..10] && h[10..12] == a[10..12] && h[12..16] == a[12..16]
    ensures h[16..20] == a[16..20] && h[20..24] == a[20..24] && h[24..28] == a[24..28] && h[28..44] == a[28..44]
    ensures h[44..COOKIE_OFFSET] == a[44..COOKIE_OFFSET] && h[COOKIE_OFFSET..MIN_LEN] == a[COOKIE_OFFSET..MIN_LEN]
  {
  }

  method PutNumbers(a: array<byte>, m: Message)
    requires a.Length == MIN_LEN
    modifies a
    ensures a[0..4] == [m.op, m.htype, m.hlen, m.hops]
    ensures a[4..8] == ToBE(m.xid, 4) && a[8..10] == ToBE(m.secs, 2) && a[10..12] == ToBE(m.flags, 2)
    ensures a[44..COOKIE_OFFSET] == old(a[44..COOKIE_OFFSET])
  {
    PutField(a, 0, [m.op, m.htype, m.hlen, m.hops]);
    PutField(a, 4, ToBE(m.xid, 4));
    PutField(a, 8, ToBE(m.secs, 2));
    PutField(a, 10, ToBE(m.flags, 2));
  }

  method PutAddresses(a: array<byte>, m: Message)
    requires a.Length == MIN_LEN
    modifies a
    ensures a[12..16] == m.ciaddr && a[16..20] == m.yiaddr && a[20..24] == m.siaddr && a[24..28] == m.giaddr
    ensures a[28..44] == m.chaddr && a[44..COOKIE_OFFSET] == old(a[44..COOKIE_OFFSET])
    ensures a[0..4] == old(a[0..4]) && a[4..8] == old(a[4..8]) && a[8..10] == old(a[8..10]) && a[10..12] == old(a[10..12])
  {
    PutField(a, 12, m.ciaddr);
    PutField(a, 16, m.yiaddr);
    PutField(a, 20, m.siaddr);
    PutField(a, 24, m.giaddr);
    PutField(a, 28, m.chaddr);
  }

  /** `out` is an encoding of `m`, as `Encode` produces it, followed by anything. */
  predicate Encodes(out: seq<byte>, m: Message, trailing: seq<byte>) {
    |out| >= MIN_LEN && HeaderIs(out[..MIN_LEN], m) && out[MIN_LEN..] == EncodeOptions(m.options) + ([END] + trailing)
  }

  lemma HeaderParses(out: seq<byte>, m: Message, options: seq<DhcpOption>)
    requires |out| >= MIN_LEN && HeaderIs(out[..MIN_LEN], m) && OptionsOf(out[MIN_LEN..]) == Ok(options)
    ensures MessageOf(out) == Ok(m.(options := options))
  {
    var h := out[..MIN_LEN];
    BE32RoundTrip(m.xid);
    BE16RoundTrip(m.secs);
    BE16RoundTrip(m.flags);
    assert out[4..8] == h[4..8] && out[8..10] == h[8..10] && out[10..12] == h[10..12];
    assert out[12..16] == h[12..16] && out[16..20] == h[16..20] && out[20..24] == h[20..24];
    assert out[24..28] == h[24..28] && out[28..44] == h[28..44] && out[236..240] == h[236..240];
  }

  /** An encoded message parses back to itself exactly when the wire format can carry its options. */
  lemma RoundTripIff(out: seq<byte>, m: Message, trailing: seq<byte>)
    requires Encodes(out, m, trailing)
    ensures MessageOf(out) == Ok(m) <==> AllCarried(m.options)
  {
    if AllCarried(m.options) {
      OptionsRoundTrip(m.options, [END] + trailing);
      assert m.options + [] == m.options;
      HeaderParses(out, m, m.options);
    } else if MessageOf(out).Ok? {
      ParsedAreCarried(out[MIN_LEN..]);
    }
  }

  /** Whatever the parser accepts survives being encoded and parsed again. */
  lemma ReencodeStable(buf: seq<byte>, out: seq<byte>)
    requires MessageOf(buf).Ok? && Encodes(out, MessageOf(buf).value, [])
    ensures MessageOf(out) == MessageOf(buf)
  {
    ParsedAreCarried(buf[MIN_LEN..]);
    RoundTripIff(out, MessageOf(buf).value, []);
  }
}
