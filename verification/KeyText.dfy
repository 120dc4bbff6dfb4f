/** Key=Value text as an initiator lays it out, and read back (iscsi/text.rs; RFC 7143 section 6.1). */
module KeyText {
  import opened Bytes
  import opened Wrappers
  import opened Pdu

  predicate Plain(s: string) {
    forall i :: 0 <= i < |s| ==> 0 < s[i] as int < 256
  }

  /** A pair that can be sent: a key without `=`, and no NUL anywhere. */
  predicate Sendable(p: Pair) {
    p.key != "" && Plain(p.key) && Plain(p.value) && '=' !in p.key
  }

  function Octets(s: string): (b: seq<byte>)
    requires Plain(s)
    ensures |b| == |s| && forall i :: 0 <= i < |b| ==> b[i] == s[i] as int && b[i] != 0
  {
    seq(|s|, i requires 0 <= i < |s| => s[i] as int)
  }

  /** `key`, `=`, `value`. */
  function Entry(p: Pair): (b: seq<byte>)
    requires Sendable(p)
    ensures 0 !in b
  {
    Octets(p.key) + [0x3d] + Octets(p.value)
  }

  /** The entries, each ended by a NUL. */
  function TextOf(pairs: seq<Pair>): seq<byte>
    requires forall i :: 0 <= i < |pairs| ==> Sendable(pairs[i])
  {
    if pairs == [] then [] else Entry(pairs[0]) + [0] + TextOf(pairs[1..])
  }

  lemma {:induction false} IndexAfter(front: seq<byte>, b: byte, rest: seq<byte>)
    requires b !in front
    ensures IndexOf(front + [b] + rest, b) == |front|
    decreases |front|
  {
    var s := front + [b] + rest;
    if front != [] {
      assert s[0] == front[0];
      assert s[1..] == front[1..] + [b] + rest;
      IndexAfter(front[1..], b, rest);
    }
  }

  lemma {:induction false} IndexNowhere(s: seq<byte>, b: byte)
    requires b !in s
    ensures IndexOf(s, b) == |s|
    decreases |s|
  {
    if s != [] {
      IndexNowhere(s[1..], b);
    }
  }

  lemma CharsOctets(s: string)
    requires Plain(s)
    ensures Chars(Octets(s)) == s
  {
  }

  /** The text up to the first NUL is one entry. */
  lemma ParseEntry(entry: seq<byte>, rest: seq<byte>)
    requires 0 !in entry
    ensures var eq := IndexOf(entry, 0x3d);
            ParsePairs(entry + [0] + rest)
            == (if 0 < eq < |entry| then [Pair(Chars(entry[..eq]), Chars(entry[eq + 1..]))] else []) + ParsePairs(rest)
  {
    var s := entry + [0] + rest;
    IndexAfter(entry, 0, rest);
    assert s[..|entry|] == entry && s[|entry| + 1..] == rest;
    var eq := IndexOf(entry, 0x3d);
    if 0 < eq < |entry| {
      assert s[..eq] == entry[..eq] && s[eq + 1..|entry|] == entry[eq + 1..];
    }
  }

  lemma ParseSent(p: Pair, rest: seq<byte>)
    requires Sendable(p)
    ensures ParsePairs(Entry(p) + [0] + rest) == [p] + ParsePairs(rest)
  {
    var k, v := Octets(p.key), Octets(p.value);
    ParseEntry(Entry(p), rest);
    IndexAfter(k, 0x3d, v);
    assert Entry(p)[..|k|] == k && Entry(p)[|k| + 1..] == v;
    CharsOctets(p.key);
    CharsOctets(p.value);
  }

  lemma TextNext(pairs: seq<Pair>, rest: seq<byte>)
    requires pairs != [] && forall i :: 0 <= i < |pairs| ==> Sendable(pairs[i])
    ensures TextOf(pairs) + rest == Entry(pairs[0]) + [0] + (TextOf(pairs[1..]) + rest)
  {
    Regrouped(Entry(pairs[0]), TextOf(pairs[1..]), rest);
  }

  lemma Regrouped(entry: seq<byte>, more: seq<byte>, rest: seq<byte>)
    ensures entry + [0] + more + rest == entry + [0] + (more + rest)
  {
  }

  lemma Rejoined(pairs: seq<Pair>, tail: seq<Pair>)
    requires pairs != []
    ensures [pairs[0]] + (pairs[1..] + tail) == pairs + tail
  {
  }

  /** Every list of pairs that can be sent is read back as it was, in order, before whatever follows it. */
  lemma {:induction false} TextRoundTrip(pairs: seq<Pair>, rest: seq<byte>)
    requires forall i :: 0 <= i < |pairs| ==> Sendable(pairs[i])
    ensures ParsePairs(TextOf(pairs) + rest) == pairs + ParsePairs(rest)
    decreases |pairs|
  {
    if pairs == [] {
      assert [] + rest == rest;
    } else {
      var more := TextOf(pairs[1..]) + rest;
      TextNext(pairs, rest);
      ParseSent(pairs[0], more);
      TextRoundTrip(pairs[1..], rest);
      Rejoined(pairs, ParsePairs(rest));
    }
  }

  /** An entry without `=`, or without a key before it, is skipped. */
  lemma KeylessSkipped(entry: seq<byte>, rest: seq<byte>)
    requires 0 !in entry && (0x3d !in entry || entry[0] == 0x3d)
    ensures ParsePairs(entry + [0] + rest) == ParsePairs(rest)
  {
    ParseEntry(entry, rest);
    if 0x3d !in entry {
      IndexNowhere(entry, 0x3d);
    }
  }
}
