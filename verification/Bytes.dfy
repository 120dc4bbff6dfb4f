/** Bytes, fixed-width integers, big-endian fields and in-place range updates. */
module Bytes {
  type byte = x: int | 0 <= x < 256
  type u16 = x: int | 0 <= x < 0x1_0000
  type u32 = x: int | 0 <= x < 0x1_0000_0000
  type u64 = x: int | 0 <= x < 0x1_0000_0000_0000_0000

  const U32_SPAN: int := 0x1_0000_0000
  const U64_SPAN: int := 0x1_0000_0000_0000_0000

  function Min(a: int, b: int): int {
    if a <= b then a else b
  }

  function Max(a: int, b: int): int {
    if a >= b then a else b
  }

  function Fill(n: nat, b: byte): (s: seq<byte>)
    ensures |s| == n
    ensures forall i :: 0 <= i < n ==> s[i] == b
  {
    seq(n, _ => b)
  }

  function Zeros(n: nat): (s: seq<byte>)
    ensures |s| == n
    ensures forall i :: 0 <= i < n ==> s[i] == 0
  {
    Fill(n, 0)
  }

  /** `d` with the range starting at `off` replaced by `s`. */
  function Patch<T>(d: seq<T>, off: nat, s: seq<T>): (r: seq<T>)
    requires off + |s| <= |d|
    ensures |r| == |d|
    ensures forall i :: 0 <= i < |d| ==> r[i] == if off <= i < off + |s| then s[i - off] else d[i]
  {
    d[..off] + s + d[off + |s|..]
  }

  /** The wrapping sum of two 32-bit counters. */
  function Wrap32(v: nat): u32 {
    v % U32_SPAN
  }

  /** Quotient and remainder of naturals by a variable divisor, with their types as facts. */
  function Quot(a: nat, b: nat): nat
    requires b > 0
  {
    DivModNat(a, b);
    a / b
  }

  function Rem(a: nat, b: nat): (m: nat)
    requires b > 0
    ensures m < b
  {
    DivModNat(a, b);
    a % b
  }

  lemma DivModNat(a: nat, b: nat)
    requires b > 0
    ensures a / b >= 0 && 0 <= a % b < b
  {
  }

  lemma QuotRem(a: nat, b: nat)
    requires b > 0
    ensures Quot(a, b) * b + Rem(a, b) == a
  {
  }

  function DivCeil(a: nat, b: nat): nat
    requires b > 0
  {
    (a + b - 1) / b
  }

  lemma DivCeilBounds(a: nat, b: nat)
    requires b > 0
    ensures a <= DivCeil(a, b) * b < a + b
  {
    var q, r := (a + b - 1) / b, (a + b - 1) % b;
    assert q * b + r == a + b - 1;
  }

  /** The value of a big-endian field. */
  function BE(s: seq<byte>): nat {
    if s == [] then 0 else BE(s[..|s| - 1]) * 256 + s[|s| - 1]
  }

  /** The low `n` bytes of `v`, most significant first. */
  function ToBE(v: nat, n: nat): (s: seq<byte>)
    ensures |s| == n
  {
    if n == 0 then [] else ToBE(v / 256, n - 1) + [v % 256]
  }

  function Pow256(n: nat): (p: nat)
    ensures p > 0
  {
    if n == 0 then 1 else 256 * Pow256(n - 1)
  }

  lemma Pow256Values()
    ensures Pow256(1) == 0x100
    ensures Pow256(2) == 0x1_0000
    ensures Pow256(3) == 0x100_0000
    ensures Pow256(4) == U32_SPAN
    ensures Pow256(8) == U64_SPAN
  {
    assert Pow256(3) == 256 * Pow256(2);
    assert Pow256(5) == 256 * Pow256(4);
    assert Pow256(7) == 256 * Pow256(6);
  }

  /** Writing a field and reading it back gives the value modulo the field's width. */
  lemma {:induction false} BEToBE(v: nat, n: nat)
    ensures BE(ToBE(v, n)) < Pow256(n)
    ensures v < Pow256(n) ==> BE(ToBE(v, n)) == v
  {
    if n > 0 {
      BEToBE(v / 256, n - 1);
      var s := ToBE(v, n);
      assert s[..n - 1] == ToBE(v / 256, n - 1);
    }
  }

  lemma {:induction false} BEBound(s: seq<byte>)
    ensures BE(s) < Pow256(|s|)
  {
    if s != [] {
      BEBound(s[..|s| - 1]);
    }
  }

  /** A field is determined by its value: reading and writing back restores the bytes. */
  lemma {:induction false} ToBEBE(s: seq<byte>)
    ensures ToBE(BE(s), |s|) == s
  {
    if s != [] {
      ToBEBE(s[..|s| - 1]);
    }
  }

  function BE32(s: seq<byte>): u32
    requires |s| == 4
  {
    BEBound(s);
    Pow256Values();
    BE(s)
  }

  function BE64(s: seq<byte>): u64
    requires |s| == 8
  {
    BEBound(s);
    Pow256Values();
    BE(s)
  }

  function BE16(s: seq<byte>): u16
    requires |s| == 2
  {
    BEBound(s);
    Pow256Values();
    BE(s)
  }

  lemma BE16RoundTrip(v: u16)
    ensures BE16(ToBE(v, 2)) == v
  {
    BEToBE(v, 2);
    Pow256Values();
  }

  lemma BE32RoundTrip(v: u32)
    ensures BE32(ToBE(v, 4)) == v
  {
    BEToBE(v, 4);
    Pow256Values();
  }

  lemma BE64RoundTrip(v: u64)
    ensures BE64(ToBE(v, 8)) == v
  {
    BEToBE(v, 8);
    Pow256Values();
  }

  lemma DivUnique(a: nat, b: nat, q: nat, r: int)
    requires 0 <= r < b && a == q * b + r
    ensures a / b == q && a % b == r
  {
    var q', r' := a / b, a % b;
    assert q' * b + r' == a;
    assert (q' - q) * b == r - r';
    MulAtLeast(q' - q, b);
  }

  lemma MulNat(a: nat, b: nat)
    ensures a * b >= 0
  {
  }

  /** The length of `n` units of `size` bytes, as a sum. */
  function Span(n: nat, size: nat): nat {
    if n == 0 then 0 else Span(n - 1, size) + size
  }

  lemma {:induction false} SpanIsProduct(n: nat, size: nat)
    ensures Span(n, size) == n * size
  {
    if n > 0 {
      SpanIsProduct(n - 1, size);
    }
  }

  lemma {:induction false} SpanMono(a: nat, b: nat, size: nat)
    requires a <= b
    ensures Span(a, size) <= Span(b, size)
    decreases b
  {
    if a < b {
      SpanMono(a, b - 1, size);
    }
  }

  lemma MulAtLeast(x: int, b: nat)
    ensures x >= 1 ==> x * b >= b
    ensures x <= -1 ==> x * b + b <= 0
  {
  }
}
