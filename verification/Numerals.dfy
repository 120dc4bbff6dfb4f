/** Decimal numbers in text, as the standard library's integer parsing reads them. */
module Numerals {
  import opened Bytes
  import opened Wrappers

  predicate Digits(s: string) {
    forall i :: 0 <= i < |s| ==> '0' <= s[i] <= '9'
  }

  function Decimal(s: string): nat
    requires Digits(s)
  {
    if s == "" then 0 else Decimal(s[..|s| - 1]) * 10 + (s[|s| - 1] as int - '0' as int)
  }

  /** `parse` for an unsigned type up to `max`: an optional plus sign, then digits, without overflow. */
  function ParseUnsigned(s: string, max: nat): (r: Option<nat>)
    ensures r.Some? ==> r.value <= max
  {
    var digits := if s != "" && s[0] == '+' then s[1..] else s;
    if digits != "" && Digits(digits) && Decimal(digits) <= max then Some(Decimal(digits)) else None
  }

  function DecimalOf(n: nat): string {
    (if n < 10 then "" else DecimalOf(n / 10)) + [(n % 10 + '0' as int) as char]
  }

  /** What the server announces is read back as the number it stands for. */
  lemma {:induction false} DecimalRoundTrip(n: nat, max: nat)
    requires n <= max
    ensures Digits(DecimalOf(n)) && Decimal(DecimalOf(n)) == n
    ensures ParseUnsigned(DecimalOf(n), max) == Some(n)
  {
    var s := DecimalOf(n);
    if n >= 10 {
      DecimalRoundTrip(n / 10, max);
      assert s[..|s| - 1] == DecimalOf(n / 10);
      assert s[0] == DecimalOf(n / 10)[0];
    } else {
      assert s[..|s| - 1] == "";
    }
  }

  function ZeroDigits(k: nat): (s: string)
    ensures |s| == k
  {
    seq(k, _ => '0')
  }

  lemma {:induction false} OnlyZeros(k: nat)
    ensures Decimal(ZeroDigits(k)) == 0
  {
    if k > 0 {
      OnlyZeros(k - 1);
      assert ZeroDigits(k)[..k - 1] == ZeroDigits(k - 1);
    }
  }

  /** Leading zeros do not count. */
  lemma {:induction false} PaddedDecimal(k: nat, t: string)
    requires Digits(t)
    ensures Digits(ZeroDigits(k) + t) && Decimal(ZeroDigits(k) + t) == Decimal(t)
  {
    if t == "" {
      OnlyZeros(k);
      assert ZeroDigits(k) + t == ZeroDigits(k);
    } else {
      var s := ZeroDigits(k) + t;
      PaddedDecimal(k, t[..|t| - 1]);
      assert s[..|s| - 1] == ZeroDigits(k) + t[..|t| - 1];
    }
  }

  lemma LastDigit(v: nat, n: nat, c: char)
    requires '0' <= c <= '9' && v == n * 10 + (c as int - '0' as int)
    ensures DecimalOf(v) == (if n == 0 then "" else DecimalOf(n)) + [c]
  {
  }

  /** Every string of digits is a number in decimal, after leading zeros. */
  /** One more digit after `k` zeros and a number, whose decimal is `tail`. */
  lemma AppendDigit(s: string, k: nat, n: nat, tail: string, c: char) returns (j: nat)
    requires s == ZeroDigits(k) + tail + [c] && (n == 0 ==> tail == "0")
    ensures s == ZeroDigits(j) + ((if n == 0 then "" else tail) + [c])
  {
    j := if n == 0 then k + 1 else k;
  }

  lemma {:induction false} DigitsArePadded(s: string, v: nat) returns (k: nat)
    requires s != "" && Digits(s) && Decimal(s) == v
    ensures s == ZeroDigits(k) + DecimalOf(v)
  {
    var front, c := s[..|s| - 1], s[|s| - 1];
    var n := Decimal(front);
    LastDigit(v, n, c);
    if front == "" {
      k := 0;
    } else {
      k := DigitsArePadded(front, n);
      k := AppendDigit(s, k, n, DecimalOf(n), c);
    }
  }

  /** `n` in decimal after `k` leading zeros. */
  function Padded(k: nat, n: nat): string {
    ZeroDigits(k) + DecimalOf(n)
  }

  lemma DigitsParse(t: string, max: nat)
    requires t != "" && Digits(t) && Decimal(t) <= max
    ensures ParseUnsigned(t, max) == Some(Decimal(t))
    ensures ParseUnsigned("+" + t, max) == Some(Decimal(t))
  {
    assert ("+" + t)[1..] == t;
  }

  lemma PaddedParses(k: nat, n: nat, max: nat)
    requires n <= max
    ensures ParseUnsigned(Padded(k, n), max) == Some(n)
    ensures ParseUnsigned("+" + Padded(k, n), max) == Some(n)
  {
    var t := DecimalOf(n);
    DecimalRoundTrip(n, n);
    PaddedDecimal(k, t);
    DigitsParse(ZeroDigits(k) + t, max);
  }

  /** The strings that parse to `n`: an optional plus sign, any leading zeros, and `n` in decimal; every other is refused. */
  lemma ParseIff(s: string, max: nat, n: nat)
    ensures ParseUnsigned(s, max) == Some(n) <==> n <= max && exists k :: s == Padded(k, n) || s == "+" + Padded(k, n)
  {
    if ParseUnsigned(s, max) == Some(n) {
      var digits := if s != "" && s[0] == '+' then s[1..] else s;
      var k := DigitsArePadded(digits, n);
      assert digits == Padded(k, n);
      assert s == digits || s == "+" + digits;
    }
    if k :| n <= max && (s == Padded(k, n) || s == "+" + Padded(k, n)) {
      PaddedParses(k, n, max);
    }
  }
}
