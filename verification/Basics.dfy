/** Shared vocabulary: byte strings, 64-bit wrap-around and the decimal text
    that strconv.FormatInt and strconv.ParseInt exchange. */
module Basics {

  /** A Go byte slice or string. A byte is a `char`; nothing below looks at a
      byte other than by comparing it, so every result also holds for the 256
      values a byte can take. */
  type Bytes = string

  datatype Option<+T> = None | Some(value: T)

  const TWO63: int := 0x8000_0000_0000_0000
  const TWO64: int := 0x1_0000_0000_0000_0000

  predicate Int64(n: int) {
    -TWO63 <= n < TWO63
  }

  /** The int64 that a Go expression with mathematical value n evaluates to. */
  function Wrap64(n: int): (r: int)
    ensures Int64(r)
    ensures (r - n) % TWO64 == 0
    ensures Int64(n) ==> r == n
  {
    (n + TWO63) % TWO64 - TWO63
  }

  lemma WrapUnique(a: int, b: int)
    requires (a - b) % TWO64 == 0
    ensures Wrap64(a) == Wrap64(b)
  {
  }

  lemma WrapAdd(a: int, b: int)
    ensures Wrap64(Wrap64(a) + b) == Wrap64(a + b)
  {
    assert (Wrap64(a) + b - (a + b)) % TWO64 == 0;
    WrapUnique(Wrap64(a) + b, a + b);
  }

  /** Scaling by a constant commutes with wrap-around. */
  lemma WrapScale(a: int, c: int)
    ensures Wrap64(Wrap64(a) * c) == Wrap64(a * c)
  {
    var j := (Wrap64(a) - a) / TWO64;
    assert Wrap64(a) == a + j * TWO64;
    assert Wrap64(a) * c - a * c == (j * c) * TWO64 by {
      assert (a + j * TWO64) * c == a * c + j * c * TWO64;
    }
    assert ((j * c) * TWO64) % TWO64 == 0;
    WrapUnique(Wrap64(a) * c, a * c);
  }

  // ---------------------------------------------------------------- decimals

  predicate IsDigit(c: char) {
    '0' <= c <= '9'
  }

  predicate IsDigits(s: Bytes) {
    forall i :: 0 <= i < |s| ==> IsDigit(s[i])
  }

  function DigitChar(d: nat): (c: char)
    requires d < 10
    ensures IsDigit(c) && c as int - '0' as int == d
  {
    '0' + d as char
  }

  function FormatNat(n: nat): (s: Bytes)
    ensures |s| > 0 && IsDigits(s)
  {
    if n < 10 then [DigitChar(n)] else FormatNat(n / 10) + [DigitChar(n % 10)]
  }

  /** strconv.FormatInt(n, 10). */
  function FormatInt(n: int): (s: Bytes)
    ensures |s| > 0
  {
    if n < 0 then "-" + FormatNat(-n) else FormatNat(n)
  }

  function DigitsValue(s: Bytes): (n: nat)
    requires IsDigits(s)
  {
    if s == [] then 0
    else DigitsValue(s[..|s| - 1]) * 10 + (s[|s| - 1] as int - '0' as int)
  }

  /** strconv.ParseInt(s, 10, 64); strconv.Atoi accepts the same texts. */
  function ParseInt(s: Bytes): (r: Option<int>)
    ensures r.Some? ==> Int64(r.value)
  {
    if s == [] then None
    else
      var signed := s[0] == '-' || s[0] == '+';
      var digits := if signed then s[1..] else s;
      if digits == [] || !IsDigits(digits) then None
      else
        var n: int := DigitsValue(digits);
        var v := if s[0] == '-' then -n else n;
        if Int64(v) then Some(v) else None
  }

  lemma {:induction false} DigitsRoundTrip(n: nat)
    ensures DigitsValue(FormatNat(n)) == n
  {
    if n < 10 {
      assert FormatNat(n)[..0] == [];
    } else {
      DigitsRoundTrip(n / 10);
      assert FormatNat(n)[..|FormatNat(n)| - 1] == FormatNat(n / 10);
    }
  }

  /** Printing then parsing an int64 gives it back. */
  lemma ParseFormat(n: int)
    requires Int64(n)
    ensures ParseInt(FormatInt(n)) == Some(n)
  {
    if n < 0 {
      DigitsRoundTrip(-n);
      assert FormatInt(n)[1..] == FormatNat(-n);
    } else {
      DigitsRoundTrip(n);
      assert IsDigit(FormatNat(n)[0]);
    }
  }

  function Pow10(k: nat): (p: int)
    ensures p > 0
  {
    if k == 0 then 1 else 10 * Pow10(k - 1)
  }

  /** Positional value: the leading digit counts its power of ten. */
  lemma {:induction false} DigitsHead(c: char, rest: Bytes)
    requires IsDigit(c) && IsDigits(rest)
    ensures IsDigits([c] + rest)
    ensures DigitsValue([c] + rest) == (c as int - '0' as int) * Pow10(|rest|) + DigitsValue(rest)
  {
    var s := [c] + rest;
    if rest == [] {
      assert s[..0] == [] && DigitsValue(s[..0]) == 0;
    } else {
      var n := |rest| - 1;
      DigitsHead(c, rest[..n]);
      assert s[..|s| - 1] == [c] + rest[..n] && s[|s| - 1] == rest[n];
      assert (c as int - '0' as int) * Pow10(n) * 10 == (c as int - '0' as int) * Pow10(n + 1);
    }
  }

  /** The text of a number has no leading zero. */
  lemma {:induction false} NoLeadingZero(n: nat)
    ensures FormatNat(n)[0] == '0' <==> n == 0
  {
    if n >= 10 { NoLeadingZero(n / 10); }
  }

  lemma {:induction false} FormatNatLength(n: nat, k: nat)
    requires 0 < k && n < Pow10(k)
    ensures |FormatNat(n)| <= k
  {
    if n >= 10 {
      assert k > 1;
      FormatNatLength(n / 10, k - 1);
    }
  }

  /** The text of an int64 has at most 20 bytes. */
  lemma FormatIntLength(n: int)
    requires Int64(n)
    ensures |FormatInt(n)| <= 20
  {
    assert Pow10(19) > TWO63 by {
      assert Pow10(4) == 10_000;
      assert Pow10(8) == 10_000 * Pow10(4);
      assert Pow10(12) == 10_000 * Pow10(8);
      assert Pow10(16) == 10_000 * Pow10(12);
      assert Pow10(19) == 1_000 * Pow10(16);
    }
    FormatNatLength(if n < 0 then -n else n, 19);
  }
}
