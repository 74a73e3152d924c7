/**
 Base-16 text of natural numbers, as Python writes and reads it:
 `hex(n)` produces `"0x"` followed by lower-case digits without leading
 zeros, and `int(s, 16)` accepts an optional `0x`/`0X` prefix followed by
 one or more digits of either case.
 */
module Hex {
  import opened Types

  predicate IsHexDigit(c: char) {
    '0' <= c <= '9' || 'a' <= c <= 'f' || 'A' <= c <= 'F'
  }

  predicate IsLowerHexDigit(c: char) {
    '0' <= c <= '9' || 'a' <= c <= 'f'
  }

  predicate AllHex(s: string) {
    forall i :: 0 <= i < |s| ==> IsHexDigit(s[i])
  }

  /** The digit string `hex()` writes after the prefix: lower case, never empty,
      and without a leading zero unless the number is zero. */
  predicate Canonical(s: string) {
    && |s| >= 1
    && (forall i :: 0 <= i < |s| ==> IsLowerHexDigit(s[i]))
    && (|s| > 1 ==> s[0] != '0')
  }

  function DigitValue(c: char): (v: nat)
    requires IsHexDigit(c)
    ensures v < 16
  {
    if '0' <= c <= '9' then c as int - '0' as int
    else if 'a' <= c <= 'f' then c as int - 'a' as int + 10
    else c as int - 'A' as int + 10
  }

  function DigitChar(d: nat): (c: char)
    requires d < 16
    ensures IsLowerHexDigit(c) && IsHexDigit(c)
    ensures DigitValue(c) == d
  {
    if d < 10 then ('0' as int + d) as char else ('a' as int + d - 10) as char
  }

  lemma DigitCharOfValue(c: char)
    requires IsLowerHexDigit(c)
    ensures DigitChar(DigitValue(c)) == c
  {
  }

  /** The number a digit string denotes, most significant digit first (0 for
      the empty string). */
  function ValueOf(s: string): nat
    requires AllHex(s)
    decreases |s|
  {
    if |s| == 0 then 0 else ValueOf(s[..|s| - 1]) * 16 + DigitValue(s[|s| - 1])
  }

  /** The digits of `hex(n)` after the `0x` prefix. */
  function Digits(n: nat): (s: string)
    ensures Canonical(s) && AllHex(s)
    ensures s[0] == '0' <==> n == 0
    decreases n
  {
    if n < 16 then [DigitChar(n)] else Digits(n / 16) + [DigitChar(n % 16)]
  }

  /** Python `hex(n)` for a natural number. */
  function Encode(n: nat): string {
    "0x" + Digits(n)
  }

  predicate HasPrefix(s: string) {
    |s| >= 2 && s[0] == '0' && (s[1] == 'x' || s[1] == 'X')
  }

  /** Python `int(s, 16)`: `None` where Python raises `ValueError`. */
  function Decode(s: string): (r: Option<nat>)
    ensures r.Some? <==> (var body := if HasPrefix(s) then s[2..] else s; |body| > 0 && AllHex(body))
  {
    var body := if HasPrefix(s) then s[2..] else s;
    if |body| > 0 && AllHex(body) then Some(ValueOf(body)) else None
  }

  lemma {:induction false} DigitsRoundTrip(n: nat)
    ensures ValueOf(Digits(n)) == n
    decreases n
  {
    if n >= 16 {
      var s := Digits(n);
      assert s[..|s| - 1] == Digits(n / 16);
      DigitsRoundTrip(n / 16);
    }
  }

  /** Reading back what `hex()` wrote gives the number again. */
  lemma EncodeRoundTrip(n: nat)
    ensures Decode(Encode(n)) == Some(n)
  {
    var s := Encode(n);
    assert HasPrefix(s);
    assert s[2..] == Digits(n);
    DigitsRoundTrip(n);
  }

  lemma EncodeInjective(m: nat, n: nat)
    ensures Encode(m) == Encode(n) ==> m == n
  {
    EncodeRoundTrip(m);
    EncodeRoundTrip(n);
  }

  lemma {:induction false} LeadingDigitBound(s: string)
    requires |s| >= 1 && AllHex(s)
    ensures ValueOf(s) >= DigitValue(s[0])
    decreases |s|
  {
    if |s| > 1 {
      var t := s[..|s| - 1];
      assert t[0] == s[0];
      LeadingDigitBound(t);
    }
  }

  /** Every canonical digit string is exactly what `hex()` writes for its value. */
  lemma {:induction false} CanonicalDigits(s: string)
    requires Canonical(s)
    ensures AllHex(s) && Digits(ValueOf(s)) == s
    decreases |s|
  {
    assert AllHex(s);
    var c := s[|s| - 1];
    if |s| == 1 {
      DigitCharOfValue(c);
      assert ValueOf(s) == DigitValue(c);
      assert Digits(ValueOf(s)) == [DigitChar(DigitValue(c))];
    } else {
      var t := s[..|s| - 1];
      assert t[0] == s[0];
      assert Canonical(t);
      CanonicalDigits(t);
      LeadingDigitBound(t);
      var v := ValueOf(s);
      assert v == ValueOf(t) * 16 + DigitValue(c);
      assert v / 16 == ValueOf(t) && v % 16 == DigitValue(c);
      DigitCharOfValue(c);
      assert Digits(v) == Digits(v / 16) + [DigitChar(v % 16)];
      assert s == t + [c];
    }
  }

  /** `hex()` is a bijection between naturals and `"0x"` followed by a
      canonical digit string: decoding such a string and encoding the result
      gives the same text back. */
  lemma DecodeCanonicalRoundTrip(s: string)
    requires Canonical(s)
    ensures Decode("0x" + s).Some?
    ensures Encode(Decode("0x" + s).value) == "0x" + s
  {
    var t := "0x" + s;
    assert HasPrefix(t);
    assert t[2..] == s;
    CanonicalDigits(s);
  }
}
