/** Decimal and hexadecimal numerals as Rust's `format!` writes them:
    `{}` for an unsigned integer and `{:x}` for a byte. */
module Numerals {

  newtype byte = x: int | 0 <= x < 256

  predicate IsDigit(c: char) {
    '0' <= c <= '9'
  }

  /** A lower-case hexadecimal digit, the alphabet of `{:x}`. */
  predicate IsHexDigit(c: char) {
    IsDigit(c) || 'a' <= c <= 'f'
  }

  function DigitChar(d: nat): (c: char)
    requires d < 16
    ensures IsHexDigit(c)
    ensures IsDigit(c) <==> d < 10
    ensures c == '0' <==> d == 0
  {
    if d < 10 then ('0' as int + d) as char else ('a' as int + d - 10) as char
  }

  function DigitValue(c: char): (d: nat)
    requires IsHexDigit(c)
    ensures d < 16
    ensures DigitChar(d) == c
  {
    if IsDigit(c) then c as int - '0' as int else c as int - 'a' as int + 10
  }

  /** The value of a numeral in base `radix`, most significant digit first. */
  function Value(s: string, radix: nat): nat
    requires forall i :: 0 <= i < |s| ==> IsHexDigit(s[i])
  {
    if |s| == 0 then 0 else Value(s[..|s| - 1], radix) * radix + DigitValue(s[|s| - 1])
  }

  /** `format!("{}", n)`: the shortest decimal numeral of `n`. */
  function Decimal(n: nat): (r: string)
    ensures |r| > 0
    ensures forall i :: 0 <= i < |r| ==> IsDigit(r[i])
    ensures r[0] == '0' <==> n == 0
    decreases n
  {
    if n < 10 then [DigitChar(n)] else Decimal(n / 10) + [DigitChar(n % 10)]
  }

  lemma {:induction false} DecimalValue(n: nat)
    ensures Value(Decimal(n), 10) == n
    decreases n
  {
    var r := Decimal(n);
    if n < 10 {
      assert r[..0] == [];
    } else {
      DecimalValue(n / 10);
      assert r[..|r| - 1] == Decimal(n / 10);
      assert DigitValue(r[|r| - 1]) == n % 10;
    }
  }

  /** Distinct numbers never share a numeral. */
  lemma DecimalInjective(m: nat, n: nat)
    requires Decimal(m) == Decimal(n)
    ensures m == n
  {
    DecimalValue(m);
    DecimalValue(n);
  }

  /** `format!("{:x}", b)`: lower-case hexadecimal without zero padding, so a
      byte below 16 is written with a single digit. */
  function ByteHex(b: byte): (r: string)
    ensures 1 <= |r| <= 2
    ensures |r| == 1 <==> b < 16
    ensures forall i :: 0 <= i < |r| ==> IsHexDigit(r[i])
    ensures |r| == 2 ==> r[0] != '0'
    ensures Value(r, 16) == b as int
  {
    var n := b as int;
    if n < 16 then
      assert [DigitChar(n)][..0] == [];
      [DigitChar(n)]
    else
      var r := [DigitChar(n / 16), DigitChar(n % 16)];
      assert r[..1][..0] == [];
      r
  }

  /** The two-digit, zero-padded form (`{:02x}`) in which git spells object ids. */
  function PaddedByteHex(b: byte): (r: string)
    ensures |r| == 2
    ensures forall i :: 0 <= i < |r| ==> IsHexDigit(r[i])
    ensures Value(r, 16) == b as int
  {
    var n := b as int;
    var r := [DigitChar(n / 16), DigitChar(n % 16)];
    assert r[..1] == [DigitChar(n / 16)] && r[..1][..0] == [];
    assert Value(r[..1], 16) == n / 16;
    assert Value(r, 16) == (n / 16) * 16 + n % 16;
    r
  }

  /** The unpadded and padded forms agree exactly on bytes of two digits. */
  lemma ByteHexPadding(b: byte)
    ensures b >= 16 <==> ByteHex(b) == PaddedByteHex(b)
    ensures b < 16 ==> PaddedByteHex(b) == ['0'] + ByteHex(b)
  {
  }
}
