/** Shared datatypes, bytes and decimal text. */
module Prelude {
  datatype Option<+T> = None | Some(value: T)

  datatype Result<+T, +E> = Ok(value: T) | Err(error: E)

  function Min(a: int, b: int): int { if a < b then a else b }

  function Max(a: int, b: int): int { if a < b then b else a }

  newtype Byte = b: int | 0 <= b < 256 witness 0

  type Bytes = seq<Byte>

  predicate IsDigit(c: char) { '0' <= c <= '9' }

  predicate AllDigits(s: string) { forall i | 0 <= i < |s| :: IsDigit(s[i]) }

  predicate IsNumber(s: string) { s != "" && AllDigits(s) }

  function DigitChar(d: nat): (c: char)
    requires d < 10
    ensures IsDigit(c)
  {
    ('0' as int + d) as char
  }

  function DigitValue(c: char): nat
    requires IsDigit(c)
  {
    c as int - '0' as int
  }

  /** `str(n)` for a natural number. */
  function Decimal(n: nat): (s: string)
    ensures |s| >= 1 && AllDigits(s)
  {
    if n < 10 then [DigitChar(n)] else Decimal(n / 10) + [DigitChar(n % 10)]
  }

  /** `int(s)` for a run of digits. */
  function NatOf(s: string): nat
    requires AllDigits(s)
  {
    if s == [] then 0 else 10 * NatOf(s[..|s| - 1]) + DigitValue(s[|s| - 1])
  }

  lemma {:induction false} NatOfDecimal(n: nat)
    ensures NatOf(Decimal(n)) == n
  {
    var s := Decimal(n);
    if n >= 10 {
      NatOfDecimal(n / 10);
      assert s[..|s| - 1] == Decimal(n / 10);
    } else {
      assert s[..0] == [];
    }
  }

  predicate IsAsciiText(s: string) { forall i | 0 <= i < |s| :: s[i] as int < 128 }

  predicate IsAsciiBytes(b: Bytes) { forall i | 0 <= i < |b| :: b[i] as int < 128 }

  /** ASCII text as bytes. */
  function ToBytes(s: string): (b: Bytes)
    requires IsAsciiText(s)
    ensures |b| == |s| && IsAsciiBytes(b)
  {
    seq(|s|, i requires 0 <= i < |s| => s[i] as int as Byte)
  }

  /** ASCII bytes as text. */
  function ToText(b: Bytes): (s: string)
    requires IsAsciiBytes(b)
    ensures |s| == |b| && IsAsciiText(s)
  {
    seq(|b|, i requires 0 <= i < |b| => (b[i] as int) as char)
  }

  lemma TextOfBytes(s: string)
    requires IsAsciiText(s)
    ensures ToText(ToBytes(s)) == s
  {
  }

  lemma TextOfConcat(a: Bytes, b: Bytes)
    requires IsAsciiBytes(a) && IsAsciiBytes(b)
    ensures IsAsciiBytes(a + b) && ToText(a + b) == ToText(a) + ToText(b)
  {
  }
}
