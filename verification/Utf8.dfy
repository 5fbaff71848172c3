/** UTF-8, as RFC 3629 defines it in section 3. */
module Utf8 {
  import opened Prelude

  function Tail(n: nat): Byte { (0x80 + n % 0x40) as Byte }

  function EncodeChar(c: char): (b: Bytes)
    ensures 1 <= |b| <= 4 && (|b| == 1 <==> c as int < 0x80)
  {
    var n := c as int;
    if n < 0x80 then [n as Byte]
    else if n < 0x800 then [(0xC0 + n / 0x40) as Byte, Tail(n)]
    else if n < 0x1_0000 then [(0xE0 + n / 0x1000) as Byte, Tail(n / 0x40), Tail(n)]
    else [(0xF0 + n / 0x4_0000) as Byte, Tail(n / 0x1000), Tail(n / 0x40), Tail(n)]
  }

  /** `t.encode("utf-8")`. */
  function Encode(t: string): Bytes {
    if t == "" then [] else EncodeChar(t[0]) + Encode(t[1..])
  }

  /** What is needed of `bytes.decode("utf-8", errors="replace")`: it undoes the encoder, and
      bytes never vanish, since malformed ones are replaced. */
  ghost predicate IsDecoder(decode: Bytes -> string) {
    && (forall t: string {:trigger Encode(t)} :: decode(Encode(t)) == t)
    && (forall b: Bytes {:trigger decode(b)} :: b != [] ==> decode(b) != "")
  }

  /** No text is longer than its encoding, and only ASCII text is as long. */
  lemma {:induction false} EncodedLength(t: string)
    ensures |Encode(t)| >= |t| && (|Encode(t)| == |t| <==> IsAsciiText(t))
    decreases |t|
  {
    if t != "" {
      EncodedLength(t[1..]);
      assert t == [t[0]] + t[1..];
      assert IsAsciiText(t) <==> t[0] as int < 128 && IsAsciiText(t[1..]) by {
        assert forall i | 0 < i < |t| :: t[i] == t[1..][i - 1];
        assert forall i | 0 <= i < |t| - 1 :: t[1..][i] == t[i + 1];
      }
    }
  }

  lemma {:induction false} EncodedAscii(t: string)
    requires IsAsciiText(t)
    ensures Encode(t) == ToBytes(t)
    decreases |t|
  {
    if t != "" {
      EncodedAscii(t[1..]);
    }
  }

  /** ASCII bytes are decoded one for one. */
  lemma DecodedAscii(decode: Bytes -> string, b: Bytes)
    requires IsDecoder(decode) && IsAsciiBytes(b)
    ensures decode(b) == ToText(b) && Encode(ToText(b)) == b
  {
    EncodedAscii(ToText(b));
    assert ToBytes(ToText(b)) == b;
  }
}
