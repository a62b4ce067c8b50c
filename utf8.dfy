/**
 * UTF-8 as defined in section 3 of RFC 3629: the octets of one Unicode scalar
 * value, and the decoder that accepts exactly those octet sequences.
 * A Dafny `char` is a Unicode scalar value, so lone surrogates cannot occur.
 */
module Utf8 {
  import opened Wrappers

  type byte = b: int | 0 <= b < 256

  predicate IsScalar(n: int) {
    0 <= n < 0xD800 || 0xE000 <= n < 0x11_0000
  }

  predicate IsContinuation(b: byte) {
    0x80 <= b < 0xC0
  }

  /** Number of octets announced by a lead octet (its leading one bits); 0 when it cannot lead. */
  function LeadLength(b: byte): nat {
    if b < 0x80 then 1
    else if b < 0xC0 then 0
    else if b < 0xE0 then 2
    else if b < 0xF0 then 3
    else if b < 0xF8 then 4
    else 0
  }

  /** The UTF-8 octets of one scalar value. */
  function EncodeScalar(c: char): (bs: seq<byte>)
    ensures 1 <= |bs| <= 4
    ensures LeadLength(bs[0]) == |bs|
    ensures forall i :: 1 <= i < |bs| ==> IsContinuation(bs[i])
    ensures |bs| == 1 <==> c as int < 0x80
  {
    var n := c as int;
    if n < 0x80 then [n]
    else if n < 0x800 then [0xC0 + n / 64, 0x80 + n % 64]
    else if n < 0x1_0000 then [0xE0 + n / 64 / 64, 0x80 + n / 64 % 64, 0x80 + n % 64]
    else [0xF0 + n / 64 / 64 / 64, 0x80 + n / 64 / 64 % 64, 0x80 + n / 64 % 64, 0x80 + n % 64]
  }

  /** The payload bits of an octet: all of a continuation octet's, the low bits of a lead octet. */
  function Payload(b: byte, lead: int): int {
    b as int - lead
  }

  /** The code point the octets spell out, six bits per continuation octet, before any validity check. */
  function RawValue(bs: seq<byte>): int
    requires 1 <= |bs| <= 4
  {
    if |bs| == 1 then bs[0] as int
    else if |bs| == 2 then Payload(bs[0], 0xC0) * 64 + Payload(bs[1], 0x80)
    else if |bs| == 3 then (Payload(bs[0], 0xE0) * 64 + Payload(bs[1], 0x80)) * 64 + Payload(bs[2], 0x80)
    else ((Payload(bs[0], 0xF0) * 64 + Payload(bs[1], 0x80)) * 64 + Payload(bs[2], 0x80)) * 64 + Payload(bs[3], 0x80)
  }

  /** The smallest code point that needs `n` octets; anything below it is an overlong form. */
  function MinValue(n: nat): int {
    if n <= 1 then 0 else if n == 2 then 0x80 else if n == 3 then 0x800 else 0x1_0000
  }

  /**
   * Decodes exactly one scalar value from exactly the octets given: the lead octet
   * must announce their number, the others must be continuation octets, and the
   * value must be neither overlong, nor a surrogate, nor above U+10FFFF.
   */
  function DecodeScalar(bs: seq<byte>): Option<char> {
    if |bs| == 0 || LeadLength(bs[0]) != |bs| then None
    else if exists i :: 1 <= i < |bs| && !IsContinuation(bs[i]) then None
    else
      var v := RawValue(bs);
      if v < MinValue(|bs|) || !IsScalar(v) then None else Some(v as char)
  }

  lemma SplitSixBits(x: int, q: int, r: int)
    requires 0 <= r < 64 && x == q * 64 + r
    ensures x / 64 == q && x % 64 == r
  {
  }

  /** Decoding undoes encoding. */
  lemma DecodeEncode(c: char)
    ensures DecodeScalar(EncodeScalar(c)) == Some(c)
  {
    var n := c as int;
    var bs := EncodeScalar(c);
    if n < 0x80 {
    } else if n < 0x800 {
      assert RawValue(bs) == n / 64 * 64 + n % 64 == n;
    } else if n < 0x1_0000 {
      var m := n / 64;
      assert m / 64 * 64 + m % 64 == m;
      assert RawValue(bs) == m * 64 + n % 64 == n;
    } else {
      var m := n / 64;
      var k := m / 64;
      assert k / 64 * 64 + k % 64 == k;
      assert m / 64 * 64 + m % 64 == m;
      assert RawValue(bs) == (k * 64 + m % 64) * 64 + n % 64 == n;
    }
  }

  /** Decoding accepts nothing but encodings: whatever it decodes re-encodes to the same octets. */
  lemma EncodeDecode(bs: seq<byte>, c: char)
    requires DecodeScalar(bs) == Some(c)
    ensures EncodeScalar(c) == bs
  {
    var n := c as int;
    assert n == RawValue(bs);
    if |bs| == 2 {
      SplitSixBits(n, Payload(bs[0], 0xC0), Payload(bs[1], 0x80));
    } else if |bs| == 3 {
      assert IsContinuation(bs[1]) && IsContinuation(bs[2]);
      var m := Payload(bs[0], 0xE0) * 64 + Payload(bs[1], 0x80);
      SplitSixBits(n, m, Payload(bs[2], 0x80));
      SplitSixBits(m, Payload(bs[0], 0xE0), Payload(bs[1], 0x80));
    } else if |bs| == 4 {
      assert IsContinuation(bs[1]) && IsContinuation(bs[2]) && IsContinuation(bs[3]);
      var k := Payload(bs[0], 0xF0) * 64 + Payload(bs[1], 0x80);
      var m := k * 64 + Payload(bs[2], 0x80);
      SplitSixBits(n, m, Payload(bs[3], 0x80));
      SplitSixBits(m, k, Payload(bs[2], 0x80));
      SplitSixBits(k, Payload(bs[0], 0xF0), Payload(bs[1], 0x80));
    }
  }
}
