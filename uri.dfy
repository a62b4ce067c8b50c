/**
 * encodeURIComponent (section 19.2.6 of ECMA-262): every character outside the
 * unescaped set is written as the UTF-8 octets of its scalar value, each as a
 * `%XX` triple with upper-case hexadecimal digits (section 2.1 of RFC 3986).
 * decodeURIComponent is given as the reference inverse.
 */
module UriComponent {
  import opened Wrappers
  import opened Utf8

  /** The characters encodeURIComponent leaves as they are. */
  predicate Unreserved(c: char) {
    ('A' <= c <= 'Z') || ('a' <= c <= 'z') || ('0' <= c <= '9') || c in "-_.!~*'()"
  }

  predicate IsUpperHex(c: char) {
    ('0' <= c <= '9') || ('A' <= c <= 'F')
  }

  function HexDigit(d: int): (h: char)
    requires 0 <= d < 16
    ensures IsUpperHex(h)
  {
    if d < 10 then ('0' as int + d) as char else ('A' as int + d - 10) as char
  }

  /** The value of a hexadecimal digit of either case, as decodeURIComponent reads it. */
  function HexValue(h: char): Option<int> {
    if '0' <= h <= '9' then Some(h as int - '0' as int)
    else if 'A' <= h <= 'F' then Some(h as int - 'A' as int + 10)
    else if 'a' <= h <= 'f' then Some(h as int - 'a' as int + 10)
    else None
  }

  function PercentByte(b: byte): string {
    ['%', HexDigit(b / 16), HexDigit(b % 16)]
  }

  function PercentBytes(bs: seq<byte>): (t: string)
    ensures |t| == 3 * |bs|
  {
    if bs == [] then [] else PercentByte(bs[0]) + PercentBytes(bs[1..])
  }

  function EncodeChar(c: char): string {
    if Unreserved(c) then [c] else PercentBytes(EncodeScalar(c))
  }

  function EncodeURIComponent(s: string): string {
    if s == [] then [] else EncodeChar(s[0]) + EncodeURIComponent(s[1..])
  }

  /** Reads one `%XX` triple at the start of `t`. */
  function ReadByte(t: string): Option<byte> {
    if |t| < 3 || t[0] != '%' then None
    else match (HexValue(t[1]), HexValue(t[2]))
      case (Some(hi), Some(lo)) => Some(hi * 16 + lo)
      case _ => None
  }

  /** Reads `n` consecutive `%XX` triples at the start of `t`. */
  function ReadBytes(t: string, n: nat): Option<seq<byte>> {
    if n == 0 then Some([])
    else match ReadByte(t)
      case None => None
      case Some(b) =>
        match ReadBytes(t[3..], n - 1)
        case None => None
        case Some(bs) => Some([b] + bs)
  }

  /**
   * decodeURIComponent: a `%` starts the `%XX` triples of one UTF-8 encoded scalar
   * value, whose lead octet says how many triples follow; anything else stands
   * for itself. None is the URIError.
   */
  function DecodeURIComponent(t: string): Option<string>
    decreases |t|
  {
    if t == [] then Some([])
    else if t[0] != '%' then
      match DecodeURIComponent(t[1..])
      case None => None
      case Some(rest) => Some([t[0]] + rest)
    else
      match ReadByte(t)
      case None => None
      case Some(lead) =>
        var n := LeadLength(lead);
        if n == 0 || |t| < 3 * n then None
        else match ReadBytes(t, n)
          case None => None
          case Some(bs) =>
            match DecodeScalar(bs)
            case None => None
            case Some(c) =>
              match DecodeURIComponent(t[3 * n..])
              case None => None
              case Some(rest) => Some([c] + rest)
  }

  /**
   * The shape of encodeURIComponent's output: a sequence of unescaped characters
   * and `%XX` triples with upper-case hexadecimal digits.
   */
  predicate EncodedForm(t: string)
    decreases |t|
  {
    if t == [] then true
    else if Unreserved(t[0]) then EncodedForm(t[1..])
    else |t| >= 3 && t[0] == '%' && IsUpperHex(t[1]) && IsUpperHex(t[2]) && EncodedForm(t[3..])
  }

  lemma {:induction false} EncodeAppend(a: string, b: string)
    ensures EncodeURIComponent(a + b) == EncodeURIComponent(a) + EncodeURIComponent(b)
  {
    if a != [] {
      assert (a + b)[1..] == a[1..] + b;
      EncodeAppend(a[1..], b);
    } else {
      assert a + b == b;
    }
  }

  /** A string of unescaped characters is its own encoding. */
  lemma {:induction false} EncodeUnreserved(s: string)
    requires forall k :: 0 <= k < |s| ==> Unreserved(s[k])
    ensures EncodeURIComponent(s) == s
  {
    if s != [] {
      EncodeUnreserved(s[1..]);
      assert [s[0]] + s[1..] == s;
    }
  }

  lemma HexRoundTrip(d: int)
    requires 0 <= d < 16
    ensures HexValue(HexDigit(d)) == Some(d)
  {
  }

  lemma ReadPercentByte(b: byte, rest: string)
    ensures ReadByte(PercentByte(b) + rest) == Some(b)
  {
    HexRoundTrip(b / 16);
    HexRoundTrip(b % 16);
  }

  lemma {:induction false} ReadPercentBytes(bs: seq<byte>, rest: string)
    ensures ReadBytes(PercentBytes(bs) + rest, |bs|) == Some(bs)
  {
    if bs != [] {
      var t := PercentBytes(bs) + rest;
      assert t == PercentByte(bs[0]) + (PercentBytes(bs[1..]) + rest);
      ReadPercentByte(bs[0], PercentBytes(bs[1..]) + rest);
      assert t[3..] == PercentBytes(bs[1..]) + rest;
      ReadPercentBytes(bs[1..], rest);
      assert [bs[0]] + bs[1..] == bs;
    }
  }

  /** The decoder reads back one encoded character and continues with what follows. */
  lemma DecodeEncodedChar(c: char, rest: string)
    ensures DecodeURIComponent(EncodeChar(c) + rest) ==
      match DecodeURIComponent(rest)
      case None => None
      case Some(r) => Some([c] + r)
  {
    var t := EncodeChar(c) + rest;
    if Unreserved(c) {
      assert t[0] == c && t[1..] == rest;
    } else {
      var bs := EncodeScalar(c);
      var n := |bs|;
      assert t == PercentByte(bs[0]) + (PercentBytes(bs[1..]) + rest);
      ReadPercentByte(bs[0], PercentBytes(bs[1..]) + rest);
      ReadPercentBytes(bs, rest);
      DecodeEncode(c);
      assert t[3 * n..] == rest;
    }
  }

  /** decodeURIComponent undoes encodeURIComponent on every string of scalar values. */
  lemma {:induction false} DecodeEncodeComponent(s: string)
    ensures DecodeURIComponent(EncodeURIComponent(s)) == Some(s)
  {
    if s != [] {
      DecodeEncodedChar(s[0], EncodeURIComponent(s[1..]));
      DecodeEncodeComponent(s[1..]);
      assert [s[0]] + s[1..] == s;
    }
  }

  lemma {:induction false} EncodedFormAppend(a: string, b: string)
    requires EncodedForm(a) && EncodedForm(b)
    ensures EncodedForm(a + b)
    decreases |a|
  {
    if a != [] {
      if Unreserved(a[0]) {
        assert (a + b)[1..] == a[1..] + b;
        EncodedFormAppend(a[1..], b);
      } else {
        assert (a + b)[3..] == a[3..] + b;
        EncodedFormAppend(a[3..], b);
      }
    } else {
      assert a + b == b;
    }
  }

  lemma {:induction false} PercentBytesForm(bs: seq<byte>)
    ensures EncodedForm(PercentBytes(bs))
  {
    if bs != [] {
      PercentBytesForm(bs[1..]);
      var t := PercentBytes(bs);
      assert t[3..] == PercentBytes(bs[1..]);
    }
  }

  /** Every output of encodeURIComponent has the encoded shape. */
  lemma {:induction false} EncodeIsEncodedForm(s: string)
    ensures EncodedForm(EncodeURIComponent(s))
  {
    if s != [] {
      if !Unreserved(s[0]) {
        PercentBytesForm(EncodeScalar(s[0]));
      }
      EncodeIsEncodedForm(s[1..]);
      EncodedFormAppend(EncodeChar(s[0]), EncodeURIComponent(s[1..]));
    }
  }

  /** Percent triples consist of '%' and upper-case hexadecimal digits only. */
  lemma {:induction false} PercentBytesAlphabet(bs: seq<byte>)
    ensures forall k :: 0 <= k < |PercentBytes(bs)| ==> PercentBytes(bs)[k] == '%' || IsUpperHex(PercentBytes(bs)[k])
  {
    if bs != [] {
      PercentBytesAlphabet(bs[1..]);
      var t := PercentBytes(bs);
      assert forall k :: 3 <= k < |t| ==> t[k] == PercentBytes(bs[1..])[k - 3];
    }
  }

  /** The only characters encodeURIComponent leaves or produces that are '-' or '_' are the input's own. */
  lemma EncodeCharSeparators(c: char)
    ensures '-' in EncodeChar(c) <==> c == '-'
    ensures '_' in EncodeChar(c) <==> c == '_'
    ensures c == '-' || c == '_' ==> EncodeChar(c) == [c]
  {
    if !Unreserved(c) {
      PercentBytesAlphabet(EncodeScalar(c));
    }
  }
}
