/**
 * The parts both handlers share: query-parameter normalisation, the renderer
 * request (path segments `label-message-color.svg`, style and profile link),
 * and the choice of HTTP response from the renderer's outcome.
 */
module Badge {
  import opened Wrappers
  import opened BadgeEscape
  import opened UriComponent

  /** A query parameter as the platform hands it over: absent, given once, or repeated. */
  datatype QueryValue = Absent | Single(value: string) | Repeated(first: string, rest: seq<string>)

  datatype Query = Query(username: QueryValue, style: QueryValue)

  /** What an upstream fetch gives the handler: a record, or a rejected promise. */
  datatype Fetched<T> = Returned(info: T) | Threw

  /** The renderer's answer: an ok response with its SVG text, a non-ok response, or a failed request. */
  datatype RenderOutcome = Rendered(svg: string) | RenderNotOk | RenderFailed

  datatype Response = Response(status: int, headers: seq<(string, string)>, body: string)

  datatype BadgeRequest = BadgeRequest(path: string, longCache: string, style: string, link: string)

  const DefaultStyle := "for-the-badge"

  const SvgHeaders: seq<(string, string)> :=
    [("Content-Type", "image/svg+xml;charset=utf-8"), ("Cache-Control", "public, max-age=43200")]

  /**
   * A parameter after the destructuring default and the `Array.isArray` check:
   * the default when absent, the first value when repeated.
   */
  function ParamValue(v: QueryValue, default: string): (s: string)
    ensures v.Absent? ==> s == default
    ensures v.Single? ==> s == v.value
    ensures v.Repeated? ==> s == v.first
  {
    match v
    case Absent => default
    case Single(x) => x
    case Repeated(x, _) => x
  }

  /** The renderer path `label-message-color.svg`, from already escaped label and message. */
  function BadgePath(title: string, message: string, color: string): string {
    title + "-" + message + "-" + color + ".svg"
  }

  /**
   * Splits at the first '-' that is not one of a pair of '-' read from the left:
   * the renderer's separator between segments.
   */
  function SplitSegment(p: string): Option<(string, string)>
    decreases |p|
  {
    if p == [] then None
    else if p[0] != '-' then
      match SplitSegment(p[1..])
      case None => None
      case Some((l, r)) => Some(([p[0]] + l, r))
    else if |p| >= 2 && p[1] == '-' then
      match SplitSegment(p[2..])
      case None => None
      case Some((l, r)) => Some(("--" + l, r))
    else Some(([], p[1..]))
  }

  /** A reading of a renderer path back into label, message and colour. */
  function ParsePath(p: string): Option<(string, string, string)> {
    match SplitSegment(p)
    case None => None
    case Some((l, r)) =>
      match SplitSegment(r)
      case None => None
      case Some((m, tail)) =>
        if |tail| < 4 || tail[|tail| - 4..] != ".svg" then None
        else match (Unescape(l), Unescape(m))
          case (Some(title), Some(message)) => Some((title, message, tail[..|tail| - 4]))
          case _ => None
  }

  lemma {:induction false} SplitAfterPaired(a: string, b: string)
    requires HyphensPaired(a)
    requires b == [] || b[0] != '-'
    ensures SplitSegment(a + "-" + b) == Some((a, b))
    decreases |a|
  {
    var p := a + "-" + b;
    if a == [] {
      assert p == ['-'] + b;
      assert p[1..] == b;
    } else if a[0] != '-' {
      assert p[1..] == a[1..] + "-" + b;
      SplitAfterPaired(a[1..], b);
      assert [a[0]] + a[1..] == a;
    } else {
      assert p[2..] == a[2..] + "-" + b;
      SplitAfterPaired(a[2..], b);
      assert "--" + a[2..] == a;
    }
  }

  /**
   * The path gives back the label, the message and the colour, provided the message
   * is not empty and does not start with '-' and the colour has no '-'.
   */
  lemma ParseBadgePath(title: string, message: string, color: string)
    requires message != [] && message[0] != '-'
    requires '-' !in color
    ensures ParsePath(BadgePath(Escape(title), Escape(message), color)) == Some((title, message, color))
  {
    var l, m := Escape(title), Escape(message);
    var tail := color + ".svg";
    var rest := m + "-" + tail;
    assert BadgePath(l, m, color) == l + "-" + rest;
    assert SplitSegment(l + "-" + rest) == Some((l, rest)) by {
      EscapeHyphensPaired(title);
      EscapeHead(message);
      SplitAfterPaired(l, rest);
    }
    assert SplitSegment(rest) == Some((m, tail)) by {
      EscapeHyphensPaired(message);
      assert tail[0] != '-' by {
        if color != [] { assert color[0] in color; }
      }
      SplitAfterPaired(m, tail);
    }
    EscapeRoundTrip(title);
    EscapeRoundTrip(message);
    ReadSplitPath(l + "-" + rest, l, rest, m, color, title, message);
  }

  /** Once both splits and both unescapes are known, the path reads back as its three parts. */
  lemma ReadSplitPath(p: string, l: string, rest: string, m: string, color: string, title: string, message: string)
    requires SplitSegment(p) == Some((l, rest))
    requires SplitSegment(rest) == Some((m, color + ".svg"))
    requires Unescape(l) == Some(title) && Unescape(m) == Some(message)
    ensures ParsePath(p) == Some((title, message, color))
  {
    var tail := color + ".svg";
    assert tail[|tail| - 4..] == ".svg" && tail[..|tail| - 4] == color;
  }

  lemma EscapeHyphenAfter()
    ensures Escape("a-") == "a--" && Escape("a--") == "a----"
  {
    DoubleSeparatorsCons('a', "-");
    DoubleSeparatorsCons('-', "");
    DoubleSeparatorsCons('a', "--");
    DoubleSeparatorsCons('-', "-");
    EncodeUnreserved("a--");
    EncodeUnreserved("a----");
  }

  lemma EscapeHyphenBefore()
    ensures Escape("-b") == "--b" && Escape("b") == "b"
  {
    DoubleSeparatorsCons('-', "b");
    DoubleSeparatorsCons('b', "");
    EncodeUnreserved("--b");
    EncodeUnreserved("b");
  }

  lemma PathSpelling()
    ensures BadgePath("a--", "--b", "808080") == BadgePath("a----", "b", "808080")
  {
    assert BadgePath("a--", "--b", "808080") == "a-----b-808080.svg";
  }

  /** A message that starts with '-' makes the path ambiguous: two inputs, one path. */
  lemma LeadingHyphenAmbiguous()
    ensures BadgePath(Escape("a-"), Escape("-b"), "808080") == BadgePath(Escape("a--"), Escape("b"), "808080")
  {
    EscapeHyphenAfter();
    EscapeHyphenBefore();
    PathSpelling();
  }

  /** Decimal digits of a natural number, as JavaScript prints an integer. */
  function NatDecimal(n: nat): (s: string)
    ensures s != []
    ensures forall k :: 0 <= k < |s| ==> '0' <= s[k] <= '9'
  {
    var d := ('0' as int + n % 10) as char;
    if n < 10 then [d] else NatDecimal(n / 10) + [d]
  }

  function IntDecimal(n: int): string {
    if n < 0 then "-" + NatDecimal(-n) else NatDecimal(n)
  }

  /** How a uid is written after the link prefix: `undefined` when the record has none. */
  function UidText(uid: Option<int>): string {
    match uid
    case None => "undefined"
    case Some(n) => IntDecimal(n)
  }

  /** The profile link: a fixed prefix followed by the uid. */
  function ProfileLink(prefix: string, uid: Option<int>): string {
    prefix + UidText(uid)
  }

  /** Reads a string of decimal digits. */
  function ParseNat(s: string): Option<nat>
    decreases |s|
  {
    if s == [] then None
    else
      var last := s[|s| - 1];
      if !('0' <= last <= '9') then None
      else if |s| == 1 then Some(last as int - '0' as int)
      else match ParseNat(s[..|s| - 1])
        case None => None
        case Some(v) => Some(v * 10 + (last as int - '0' as int))
  }

  function ParseUidText(s: string): Option<Option<int>> {
    if s == "undefined" then Some(None)
    else if s != [] && s[0] == '-' then
      match ParseNat(s[1..])
      case None => None
      case Some(v) => Some(Some(0 - v))
    else
      match ParseNat(s)
      case None => None
      case Some(v) => Some(Some(v))
  }

  lemma {:induction false} ParseNatDecimal(n: nat)
    ensures ParseNat(NatDecimal(n)) == Some(n)
  {
    if n >= 10 {
      var s := NatDecimal(n);
      assert s[..|s| - 1] == NatDecimal(n / 10);
      ParseNatDecimal(n / 10);
    }
  }

  lemma NegativeUidText(n: int)
    requires n < 0
    ensures ParseUidText(UidText(Some(n))) == Some(Some(n))
  {
    var d := NatDecimal(-n);
    ParseNatDecimal(-n);
    var s := "-" + d;
    assert s[0] == '-' && s[1..] == d;
    assert s != "undefined" by { assert s[0] != "undefined"[0]; }
    assert ParseUidText(s) == Some(Some(0 - (-n)));
  }

  lemma NonNegativeUidText(n: int)
    requires n >= 0
    ensures ParseUidText(UidText(Some(n))) == Some(Some(n))
  {
    var s := NatDecimal(n);
    assert s[0] != '-' && s[0] != 'u';
    ParseNatDecimal(n);
  }

  /** The uid can be read back from the link: different uids give different links. */
  lemma LinkRoundTrip(prefix: string, uid: Option<int>)
    ensures ProfileLink(prefix, uid)[..|prefix|] == prefix
    ensures ParseUidText(ProfileLink(prefix, uid)[|prefix|..]) == Some(uid)
  {
    var link := ProfileLink(prefix, uid);
    assert link[|prefix|..] == UidText(uid);
    if uid.Some? {
      if uid.value < 0 {
        NegativeUidText(uid.value);
      } else {
        NonNegativeUidText(uid.value);
      }
    }
  }

  /**
   * The handler's reply: 200 with the SVG headers and the SVG text when the
   * renderer answered ok, 500 with body `error` otherwise.
   */
  function Respond(outcome: RenderOutcome): (resp: Response)
    ensures resp.status == 200 || resp.status == 500
    ensures resp.status == 200 <==> outcome.Rendered?
    ensures outcome.Rendered? ==> resp.headers == SvgHeaders && resp.body == outcome.svg
    ensures !outcome.Rendered? ==> resp.headers == [] && resp.body == "error"
  {
    match outcome
    case Rendered(svg) => Response(200, SvgHeaders, svg)
    case _ => Response(500, [], "error")
  }

  /** The error reply does not depend on how the renderer failed. */
  lemma ErrorResponseUniform(a: RenderOutcome, b: RenderOutcome)
    requires !a.Rendered? && !b.Rendered?
    ensures Respond(a) == Respond(b)
  {
  }

  /** A repeated parameter takes its first value, whatever the default and the later values. */
  lemma RepeatedTakesFirst(default: string)
    ensures ParamValue(Repeated("a", ["b"]), default) == "a"
    ensures ParamValue(Repeated("a", ["b", "c"]), "a") == "a"
  {
  }
}
