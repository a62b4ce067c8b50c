/**
 * The tag badge (api/tag.ts): a Luogu user's colour tier and badge tag, the tier
 * colour, the renderer request with its empty-tag substitute, and the response.
 */
module Tag {
  import opened Wrappers
  import opened UriComponent
  import opened BadgeEscape
  import opened Badge
  import Utf8

  /** The first entry of the search answer's `users`: `color`, `uid` and `badge`. */
  datatype LuoguUser = LuoguUser(color: string, uid: int, badge: string)

  /** How the search call ends: a non-ok status, an ok answer with its `users`, or a thrown fetch or parse. */
  datatype LuoguResponse = LuoguNotOk | LuoguOk(users: seq<LuoguUser>) | LuoguFailed

  /** `UserRatingInfo`: tier name, label, uid (None where the code builds the record without one) and tag. */
  datatype TagInfo = TagInfo(rating: string, text: string, uid: Option<int>, tag: string)

  const DefaultUser := "yangrenruiYRR"
  const ProfilePrefix := "https://www.luogu.com.cn/user/"

  /** The message shown in place of an empty tag. */
  const NoTagText := "\U{65E0}TAG"

  /** The suffix `名` appended to the tier label. */
  const RankSuffix := "\U{540D}"

  const NotFound := TagInfo("Gray", "N/A", None, "")
  const Caught := TagInfo("Gray", "N/A", Some(0), "")

  /** The colours the tier table can give: seven for the eight tier names, then the default. */
  const TierPalette: seq<string> := ["8e44ad", "e74c3c", "e67e22", "2dce89", "0e90d2", "bfbfbf", "ad8b00", "808080"]

  /**
   * What `fetchData` resolves to, or Threw when it rejects. Only the first user is
   * used; `geta` is the tier-label function called at line 36.
   */
  function FetchedTag(r: LuoguResponse, geta: string -> string): Fetched<TagInfo> {
    match r
    case LuoguFailed => Threw
    case LuoguNotOk => Returned(NotFound)
    case LuoguOk(users) =>
      if |users| == 0 then Returned(NotFound)
      else
        var user0 := users[0];
        Returned(TagInfo(user0.color, geta(user0.color) + RankSuffix, Some(user0.uid), user0.badge))
  }

  /** The record the handler goes on with, after the `.catch` of line 69. */
  function TagData(r: LuoguResponse, geta: string -> string): TagInfo {
    match FetchedTag(r, geta)
    case Threw => Caught
    case Returned(info) => info
  }

  /** The record has no uid exactly when the answer was non-ok or listed no user. */
  lemma UidAbsentIffNotFound(r: LuoguResponse, geta: string -> string)
    ensures TagData(r, geta).uid == None <==> (r == LuoguNotOk || r == LuoguOk([]))
  {
  }

  /** A failed lookup gives tier Gray, text `N/A` and an empty tag; only the `.catch` path sets uid 0. */
  lemma FailureDefaults(r: LuoguResponse, geta: string -> string)
    ensures r == LuoguNotOk || r == LuoguOk([]) ==> TagData(r, geta) == TagInfo("Gray", "N/A", None, "")
    ensures r == LuoguFailed ==> TagData(r, geta) == TagInfo("Gray", "N/A", Some(0), "")
  {
  }

  /** Only `users[0]` matters: its colour is the tier, its uid and badge are taken as they are. */
  lemma FirstUserOnly(user0: LuoguUser, rest: seq<LuoguUser>, others: seq<LuoguUser>, geta: string -> string)
    ensures TagData(LuoguOk([user0] + rest), geta) == TagData(LuoguOk([user0] + others), geta)
    ensures TagData(LuoguOk([user0] + rest), geta) ==
      TagInfo(user0.color, geta(user0.color) + RankSuffix, Some(user0.uid), user0.badge)
  {
  }

  /** `getRatingColor` of api/tag.ts: an exact, case-sensitive table of tier names. */
  function TierColor(tier: string): (c: string)
    ensures c == "8e44ad" <==> tier == "Purple"
    ensures c == "e74c3c" <==> tier == "Red"
    ensures c == "e67e22" <==> tier == "Orange"
    ensures c == "2dce89" <==> tier == "Green"
    ensures c == "0e90d2" <==> tier == "Blue"
    ensures c == "bfbfbf" <==> tier == "Gray"
    ensures c == "ad8b00" <==> tier == "Brown" || tier == "Cheater"
    ensures c == "808080" <==> tier !in {"Purple", "Red", "Orange", "Green", "Blue", "Gray", "Brown", "Cheater"}
  {
    if tier == "Purple" then "8e44ad"
    else if tier == "Red" then "e74c3c"
    else if tier == "Orange" then "e67e22"
    else if tier == "Green" then "2dce89"
    else if tier == "Blue" then "0e90d2"
    else if tier == "Gray" then "bfbfbf"
    else if tier == "Brown" then "ad8b00"
    else if tier == "Cheater" then "ad8b00"
    else "808080"
  }

  /** The table is total: every name gets one of the palette's colours. */
  lemma TierColorTotal(tier: string)
    ensures TierColor(tier) in TierPalette
  {
  }

  /** Every palette colour is given to some name, and the palette's colours are distinct. */
  lemma TierPaletteAttained(k: nat)
    requires k < |TierPalette|
    ensures forall j :: 0 <= j < |TierPalette| && j != k ==> TierPalette[j] != TierPalette[k]
    ensures TierColor(["Purple", "Red", "Orange", "Green", "Blue", "Gray", "Brown", ""][k]) == TierPalette[k]
  {
  }

  /** Matching is exact and case-sensitive: "", "gray" and "purple" are unknown names. */
  lemma TierColorExact()
    ensures TierColor("") == "808080" && TierColor("gray") == "808080" && TierColor("purple") == "808080"
    ensures TierColor("Brown") == TierColor("Cheater")
  {
  }

  /** The message segment: the escaped tag, or the escaped substitute when the tag is empty. */
  function TagMessage(tag: string): string {
    if tag == "" then Escape(NoTagText) else Escape(tag)
  }

  /** Lines 42-45: escape the tag, then overwrite the result when the tag is empty. */
  method EscapedTagText(tag: string) returns (seg: string)
    ensures seg == TagMessage(tag)
  {
    seg := Escape(tag);
    if tag == "" {
      seg := Escape(NoTagText);
    }
  }

  lemma EscapeNoTagChar()
    ensures EncodeChar('\U{65E0}') == "%E6%97%A0"
  {
    var bs := Utf8.EncodeScalar('\U{65E0}');
    assert bs == [0xE6, 0x97, 0xA0];
    assert PercentBytes(bs) == PercentByte(0xE6) + PercentByte(0x97) + PercentByte(0xA0) by {
      assert bs[1..][1..][1..] == [];
    }
  }

  lemma DoubleNoTagText()
    ensures DoubleSeparators(NoTagText) == NoTagText
  {
    DoubleSeparatorsCons('\U{65E0}', "TAG");
    DoubleSeparatorsCons('T', "AG");
    DoubleSeparatorsCons('A', "G");
    DoubleSeparatorsCons('G', "");
  }

  /** An empty tag shows as the escaped `无TAG`, the percent-encoded octets E6 97 A0 followed by TAG. */
  lemma NoTagMessage()
    ensures TagMessage("") == "%E6%97%A0TAG"
  {
    DoubleNoTagText();
    assert NoTagText == ['\U{65E0}'] + "TAG";
    EncodeAppend(['\U{65E0}'], "TAG");
    EncodeUnreserved("TAG");
    EscapeNoTagChar();
    assert EncodeURIComponent(['\U{65E0}']) == EncodeChar('\U{65E0}') + [];
  }

  /** `getBadgeImage` up to the renderer call: the path segments, the query values and the link. */
  function TagRequest(username: string, data: TagInfo, style: string): BadgeRequest {
    BadgeRequest(BadgePath(Escape(username), TagMessage(data.tag), TierColor(data.rating)), "true", style,
      ProfileLink(ProfilePrefix, data.uid))
  }

  /** `getBadgeImage` as written, with the overwritten local of lines 42-45. */
  method BuildTagRequest(username: string, data: TagInfo, style: string) returns (req: BadgeRequest)
    ensures req == TagRequest(username, data, style)
  {
    var color := TierColor(data.rating);
    var escapedUsername := Escape(username);
    var escapedRatingText := EscapedTagText(data.tag);
    req := BadgeRequest(BadgePath(escapedUsername, escapedRatingText, color), "true", style,
      ProfileLink(ProfilePrefix, data.uid));
  }

  /**
   * The renderer path reads back as the username, the shown tag (the substitute for
   * an empty one) and the tier colour; the link gives back the uid.
   */
  lemma TagRequestReadsBack(username: string, data: TagInfo, style: string)
    requires data.tag == "" || data.tag[0] != '-'
    ensures ParsePath(TagRequest(username, data, style).path) ==
      Some((username, if data.tag == "" then NoTagText else data.tag, TierColor(data.rating)))
    ensures TagRequest(username, data, style).link[..|ProfilePrefix|] == ProfilePrefix
    ensures ParseUidText(TagRequest(username, data, style).link[|ProfilePrefix|..]) == Some(data.uid)
  {
    var color := TierColor(data.rating);
    assert '-' !in color;
    ParseBadgePath(username, if data.tag == "" then NoTagText else data.tag, color);
    LinkRoundTrip(ProfilePrefix, data.uid);
  }

  /** A user that cannot be found gets the Gray colour, the substitute message and a link ending in `undefined`. */
  lemma NotFoundRequest(username: string, style: string, geta: string -> string)
    ensures TagRequest(username, TagData(LuoguOk([]), geta), style).path ==
      BadgePath(Escape(username), "%E6%97%A0TAG", "bfbfbf")
    ensures TagRequest(username, TagData(LuoguOk([]), geta), style).link == ProfilePrefix + "undefined"
  {
    NoTagMessage();
    var data := TagData(LuoguOk([]), geta);
    assert data == NotFound;
    assert UidText(data.uid) == "undefined";
  }

  /** The handler: normalise the parameters, fetch, fall back on `.catch`, request the badge, respond. */
  method HandleTag(q: Query, upstream: string -> LuoguResponse, geta: string -> string,
                   renderer: BadgeRequest -> RenderOutcome) returns (resp: Response)
    ensures resp == Respond(renderer(TagRequest(ParamValue(q.username, DefaultUser),
      TagData(upstream(ParamValue(q.username, DefaultUser)), geta), ParamValue(q.style, DefaultStyle))))
  {
    var username, style := DefaultUser, DefaultStyle;
    if q.username.Single? { username := q.username.value; }
    if q.style.Single? { style := q.style.value; }
    if q.username.Repeated? { username := q.username.first; }
    if q.style.Repeated? { style := q.style.first; }
    var fetched := FetchedTag(upstream(username), geta);
    var data := if fetched.Threw? then Caught else fetched.info;
    var req := BuildTagRequest(username, data, style);
    resp := Respond(renderer(req));
  }
}
