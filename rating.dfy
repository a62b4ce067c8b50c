/**
 * The rating badge (api/rating.ts): the sum of a Hydro user's reputation
 * sub-scores, its colour band, the renderer request and the response.
 */
module Rating {
  import opened Wrappers
  import opened BadgeEscape
  import opened Badge

  /** The optional sub-scores of `rpInfo`; None stands for a field that is undefined or null. */
  datatype RpInfo = RpInfo(problem: Option<real>, contest: Option<real>, contribution: Option<real>, submissions: Option<real>)

  /** The `user` object of the GraphQL answer: `rpInfo` (possibly missing) and `_id`. */
  datatype HydroUser = HydroUser(rpInfo: Option<RpInfo>, id: int)

  /** How the upstream call ends: a non-ok status, an ok answer with a user or null, or a thrown fetch or parse. */
  datatype HydroResponse = HydroNotOk | HydroOk(user: Option<HydroUser>) | HydroFailed

  /** `UserRatingInfo`; `uid` is None where the code builds the record without one. */
  datatype RatingInfo = RatingInfo(rating: real, text: string, uid: Option<int>)

  const DefaultUser := "yangrenrui"
  const ProfilePrefix := "https://hydro.ac/user/"

  /** The record returned when the user cannot be looked up. */
  const NotFound := RatingInfo(0.0, "N/A", None)

  /** The record the handler's `.catch` substitutes when the fetch throws. */
  const Caught := RatingInfo(0.0, "N/A", Some(0))

  const Thresholds: seq<real> := [20.0, 40.0, 80.0, 160.0, 240.0, 360.0, 430.0]

  /** The band colours from the lowest band to the highest. */
  const Palette: seq<string> := ["808080", "804000", "008000", "00C0C0", "0000FF", "C0C000", "FF8000", "FF0000"]

  function Present(x: Option<real>): real {
    if x.Some? then x.value else 0.0
  }

  function SumPresent(xs: seq<Option<real>>): real {
    if xs == [] then 0.0 else Present(xs[0]) + SumPresent(xs[1..])
  }

  /** The score: the sum of the sub-scores that are present. */
  function Score(rp: RpInfo): real {
    SumPresent([rp.problem, rp.contest, rp.contribution, rp.submissions])
  }

  /** The accumulation of lines 41-46: four conditional additions to a local total. */
  method AccumulateScore(rp: RpInfo) returns (rat: real)
    ensures rat == Score(rp)
  {
    rat := 0.0;
    if rp.problem.Some? { rat := rat + rp.problem.value; }
    if rp.contest.Some? { rat := rat + rp.contest.value; }
    if rp.contribution.Some? { rat := rat + rp.contribution.value; }
    if rp.submissions.Some? { rat := rat + rp.submissions.value; }
    ScoreOfFields(rp);
  }

  /** Absent sub-scores contribute nothing; present ones their value. */
  lemma ScoreOfFields(rp: RpInfo)
    ensures Score(rp) == Present(rp.problem) + Present(rp.contest) + Present(rp.contribution) + Present(rp.submissions)
  {
    var xs := [rp.problem, rp.contest, rp.contribution, rp.submissions];
    assert xs[3..][1..] == [] && xs[2..][1..] == xs[3..] && xs[1..][1..] == xs[2..];
    assert SumPresent(xs[3..]) == Present(rp.submissions);
    assert SumPresent(xs[2..]) == Present(rp.contribution) + SumPresent(xs[3..]);
    assert SumPresent(xs[1..]) == Present(rp.contest) + SumPresent(xs[2..]);
    assert SumPresent(xs) == Present(rp.problem) + SumPresent(xs[1..]);
  }

  /** The number of hundredths nearest to a non-negative `m`, the larger one on a tie. */
  function Hundredths(m: real): (n: int)
    requires m >= 0.0
    ensures n >= 0 && -0.5 < n as real - m * 100.0 <= 0.5
  {
    (m * 100.0 + 0.5).Floor
  }

  /** The magnitude rounded to hundredths, with the sign put back. */
  function SignedHundredths(x: real): (n: int)
    ensures -0.5 <= n as real - x * 100.0 <= 0.5
  {
    if x < 0.0 then -Hundredths(-x) else Hundredths(x)
  }

  /**
   * The number `toFixed(2)` denotes (section 21.1.3.3 of ECMA-262): the magnitude
   * rounded to hundredths, the sign put back; values of magnitude 10^21 or more are
   * printed unrounded.
   */
  function Fixed2Value(x: real): (r: real)
    ensures -0.005 <= r - x <= 0.005
    ensures -1000000000000000000000.0 < x < 1000000000000000000000.0 ==> (r * 100.0).Floor as real == r * 100.0
  {
    if x >= 1000000000000000000000.0 || x <= -1000000000000000000000.0 then x
    else
      var n := SignedHundredths(x);
      assert (n as real / 100.0) * 100.0 == n as real;
      n as real / 100.0
  }

  /**
   * What `fetchData` resolves to, or Threw when it rejects: a missing `rpInfo` on a
   * found user makes `userrp.problem` throw. `fixed2` renders `toFixed(2)` as text.
   */
  function FetchedRating(r: HydroResponse, fixed2: real -> string): Fetched<RatingInfo> {
    match r
    case HydroFailed => Threw
    case HydroNotOk => Returned(NotFound)
    case HydroOk(None) => Returned(NotFound)
    case HydroOk(Some(user)) =>
      match user.rpInfo
      case None => Threw
      case Some(rp) =>
        var rat := Score(rp);
        if rat == 0.0 then Returned(RatingInfo(0.0, "unrated", Some(user.id)))
        else Returned(RatingInfo(Fixed2Value(rat), fixed2(rat), Some(user.id)))
  }

  /** The record the handler goes on with, after the `.catch` of line 79. */
  function RatingData(r: HydroResponse, fixed2: real -> string): RatingInfo {
    match FetchedRating(r, fixed2)
    case Threw => Caught
    case Returned(info) => info
  }

  /** `fetchData` after the upstream call, with the accumulator of lines 41-46. */
  method FetchRating(r: HydroResponse, fixed2: real -> string) returns (f: Fetched<RatingInfo>)
    ensures f == FetchedRating(r, fixed2)
  {
    if r.HydroFailed? { return Threw; }
    if r.HydroNotOk? { return Returned(NotFound); }
    if r.user.None? { return Returned(NotFound); }
    var user := r.user.value;
    if user.rpInfo.None? { return Threw; }
    var rat := AccumulateScore(user.rpInfo.value);
    if rat == 0.0 { return Returned(RatingInfo(0.0, "unrated", Some(user.id))); }
    f := Returned(RatingInfo(Fixed2Value(rat), fixed2(rat), Some(user.id)));
  }

  /** The record has no uid exactly when the upstream answer was non-ok or had no user. */
  lemma UidAbsentIffNotFound(r: HydroResponse, fixed2: real -> string)
    ensures RatingData(r, fixed2).uid == None <==> (r == HydroNotOk || r == HydroOk(None))
  {
  }

  /** A failed lookup gives rating 0 and text `N/A`; only the `.catch` path sets uid 0. */
  lemma FailureDefaults(r: HydroResponse, fixed2: real -> string)
    ensures r == HydroNotOk || r == HydroOk(None) ==> RatingData(r, fixed2) == RatingInfo(0.0, "N/A", None)
    ensures r == HydroFailed ==> RatingData(r, fixed2) == RatingInfo(0.0, "N/A", Some(0))
    ensures r.HydroOk? && r.user.Some? && r.user.value.rpInfo.None? ==> RatingData(r, fixed2) == Caught
  {
  }

  /**
   * A found user with sub-scores: uid is `_id`; a zero sum gives `unrated` and
   * rating 0, any other sum its two-decimal value and rendering.
   */
  lemma FoundUser(user: HydroUser, rp: RpInfo, fixed2: real -> string)
    requires user.rpInfo == Some(rp)
    ensures RatingData(HydroOk(Some(user)), fixed2).uid == Some(user.id)
    ensures Score(rp) == 0.0 ==> RatingData(HydroOk(Some(user)), fixed2) == RatingInfo(0.0, "unrated", Some(user.id))
    ensures Score(rp) != 0.0 ==> RatingData(HydroOk(Some(user)), fixed2).text == fixed2(Score(rp))
    ensures -0.005 <= RatingData(HydroOk(Some(user)), fixed2).rating - Score(rp) <= 0.005
  {
  }

  /** A positive rating comes only from a found user whose sub-scores sum to within half a hundredth of it. */
  lemma PositiveRatingFromScore(r: HydroResponse, fixed2: real -> string)
    requires RatingData(r, fixed2).rating > 0.0
    ensures r.HydroOk? && r.user.Some? && r.user.value.rpInfo.Some?
    ensures RatingData(r, fixed2).uid == Some(r.user.value.id)
    ensures Score(r.user.value.rpInfo.value) >= RatingData(r, fixed2).rating - 0.005
  {
  }

  /** `getRatingColor`: the colour of the first threshold, from the top, that the rating meets. */
  function RatingColor(x: real): (c: string)
    ensures c == "FF0000" <==> x >= 430.0
    ensures c == "FF8000" <==> 360.0 <= x < 430.0
    ensures c == "C0C000" <==> 240.0 <= x < 360.0
    ensures c == "0000FF" <==> 160.0 <= x < 240.0
    ensures c == "00C0C0" <==> 80.0 <= x < 160.0
    ensures c == "008000" <==> 40.0 <= x < 80.0
    ensures c == "804000" <==> 20.0 <= x < 40.0
    ensures c == "808080" <==> x < 20.0
  {
    if x >= 430.0 then "FF0000"
    else if x >= 360.0 then "FF8000"
    else if x >= 240.0 then "C0C000"
    else if x >= 160.0 then "0000FF"
    else if x >= 80.0 then "00C0C0"
    else if x >= 40.0 then "008000"
    else if x >= 20.0 then "804000"
    else "808080"
  }

  /** How many of the thresholds `x` meets: the index of its band. */
  function ThresholdsMet(ts: seq<real>, x: real): (k: nat)
    ensures k <= |ts|
  {
    if ts == [] then 0 else (if ts[0] <= x then 1 else 0) + ThresholdsMet(ts[1..], x)
  }

  /** The colour is the palette entry indexed by the number of thresholds met. */
  lemma RatingColorIsBand(x: real)
    ensures RatingColor(x) == Palette[ThresholdsMet(Thresholds, x)]
  {
    var t0 := Thresholds;
    var t1, t2, t3 := t0[1..], t0[2..], t0[3..];
    var t4, t5, t6 := t0[4..], t0[5..], t0[6..];
    assert t6[1..] == [];
    assert t5[1..] == t6 && t4[1..] == t5 && t3[1..] == t4;
    assert t2[1..] == t3 && t1[1..] == t2;
    assert ThresholdsMet(t6, x) == if 430.0 <= x then 1 else 0;
    assert ThresholdsMet(t5, x) == (if 360.0 <= x then 1 else 0) + ThresholdsMet(t6, x);
    assert ThresholdsMet(t4, x) == (if 240.0 <= x then 1 else 0) + ThresholdsMet(t5, x);
    assert ThresholdsMet(t3, x) == (if 160.0 <= x then 1 else 0) + ThresholdsMet(t4, x);
    assert ThresholdsMet(t2, x) == (if 80.0 <= x then 1 else 0) + ThresholdsMet(t3, x);
    assert ThresholdsMet(t1, x) == (if 40.0 <= x then 1 else 0) + ThresholdsMet(t2, x);
    assert ThresholdsMet(t0, x) == (if 20.0 <= x then 1 else 0) + ThresholdsMet(t1, x);
  }

  lemma {:induction false} ThresholdsMetMonotone(ts: seq<real>, x: real, y: real)
    requires x <= y
    ensures ThresholdsMet(ts, x) <= ThresholdsMet(ts, y)
  {
    if ts != [] {
      ThresholdsMetMonotone(ts[1..], x, y);
    }
  }

  /** A larger rating never lands in a lower band. */
  lemma RatingColorMonotone(x: real, y: real)
    requires x <= y
    ensures ThresholdsMet(Thresholds, x) <= ThresholdsMet(Thresholds, y)
    ensures RatingColor(x) == Palette[ThresholdsMet(Thresholds, x)]
    ensures RatingColor(y) == Palette[ThresholdsMet(Thresholds, y)]
  {
    ThresholdsMetMonotone(Thresholds, x, y);
    RatingColorIsBand(x);
    RatingColorIsBand(y);
  }

  /** Eight distinct colours; each threshold starts its own band, just below it is the band beneath. */
  lemma RatingBands(i: nat, x: real)
    requires i < |Thresholds|
    ensures forall j, k :: 0 <= j < k < |Palette| ==> Palette[j] != Palette[k]
    ensures RatingColor(Thresholds[i]) == Palette[i + 1]
    ensures (i == 0 || Thresholds[i - 1] <= x) && x < Thresholds[i] ==> RatingColor(x) == Palette[i]
  {
  }

  /** `getBadgeImage` up to the renderer call: the path segments, the query values and the link. */
  function RatingRequest(username: string, data: RatingInfo, style: string): BadgeRequest {
    BadgeRequest(BadgePath(Escape(username), Escape(data.text), RatingColor(data.rating)), "true", style,
      ProfileLink(ProfilePrefix, data.uid))
  }

  /** The renderer path reads back as the username, the text and the band colour; the link gives back the uid. */
  lemma RatingRequestReadsBack(username: string, data: RatingInfo, style: string)
    requires data.text != [] && data.text[0] != '-'
    ensures ParsePath(RatingRequest(username, data, style).path) == Some((username, data.text, RatingColor(data.rating)))
    ensures RatingRequest(username, data, style).link[..|ProfilePrefix|] == ProfilePrefix
    ensures ParseUidText(RatingRequest(username, data, style).link[|ProfilePrefix|..]) == Some(data.uid)
  {
    var color := RatingColor(data.rating);
    assert '-' !in color;
    ParseBadgePath(username, data.text, color);
    LinkRoundTrip(ProfilePrefix, data.uid);
  }

  /** The handler: normalise the parameters, fetch, fall back on `.catch`, request the badge, respond. */
  method HandleRating(q: Query, upstream: string -> HydroResponse, fixed2: real -> string,
                      renderer: BadgeRequest -> RenderOutcome) returns (resp: Response)
    ensures resp == Respond(renderer(RatingRequest(ParamValue(q.username, DefaultUser),
      RatingData(upstream(ParamValue(q.username, DefaultUser)), fixed2), ParamValue(q.style, DefaultStyle))))
  {
    var username, style := DefaultUser, DefaultStyle;
    if q.username.Single? { username := q.username.value; }
    if q.style.Single? { style := q.style.value; }
    if q.username.Repeated? { username := q.username.first; }
    if q.style.Repeated? { style := q.style.first; }
    var fetched := FetchRating(upstream(username), fixed2);
    var data := if fetched.Threw? then Caught else fetched.info;
    resp := Respond(renderer(RatingRequest(username, data, style)));
  }
}
