/** Ranking agent profiles for a task. */
module Profiles {
  import opened FailureText

  datatype AgentProfile = AgentProfile(name: string, provider: string, model: string,
                                       tokenBudget: int, timeoutMinutes: int, maxConcurrent: int, stations: seq<string>)

  datatype Recommendation = Recommendation(profileName: string, score: int, reason: string)

  // ---------- Scoring ----------

  function StationReasons(scopes: seq<string>, stations: seq<string>): seq<string> {
    if scopes == [] then []
    else (if scopes[0] in stations then ["station match: " + scopes[0]] else []) + StationReasons(scopes[1..], stations)
  }

  function CapabilityReasons(model: string, priority: string): seq<string> {
    if priority == "P0" || priority == "P1" then
      if Contains(model, "opus") || Contains(model, "sonnet") then ["capable model for high-priority"] else []
    else if priority == "P2" || priority == "P3" then
      if Contains(model, "haiku") then ["cost-efficient model for low-priority"] else []
    else []
  }

  function JoinReasons(reasons: seq<string>): string {
    if reasons == [] then []
    else if |reasons| == 1 then reasons[0]
    else reasons[0] + ", " + JoinReasons(reasons[1..])
  }

  /** Every reason is worth points, ten for a station and five for a capability, on top of one for being there. */
  function Recommend(p: AgentProfile, scopes: seq<string>, priority: string): Recommendation {
    var stations := StationReasons(scopes, p.stations);
    var capability := CapabilityReasons(p.model, priority);
    var reasons := stations + capability;
    Recommendation(p.name, 10 * |stations| + 5 * |capability| + 1,
                   if reasons == [] then "default profile" else JoinReasons(reasons))
  }

  // What a rating is, counted on the scopes themselves.

  /** The positions of the scopes at which the profile is stationed. */
  ghost function MatchPositions(p: AgentProfile, scopes: seq<string>): set<nat> {
    set i: nat | i < |scopes| && scopes[i] in p.stations
  }

  /** Opus and Sonnet models suit P0 and P1, Haiku models P2 and P3. */
  predicate SuitsPriority(model: string, priority: string) {
    || ((priority == "P0" || priority == "P1") && (Contains(model, "opus") || Contains(model, "sonnet")))
    || ((priority == "P2" || priority == "P3") && Contains(model, "haiku"))
  }

  lemma {:induction false} StationReasonsAdd(scopes: seq<string>, s: string, stations: seq<string>)
    ensures StationReasons(scopes + [s], stations)
            == StationReasons(scopes, stations) + if s in stations then ["station match: " + s] else []
  {
    if scopes == [] {
      assert [] + [s] == [s] && [s][1..] == [];
    } else {
      assert (scopes + [s])[1..] == scopes[1..] + [s];
      StationReasonsAdd(scopes[1..], s, stations);
    }
  }

  lemma {:induction false} OneReasonPerPosition(p: AgentProfile, scopes: seq<string>)
    ensures |StationReasons(scopes, p.stations)| == |MatchPositions(p, scopes)|
  {
    hide MatchPositions;
    if scopes == [] {
      NoPositions(p);
    } else {
      var n := |scopes| - 1;
      var before := scopes[..n];
      OneReasonPerPosition(p, before);
      assert scopes == before + [scopes[n]];
      StationReasonsAdd(before, scopes[n], p.stations);
      LastPosition(p, scopes);
    }
  }

  lemma NoPositions(p: AgentProfile)
    ensures MatchPositions(p, []) == {}
  {
  }

  lemma LastPosition(p: AgentProfile, scopes: seq<string>)
    requires scopes != []
    ensures var n := |scopes| - 1;
            |MatchPositions(p, scopes)| == |MatchPositions(p, scopes[..n])| + if scopes[n] in p.stations then 1 else 0
  {
    var n := |scopes| - 1;
    var before := MatchPositions(p, scopes[..n]);
    assert n !in before;
    assert MatchPositions(p, scopes) == if scopes[n] in p.stations then before + {n} else before;
  }

  lemma BonusIsForSuiting(model: string, priority: string)
    ensures |CapabilityReasons(model, priority)| == if SuitsPriority(model, priority) then 1 else 0
    ensures SuitsPriority(model, priority) ==>
              CapabilityReasons(model, priority) == [if priority == "P0" || priority == "P1"
                                                     then "capable model for high-priority"
                                                     else "cost-efficient model for low-priority"]
  {
    hide Contains;
  }

  lemma {:induction false} JoinReasonsAppends(reasons: seq<string>, r: string)
    ensures JoinReasons(reasons + [r]) == if reasons == [] then r else JoinReasons(reasons) + ", " + r
  {
    if reasons == [] {
      assert [] + [r] == [r];
    } else {
      assert (reasons + [r])[1..] == reasons[1..] + [r];
      JoinReasonsAppends(reasons[1..], r);
      if |reasons| > 1 {
        var rest := JoinReasons(reasons[1..]);
        assert reasons[0] + ", " + (rest + ", " + r) == reasons[0] + ", " + rest + ", " + r;
      }
    }
  }

  /** `text` with one more reason behind it. */
  function WithReason(text: string, reason: string): string {
    if text == [] then reason else text + ", " + reason
  }

  /** The reasons for the first `n` scopes, as text. */
  function StationText(p: AgentProfile, scopes: seq<string>, n: nat): string
    requires n <= |scopes|
  {
    if n == 0 then []
    else if scopes[n - 1] in p.stations then WithReason(StationText(p, scopes, n - 1), "station match: " + scopes[n - 1])
    else StationText(p, scopes, n - 1)
  }

  lemma {:induction false} JoinedStationReasons(p: AgentProfile, scopes: seq<string>, n: nat)
    requires n <= |scopes|
    ensures JoinReasons(StationReasons(scopes[..n], p.stations)) == StationText(p, scopes, n)
    ensures StationText(p, scopes, n) == [] <==> StationReasons(scopes[..n], p.stations) == []
  {
    if n > 0 {
      JoinedStationReasons(p, scopes, n - 1);
      assert scopes[..n] == scopes[..n - 1] + [scopes[n - 1]];
      StationReasonsAdd(scopes[..n - 1], scopes[n - 1], p.stations);
      var before := StationReasons(scopes[..n - 1], p.stations);
      JoinReasonsAppends(before, "station match: " + scopes[n - 1]);
      assert before + [] == before;
    }
  }

  /** Ten points for every position matched, five for a model that suits the priority, and one for being there. */
  lemma ScoreCountsMatches(p: AgentProfile, scopes: seq<string>, priority: string)
    ensures Recommend(p, scopes, priority).profileName == p.name
    ensures Recommend(p, scopes, priority).score
            == 10 * |MatchPositions(p, scopes)| + (if SuitsPriority(p.model, priority) then 5 else 0) + 1
  {
    hide Contains, SuitsPriority;
    OneReasonPerPosition(p, scopes);
    BonusIsForSuiting(p.model, priority);
  }

  /** The reason lists the matches in order and then the model; without any of them it is the default, and the score one. */
  lemma ReasonListsMatches(p: AgentProfile, scopes: seq<string>, priority: string)
    ensures var r := Recommend(p, scopes, priority);
            var matches := StationText(p, scopes, |scopes|);
            && (SuitsPriority(p.model, priority) ==>
                r.reason == WithReason(matches, if priority == "P0" || priority == "P1"
                                                then "capable model for high-priority"
                                                else "cost-efficient model for low-priority"))
            && (!SuitsPriority(p.model, priority) && matches != [] ==> r.reason == matches)
            && (!SuitsPriority(p.model, priority) && matches == [] <==> r.score == 1)
            && (r.score == 1 ==> r.reason == "default profile")
  {
    hide Contains, SuitsPriority, StationText, JoinReasons;
    var stations := StationReasons(scopes, p.stations);
    var capability := CapabilityReasons(p.model, priority);
    JoinedStationReasons(p, scopes, |scopes|);
    assert scopes[..|scopes|] == scopes;
    BonusIsForSuiting(p.model, priority);
    if SuitsPriority(p.model, priority) {
      JoinReasonsAppends(stations, capability[0]);
      assert capability == [capability[0]];
    } else {
      assert stations + capability == stations;
    }
  }

  method RateProfile(p: AgentProfile, scopes: seq<string>, priority: string) returns (r: Recommendation)
    ensures r == Recommend(p, scopes, priority)
    ensures r.score == 10 * |MatchPositions(p, scopes)| + (if SuitsPriority(p.model, priority) then 5 else 0) + 1
  {
    hide Contains, JoinReasons;
    var score := 0;
    var reasons: seq<string> := [];
    for i := 0 to |scopes|
      invariant reasons + StationReasons(scopes[i..], p.stations) == StationReasons(scopes, p.stations)
      invariant score == 10 * |reasons|
    {
      ghost var before := reasons + StationReasons(scopes[i..], p.stations);
      assert scopes[i..][1..] == scopes[i + 1..];
      if scopes[i] in p.stations {
        score := score + 10;
        reasons := reasons + ["station match: " + scopes[i]];
      }
      assert reasons + StationReasons(scopes[i + 1..], p.stations) == before;
    }
    ghost var stations := StationReasons(scopes, p.stations);
    assert reasons == stations && score == 10 * |stations|;
    if priority == "P0" || priority == "P1" {
      if Contains(p.model, "opus") || Contains(p.model, "sonnet") {
        score := score + 5;
        reasons := reasons + ["capable model for high-priority"];
      }
    } else if priority == "P2" || priority == "P3" {
      if Contains(p.model, "haiku") {
        score := score + 5;
        reasons := reasons + ["cost-efficient model for low-priority"];
      }
    }
    assert reasons == stations + CapabilityReasons(p.model, priority);
    score := score + 1;
    ScoreCountsMatches(p, scopes, priority);
    r := Recommendation(p.name, score, if reasons == [] then "default profile" else JoinReasons(reasons));
  }

  // ---------- Stable ranking ----------

  function ScoreOf(r: Recommendation): int {
    r.score
  }

  /** `x`, which came before all of `s`, goes in front of everything it does not lose to. */
  function Place<T>(x: T, s: seq<T>, score: T -> int): seq<T> {
    if s == [] || score(s[0]) <= score(x) then [x] + s else [s[0]] + Place(x, s[1..], score)
  }

  function Ranked<T>(xs: seq<T>, score: T -> int): seq<T> {
    if xs == [] then [] else Place(xs[0], Ranked(xs[1..], score), score)
  }

  method SortByScore(recommendations: seq<Recommendation>) returns (sorted: seq<Recommendation>)
    ensures sorted == Ranked(recommendations, ScoreOf)
  {
    sorted := [];
    for i := |recommendations| downto 0
      invariant sorted == Ranked(recommendations[i..], ScoreOf)
    {
      assert recommendations[i..][1..] == recommendations[i + 1..];
      sorted := InsertByScore(recommendations[i], sorted);
    }
    assert recommendations[0..] == recommendations;
  }

  method InsertByScore(x: Recommendation, sorted: seq<Recommendation>) returns (placed: seq<Recommendation>)
    ensures placed == Place(x, sorted, ScoreOf)
  {
    var k := 0;
    while k < |sorted| && sorted[k].score > x.score
      invariant k <= |sorted|
      invariant Place(x, sorted, ScoreOf) == sorted[..k] + Place(x, sorted[k..], ScoreOf)
    {
      PassOver(x, sorted, k);
      k := k + 1;
    }
    placed := sorted[..k] + ([x] + sorted[k..]);
  }

  lemma PassOver(x: Recommendation, sorted: seq<Recommendation>, k: nat)
    requires k < |sorted| && sorted[k].score > x.score
    ensures sorted[..k] + Place(x, sorted[k..], ScoreOf) == sorted[..k + 1] + Place(x, sorted[k + 1..], ScoreOf)
  {
    assert sorted[k..][1..] == sorted[k + 1..];
    assert sorted[..k + 1] == sorted[..k] + [sorted[k]];
  }

  /** The recommendations of all profiles, in their order: what `recommend_profile` has before it sorts. */
  function RecommendAll(profiles: seq<AgentProfile>, scopes: seq<string>, priority: string): (rs: seq<Recommendation>)
    ensures |rs| == |profiles| && forall i :: 0 <= i < |rs| ==> rs[i] == Recommend(profiles[i], scopes, priority)
  {
    seq(|profiles|, i requires 0 <= i < |profiles| => Recommend(profiles[i], scopes, priority))
  }

  method RecommendProfile(scopes: seq<string>, priority: string, profiles: seq<AgentProfile>)
    returns (recommendations: seq<Recommendation>)
    ensures recommendations == Ranked(RecommendAll(profiles, scopes, priority), ScoreOf)
  {
    hide Recommend, Ranked;
    recommendations := [];
    for i := 0 to |profiles|
      invariant recommendations == RecommendAll(profiles, scopes, priority)[..i]
    {
      var r := RateProfile(profiles[i], scopes, priority);
      recommendations := recommendations + [r];
    }
    assert recommendations == RecommendAll(profiles, scopes, priority);
    recommendations := SortByScore(recommendations);
  }

  // ---------- What a stable ranking is ----------

  ghost predicate SortedBy<T>(s: seq<T>, score: T -> int) {
    forall i, j :: 0 <= i < j < |s| ==> score(s[i]) >= score(s[j])
  }

  /** The elements of `s` that satisfy `keep`, in order. */
  function Filter<T>(s: seq<T>, keep: T -> bool): seq<T> {
    if s == [] then [] else if keep(s[0]) then [s[0]] + Filter(s[1..], keep) else Filter(s[1..], keep)
  }

  function HasScore(v: int): Recommendation -> bool {
    (r: Recommendation) => r.score == v
  }

  function WithScore(s: seq<Recommendation>, v: int): seq<Recommendation> {
    Filter(s, HasScore(v))
  }

  /** `out` is `s` sorted, and among equal scores nothing is lost, added or moved. */
  ghost predicate IsStableRanking(out: seq<Recommendation>, s: seq<Recommendation>) {
    SortedBy(out, ScoreOf) && forall v :: WithScore(out, v) == WithScore(s, v)
  }

  lemma {:induction false} PlacedFrom<T>(x: T, s: seq<T>, score: T -> int, i: nat)
    requires i < |Place(x, s, score)|
    ensures Place(x, s, score)[i] == x || Place(x, s, score)[i] in s
  {
    if s != [] && score(s[0]) > score(x) && i > 0 {
      PlacedFrom(x, s[1..], score, i - 1);
    }
  }

  lemma {:induction false} PlaceKeepsSorted<T>(x: T, s: seq<T>, score: T -> int)
    requires SortedBy(s, score)
    ensures SortedBy(Place(x, s, score), score)
  {
    if s != [] && score(s[0]) > score(x) {
      var placed := Place(x, s[1..], score);
      PlaceKeepsSorted(x, s[1..], score);
      forall j | 0 <= j < |placed| ensures score(s[0]) >= score(placed[j]) {
        PlacedFrom(x, s[1..], score, j);
      }
    }
  }

  lemma {:induction false} RankedIsSorted<T>(s: seq<T>, score: T -> int)
    ensures SortedBy(Ranked(s, score), score)
  {
    if s != [] {
      RankedIsSorted(s[1..], score);
      PlaceKeepsSorted(s[0], Ranked(s[1..], score), score);
    }
  }

  lemma FilterOfCons<T>(x: T, s: seq<T>, keep: T -> bool)
    ensures Filter([x] + s, keep) == if keep(x) then [x] + Filter(s, keep) else Filter(s, keep)
  {
    assert ([x] + s)[1..] == s;
  }

  lemma PlaceOnTop<T>(x: T, s: seq<T>, score: T -> int)
    requires forall i :: 0 <= i < |s| ==> score(s[i]) <= score(x)
    ensures Place(x, s, score) == [x] + s
  {
  }

  lemma {:induction false} FilteredFrom<T>(s: seq<T>, keep: T -> bool, i: nat)
    requires i < |Filter(s, keep)|
    ensures Filter(s, keep)[i] in s && keep(Filter(s, keep)[i])
  {
    if keep(s[0]) {
      if i > 0 {
        FilteredFrom(s[1..], keep, i - 1);
      }
    } else {
      FilteredFrom(s[1..], keep, i);
    }
  }

  lemma {:induction false} FilterAfterPlacing<T>(x: T, s: seq<T>, score: T -> int, keep: T -> bool)
    requires SortedBy(s, score)
    ensures Filter(Place(x, s, score), keep)
            == if keep(x) then Place(x, Filter(s, keep), score) else Filter(s, keep)
  {
    if s != [] && score(s[0]) > score(x) {
      FilterAfterPlacing(x, s[1..], score, keep);
      FilterOfCons(s[0], Place(x, s[1..], score), keep);
      if keep(s[0]) {
        assert Filter(s, keep)[1..] == Filter(s[1..], keep);
      }
    } else {
      FilterOfCons(x, s, keep);
      forall i | 0 <= i < |Filter(s, keep)| ensures score(Filter(s, keep)[i]) <= score(x) {
        FilteredFrom(s, keep, i);
      }
      PlaceOnTop(x, Filter(s, keep), score);
    }
  }

  /** Filtering before or after ranking makes no difference. */
  lemma {:induction false} FilteringCommutesWithRanking<T>(s: seq<T>, score: T -> int, keep: T -> bool)
    ensures Filter(Ranked(s, score), keep) == Ranked(Filter(s, keep), score)
  {
    if s != [] {
      var rest := Ranked(s[1..], score);
      FilteringCommutesWithRanking(s[1..], score, keep);
      RankedIsSorted(s[1..], score);
      FilterAfterPlacing(s[0], rest, score, keep);
      if keep(s[0]) {
        assert Filter(s, keep)[1..] == Filter(s[1..], keep);
      }
    }
  }

  lemma {:induction false} EqualScoresKeepOrder(s: seq<Recommendation>, v: int)
    requires forall i :: 0 <= i < |s| ==> s[i].score == v
    ensures Ranked(s, ScoreOf) == s
  {
    if s != [] {
      EqualScoresKeepOrder(s[1..], v);
      PlaceOnTop(s[0], s[1..], ScoreOf);
    }
  }

  lemma RankedIsStable(s: seq<Recommendation>)
    ensures IsStableRanking(Ranked(s, ScoreOf), s)
  {
    RankedIsSorted(s, ScoreOf);
    forall v ensures WithScore(Ranked(s, ScoreOf), v) == WithScore(s, v) {
      FilteringCommutesWithRanking(s, ScoreOf, HasScore(v));
      forall i | 0 <= i < |WithScore(s, v)| ensures WithScore(s, v)[i].score == v {
        FilteredFrom(s, HasScore(v), i);
      }
      EqualScoresKeepOrder(WithScore(s, v), v);
    }
  }

  lemma {:induction false} MembersHaveScores(s: seq<Recommendation>, r: Recommendation)
    ensures r in WithScore(s, r.score) <==> r in s
  {
    if s != [] {
      MembersHaveScores(s[1..], r);
    }
  }

  lemma HeadsAgree(a: seq<Recommendation>, b: seq<Recommendation>)
    requires SortedBy(a, ScoreOf) && SortedBy(b, ScoreOf) && a != [] && forall v :: WithScore(a, v) == WithScore(b, v)
    ensures b != [] && a[0] == b[0]
  {
    MembersHaveScores(a, a[0]);
    MembersHaveScores(b, a[0]);
    assert a[0] in WithScore(b, a[0].score);
    MembersHaveScores(b, b[0]);
    MembersHaveScores(a, b[0]);
    assert b[0] in WithScore(a, b[0].score);
    assert a[0].score == b[0].score;
    assert WithScore(a, a[0].score)[0] == a[0] && WithScore(b, b[0].score)[0] == b[0];
  }

  /** There is only one stable ranking, so a correct sort has no choice left. */
  lemma {:induction false} StableRankingIsUnique(a: seq<Recommendation>, b: seq<Recommendation>)
    requires SortedBy(a, ScoreOf) && SortedBy(b, ScoreOf) && forall v :: WithScore(a, v) == WithScore(b, v)
    ensures a == b
    decreases |a|
  {
    if a == [] {
      if b != [] {
        HeadsAgree(b, a);
      }
    } else {
      HeadsAgree(a, b);
      forall v ensures WithScore(a[1..], v) == WithScore(b[1..], v) {
        var head := if a[0].score == v then [a[0]] else [];
        assert WithScore(a, v) == head + WithScore(a[1..], v) && WithScore(b, v) == head + WithScore(b[1..], v);
        assert WithScore(a, v)[|head|..] == WithScore(a[1..], v) && WithScore(b, v)[|head|..] == WithScore(b[1..], v);
      }
      StableRankingIsUnique(a[1..], b[1..]);
      assert a == [a[0]] + a[1..] && b == [b[0]] + b[1..];
    }
  }

  // ---------- Ranking a part of the profiles ----------

  /** A recommendation that remembers which profile of the list it is for. */
  datatype Rated = Rated(index: nat, recommendation: Recommendation)

  function RatedScore(r: Rated): int {
    r.recommendation.score
  }

  function RateAll(profiles: seq<AgentProfile>, scopes: seq<string>, priority: string): (rs: seq<Rated>)
    ensures |rs| == |profiles|
    ensures forall i :: 0 <= i < |rs| ==> rs[i] == Rated(i, Recommend(profiles[i], scopes, priority))
  {
    seq(|profiles|, i requires 0 <= i < |profiles| => Rated(i, Recommend(profiles[i], scopes, priority)))
  }

  function Recommendations(rs: seq<Rated>): seq<Recommendation> {
    if rs == [] then [] else [rs[0].recommendation] + Recommendations(rs[1..])
  }

  /** The profiles at the chosen positions from `from` on. */
  function ChosenProfiles(profiles: seq<AgentProfile>, keep: set<nat>, from: nat): seq<AgentProfile>
    requires from <= |profiles|
    decreases |profiles| - from
  {
    if from == |profiles| then []
    else (if from in keep then [profiles[from]] else []) + ChosenProfiles(profiles, keep, from + 1)
  }

  function AtPosition(keep: set<nat>): Rated -> bool {
    (r: Rated) => r.index in keep
  }

  lemma {:induction false} PlaceForgetsIndex(x: Rated, s: seq<Rated>)
    ensures Recommendations(Place(x, s, RatedScore)) == Place(x.recommendation, Recommendations(s), ScoreOf)
  {
    if s != [] && RatedScore(s[0]) > RatedScore(x) {
      PlaceForgetsIndex(x, s[1..]);
      assert Recommendations(s)[1..] == Recommendations(s[1..]);
    } else {
      assert ([x] + s)[1..] == s;
    }
  }

  lemma {:induction false} RankingForgetsIndex(s: seq<Rated>)
    ensures Recommendations(Ranked(s, RatedScore)) == Ranked(Recommendations(s), ScoreOf)
  {
    if s != [] {
      RankingForgetsIndex(s[1..]);
      PlaceForgetsIndex(s[0], Ranked(s[1..], RatedScore));
      assert Recommendations(s)[1..] == Recommendations(s[1..]);
    }
  }

  lemma {:induction false} RatingChosenProfiles(profiles: seq<AgentProfile>, scopes: seq<string>, priority: string,
                                                keep: set<nat>, from: nat)
    requires from <= |profiles|
    ensures RecommendAll(ChosenProfiles(profiles, keep, from), scopes, priority)
            == Recommendations(Filter(RateAll(profiles, scopes, priority)[from..], AtPosition(keep)))
    decreases |profiles| - from
  {
    hide Recommend;
    var rated := RateAll(profiles, scopes, priority);
    if from < |profiles| {
      var rest := ChosenProfiles(profiles, keep, from + 1);
      RatingChosenProfiles(profiles, scopes, priority, keep, from + 1);
      assert rated[from..] == [rated[from]] + rated[from + 1..];
      FilterOfCons(rated[from], rated[from + 1..], AtPosition(keep));
      if from in keep {
        RecommendingOneMore(profiles[from], rest, scopes, priority);
        ForgettingOneMore(rated[from], Filter(rated[from + 1..], AtPosition(keep)));
      } else {
        assert [] + rest == rest;
      }
    }
  }

  lemma RecommendingOneMore(p: AgentProfile, rest: seq<AgentProfile>, scopes: seq<string>, priority: string)
    ensures RecommendAll([p] + rest, scopes, priority)
            == [Recommend(p, scopes, priority)] + RecommendAll(rest, scopes, priority)
  {
    hide Recommend;
  }

  lemma ForgettingOneMore(r: Rated, rest: seq<Rated>)
    ensures Recommendations([r] + rest) == [r.recommendation] + Recommendations(rest)
  {
    assert ([r] + rest)[1..] == rest;
  }

  /**
   Recommending over any part of the profiles gives exactly that part of the full recommendation:
   what else is on the list never changes how two profiles rank.
   */
  lemma RankingCommutesWithSelection(profiles: seq<AgentProfile>, scopes: seq<string>, priority: string, keep: set<nat>)
    ensures var all := Ranked(RateAll(profiles, scopes, priority), RatedScore);
            && Ranked(RecommendAll(profiles, scopes, priority), ScoreOf) == Recommendations(all)
            && Ranked(RecommendAll(ChosenProfiles(profiles, keep, 0), scopes, priority), ScoreOf)
               == Recommendations(Filter(all, AtPosition(keep)))
  {
    hide Recommend;
    var rated := RateAll(profiles, scopes, priority);
    RatingChosenProfiles(profiles, scopes, priority, keep, 0);
    assert rated[0..] == rated;
    FilteringCommutesWithRanking(rated, RatedScore, AtPosition(keep));
    RankingForgetsIndex(Filter(rated, AtPosition(keep)));
    RankingForgetsIndex(rated);
    RecommendationsAt(rated);
    assert Recommendations(rated) == RecommendAll(profiles, scopes, priority);
  }

  lemma {:induction false} RecommendationsAt(rs: seq<Rated>)
    ensures |Recommendations(rs)| == |rs|
    ensures forall i :: 0 <= i < |rs| ==> Recommendations(rs)[i] == rs[i].recommendation
  {
    if rs != [] {
      RecommendationsAt(rs[1..]);
    }
  }
}
