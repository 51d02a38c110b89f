/** `getStandings` (src/app/standings/page.tsx): the season's race
    sessions in start order, the roster of the latest one, the points of
    every session, and the ranked table. Fetches are inputs: the sessions
    response, and the drivers and position responses for a session key;
    `None` is a request or JSON parse that throws. */
module Standings {
  import opened Wrappers
  import opened OpenF1
  import Lists
  import Sorting
  import Headshots
  import PositionFeed
  import opened Scoring
  import opened Ranking

  /** The comparator `new Date(a.date_start) - new Date(b.date_start)`. */
  predicate StartsNoLater(a: Session, b: Session) {
    a.dateStart - b.dateStart <= 0
  }

  /** `sessions.sort(...)`: the sessions in ascending start order. */
  function SortSessions(sessions: seq<Session>): (r: seq<Session>)
    ensures |r| == |sessions| && multiset(r) == multiset(sessions)
    ensures forall i, j :: 0 <= i < j < |r| ==> r[i].dateStart <= r[j].dateStart
  {
    assert Sorting.TotalPreorder(StartsNoLater);
    Sorting.SortSorted(sessions, StartsNoLater);
    Sorting.Sort(sessions, StartsNoLater)
  }

  /** `sortedSessions[sortedSessions.length - 1]`: the session the roster is
      read from, none for an empty season. */
  function LatestSession(sessions: seq<Session>): (r: Option<Session>)
    ensures r.Some? <==> |sessions| > 0
    ensures r.Some? ==> r.value in sessions
    ensures r.Some? ==> forall s :: s in sessions ==> s.dateStart <= r.value.dateStart
    ensures r.Some? ==>
              exists k :: 0 <= k < |sessions| && sessions[k] == r.value &&
                forall j :: k < j < |sessions| ==> sessions[j].dateStart < r.value.dateStart
  {
    if |sessions| == 0 then None
    else
      LatestIsMax(sessions);
      LatestIsLastOfTies(sessions);
      Some(SortSessions(sessions)[|sessions| - 1])
  }

  /** The last of the sorted sessions is a session of the response that
      starts no earlier than any other. */
  lemma LatestIsMax(sessions: seq<Session>)
    requires |sessions| > 0
    ensures var last := SortSessions(sessions)[|sessions| - 1];
            && last in sessions
            && forall s :: s in sessions ==> s.dateStart <= last.dateStart
  {
    var sorted := SortSessions(sessions);
    assert sorted[|sorted| - 1] in multiset(sessions);
    assert forall s :: s in sessions ==> s in multiset(sorted);
  }

  /** The stable sort leaves last, of the sessions that start latest, the one
      the response lists last. */
  lemma LatestIsLastOfTies(sessions: seq<Session>)
    requires |sessions| > 0
    ensures var last := SortSessions(sessions)[|sessions| - 1];
            exists k :: 0 <= k < |sessions| && sessions[k] == last &&
              forall j :: k < j < |sessions| ==> sessions[j].dateStart < last.dateStart
  {
    LatestIsMax(sessions);
    SessionsSortLastOfRank(sessions);
    TiesStartEarlier(sessions, SortSessions(sessions)[|sessions| - 1]);
  }

  /** A latest-starting session listed after every other session it ties
      with is followed only by sessions that start earlier. */
  lemma TiesStartEarlier(sessions: seq<Session>, last: Session)
    requires exists k :: 0 <= k < |sessions| && sessions[k] == last &&
               forall j :: k < j < |sessions| ==> !(StartsNoLater(last, sessions[j]) && StartsNoLater(sessions[j], last))
    requires forall s :: s in sessions ==> s.dateStart <= last.dateStart
    ensures exists k :: 0 <= k < |sessions| && sessions[k] == last &&
              forall j :: k < j < |sessions| ==> sessions[j].dateStart < last.dateStart
  {
    var k :| 0 <= k < |sessions| && sessions[k] == last &&
             forall j :: k < j < |sessions| ==> !(StartsNoLater(last, sessions[j]) && StartsNoLater(sessions[j], last));
    LaterTiesStartEarlier(sessions, last, k);
  }

  /** Past the last session of its start, every session starts earlier than
      the latest start. */
  lemma LaterTiesStartEarlier(sessions: seq<Session>, last: Session, k: nat)
    requires k < |sessions|
    requires forall j :: k < j < |sessions| ==> !(StartsNoLater(last, sessions[j]) && StartsNoLater(sessions[j], last))
    requires forall s :: s in sessions ==> s.dateStart <= last.dateStart
    ensures forall j :: k < j < |sessions| ==> sessions[j].dateStart < last.dateStart
  {
    forall j | k < j < |sessions| ensures sessions[j].dateStart < last.dateStart {
      assert sessions[j] in sessions;
    }
  }

  /** `Sorting.SortLastOfRank` for the session comparator. */
  lemma SessionsSortLastOfRank(sessions: seq<Session>)
    requires |sessions| > 0
    ensures var x := Sorting.Sort(sessions, StartsNoLater)[|sessions| - 1];
            exists k :: 0 <= k < |sessions| && sessions[k] == x &&
              forall j :: k < j < |sessions| ==> !(StartsNoLater(x, sessions[j]) && StartsNoLater(sessions[j], x))
  {
    assert Sorting.TotalPreorder(StartsNoLater);
    Sorting.SortLastOfRank(sessions, StartsNoLater);
  }

  /** `uniqueDrivers` with the headshot fallback applied: the first record for
      every driver number, in response order. */
  function Roster(all: seq<Driver>, table: map<string, string>): (r: seq<Driver>)
    ensures |r| <= |all|
    ensures Lists.DistinctKeys(r, DriverNumberOf)
    ensures Lists.KeySet(r, DriverNumberOf) == Lists.KeySet(all, DriverNumberOf)
    ensures forall i :: 0 <= i < |r| ==>
              var k := Lists.FirstIndex(all, DriverNumberOf, r[i].driverNumber);
              k < |all| && r[i] == Headshots.WithFallback(all[k], table)
    ensures Lists.InFirstOrder(r, all, DriverNumberOf)
  {
    var u := Lists.DedupBy(all, DriverNumberOf);
    Lists.DedupByFirsts(all, DriverNumberOf);
    var r := Headshots.FallbackAll(u, table);
    Lists.KeySetSameKeys(r, DriverNumberOf, u, DriverNumberOf);
    Lists.DedupByInFirstOrder(all, DriverNumberOf);
    FallbackKeepsOrder(u, r, all);
    forall i | 0 <= i < |r|
      ensures var k := Lists.FirstIndex(all, DriverNumberOf, r[i].driverNumber);
              k < |all| && r[i] == Headshots.WithFallback(all[k], table)
    {
      assert DriverNumberOf(u[i]) == r[i].driverNumber;
    }
    r
  }

  /** Replacing records by ones with the same driver numbers keeps them in
      first-occurrence order. */
  lemma FallbackKeepsOrder(u: seq<Driver>, r: seq<Driver>, all: seq<Driver>)
    requires Lists.InFirstOrder(u, all, DriverNumberOf)
    requires |r| == |u| && forall i :: 0 <= i < |r| ==> r[i].driverNumber == u[i].driverNumber
    ensures Lists.InFirstOrder(r, all, DriverNumberOf)
  {
    forall i, j | 0 <= i < j < |r|
      ensures Lists.FirstIndex(all, DriverNumberOf, DriverNumberOf(r[i])) < Lists.FirstIndex(all, DriverNumberOf, DriverNumberOf(r[j]))
    {
      assert DriverNumberOf(r[i]) == DriverNumberOf(u[i]) && DriverNumberOf(r[j]) == DriverNumberOf(u[j]);
    }
  }

  /** One session's final positions, or `None` when its request fails or its
      response makes the `forEach` throw. */
  function SessionFinals(session: Session, fetchPositions: int -> Option<PositionsBody>): Option<map<int, int>> {
    match fetchPositions(session.sessionKey)
    case None => None
    case Some(body) =>
      match PositionFeed.Decode(body)
      case None => None
      case Some(records) => Some(PositionFeed.FinalPositions(records))
  }

  /** The final positions of every session in order; `None` as soon as one
      session throws. */
  function CollectFinals(sessions: seq<Session>, fetchPositions: int -> Option<PositionsBody>): (r: Option<seq<map<int, int>>>)
    ensures r.Some? <==> forall i :: 0 <= i < |sessions| ==> SessionFinals(sessions[i], fetchPositions).Some?
    ensures r.Some? ==> |r.value| == |sessions|
    ensures r.Some? ==> forall i :: 0 <= i < |sessions| ==>
              r.value[i] == SessionFinals(sessions[i], fetchPositions).value
  {
    if |sessions| == 0 then Some([])
    else
      match SessionFinals(sessions[0], fetchPositions)
      case None => None
      case Some(f) =>
        match CollectFinals(sessions[1..], fetchPositions)
        case None =>
          assert forall i :: 1 <= i < |sessions| ==> sessions[i] == sessions[1..][i - 1];
          None
        case Some(rest) =>
          assert forall i :: 1 <= i < |sessions| ==> sessions[i] == sessions[1..][i - 1];
          Some([f] + rest)
  }

  /** `driverPoints` before the first session: every roster driver at zero. */
  function ZeroTallies(roster: seq<Driver>): (r: map<int, Tally>)
    ensures r.Keys == Lists.KeySet(roster, DriverNumberOf)
    ensures forall i :: 0 <= i < |roster| ==> roster[i].driverNumber in r
    ensures forall d :: d in r ==> r[d] == Tally(0, 0)
  {
    forall i | 0 <= i < |roster| ensures roster[i].driverNumber in Lists.KeySet(roster, DriverNumberOf) {
      Lists.KeySetHas(roster, DriverNumberOf, i);
    }
    map d | d in Lists.KeySet(roster, DriverNumberOf) :: Tally(0, 0)
  }

  /** What the season needs besides the point table: the roster and the
      final positions of every session in start order, or `None` when a
      step throws (including an empty season, which returns early). */
  function SeasonInputs(
    sessionsResponse: Option<seq<Session>>,
    fetchDrivers: int -> Option<seq<Driver>>,
    fetchPositions: int -> Option<PositionsBody>,
    table: map<string, string>): Option<(seq<Driver>, seq<map<int, int>>)>
  {
    match sessionsResponse
    case None => None
    case Some(sessions) =>
      match LatestSession(sessions)
      case None => None
      case Some(latest) =>
        match fetchDrivers(latest.sessionKey)
        case None => None
        case Some(all) =>
          match CollectFinals(SortSessions(sessions), fetchPositions)
          case None => None
          case Some(finals) => Some((Roster(all, table), finals))
  }

  /** The scoring loop and the ranking for a fetched season: one row per
      roster driver, numbered 1..N in ranking order, whose points and wins
      are what that driver earned over the sessions (a sum of table entries
      for places 1..10, and one win per session finished first). */
  function SeasonTable(roster: seq<Driver>, finals: seq<map<int, int>>): (r: seq<Standing>)
    ensures |r| == |roster|
    ensures forall i :: 0 <= i < |r| ==> r[i].position == i + 1
    ensures forall i, j :: 0 <= i < j < |r| ==> RanksAhead(r[i], r[j])
    ensures forall i :: 0 <= i < |roster| ==> exists j :: 0 <= j < |r| && r[j].driver == roster[i]
    ensures forall j :: 0 <= j < |r| ==>
              r[j].points == Earned(finals, r[j].driver.driverNumber).points &&
              r[j].wins == Earned(finals, r[j].driver.driverNumber).wins
  {
    var zero := ZeroTallies(roster);
    var tallies := Accumulate(zero, finals);
    var r := Rank(roster, tallies);
    RankCoversRoster(roster, tallies);
    forall j | 0 <= j < |r|
      ensures r[j].points == Earned(finals, r[j].driver.driverNumber).points
      ensures r[j].wins == Earned(finals, r[j].driver.driverNumber).wins
    {
      AccumulateExact(zero, finals, r[j].driver.driverNumber);
    }
    r
  }

  /** `getStandings`: the empty table when the season is empty or a step
      throws, otherwise the season table of the latest session's roster. */
  function GetStandings(
    sessionsResponse: Option<seq<Session>>,
    fetchDrivers: int -> Option<seq<Driver>>,
    fetchPositions: int -> Option<PositionsBody>,
    table: map<string, string>): (r: seq<Standing>)
    ensures sessionsResponse.None? || sessionsResponse == Some([]) ==> r == []
    ensures forall i :: 0 <= i < |r| ==> r[i].position == i + 1
    ensures forall i, j :: 0 <= i < j < |r| ==> RanksAhead(r[i], r[j])
  {
    match SeasonInputs(sessionsResponse, fetchDrivers, fetchPositions, table)
    case None => []
    case Some(inputs) => SeasonTable(inputs.0, inputs.1)
  }

  /** `getStandings` on a non-empty season returns the empty table when the
      roster request or any session's positions throw. */
  lemma GetStandingsThrows(
    sessions: seq<Session>,
    fetchDrivers: int -> Option<seq<Driver>>,
    fetchPositions: int -> Option<PositionsBody>,
    table: map<string, string>)
    requires |sessions| > 0
    ensures var latest := LatestSession(sessions).value;
            var sorted := SortSessions(sessions);
            fetchDrivers(latest.sessionKey).None? ||
            (exists i :: 0 <= i < |sorted| && SessionFinals(sorted[i], fetchPositions).None?)
            ==> GetStandings(Some(sessions), fetchDrivers, fetchPositions, table) == []
  {
    var sorted := SortSessions(sessions);
    if fetchDrivers(LatestSession(sessions).value.sessionKey).Some? &&
       exists i :: 0 <= i < |sorted| && SessionFinals(sorted[i], fetchPositions).None? {
      assert CollectFinals(sorted, fetchPositions).None?;
    }
  }

  /** `getStandings` on a non-empty season whose requests all succeed: one
      row for every driver of the latest session's roster, each with the
      points and wins earned over all sessions in start order. */
  lemma GetStandingsSeason(
    sessions: seq<Session>,
    fetchDrivers: int -> Option<seq<Driver>>,
    fetchPositions: int -> Option<PositionsBody>,
    table: map<string, string>)
    requires |sessions| > 0
    requires fetchDrivers(LatestSession(sessions).value.sessionKey).Some?
    requires forall i :: 0 <= i < |sessions| ==>
               SessionFinals(SortSessions(sessions)[i], fetchPositions).Some?
    ensures var r := GetStandings(Some(sessions), fetchDrivers, fetchPositions, table);
            var roster := Roster(fetchDrivers(LatestSession(sessions).value.sessionKey).value, table);
            var finals := CollectFinals(SortSessions(sessions), fetchPositions).value;
            && |finals| == |sessions|
            && |r| == |roster|
            && (forall i :: 0 <= i < |roster| ==> exists j :: 0 <= j < |r| && r[j].driver == roster[i])
            && forall j :: 0 <= j < |r| ==>
                 r[j].points == Earned(finals, r[j].driver.driverNumber).points &&
                 r[j].wins == Earned(finals, r[j].driver.driverNumber).wins
  {
    var all := fetchDrivers(LatestSession(sessions).value.sessionKey).value;
    var finals := CollectFinals(SortSessions(sessions), fetchPositions).value;
    assert SeasonInputs(Some(sessions), fetchDrivers, fetchPositions, table) == Some((Roster(all, table), finals));
  }
}
