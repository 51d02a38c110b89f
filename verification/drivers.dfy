/** `getDrivers` (src/app/drivers/page.tsx): the roster of the last session
    in response order, one record per driver number with the headshot
    fallback, sorted by number. */
module DriverList {
  import opened Wrappers
  import opened OpenF1
  import Lists
  import Sorting
  import Headshots
  import Standings

  /** One step of this page's `reduce`: the fallback is applied to a record
      only when it is kept. */
  function KeepWithFallback(acc: seq<Driver>, current: Driver, table: map<string, string>): seq<Driver> {
    if !Lists.HasKey(acc, DriverNumberOf, current.driverNumber) then
      acc + [Headshots.WithFallback(current, table)]
    else acc
  }

  /** `uniqueDrivers` of this page. */
  function DedupWithFallback(drivers: seq<Driver>, table: map<string, string>): seq<Driver> {
    if |drivers| == 0 then []
    else KeepWithFallback(DedupWithFallback(drivers[..|drivers| - 1], table), drivers[|drivers| - 1], table)
  }

  /** Applying the fallback while deduplicating, as this page does, gives
      the same records as deduplicating first and then applying it to the
      kept records, as the standings page does. */
  lemma {:induction false} DedupWithFallbackIsDedupThenFallback(drivers: seq<Driver>, table: map<string, string>)
    ensures DedupWithFallback(drivers, table) == Headshots.FallbackAll(Lists.DedupBy(drivers, DriverNumberOf), table)
  {
    if |drivers| > 0 {
      var p, x := drivers[..|drivers| - 1], drivers[|drivers| - 1];
      DedupWithFallbackIsDedupThenFallback(p, table);
      var acc := Lists.DedupBy(p, DriverNumberOf);
      var accF := Headshots.FallbackAll(acc, table);
      assert DedupWithFallback(drivers, table) == KeepWithFallback(accF, x, table);
      assert Lists.DedupBy(drivers, DriverNumberOf) == Lists.Keep(acc, x, DriverNumberOf);
      Lists.HasKeySameKeys(accF, DriverNumberOf, acc, DriverNumberOf, x.driverNumber);
      if !Lists.HasKey(acc, DriverNumberOf, x.driverNumber) {
        Headshots.FallbackAllSnoc(acc, x, table);
      }
    }
  }

  /** The comparator `a.driver_number - b.driver_number`. */
  predicate NumberNoGreater(a: Driver, b: Driver) {
    a.driverNumber - b.driverNumber <= 0
  }

  /** This page's `uniqueDrivers`: distinct numbers, every number of the
      response, and for each number the first record of the response with
      the fallback applied. */
  lemma DedupWithFallbackFirsts(drivers: seq<Driver>, table: map<string, string>)
    ensures var unique := DedupWithFallback(drivers, table);
            && |unique| <= |drivers|
            && Lists.DistinctKeys(unique, DriverNumberOf)
            && Lists.KeySet(unique, DriverNumberOf) == Lists.KeySet(drivers, DriverNumberOf)
            && forall m :: 0 <= m < |unique| ==>
                 var k := Lists.FirstIndex(drivers, DriverNumberOf, unique[m].driverNumber);
                 k < |drivers| && unique[m] == Headshots.WithFallback(drivers[k], table)
    ensures Lists.InFirstOrder(DedupWithFallback(drivers, table), drivers, DriverNumberOf)
  {
    DedupWithFallbackIsDedupThenFallback(drivers, table);
    assert DedupWithFallback(drivers, table) == Standings.Roster(drivers, table);
  }

  /** `getDrivers`: empty when a request throws or the season has no
      session; otherwise the roster of the LAST session of the response (no
      sorting of sessions), in strictly ascending driver number, holding for
      every driver number of that roster the first record with the fallback
      applied. */
  function GetDrivers(
    sessionsResponse: Option<seq<Session>>,
    fetchDrivers: int -> Option<seq<Driver>>,
    table: map<string, string>): (r: seq<Driver>)
    ensures sessionsResponse.None? || sessionsResponse == Some([]) ==> r == []
    ensures forall i, j :: 0 <= i < j < |r| ==> r[i].driverNumber < r[j].driverNumber
    ensures sessionsResponse.Some? && |sessionsResponse.value| > 0 ==>
              var latest := sessionsResponse.value[|sessionsResponse.value| - 1];
              match fetchDrivers(latest.sessionKey)
              case None => r == []
              case Some(drivers) =>
                && |r| <= |drivers|
                && Lists.KeySet(r, DriverNumberOf) == Lists.KeySet(drivers, DriverNumberOf)
                && forall i :: 0 <= i < |r| ==>
                     var k := Lists.FirstIndex(drivers, DriverNumberOf, r[i].driverNumber);
                     k < |drivers| && r[i] == Headshots.WithFallback(drivers[k], table)
  {
    match sessionsResponse
    case None => []
    case Some(sessions) =>
      if |sessions| == 0 then []
      else
        match fetchDrivers(sessions[|sessions| - 1].sessionKey)
        case None => []
        case Some(drivers) =>
          var unique := DedupWithFallback(drivers, table);
          SortByNumber(drivers, table);
          Sorting.Sort(unique, NumberNoGreater)
  }

  lemma SortByNumber(drivers: seq<Driver>, table: map<string, string>)
    ensures var r := Sorting.Sort(DedupWithFallback(drivers, table), NumberNoGreater);
            && |r| <= |drivers|
            && (forall i, j :: 0 <= i < j < |r| ==> r[i].driverNumber < r[j].driverNumber)
            && Lists.KeySet(r, DriverNumberOf) == Lists.KeySet(drivers, DriverNumberOf)
            && forall i :: 0 <= i < |r| ==>
                 var k := Lists.FirstIndex(drivers, DriverNumberOf, r[i].driverNumber);
                 k < |drivers| && r[i] == Headshots.WithFallback(drivers[k], table)
  {
    var unique := DedupWithFallback(drivers, table);
    DedupWithFallbackFirsts(drivers, table);
    var r := Sorting.Sort(unique, NumberNoGreater);
    SortAscending(unique);
    Sorting.SortKeepsKeySet(unique, NumberNoGreater, DriverNumberOf);
    SortKeepsFirsts(drivers, unique, table);
  }

  /** Every sorted record is still the first record of its number with the
      fallback applied. */
  lemma SortKeepsFirsts(drivers: seq<Driver>, unique: seq<Driver>, table: map<string, string>)
    requires forall m :: 0 <= m < |unique| ==>
               var k := Lists.FirstIndex(drivers, DriverNumberOf, unique[m].driverNumber);
               k < |drivers| && unique[m] == Headshots.WithFallback(drivers[k], table)
    ensures var r := Sorting.Sort(unique, NumberNoGreater);
            forall i :: 0 <= i < |r| ==>
              var k := Lists.FirstIndex(drivers, DriverNumberOf, r[i].driverNumber);
              k < |drivers| && r[i] == Headshots.WithFallback(drivers[k], table)
  {
    var r := Sorting.Sort(unique, NumberNoGreater);
    forall i | 0 <= i < |r|
      ensures var k := Lists.FirstIndex(drivers, DriverNumberOf, r[i].driverNumber);
              k < |drivers| && r[i] == Headshots.WithFallback(drivers[k], table)
    {
      assert r[i] in multiset(unique);
      var m :| 0 <= m < |unique| && unique[m] == r[i];
    }
  }

  /** Sorting records with distinct numbers by the comparator puts the
      numbers in strictly ascending order. */
  lemma SortAscending(unique: seq<Driver>)
    requires Lists.DistinctKeys(unique, DriverNumberOf)
    ensures var r := Sorting.Sort(unique, NumberNoGreater);
            forall i, j :: 0 <= i < j < |r| ==> r[i].driverNumber < r[j].driverNumber
  {
    var r := Sorting.Sort(unique, NumberNoGreater);
    assert Sorting.TotalPreorder(NumberNoGreater);
    Sorting.SortSorted(unique, NumberNoGreater);
    Sorting.SortKeepsDistinct(unique, NumberNoGreater, DriverNumberOf);
    forall i, j | 0 <= i < j < |r| ensures r[i].driverNumber < r[j].driverNumber {
      assert NumberNoGreater(r[i], r[j]);
      assert DriverNumberOf(r[i]) != DriverNumberOf(r[j]);
    }
  }
}
