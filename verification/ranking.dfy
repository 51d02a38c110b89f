/** Turning the per-driver totals into the ranked table
    (src/app/standings/page.tsx, the `standings` expression). */
module Ranking {
  import opened OpenF1
  import opened Scoring
  import Sorting

  /** `DriverStanding`. */
  datatype Standing = Standing(driver: Driver, points: nat, wins: nat, position: int)

  /** `a.localeCompare(b)` as plain lexicographic order of characters:
      negative, zero or positive. */
  function CompareNames(a: string, b: string): (c: int)
    ensures -1 <= c <= 1
    ensures c == 0 <==> a == b
  {
    if |a| == 0 && |b| == 0 then 0
    else if |a| == 0 then -1
    else if |b| == 0 then 1
    else if a[0] < b[0] then -1
    else if a[0] > b[0] then 1
    else
      assert a == [a[0]] + a[1..] && b == [b[0]] + b[1..];
      CompareNames(a[1..], b[1..])
  }

  lemma {:induction false} CompareNamesAntisymmetric(a: string, b: string)
    ensures CompareNames(b, a) == -CompareNames(a, b)
  {
    if |a| > 0 && |b| > 0 && a[0] == b[0] {
      CompareNamesAntisymmetric(a[1..], b[1..]);
    }
  }

  lemma {:induction false} CompareNamesTransitive(a: string, b: string, c: string)
    requires CompareNames(a, b) <= 0 && CompareNames(b, c) <= 0
    ensures CompareNames(a, c) <= 0
  {
    if |a| > 0 && |b| > 0 && |c| > 0 && a[0] == b[0] == c[0] {
      CompareNamesTransitive(a[1..], b[1..], c[1..]);
    }
  }

  /** The comparator of the `sort` call: more points first, then more wins,
      then the full name. */
  function CompareStandings(a: Standing, b: Standing): int {
    if b.points != a.points then b.points - a.points
    else if b.wins != a.wins then b.wins - a.wins
    else CompareNames(a.driver.fullName, b.driver.fullName)
  }

  /** `a` may stay ahead of `b`: `CompareStandings(a, b) <= 0`. */
  predicate RanksAhead(a: Standing, b: Standing)
    ensures RanksAhead(a, b) <==>
      a.points > b.points ||
      (a.points == b.points && a.wins > b.wins) ||
      (a.points == b.points && a.wins == b.wins &&
       CompareNames(a.driver.fullName, b.driver.fullName) <= 0)
  {
    CompareStandings(a, b) <= 0
  }

  lemma RanksAheadIsTotalPreorder()
    ensures Sorting.TotalPreorder(RanksAhead)
  {
    forall a, b ensures RanksAhead(a, b) || RanksAhead(b, a) {
      CompareNamesAntisymmetric(a.driver.fullName, b.driver.fullName);
    }
    forall a, b, c | RanksAhead(a, b) && RanksAhead(b, c) ensures RanksAhead(a, c) {
      if a.points == b.points == c.points && a.wins == b.wins == c.wins {
        CompareNamesTransitive(a.driver.fullName, b.driver.fullName, c.driver.fullName);
      }
    }
  }

  /** `Array.from(driverPoints.entries()).map(...)`: one unranked row per
      roster driver, in roster (insertion) order. */
  function Entries(roster: seq<Driver>, tallies: map<int, Tally>): (r: seq<Standing>)
    requires forall i :: 0 <= i < |roster| ==> roster[i].driverNumber in tallies
    ensures |r| == |roster|
    ensures forall i :: 0 <= i < |r| ==>
              r[i].driver == roster[i] && r[i].position == 0 &&
              r[i].points == tallies[roster[i].driverNumber].points &&
              r[i].wins == tallies[roster[i].driverNumber].wins
  {
    seq(|roster|, i requires 0 <= i < |roster| =>
      Standing(roster[i], tallies[roster[i].driverNumber].points,
               tallies[roster[i].driverNumber].wins, 0))
  }

  /** `.map((standing, index) => ({...standing, position: index + 1}))`. */
  function Number(s: seq<Standing>): (r: seq<Standing>)
    ensures |r| == |s|
    ensures forall i :: 0 <= i < |r| ==> r[i].position == i + 1 && r[i] == s[i].(position := i + 1)
  {
    seq(|s|, i requires 0 <= i < |s| => s[i].(position := i + 1))
  }

  /** The rows with their rank blanked out again, as `Entries` built them. */
  function Unranked(s: seq<Standing>): (r: seq<Standing>)
    ensures |r| == |s|
    ensures forall i :: 0 <= i < |r| ==> r[i] == s[i].(position := 0)
  {
    seq(|s|, i requires 0 <= i < |s| => s[i].(position := 0))
  }

  /** The ranked table: a permutation of the roster's rows, ordered by points
      descending, wins descending, name ascending, and numbered 1..N. */
  function Rank(roster: seq<Driver>, tallies: map<int, Tally>): (r: seq<Standing>)
    requires forall i :: 0 <= i < |roster| ==> roster[i].driverNumber in tallies
    ensures |r| == |roster|
    ensures forall i :: 0 <= i < |r| ==> r[i].position == i + 1
    ensures forall i, j :: 0 <= i < j < |r| ==> RanksAhead(r[i], r[j])
    ensures multiset(Unranked(r)) == multiset(Entries(roster, tallies))
    ensures forall i :: 0 <= i < |r| ==>
              r[i].driver.driverNumber in tallies &&
              r[i].points == tallies[r[i].driver.driverNumber].points &&
              r[i].wins == tallies[r[i].driver.driverNumber].wins
  {
    var e := Entries(roster, tallies);
    var sorted := Sorting.Sort(e, RanksAhead);
    RanksAheadIsTotalPreorder();
    Sorting.SortSorted(e, RanksAhead);
    var r := Number(sorted);
    forall i | 0 <= i < |sorted| ensures sorted[i] in e && sorted[i].position == 0 {
      assert sorted[i] in multiset(sorted);
    }
    assert Unranked(r) == sorted;
    r
  }

  /** Every roster driver has a row in the ranked table. */
  lemma RankCoversRoster(roster: seq<Driver>, tallies: map<int, Tally>)
    requires forall i :: 0 <= i < |roster| ==> roster[i].driverNumber in tallies
    ensures forall i :: 0 <= i < |roster| ==>
              exists j :: 0 <= j < |roster| && Rank(roster, tallies)[j].driver == roster[i]
  {
    var r, e := Rank(roster, tallies), Entries(roster, tallies);
    forall i | 0 <= i < |roster| ensures exists j :: 0 <= j < |r| && r[j].driver == roster[i] {
      assert e[i] in multiset(Unranked(r));
      var j :| 0 <= j < |r| && Unranked(r)[j] == e[i];
      assert r[j].driver == roster[i];
    }
  }

  /** Stability: rows that tie on points, wins and name keep roster order. */
  lemma RankStable(roster: seq<Driver>, tallies: map<int, Tally>, x: Standing)
    requires forall i :: 0 <= i < |roster| ==> roster[i].driverNumber in tallies
    ensures Sorting.SameRank(Unranked(Rank(roster, tallies)), x, RanksAhead) ==
            Sorting.SameRank(Entries(roster, tallies), x, RanksAhead)
  {
    var e := Entries(roster, tallies);
    RanksAheadIsTotalPreorder();
    Sorting.SortStable(e, x, RanksAhead);
    var sorted := Sorting.Sort(e, RanksAhead);
    forall i | 0 <= i < |sorted| ensures sorted[i].position == 0 {
      assert sorted[i] in multiset(sorted);
    }
    assert Unranked(Number(sorted)) == sorted;
  }
}
