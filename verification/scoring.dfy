/** Awarding championship points from per-session final positions
    (src/app/standings/page.tsx, `pointsSystem`, `driverPoints` and the
    `finalPositions.forEach` that credits them). */
module Scoring {

  /** `pointsSystem`: points for 1st .. 10th place. */
  const PointsTable: seq<nat> := [25, 18, 15, 12, 10, 8, 6, 4, 2, 1]

  /** A driver's running total in `driverPoints`. */
  datatype Tally = Tally(points: nat, wins: nat)

  /** Points a final position is worth: a table entry for 1..10, else nothing. */
  function PointsFor(position: int): (r: nat)
    ensures r <= 25
    ensures r > 0 <==> 1 <= position <= 10
    ensures r == 25 <==> position == 1
  {
    if 1 <= position <= 10 then PointsTable[position - 1] else 0
  }

  /** A better paying position is worth strictly more points. */
  lemma PointsForDecreasing(p: int, q: int)
    requires 1 <= p < q <= 10
    ensures PointsFor(p) > PointsFor(q)
  {
  }

  /** Crediting one roster driver with one session's final position
      (`if (driverData && position >= 1 && position <= 10) ...`). */
  function Credit(t: Tally, position: int): (r: Tally)
    ensures t.points <= r.points <= t.points + 25
    ensures r.points > t.points <==> 1 <= position <= 10
    ensures r.points - t.points == PointsFor(position)
    ensures r.wins == t.wins + (if position == 1 then 1 else 0)
  {
    if 1 <= position && position <= 10 then
      Tally(t.points + PointsTable[position - 1], t.wins + (if position == 1 then 1 else 0))
    else t
  }

  /** One session's `finalPositions.forEach`: every roster driver with a
      final position is credited; drivers outside the roster are ignored.
      The updates touch distinct keys, so their order does not matter. */
  function Award(tallies: map<int, Tally>, finals: map<int, int>): (r: map<int, Tally>)
    ensures r.Keys == tallies.Keys
    ensures forall d :: d in tallies && d !in finals ==> r[d] == tallies[d]
    ensures forall d :: d in tallies && d in finals ==> r[d] == Credit(tallies[d], finals[d])
  {
    map d | d in tallies :: if d in finals then Credit(tallies[d], finals[d]) else tallies[d]
  }

  /** The session loop: `Award` for each session's final positions, in order. */
  function Accumulate(tallies: map<int, Tally>, sessions: seq<map<int, int>>): (r: map<int, Tally>)
    ensures r.Keys == tallies.Keys
  {
    if |sessions| == 0 then tallies
    else Accumulate(Award(tallies, sessions[0]), sessions[1..])
  }

  /** What one driver earns over the sessions, counted for that driver alone:
      the points of every final position, and one win per session won. */
  function Earned(sessions: seq<map<int, int>>, d: int): (e: Tally)
    ensures e.points <= 25 * |sessions|
    ensures e.wins <= |sessions|
    ensures 25 * e.wins <= e.points
    ensures e.points == 0 <==>
              forall i :: 0 <= i < |sessions| ==> d !in sessions[i] || !(1 <= sessions[i][d] <= 10)
    ensures e.wins == 0 <==>
              forall i :: 0 <= i < |sessions| ==> d !in sessions[i] || sessions[i][d] != 1
  {
    if |sessions| == 0 then Tally(0, 0)
    else
      var rest := Earned(sessions[1..], d);
      var p := if d in sessions[0] then sessions[0][d] else 0;
      assert forall i :: 1 <= i < |sessions| ==> sessions[i] == sessions[1..][i - 1];
      Tally(rest.points + PointsFor(p), rest.wins + (if p == 1 then 1 else 0))
  }

  /** The fold is exact: each roster driver ends with the starting tally plus
      what the driver earned session by session. */
  lemma {:induction false} AccumulateExact(tallies: map<int, Tally>, sessions: seq<map<int, int>>, d: int)
    requires d in tallies
    ensures Accumulate(tallies, sessions)[d] ==
              Tally(tallies[d].points + Earned(sessions, d).points,
                    tallies[d].wins + Earned(sessions, d).wins)
  {
    if |sessions| > 0 {
      AccumulateExact(Award(tallies, sessions[0]), sessions[1..], d);
    }
  }

  /** Worked example: 1st then 2nd place is 25 + 18 = 43 points and one win. */
  lemma FirstThenSecond(d: int)
    ensures Earned([map[d := 1], map[d := 2]], d) == Tally(43, 1)
  {
    var s: seq<map<int, int>> := [map[d := 1], map[d := 2]];
    assert s[1..] == [map[d := 2]];
    assert |s[1..][1..]| == 0;
  }
}
