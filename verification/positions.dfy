/** Reading one session's `/v1/position` response and resolving each
    driver's final classification in it (src/app/standings/page.tsx,
    `getStandings`, the per-session loop body). */
module PositionFeed {
  import opened Wrappers
  import opened OpenF1
  import Lists

  /** The records of a property value. `None` stands for a value that is
      not a list: it passes through `?? []`, and the `forEach` called on it
      afterwards throws, which ends the whole computation in the `catch`. */
  function FieldRecords(f: PositionsField): Option<seq<Position>> {
    match f
    case Records(rs) => Some(rs)
    case NotAList => None
    case Missing => Some([])
  }

  /** `Array.isArray(json) ? json : json?.positions ?? json?.data ?? []`. */
  function Decode(body: PositionsBody): (r: Option<seq<Position>>)
    ensures body.ArrayBody? ==> r == Some(body.records)
    ensures body.ObjectBody? && body.positions.Records? ==> r == Some(body.positions.records)
    ensures body.ObjectBody? && body.positions.Missing? && body.data.Records? ==>
              r == Some(body.data.records)
    ensures body.ObjectBody? && body.positions.Missing? && body.data.Missing? ==> r == Some([])
    ensures body.ScalarBody? ==> r == Some([])
    ensures r.None? <==>
              body.ObjectBody? &&
              (body.positions.NotAList? || (body.positions.Missing? && body.data.NotAList?))
  {
    match body
    case ArrayBody(rs) => Some(rs)
    case ObjectBody(positions, data) =>
      if !positions.Missing? then FieldRecords(positions) else FieldRecords(data)
    case ScalarBody => Some([])
  }

  /** The numbers of the drivers that have a record among the first `n`. */
  ghost function DriversIn(data: seq<Position>, n: nat): set<int>
    requires n <= |data|
  {
    set i | 0 <= i < n :: data[i].driverNumber
  }

  /** The drivers among the first `n` records are those among the first
      `n - 1` and the driver of record `n - 1`. */
  lemma DriversInSnoc(data: seq<Position>, n: nat)
    requires 0 < n <= |data|
    ensures DriversIn(data, n) == DriversIn(data, n - 1) + {data[n - 1].driverNumber}
  {
    forall d | d in DriversIn(data, n) ensures d in DriversIn(data, n - 1) + {data[n - 1].driverNumber} {
      var i :| 0 <= i < n && data[i].driverNumber == d;
      if i < n - 1 {
        assert d in DriversIn(data, n - 1);
      }
    }
  }

  /** One `forEach` step over record `pos`, with `data` the whole array and
      `held` the map built so far. The held position is replaced when there
      is none yet, when it is 0 (falsy), or when `pos` is strictly later than
      the FIRST record of the array that belongs to the driver and carries
      the held position; when there is no such record the date compared
      against is 0. */
  function ResolveStep(data: seq<Position>, held: map<int, int>, pos: Position): (r: map<int, int>)
    ensures r.Keys == held.Keys + {pos.driverNumber}
    ensures forall k :: k in held && k != pos.driverNumber ==> r[k] == held[k]
    ensures pos.driverNumber !in held || held[pos.driverNumber] == 0 ==> r[pos.driverNumber] == pos.position
    ensures var d := pos.driverNumber; r[d] == pos.position || (d in held && r[d] == held[d])
  {
    var d := pos.driverNumber;
    var mostRecent :=
      Lists.Find(data, (p: Position) => p.driverNumber == d && d in held && held[d] == p.position);
    var mostRecentDate := if mostRecent.Some? then mostRecent.value.date else 0;
    if d !in held || held[d] == 0 || pos.date > mostRecentDate then held[d := pos.position]
    else held
  }

  /** The map after the first `n` steps of the `forEach`. */
  function Resolve(data: seq<Position>, n: nat): (r: map<int, int>)
    requires n <= |data|
    ensures r.Keys == DriversIn(data, n)
    ensures forall d :: d in r ==>
              exists i :: 0 <= i < n && data[i].driverNumber == d && data[i].position == r[d]
  {
    if n == 0 then map[]
    else
      var held := Resolve(data, n - 1);
      var pos := data[n - 1];
      DriversInSnoc(data, n);
      var r := ResolveStep(data, held, pos);
      StepFromRecords(data, n, held, r);
      r
  }

  /** A step that keeps every other entry and gives the record's driver the
      record's position or the one held before still takes every position
      from a record of its driver. */
  lemma StepFromRecords(data: seq<Position>, n: nat, held: map<int, int>, r: map<int, int>)
    requires 0 < n <= |data|
    requires forall d :: d in held ==>
               exists i :: 0 <= i < n - 1 && data[i].driverNumber == d && data[i].position == held[d]
    requires r.Keys == held.Keys + {data[n - 1].driverNumber}
    requires forall k :: k in held && k != data[n - 1].driverNumber ==> r[k] == held[k]
    requires var d := data[n - 1].driverNumber; r[d] == data[n - 1].position || (d in held && r[d] == held[d])
    ensures forall d :: d in r ==>
              exists i :: 0 <= i < n && data[i].driverNumber == d && data[i].position == r[d]
  {
    forall d | d in r
      ensures exists i :: 0 <= i < n && data[i].driverNumber == d && data[i].position == r[d]
    {
      if d == data[n - 1].driverNumber && r[d] == data[n - 1].position {
        assert data[n - 1].driverNumber == d;
      } else {
        var i :| 0 <= i < n - 1 && data[i].driverNumber == d && data[i].position == held[d];
        assert data[i].position == r[d];
      }
    }
  }

  /** `finalPositions` after the `forEach`: one final position for every
      driver that has a record, taken from one of that driver's records. */
  function FinalPositions(data: seq<Position>): (r: map<int, int>)
    ensures forall i :: 0 <= i < |data| ==> data[i].driverNumber in r
    ensures forall d :: d in r ==>
              exists i :: 0 <= i < |data| && data[i].driverNumber == d && data[i].position == r[d]
  {
    var r := Resolve(data, |data|);
    assert forall i :: 0 <= i < |data| ==> data[i].driverNumber in DriversIn(data, |data|);
    r
  }

  /** A driver's first record always sets the driver's position. */
  lemma FirstRecordSets(data: seq<Position>, i: nat)
    requires i < |data|
    requires forall j :: 0 <= j < i ==> data[j].driverNumber != data[i].driverNumber
    ensures Resolve(data, i + 1)[data[i].driverNumber] == data[i].position
  {
    assert data[i].driverNumber !in DriversIn(data, i);
  }

  /** Index of the last record of driver `d` among the first `n`, or -1. */
  function LastIndex(data: seq<Position>, d: int, n: nat): (k: int)
    requires n <= |data|
    ensures -1 <= k < n
    ensures k >= 0 ==> data[k].driverNumber == d
    ensures forall j :: k < j < n ==> data[j].driverNumber != d
  {
    if n == 0 then -1
    else if data[n - 1].driverNumber == d then n - 1
    else LastIndex(data, d, n - 1)
  }

  /** Driver `d`'s records carry strictly increasing timestamps in array order. */
  ghost predicate DatesIncreasing(data: seq<Position>, d: int) {
    forall i, j :: 0 <= i < j < |data| && data[i].driverNumber == d && data[j].driverNumber == d ==>
      data[i].date < data[j].date
  }

  /** A step for another driver leaves `d`'s entry alone. */
  lemma StepKeepsOthers(data: seq<Position>, held: map<int, int>, pos: Position, d: int)
    requires pos.driverNumber != d
    ensures d in ResolveStep(data, held, pos) <==> d in held
    ensures d in held ==> ResolveStep(data, held, pos)[d] == held[d]
  {
  }

  /** A step whose record is later than every earlier record of its driver
      replaces that driver's held position. */
  lemma StepTakesLater(data: seq<Position>, held: map<int, int>, pos: Position, k: nat)
    requires k < |data|
    requires data[k].driverNumber == pos.driverNumber
    requires pos.driverNumber in held && held[pos.driverNumber] == data[k].position
    requires forall j :: 0 <= j <= k && data[j].driverNumber == pos.driverNumber ==>
               data[j].date < pos.date
    ensures ResolveStep(data, held, pos) == held[pos.driverNumber := pos.position]
  {
    var d := pos.driverNumber;
    var p := (q: Position) => q.driverNumber == d && d in held && held[d] == q.position;
    assert p(data[k]);
    var found := Lists.Find(data, p);
    var i :| 0 <= i < |data| && data[i] == found.value && p(data[i])
             && forall j :: 0 <= j < i ==> !p(data[j]);
    assert i <= k;
  }

  /** A driver holding a non-zero position keeps it when the step's record
      is not later than the first record of the array that belongs to the
      driver and carries that position, even when the record is the
      driver's latest. */
  lemma StepKeepsHeld(data: seq<Position>, held: map<int, int>, pos: Position, f: nat)
    requires f < |data|
    requires pos.driverNumber in held && held[pos.driverNumber] != 0
    requires data[f].driverNumber == pos.driverNumber && data[f].position == held[pos.driverNumber]
    requires forall j :: 0 <= j < f ==>
               !(data[j].driverNumber == pos.driverNumber && data[j].position == held[pos.driverNumber])
    requires pos.date <= data[f].date
    ensures ResolveStep(data, held, pos) == held
  {
    var d := pos.driverNumber;
    var p := (q: Position) => q.driverNumber == d && d in held && held[d] == q.position;
    assert p(data[f]);
    var found := Lists.Find(data, p);
    var i :| 0 <= i < |data| && data[i] == found.value && p(data[i])
             && forall j :: 0 <= j < i ==> !p(data[j]);
    assert i == f;
  }

  /** The converse: a step whose record is later than the first record of
      the array that belongs to the driver and carries the held position
      replaces that position. */
  lemma StepReplacesLater(data: seq<Position>, held: map<int, int>, pos: Position, f: nat)
    requires f < |data|
    requires pos.driverNumber in held
    requires data[f].driverNumber == pos.driverNumber && data[f].position == held[pos.driverNumber]
    requires forall j :: 0 <= j < f ==>
               !(data[j].driverNumber == pos.driverNumber && data[j].position == held[pos.driverNumber])
    requires pos.date > data[f].date
    ensures ResolveStep(data, held, pos) == held[pos.driverNumber := pos.position]
  {
    var d := pos.driverNumber;
    var p := (q: Position) => q.driverNumber == d && d in held && held[d] == q.position;
    assert p(data[f]);
    var found := Lists.Find(data, p);
    var i :| 0 <= i < |data| && data[i] == found.value && p(data[i])
             && forall j :: 0 <= j < i ==> !p(data[j]);
    assert i == f;
  }

  /** When no record of the array carries a driver's non-zero held
      position, the step compares against date 0: it replaces the position
      exactly when the record's date is positive. */
  lemma StepNoMatch(data: seq<Position>, held: map<int, int>, pos: Position)
    requires pos.driverNumber in held && held[pos.driverNumber] != 0
    requires forall j :: 0 <= j < |data| ==>
               !(data[j].driverNumber == pos.driverNumber && data[j].position == held[pos.driverNumber])
    ensures ResolveStep(data, held, pos) ==
              if pos.date > 0 then held[pos.driverNumber := pos.position] else held
  {
    var d := pos.driverNumber;
    var p := (q: Position) => q.driverNumber == d && d in held && held[d] == q.position;
    assert forall j :: 0 <= j < |data| ==> !p(data[j]);
  }

  /** The step for record `n` leaves every other driver's entry alone. */
  lemma ResolveKeepsOthers(data: seq<Position>, n: nat, d: int)
    requires n < |data|
    requires data[n].driverNumber != d
    requires d in Resolve(data, n)
    ensures d in Resolve(data, n + 1) && Resolve(data, n + 1)[d] == Resolve(data, n)[d]
  {
    StepKeepsOthers(data, Resolve(data, n), data[n], d);
  }

  /** The step for record `n` sets its driver's position when the driver
      holds none yet or holds 0 (`!current`). */
  lemma ResolveSetsFresh(data: seq<Position>, n: nat)
    requires n < |data|
    requires var d := data[n].driverNumber; d !in Resolve(data, n) || Resolve(data, n)[d] == 0
    ensures Resolve(data, n + 1) == Resolve(data, n)[data[n].driverNumber := data[n].position]
  {
    var held := Resolve(data, n);
    assert Resolve(data, n + 1) == ResolveStep(data, held, data[n]);
  }

  lemma {:induction false} ResolveOrdered(data: seq<Position>, d: int, n: nat)
    requires n <= |data|
    requires DatesIncreasing(data, d)
    requires LastIndex(data, d, n) >= 0
    ensures d in Resolve(data, n)
    ensures Resolve(data, n)[d] == data[LastIndex(data, d, n)].position
  {
    var m := n - 1;
    assert data[m].driverNumber == d ==> LastIndex(data, d, n) == m;
    if data[m].driverNumber != d {
      assert LastIndex(data, d, n) == LastIndex(data, d, m);
      ResolveOrdered(data, d, m);
      ResolveKeepsOthers(data, m, d);
    } else if d in Resolve(data, m) && Resolve(data, m)[d] != 0 {
      var k := LastIndex(data, d, m);
      assert k >= 0 by {
        assert d in DriversIn(data, m);
      }
      ResolveOrdered(data, d, m);
      forall j | 0 <= j <= k && data[j].driverNumber == d
        ensures data[j].date < data[m].date
      {
        assert j < m;
      }
      ResolveTakesLater(data, m, k);
    } else {
      ResolveSetsFresh(data, m);
    }
  }

  /** When a driver's records arrive in strictly increasing timestamp order,
      the driver's final position is the one of the driver's last record. */
  lemma FinalPositionOrdered(data: seq<Position>, d: int)
    requires DatesIncreasing(data, d)
    requires exists i :: 0 <= i < |data| && data[i].driverNumber == d
    ensures LastIndex(data, d, |data|) >= 0
    ensures FinalPositions(data)[d] == data[LastIndex(data, d, |data|)].position
  {
    ResolveOrdered(data, d, |data|);
  }

  /** `StepTakesLater` for the step that extends the first `n` records. */
  lemma ResolveTakesLater(data: seq<Position>, n: nat, k: nat)
    requires k < n < |data|
    requires data[k].driverNumber == data[n].driverNumber
    requires data[n].driverNumber in Resolve(data, n)
    requires Resolve(data, n)[data[n].driverNumber] == data[k].position
    requires forall j :: 0 <= j <= k && data[j].driverNumber == data[n].driverNumber ==>
               data[j].date < data[n].date
    ensures Resolve(data, n + 1) == Resolve(data, n)[data[n].driverNumber := data[n].position]
  {
    StepTakesLater(data, Resolve(data, n), data[n], k);
  }

  /** Out of timestamp order the resolution is not "latest timestamp wins":
      the record dated 10 is the latest, yet the position of the record dated
      7 is kept, because 7 is compared against the first record holding the
      position 3 (dated 1), not against the record dated 10. */
  lemma FinalPositionNotLatestWhenUnordered(data: seq<Position>)
    requires data == [Position(1, 44, 0, 3, 0), Position(5, 44, 0, 4, 0),
                      Position(10, 44, 0, 3, 0), Position(7, 44, 0, 6, 0)]
    ensures data[2].date > data[3].date && data[2].position == 3
    ensures FinalPositions(data)[44] == 6
  {
    var m0: map<int, int> := map[];
    assert Resolve(data, 1) == ResolveStep(data, m0, data[0]) == map[44 := 3];
    ResolveTakesLater(data, 1, 0);
    ResolveTakesLater(data, 2, 1);
    ResolveTakesLater(data, 3, 0);
  }
}
