/** The headshot fallback shared by the standings and drivers pages
    (`driverImageFallbacks`, keyed by full name). */
module Headshots {
  import opened OpenF1

  /** The table both pages ship with. */
  const DefaultFallbacks: map<string, string> :=
    map["Franco Colapinto" :=
          "https://media.formula1.com/image/upload/f_auto,c_limit,w_960,q_auto/content/dam/fom-website/drivers/2024Drivers/colapinto"]

  /** `!driver.headshot_url && driverImageFallbacks[driver.full_name]`: the
      record has no headshot and the table has a non-empty URL for the name
      (an empty table value is falsy in JavaScript). */
  predicate NeedsFallback(d: Driver, table: map<string, string>) {
    d.headshotUrl == "" && d.fullName in table && table[d.fullName] != ""
  }

  /** Fills in the headshot from the table when the record has none. */
  function WithFallback(d: Driver, table: map<string, string>): (r: Driver)
    ensures r == d.(headshotUrl := r.headshotUrl)
    ensures r != d <==> NeedsFallback(d, table)
    ensures r.headshotUrl != "" <==>
              d.headshotUrl != "" || (d.fullName in table && table[d.fullName] != "")
    ensures r.headshotUrl != d.headshotUrl ==> r.headshotUrl == table[d.fullName]
  {
    if NeedsFallback(d, table) then d.(headshotUrl := table[d.fullName]) else d
  }

  /** With the shipped table, a Colapinto record without a headshot gets the
      table's URL, and one that has a headshot keeps it. */
  lemma DefaultFallbackFillsColapinto(d: Driver)
    requires d.fullName == "Franco Colapinto"
    ensures d.headshotUrl == "" ==>
              WithFallback(d, DefaultFallbacks).headshotUrl == DefaultFallbacks["Franco Colapinto"]
    ensures d.headshotUrl != "" ==> WithFallback(d, DefaultFallbacks) == d
  {
  }

  /** The fallback applied to every record of a roster; it never changes a
      driver number. */
  function FallbackAll(drivers: seq<Driver>, table: map<string, string>): (r: seq<Driver>)
    ensures |r| == |drivers|
    ensures forall i :: 0 <= i < |r| ==> r[i] == WithFallback(drivers[i], table)
    ensures forall i :: 0 <= i < |r| ==> r[i].driverNumber == drivers[i].driverNumber
  {
    seq(|drivers|, i requires 0 <= i < |drivers| => WithFallback(drivers[i], table))
  }

  lemma FallbackAllSnoc(drivers: seq<Driver>, x: Driver, table: map<string, string>)
    ensures FallbackAll(drivers + [x], table) == FallbackAll(drivers, table) + [WithFallback(x, table)]
  {
    var a, b := FallbackAll(drivers + [x], table), FallbackAll(drivers, table) + [WithFallback(x, table)];
    assert forall i :: 0 <= i < |drivers| ==> (drivers + [x])[i] == drivers[i];
    assert forall i :: 0 <= i < |a| ==> a[i] == b[i];
  }
}
