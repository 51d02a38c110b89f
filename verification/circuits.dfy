/** The circuits page (src/app/circuits/page.tsx): `getMeetings` keeps the
    first meeting of every circuit and sorts them by start, and the page
    shows six of them or all of them behind a toggle. */
module Circuits {
  import opened Wrappers
  import opened OpenF1
  import Lists
  import Sorting

  /** The comparator `new Date(a.date_start) - new Date(b.date_start)`. */
  predicate StartsNoLater(a: Meeting, b: Meeting) {
    a.dateStart - b.dateStart <= 0
  }

  /** `getMeetings`: empty when the request, the JSON parse or the `reduce`
      throws (`None`); otherwise one meeting per circuit key, the first the
      response lists, in ascending start order, meetings that start together
      keeping their response order. */
  function GetMeetings(response: Option<seq<Meeting>>): (r: seq<Meeting>)
    ensures response.None? ==> r == []
    ensures forall i, j :: 0 <= i < j < |r| ==> r[i].dateStart <= r[j].dateStart
    ensures response.Some? ==>
              && |r| <= |response.value|
              && Lists.DistinctKeys(r, CircuitKeyOf)
              && Lists.KeySet(r, CircuitKeyOf) == Lists.KeySet(response.value, CircuitKeyOf)
              && forall i :: 0 <= i < |r| ==>
                   var k := Lists.FirstIndex(response.value, CircuitKeyOf, r[i].circuitKey);
                   k < |response.value| && r[i] == response.value[k]
  {
    match response
    case None => []
    case Some(meetings) =>
      SortedFirsts(meetings);
      Sorting.Sort(Lists.DedupBy(meetings, CircuitKeyOf), StartsNoLater)
  }

  /** The sorted deduplicated meetings are in start order and hold exactly
      the first meeting of every circuit of the response. */
  lemma SortedFirsts(meetings: seq<Meeting>)
    ensures var r := Sorting.Sort(Lists.DedupBy(meetings, CircuitKeyOf), StartsNoLater);
            && (forall i, j :: 0 <= i < j < |r| ==> r[i].dateStart <= r[j].dateStart)
            && |r| <= |meetings|
            && Lists.DistinctKeys(r, CircuitKeyOf)
            && Lists.KeySet(r, CircuitKeyOf) == Lists.KeySet(meetings, CircuitKeyOf)
            && forall i :: 0 <= i < |r| ==>
                 var k := Lists.FirstIndex(meetings, CircuitKeyOf, r[i].circuitKey);
                 k < |meetings| && r[i] == meetings[k]
  {
    var u := Lists.DedupBy(meetings, CircuitKeyOf);
    var r := Sorting.Sort(u, StartsNoLater);
    Lists.DedupByFirsts(meetings, CircuitKeyOf);
    SortAscending(u);
    Sorting.SortKeepsKeySet(u, StartsNoLater, CircuitKeyOf);
    Sorting.SortKeepsDistinct(u, StartsNoLater, CircuitKeyOf);
    SortKeepsFirsts(meetings);
  }

  /** Every sorted meeting is still the first meeting of its circuit. */
  lemma SortKeepsFirsts(meetings: seq<Meeting>)
    requires Lists.AtFirsts(Lists.DedupBy(meetings, CircuitKeyOf), meetings, CircuitKeyOf)
    ensures var r := Sorting.Sort(Lists.DedupBy(meetings, CircuitKeyOf), StartsNoLater);
            forall i :: 0 <= i < |r| ==>
              var k := Lists.FirstIndex(meetings, CircuitKeyOf, r[i].circuitKey);
              k < |meetings| && r[i] == meetings[k]
  {
    var u := Lists.DedupBy(meetings, CircuitKeyOf);
    var r := Sorting.Sort(u, StartsNoLater);
    forall i | 0 <= i < |r|
      ensures var k := Lists.FirstIndex(meetings, CircuitKeyOf, r[i].circuitKey);
              k < |meetings| && r[i] == meetings[k]
    {
      assert r[i] in multiset(u);
      var m :| 0 <= m < |u| && u[m] == r[i];
    }
  }

  /** Sorting by the comparator puts the starts in ascending order. */
  lemma SortAscending(meetings: seq<Meeting>)
    ensures var r := Sorting.Sort(meetings, StartsNoLater);
            forall i, j :: 0 <= i < j < |r| ==> r[i].dateStart <= r[j].dateStart
  {
    var r := Sorting.Sort(meetings, StartsNoLater);
    assert Sorting.TotalPreorder(StartsNoLater);
    Sorting.SortSorted(meetings, StartsNoLater);
    forall i, j | 0 <= i < j < |r| ensures r[i].dateStart <= r[j].dateStart {
      assert StartsNoLater(r[i], r[j]);
    }
  }

  /** Meetings with the same start appear in the order the deduplicated
      response lists them. */
  lemma GetMeetingsStable(meetings: seq<Meeting>, x: Meeting)
    ensures var r := GetMeetings(Some(meetings));
            Sorting.SameRank(r, x, StartsNoLater)
              == Sorting.SameRank(Lists.DedupBy(meetings, CircuitKeyOf), x, StartsNoLater)
  {
    assert Sorting.TotalPreorder(StartsNoLater);
    Sorting.SortStable(Lists.DedupBy(meetings, CircuitKeyOf), x, StartsNoLater);
  }

  /** How many meetings the collapsed page shows. */
  const CollapsedCount: nat := 6

  /** `showAll ? meetings : meetings.slice(0, 6)`. */
  function Displayed(meetings: seq<Meeting>, showAll: bool): (r: seq<Meeting>)
    ensures |r| <= |meetings| && r == meetings[..|r|]
    ensures showAll ==> |r| == |meetings|
    ensures !showAll ==> |r| == if |meetings| <= CollapsedCount then |meetings| else CollapsedCount
  {
    if showAll || |meetings| <= CollapsedCount then meetings else meetings[..CollapsedCount]
  }

  /** The toggle's caption: "show fewer", or "show all (N circuits)". */
  datatype ButtonLabel = ShowFewer | ShowAllOf(count: nat)

  /** What the page renders: the loading text, the "no circuits" text, or
      the grid of meeting cards with the toggle when there are more than six
      meetings. */
  datatype View =
    | Loading
    | NoCircuits
    | Grid(cards: seq<Meeting>, toggle: Option<ButtonLabel>)

  /** The page's render for its three state variables. */
  function Render(loading: bool, meetings: seq<Meeting>, showAll: bool): (v: View)
    ensures v.Loading? <==> loading
    ensures v.NoCircuits? <==> !loading && |meetings| == 0
    ensures v.Grid? ==> 0 < |v.cards| <= |meetings| && v.cards == meetings[..|v.cards|]
    ensures v.Grid? ==> v.cards == Displayed(meetings, showAll)
    ensures v.Grid? ==> (v.toggle.Some? <==> |meetings| > CollapsedCount)
    ensures v.Grid? && v.toggle.Some? ==> (v.toggle.value.ShowFewer? <==> showAll)
  {
    if loading then Loading
    else if |meetings| == 0 then NoCircuits
    else
      var caption := if showAll then ShowFewer else ShowAllOf(|meetings|);
      Grid(Displayed(meetings, showAll), if |meetings| > CollapsedCount then Some(caption) else None)
  }

  /** The toggle is offered exactly when flipping `showAll` changes the
      cards. */
  lemma {:induction false} ToggleChangesCards(meetings: seq<Meeting>, showAll: bool)
    requires |meetings| > 0
    ensures Render(false, meetings, showAll).toggle.Some? <==>
              Render(false, meetings, !showAll).cards != Render(false, meetings, showAll).cards
  {
    var a, b := Displayed(meetings, showAll), Displayed(meetings, !showAll);
    if |meetings| > CollapsedCount {
      assert |a| != |b|;
    }
  }

  /** The count on the "show all" caption is the total number of cards shown
      after the click, and the collapsed cards are the first of those. */
  lemma ShowAllCountIsNextView(meetings: seq<Meeting>)
    requires |meetings| > CollapsedCount
    ensures var v := Render(false, meetings, false);
            var w := Render(false, meetings, true);
            && v.toggle == Some(ShowAllOf(|w.cards|))
            && |v.cards| == CollapsedCount
            && v.cards == w.cards[..CollapsedCount]
            && w.toggle == Some(ShowFewer)
  {
  }
}
