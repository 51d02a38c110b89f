# F1-Finland data logic in Dafny

This project models the data logic of the F1-Finland site, a Next.js app
that shows the 2025 Formula 1 season from the OpenF1 REST API. The model
covers three page functions and the helpers the pages share:

- `getStandings` (src/app/standings/page.tsx). It sorts the season's race
  sessions by start and takes the roster of the latest one. It keeps the
  first record per driver number and fills in missing headshots from a
  fallback table. For every session it decodes the position response,
  which can have one of three shapes, and resolves each driver's final
  position. It then awards 25-18-15-12-10-8-6-4-2-1 points and counts
  wins. Finally it ranks the drivers by points, then wins, then name, and
  numbers them 1..N.
- `getDrivers` (src/app/drivers/page.tsx). It takes the roster of the last
  session in response order and keeps the first record per number. The
  headshot fallback is applied to kept records only. The result is sorted
  by number.
- `getMeetings` and the show-all toggle (src/app/circuits/page.tsx). It
  keeps the first meeting per circuit and sorts by start. The page shows
  six meetings or all of them.
- `getFlagEmoji`, which both the standings page and the circuits page
  define.

Every network request is an input. The sessions response is an
`Option<seq<Session>>`. The drivers and positions requests are functions
from a session key to an `Option`. `None` stands for a request that
throws (a network error), a body that is not JSON, or a later step that
throws on the body. `fetch` does not throw on an HTTP error status: an
error response with a JSON body is decoded like any other body. The
functions' `catch` blocks turn a throw into the empty list, and the model
returns `[]` there too. Timestamps are integers. A missing (`null` or
`undefined`) headshot URL or country code is the empty string, because
the code only tests those with `!`, which is true for all three. A
missing `full_name` is not modelled (see "Left out").

Modules:

- `Wrappers`: `Option`.
- `OpenF1`: the API records.
- `Lists`: `find` and the "keep the first per key" `reduce`.
- `Sorting`: a stable insertion sort that stands for `Array.prototype.sort`.
- `Headshots`: the headshot fallback.
- `Flags`: `getFlagEmoji`.
- `PositionFeed`: decoding a position response and resolving final positions.
- `Scoring`: points and wins.
- `Ranking`: the ranked table.
- `Standings`, `DriverList`, `Circuits`: the three pages.

Two behaviours of the code are worth stating on their own:

- **Final positions.** A new record replaces a driver's held position
  when it is later than the *first* record in the array that belongs to
  the driver and carries the held position. That record need not be the
  one that set the position (`PositionFeed.StepReplacesLater` and
  `PositionFeed.StepKeepsHeld`). When a driver's records come in timestamp
  order, the final position is that of the driver's latest record
  (`PositionFeed.FinalPositionOrdered`). When they come out of order, the
  final position can come from an older record
  (`PositionFeed.FinalPositionNotLatestWhenUnordered`).
- **Malformed position responses.** The property that is used
  (`positions`, or `data` when `positions` is absent or `null`) reaches
  `forEach` and throws when it is present but not a list. A network error
  or a body that is not JSON in any session's request throws too. The
  `catch` then drops every session, so the whole standings table is
  empty. An HTTP error response whose JSON body is an object with neither
  `positions` nor `data` gives that session no positions.

## Model

| member | source | states |
|---|---|---|
| Lists.FindIndex | src/app/standings/page.tsx:111 | the index found is the first whose element satisfies the predicate; there is none exactly when no element does |
| Lists.Find | src/app/standings/page.tsx:70 | `find` returns the first element that satisfies the predicate, and nothing exactly when no element does |
| Lists.HasKey | src/app/standings/page.tsx:70-71 | the accumulator lookup succeeds exactly when some element already has the key |
| Lists.FirstIndex | src/app/standings/page.tsx:70 | the index of the first element with a key, or the length when the key is absent; no earlier element has the key |
| Lists.DedupByKeepsFirsts | src/app/standings/page.tsx:69-75 | the reduce (`Lists.DedupBy`) keeps exactly the first element for each key, in first-occurrence order; the kept keys are pairwise distinct and are all the input's keys; the result is no longer than the input |
| Lists.DedupByInFirstOrder | src/app/standings/page.tsx:69-75 | the records the reduce keeps appear in the order their keys first occur in the input |
| Lists.KeySetOfPermutation | src/app/drivers/page.tsx:54 | reordering a list does not change the set of its keys |
| Sorting.Sort | src/app/drivers/page.tsx:54 | the sorted list is a permutation of the input |
| Sorting.SortSorted | src/app/circuits/page.tsx:35-37 | with a consistent comparator, every element may precede every later one |
| Sorting.SortStable | src/app/standings/page.tsx:138-142 | elements that compare equal come out in their input order |
| Sorting.SortLastOfRank | src/app/standings/page.tsx:52-61 | the last element of the sorted list is, of the elements that compare equal to it, the one the input lists last |
| Sorting.SortKeepsDistinct | src/app/drivers/page.tsx:54 | sorting a list with distinct keys keeps the keys distinct |
| Headshots.FallbackAll | src/app/standings/page.tsx:82-86 | the fallback `forEach` keeps the list's length and each record's driver number, and replaces each record by its fallback-applied version in place |
| Headshots.DefaultFallbackFillsColapinto | src/app/standings/page.tsx:38-40 | with the shipped table, a "Franco Colapinto" record without a headshot gets the table's URL, and one with a headshot is unchanged |
| Headshots.WithFallback | src/app/standings/page.tsx:84-86 | only the headshot can change, and it changes exactly when it is empty and the table has a non-empty URL for the full name; a new URL comes from the table |
| Flags.FlagEmoji | src/app/standings/page.tsx:264-273 | the chequered flag exactly when the code is not two characters long; otherwise two code points, each 127397 above the upper-cased character |
| Flags.FlagIsIndicatorPairIffLetters | src/app/circuits/page.tsx:53-62 | a two-character code gives two regional indicator symbols exactly when both characters are ASCII letters |
| Flags.FlagEmojiCaseInsensitive | src/app/circuits/page.tsx:53-62 | two codes give the same emoji exactly when neither has length 2, or both do and they agree after upper-casing |
| PositionFeed.Decode | src/app/standings/page.tsx:99-101 | a bare array is used as is; otherwise a present `positions` wins over `data`, and both absent give `[]`; the result throws exactly when the property chosen is present but not a list |
| PositionFeed.ResolveStep | src/app/standings/page.tsx:110-115 | one `forEach` step leaves every other driver's entry as it was and gives the record's driver an entry; that entry is the record's position or the one held before, and it is the record's position when the driver held none or held 0 |
| PositionFeed.Resolve | src/app/standings/page.tsx:108-116 | after the first n records, exactly the drivers among them hold a position, and each position comes from one of that driver's records |
| PositionFeed.FinalPositions | src/app/standings/page.tsx:108-116 | every driver with a record gets a final position, taken from one of that driver's own records |
| PositionFeed.FirstRecordSets | src/app/standings/page.tsx:110-114 | a driver's first record always sets the driver's position |
| PositionFeed.StepTakesLater | src/app/standings/page.tsx:111-114 | a record later than all earlier records of its driver replaces the held position |
| PositionFeed.StepReplacesLater | src/app/standings/page.tsx:111-114 | a record later than the first record of the array with the driver and the held position replaces the held position |
| PositionFeed.StepKeepsHeld | src/app/standings/page.tsx:111-114 | a driver holding a non-zero position keeps it when the record is not later than the first record of the array with that driver and that position |
| PositionFeed.StepNoMatch | src/app/standings/page.tsx:111-114 | when no record of the array carries the driver's non-zero held position, the step replaces it exactly when the record's date is positive |
| PositionFeed.ResolveOrdered | src/app/standings/page.tsx:108-116 | when a driver's timestamps increase along the array, the held position after n records is the one of the driver's last record among them |
| PositionFeed.FinalPositionOrdered | src/app/standings/page.tsx:108-116 | with increasing timestamps, the final position is that of the driver's last record |
| PositionFeed.FinalPositionNotLatestWhenUnordered | src/app/standings/page.tsx:111-113 | out of timestamp order, the final position can come from a record older than the latest one |
| Scoring.PointsFor | src/app/standings/page.tsx:78 | a position is worth at most 25 points; it is worth something exactly for places 1..10, and 25 exactly for 1st |
| Scoring.PointsForDecreasing | src/app/standings/page.tsx:78 | a better place in 1..10 is worth strictly more |
| Scoring.Credit | src/app/standings/page.tsx:121-125 | one session adds at most 25 points, and adds some exactly for places 1..10; it adds a win exactly for 1st |
| Scoring.Award | src/app/standings/page.tsx:119-127 | only roster drivers are credited; roster drivers without a final position are unchanged |
| Scoring.Earned | src/app/standings/page.tsx:119-127 | over n sessions, a driver earns at most 25n points and n wins, at least 25 points per win; no points exactly when the driver never places 1..10, and no wins exactly when the driver never places 1st |
| Scoring.Accumulate | src/app/standings/page.tsx:91-127 | the session loop neither adds nor drops a driver |
| Scoring.AccumulateExact | src/app/standings/page.tsx:91-127 | the session loop (`Scoring.Accumulate`) leaves every roster driver with the starting tally plus what the driver earned session by session |
| Scoring.FirstThenSecond | src/app/standings/page.tsx:121-125 | 1st then 2nd place is 43 points and one win |
| Ranking.CompareNames | src/app/standings/page.tsx:141 | the name comparison is -1, 0 or 1, and 0 exactly for equal names |
| Ranking.CompareNamesAntisymmetric | src/app/standings/page.tsx:141 | swapping the names negates the comparison |
| Ranking.CompareNamesTransitive | src/app/standings/page.tsx:141 | the name order is transitive |
| Ranking.RanksAhead | src/app/standings/page.tsx:138-142 | the comparator puts a row first exactly when it has more points; or equal points and more wins; or equal points and wins and a name that is not later |
| Ranking.RanksAheadIsTotalPreorder | src/app/standings/page.tsx:138-142 | the comparator is total and transitive, so the sort is well defined |
| Ranking.Entries | src/app/standings/page.tsx:131-137 | one unranked row per roster driver, in roster order, with that driver's tally |
| Ranking.Number | src/app/standings/page.tsx:143-146 | the rows keep their content and are numbered index + 1 |
| Ranking.Rank | src/app/standings/page.tsx:131-146 | the table has one row per roster driver, is a permutation of the unranked rows, is ordered by the comparator, and is numbered 1..N without gaps |
| Ranking.RankCoversRoster | src/app/standings/page.tsx:131-137 | every roster driver has a row |
| Ranking.RankStable | src/app/standings/page.tsx:138-142 | rows that tie on points, wins and name keep roster order |
| Standings.SortSessions | src/app/standings/page.tsx:52-54 | the sessions are a permutation of the response in ascending start order |
| Standings.LatestSession | src/app/standings/page.tsx:52-61 | there is a latest session exactly when the season is non-empty; it is one of the sessions and starts no earlier than any of them; among the sessions that start latest it is the one the response lists last |
| Standings.Roster | src/app/standings/page.tsx:69-86 | the roster has distinct driver numbers and covers every number of the response; each entry is the first record for its number with the headshot fallback applied; the entries come in the order their numbers first occur in the response |
| Standings.CollectFinals | src/app/standings/page.tsx:91-116 | the season's final positions exist exactly when no session throws (`Standings.SessionFinals`: its positions request fails or its decoded body throws); they are the sessions' final positions, in order |
| Standings.ZeroTallies | src/app/standings/page.tsx:82-88 | every roster driver, and nobody else, starts at 0 points and 0 wins |
| Standings.SeasonTable | src/app/standings/page.tsx:119-146 | one row per roster driver, numbered 1..N in ranking order; each driver's points and wins are what the driver earned over the sessions |
| Standings.GetStandings | src/app/standings/page.tsx:42-153 | no sessions or a failed sessions request gives `[]` (`Standings.SeasonInputs`, the fetch chain: the early return for an empty season, the latest session's drivers request and the per-session positions loop); otherwise the rows are numbered 1..N in ranking order |
| Standings.GetStandingsThrows | src/app/standings/page.tsx:62-116 | a failed roster request or a throwing session makes the whole table empty |
| Standings.GetStandingsSeason | src/app/standings/page.tsx:91-146 | when every request succeeds, the table has one row per roster driver, with the points and wins earned over all sessions in start order |
| DriverList.DedupWithFallbackIsDedupThenFallback | src/app/drivers/page.tsx:43-52 | applying the fallback while deduplicating (`DriverList.DedupWithFallback`, this page's reduce) equals deduplicating first and then applying it to the kept records |
| DriverList.DedupWithFallbackFirsts | src/app/drivers/page.tsx:43-52 | the reduce keeps the first record per number with the fallback applied; the numbers are distinct and cover the input, in first-occurrence order; the result is no longer than the input |
| DriverList.SortAscending | src/app/drivers/page.tsx:54 | sorting records with distinct numbers gives strictly ascending numbers |
| DriverList.GetDrivers | src/app/drivers/page.tsx:24-59 | a failed request or no sessions gives `[]`; otherwise the roster of the last session in response order, one first record per number with the fallback applied, in strictly ascending number |
| Circuits.GetMeetings | src/app/circuits/page.tsx:20-42 | a failed request gives `[]`; otherwise the first meeting of every circuit, with distinct circuit keys covering the response, in ascending start order |
| Circuits.GetMeetingsStable | src/app/circuits/page.tsx:35-37 | meetings that start at the same time keep their order after deduplication |
| Circuits.Displayed | src/app/circuits/page.tsx:77 | the cards shown are a prefix: all meetings when showing all, otherwise the first min(6, n) |
| Circuits.Render | src/app/circuits/page.tsx:79-145 | loading text while loading; the empty-list text exactly when there are no meetings; otherwise a non-empty prefix of cards, with the toggle exactly when there are more than 6 meetings, reading "show fewer" exactly when all are shown; the cards are exactly the displayed meetings |
| Circuits.ToggleChangesCards | src/app/circuits/page.tsx:134-138 | the toggle is shown exactly when flipping `showAll` changes the cards |
| Circuits.ShowAllCountIsNextView | src/app/circuits/page.tsx:134-140 | the count on "show all" is the total number of cards shown after the click, and the collapsed cards are the first six of those |

## Left out

- Requests, `res.json()`, the `revalidate` caching and the `year=2025`
  query strings are not modelled. The responses are inputs, and a failure
  is `None`.
- `console.warn` and `console.error` are left out, because they have no
  effect on the result.
- `new Date(...).getTime()` is not modelled: timestamps are integers. An
  unparsable date (NaN, which compares false every way) is left out.
- `localeCompare` is modelled as plain lexicographic order of characters.
  Locale collation rules are not modelled.
- Ranking.CompareNames: a `null` or `undefined` `full_name` is not
  modelled; names are plain strings. In the code, when two drivers tie on
  points and wins, `localeCompare` on a `null` or `undefined` receiver
  throws and the table is `[]`, and an `undefined` argument is compared
  as the text "undefined".
- Flags.FlagEmoji: `toUpperCase` is modelled on ASCII letters only.
  `length` counts characters, not UTF-16 code units, so a character
  outside the Basic Multilingual Plane counts once. A `null` or
  `undefined` code is the empty string, which `!countryCode` treats the
  same way.
- Headshots.WithFallback: the table is a plain map. Lookups of inherited
  object keys such as `constructor` are not modelled.
- The in-place update of driver objects (`driver.headshot_url = ...`) is
  modelled as a record update. In the code both lists share those
  objects, and the model does not track that.
- `formatDate` (`toLocaleDateString('fi-FI')`) is left out, along with all
  JSX, styling and the card contents. The landing page, the navigation
  component and next.config.ts are presentational and are not part of
  this model.
- A bound on the points one session awards is not stated. The code lets
  two drivers who share a final position both score, so no bound below
  `25 * roster size` holds as written.
- Scoring.Award: the map update is stated for the whole map at once. The
  claim that the `forEach` order does not matter is not proved as a
  separate lemma; it holds because every step touches a different driver.
- Sorting.Sort: one stable insertion sort stands for every
  `Array.prototype.sort` call. Only the result is modelled, not the
  engine's algorithm. With a consistent comparator, all stable sorts give
  the same list.
