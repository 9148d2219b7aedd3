# LifeLink+ donor request matching, modelled in Dafny

LifeLink+ has a donor dashboard that polls a shared browser store for hospitals'
blood requests. It shows a donor the requests that match their blood group within
10 km, plus any request they have already accepted. With "Accept & Go" the donor
adds themself to a request's accepted-donor list. This project models that
matching engine as pure functions over sequences of records, and proves its
properties.

- `wrappers.dfy`, module `Wrappers`: `Option`, used for stored JSON fields that may be missing.
- `requests.dfy`, module `Requests`: the `Donor` and `Request` records. Also the
  JavaScript `||` fallbacks used to read a request. A hospital coordinate that is
  missing or 0 becomes 12.9606 / 77.6416. The blood group is `bloodGroup`, or else
  `group`. The displayed blood group adds `""` as a last fallback.
- `matching.dfy`, module `Matching`: the visibility rule and the filter. The filter
  is a stable selection, and its positions are given as a reference sequence.
  Distance is a function parameter with the argument order of `getDist`. No
  trigonometry is modelled.
- `accept.dfy`, module `Accepting`: `findIndex` by id, and the accept transition
  over the whole stored collection. It is proved idempotent, to change only its
  target, to keep lists duplicate-free, and to make the target visible.
- `scenario.dfy`, module `Scenario`: the demo donor, and an end-to-end run. The
  run covers a filter, then an accept, then a blood-group edit.

Modelling choices:
- JavaScript truthiness is explicit. A number is falsy when absent or 0. A string
  is falsy when absent or `""`. An array is always truthy, so only a missing
  `acceptedDonors` is replaced by `[]`; an empty list is kept.
- `req.bloodGroup || req.group` takes `group` exactly as stored when `bloodGroup`
  is falsy. The group being matched can therefore be absent or `""`.
  `EffectiveBloodGroup` returns an `Option` for this reason.
- `findIndex` returns -1 when no request has the id, as in JavaScript.

## Model

| member | source | states |
|---|---|---|
| Requests.CoordinateOr | logic.js:63-64 | a truthy stored coordinate is kept. An absent or 0 one becomes the fallback, so with a non-zero fallback the result is never 0 |
| Requests.HospitalLat | logic.js:63 | the latitude used is the stored one when truthy, else 12.9606; it is never 0 |
| Requests.HospitalLon | logic.js:64 | the longitude used is the stored one when truthy, else 77.6416; it is never 0 |
| Requests.EffectiveBloodGroup | logic.js:70 | `bloodGroup` wins when present and non-empty; otherwise `group` is used as stored; the result is always one of the two fields |
| Requests.DisplayBloodGroup | logic.js:130 | the shown group is non-empty iff either field is truthy. It then equals the group matched in the filter. When the matched group is falsy it is `""` |
| Requests.AcceptedBy | logic.js:74 | the "I accepted" test is membership in the accepted list, with a missing list read as empty; a request with no list is accepted by nobody |
| Matching.DistanceTo | logic.js:63-65 | the distance is measured from the donor to the stored hospital coordinates when both are truthy, and to the default hospital (12.9606, 77.6416) when neither is |
| Matching.BloodGroupMatches | logic.js:70-71 | with a non-empty `bloodGroup`, the match is exact equality of that field with the donor's group. Otherwise it is equality of `group` as stored with it. A match with a non-empty donor group is also the group shown on the card |
| Matching.Visible | logic.js:77 | a request the donor is listed on is visible. Otherwise it is visible iff the resolved group equals the donor's and the distance is at most 10 km |
| Matching.Feed | logic.js:55-78 | an absent stored collection gives an empty feed. Otherwise the feed holds exactly the stored requests that are visible |
| Matching.Filter | logic.js:61-78 | the output is no longer than the input. It holds exactly the input requests that are visible |
| Matching.FilterIndices | logic.js:61-78 | the visible positions, strictly increasing and in range; a position is listed iff the request there is visible |
| Matching.FilterIsStableSelection | logic.js:61-78 | the filter output is the input taken at exactly the visible positions, in increasing order (a stable subsequence) |
| Matching.FilterKeepsOrder | logic.js:61-78 | two visible requests appear in the output in their input order |
| Matching.FilterKeepsAllVisible | logic.js:61-78 | a collection whose every request is visible passes the filter unchanged |
| Matching.FilterIdempotent | logic.js:61-78 | filtering an already filtered feed changes nothing |
| Matching.ProximityBoundary | logic.js:71-77 | for a matching request, distance at most 10 km (inclusive) means visible. Beyond 10 km it is visible iff the donor accepted it |
| Matching.AcceptanceOverridesMatch | logic.js:74-77 | once the donor is on a request's list, every request with that list is visible, at any blood group, coordinate or distance |
| Matching.MismatchHidden | logic.js:70-77 | a request whose resolved group differs from the donor's and which the donor has not accepted is hidden at any distance |
| Matching.ZeroCoordinateIsDefault | logic.js:63-65 | a hospital coordinate stored as 0 gives the same distance as a missing one: the distance to the default hospital |
| Accepting.FindIndex | logic.js:170 | the result is -1 iff no request has the id. Otherwise it is the first position with that id |
| Accepting.AddDonor | logic.js:173-180 | only `acceptedDonors` changes. The donor is then listed. An existing list keeps its order, and the donor is appended only if absent |
| Accepting.Accept | logic.js:169-180 | the length is kept. An unknown id leaves the collection unchanged. Otherwise only the first request with the id is updated, by `AddDonor`, and every other request is untouched |
| Accepting.AcceptKeepsIds | logic.js:170-180 | accept keeps every id, so the request an id finds stays the same |
| Accepting.AddDonorIdempotent | logic.js:178-180 | adding the same donor twice equals adding once |
| Accepting.AcceptIdempotent | logic.js:170-180 | accepting twice yields the same collection as accepting once |
| Accepting.AcceptListsDonorOnce | logic.js:178-180 | if the donor was listed at most once before, they are listed exactly once afterwards |
| Accepting.AcceptKeepsListsDistinct | logic.js:177-180 | if no accepted list has duplicates, none has after an accept |
| Accepting.AcceptGrantsVisibility | logic.js:170-180 | by the rule at line 77, filtering the returned collection shows the target to the accepting donor at any distance. It stays visible whatever blood group or coordinates it is later given |
| Accepting.AcceptKeepsVisibility | logic.js:170-180 | by the rule at line 77, for every viewing donor, a request visible before an accept stays visible after it |
| Scenario.InitialFeed | logic.js:15-21 | the demo donor (A+, near Domlur) sees the nearby A+ request `r1` and not the far O- request `r2` |
| Scenario.AcceptRecordsDonor | logic.js:170-180 | accepting `r1` as the demo donor gives it the list `["D-101"]` and leaves `r2` alone |
| Scenario.FeedAfterAccept | logic.js:61-78 | after the accept, `r1` is the only request the demo donor sees, at any distance |
| Scenario.FeedAfterEdit | logic.js:61-78 | after `r1`'s group is edited to B+, the demo donor still sees it and only it |

## Left out

- The haversine distance `getDist` (logic.js:24-30) is floating-point trigonometry. Distance is an arbitrary function parameter instead, so every result holds for any distance function. The haversine distance from the demo donor to the default hospital (about 0.56 km) is not computed.
- NaN distances and coordinates stored as strings are not modelled. Coordinates are exact reals.
- Stored requests and the donor profile are assumed to hold their expected JSON types: ids and blood groups are strings, and the profile is complete. Two source behaviours fall outside the model as a result.
- BloodGroupMatches: a profile without `bloodGroup` matches every request that has neither `bloodGroup` nor `group`, since `undefined === undefined` holds (logic.js:71). In the model a donor always has a string group, so an absent request group never matches.
- FindIndex: a request stored with a numeric id is never found, because the id arrives as a string through the card's button (logic.js:155) and is compared with `===` (logic.js:170); accepting it is a silent no-op. In the model every id is a string.
- The `distanceCalc` annotation written onto each request with `toFixed(1)` (logic.js:66) is float formatting and a side effect on display fields.
- Reading and writing the store, and JSON parsing, are left out. The accept transition returns the whole collection to be written back. Accept's crash when the store holds no collection (logic.js:169) is host-runtime behaviour.
- The session bootstrap (logic.js:7-21) is left out: the donor is a parameter. The demo profile appears only as a constant in the scenario.
- DOM population, card HTML, radar and badge toggling, `alert` and `logout` are presentation (logic.js:33-43, 80-165, 186-196).
- The 2-second poll timer and the offline-toggle short-circuit (logic.js:42, 47-53) are timer and DOM plumbing.
- Lost updates between browser tabs are left out. They come from the whole-collection read-modify-write, and the code has no concurrency model to describe.
