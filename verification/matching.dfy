/**
 The eligibility filter of the donor dashboard's poll: which stored requests a
 donor sees. A request is shown when its blood group equals the donor's and
 the hospital is at most 10 km away, or when the donor has already accepted it.
 The filter keeps the stored order.
 */
module Matching {
  import opened Wrappers
  import opened Requests

  /**
   Great-circle distance in km from (donor lat, donor lng) to (hospital lat,
   hospital lon). The haversine computation itself is not modelled; every
   property below holds for any such function.
   */
  type Distance = (real, real, real, real) -> real

  /** Proximity radius in km; a request exactly this far away is near enough. */
  const MaxDistanceKm: real := 10.0

  /** Distance from the donor to the request's hospital, defaults substituted. */
  function DistanceTo(donor: Donor, dist: Distance, r: Request): (d: real)
    ensures TruthyNumber(r.hospitalLat) && TruthyNumber(r.hospitalLon) ==>
              d == dist(donor.lat, donor.lng, r.hospitalLat.value, r.hospitalLon.value)
    ensures !TruthyNumber(r.hospitalLat) && !TruthyNumber(r.hospitalLon) ==>
              d == dist(donor.lat, donor.lng, DefaultHospitalLat, DefaultHospitalLon)
  {
    dist(donor.lat, donor.lng, HospitalLat(r), HospitalLon(r))
  }

  /** Strict, case-sensitive equality of the resolved blood group with the donor's. */
  predicate BloodGroupMatches(donor: Donor, r: Request)
    ensures TruthyString(r.bloodGroup) ==>
              (BloodGroupMatches(donor, r) <==> r.bloodGroup.value == donor.bloodGroup)
    ensures !TruthyString(r.bloodGroup) ==>
              (BloodGroupMatches(donor, r) <==> r.group == Some(donor.bloodGroup))
    ensures BloodGroupMatches(donor, r) && donor.bloodGroup != "" ==> DisplayBloodGroup(r) == donor.bloodGroup
  {
    EffectiveBloodGroup(r) == Some(donor.bloodGroup)
  }

  /** The visibility rule applied to each stored request. */
  predicate Visible(donor: Donor, dist: Distance, r: Request)
    ensures AcceptedBy(r, donor.id) ==> Visible(donor, dist, r)
    ensures !AcceptedBy(r, donor.id) ==>
              (Visible(donor, dist, r) <==> BloodGroupMatches(donor, r) && DistanceTo(donor, dist, r) <= 10.0)
  {
    (BloodGroupMatches(donor, r) && DistanceTo(donor, dist, r) <= MaxDistanceKm)
    || AcceptedBy(r, donor.id)
  }

  /** The requests shown to the donor, in stored order. */
  function Filter(donor: Donor, dist: Distance, reqs: seq<Request>): (out: seq<Request>)
    ensures |out| <= |reqs|
    ensures forall x :: x in out <==> x in reqs && Visible(donor, dist, x)
    decreases |reqs|
  {
    if |reqs| == 0 then []
    else
      var init := reqs[..|reqs| - 1];
      var last := reqs[|reqs| - 1];
      assert reqs == init + [last];
      var shown := Filter(donor, dist, init);
      if Visible(donor, dist, last) then shown + [last] else shown
  }

  /**
   One poll of the store: an absent collection reads as empty, and the feed is
   the filtered collection.
   */
  function Feed(donor: Donor, dist: Distance, stored: Option<seq<Request>>): (feed: seq<Request>)
    ensures stored.None? ==> feed == []
    ensures forall x :: x in feed <==> stored.Some? && x in stored.value && Visible(donor, dist, x)
  {
    Filter(donor, dist, stored.GetOr([]))
  }

  /** The positions of the visible requests, in increasing order. */
  function FilterIndices(donor: Donor, dist: Distance, reqs: seq<Request>): (idx: seq<nat>)
    ensures forall k :: 0 <= k < |idx| ==> idx[k] < |reqs|
    ensures forall k, l :: 0 <= k < l < |idx| ==> idx[k] < idx[l]
    ensures forall i :: 0 <= i < |reqs| ==> (i in idx <==> Visible(donor, dist, reqs[i]))
    decreases |reqs|
  {
    if |reqs| == 0 then []
    else
      var n := |reqs| - 1;
      var shown := FilterIndices(donor, dist, reqs[..n]);
      if Visible(donor, dist, reqs[n]) then shown + [n] else shown
  }

  /** `out` lists `reqs` at the positions `idx`, one by one. */
  ghost predicate SelectsAt(out: seq<Request>, reqs: seq<Request>, idx: seq<nat>) {
    && |out| == |idx|
    && forall k :: 0 <= k < |idx| ==> idx[k] < |reqs| && out[k] == reqs[idx[k]]
  }

  /**
   The filter is a stable selection: its output is the input at exactly the
   visible positions, taken in increasing order.
   */
  lemma {:induction false} FilterIsStableSelection(donor: Donor, dist: Distance, reqs: seq<Request>)
    ensures SelectsAt(Filter(donor, dist, reqs), reqs, FilterIndices(donor, dist, reqs))
    decreases |reqs|
  {
    if |reqs| > 0 {
      var n := |reqs| - 1;
      var init := reqs[..n];
      assert init + [reqs[n]] == reqs;
      FilterIsStableSelection(donor, dist, init);
      SelectsAtGrow(Filter(donor, dist, init), init, FilterIndices(donor, dist, init), reqs[n]);
      FilterAppend(donor, dist, init, reqs[n]);
      FilterIndicesAppend(donor, dist, init, reqs[n]);
    }
  }

  /** A selection from a collection stays one when a request is appended, and can take it too. */
  lemma SelectsAtGrow(out: seq<Request>, reqs: seq<Request>, idx: seq<nat>, r: Request)
    requires SelectsAt(out, reqs, idx)
    ensures SelectsAt(out, reqs + [r], idx)
    ensures SelectsAt(out + [r], reqs + [r], idx + [|reqs|])
  {
  }

  /** Filtering a collection with one more request at the end. */
  lemma FilterAppend(donor: Donor, dist: Distance, reqs: seq<Request>, r: Request)
    ensures Filter(donor, dist, reqs + [r])
         == if Visible(donor, dist, r) then Filter(donor, dist, reqs) + [r] else Filter(donor, dist, reqs)
  {
    assert (reqs + [r])[..|reqs|] == reqs;
  }

  /** The visible positions of a collection with one more request at the end. */
  lemma FilterIndicesAppend(donor: Donor, dist: Distance, reqs: seq<Request>, r: Request)
    ensures FilterIndices(donor, dist, reqs + [r])
         == if Visible(donor, dist, r) then FilterIndices(donor, dist, reqs) + [|reqs|]
            else FilterIndices(donor, dist, reqs)
  {
    assert (reqs + [r])[..|reqs|] == reqs;
  }

  /** Two visible requests appear in the output in their stored order. */
  lemma FilterKeepsOrder(donor: Donor, dist: Distance, reqs: seq<Request>, i: nat, j: nat)
    requires i < j < |reqs|
    requires Visible(donor, dist, reqs[i]) && Visible(donor, dist, reqs[j])
    ensures exists k, l :: 0 <= k < l < |Filter(donor, dist, reqs)|
                           && Filter(donor, dist, reqs)[k] == reqs[i]
                           && Filter(donor, dist, reqs)[l] == reqs[j]
  {
    var out := Filter(donor, dist, reqs);
    var idx := FilterIndices(donor, dist, reqs);
    FilterIsStableSelection(donor, dist, reqs);
    var k :| 0 <= k < |idx| && idx[k] == i;
    var l :| 0 <= l < |idx| && idx[l] == j;
    assert k < l;
    assert out[k] == reqs[i] && out[l] == reqs[j];
  }

  /** A collection of visible requests passes the filter unchanged. */
  lemma {:induction false} FilterKeepsAllVisible(donor: Donor, dist: Distance, reqs: seq<Request>)
    requires forall i :: 0 <= i < |reqs| ==> Visible(donor, dist, reqs[i])
    ensures Filter(donor, dist, reqs) == reqs
    decreases |reqs|
  {
    if |reqs| > 0 {
      var n := |reqs| - 1;
      var init := reqs[..n];
      assert init + [reqs[n]] == reqs;
      assert forall i :: 0 <= i < |init| ==> init[i] == reqs[i];
      FilterKeepsAllVisible(donor, dist, init);
      FilterAppend(donor, dist, init, reqs[n]);
    }
  }

  /** Filtering the donor's feed again shows the same feed. */
  lemma FilterIdempotent(donor: Donor, dist: Distance, reqs: seq<Request>)
    ensures Filter(donor, dist, Filter(donor, dist, reqs)) == Filter(donor, dist, reqs)
  {
    var out := Filter(donor, dist, reqs);
    assert forall i :: 0 <= i < |out| ==> out[i] in out;
    FilterKeepsAllVisible(donor, dist, out);
  }

  /**
   The 10 km bound is inclusive: a matching request at 10 km or less is shown,
   and one farther away is hidden unless the donor accepted it.
   */
  lemma ProximityBoundary(donor: Donor, dist: Distance, r: Request)
    requires BloodGroupMatches(donor, r)
    ensures DistanceTo(donor, dist, r) <= 10.0 ==> Visible(donor, dist, r)
    ensures DistanceTo(donor, dist, r) > 10.0 ==> (Visible(donor, dist, r) <==> AcceptedBy(r, donor.id))
  {
  }

  /** A request the donor accepted is shown whatever its blood group, hospital or distance. */
  lemma AcceptanceOverridesMatch(donor: Donor, dist: Distance, r: Request)
    requires AcceptedBy(r, donor.id)
    ensures forall e: Request :: e.acceptedDonors == r.acceptedDonors ==> Visible(donor, dist, e)
  {
  }

  /** A request that neither matches nor was accepted is hidden at any distance. */
  lemma MismatchHidden(donor: Donor, dist: Distance, r: Request)
    requires EffectiveBloodGroup(r) != Some(donor.bloodGroup)
    requires !AcceptedBy(r, donor.id)
    ensures !Visible(donor, dist, r)
  {
  }

  /**
   A hospital coordinate stored as 0 is measured exactly like a missing one,
   that is to the default hospital.
   */
  lemma ZeroCoordinateIsDefault(donor: Donor, dist: Distance, r: Request)
    ensures DistanceTo(donor, dist, r.(hospitalLat := Some(0.0)))
         == DistanceTo(donor, dist, r.(hospitalLat := None))
         == dist(donor.lat, donor.lng, DefaultHospitalLat, HospitalLon(r))
    ensures DistanceTo(donor, dist, r.(hospitalLon := Some(0.0)))
         == DistanceTo(donor, dist, r.(hospitalLon := None))
         == dist(donor.lat, donor.lng, HospitalLat(r), DefaultHospitalLon)
  {
  }
}
