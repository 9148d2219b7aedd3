/**
 The records the donor dashboard reads from the shared request store, and the
 resolution of their optional fields.

 Stored requests are loosely typed JSON: any field may be missing, and the
 dashboard reads them with JavaScript's `||`, which also replaces values that
 are present but falsy (the number 0, the empty string). Both cases are spelled
 out here.
 */
module Requests {
  import opened Wrappers

  type DonorId = string
  type BloodGroup = string

  /** The signed-in donor; fixed for the whole session. */
  datatype Donor = Donor(id: DonorId, name: string, bloodGroup: BloodGroup, lat: real, lng: real)

  /**
   A hospital's request for blood. The required blood group is stored under
   `bloodGroup` (current records) or `group` (older records). `distanceCalc`,
   which the dashboard writes onto each record for display, is not a field here.
   */
  datatype Request = Request(
    id: string,
    hospitalName: Option<string>,
    hospitalLat: Option<real>,
    hospitalLon: Option<real>,
    bloodGroup: Option<BloodGroup>,
    group: Option<BloodGroup>,
    urgency: Option<int>,
    component: Option<string>,
    acceptedDonors: Option<seq<DonorId>>)

  /** Coordinate substituted for a missing or zero hospital coordinate. */
  const DefaultHospitalLat: real := 12.9606
  const DefaultHospitalLon: real := 77.6416

  /** JavaScript truthiness of a stored number: absent and 0 are falsy. */
  predicate TruthyNumber(x: Option<real>) {
    x.Some? && x.value != 0.0
  }

  /** JavaScript truthiness of a stored string: absent and "" are falsy. */
  predicate TruthyString(s: Option<string>) {
    s.Some? && s.value != ""
  }

  /** `x || fallback` for a coordinate. */
  function CoordinateOr(x: Option<real>, fallback: real): (c: real)
    ensures TruthyNumber(x) ==> c == x.value
    ensures !TruthyNumber(x) ==> c == fallback
    ensures fallback != 0.0 ==> c != 0.0
  {
    if TruthyNumber(x) then x.value else fallback
  }

  /** Latitude the distance is measured to; never 0, because 0 is replaced. */
  function HospitalLat(r: Request): (lat: real)
    ensures lat != 0.0
    ensures TruthyNumber(r.hospitalLat) ==> lat == r.hospitalLat.value
    ensures !TruthyNumber(r.hospitalLat) ==> lat == DefaultHospitalLat
  {
    CoordinateOr(r.hospitalLat, DefaultHospitalLat)
  }

  /** Longitude the distance is measured to; never 0, because 0 is replaced. */
  function HospitalLon(r: Request): (lon: real)
    ensures lon != 0.0
    ensures TruthyNumber(r.hospitalLon) ==> lon == r.hospitalLon.value
    ensures !TruthyNumber(r.hospitalLon) ==> lon == DefaultHospitalLon
  {
    CoordinateOr(r.hospitalLon, DefaultHospitalLon)
  }

  /**
   The blood group matched against the donor's: `bloodGroup || group`. When
   `bloodGroup` is falsy the older field is taken as stored, so the result may
   still be absent or empty.
   */
  function EffectiveBloodGroup(r: Request): (g: Option<BloodGroup>)
    ensures TruthyString(r.bloodGroup) ==> g == r.bloodGroup
    ensures !TruthyString(r.bloodGroup) ==> g == r.group
    ensures g == r.bloodGroup || g == r.group
  {
    if TruthyString(r.bloodGroup) then r.bloodGroup else r.group
  }

  /**
   The blood group shown on an alert card: `bloodGroup || group || ""`. It
   agrees with the matched group whenever either is non-empty.
   */
  function DisplayBloodGroup(r: Request): (s: BloodGroup)
    ensures s != "" <==> TruthyString(r.bloodGroup) || TruthyString(r.group)
    ensures s != "" ==> EffectiveBloodGroup(r) == Some(s)
    ensures TruthyString(EffectiveBloodGroup(r)) ==> s == EffectiveBloodGroup(r).value
    ensures !TruthyString(EffectiveBloodGroup(r)) ==> s == ""
  {
    if TruthyString(r.bloodGroup) then r.bloodGroup.value
    else if TruthyString(r.group) then r.group.value
    else ""
  }

  /** The accepted-donor list, an absent list read as empty. */
  function Donors(r: Request): seq<DonorId> {
    r.acceptedDonors.GetOr([])
  }

  /**
   `req.acceptedDonors && req.acceptedDonors.includes(id)`: membership in the
   accepted list, a missing list read as empty.
   */
  predicate AcceptedBy(r: Request, id: DonorId)
    ensures AcceptedBy(r, id) <==> id in Donors(r)
    ensures r.acceptedDonors.None? ==> !AcceptedBy(r, id)
  {
    r.acceptedDonors.Some? && id in r.acceptedDonors.value
  }

  /** No donor id occurs twice in a list. */
  predicate NoDuplicates<T(==)>(s: seq<T>) {
    forall i, j :: 0 <= i < j < |s| ==> s[i] != s[j]
  }
}
