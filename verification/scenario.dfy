/**
 The dashboard's demo donor and an end-to-end run of the matching engine: a
 nearby request of the donor's blood group is shown, a far one of another
 group is not, and once accepted the nearby one stays shown even after its
 blood group is edited.
 */
module Scenario {
  import opened Wrappers
  import opened Requests
  import opened Matching
  import opened Accepting

  /** The profile used when no session is stored. */
  const DemoDonor: Donor := Donor("D-101", "Rahul Sharma", "A+", 12.965, 77.65)

  /** A request with only the fields the scenario sets. */
  function Posted(id: string, lat: real, lon: real, bloodGroup: Option<BloodGroup>, group: Option<BloodGroup>): Request {
    Request(id, None, Some(lat), Some(lon), bloodGroup, group, None, None, None)
  }

  const Near: Request := Posted("r1", 12.965, 77.651, Some("A+"), None)
  const Far: Request := Posted("r2", 40.0, 40.0, None, Some("O-"))

  /** `Near` after the demo donor accepted it. */
  const Accepted: Request := Near.(acceptedDonors := Some(["D-101"]))

  /** `Accepted` after the hospital edits its blood group to B+. */
  const Edited: Request := Accepted.(bloodGroup := Some("B+"))

  /** Before any accept, the demo donor sees the nearby A+ request only. */
  lemma InitialFeed(dist: Distance)
    requires dist(12.965, 77.65, 12.965, 77.651) <= 10.0
    ensures Filter(DemoDonor, dist, [Near, Far]) == [Near]
  {
    assert Visible(DemoDonor, dist, Near);
    assert !Visible(DemoDonor, dist, Far);
    FilterAppend(DemoDonor, dist, [], Near);
    FilterAppend(DemoDonor, dist, [Near], Far);
    assert [] + [Near] == [Near];
    assert [Near] + [Far] == [Near, Far];
  }

  /** Accepting `r1` lists the demo donor on it and leaves the other request alone. */
  lemma AcceptRecordsDonor()
    ensures Accept([Near, Far], "r1", DemoDonor.id) == [Accepted, Far]
  {
    var reqs := [Near, Far];
    assert FirstWithId(reqs, "r1", 0);
    assert Donors(Near) == [];
    assert [] + ["D-101"] == ["D-101"];
    assert AddDonor(Near, DemoDonor.id) == Accepted;
  }

  /** After the accept, the accepted request is still the only one shown. */
  lemma FeedAfterAccept(dist: Distance)
    ensures Filter(DemoDonor, dist, [Accepted, Far]) == [Accepted]
  {
    assert Visible(DemoDonor, dist, Accepted);
    assert !Visible(DemoDonor, dist, Far);
    FilterAppend(DemoDonor, dist, [], Accepted);
    FilterAppend(DemoDonor, dist, [Accepted], Far);
    assert [] + [Accepted] == [Accepted];
    assert [Accepted] + [Far] == [Accepted, Far];
  }

  /** Editing the accepted request's blood group to B+ does not hide it from the donor. */
  lemma FeedAfterEdit(dist: Distance)
    ensures Filter(DemoDonor, dist, [Edited, Far]) == [Edited]
  {
    assert Visible(DemoDonor, dist, Edited);
    assert !Visible(DemoDonor, dist, Far);
    FilterAppend(DemoDonor, dist, [], Edited);
    FilterAppend(DemoDonor, dist, [Edited], Far);
    assert [] + [Edited] == [Edited];
    assert [Edited] + [Far] == [Edited, Far];
  }
}
