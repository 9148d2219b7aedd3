/**
 The donor's "Accept & Go" action: record the donor on the first stored request
 with the given id and hand back the whole collection, to be written back to
 the store in one piece. An unknown id is ignored silently.
 */
module Accepting {
  import opened Wrappers
  import opened Requests
  import opened Matching

  /** `k` is the first position of a request with id `id`. */
  predicate FirstWithId(reqs: seq<Request>, id: string, k: int) {
    && 0 <= k < |reqs|
    && reqs[k].id == id
    && forall i :: 0 <= i < k ==> reqs[i].id != id
  }

  /** `findIndex` by id: the first position with that id, or -1 when there is none. */
  function FindIndex(reqs: seq<Request>, id: string): (k: int)
    ensures k == -1 || FirstWithId(reqs, id, k)
    ensures k == -1 <==> forall i :: 0 <= i < |reqs| ==> reqs[i].id != id
    decreases |reqs|
  {
    if |reqs| == 0 then -1
    else
      var n := |reqs| - 1;
      var k := FindIndex(reqs[..n], id);
      assert forall i :: 0 <= i < n ==> reqs[..n][i] == reqs[i];
      if k != -1 then k
      else if reqs[n].id == id then n
      else -1
  }

  /**
   Put the donor on a request's accepted list: an absent list starts empty,
   the donor goes at the end unless already there, and no other field changes.
   */
  function AddDonor(r: Request, donor: DonorId): (r': Request)
    ensures r' == r.(acceptedDonors := r'.acceptedDonors)
    ensures AcceptedBy(r', donor)
    ensures donor in Donors(r) ==> Donors(r') == Donors(r)
    ensures donor !in Donors(r) ==> Donors(r') == Donors(r) + [donor]
  {
    var listed := Donors(r);
    r.(acceptedDonors := Some(if donor in listed then listed else listed + [donor]))
  }

  /**
   The accept transition on the whole stored collection. Only the first
   request with the id changes, and of it only its accepted list; with no such
   request the collection comes back unchanged.
   */
  function Accept(reqs: seq<Request>, reqId: string, donor: DonorId): (out: seq<Request>)
    ensures |out| == |reqs|
    ensures (forall i :: 0 <= i < |reqs| ==> reqs[i].id != reqId) ==> out == reqs
    ensures forall k :: FirstWithId(reqs, reqId, k) ==>
              && out[k] == AddDonor(reqs[k], donor)
              && forall i :: 0 <= i < |reqs| && i != k ==> out[i] == reqs[i]
  {
    var k := FindIndex(reqs, reqId);
    if k == -1 then reqs
    else reqs[k := AddDonor(reqs[k], donor)]
  }

  /** Accept never changes a request's id, so it never changes which request an id finds. */
  lemma AcceptKeepsIds(reqs: seq<Request>, reqId: string, donor: DonorId, id: string)
    ensures forall i :: 0 <= i < |reqs| ==> Accept(reqs, reqId, donor)[i].id == reqs[i].id
    ensures FindIndex(Accept(reqs, reqId, donor), id) == FindIndex(reqs, id)
  {
    var out := Accept(reqs, reqId, donor);
    var k := FindIndex(reqs, id);
    var k' := FindIndex(out, id);
    assert forall i :: 0 <= i < |reqs| ==> out[i].id == reqs[i].id;
    if k == -1 {
      assert k' == -1;
    } else {
      assert FirstWithId(out, id, k);
    }
  }

  /** Putting a donor on a request twice is the same as putting them on once. */
  lemma AddDonorIdempotent(r: Request, donor: DonorId)
    ensures AddDonor(AddDonor(r, donor), donor) == AddDonor(r, donor)
  {
  }

  /** Accepting the same request twice leaves the collection as accepting it once. */
  lemma AcceptIdempotent(reqs: seq<Request>, reqId: string, donor: DonorId)
    ensures Accept(Accept(reqs, reqId, donor), reqId, donor) == Accept(reqs, reqId, donor)
  {
    var once := Accept(reqs, reqId, donor);
    var twice := Accept(once, reqId, donor);
    AcceptKeepsIds(reqs, reqId, donor, reqId);
    var k := FindIndex(reqs, reqId);
    if k != -1 {
      assert FirstWithId(once, reqId, k);
      AddDonorIdempotent(reqs[k], donor);
      assert twice[k] == once[k];
      assert forall i :: 0 <= i < |once| ==> twice[i] == once[i];
    }
  }

  /**
   After an accept the donor is on the target's list exactly once, provided
   they were on it at most once before.
   */
  lemma AcceptListsDonorOnce(reqs: seq<Request>, reqId: string, donor: DonorId, k: int)
    requires FirstWithId(reqs, reqId, k)
    requires multiset(Donors(reqs[k]))[donor] <= 1
    ensures multiset(Donors(Accept(reqs, reqId, donor)[k]))[donor] == 1
  {
    var before := Donors(reqs[k]);
    if donor !in before {
      assert multiset(before)[donor] == 0;
      assert multiset(before + [donor]) == multiset(before) + multiset{donor};
    }
  }

  /** Accept keeps every accepted list free of duplicates. */
  lemma AcceptKeepsListsDistinct(reqs: seq<Request>, reqId: string, donor: DonorId)
    requires forall i :: 0 <= i < |reqs| ==> NoDuplicates(Donors(reqs[i]))
    ensures forall i :: 0 <= i < |reqs| ==> NoDuplicates(Donors(Accept(reqs, reqId, donor)[i]))
  {
    var out := Accept(reqs, reqId, donor);
    var k := FindIndex(reqs, reqId);
    if k != -1 {
      var before := Donors(reqs[k]);
      if donor !in before {
        var after := before + [donor];
        assert Donors(out[k]) == after;
        forall a, b | 0 <= a < b < |after|
          ensures after[a] != after[b]
        {
          if b == |before| {
            assert after[a] == before[a];
          }
        }
      }
    }
  }

  /**
   A successful accept makes the target visible to the accepting donor when the
   returned collection is filtered, at any distance and whatever blood group it
   is later given.
   */
  lemma AcceptGrantsVisibility(viewer: Donor, dist: Distance, reqs: seq<Request>, reqId: string, k: int)
    requires FirstWithId(reqs, reqId, k)
    ensures var out := Accept(reqs, reqId, viewer.id);
      && Visible(viewer, dist, out[k])
      && out[k] in Filter(viewer, dist, out)
      && forall e: Request :: e.acceptedDonors == out[k].acceptedDonors ==> Visible(viewer, dist, e)
  {
    var out := Accept(reqs, reqId, viewer.id);
    AcceptanceOverridesMatch(viewer, dist, out[k]);
  }

  /**
   Accept only ever adds to what any donor sees: a request visible before is
   still visible afterwards.
   */
  lemma AcceptKeepsVisibility(viewer: Donor, dist: Distance, reqs: seq<Request>, reqId: string, donor: DonorId)
    ensures forall i :: 0 <= i < |reqs| && Visible(viewer, dist, reqs[i]) ==>
              Visible(viewer, dist, Accept(reqs, reqId, donor)[i])
  {
    var out := Accept(reqs, reqId, donor);
    var k := FindIndex(reqs, reqId);
    if k != -1 {
      var r := reqs[k];
      assert out[k] == AddDonor(r, donor);
      assert forall x :: x in Donors(r) ==> x in Donors(out[k]);
      assert BloodGroupMatches(viewer, out[k]) == BloodGroupMatches(viewer, r);
      assert DistanceTo(viewer, dist, out[k]) == DistanceTo(viewer, dist, r);
    }
  }
}
