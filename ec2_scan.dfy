/** The EC2 scanner: from one `describe_instances` response to the IDs of the
    instances Bloodhound reports. The provider call itself is not modelled;
    its response is the input. The code's branch structure is kept exactly:
    with exactly one reservation every instance of it is examined, otherwise
    only the first instance of each reservation is, and a reservation without
    instances in that second branch raises an IndexError that throws the
    whole partial result away. */
module Ec2Scan {

  /** One element of a reservation's "Instances" list: its "InstanceId" and
      its "State"."Name". */
  datatype Instance = Instance(instanceId: string, stateName: string)

  /** One element of the response's "Reservations" list. */
  datatype Reservation = Reservation(instances: seq<Instance>)

  datatype DescribeInstancesResponse = DescribeInstancesResponse(reservations: seq<Reservation>)

  /** The two lifecycle states the scanner skips, compared exactly. */
  predicate IsInactive(state: string)
  {
    state == "stopped" || state == "terminated"
  }

  /** The IDs of the instances that are not inactive, in the given order. */
  function ActiveIds(insts: seq<Instance>): (ids: seq<string>)
  {
    if insts == [] then []
    else (if IsInactive(insts[0].stateName) then [] else [insts[0].instanceId]) + ActiveIds(insts[1..])
  }

  predicate AllNonEmpty(rs: seq<Reservation>)
  {
    forall i :: 0 <= i < |rs| ==> rs[i].instances != []
  }

  /** `Instances[0]` of every reservation, in reservation order. */
  function FirstInstances(rs: seq<Reservation>): (firsts: seq<Instance>)
    requires AllNonEmpty(rs)
  {
    seq(|rs|, i requires 0 <= i < |rs| => rs[i].instances[0])
  }

  /** What the scanner looks at: the instances it examines, or the
      IndexError that the multi-reservation branch raises on an empty
      reservation. */
  datatype Examination = Examined(instances: seq<Instance>) | IndexError

  function Examine(response: DescribeInstancesResponse): (e: Examination)
  {
    var rs := response.reservations;
    if |rs| == 1 then Examined(rs[0].instances)
    else if AllNonEmpty(rs) then Examined(FirstInstances(rs))
    else IndexError
  }

  /** The scanner's result; a caught IndexError becomes the empty list. */
  function Ec2Ids(response: DescribeInstancesResponse): (ids: seq<string>)
  {
    match Examine(response)
    case Examined(insts) => ActiveIds(insts)
    case IndexError => []
  }

  /** `search_regions_for_ec2_resources` on a given response (the "ec2"
      value of the dictionary it returns). */
  method SearchEc2(response: DescribeInstancesResponse) returns (ids: seq<string>)
    ensures ids == Ec2Ids(response)
    ensures |response.reservations| == 1 ==> ids == ActiveIds(response.reservations[0].instances)
    ensures |response.reservations| != 1 && AllNonEmpty(response.reservations) ==>
              ids == ActiveIds(FirstInstances(response.reservations))
    ensures |response.reservations| != 1 && !AllNonEmpty(response.reservations) ==> ids == []
  {
    var rs := response.reservations;
    ids := [];
    if |rs| == 1 {
      var insts := rs[0].instances;
      for k := 0 to |insts|
        invariant ids == ActiveIds(insts[..k])
      {
        assert insts[..k + 1] == insts[..k] + [insts[k]];
        ActiveIdsAppend(insts[..k], [insts[k]]);
        if IsInactive(insts[k].stateName) {
          continue;
        }
        ids := ids + [insts[k].instanceId];
      }
      assert insts[..|insts|] == insts;
    } else {
      for k := 0 to |rs|
        invariant AllNonEmpty(rs[..k])
        invariant ids == ActiveIds(FirstInstances(rs[..k]))
      {
        if rs[k].instances == [] {
          // the IndexError of `Instances[0]`, caught by the `except` clause
          assert !AllNonEmpty(rs);
          return [];
        }
        var first := rs[k].instances[0];
        assert AllNonEmpty(rs[..k + 1]);
        assert FirstInstances(rs[..k + 1]) == FirstInstances(rs[..k]) + [first];
        ActiveIdsAppend(FirstInstances(rs[..k]), [first]);
        if IsInactive(first.stateName) {
          continue;
        }
        ids := ids + [first.instanceId];
      }
      assert rs[..|rs|] == rs;
    }
  }

  /** Filtering distributes over concatenation: the kept IDs come out in the
      order of the instances. */
  lemma {:induction false} ActiveIdsAppend(a: seq<Instance>, b: seq<Instance>)
    ensures ActiveIds(a + b) == ActiveIds(a) + ActiveIds(b)
  {
    if a == [] {
      assert a + b == b;
    } else {
      assert (a + b)[1..] == a[1..] + b;
      ActiveIdsAppend(a[1..], b);
    }
  }

  /** An ID is kept exactly when some instance carrying it is not inactive. */
  lemma {:induction false} ActiveIdsMembership(insts: seq<Instance>, id: string)
    ensures id in ActiveIds(insts) <==>
              exists k :: 0 <= k < |insts| && insts[k].instanceId == id && !IsInactive(insts[k].stateName)
  {
    if insts != [] {
      ActiveIdsMembership(insts[1..], id);
      if id in ActiveIds(insts[1..]) {
        var k :| 0 <= k < |insts[1..]| && insts[1..][k].instanceId == id && !IsInactive(insts[1..][k].stateName);
        assert insts[k + 1] == insts[1..][k];
      }
      if exists k :: 0 <= k < |insts| && insts[k].instanceId == id && !IsInactive(insts[k].stateName) {
        var k :| 0 <= k < |insts| && insts[k].instanceId == id && !IsInactive(insts[k].stateName);
        if k > 0 {
          assert insts[1..][k - 1] == insts[k];
        }
      }
    }
  }

  /** Every examined instance that is not inactive contributes its ID once,
      at its own position: the result has one entry per active examined
      instance, in order. */
  lemma {:induction false} ActiveIdsCount(insts: seq<Instance>)
    ensures |ActiveIds(insts)| == |insts| - Inactive(insts)
  {
    if insts != [] {
      ActiveIdsCount(insts[1..]);
    }
  }

  /** Number of inactive instances in `insts`. */
  function Inactive(insts: seq<Instance>): (count: nat)
  {
    if insts == [] then 0 else (if IsInactive(insts[0].stateName) then 1 else 0) + Inactive(insts[1..])
  }

  /** Whatever the response, a reported ID belongs to an examined instance
      that is neither stopped nor terminated; and every such examined
      instance is reported, unless the IndexError fired. */
  lemma Ec2ReportsExactlyActive(response: DescribeInstancesResponse, id: string)
    ensures Examine(response).Examined? ==>
              (id in Ec2Ids(response) <==>
                 exists k :: 0 <= k < |Examine(response).instances| &&
                   Examine(response).instances[k].instanceId == id &&
                   !IsInactive(Examine(response).instances[k].stateName))
    ensures Examine(response).IndexError? ==> Ec2Ids(response) == []
  {
    if Examine(response).Examined? {
      ActiveIdsMembership(Examine(response).instances, id);
    }
  }

  /** An examined instance that is stopped or terminated is never reported,
      unless an active examined instance happens to carry the same ID. */
  lemma Ec2InactiveNeverReported(response: DescribeInstancesResponse, k: nat)
    requires Examine(response).Examined? && k < |Examine(response).instances|
    requires IsInactive(Examine(response).instances[k].stateName)
    requires var insts := Examine(response).instances;
             forall j :: 0 <= j < |insts| && insts[j].instanceId == insts[k].instanceId ==> IsInactive(insts[j].stateName)
    ensures Examine(response).instances[k].instanceId !in Ec2Ids(response)
  {
    ActiveIdsMembership(Examine(response).instances, Examine(response).instances[k].instanceId);
  }

  /** With exactly one reservation, every instance in it is examined, in
      response order. */
  lemma Ec2SingleReservation(response: DescribeInstancesResponse)
    requires |response.reservations| == 1
    ensures Examine(response) == Examined(response.reservations[0].instances)
    ensures Ec2Ids(response) == ActiveIds(response.reservations[0].instances)
  {
  }

  /** With any other number of reservations, only the first instance of each
      is examined: an instance further down a reservation is never reported
      unless some reservation's first instance carries the same ID. */
  lemma Ec2LaterInstancesIgnored(response: DescribeInstancesResponse, i: nat, j: nat)
    requires |response.reservations| != 1
    requires i < |response.reservations| && 1 <= j < |response.reservations[i].instances|
    requires forall r :: 0 <= r < |response.reservations| && response.reservations[r].instances != [] ==>
               response.reservations[r].instances[0].instanceId != response.reservations[i].instances[j].instanceId
    ensures response.reservations[i].instances[j].instanceId !in Ec2Ids(response)
  {
    var rs := response.reservations;
    var id := rs[i].instances[j].instanceId;
    if AllNonEmpty(rs) {
      ActiveIdsMembership(FirstInstances(rs), id);
    }
  }

  /** With two or more reservations of which one is empty, the result is
      empty, whatever earlier reservations contributed. */
  lemma Ec2EmptyReservationDiscards(response: DescribeInstancesResponse, i: nat)
    requires |response.reservations| >= 2
    requires i < |response.reservations| && response.reservations[i].instances == []
    ensures Examine(response) == IndexError
    ensures Ec2Ids(response) == []
  {
  }

  /** A response without reservations takes the multi-reservation branch,
      examines nothing and reports nothing, without an IndexError. */
  lemma Ec2NoReservations(response: DescribeInstancesResponse)
    requires response.reservations == []
    ensures Examine(response) == Examined([])
    ensures Ec2Ids(response) == []
  {
  }

  /** A worked response: two reservations, the first launched with two
      running instances. Only `i-1` is reported, because the second branch
      looks at `Instances[0]` alone; the state-filter skips the stopped
      `i-3`. Flattening every reservation would have also reported `i-2`. */
  lemma Ec2FirstInstanceOnlyExample()
    ensures Ec2Ids(DescribeInstancesResponse([
              Reservation([Instance("i-1", "running"), Instance("i-2", "running")]),
              Reservation([Instance("i-3", "stopped")])])) == ["i-1"]
  {
    var rs := [Reservation([Instance("i-1", "running"), Instance("i-2", "running")]),
               Reservation([Instance("i-3", "stopped")])];
    assert FirstInstances(rs) == [Instance("i-1", "running"), Instance("i-3", "stopped")];
  }
}
