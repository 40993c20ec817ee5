/** The audit run (`main`): scan every student region in turn, collect the
    results in an insertion-ordered dictionary keyed by region, and format
    the report. The provider's answers are the input (`cloud` gives the two
    responses a region's clients would return); sending the report to Slack
    and printing it are not modelled. */
module Bloodhound {
  import opened Text
  import opened Ec2Scan
  import opened RdsScan
  import opened Report

  /** The regions the student account may use, in scanning order. */
  const StudentRegions: seq<string> := [
    "eu-central-1",
    "eu-west-1",
    "eu-west-2",
    "us-east-1",
    "us-east-2",
    "us-west-1",
    "us-west-2"
  ]

  /** What the provider answers in one region: the `describe_instances`
      response and the "DBInstances" of the `describe_db_instances` one. */
  datatype RegionResponses = RegionResponses(instances: DescribeInstancesResponse, dbInstances: seq<DbInstance>)

  /** The dictionary entry one region's two scans produce. */
  function ScanRegion(region: string, responses: RegionResponses): (entry: RegionResources)
  {
    RegionResources(region, Ec2Ids(responses.instances), DbIds(responses.dbInstances))
  }

  function Keys(d: seq<RegionResources>): (keys: seq<string>)
    ensures |keys| == |d|
    ensures forall i :: 0 <= i < |d| ==> keys[i] == d[i].region
  {
    seq(|d|, i requires 0 <= i < |d| => d[i].region)
  }

  predicate Distinct(s: seq<string>)
  {
    forall i, j :: 0 <= i < j < |s| ==> s[i] != s[j]
  }

  /** `d[entry.region] = entry` on a dictionary that keeps insertion order: a
      key already present keeps its position and gets the new value, a new
      key goes to the end. */
  function Store(d: seq<RegionResources>, entry: RegionResources): (stored: seq<RegionResources>)
  {
    if d == [] then [entry]
    else if d[0].region == entry.region then [entry] + d[1..]
    else [d[0]] + Store(d[1..], entry)
  }

  /** Storing under a key not yet present appends the entry. */
  lemma {:induction false} StoreNewKey(d: seq<RegionResources>, entry: RegionResources)
    requires entry.region !in Keys(d)
    ensures Store(d, entry) == d + [entry]
  {
    if d != [] {
      assert d[0].region == Keys(d)[0];
      assert Keys(d[1..]) == Keys(d)[1..];
      StoreNewKey(d[1..], entry);
      assert d == [d[0]] + d[1..];
    }
  }

  /** Storing under a key already present (at position `i`) replaces that
      entry and nothing else. */
  lemma {:induction false} StoreExistingKey(d: seq<RegionResources>, i: nat, entry: RegionResources)
    requires i < |d| && d[i].region == entry.region
    requires forall j :: 0 <= j < i ==> d[j].region != entry.region
    ensures Store(d, entry) == d[i := entry]
  {
    if i > 0 {
      StoreExistingKey(d[1..], i - 1, entry);
      assert d[i := entry] == [d[0]] + d[1..][i - 1 := entry];
    }
  }

  /** The dictionary `main` builds, for the regions scanned in order. */
  function Aggregate(regions: seq<string>, cloud: string -> RegionResponses): (d: seq<RegionResources>)
  {
    if regions == [] then []
    else
      var last := regions[|regions| - 1];
      Store(Aggregate(regions[..|regions| - 1], cloud), ScanRegion(last, cloud(last)))
  }

  /** With distinct regions the dictionary has exactly one entry per region,
      in region order, holding both scan results of that region. */
  lemma {:induction false} AggregateOfDistinct(regions: seq<string>, cloud: string -> RegionResponses)
    requires Distinct(regions)
    ensures |Aggregate(regions, cloud)| == |regions|
    ensures forall i :: 0 <= i < |regions| ==>
              Aggregate(regions, cloud)[i] == ScanRegion(regions[i], cloud(regions[i]))
  {
    if regions != [] {
      var n := |regions| - 1;
      var prefix := regions[..n];
      AggregateOfDistinct(prefix, cloud);
      var d := Aggregate(prefix, cloud);
      StoreNewKey(d, ScanRegion(regions[n], cloud(regions[n])));
    }
  }

  /** The aggregation loop of `main`: for each region, run both scanners and
      store the entry under the region's name. */
  method CollectResources(regions: seq<string>, cloud: string -> RegionResponses)
    returns (resources: seq<RegionResources>)
    ensures resources == Aggregate(regions, cloud)
    ensures Distinct(regions) ==> |resources| == |regions|
    ensures Distinct(regions) ==>
              forall i :: 0 <= i < |regions| ==>
                resources[i].region == regions[i] &&
                resources[i].ec2 == Ec2Ids(cloud(regions[i]).instances) &&
                resources[i].rds == DbIds(cloud(regions[i]).dbInstances)
  {
    resources := [];
    for k := 0 to |regions|
      invariant resources == Aggregate(regions[..k], cloud)
    {
      var region := regions[k];
      var responses := cloud(region);
      var ec2 := SearchEc2(responses.instances);
      var rds := SearchRds(responses.dbInstances);
      resources := Store(resources, RegionResources(region, ec2, rds));
      assert regions[..k + 1][..k] == regions[..k];
    }
    assert regions[..|regions|] == regions;
    if Distinct(regions) {
      AggregateOfDistinct(regions, cloud);
    }
  }

  /** `main` up to printing and posting: the message it sends. */
  method Audit(cloud: string -> RegionResponses) returns (message: string)
    ensures message == Message(Aggregate(StudentRegions, cloud))
  {
    var resources := CollectResources(StudentRegions, cloud);
    message := FormatMessage(resources);
  }

  lemma StudentRegionsDistinct()
    ensures Distinct(StudentRegions)
  {
  }

  lemma StudentRegionsOneLine()
    ensures forall i :: 0 <= i < |StudentRegions| ==> '\n' !in StudentRegions[i]
  {
  }

  /** Every student region has its entry, in the configured order, even when
      both of its lists are empty. */
  lemma StudentAggregate(cloud: string -> RegionResponses)
    ensures |Aggregate(StudentRegions, cloud)| == 7
    ensures forall i :: 0 <= i < 7 ==>
              Aggregate(StudentRegions, cloud)[i] == ScanRegion(StudentRegions[i], cloud(StudentRegions[i]))
  {
    StudentRegionsDistinct();
    AggregateOfDistinct(StudentRegions, cloud);
  }

  /** The audit message has one line per student region with a resource,
      besides the two banner lines. */
  lemma AuditLineCount(cloud: string -> RegionResponses)
    ensures Occurrences('\n', Message(Aggregate(StudentRegions, cloud))) ==
              2 + |Reported(Aggregate(StudentRegions, cloud))|
  {
    StudentAggregate(cloud);
    StudentRegionsOneLine();
    var d := Aggregate(StudentRegions, cloud);
    assert forall i :: 0 <= i < |d| ==> d[i].region == StudentRegions[i];
    MessageLineCount(d);
  }

  /** When no region has a running instance or a database, the audit
      message is the banner followed by the closing line. */
  lemma AuditAllEmpty(cloud: string -> RegionResponses)
    requires forall i :: 0 <= i < 7 ==>
               Ec2Ids(cloud(StudentRegions[i]).instances) == [] && cloud(StudentRegions[i]).dbInstances == []
    ensures Message(Aggregate(StudentRegions, cloud)) == Banner + Closing
  {
    StudentAggregate(cloud);
    AllEmptyMessage(Aggregate(StudentRegions, cloud));
  }

  /** A worked run: us-east-1 has two running instances and a stopped one in
      one reservation and one database; every other region is empty. */
  function UsEastOnly(region: string): (responses: RegionResponses)
  {
    if region == "us-east-1" then
      RegionResponses(
        DescribeInstancesResponse([Reservation([Instance("i-a", "running"), Instance("i-b", "running"),
                                                Instance("i-c", "stopped")])]),
        [DbInstance("db-1")])
    else RegionResponses(DescribeInstancesResponse([]), [])
  }

  /** Scanning the worked run: us-east-1 reports its two running instances
      and its database, every other student region reports nothing. */
  lemma UsEastOnlyScans()
    ensures ScanRegion(StudentRegions[3], UsEastOnly(StudentRegions[3])) ==
              RegionResources("us-east-1", ["i-a", "i-b"], ["db-1"])
    ensures forall i :: 0 <= i < 7 && i != 3 ==>
              !IsReported(ScanRegion(StudentRegions[i], UsEastOnly(StudentRegions[i])))
  {
    var east := UsEastOnly("us-east-1").instances;
    assert ActiveIds(east.reservations[0].instances) == ["i-a", "i-b"];
  }

  /** The line of the worked run's one reported region, piece by piece. */
  lemma UsEastLine()
    ensures RegionLine(RegionResources("us-east-1", ["i-a", "i-b"], ["db-1"])) ==
              "- *" + "US-EAST-1" + "*: " + "2" + " ec2 instances, " + "1" + " rds instances" + "\n"
  {
    assert Upper("us-east-1") == "US-EAST-1";
    assert NatToString(2) == "2" && NatToString(1) == "1";
  }

  /** When exactly one student region has a resource, the message is the
      banner, that region's line and the closing line. */
  lemma AuditSingleRegion(cloud: string -> RegionResponses, k: nat)
    requires k < 7 && IsReported(ScanRegion(StudentRegions[k], cloud(StudentRegions[k])))
    requires forall i :: 0 <= i < 7 && i != k ==> !IsReported(ScanRegion(StudentRegions[i], cloud(StudentRegions[i])))
    ensures Message(Aggregate(StudentRegions, cloud)) ==
              Banner + RegionLine(ScanRegion(StudentRegions[k], cloud(StudentRegions[k]))) + Closing
  {
    StudentAggregate(cloud);
    SingleReportedRegion(Aggregate(StudentRegions, cloud), k, RegionLine);
  }

  /** The whole message of the worked run. */
  lemma AuditUsEastOnly()
    ensures Message(Aggregate(StudentRegions, UsEastOnly)) ==
              Banner + ("- *" + "US-EAST-1" + "*: " + "2" + " ec2 instances, " + "1" + " rds instances" + "\n") + Closing
  {
    UsEastOnlyScans();
    AuditSingleRegion(UsEastOnly, 3);
    UsEastLine();
  }
}
