/** The RDS scanner: from one `describe_db_instances` response to the
    identifiers of every database instance in it. No lifecycle filtering is
    applied. The provider call itself is not modelled; its response is the
    input. */
module RdsScan {

  /** One element of the response's "DBInstances" list. */
  datatype DbInstance = DbInstance(dbInstanceIdentifier: string)

  /** The identifiers of `dbs`, in response order. */
  function DbIds(dbs: seq<DbInstance>): (ids: seq<string>)
  {
    if dbs == [] then [] else [dbs[0].dbInstanceIdentifier] + DbIds(dbs[1..])
  }

  /** `DbIds` is a projection: one identifier per record, verbatim, at the
      record's own position. */
  lemma {:induction false} DbIdsProjection(dbs: seq<DbInstance>)
    ensures |DbIds(dbs)| == |dbs|
    ensures forall i :: 0 <= i < |dbs| ==> DbIds(dbs)[i] == dbs[i].dbInstanceIdentifier
  {
    if dbs != [] {
      DbIdsProjection(dbs[1..]);
    }
  }

  /** `search_regions_for_rds_resources` on a given response (the "rds" value
      of the dictionary it returns). */
  method SearchRds(dbs: seq<DbInstance>) returns (ids: seq<string>)
    ensures |ids| == |dbs|
    ensures forall i :: 0 <= i < |dbs| ==> ids[i] == dbs[i].dbInstanceIdentifier
    ensures ids == DbIds(dbs)
  {
    ids := [];
    for k := 0 to |dbs|
      invariant |ids| == k
      invariant forall i :: 0 <= i < k ==> ids[i] == dbs[i].dbInstanceIdentifier
    {
      ids := ids + [dbs[k].dbInstanceIdentifier];
    }
    DbIdsProjection(dbs);
  }
}
