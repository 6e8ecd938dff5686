/**
 * Readiness of a Deployment: `printDeploymentStatus` walks the status
 * conditions and reports the Deployment ready at the first condition of type
 * "Available" whose status is "True".
 */
module Deployment {
  import opened Wrappers

  /** One entry of `deployment.Status.Conditions`: its type and its status. */
  datatype Condition = Condition(conditionType: string, status: string)

  predicate IsAvailable(c: Condition) {
    c.conditionType == "Available" && c.status == "True"
  }

  /**
   * The index at which the scan returns true, or None when it runs off the
   * end of the list and returns false.
   */
  function ScanConditions(conditions: seq<Condition>): (r: Option<nat>)
    ensures r.Some? ==> r.value < |conditions| && IsAvailable(conditions[r.value])
    ensures r.Some? ==> forall j :: 0 <= j < r.value ==> !IsAvailable(conditions[j])
    ensures r.None? ==> forall j :: 0 <= j < |conditions| ==> !IsAvailable(conditions[j])
    decreases |conditions|
  {
    if conditions == [] then None
    else if IsAvailable(conditions[0]) then Some(0)
    else
      match ScanConditions(conditions[1..])
      case None => None
      case Some(k) => Some(k + 1)
  }

  /** `printDeploymentStatus`: true iff some condition is Available/True. */
  function PrintDeploymentStatus(conditions: seq<Condition>): (ready: bool)
    ensures ready <==> exists i :: 0 <= i < |conditions| && IsAvailable(conditions[i])
  {
    ScanConditions(conditions).Some?
  }

  /**
   * The scan returns at the first match: conditions after it are never
   * examined, so appending any further conditions changes nothing.
   */
  lemma {:induction false} ScanStopsAtFirstMatch(conditions: seq<Condition>, later: seq<Condition>)
    requires ScanConditions(conditions).Some?
    ensures ScanConditions(conditions + later) == ScanConditions(conditions)
    decreases |conditions|
  {
    assert conditions != [];
    assert (conditions + later)[0] == conditions[0];
    if !IsAvailable(conditions[0]) {
      assert (conditions + later)[1..] == conditions[1..] + later;
      ScanStopsAtFirstMatch(conditions[1..], later);
    }
  }
}
