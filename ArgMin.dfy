/**
 * The selection both nearest-size loops of the recommender perform: scan the
 * candidates in order, keep the best so far, and replace it only on a
 * strictly smaller cost. The winner is the FIRST index of minimal cost.
 */
module ArgMin {

  /** k is a minimal-cost index and every earlier index costs strictly more. */
  predicate IsFirstArgMin(costs: seq<real>, k: nat)
  {
    && k < |costs|
    && (forall j :: 0 <= j < |costs| ==> costs[k] <= costs[j])
    && (forall j :: 0 <= j < k ==> costs[k] < costs[j])
  }

  /** The index a left-to-right scan with a strict `<` ends on. */
  function FirstArgMin(costs: seq<real>): (k: nat)
    requires |costs| > 0
    ensures IsFirstArgMin(costs, k)
    decreases |costs|
  {
    if |costs| == 1 then 0
    else
      var k := FirstArgMin(costs[..|costs| - 1]);
      if costs[|costs| - 1] < costs[k] then |costs| - 1 else k
  }

  /** The first-argmin property pins the index down completely. */
  lemma FirstArgMinUnique(costs: seq<real>, k: nat)
    requires IsFirstArgMin(costs, k)
    ensures FirstArgMin(costs) == k
  {
  }

  /** One more step of the scan: the candidate at i replaces the best of the
      prefix exactly when it is strictly cheaper. */
  lemma FirstArgMinStep(costs: seq<real>, i: nat)
    requires 0 < i < |costs|
    ensures FirstArgMin(costs[..i + 1])
         == if costs[i] < costs[FirstArgMin(costs[..i])] then i else FirstArgMin(costs[..i])
  {
    assert costs[..i + 1][..i] == costs[..i];
  }
}
