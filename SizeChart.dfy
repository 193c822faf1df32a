/**
 * The fixed generic chest chart and the lookup that falls back to it
 * (`genericSizeChart` and `recommendGenericSize` in content.js).
 */
module SizeChart {
  import opened Wrappers
  import opened SizeData

  /** One chart row: a label and its half-open chest interval [min, max). */
  datatype Band = Band(name: string, min: int, max: int)

  /** The chart in the order its keys are enumerated, XS to XXL. */
  const Chart: seq<Band> := [
    Band("XS", 30, 34),
    Band("S", 34, 37),
    Band("M", 37, 40),
    Band("L", 40, 43),
    Band("XL", 43, 46),
    Band("XXL", 46, 49)
  ]

  /** The fixed order the size-list recommender ranks sizes by. */
  const SizeOrder: seq<string> := ["XS", "S", "M", "L", "XL", "XXL"]

  predicate InBand(k: int, chest: real)
    requires 0 <= k < |Chart|
  {
    Chart[k].min as real <= chest < Chart[k].max as real
  }

  /** Every band is non-empty, each starts where the previous one ends, and
      the labels are those of the size order, in that order. */
  lemma ChartWellFormed()
    ensures |Chart| == |SizeOrder|
    ensures forall k :: 0 <= k < |Chart| ==> Chart[k].min < Chart[k].max && Chart[k].name == SizeOrder[k]
    ensures forall k :: 0 < k < |Chart| ==> Chart[k - 1].max == Chart[k].min
  {
    forall k | 0 <= k < |Chart|
      ensures Chart[k].min < Chart[k].max && Chart[k].name == SizeOrder[k]
      ensures k > 0 ==> Chart[k - 1].max == Chart[k].min
    {
      assert k == 0 || k == 1 || k == 2 || k == 3 || k == 4 || k == 5;
    }
  }

  /** Bands further down the chart lie entirely above earlier ones. */
  lemma {:induction false} BandsOrdered(j: nat, k: nat)
    requires j < k < |Chart|
    ensures Chart[j].max <= Chart[k].min
    decreases k - j
  {
    ChartWellFormed();
    if j + 1 < k {
      BandsOrdered(j + 1, k);
    }
  }

  /** At most one band contains a given chest value. */
  lemma BandsDisjoint(chest: real, j: nat, k: nat)
    requires j < |Chart| && k < |Chart|
    requires InBand(j, chest) && InBand(k, chest)
    ensures j == k
  {
    if j < k {
      BandsOrdered(j, k);
    } else if k < j {
      BandsOrdered(k, j);
    }
  }

  /** The first band at or after i that contains chest, if any. */
  function FirstBandFrom(chest: real, i: nat): (k: Option<nat>)
    requires i <= |Chart|
    ensures k.Some? ==> i <= k.value < |Chart| && InBand(k.value, chest)
    ensures k.Some? ==> forall j :: i <= j < k.value ==> !InBand(j, chest)
    ensures k.None? ==> forall j :: i <= j < |Chart| ==> !InBand(j, chest)
    decreases |Chart| - i
  {
    if i == |Chart| then None
    else if InBand(i, chest) then Some(i)
    else FirstBandFrom(chest, i + 1)
  }

  /** What `recommendGenericSize` returns: the label of the band containing
      chest, otherwise XS at or below the chart's floor and XXL above it. */
  function GenericRecommendation(chest: real): (r: Recommendation)
    ensures r.size.Some? && r.size.value in SizeOrder
    ensures r.explanation == GenericChart || r.explanation == Approximate
  {
    ChartWellFormed();
    match FirstBandFrom(chest, 0)
    case Some(k) => Recommendation(Some(Chart[k].name), GenericChart)
    case None => Recommendation(Some(if chest <= Chart[0].min as real then "XS" else "XXL"), Approximate)
  }

  /** The label `recommendGenericSize` picks, which the size-list recommender compares against. */
  function GenericLabel(chest: real): (s: string)
    ensures s in SizeOrder
  {
    GenericRecommendation(chest).size.value
  }

  /** recommendGenericSize: walk the chart in key order and return on the first
      band containing chest; after the loop, clamp. */
  method RecommendGenericSize(measurements: UserMeasurements) returns (r: Recommendation)
    ensures r == GenericRecommendation(measurements.chest)
  {
    var chest := measurements.chest;
    for i := 0 to |Chart|
      invariant FirstBandFrom(chest, i) == FirstBandFrom(chest, 0)
    {
      var range := Chart[i];
      if chest >= range.min as real && chest < range.max as real {
        return Recommendation(Some(range.name), GenericChart);
      }
    }
    r := Recommendation(Some(if chest <= Chart[0].min as real then "XS" else "XXL"), Approximate);
  }

  /** If no band up to j contains a chest value at or above the chart floor,
      that value lies at or above band j's ceiling (the bands are contiguous). */
  lemma {:induction false} AboveBandsWithout(chest: real, j: nat)
    requires j < |Chart|
    requires Chart[0].min as real <= chest
    requires forall i :: 0 <= i <= j ==> !InBand(i, chest)
    ensures chest >= Chart[j].max as real
  {
    ChartWellFormed();
    if j > 0 {
      AboveBandsWithout(chest, j - 1);
      assert Chart[j - 1].max == Chart[j].min;
      assert !InBand(j, chest);
    } else {
      assert !InBand(0, chest);
    }
  }

  /** Inside the chart, the lookup returns the label of the one band whose
      interval contains chest, with the generic-chart explanation. */
  lemma GenericInsideChart(chest: real)
    requires Chart[0].min as real <= chest < Chart[|Chart| - 1].max as real
    ensures exists k :: 0 <= k < |Chart| && InBand(k, chest)
                     && GenericRecommendation(chest) == Recommendation(Some(Chart[k].name), GenericChart)
    ensures forall j, k :: 0 <= j < |Chart| && 0 <= k < |Chart| && InBand(j, chest) && InBand(k, chest) ==> j == k
  {
    if FirstBandFrom(chest, 0).None? {
      AboveBandsWithout(chest, |Chart| - 1);
      assert false;
    }
    var k := FirstBandFrom(chest, 0).value;
    assert InBand(k, chest);
    forall j, k' | 0 <= j < |Chart| && 0 <= k' < |Chart| && InBand(j, chest) && InBand(k', chest)
      ensures j == k'
    {
      BandsDisjoint(chest, j, k');
    }
  }

  /** Below the chart the lookup clamps to XS, at or above its ceiling to XXL,
      both flagged as approximate. */
  lemma GenericClamp(chest: real)
    requires chest < Chart[0].min as real || chest >= Chart[|Chart| - 1].max as real
    ensures chest < Chart[0].min as real ==> GenericRecommendation(chest) == Recommendation(Some("XS"), Approximate)
    ensures chest >= Chart[|Chart| - 1].max as real ==> GenericRecommendation(chest) == Recommendation(Some("XXL"), Approximate)
  {
    var b := FirstBandFrom(chest, 0);
    if b.Some? {
      var k := b.value;
      if k > 0 {
        BandsOrdered(0, k);
      }
      if k < |Chart| - 1 {
        BandsOrdered(k, |Chart| - 1);
      }
      ChartWellFormed();
      assert false;
    }
  }
}
