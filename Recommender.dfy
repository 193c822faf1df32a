/**
 * The size recommender: nearest-midpoint matching against a measurement
 * chart, closest-available substitution for a list of sizes, and the
 * dispatch over the kinds of size information (`recommendSize`,
 * `recommendFromMeasurements`, `recommendFromSizeList` in content.js).
 */
module Recommender {
  import opened Wrappers
  import opened ArgMin
  import opened SizeData
  import opened SizeChart

  function Abs(x: real): real
  {
    if x < 0.0 then -x else x
  }

  function Midpoint(b: Band): real
  {
    (b.min + b.max) as real / 2.0
  }

  /** |chest - midpoint| for every chart band, in chart order. */
  function MidpointDistances(chest: real): (d: seq<real>)
    ensures |d| == |Chart|
  {
    seq(|Chart|, k requires 0 <= k < |Chart| => Abs(chest - Midpoint(Chart[k])))
  }

  /** JavaScript truthiness of the chart's chest value: present and not zero. */
  predicate Truthy(v: Option<real>)
  {
    v.Some? && v.value != 0.0
  }

  /** What `recommendFromMeasurements` returns. When the chart has a chest
      value, the label whose midpoint is nearest the shopper's chest, the
      earliest label on ties; the chart's own number is only tested for
      truthiness (present and non-zero), never compared. Otherwise the generic lookup. */
  function MeasurementsRecommendation(user: UserMeasurements, data: ChartMeasurements): (r: Recommendation)
    ensures Truthy(data.chest) ==> r.explanation == ChestChart
    ensures Truthy(data.chest) ==>
              exists k: nat :: IsFirstArgMin(MidpointDistances(user.chest), k) && r.size == Some(Chart[k].name)
    ensures !Truthy(data.chest) ==> r == GenericRecommendation(user.chest)
  {
    if Truthy(data.chest) then
      Recommendation(Some(Chart[FirstArgMin(MidpointDistances(user.chest))].name), ChestChart)
    else
      GenericRecommendation(user.chest)
  }

  /** recommendFromMeasurements: one pass over the chart keeping the best label
      and its distance; `smallestDiff` starts at Infinity, written as None. */
  method RecommendFromMeasurements(userMeasurements: UserMeasurements, chartMeasurements: ChartMeasurements)
    returns (r: Recommendation)
    ensures r == MeasurementsRecommendation(userMeasurements, chartMeasurements)
  {
    if Truthy(chartMeasurements.chest) {
      var chest := userMeasurements.chest;
      var bestSize: Option<string> := None;
      var smallestDiff: Option<real> := None;
      ghost var costs := MidpointDistances(chest);
      for i := 0 to |Chart|
        invariant i == 0 ==> bestSize.None? && smallestDiff.None?
        invariant i > 0 ==> (bestSize == Some(Chart[FirstArgMin(costs[..i])].name)
                             && smallestDiff == Some(costs[FirstArgMin(costs[..i])]))
      {
        var range := Chart[i];
        var midpoint := (range.min + range.max) as real / 2.0;
        var diff := Abs(chest - midpoint);
        assert diff == costs[i];
        if i > 0 {
          FirstArgMinStep(costs, i);
        }
        if smallestDiff.None? || diff < smallestDiff.value {
          smallestDiff := Some(diff);
          bestSize := Some(range.name);
        }
      }
      assert costs[..|Chart|] == costs;
      return Recommendation(bestSize, ChestChart);
    }
    r := RecommendGenericSize(userMeasurements);
  }

  function AbsInt(x: int): int
  {
    if x < 0 then -x else x
  }

  /** The scan behind Array.prototype.indexOf, from position `from` on. */
  function IndexFrom(order: seq<string>, s: string, from: nat): (i: int)
    requires from <= |order|
    ensures i == -1 || from <= i < |order|
    decreases |order| - from
  {
    if from == |order| then -1
    else if order[from] == s then from
    else IndexFrom(order, s, from + 1)
  }

  /** Array.prototype.indexOf: a position of `order`, or -1. */
  function IndexOf(order: seq<string>, s: string): (i: int)
    ensures -1 <= i < |order|
  {
    IndexFrom(order, s, 0)
  }

  lemma {:induction false} IndexFromFirstPosition(order: seq<string>, s: string, from: nat)
    requires from <= |order|
    ensures IndexFrom(order, s, from) == -1 <==> forall j :: from <= j < |order| ==> order[j] != s
    ensures IndexFrom(order, s, from) >= 0 ==>
              order[IndexFrom(order, s, from)] == s
              && forall j :: from <= j < IndexFrom(order, s, from) ==> order[j] != s
    decreases |order| - from
  {
    if from < |order| && order[from] != s {
      IndexFromFirstPosition(order, s, from + 1);
    }
  }

  /** indexOf gives the first position holding s, and -1 exactly when s is absent. */
  lemma IndexOfFirstPosition(order: seq<string>, s: string)
    ensures IndexOf(order, s) == -1 <==> s !in order
    ensures IndexOf(order, s) >= 0 ==>
              order[IndexOf(order, s)] == s && forall j :: 0 <= j < IndexOf(order, s) ==> order[j] != s
  {
    IndexFromFirstPosition(order, s, 0);
  }

  /** |indexOf(size) - indexOf(generic)| for every available size, in list order;
      a size outside the order counts as position -1. */
  function IndexDistances(order: seq<string>, available: seq<string>, target: int): (d: seq<real>)
    ensures |d| == |available|
  {
    seq(|available|, i requires 0 <= i < |available| => AbsInt(IndexOf(order, available[i]) - target) as real)
  }

  /** What `recommendFromSizeList` makes of the generic recommendation and the
      offered sizes: the generic size itself when offered (an exact string
      match), otherwise an offered substitute, or nothing for an empty list. */
  function ChooseFromList(generic: Recommendation, available: seq<string>): (r: Recommendation)
    requires generic.size.Some?
    ensures generic.size.value in available ==> r == Recommendation(generic.size, Available(generic.explanation))
    ensures generic.size.value !in available ==> r.explanation == NotAvailable(generic.size.value)
    ensures generic.size.value !in available && available == [] ==> r.size.None?
    ensures generic.size.value !in available && available != [] ==> r.size.Some? && r.size.value in available
  {
    var ideal := generic.size.value;
    if ideal in available then
      Recommendation(Some(ideal), Available(generic.explanation))
    else if available == [] then
      Recommendation(None, NotAvailable(ideal))
    else
      var k := FirstArgMin(IndexDistances(SizeOrder, available, IndexOf(SizeOrder, ideal)));
      Recommendation(Some(available[k]), NotAvailable(ideal))
  }

  /** What `recommendFromSizeList` returns: the generic size when it is
      offered; otherwise an offered size (none for an empty list) with the
      ideal size named in the explanation. */
  function SizeListRecommendation(user: UserMeasurements, available: seq<string>): (r: Recommendation)
    ensures GenericLabel(user.chest) in available ==>
              r == Recommendation(Some(GenericLabel(user.chest)), Available(GenericRecommendation(user.chest).explanation))
    ensures GenericLabel(user.chest) !in available ==>
              r.explanation == NotAvailable(GenericLabel(user.chest)) && (r.size.None? <==> available == [])
    ensures r.size.Some? ==> r.size.value in available
  {
    ChooseFromList(GenericRecommendation(user.chest), available)
  }

  /** When the generic size is not offered, the substitute is an offered size
      whose distance from it in the size order is smallest, the first such in
      the list; a size outside the order is ranked as position -1. */
  lemma ClosestAvailableSize(user: UserMeasurements, available: seq<string>)
    requires GenericLabel(user.chest) !in available && available != []
    ensures exists k: nat :: IsFirstArgMin(IndexDistances(SizeOrder, available, IndexOf(SizeOrder, GenericLabel(user.chest))), k)
                          && SizeListRecommendation(user, available).size == Some(available[k])
  {
    var k := FirstArgMin(IndexDistances(SizeOrder, available, IndexOf(SizeOrder, GenericLabel(user.chest))));
    assert ChooseFromList(GenericRecommendation(user.chest), available).size == Some(available[k]);
  }

  /** The forEach of recommendFromSizeList: one pass over the offered sizes
      keeping the first one whose position in the size order is closest to
      `recommendedIndex`. `closestSize` starts as the first offered size
      (undefined, written None, for an empty list) and `smallestDiff` at
      Infinity, written None. */
  method ClosestAvailable(sizeOrder: seq<string>, availableSizes: seq<string>, recommendedIndex: int)
    returns (closestSize: Option<string>)
    ensures availableSizes == [] ==> closestSize.None?
    ensures availableSizes != [] ==>
              closestSize == Some(availableSizes[FirstArgMin(IndexDistances(sizeOrder, availableSizes, recommendedIndex))])
  {
    closestSize := if |availableSizes| > 0 then Some(availableSizes[0]) else None;
    var smallestDiff: Option<real> := None;
    ghost var costs := IndexDistances(sizeOrder, availableSizes, recommendedIndex);
    for i := 0 to |availableSizes|
      invariant i == 0 ==> smallestDiff.None? && closestSize == (if |availableSizes| > 0 then Some(availableSizes[0]) else None)
      invariant i > 0 ==> (closestSize == Some(availableSizes[FirstArgMin(costs[..i])])
                           && smallestDiff == Some(costs[FirstArgMin(costs[..i])]))
    {
      var size := availableSizes[i];
      var diff := AbsInt(IndexOf(sizeOrder, size) - recommendedIndex) as real;
      assert diff == costs[i];
      if i > 0 {
        FirstArgMinStep(costs, i);
      }
      if smallestDiff.None? || diff < smallestDiff.value {
        smallestDiff := Some(diff);
        closestSize := Some(size);
      }
    }
    assert costs[..|availableSizes|] == costs;
  }

  /** recommendFromSizeList: keep the generic size if it is offered, otherwise
      substitute the closest offered size. */
  method RecommendFromSizeList(measurements: UserMeasurements, availableSizes: seq<string>)
    returns (r: Recommendation)
    ensures r == SizeListRecommendation(measurements, availableSizes)
  {
    var recommendedGeneric := RecommendGenericSize(measurements);
    var generic := recommendedGeneric.size.value;
    if generic in availableSizes {
      return Recommendation(Some(generic), Available(recommendedGeneric.explanation));
    }
    var sizeOrder := SizeOrder;
    var recommendedIndex := IndexOf(sizeOrder, generic);
    var closestSize := ClosestAvailable(sizeOrder, availableSizes, recommendedIndex);
    r := Recommendation(closestSize, NotAvailable(generic));
  }

  /** recommendSize: dispatch on the kind of size information. The result is a
      chart label or one of the offered sizes, and is missing only when an
      empty size list was offered. */
  function RecommendSize(measurements: UserMeasurements, sizeInfo: Option<SizeInfo>): (r: Recommendation)
    ensures sizeInfo.None? ==> r == GenericRecommendation(measurements.chest)
    ensures r.size.Some? ==>
              || r.size.value in SizeOrder
              || (sizeInfo.Some? && (sizeInfo.value.Sizes? || sizeInfo.value.Options?) && r.size.value in sizeInfo.value.sizes)
    ensures r.size.None? ==> sizeInfo.Some? && (sizeInfo.value.Sizes? || sizeInfo.value.Options?) && sizeInfo.value.sizes == []
  {
    if sizeInfo.None? then GenericRecommendation(measurements.chest)
    else
      match sizeInfo.value
      case Measurements(data) => MeasurementsRecommendation(measurements, data)
      case Sizes(sizes) => SizeListRecommendation(measurements, sizes)
      case Options(sizes) => SizeListRecommendation(measurements, sizes)
      case Unrecognised => GenericRecommendation(measurements.chest)
  }

  /** Sizes and options are handled alike; a missing or unrecognised kind, and
      a chart whose chest value is missing or zero, fall back to the generic lookup. */
  lemma DispatchFallbacks(measurements: UserMeasurements, sizes: seq<string>, data: ChartMeasurements)
    ensures RecommendSize(measurements, Some(Sizes(sizes))) == RecommendSize(measurements, Some(Options(sizes)))
    ensures RecommendSize(measurements, Some(Unrecognised)) == GenericRecommendation(measurements.chest)
    ensures !Truthy(data.chest) ==>
              RecommendSize(measurements, Some(Measurements(data))) == GenericRecommendation(measurements.chest)
  {
  }

  /** A chest of 40 is 1.5 from both M's and L's midpoints; the strict
      comparison keeps the earlier label, M. */
  lemma ChestFortyTiesToM(user: UserMeasurements, data: ChartMeasurements)
    requires user.chest == 40.0 && Truthy(data.chest)
    ensures MeasurementsRecommendation(user, data) == Recommendation(Some("M"), ChestChart)
  {
    var d := MidpointDistances(40.0);
    assert d[0] == 8.0 && d[1] == 4.5 && d[2] == 1.5 && d[3] == 1.5 && d[4] == 4.5 && d[5] == 7.5;
    FirstArgMinUnique(d, 2);
  }

  /** With generic size M unavailable and S, L offered, both are one step away;
      the first listed wins. */
  lemma TieGoesToFirstListed(user: UserMeasurements)
    requires user.chest == 38.0
    ensures SizeListRecommendation(user, ["S", "L"]) == Recommendation(Some("S"), NotAvailable("M"))
    ensures SizeListRecommendation(user, ["L", "S"]) == Recommendation(Some("L"), NotAvailable("M"))
  {
    GenericInsideChart(38.0);
    assert InBand(2, 38.0);
    assert GenericLabel(38.0) == "M";
    var d1 := IndexDistances(SizeOrder, ["S", "L"], 2);
    assert d1[0] == 1.0 && d1[1] == 1.0;
    FirstArgMinUnique(d1, 0);
    var d2 := IndexDistances(SizeOrder, ["L", "S"], 2);
    assert d2[0] == 1.0 && d2[1] == 1.0;
    FirstArgMinUnique(d2, 0);
  }

  /** A token outside the size order, such as XXXL, ranks as position -1, just
      below XS: for an XS shopper it beats XL. */
  lemma UnlistedSizeRanksBelowXS(user: UserMeasurements)
    requires user.chest == 32.0
    ensures SizeListRecommendation(user, ["XL", "XXXL"]) == Recommendation(Some("XXXL"), NotAvailable("XS"))
  {
    GenericInsideChart(32.0);
    assert InBand(0, 32.0);
    assert GenericLabel(32.0) == "XS";
    var d := IndexDistances(SizeOrder, ["XL", "XXXL"], 0);
    assert d[0] == 4.0 && d[1] == 1.0;
    FirstArgMinUnique(d, 1);
  }
}
