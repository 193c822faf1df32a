/**
 * `extractSizeInformation`: classify a candidate element's text as a
 * measurement chart, a list of raw size tokens, or nothing. The element is
 * given by its text content; a missing element is None.
 */
module Extractor {
  import opened Wrappers
  import opened TextScan
  import opened SizeData
  import opened MeasurementText
  import opened SizeTokens
  import opened SizeChart
  import opened Recommender

  const ChestKeywords: seq<string> := ["chest", "bust", "width"]
  const ShoulderKeywords: seq<string> := ["shoulder", "shoulders", "yoke"]
  const LengthKeywords: seq<string> := ["length", "height"]

  /** The three keyword searches over the element's text: each value is
      missing exactly when no keyword of its group is followed by a digit, and
      is never negative. */
  function ChartOf(text: string): (c: ChartMeasurements)
    ensures c.chest.None? <==> forall k :: 0 <= k < |ChestKeywords| ==> !FollowedByDigit(text, ChestKeywords[k])
    ensures c.shoulders.None? <==> forall k :: 0 <= k < |ShoulderKeywords| ==> !FollowedByDigit(text, ShoulderKeywords[k])
    ensures c.length.None? <==> forall k :: 0 <= k < |LengthKeywords| ==> !FollowedByDigit(text, LengthKeywords[k])
    ensures c.chest.Some? ==> c.chest.value >= 0.0
    ensures c.shoulders.Some? ==> c.shoulders.value >= 0.0
    ensures c.length.Some? ==> c.length.value >= 0.0
  {
    MeasurementNoneIff(text, ChestKeywords);
    MeasurementNoneIff(text, ShoulderKeywords);
    MeasurementNoneIff(text, LengthKeywords);
    ChartMeasurements(
      Measurement(text, ChestKeywords),
      Measurement(text, ShoulderKeywords),
      Measurement(text, LengthKeywords))
  }

  predicate HasMeasurement(c: ChartMeasurements)
  {
    c.chest.Some? || c.shoulders.Some? || c.length.Some?
  }

  /** extractSizeInformation. Measurements win whenever any one of the three
      searches finds a value; otherwise the distinct raw token matches (in the
      text's own case, compared case-sensitively, in order of first
      appearance); otherwise nothing. */
  function ExtractSizeInformation(element: Option<string>): (r: Option<SizeInfo>)
    ensures element.None? ==> r.None?
    ensures element.Some? && HasMeasurement(ChartOf(element.value)) ==> r == Some(Measurements(ChartOf(element.value)))
    ensures r.Some? ==> r.value.Measurements? || r.value.Sizes?
    ensures r.Some? && r.value.Measurements? ==> HasMeasurement(r.value.data)
    ensures r.Some? && r.value.Sizes? ==>
              && |r.value.sizes| > 0
              && (forall i, j :: 0 <= i < j < |r.value.sizes| ==> r.value.sizes[i] != r.value.sizes[j])
              && (forall s :: s in r.value.sizes ==> UpperString(s) in Tokens)
    ensures element.Some? && !HasMeasurement(ChartOf(element.value)) ==>
              r == (if SizeMatches(element.value, 0) == [] then None else Some(Sizes(Dedup(SizeMatches(element.value, 0)))))
  {
    if element.None? then None
    else
      var text := element.value;
      var measurements := ChartOf(text);
      if HasMeasurement(measurements) then
        Some(Measurements(measurements))
      else
        var matches := SizeMatches(text, 0);
        if |matches| > 0 then
          assert matches[0] in Dedup(matches);
          Some(Sizes(Dedup(matches)))
        else
          None
  }

  /** Without measurements, size information is found exactly when the text
      contains an s, m or l in either case (no word boundary is required). */
  lemma SizesExactlyWithSizeLetter(text: string)
    requires !HasMeasurement(ChartOf(text))
    ensures ExtractSizeInformation(Some(text)).Some? <==> exists i :: 0 <= i < |text| && IsSizeLetter(text[i])
    ensures ExtractSizeInformation(Some(text)).Some? ==> ExtractSizeInformation(Some(text)).value.Sizes?
  {
    SizeMatchesEmptyIff(text, 0);
  }

  /** Every extracted size is the element's own characters, in its own case,
      spelling a size token. */
  lemma ExtractedSizesFromText(text: string)
    requires ExtractSizeInformation(Some(text)).Some? && ExtractSizeInformation(Some(text)).value.Sizes?
    ensures forall s :: s in ExtractSizeInformation(Some(text)).value.sizes ==> TextAt(text, 0, s) && UpperString(s) in Tokens
  {
    SizeMatchesFromText(text, 0);
  }

  /** A raw match that kept a lower-case letter is never the generic size, and
      indexOf ranks it at -1, below XS. */
  lemma RawCaseOutsideOrder(s: string, chest: real)
    requires exists i :: 0 <= i < |s| && Upper(s[i]) != s[i]
    ensures s != GenericLabel(chest)
    ensures IndexOf(SizeOrder, s) == -1
  {
    var i :| 0 <= i < |s| && Upper(s[i]) != s[i];
    forall t | t in SizeOrder
      ensures t != s
    {
      assert forall j :: 0 <= j < |t| ==> Upper(t[j]) == t[j];
    }
    IndexOfFirstPosition(SizeOrder, s);
  }

  /** Fed from the extractor, the recommender always names a size: a sizes
      result is never empty. */
  lemma ExtractedInfoAlwaysGivesSize(measurements: UserMeasurements, element: Option<string>)
    ensures RecommendSize(measurements, ExtractSizeInformation(element)).size.Some?
  {
  }
}
