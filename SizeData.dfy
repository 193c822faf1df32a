/** The values that flow between the size-information extractor and the recommender. */
module SizeData {
  import opened Wrappers

  /** The shopper's measurements as the popup sends them; only chest is used. */
  datatype UserMeasurements = UserMeasurements(chest: real, shoulders: real, length: real)

  /** The numbers read from a size chart's text; any of them may be missing. */
  datatype ChartMeasurements = ChartMeasurements(chest: Option<real>, shoulders: Option<real>, length: Option<real>)

  /**
   * The tagged size information: a measurement chart, raw size tokens found in
   * a chart's prose, tokens read from selectable options, or an object whose
   * `type` is none of these. A missing object (null) is `None` of `Option<SizeInfo>`.
   */
  datatype SizeInfo =
    | Measurements(data: ChartMeasurements)
    | Sizes(sizes: seq<string>)
    | Options(sizes: seq<string>)
    | Unrecognised

  /** Which explanation text accompanies a recommendation. */
  datatype Explanation =
    | GenericChart                // "Based on generic size chart (chest measurement)."
    | Approximate                 // "... This is an approximate recommendation."
    | ChestChart                  // "Based on chest measurements from the size chart."
    | Available(generic: Explanation)  // the generic explanation + " This size is available."
    | NotAvailable(ideal: string)      // "... we recommend <ideal>, but it's not available. ..."

  /** `size` is absent when the closest-size search had nothing to choose from. */
  datatype Recommendation = Recommendation(size: Option<string>, explanation: Explanation)
}
