# FitMatch size recommendation, modelled in Dafny

FitMatch is a browser extension that reads a product page and recommends a
garment size from the shopper's chest measurement. This project models the
decision logic of its content script, `content.js`:

- the fixed generic chest chart (XS to XXL, half-open intervals from 30 to 49)
  and the lookup that clamps outside it (`recommendGenericSize`);
- nearest-midpoint matching when a measurement chart was found
  (`recommendFromMeasurements`);
- closest-available substitution when only a list of sizes was found
  (`recommendFromSizeList`);
- the dispatch over the kinds of size information (`recommendSize`);
- the text extractors that produce that information: the keyword/number
  search (`findMeasurement`), the whole-word size-token normaliser
  (`normalizeSizeOption`) and the element classifier (`extractSizeInformation`).

Each regular expression becomes an explicit scanner over `seq<char>`. The
scanners follow JavaScript's semantics without the `u` flag: leftmost start
first, alternatives tried in the order written, `\d` is 0-9, and `\b` separates
`[A-Za-z0-9_]` from other characters. Under the `i` flag no non-ASCII character
folds onto an ASCII one, and every letter of these patterns is ASCII, so the
scanners compare under ASCII case folding and accept exactly the same text. The loops of the source (`recommendGenericSize`,
`recommendFromMeasurements`, the `forEach` of `recommendFromSizeList`,
`findMeasurement`) are methods with loop invariants, each proved equal to a
specification function; the expression-style code (`recommendSize`,
`normalizeSizeOption`, `extractSizeInformation`) is functions. Both nearest-size
loops keep the best candidate so far and replace it only on a strictly smaller
distance; `ArgMin.FirstArgMin` states what such a scan ends on (the first index
of minimal cost), and both loops are proved against it. The starting distance
`Infinity` is written as `None`.

Modules: `Wrappers` (Option), `ArgMin`, `SizeData` (the values passed between
components), `SizeChart`, `Recommender`, `TextScan` (character classes),
`MeasurementText`, `SizeTokens`, `Extractor`.

Behaviour that follows from the code and is proved here, where a prose reading
could suggest otherwise:

- Keyword priority decides `findMeasurement`, not position in the text:
  "bust 36, chest 38" searched with `["chest", "bust"]` gives 38
  (`MeasurementText.KeywordOrderBeatsTextOrder`).
- A chest of 40 is equally far (1.5) from the midpoints of M and L; the strict
  `<` keeps M (`Recommender.ChestFortyTiesToM`).
- A size outside `["XS","S","M","L","XL","XXL"]`, such as XXXL, is not
  unreachable: `indexOf` gives -1 and it ranks just below XS, so for an XS
  shopper offered XL and XXXL the substitute is XXXL
  (`Recommender.UnlistedSizeRanksBelowXS`).
- `extractSizeInformation` keeps the raw matches of its size pattern in the
  text's own case and without word boundaries, so when no keyword of the
  three measurement groups is followed by a digit, any s, m or l in the text
  (for example inside "Small") yields a sizes result
  (`Extractor.SizesExactlyWithSizeLetter`); a token kept with a lower-case
  letter never equals the upper-case generic size and ranks as position -1
  (`Extractor.RawCaseOutsideOrder`).
- The global size pattern is modelled as a table of the alternative tried
  first at each position and a scan over it (`SizeTokens.SpansFrom`); the
  matches are proved to be in text order, not to overlap, and to leave no
  match in any gap (`SizeTokens.SizeMatchesGlobal`).

## Model

| member | source | states |
|---|---|---|
| `ArgMin.FirstArgMin` | content.js:169-176 | the scan with a strict `<` ends on an index of minimal cost, and every earlier index costs strictly more |
| `SizeChart.ChartWellFormed` | content.js:1-8 | every chart interval is non-empty, each starts where the previous one ends, and the labels are XS, S, M, L, XL, XXL in that order |
| `SizeChart.BandsOrdered` | content.js:1-8 | a later chart interval lies entirely above an earlier one |
| `SizeChart.BandsDisjoint` | content.js:1-8 | no chest value lies in two chart intervals |
| `SizeChart.FirstBandFrom` | content.js:220-227 | the result is the first interval (in key order) containing the chest value, or none when no remaining interval contains it |
| `SizeChart.GenericRecommendation` | content.js:217-233 | the generic recommendation is always one of the six chart labels, with the generic-chart or the approximate explanation |
| `SizeChart.RecommendGenericSize` | content.js:217-233 | the loop with early return and the clamp after it compute the generic recommendation |
| `SizeChart.AboveBandsWithout` | content.js:1-8 | a chest value at or above the chart floor that no interval up to j contains is at or above interval j's ceiling |
| `SizeChart.GenericInsideChart` | content.js:220-227 | for 30 <= chest < 49 exactly one interval contains the chest, and its label is returned with the generic-chart explanation |
| `SizeChart.GenericClamp` | content.js:229-232 | below 30 the result is XS, at 49 or above it is XXL, both with the approximate explanation |
| `Recommender.Truthy` | content.js:164 | the chart's chest is truthy when present and not zero |
| `Recommender.MeasurementsRecommendation` | content.js:163-185 | with a truthy chart chest the label is one whose midpoint is nearest the shopper's chest, the earliest on ties; otherwise the generic lookup |
| `Recommender.RecommendFromMeasurements` | content.js:163-185 | the best-so-far loop over the chart computes the nearest-midpoint recommendation |
| `Recommender.IndexOf` | content.js:198 | indexOf returns a position of the order or -1 |
| `Recommender.IndexFromFirstPosition` | content.js:198 | the scan from a position returns the first position holding the value, and -1 exactly when no later position holds it |
| `Recommender.IndexOfFirstPosition` | content.js:198 | indexOf returns the first position holding the value, and -1 exactly when the value is absent |
| `Recommender.ChooseFromList` | content.js:190-214 | an offered generic size is kept with the "available" explanation; otherwise the explanation names the ideal size, the result is an offered size, and it is absent only for an empty list |
| `Recommender.ClosestAvailableSize` | content.js:197-209 | when the generic size is not offered, the substitute minimises the distance of indexOf positions in the size order, the first such in list order, sizes outside the order counting as -1 |
| `Recommender.ClosestAvailable` | content.js:200-209 | the forEach loop ends on the first offered size of smallest index distance, and on undefined for an empty list |
| `Recommender.SizeListRecommendation` | content.js:187-215 | an offered generic size is returned with the "available" explanation; otherwise an offered size, missing only for an empty list, with the ideal size named |
| `Recommender.RecommendFromSizeList` | content.js:187-215 | the method computes the size-list recommendation from the generic one |
| `Recommender.RecommendSize` | content.js:146-161 | no size information gives the generic lookup; the recommended size is always a chart label or one of the offered sizes, and is missing only when an empty size list was offered |
| `Recommender.DispatchFallbacks` | content.js:146-161 | sizes and options are handled identically; an unrecognised kind, and a chart whose chest is missing or zero, give the generic lookup |
| `Recommender.ChestFortyTiesToM` | content.js:169-176 | chest 40 ties M and L at distance 1.5 and yields M |
| `Recommender.TieGoesToFirstListed` | content.js:203-209 | generic M with S and L offered: both are one step away and the first listed wins |
| `Recommender.UnlistedSizeRanksBelowXS` | content.js:197-204 | generic XS with XL and XXXL offered yields XXXL, because XXXL ranks as position -1 |
| `MeasurementText.FirstDigitFrom` | content.js:104 | `[^\d]*` stops at the first digit at or after a position, or the text has no digit from there on |
| `MeasurementText.DigitRunEnd` | content.js:104 | a greedy `\d+` ends at the end of the maximal digit run |
| `MeasurementText.DigitsValueBound` | content.js:107 | n digits denote a value below 10^n |
| `MeasurementText.DigitsValueAppend` | content.js:107 | appending digits b to digits a gives a's value shifted by as many decimal places as b has digits, plus b's value |
| `MeasurementText.DecimalValue` | content.js:107 | the number written as whole digits, '.', fraction digits lies in [whole, whole + 1) and equals all the digits' value over ten to the number of fraction digits |
| `MeasurementText.NumberAt` | content.js:104-107 | parseFloat of the capture: without a '.' and a following digit it is the digit run's value; with them, all the digits' value over ten to the number of fraction digits; in both cases the digit run is its whole-number part |
| `MeasurementText.ExampleFraction` | content.js:104-107 | "38.5in" reads as 38.5 |
| `MeasurementText.MatchAt` | content.js:104 | the pattern matches at a start exactly when the keyword occurs there in any ASCII case and a digit follows somewhere after it; the value is never negative |
| `MeasurementText.SearchFrom` | content.js:104-107 | the leftmost match's value is never negative, since a '-' is consumed by `[^\d]*` |
| `MeasurementText.SearchFindsIff` | content.js:104-106 | the keyword pattern matches exactly when some occurrence of the keyword, in any ASCII case, is followed anywhere later by a digit |
| `MeasurementText.SearchSkips` | content.js:105 | start positions where the keyword does not occur are skipped by the search |
| `MeasurementText.SearchNoDigitsLeft` | content.js:105 | once no digit remains after the keyword's end, no later start matches |
| `MeasurementText.LeftmostKeyword` | content.js:104-107 | the value is the number at the first digit after the keyword's leftmost occurrence; if no digit follows it, the search fails |
| `MeasurementText.Measurement` | content.js:102-111 | a measurement found by the keyword loop is never negative |
| `MeasurementText.FindMeasurement` | content.js:102-111 | the loop with early return over the keywords computes the measurement |
| `MeasurementText.MeasurementNoneIff` | content.js:103-110 | the result is null exactly when no keyword is followed anywhere later by a digit |
| `MeasurementText.MeasurementPriority` | content.js:103-108 | the first keyword in list order that is followed by a digit decides the value; later keywords are not consulted |
| `MeasurementText.KeywordOrderBeatsTextOrder` | content.js:103-108 | "bust 36, chest 38" searched with chest before bust gives 38 |
| `SizeTokens.TokensShape` | content.js:142 | every size token is non-empty, upper case, made of word characters and ends in S, M or L |
| `SizeTokens.OneAlternativePerPosition` | content.js:142 | no two size tokens match at the same position |
| `SizeTokens.FirstAlternative` | content.js:142 | the alternative tried first among those that match at a position, or none matches |
| `SizeTokens.UpperOfMatch` | content.js:143 | upper-casing the matched text gives the token |
| `SizeTokens.ScanWholeToken` | content.js:142-143 | a result of the scan is one of the canonical tokens |
| `SizeTokens.NormalizeSizeOption` | content.js:141-144 | the result is null or one of XS, S, M, L, XL, XXL, XXXL |
| `SizeTokens.ScanNoneIff` | content.js:142 | the scan from a position finds nothing exactly when no whole-word token starts there or later |
| `SizeTokens.NormalizeNoneIff` | content.js:141-144 | the result is null exactly when no size token stands as a whole word in the text |
| `SizeTokens.ScanSkips` | content.js:142 | positions without a whole-word token are skipped |
| `SizeTokens.NormalizeLeftmost` | content.js:142-143 | the result is the leftmost whole-word token, upper-cased |
| `SizeTokens.NormalizeIgnoresCase` | content.js:142-143 | a text that is a size token in any ASCII case normalises to that token |
| `SizeTokens.NormalizeIdempotent` | content.js:141-144 | normalising a normalised token gives the same token |
| `SizeTokens.SizeMatches` | content.js:89-90 | every global match upper-cases to a size token |
| `SizeTokens.AlternativeLength` | content.js:89 | the length of the alternative tried first at a position: absent exactly when no alternative matches there, otherwise a non-empty stretch ending inside the text |
| `SizeTokens.AlternativesWellFormed` | content.js:89 | at every position of the text, the alternative the global regular expression tries first either fails or covers a non-empty stretch ending inside the text |
| `SizeTokens.SpansFrom` | content.js:89 | the global search over the table of first-alternative lengths yields spans that start at or after the search start and end inside the text |
| `SizeTokens.MatchSpans` | content.js:89 | every span of the global search starts at or after the search start and ends inside the text |
| `SizeTokens.SpansFromAtMatches` | content.js:89 | each span starts where the first alternative that matches has exactly the span's length |
| `SizeTokens.SpansFromOrdered` | content.js:89 | the spans are in text order and do not overlap |
| `SizeTokens.SpansFromCovers` | content.js:89 | every position from the search start where some alternative matches lies inside a span, so the search skips no match |
| `SizeTokens.SpansFromGlobal` | content.js:89 | the spans are exactly a global leftmost-first search: at matches, ordered, non-overlapping, nothing skipped |
| `SizeTokens.SpansSpellTokens` | content.js:89 | each span's text upper-cases to a size token and ends in s, m or l |
| `SizeTokens.SizeMatchesGlobal` | content.js:89-90 | the returned matches are the text at the spans of the global search, in text order, without overlap, and with no match in any gap |
| `SizeTokens.NoMatchInGaps` | content.js:89 | at a position outside every match, from the search start on, no size alternative matches |
| `SizeTokens.SizeLetterCovered` | content.js:89 | every s, m or l from the search start on lies inside one of the matches |
| `SizeTokens.SizeMatchesFromText` | content.js:89-90 | every global match is the text's own characters, unchanged in case, at a position at or after the start |
| `SizeTokens.SizeMatchesEmptyIff` | content.js:89-92 | the global match finds nothing exactly when the text holds no s, m or l in either case |
| `SizeTokens.Dedup` | content.js:95 | the de-duplicated list holds the same strings as the matches, each once, compared case-sensitively, in order of first appearance: an element listed earlier occurs before every occurrence of one listed later |
| `Extractor.ChartOf` | content.js:75-79 | each of chest, shoulders and length is missing exactly when no keyword of its group (chest/bust/width, shoulder/shoulders/yoke, length/height) is followed by a digit, and is never negative |
| `Extractor.ExtractSizeInformation` | content.js:70-100 | a missing element gives null; any one keyword search succeeding gives the measurements variant; otherwise the de-duplicated global matches of the size pattern when there are any, else null; a sizes list is non-empty, duplicate-free and token-shaped |
| `Extractor.ExtractedSizesFromText` | content.js:89-95 | every extracted size is the element's own characters, in its own case, spelling a size token |
| `Extractor.RawCaseOutsideOrder` | content.js:197-198 | a size string holding a lower-case letter never equals the generic size and indexOf ranks it at -1 |
| `Extractor.SizesExactlyWithSizeLetter` | content.js:88-99 | without measurements, a sizes result exists exactly when the text contains s, m or l in either case |
| `Extractor.ExtractedInfoAlwaysGivesSize` | content.js:92-96 | fed with extracted information, the recommender always names a size |

## Left out

- `findSizeInformation` (content.js:10-68): the candidate pool is built from `document.querySelectorAll`, `textContent` and `parentElement` walks over a live page; the model starts from an element's text.
- `findSizeOptions` (content.js:113-139): it queries the page for `select` elements whose name contains "size", elements whose class contains "size-select" or "size-option", and elements with `data-variant-type="size"`, and reads their options or text; only its per-text step, `normalizeSizeOption`, is modelled.
- The `chrome.runtime.onMessage` listener (content.js:235-242) and all of popup.js: message transport, storage, form input and rendering.
- NaN and Infinity: the shopper's chest is a `real`. With NaN the source clamps to XXL and `recommendFromMeasurements` returns a null size; neither is modelled. Distances are exact as well: in the source, `Math.abs(chest - midpoint)` rounds to a double, so for a chest of 2^55 or more distances to different midpoints can round to the same value (for a chest of 5e16 those to XL and XXL both become 5e16 - 48) and the strict `<` keeps XL where the model's exact distances pick XXL.
- `MeasurementText.NumberAt`: parseFloat is modelled exactly over the rationals; rounding to the nearest double is not modelled, which changes the value of every decimal a double cannot hold exactly ("38.1", say) and makes a long enough "0.000…01" underflow to 0 in the source, so that its chest value turns falsy at content.js:164 and the dispatch takes the generic lookup where the model, whose value stays above zero, takes the chart branch.
- `MeasurementText.MatchAt`: the keyword is matched as literal text (the source inserts it into the pattern unescaped; every keyword it passes is plain letters), and the trailing `[^\d]*(?:inches|"|in)?` is left out because it always matches and never changes the capture.
- Explanations are the `Explanation` datatype, not their exact wording.
- Shoulder and length measurements are carried but, as in the source, never used by a recommendation.
