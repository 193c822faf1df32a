/**
 * `findMeasurement`: for each keyword in priority order, the regular
 * expression `<keyword>[^\d]*(\d+(?:\.\d+)?)[^\d]*(?:inches|"|in)?` with the
 * `i` flag, and parseFloat of its capture. The trailing `[^\d]*(?:...)?`
 * always matches (possibly empty), so it never decides whether a match exists
 * and never changes the capture; the scanner below leaves it out.
 */
module MeasurementText {
  import opened Wrappers
  import opened TextScan

  /** The first digit at or after i: where `[^\d]*` stops. */
  function FirstDigitFrom(text: string, i: nat): (q: Option<nat>)
    requires i <= |text|
    ensures q.Some? ==> i <= q.value < |text| && IsDigit(text[q.value])
    ensures q.Some? ==> forall j :: i <= j < q.value ==> !IsDigit(text[j])
    ensures q.None? ==> forall j :: i <= j < |text| ==> !IsDigit(text[j])
    decreases |text| - i
  {
    if i == |text| then None
    else if IsDigit(text[i]) then Some(i)
    else FirstDigitFrom(text, i + 1)
  }

  /** The end of the maximal digit run starting at i: where a greedy `\d+` stops. */
  function DigitRunEnd(text: string, i: nat): (e: nat)
    requires i <= |text|
    ensures i <= e <= |text|
    ensures forall j :: i <= j < e ==> IsDigit(text[j])
    ensures e < |text| ==> !IsDigit(text[e])
    decreases |text| - i
  {
    if i < |text| && IsDigit(text[i]) then DigitRunEnd(text, i + 1) else i
  }

  function DigitValue(c: char): nat
    requires IsDigit(c)
  {
    c as int - '0' as int
  }

  /** The decimal value of a string of digits. */
  function DigitsValue(s: string): nat
    requires forall i :: 0 <= i < |s| ==> IsDigit(s[i])
  {
    if |s| == 0 then 0 else DigitsValue(s[..|s| - 1]) * 10 + DigitValue(s[|s| - 1])
  }

  function Pow10(n: nat): (p: nat)
    ensures p > 0
  {
    if n == 0 then 1 else 10 * Pow10(n - 1)
  }

  /** n digits denote a value below 10^n. */
  lemma {:induction false} DigitsValueBound(s: string)
    requires forall i :: 0 <= i < |s| ==> IsDigit(s[i])
    ensures DigitsValue(s) < Pow10(|s|)
  {
    if |s| > 0 {
      DigitsValueBound(s[..|s| - 1]);
    }
  }

  /** Appending digits b to digits a shifts a by |b| decimal places. */
  lemma {:induction false} DigitsValueAppend(a: string, b: string)
    requires forall i :: 0 <= i < |a| ==> IsDigit(a[i])
    requires forall i :: 0 <= i < |b| ==> IsDigit(b[i])
    ensures DigitsValue(a + b) == DigitsValue(a) * Pow10(|b|) + DigitsValue(b)
    decreases |b|
  {
    if |b| == 0 {
      assert a + b == a;
    } else {
      var b' := b[..|b| - 1];
      var c := b[|b| - 1];
      var ab := a + b;
      assert ab[..|ab| - 1] == a + b';
      assert ab[|ab| - 1] == c;
      DigitsValueAppend(a, b');
      ShiftStep(DigitsValue(a), Pow10(|b'|), DigitsValue(b'), DigitValue(c));
    }
  }

  /** One more digit: (x * p + y) shifted by a place and extended by c. */
  lemma ShiftStep(x: int, p: int, y: int, c: int)
    ensures (x * p + y) * 10 + c == x * (10 * p) + (y * 10 + c)
  {
  }

  /** A whole part plus a fraction n / s is the single fraction (whole * s + n) / s. */
  lemma CommonDenominator(whole: nat, n: nat, s: nat, all: nat)
    requires s > 0 && all == whole * s + n
    ensures whole as real + n as real / s as real == all as real / s as real
  {
    assert all as real == whole as real * s as real + n as real;
  }

  /** A natural below d, divided by d, is a fraction in [0, 1). */
  lemma FractionBelowOne(n: nat, d: nat)
    requires n < d
    ensures 0.0 <= n as real / d as real < 1.0
  {
  }

  /** The whole-number part of the capture starting at digit q. */
  function WholePart(text: string, q: nat): nat
    requires q <= |text|
  {
    DigitsValue(text[q..DigitRunEnd(text, q)])
  }

  /** A '.' at e followed by a digit: the optional `(?:\.\d+)` part is taken. */
  predicate HasFraction(text: string, e: nat)
  {
    e + 1 < |text| && text[e] == '.' && IsDigit(text[e + 1])
  }

  /** parseFloat of the capture `\d+(?:\.\d+)?` that starts at digit q: the
      digit run, plus a fraction when a '.' and at least one digit follow.
      Without a fraction it is the run's value; with one, it is the value of
      all the digits with the '.' dropped, over ten to the number of fraction
      digits ("38.25" is 3825 / 100). */
  function NumberAt(text: string, q: nat): (v: real)
    requires q < |text| && IsDigit(text[q])
    ensures WholePart(text, q) as real <= v < WholePart(text, q) as real + 1.0
    ensures var e := DigitRunEnd(text, q);
            !HasFraction(text, e) ==> v == DigitsValue(text[q..e]) as real
    ensures var e := DigitRunEnd(text, q);
            HasFraction(text, e) ==>
              var f := DigitRunEnd(text, e + 1);
              v == DigitsValue(text[q..e] + text[e + 1..f]) as real / Pow10(f - e - 1) as real
  {
    var e := DigitRunEnd(text, q);
    if HasFraction(text, e) then
      DecimalValue(text[q..e], text[e + 1..DigitRunEnd(text, e + 1)])
    else
      DigitsValue(text[q..e]) as real
  }

  /** The number written as the digits `whole`, a '.', and the digits `fraction`. */
  function DecimalValue(whole: string, fraction: string): (v: real)
    requires forall i :: 0 <= i < |whole| ==> IsDigit(whole[i])
    requires forall i :: 0 <= i < |fraction| ==> IsDigit(fraction[i])
    ensures DigitsValue(whole) as real <= v < DigitsValue(whole) as real + 1.0
    ensures v == DigitsValue(whole + fraction) as real / Pow10(|fraction|) as real
  {
    var scale := Pow10(|fraction|);
    DigitsValueBound(fraction);
    FractionBelowOne(DigitsValue(fraction), scale);
    DigitsValueAppend(whole, fraction);
    CommonDenominator(DigitsValue(whole), DigitsValue(fraction), scale, DigitsValue(whole + fraction));
    DigitsValue(whole) as real + DigitsValue(fraction) as real / scale as real
  }

  /** The pattern tried at start position p: the keyword (any ASCII case),
      then the number at the first digit after it, if there is one. */
  function MatchAt(text: string, keyword: string, p: nat): (r: Option<real>)
    requires p <= |text|
    ensures r.Some? <==> MatchesAt(text, p, keyword) && FirstDigitFrom(text, p + |keyword|).Some?
    ensures r.Some? ==> r.value >= 0.0
  {
    if MatchesAt(text, p, keyword) then
      match FirstDigitFrom(text, p + |keyword|)
      case Some(q) => Some(NumberAt(text, q))
      case None => None
    else
      None
  }

  /** `text.match(pattern)`: the match with the leftmost start at or after p.
      Any value found is non-negative: a '-' is swallowed by `[^\d]*`. */
  function SearchFrom(text: string, keyword: string, p: nat): (r: Option<real>)
    requires p <= |text|
    ensures r.Some? ==> r.value >= 0.0
    decreases |text| - p
  {
    var m := MatchAt(text, keyword, p);
    if m.Some? then m
    else if p == |text| then None
    else SearchFrom(text, keyword, p + 1)
  }

  /** The keyword occurs somewhere at or after a with a digit anywhere after it. */
  ghost predicate FollowedByDigitFrom(text: string, keyword: string, a: nat)
  {
    exists p: nat, q: nat :: a <= p && p + |keyword| <= q < |text| && MatchesAt(text, p, keyword) && IsDigit(text[q])
  }

  ghost predicate FollowedByDigit(text: string, keyword: string)
  {
    FollowedByDigitFrom(text, keyword, 0)
  }

  /** The search succeeds exactly when some occurrence of the keyword is
      followed, anywhere later, by a digit. */
  lemma {:induction false} SearchFindsIff(text: string, keyword: string, a: nat)
    requires a <= |text|
    ensures SearchFrom(text, keyword, a).Some? <==> FollowedByDigitFrom(text, keyword, a)
    decreases |text| - a
  {
    if MatchAt(text, keyword, a).Some? {
      var q := FirstDigitFrom(text, a + |keyword|).value;
      assert a + |keyword| <= q < |text| && MatchesAt(text, a, keyword) && IsDigit(text[q]);
    } else if a == |text| {
      assert !FollowedByDigitFrom(text, keyword, a);
    } else {
      SearchFindsIff(text, keyword, a + 1);
      FollowedByDigitStep(text, keyword, a);
    }
  }

  /** A start where the pattern fails contributes no occurrence followed by a digit. */
  lemma FollowedByDigitStep(text: string, keyword: string, a: nat)
    requires a < |text| && MatchAt(text, keyword, a).None?
    ensures FollowedByDigitFrom(text, keyword, a) <==> FollowedByDigitFrom(text, keyword, a + 1)
  {
    if FollowedByDigitFrom(text, keyword, a) {
      var p: nat, q: nat :| a <= p && p + |keyword| <= q < |text| && MatchesAt(text, p, keyword) && IsDigit(text[q]);
      assert p != a;
    }
    if FollowedByDigitFrom(text, keyword, a + 1) {
      var p: nat, q: nat :| a + 1 <= p && p + |keyword| <= q < |text| && MatchesAt(text, p, keyword) && IsDigit(text[q]);
      assert a <= p;
    }
  }

  /** Starts before b where the keyword does not occur are skipped. */
  lemma {:induction false} SearchSkips(text: string, keyword: string, a: nat, b: nat)
    requires a <= b <= |text|
    requires forall p :: a <= p < b ==> !MatchesAt(text, p, keyword)
    ensures SearchFrom(text, keyword, a) == SearchFrom(text, keyword, b)
    decreases b - a
  {
    if a < b {
      assert !MatchesAt(text, a, keyword);
      assert MatchAt(text, keyword, a).None?;
      SearchSkips(text, keyword, a + 1, b);
    }
  }

  /** With no digit from d on, no start from which the keyword ends at or
      after d can match. */
  lemma {:induction false} SearchNoDigitsLeft(text: string, keyword: string, d: nat, a: nat)
    requires a <= |text| && d <= a + |keyword|
    requires forall j :: d <= j < |text| ==> !IsDigit(text[j])
    ensures SearchFrom(text, keyword, a).None?
    decreases |text| - a
  {
    if MatchesAt(text, a, keyword) {
      var first := FirstDigitFrom(text, a + |keyword|);
      assert first.None?;
    }
    if a < |text| {
      SearchNoDigitsLeft(text, keyword, d, a + 1);
    }
  }

  /** The value found is the number at the first digit after the keyword's
      leftmost occurrence; when no digit follows that occurrence, none
      follows any later one either, and the search fails. */
  lemma LeftmostKeyword(text: string, keyword: string, p: nat)
    requires p <= |text| && MatchesAt(text, p, keyword)
    requires forall p' :: 0 <= p' < p ==> !MatchesAt(text, p', keyword)
    ensures FirstDigitFrom(text, p + |keyword|).None? ==> SearchFrom(text, keyword, 0).None?
    ensures FirstDigitFrom(text, p + |keyword|).Some? ==>
              SearchFrom(text, keyword, 0) == Some(NumberAt(text, FirstDigitFrom(text, p + |keyword|).value))
  {
    SearchSkips(text, keyword, 0, p);
    var first := FirstDigitFrom(text, p + |keyword|);
    if first.Some? {
      assert MatchAt(text, keyword, p) == Some(NumberAt(text, first.value));
    } else {
      assert MatchAt(text, keyword, p).None?;
      if p < |text| {
        SearchNoDigitsLeft(text, keyword, p + |keyword|, p + 1);
      }
    }
  }

  /** findMeasurement's result: the first keyword, in list order, whose search succeeds. */
  function Measurement(text: string, keywords: seq<string>): (r: Option<real>)
    ensures r.Some? ==> r.value >= 0.0
    decreases |keywords|
  {
    if |keywords| == 0 then None
    else
      var m := SearchFrom(text, keywords[0], 0);
      if m.Some? then m else Measurement(text, keywords[1..])
  }

  /** findMeasurement: try the keywords in order and return on the first match. */
  method FindMeasurement(text: string, keywords: seq<string>) returns (r: Option<real>)
    ensures r == Measurement(text, keywords)
  {
    for i := 0 to |keywords|
      invariant Measurement(text, keywords[i..]) == Measurement(text, keywords)
    {
      assert keywords[i..][1..] == keywords[i + 1..];
      var found := SearchFrom(text, keywords[i], 0);
      if found.Some? {
        return found;
      }
    }
    r := None;
  }

  /** No value exactly when no keyword is followed anywhere later by a digit. */
  lemma {:induction false} MeasurementNoneIff(text: string, keywords: seq<string>)
    ensures Measurement(text, keywords).None? <==>
              forall k :: 0 <= k < |keywords| ==> !FollowedByDigit(text, keywords[k])
    decreases |keywords|
  {
    if |keywords| > 0 {
      SearchFindsIff(text, keywords[0], 0);
      MeasurementNoneIff(text, keywords[1..]);
      assert forall k :: 1 <= k < |keywords| ==> keywords[k] == keywords[1..][k - 1];
    }
  }

  /** The first keyword followed by a digit decides the value; later keywords
      are never consulted. */
  lemma {:induction false} MeasurementPriority(text: string, keywords: seq<string>, k: nat)
    requires k < |keywords| && FollowedByDigit(text, keywords[k])
    requires forall j :: 0 <= j < k ==> !FollowedByDigit(text, keywords[j])
    ensures Measurement(text, keywords) == SearchFrom(text, keywords[k], 0)
    ensures Measurement(text, keywords).Some?
    decreases k
  {
    SearchFindsIff(text, keywords[0], 0);
    if k > 0 {
      MeasurementPriority(text, keywords[1..], k - 1);
    }
  }

  /** The capture "38" at the end of the example text parses to 38. */
  lemma ExampleNumber(text: string)
    requires text == "bust 36, chest 38"
    ensures NumberAt(text, 15) == 38.0
  {
    assert DigitRunEnd(text, 15) == 17;
    assert text[15..17] == "38";
    assert "38"[..1] == "3" && "3"[..0] == "";
    assert DigitsValue("38") == 38;
  }

  /** A fraction is kept: "38.5in" reads as 38.5 (the unit is not part of the capture). */
  lemma ExampleFraction(text: string)
    requires text == "38.5in"
    ensures NumberAt(text, 0) == 38.5
  {
    assert DigitRunEnd(text, 3) == 4;
    assert DigitRunEnd(text, 2) == 2;
    assert DigitRunEnd(text, 1) == 2;
    assert DigitRunEnd(text, 0) == 2;
    assert HasFraction(text, 2);
    assert text[0..2] == "38" && text[3..4] == "5";
    assert "38"[..1] == "3" && "3"[..0] == "" && "5"[..0] == "";
    assert DigitsValue("38") == 38 && DigitsValue("5") == 5;
  }

  /** In the example text "chest" first occurs at 9, followed by 38. */
  lemma ExampleChestSearch(text: string)
    requires text == "bust 36, chest 38"
    ensures SearchFrom(text, "chest", 0) == Some(38.0)
  {
    forall p' | 0 <= p' < 9
      ensures !MatchesAt(text, p', "chest")
    {
      assert Upper(text[p']) != Upper("chest"[0]);
    }
    assert MatchesAt(text, 9, "chest");
    assert FirstDigitFrom(text, 14) == Some(15);
    LeftmostKeyword(text, "chest", 9);
    ExampleNumber(text);
  }

  /** Keyword order, not position in the text, decides: searching
      "bust 36, chest 38" for ["chest", "bust"] gives 38. */
  lemma KeywordOrderBeatsTextOrder(text: string)
    requires text == "bust 36, chest 38"
    ensures Measurement(text, ["chest", "bust"]) == Some(38.0)
  {
    ExampleChestSearch(text);
  }
}
