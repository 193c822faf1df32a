/**
 * The two size-token regular expressions of content.js:
 * `/\b(XS|S|M|L|XL|XXL|XXXL)\b/i` in `normalizeSizeOption`, and the global
 * `/(XS|S|M|L|XL|XXL|XXXL)/gi` in `extractSizeInformation`, with the
 * de-duplication `[...new Set(matches)]` that follows it.
 */
module SizeTokens {
  import opened Wrappers
  import opened TextScan

  /** The alternatives, in the order the regular expressions try them. */
  const Tokens: seq<string> := ["XS", "S", "M", "L", "XL", "XXL", "XXXL"]

  /** Every token is upper case, made of word characters, and ends in S, M or L. */
  lemma TokensShape()
    ensures forall a :: 0 <= a < |Tokens| ==> |Tokens[a]| > 0
    ensures forall a, j :: 0 <= a < |Tokens| && 0 <= j < |Tokens[a]| ==>
              Upper(Tokens[a][j]) == Tokens[a][j] && IsWordChar(Tokens[a][j])
    ensures forall a :: 0 <= a < |Tokens| ==> Tokens[a][|Tokens[a]| - 1] in {'S', 'M', 'L'}
  {
    forall a | 0 <= a < |Tokens|
      ensures |Tokens[a]| > 0 && Tokens[a][|Tokens[a]| - 1] in {'S', 'M', 'L'}
      ensures forall j :: 0 <= j < |Tokens[a]| ==> Upper(Tokens[a][j]) == Tokens[a][j] && IsWordChar(Tokens[a][j])
    {
      assert a == 0 || a == 1 || a == 2 || a == 3 || a == 4 || a == 5 || a == 6;
    }
  }

  /** No token is a prefix of another, so at one position at most one
      alternative can match. */
  lemma OneAlternativePerPosition(text: string, p: nat, a: nat, b: nat)
    requires a < |Tokens| && b < |Tokens|
    requires MatchesAt(text, p, Tokens[a]) && MatchesAt(text, p, Tokens[b])
    ensures a == b
  {
    TokensShape();
    assert Upper(text[p]) == Tokens[a][0] == Tokens[b][0];
    if |Tokens[a]| > 1 && |Tokens[b]| > 1 {
      assert Upper(text[p + 1]) == Tokens[a][1] == Tokens[b][1];
    }
    if |Tokens[a]| > 2 && |Tokens[b]| > 2 {
      assert Upper(text[p + 2]) == Tokens[a][2] == Tokens[b][2];
    }
  }

  /** Alternative a matches at p: its letters, ignoring case, and with `whole`
      also a word boundary on both sides. */
  predicate AlternativeAt(text: string, p: nat, a: nat, whole: bool)
    requires a < |Tokens|
  {
    && MatchesAt(text, p, Tokens[a])
    && (whole ==> AtWordBoundary(text, p) && AtWordBoundary(text, p + |Tokens[a]|))
  }

  /** The first alternative, from a on, that matches at p. */
  function FirstAlternative(text: string, p: nat, a: nat, whole: bool): (r: Option<nat>)
    requires a <= |Tokens|
    ensures r.Some? ==> a <= r.value < |Tokens| && AlternativeAt(text, p, r.value, whole)
    ensures r.None? ==> forall b :: a <= b < |Tokens| ==> !AlternativeAt(text, p, b, whole)
    decreases |Tokens| - a
  {
    if a == |Tokens| then None
    else if AlternativeAt(text, p, a, whole) then Some(a)
    else FirstAlternative(text, p, a + 1, whole)
  }

  /** Upper-casing the text an alternative matched gives the alternative. */
  lemma UpperOfMatch(text: string, p: nat, a: nat)
    requires a < |Tokens| && MatchesAt(text, p, Tokens[a])
    ensures UpperString(text[p..p + |Tokens[a]|]) == Tokens[a]
  {
    TokensShape();
  }

  /** A whole-word token starts at p. */
  ghost predicate WholeTokenAt(text: string, p: nat, a: nat)
  {
    p <= |text| && a < |Tokens| && AlternativeAt(text, p, a, true)
  }

  /** The leftmost position at or after p where a whole-word token starts,
      upper-cased. */
  function ScanWholeToken(text: string, p: nat): (r: Option<string>)
    requires p <= |text|
    ensures r.Some? ==> r.value in Tokens
    decreases |text| - p
  {
    match FirstAlternative(text, p, 0, true)
    case Some(a) =>
      UpperOfMatch(text, p, a);
      Some(UpperString(text[p..p + |Tokens[a]|]))
    case None =>
      if p == |text| then None else ScanWholeToken(text, p + 1)
  }

  /** normalizeSizeOption: the first whole-word size token, upper-cased, or null. */
  function NormalizeSizeOption(text: string): (r: Option<string>)
    ensures r.None? || r.value in Tokens
  {
    ScanWholeToken(text, 0)
  }

  lemma {:induction false} ScanNoneIff(text: string, p: nat)
    requires p <= |text|
    ensures ScanWholeToken(text, p).None? <==> forall q: nat, a: nat :: p <= q && WholeTokenAt(text, q, a) ==> false
    decreases |text| - p
  {
    var first := FirstAlternative(text, p, 0, true);
    if first.Some? {
      assert WholeTokenAt(text, p, first.value);
    } else {
      if p < |text| {
        ScanNoneIff(text, p + 1);
      }
    }
  }

  /** normalizeSizeOption gives null exactly when no size token stands as a
      whole word anywhere in the text. */
  lemma NormalizeNoneIff(text: string)
    ensures NormalizeSizeOption(text).None? <==> forall q: nat, a: nat :: WholeTokenAt(text, q, a) ==> false
  {
    ScanNoneIff(text, 0);
  }

  lemma {:induction false} ScanSkips(text: string, p: nat, q: nat)
    requires p <= q <= |text|
    requires forall p': nat, b: nat :: p <= p' < q && WholeTokenAt(text, p', b) ==> false
    ensures ScanWholeToken(text, p) == ScanWholeToken(text, q)
    decreases q - p
  {
    if p < q {
      var first := FirstAlternative(text, p, 0, true);
      assert first.Some? ==> WholeTokenAt(text, p, first.value);
      ScanSkips(text, p + 1, q);
    }
  }

  /** The result is the leftmost whole-word token. */
  lemma NormalizeLeftmost(text: string, p: nat, a: nat)
    requires WholeTokenAt(text, p, a)
    requires forall p': nat, b: nat :: p' < p && WholeTokenAt(text, p', b) ==> false
    ensures NormalizeSizeOption(text) == Some(Tokens[a])
  {
    ScanSkips(text, 0, p);
    var b := FirstAlternative(text, p, 0, true);
    OneAlternativePerPosition(text, p, a, b.value);
    UpperOfMatch(text, p, a);
  }

  /** A text that is a size token in any ASCII case normalises to that token. */
  lemma NormalizeIgnoresCase(t: string, a: nat)
    requires a < |Tokens| && UpperString(t) == Tokens[a]
    ensures NormalizeSizeOption(t) == Some(Tokens[a])
  {
    TokensShape();
    var n := |t|;
    assert Upper(t[0]) == Tokens[a][0] && Upper(t[n - 1]) == Tokens[a][n - 1];
    assert IsWordChar(Upper(t[0])) && IsWordChar(Upper(t[n - 1]));
    assert IsWordChar(t[0]) && IsWordChar(t[n - 1]);
    assert MatchesAt(t, 0, Tokens[a]);
    NormalizeLeftmost(t, 0, a);
  }

  /** normalizeSizeOption is idempotent: its result normalises to itself. */
  lemma NormalizeIdempotent(text: string)
    requires NormalizeSizeOption(text).Some?
    ensures NormalizeSizeOption(NormalizeSizeOption(text).value) == NormalizeSizeOption(text)
  {
    var t := NormalizeSizeOption(text).value;
    TokensShape();
    var a :| 0 <= a < |Tokens| && Tokens[a] == t;
    assert UpperString(t) == t;
    NormalizeIgnoresCase(t, a);
  }

  /** The length of the alternative tried first among those matching at r,
      if any matches there: a non-empty stretch of the text. */
  function AlternativeLength(text: string, r: nat): (n: Option<nat>)
    ensures n.None? <==> FirstAlternative(text, r, 0, false).None?
    ensures n.Some? ==> 0 < n.value && r + n.value <= |text|
  {
    match FirstAlternative(text, r, 0, false)
    case Some(a) =>
      TokensShape();
      Some(|Tokens[a]|)
    case None => None
  }

  /** The stretch an alternative matched upper-cases to a token and ends in
      an s, m or l. */
  lemma AlternativeSpellsToken(text: string, r: nat)
    requires AlternativeLength(text, r).Some?
    ensures var n := AlternativeLength(text, r).value;
            UpperString(text[r..r + n]) in Tokens && IsSizeLetter(text[r + n - 1])
  {
    var a := FirstAlternative(text, r, 0, false).value;
    UpperOfMatch(text, r, a);
    MatchEndsInSizeLetter(text, r, a);
  }

  /** AlternativeLength at each of the first k positions of the text. */
  function AlternativesUpTo(text: string, k: nat): (alt: seq<Option<nat>>)
    requires k <= |text|
    ensures |alt| == k
  {
    if k == 0 then [] else AlternativesUpTo(text, k - 1) + [AlternativeLength(text, k - 1)]
  }

  /** AlternativeLength at every position of the text. */
  function Alternatives(text: string): (alt: seq<Option<nat>>)
    ensures |alt| == |text|
  {
    AlternativesUpTo(text, |text|)
  }

  /** Entry r of the table is the alternative length at r. */
  lemma {:induction false} AlternativesAt(text: string, k: nat, r: nat)
    requires r < k <= |text|
    ensures AlternativesUpTo(text, k)[r] == AlternativeLength(text, r)
  {
    if r < k - 1 {
      AlternativesAt(text, k - 1, r);
    }
  }

  /** An alternative table: wherever an alternative matches, it covers a
      non-empty stretch that ends inside the text. */
  predicate TableWellFormed(alt: seq<Option<nat>>)
  {
    forall r :: 0 <= r < |alt| && alt[r].Some? ==> 0 < alt[r].value && r + alt[r].value <= |alt|
  }

  lemma AlternativesWellFormed(text: string)
    ensures TableWellFormed(Alternatives(text))
  {
    forall r | 0 <= r < |text| && Alternatives(text)[r].Some?
      ensures 0 < Alternatives(text)[r].value && r + Alternatives(text)[r].value <= |text|
    {
      AlternativesAt(text, |text|, r);
    }
  }

  /** One match of the global search: where it starts and how many characters it takes. */
  datatype Span = Span(start: nat, len: nat)

  /** The global search over an alternative table from p: at the leftmost
      position where an alternative matches, that match, then on from its end. */
  function SpansFrom(alt: seq<Option<nat>>, p: nat): (sp: seq<Span>)
    requires p <= |alt| && TableWellFormed(alt)
    ensures forall i :: 0 <= i < |sp| ==> p <= sp[i].start && sp[i].start + sp[i].len <= |alt|
    decreases |alt| - p
  {
    if p == |alt| then []
    else
      match alt[p]
      case Some(n) => [Span(p, n)] + SpansFrom(alt, p + n)
      case None => SpansFrom(alt, p + 1)
  }

  /** The global search `/(XS|S|M|L|XL|XXL|XXXL)/gi` from p, as spans of the text. */
  function MatchSpans(text: string, p: nat): (sp: seq<Span>)
    requires p <= |text|
    ensures forall i :: 0 <= i < |sp| ==> p <= sp[i].start && sp[i].start + sp[i].len <= |text|
  {
    AlternativesWellFormed(text);
    SpansFrom(Alternatives(text), p)
  }

  /** Position r lies inside one of the spans. */
  ghost predicate Covered(sp: seq<Span>, r: nat)
  {
    exists i :: 0 <= i < |sp| && sp[i].start <= r < sp[i].start + sp[i].len
  }

  /** sp is the result of a global search from p when alt[r] is the length of
      the alternative tried first at r: each span starts at or after p, at a
      position where that alternative has exactly its length; spans are in
      text order and do not overlap; and every position from p on where an
      alternative matches lies inside a span, so no gap before, between or
      after the spans holds a match. */
  ghost predicate GlobalMatch(alt: seq<Option<nat>>, p: nat, sp: seq<Span>)
  {
    && (forall i :: 0 <= i < |sp| ==> p <= sp[i].start < |alt| && alt[sp[i].start] == Some(sp[i].len))
    && (forall i, j :: 0 <= i < j < |sp| ==> sp[i].start + sp[i].len <= sp[j].start)
    && (forall r :: p <= r < |alt| && alt[r].Some? ==> Covered(sp, r))
  }

  /** The spans are the global search: every non-overlapping leftmost match,
      in text order, and nothing else. */
  lemma SpansFromGlobal(alt: seq<Option<nat>>, p: nat)
    requires p <= |alt| && TableWellFormed(alt)
    ensures GlobalMatch(alt, p, SpansFrom(alt, p))
  {
    SpansFromAtMatches(alt, p);
    SpansFromOrdered(alt, p);
    SpansFromCovers(alt, p);
  }

  /** Each span starts where an alternative of exactly its length matches. */
  lemma {:induction false} SpansFromAtMatches(alt: seq<Option<nat>>, p: nat)
    requires p <= |alt| && TableWellFormed(alt)
    ensures forall i :: 0 <= i < |SpansFrom(alt, p)| ==>
              var sp := SpansFrom(alt, p)[i];
              sp.start < |alt| && alt[sp.start] == Some(sp.len)
    decreases |alt| - p
  {
    if p < |alt| {
      var sp := SpansFrom(alt, p);
      match alt[p]
      case Some(n) =>
        var rest := SpansFrom(alt, p + n);
        SpansFromAtMatches(alt, p + n);
        assert sp == [Span(p, n)] + rest;
        assert forall i :: 1 <= i < |sp| ==> sp[i] == rest[i - 1];
      case None =>
        SpansFromAtMatches(alt, p + 1);
    }
  }

  /** The spans are in text order and do not overlap. */
  lemma {:induction false} SpansFromOrdered(alt: seq<Option<nat>>, p: nat)
    requires p <= |alt| && TableWellFormed(alt)
    ensures forall i, j :: 0 <= i < j < |SpansFrom(alt, p)| ==>
              SpansFrom(alt, p)[i].start + SpansFrom(alt, p)[i].len <= SpansFrom(alt, p)[j].start
    decreases |alt| - p
  {
    if p < |alt| {
      var sp := SpansFrom(alt, p);
      match alt[p]
      case Some(n) =>
        var rest := SpansFrom(alt, p + n);
        SpansFromOrdered(alt, p + n);
        assert sp == [Span(p, n)] + rest;
        assert forall i :: 1 <= i < |sp| ==> sp[i] == rest[i - 1];
      case None =>
        SpansFromOrdered(alt, p + 1);
    }
  }

  /** Every position from p on where an alternative matches lies inside a span. */
  lemma {:induction false} SpansFromCovers(alt: seq<Option<nat>>, p: nat)
    requires p <= |alt| && TableWellFormed(alt)
    ensures forall r :: p <= r < |alt| && alt[r].Some? ==> Covered(SpansFrom(alt, p), r)
    decreases |alt| - p
  {
    if p < |alt| {
      var sp := SpansFrom(alt, p);
      match alt[p]
      case Some(n) =>
        var rest := SpansFrom(alt, p + n);
        SpansFromCovers(alt, p + n);
        assert sp == [Span(p, n)] + rest;
        forall r | p <= r < |alt| && alt[r].Some?
          ensures Covered(sp, r)
        {
          if r < p + n {
            assert sp[0].start <= r < sp[0].start + sp[0].len;
          } else {
            var j :| 0 <= j < |rest| && rest[j].start <= r < rest[j].start + rest[j].len;
            assert sp[j + 1] == rest[j];
          }
        }
      case None =>
        SpansFromCovers(alt, p + 1);
    }
  }

  /** Every span of the global search holds an alternative: upper-cased it is
      a token, and it ends in an s, m or l. */
  lemma SpansSpellTokens(text: string, p: nat)
    requires p <= |text|
    ensures forall i :: 0 <= i < |MatchSpans(text, p)| ==>
              var sp := MatchSpans(text, p)[i];
              UpperString(text[sp.start..sp.start + sp.len]) in Tokens && IsSizeLetter(text[sp.start + sp.len - 1])
  {
    var sp := MatchSpans(text, p);
    AlternativesWellFormed(text);
    SpansFromAtMatches(Alternatives(text), p);
    forall i | 0 <= i < |sp|
      ensures UpperString(text[sp[i].start..sp[i].start + sp[i].len]) in Tokens
      ensures IsSizeLetter(text[sp[i].start + sp[i].len - 1])
    {
      TableEntrySpellsToken(text, sp[i].start, sp[i].len);
    }
  }

  lemma TableEntrySpellsToken(text: string, r: nat, n: nat)
    requires r < |text| && Alternatives(text)[r] == Some(n)
    ensures r + n <= |text| && 0 < n
    ensures UpperString(text[r..r + n]) in Tokens && IsSizeLetter(text[r + n - 1])
  {
    AlternativesAt(text, |text|, r);
    AlternativeSpellsToken(text, r);
  }

  /** What `text.match` returns with the `g` flag: the text's own characters
      at each match, so each keeps the text's case and upper-cases to a token. */
  function SizeMatches(text: string, p: nat): (ms: seq<string>)
    requires p <= |text|
    ensures |ms| == |MatchSpans(text, p)|
    ensures forall i :: 0 <= i < |ms| ==> UpperString(ms[i]) in Tokens
  {
    var sp := MatchSpans(text, p);
    SpansSpellTokens(text, p);
    seq(|sp|, i requires 0 <= i < |sp| => text[sp[i].start..sp[i].start + sp[i].len])
  }

  /** The matches are the text at the spans of the global search: in text
      order, without overlap, and with no match left in any gap. */
  lemma SizeMatchesGlobal(text: string, p: nat)
    requires p <= |text|
    ensures GlobalMatch(Alternatives(text), p, MatchSpans(text, p))
    ensures forall i :: 0 <= i < |SizeMatches(text, p)| ==>
              var sp := MatchSpans(text, p)[i];
              SizeMatches(text, p)[i] == text[sp.start..sp.start + sp.len]
  {
    AlternativesWellFormed(text);
    SpansFromGlobal(Alternatives(text), p);
  }

  /** m is the text's own characters, unchanged in case, at a position at or
      after p. */
  ghost predicate TextAt(text: string, p: nat, m: string)
  {
    exists q: nat :: p <= q <= |text| && m <= text[q..]
  }

  /** Each match is the text's own characters from p on; with the ensures of
      SizeMatches, it is a token spelled in the text's case. */
  lemma SizeMatchesFromText(text: string, p: nat)
    requires p <= |text|
    ensures forall i :: 0 <= i < |SizeMatches(text, p)| ==> TextAt(text, p, SizeMatches(text, p)[i])
  {
    var ms := SizeMatches(text, p);
    var sp := MatchSpans(text, p);
    forall i | 0 <= i < |ms|
      ensures TextAt(text, p, ms[i])
    {
      assert ms[i] <= text[sp[i].start..];
    }
  }

  predicate IsSizeLetter(c: char)
  {
    Upper(c) == 'S' || Upper(c) == 'M' || Upper(c) == 'L'
  }

  /** The global match finds nothing exactly when no s, m or l (either case)
      occurs from p on: every token ends in one, and each is a token itself. */
  lemma SizeMatchesEmptyIff(text: string, p: nat)
    requires p <= |text|
    ensures SizeMatches(text, p) == [] <==> forall i :: p <= i < |text| ==> !IsSizeLetter(text[i])
  {
    var sp := MatchSpans(text, p);
    if |sp| > 0 {
      SpansSpellTokens(text, p);
      assert IsSizeLetter(text[sp[0].start + sp[0].len - 1]);
    } else {
      SizeMatchesGlobal(text, p);
      forall i | p <= i < |text| && IsSizeLetter(text[i])
        ensures false
      {
        SizeLetterMatches(text, i);
        AlternativesAt(text, |text|, i);
      }
    }
  }

  /** Every token ends in S, M or L, so every match ends in a size letter. */
  lemma MatchEndsInSizeLetter(text: string, p: nat, a: nat)
    requires a < |Tokens| && MatchesAt(text, p, Tokens[a])
    ensures |Tokens[a]| > 0 && IsSizeLetter(text[p + |Tokens[a]| - 1])
  {
    TokensShape();
    assert Upper(text[p + |Tokens[a]| - 1]) == Tokens[a][|Tokens[a]| - 1];
  }

  /** Nothing is skipped: every s, m or l from p on lies inside a match. */
  lemma SizeLetterCovered(text: string, p: nat, r: nat)
    requires p <= r < |text| && IsSizeLetter(text[r])
    ensures Covered(MatchSpans(text, p), r)
  {
    SizeMatchesGlobal(text, p);
    SizeLetterMatches(text, r);
    AlternativesAt(text, |text|, r);
  }

  /** No alternative matches at a position from p on that lies in a gap
      before, between or after the matches. */
  lemma NoMatchInGaps(text: string, p: nat, r: nat)
    requires p <= r < |text| && !Covered(MatchSpans(text, p), r)
    ensures FirstAlternative(text, r, 0, false).None?
  {
    SizeMatchesGlobal(text, p);
    AlternativesAt(text, |text|, r);
  }

  /** An s, m or l in either case is itself a match of S, M or L. */
  lemma SizeLetterMatches(text: string, p: nat)
    requires p < |text| && IsSizeLetter(text[p])
    ensures FirstAlternative(text, p, 0, false).Some? && AlternativeLength(text, p).Some?
  {
    var a := if Upper(text[p]) == 'S' then 1 else if Upper(text[p]) == 'M' then 2 else 3;
    assert AlternativeAt(text, p, a, false);
  }

  /** [...new Set(s)]: the distinct elements of s in order of first
      appearance. An element listed earlier occurs in s before every
      occurrence of one listed later. */
  function Dedup(s: seq<string>): (d: seq<string>)
    ensures forall x :: x in d <==> x in s
    ensures forall i, j :: 0 <= i < j < |d| ==> d[i] != d[j]
    ensures forall i, j, q :: 0 <= i < j < |d| && 0 <= q < |s| && s[q] == d[j] ==> d[i] in s[..q]
    decreases |s|
  {
    if |s| == 0 then []
    else
      var init := s[..|s| - 1];
      var x := s[|s| - 1];
      var d := Dedup(init);
      assert forall q :: 0 <= q < |init| ==> s[..q] == init[..q];
      if x in d then d else d + [x]
  }
}
