/**
 * Layout detection: which language profile a report uses and the line numbers
 * at which its score table and its three observation sections begin.
 */
module Layout {
  import opened Options
  import opened Text
  import opened Profiles

  /** Some line of the report contains the Spanish marker. */
  predicate HasSpanishMarker(text: seq<string>) {
    exists i :: 0 <= i < |text| && Contains(text[i], SpanishMarker)
  }

  function DetectLanguage(text: seq<string>): Language {
    if HasSpanishMarker(text) then Spanish else English
  }

  /**
   * The anchor of `header`: one past the LAST line equal to it (the anchor loop
   * has no `break`, so a later copy of the header overrides an earlier one).
   */
  function LastAnchor(text: seq<string>, header: string): (r: Option<nat>)
    ensures r.Some? ==> 1 <= r.value <= |text| && text[r.value - 1] == header
    ensures r.Some? ==> forall j :: r.value <= j < |text| ==> text[j] != header
    ensures r.None? <==> header !in text
  {
    if text == [] then None
    else if text[|text| - 1] == header then Some(|text|)
    else LastAnchor(text[..|text| - 1], header)
  }

  /** The anchors of the cognitive, achievement and qualitative observation sections. */
  function ObsAnchors(text: seq<string>, lang: Language): (r: seq<Option<nat>>)
    ensures |r| == 3
  {
    [LastAnchor(text, lang.ObsHeaders()[0]), LastAnchor(text, lang.ObsHeaders()[1]),
     LastAnchor(text, lang.ObsHeaders()[2])]
  }

  /** An anchor, or `last` when the section is absent. */
  function AnchorOr(a: Option<nat>, last: int): int {
    if a.Some? then a.value else last
  }

  /** The least of three anchors, an absent one counting as `last`. */
  function MinAnchor(anchors: seq<Option<nat>>, last: int): (r: int)
    requires |anchors| == 3
    ensures forall k :: 0 <= k < 3 ==> r <= AnchorOr(anchors[k], last)
    ensures exists k :: 0 <= k < 3 && r == AnchorOr(anchors[k], last)
  {
    var a, b, c := AnchorOr(anchors[0], last), AnchorOr(anchors[1], last), AnchorOr(anchors[2], last);
    if a <= b && a <= c then a else if b <= c then b else c
  }

  /**
   * Where the first observation section begins: the least anchor among the
   * sections present, an absent section counting as the report's last line.
   */
  function FirstObsLine(text: seq<string>, lang: Language): int {
    MinAnchor(ObsAnchors(text, lang), |text| - 1)
  }

  /**
   * Exclusive end of the score table: English reports put the observations after
   * the scores, Spanish reports put the scores at the end of the document.
   */
  function EndOfScoresLine(text: seq<string>, lang: Language): int {
    if lang == English then FirstObsLine(text, lang) else |text| - 1
  }

  /** The three section headers and the score-table header are four different lines. */
  lemma HeadersDistinct(lang: Language)
    ensures ScoresHeader !in lang.ObsHeaders()
    ensures forall j, k :: 0 <= j < k < 3 ==> lang.ObsHeaders()[j] != lang.ObsHeaders()[k]
  {
    var h := lang.ObsHeaders();
    assert |h[0]| != |h[1]| && |h[0]| != |h[2]| && |h[1]| != |h[2]|;
  }

  /** Every section header begins with the generic header that ends a section's scan. */
  lemma HeadersStartGeneric(lang: Language)
    ensures forall k :: 0 <= k < 3 ==> StartsWith(lang.ObsHeaders()[k], lang.GenericHeader())
  {
  }

  /** An anchor one past line `i` is the last copy of its header in the first `i + 1` lines. */
  lemma {:induction false} LastAnchorStep(text: seq<string>, header: string, i: nat)
    requires i < |text|
    ensures LastAnchor(text[..i + 1], header)
         == if text[i] == header then Some(i + 1) else LastAnchor(text[..i], header)
  {
    assert text[..i + 1][..i] == text[..i];
  }

  /**
   * The score table never reaches the report's last line: the first observation
   * section starts at most there, since three different headers cannot all sit on
   * the last line.
   */
  lemma EndOfScoresBeforeLast(text: seq<string>, lang: Language)
    ensures EndOfScoresLine(text, lang) <= |text| - 1
  {
    HeadersDistinct(lang);
  }

  /**
   * The lines searched for test scores: from the line after "TABLE OF SCORES" up
   * to, but not including, the end of the score table (empty when the end comes
   * first, as Python slicing gives).
   */
  function ScoreTable(text: seq<string>, lang: Language): (t: seq<string>)
    requires LastAnchor(text, ScoresHeader).Some?
  {
    var a, b := LastAnchor(text, ScoresHeader).value, EndOfScoresLine(text, lang);
    EndOfScoresBeforeLast(text, lang);
    if b <= a then [] else text[a..b]
  }
}
