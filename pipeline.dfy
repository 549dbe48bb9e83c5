/**
 * A report parsed from start to finish: the scraper is built, then its stages
 * run in the order the web application and the CSV script call them (headers,
 * the identifier taken from "Name", the scores, the observations). The lemmas
 * here show that the stages write disjoint sets of keys, so that what each
 * stage records is still in the final record; the one exception is "ID", a
 * header label that the identifier stage overwrites on purpose.
 */
module Pipeline {
  import opened Options
  import opened Text
  import opened Profiles
  import opened Records
  import opened Layout
  import opened Headers
  import opened Scores
  import opened Observations

  /** The key the identifier stage writes, and the key the applications read it from. */
  const IdKey: string := "ID"
  const NameKey: string := "Name"

  // ---------------------------------------------------------------------------
  // The key namespaces of the stages
  // ---------------------------------------------------------------------------

  /** No header label, and not the language label, holds a hyphen. */
  lemma HeaderLabelsLackHyphen()
    ensures forall k :: 0 <= k < |HeaderRows| ==> '-' !in HeaderRows[k].left && '-' !in HeaderRows[k].right
    ensures '-' !in LanguageKey
  {
    forall k | 0 <= k < |HeaderRows| ensures '-' !in HeaderRows[k].left && '-' !in HeaderRows[k].right {
      var row := HeaderRows[k];
      assert row.left in {"Name", "Date of Birth", "Age", "Sex", "Date of Testing"};
      assert row.right in {"School", "Teacher", "Grade", "ID", "Examiners"};
    }
  }

  /** "ID" is a right-column label, so no left-column label. */
  lemma LeftLabelsNotId()
    ensures forall k :: 0 <= k < |HeaderRows| ==> HeaderRows[k].left != IdKey
  {
    HeaderLabelsDistinct();
    assert HeaderRows[3].right == IdKey;
  }

  /** Every score key and every observation key holds a hyphen, right after the language name. */
  lemma StageKeysHaveHyphen(lang: Language, test: string, metric: string, section: string, kind: string)
    ensures '-' in ScoreKey(lang, test, metric)
    ensures '-' in ObsKey(lang, section, kind)
  {
    var n := |lang.Name()|;
    assert ScoreKey(lang, test, metric)[n + 1] == '-';
    assert ObsKey(lang, section, kind)[n + 1] == '-';
  }

  /** A key without a hyphen is neither a score key nor an observation key. */
  lemma HyphenFreeNotStageKey(key: string, lang: Language, test: string, metric: string, section: string, kind: string)
    requires '-' !in key
    ensures key != ScoreKey(lang, test, metric) && key != ObsKey(lang, section, kind)
  {
    StageKeysHaveHyphen(lang, test, metric, section, kind);
  }

  /** `a - b - c` holds no colon when its three parts hold none. */
  lemma ColonFree(a: string, b: string, c: string)
    requires ':' !in a && ':' !in b && ':' !in c
    ensures ':' !in a + " - " + b + " - " + c
  {
  }

  /** The tests and the metrics of a profile hold no colon. */
  lemma ProfileLacksColon(lang: Language)
    ensures forall i :: 0 <= i < |lang.Tests()| ==> ':' !in lang.Tests()[i]
    ensures forall i :: 0 <= i < |lang.Metrics()| ==> ':' !in lang.Metrics()[i]
  {
    var ts, ms := lang.Tests(), lang.Metrics();
    forall i | 0 <= i < |ts| ensures ':' !in ts[i] {
    }
    forall i | 0 <= i < |ms| ensures ':' !in ms[i] {
    }
  }

  /** The score key of a profile's test and metric holds no colon. */
  lemma ScoreKeyLacksColon(lang: Language, t: nat, m: nat)
    requires t < |lang.Tests()| && m < |lang.Metrics()|
    ensures ':' !in ScoreKey(lang, lang.Tests()[t], lang.Metrics()[m])
  {
    var test, metric := lang.Tests()[t], lang.Metrics()[m];
    ProfileLacksColon(lang);
    TitleLacks(test, ':');
    MetricsTrimmed(lang);
    ColonFree(lang.Name(), Title(test), Trim(metric));
  }

  /** Every observation key holds a colon, right after its section title. */
  lemma ObsKeyHasColon(lang: Language, section: string, kind: string)
    ensures ':' in ObsKey(lang, section, kind)
  {
    assert ObsKey(lang, section, kind)[|lang.Name() + " - " + SectionTitle(section)|] == ':';
  }

  /** The score stage and the observation stage never write the same key. */
  lemma ScoreKeyNotObsKey(lang: Language, t: nat, m: nat, section: string, kind: string)
    requires t < |lang.Tests()| && m < |lang.Metrics()|
    ensures ScoreKey(lang, lang.Tests()[t], lang.Metrics()[m]) != ObsKey(lang, section, kind)
  {
    ScoreKeyLacksColon(lang, t, m);
    ObsKeyHasColon(lang, section, kind);
  }

  // ---------------------------------------------------------------------------
  // The four stages in order
  // ---------------------------------------------------------------------------

  /**
   * A report every stage can read: the header lines, a "Name" column for the
   * identifier (the source raises an exception without one), the table of
   * scores and the observation sections.
   */
  predicate Scrapable(text: seq<string>, lang: Language) {
    && HeadersReadable(text)
    && RowReadable(text, HeaderRows[0])
    && LeftValue(text, HeaderRows[0]).Some?
    && LastAnchor(text, ScoresHeader).Some?
    && ObservationsReadable(text, lang)
  }

  /** The record after the header stage. */
  function AfterHeaders(d: Record, text: seq<string>, lang: Language): Record
    requires HeadersReadable(text)
  {
    Store(d, HeaderFields(text, lang))
  }

  /** The header stage leaves "Name" holding the row's left column. */
  lemma NameRecorded(d: Record, text: seq<string>, lang: Language)
    requires HeadersReadable(text) && RowReadable(text, HeaderRows[0])
    ensures NameKey in AfterHeaders(d, text, lang)
    ensures AfterHeaders(d, text, lang)[NameKey] == LeftValue(text, HeaderRows[0])
  {
    HeadersRecorded(d, text, lang);
    assert HeaderRows[0].left == NameKey;
  }

  /** The record after the identifier stage: "ID" becomes the leading word of "Name". */
  function AfterId(d: Record, text: seq<string>, lang: Language): Record
    requires Scrapable(text, lang)
  {
    var r := AfterHeaders(d, text, lang);
    NameRecorded(d, text, lang);
    r[IdKey := Some(LeadingWord(r[NameKey].value))]
  }

  /** The record after the score stage. */
  function AfterScores(d: Record, text: seq<string>, lang: Language): Record
    requires Scrapable(text, lang)
  {
    Store(AfterId(d, text, lang), ScoreWrites(lang, ScoreTable(text, lang), lang.Tests()))
  }

  /** The record after the observation stage: the report fully parsed. */
  function Scraped(d: Record, text: seq<string>, lang: Language): Record
    requires Scrapable(text, lang)
  {
    Store(AfterScores(d, text, lang), ObsWrites(text, lang, 3))
  }

  /** A key without a hyphen goes through the score and observation stages unchanged. */
  lemma HyphenFreeKept(d: Record, text: seq<string>, lang: Language, key: string)
    requires Scrapable(text, lang) && '-' !in key
    ensures var r, e := Scraped(d, text, lang), AfterId(d, text, lang);
      (key in r <==> key in e) && (key in e ==> r[key] == e[key])
  {
    var tests, metrics := lang.Tests(), lang.Metrics();
    forall i, m | 0 <= i < |tests| && 0 <= m < |metrics| && MetricWritten(lang, ScoreTable(text, lang), tests[i], m)
      ensures ScoreKey(lang, tests[i], metrics[m]) != key
    {
      StageKeysHaveHyphen(lang, tests[i], metrics[m], "", "");
    }
    ScoresUntouched(AfterId(d, text, lang), lang, ScoreTable(text, lang), tests, key);
    forall k, kind | 0 <= k < 3 && kind in SectionKinds(text, lang, k)
      ensures ObsKey(lang, ObsSections[k], kind) != key
    {
      StageKeysHaveHyphen(lang, "", "", ObsSections[k], kind);
    }
    ObservationsUntouched(AfterScores(d, text, lang), text, lang, 3, key);
  }

  /** One header row's columns survive the later stages, but for "ID". */
  lemma RowSurvives(d: Record, text: seq<string>, lang: Language, k: nat)
    requires Scrapable(text, lang) && k < |HeaderRows|
    ensures var row, r := HeaderRows[k], Scraped(d, text, lang);
      && row.left in r && r[row.left] == LeftValue(text, row)
      && (row.right != IdKey ==> row.right in r && r[row.right] == RightValue(text, row))
  {
    var row := HeaderRows[k];
    HeadersRecorded(d, text, lang);
    HeaderLabelsLackHyphen();
    LeftLabelsNotId();
    HyphenFreeKept(d, text, lang, row.left);
    HyphenFreeKept(d, text, lang, row.right);
  }

  /** "ID" keeps the value the identifier stage gave it. */
  lemma IdSurvives(d: Record, text: seq<string>, lang: Language)
    requires Scrapable(text, lang)
    ensures var r := Scraped(d, text, lang);
      IdKey in r && r[IdKey] == Some(LeadingWord(LeftValue(text, HeaderRows[0]).value))
  {
    NameRecorded(d, text, lang);
    HyphenFreeKept(d, text, lang, IdKey);
  }

  /** "Language" keeps the value the header stage gave it. */
  lemma LanguageSurvives(d: Record, text: seq<string>, lang: Language)
    requires Scrapable(text, lang)
    ensures var r := Scraped(d, text, lang);
      LanguageKey in r && r[LanguageKey] == Some(lang.Name())
  {
    HeadersRecorded(d, text, lang);
    HeaderLabelsLackHyphen();
    assert LanguageKey != IdKey;
    HyphenFreeKept(d, text, lang, LanguageKey);
  }

  /**
   * After all four stages, each header row's left column is still recorded, so is
   * each right column but "ID", which holds the leading word of "Name", and so is
   * the language tag.
   */
  lemma HeadersSurvive(d: Record, text: seq<string>, lang: Language)
    requires Scrapable(text, lang)
    ensures var r := Scraped(d, text, lang);
      forall k :: 0 <= k < |HeaderRows| ==>
        var row := HeaderRows[k];
        && row.left in r && r[row.left] == LeftValue(text, row)
        && (row.right != IdKey ==> row.right in r && r[row.right] == RightValue(text, row))
    ensures var r := Scraped(d, text, lang);
      IdKey in r && r[IdKey] == Some(LeadingWord(LeftValue(text, HeaderRows[0]).value))
    ensures var r := Scraped(d, text, lang);
      LanguageKey in r && r[LanguageKey] == Some(lang.Name())
  {
    var r := Scraped(d, text, lang);
    forall k | 0 <= k < |HeaderRows|
      ensures var row := HeaderRows[k];
        && row.left in r && r[row.left] == LeftValue(text, row)
        && (row.right != IdKey ==> row.right in r && r[row.right] == RightValue(text, row))
    {
      RowSurvives(d, text, lang, k);
    }
    IdSurvives(d, text, lang);
    LanguageSurvives(d, text, lang);
  }

  /** After all four stages, every score the score stage recorded is still recorded. */
  lemma ScoresSurvive(d: Record, text: seq<string>, lang: Language, t: nat, i: nat, k: nat)
    requires Scrapable(text, lang)
    requires t < |lang.Tests()| && TestLine(ScoreTable(text, lang), lang.Tests()[t]) == Some(i)
    requires k < Min(|lang.Metrics()|, |ScoreTokens(ScoreTable(text, lang)[i], lang.Tests()[t], lang.ProficiencyLevels())|)
    ensures var key, r := ScoreKey(lang, lang.Tests()[t], lang.Metrics()[k]), Scraped(d, text, lang);
      key in r && r[key] == Some(Restore(ScoreTokens(ScoreTable(text, lang)[i], lang.Tests()[t], lang.ProficiencyLevels())[k]))
  {
    var key := ScoreKey(lang, lang.Tests()[t], lang.Metrics()[k]);
    ScoresRecorded(AfterId(d, text, lang), lang, ScoreTable(text, lang), t, i, k);
    forall s, kind | 0 <= s < 3 && kind in SectionKinds(text, lang, s)
      ensures ObsKey(lang, ObsSections[s], kind) != key
    {
      ScoreKeyNotObsKey(lang, t, k, ObsSections[s], kind);
    }
    ObservationsUntouched(AfterScores(d, text, lang), text, lang, 3, key);
  }

  /** After all four stages, every observation the last stage recorded is recorded. */
  lemma ObservationsSurvive(d: Record, text: seq<string>, lang: Language, k: nat, a: nat, obs: seq<Observation>, i: nat)
    requires Scrapable(text, lang) && k < 3 && ObsAnchors(text, lang)[k] == Some(a)
    requires a <= |text| && Scan(text[a..], lang.GenericHeader(), 0, 0) == Some(obs)
    requires i < |obs| && forall j :: i < j < |obs| ==> obs[j].kind != obs[i].kind
    ensures var key, r := ObsKey(lang, ObsSections[k], obs[i].kind), Scraped(d, text, lang);
      key in r && r[key] == Some(obs[i].value)
  {
    ObservationsRecorded(AfterScores(d, text, lang), text, lang, k, a, obs, i);
  }
}
