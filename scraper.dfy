/**
 * The report scraper: an object built over the lines of one Woodcock-Johnson IV
 * score report. Construction works out the report's language and where its
 * sections start; the three stages then fill the `data` record in place, each
 * proved to make exactly the assignments its specification function lists.
 */
module Scraper {
  import opened Options
  import opened Text
  import opened Profiles
  import opened Records
  import opened Layout
  import opened Headers
  import opened Scores
  import opened Observations

  /** The scan of the score table for a test: the first line that starts with its name. */
  method FindTestLine(lines: seq<string>, test: string) returns (j: Option<nat>)
    ensures j == TestLine(lines, test)
  {
    var i := 0;
    while i < |lines|
      invariant 0 <= i <= |lines|
      invariant forall k :: 0 <= k < i ==> !StartsWith(lines[k], test)
    {
      if StartsWith(lines[i], test) {
        return Some(i);
      }
      i := i + 1;
    }
    return None;
  }

  /** The language of a report: Spanish as soon as one line holds the Spanish marker. */
  method FindLanguage(lines: seq<string>) returns (lang: Language)
    ensures lang == DetectLanguage(lines)
  {
    lang := English;
    for i := 0 to |lines|
      invariant forall j :: 0 <= j < i ==> !Contains(lines[j], SpanishMarker)
    {
      if Contains(lines[i], SpanishMarker) {
        lang := Spanish;
        return;
      }
    }
  }

  /**
   * One pass over the report recording, for "TABLE OF SCORES" and each of the
   * three section headers, one past the line where it last occurs.
   */
  method FindAnchors(lines: seq<string>, h: seq<string>) returns (sc: Option<nat>, anchors: seq<Option<nat>>)
    requires |h| == 3 && ScoresHeader !in h && h[0] != h[1] && h[0] != h[2] && h[1] != h[2]
    ensures sc == LastAnchor(lines, ScoresHeader)
    ensures anchors == [LastAnchor(lines, h[0]), LastAnchor(lines, h[1]), LastAnchor(lines, h[2])]
  {
    var cog: Option<nat>, ach: Option<nat>, qual: Option<nat> := None, None, None;
    sc := None;
    for k := 0 to |lines|
      invariant sc == LastAnchor(lines[..k], ScoresHeader)
      invariant cog == LastAnchor(lines[..k], h[0])
      invariant ach == LastAnchor(lines[..k], h[1])
      invariant qual == LastAnchor(lines[..k], h[2])
    {
      LastAnchorStep(lines, ScoresHeader, k);
      LastAnchorStep(lines, h[0], k);
      LastAnchorStep(lines, h[1], k);
      LastAnchorStep(lines, h[2], k);
      if lines[k] == ScoresHeader {
        sc := Some(k + 1);
      } else if lines[k] == h[0] {
        cog := Some(k + 1);
      } else if lines[k] == h[1] {
        ach := Some(k + 1);
      } else if lines[k] == h[2] {
        qual := Some(k + 1);
      }
    }
    assert lines[..|lines|] == lines;
    anchors := [cog, ach, qual];
  }

  /**
   * One line of a section, `skip` lines still to be skipped: whether it ends
   * the section, the observation it holds if any, and how many lines to skip
   * after it (the line merged into a poor-sample notice, or the page header
   * after a footer).
   */
  method ScanLine(lines: seq<string>, generic: string, i: nat, skipping: nat)
    returns (stop: bool, found: bool, o: Observation, skip: nat)
    requires i < |lines| && Scan(lines, generic, i, skipping).Some?
    ensures stop ==> Scan(lines, generic, i, skipping).value == []
    ensures !stop ==> Scan(lines, generic, i + 1, skip).Some?
    ensures !stop ==> (Scan(lines, generic, i, skipping).value
      == (if found then [o] else []) + Scan(lines, generic, i + 1, skip).value)
  {
    stop, found, o := false, false, Observation("", "");
    if skipping > 0 {
      skip := skipping - 1;
      return;
    }
    var line := lines[i];
    skip := 0;
    if OpensPoorSample(line) {
      line := "Poor Sample: " + AfterColon(line + " " + lines[i + 1]);
      skip := 1;
    }
    assert line == if OpensPoorSample(lines[i]) then PoorSampleLine(lines, i) else lines[i];
    if StartsWith(line, generic) {
      stop := true;
    } else if IsFooter(line) {
      skip := 4;
    } else if ':' !in line {
    } else {
      found := true;
      o := Entry(line, LookAheadAt(lines, generic, i));
    }
  }

  /** Moving the observations just read from the rest of the scan to those done. */
  lemma Regroup(done: seq<Observation>, read: seq<Observation>, rest: seq<Observation>)
    ensures done + (read + rest) == (done + read) + rest
    ensures read == [] ==> done + read == done
  {
  }

  class ReportScraper {
    /** The report's lines, page after page. */
    const text: seq<string>
    const language: Language
    /** Index of the report's last line (-1 for an empty report). */
    const lastLine: int
    /** The language profile: tests, metrics, proficiency levels and section headers. */
    const tests: seq<string>
    const metrics: seq<string>
    const proficiencyLevels: seq<string>
    const obsSectionHeaderGeneric: string
    /** Headers of the cognitive, achievement and qualitative sections. */
    const obsHeaders: seq<string>
    /** One past the "TABLE OF SCORES" line, when there is one. */
    const scoresLine: Option<nat>
    /** One past the header of the cognitive, achievement and qualitative sections, when present. */
    const obsFirstLines: seq<Option<nat>>
    const firstObsLine: int
    const endOfScoresLine: int
    /** The record being filled: field name to value. */
    var data: Record

    /** The profile is the language's and the layout fields are those the report's text determines. */
    predicate Valid() {
      && language == DetectLanguage(text)
      && lastLine == |text| - 1
      && tests == language.Tests()
      && metrics == language.Metrics()
      && proficiencyLevels == language.ProficiencyLevels()
      && obsSectionHeaderGeneric == language.GenericHeader()
      && obsHeaders == language.ObsHeaders()
      && scoresLine == LastAnchor(text, ScoresHeader)
      && obsFirstLines == ObsAnchors(text, language)
      && firstObsLine == FirstObsLine(text, language)
      && endOfScoresLine == EndOfScoresLine(text, language)
    }

    /**
     * Reads the layout of the report `lines`: Spanish when a line holds the
     * Spanish marker, and for each section header one past its last copy.
     */
    constructor(lines: seq<string>)
      ensures text == lines && Valid() && data == map[]
    {
      var lang := FindLanguage(lines);
      var h := lang.ObsHeaders();
      HeadersDistinct(lang);
      var sc, anchors := FindAnchors(lines, h);
      var last := |lines| - 1;
      var first := MinAnchor(anchors, last);
      text := lines;
      language := lang;
      lastLine := last;
      tests := lang.Tests();
      metrics := lang.Metrics();
      proficiencyLevels := lang.ProficiencyLevels();
      obsSectionHeaderGeneric := lang.GenericHeader();
      obsHeaders := h;
      scoresLine := sc;
      obsFirstLines := anchors;
      firstObsLine := first;
      if lang == English {
        endOfScoresLine := first;
      } else {
        endOfScoresLine := last;
      }
      data := map[];
    }

    /**
     * Reads the two-column header block: for each header row its left and right
     * column, then the language tag.
     */
    method GetHeaders()
      requires HeadersReadable(text)
      modifies this
      ensures data == Store(old(data), HeaderFields(text, language))
    {
      var rows := HeaderRows;
      ghost var vs := RowValues(text, rows);
      for k := 0 to |rows|
        invariant data == Store(old(data), Assign(rows[..k], vs[..k]))
      {
        var row := rows[k];
        assert RowReadable(text, row);
        var value1 := LeftValue(text, row);
        var value2 := RightColumn(text[row.line], row.right);
        AssignStep(rows, vs, k);
        StoreSnoc(old(data), Assign(rows[..k], vs[..k]), Field(row.left, value1));
        StoreSnoc(old(data), Assign(rows[..k], vs[..k]) + [Field(row.left, value1)], Field(row.right, value2));
        data := data[row.left := value1];
        data := data[row.right := value2];
      }
      assert rows[..|rows|] == rows && vs[..|vs|] == vs;
      StoreSnoc(old(data), Assign(rows, vs), Field(LanguageKey, Some(language.Name())));
      data := data[LanguageKey := Some(language.Name())];
    }

    /** Sets "ID" to the leading run of word characters of the value under `idKey`. */
    method SetId(idKey: string)
      requires idKey in data && data[idKey].Some?
      modifies this
      ensures data == old(data)["ID" := Some(LeadingWord(old(data)[idKey].value))]
    {
      data := data["ID" := Some(LeadingWord(data[idKey].value))];
    }

    /**
     * Stores the metric values of `test` read from its score line `line`: the
     * line's tokens paired with the metrics, each token restored.
     */
    method StoreScores(test: string, line: string)
      modifies this
      ensures data == Store(old(data), ZipScores(language, test, metrics, ScoreTokens(line, test, proficiencyLevels)))
    {
      var scores := ScoreTokens(line, test, proficiencyLevels);
      StoreMetrics(test, scores);
    }

    /** `zip(metrics, scores)`: each metric of `test` gets its score restored. */
    method StoreMetrics(test: string, scores: seq<string>)
      modifies this
      ensures data == Store(old(data), ZipScores(language, test, metrics, scores))
    {
      ghost var fs := ZipScores(language, test, metrics, scores);
      for k := 0 to Min(|metrics|, |scores|)
        invariant data == Store(old(data), fs[..k])
      {
        var key, score := ScoreKey(language, test, metrics[k]), Restore(scores[k]);
        assert fs[k] == Field(key, Some(score));
        assert fs[..k + 1] == fs[..k] + [fs[k]];
        StoreSnoc(old(data), fs[..k], fs[k]);
        data := data[key := Some(score)];
      }
      assert fs[..|fs|] == fs;
    }

    /**
     * Reads the table of scores: for each recognised test, in order, the first
     * line of the table that starts with the test's name.
     */
    method GetTestScores()
      requires Valid() && scoresLine.Some?
      modifies this
      ensures data == Store(old(data), ScoreWrites(language, ScoreTable(text, language), language.Tests()))
    {
      EndOfScoresBeforeLast(text, language);
      var a := scoresLine.value;
      var lines := if endOfScoresLine <= a then [] else text[a..endOfScoresLine];
      assert lines == ScoreTable(text, language);
      for t := 0 to |tests|
        invariant data == Store(old(data), ScoreWrites(language, lines, tests[..t]))
      {
        var test := tests[t];
        ScoreWritesStep(language, lines, tests, t);
        ghost var before := ScoreWrites(language, lines, tests[..t]);
        var j := FindTestLine(lines, test);
        if j.Some? {
          StoreAppend(old(data), before, TestFields(language, lines, test));
          StoreScores(test, lines[j.value]);
        } else {
          assert TestFields(language, lines, test) == [];
          assert before + [] == before;
        }
      }
      assert tests[..|tests|] == tests;
    }

    /**
     * Reads the observations of the section called `section` from its lines
     * `lines`, storing each observation as it is read.
     */
    method StoreObservations(section: string, lines: seq<string>)
      requires Scan(lines, obsSectionHeaderGeneric, 0, 0).Some?
      modifies this
      ensures data == Store(old(data), ObsFields(language, section, Scan(lines, obsSectionHeaderGeneric, 0, 0).value))
    {
      var generic := obsSectionHeaderGeneric;
      ghost var total := Scan(lines, generic, 0, 0).value;
      ghost var done: seq<Observation> := [];
      ghost var rest := total;
      var skip := 0;
      var i := 0;
      while i < |lines|
        invariant 0 <= i <= |lines|
        invariant Scan(lines, generic, i, skip) == Some(rest)
        invariant done + rest == total
        invariant data == Store(old(data), ObsFields(language, section, done))
      {
        var stop, found, o, after := ScanLine(lines, generic, i, skip);
        if stop {
          break;
        }
        ghost var read: seq<Observation> := if found then [o] else [];
        if found {
          ObsFieldsRecord(old(data), language, section, done, o);
          data := data[ObsKey(language, section, o.kind) := Some(o.value)];
        }
        ghost var rest' := Scan(lines, generic, i + 1, after).value;
        Regroup(done, read, rest');
        done, rest := done + read, rest';
        skip := after;
        i := i + 1;
      }
      assert rest == [];
      assert done + [] == done;
    }

    /**
     * Reads the three observation sections in order, each present one from the
     * line after its header.
     */
    method GetObservations()
      requires Valid() && ObservationsReadable(text, language)
      modifies this
      ensures data == Store(old(data), ObsWrites(text, language, 3))
    {
      for k := 0 to 3
        invariant data == Store(old(data), ObsWrites(text, language, k))
      {
        ObsWritesStep(text, language, k);
        var anchor := obsFirstLines[k];
        if anchor.Some? {
          SectionWritesPresent(text, language, k, anchor.value);
          StoreAppend(old(data), ObsWrites(text, language, k), SectionWrites(text, language, k));
          StoreObservations(ObsSections[k], text[anchor.value..]);
        }
      }
    }
  }
}
