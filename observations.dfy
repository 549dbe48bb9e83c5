/**
 * The test-session observation sections: a section is read line by line from
 * the line after its header until the next section header. A line with a colon
 * is an observation `kind: value`; a line without one continues the previous
 * observation; a page footer (`1 of 3`, ...) and the four page-header lines
 * after it are skipped; the long "results of ... should be interpreted with
 * caution" notice is merged with the line after it into a "Poor Sample"
 * observation. The value of an observation also takes in the line that follows
 * it (or, across a page break, the line six ahead) when that line is neither a
 * new observation nor a section header.
 */
module Observations {
  import opened Options
  import opened Text
  import opened Profiles
  import opened Records
  import opened Layout

  /** One observation: its kind (the text before the first colon) and its value. */
  datatype Observation = Observation(kind: string, value: string)

  /** What the line after an observation adds to it. */
  datatype LookAhead =
    | NoSpill                 // nothing: the next line is an observation, a header or the last page footer
    | Spill(more: string)     // this continuation text
    | PastEnd                 // the line to look at is beyond the report (the source raises IndexError)

  /** The notice that a test's results are unreliable, in English and in Spanish. */
  const PoorSampleOpenings: seq<string> :=
    ["The results of the WJ IV Tests of", "The results of the Batería IV Woodcock-Muñoz Pruebas"]

  predicate OpensPoorSample(line: string) {
    StartsWith(line, PoorSampleOpenings[0]) || StartsWith(line, PoorSampleOpenings[1])
  }

  /** The page footer `N of M` for the first three pages. */
  predicate IsFooter(line: string) {
    StartsWith(line, "1 of") || StartsWith(line, "2 of") || StartsWith(line, "3 of")
  }

  /** The line mentions one of the first three pages: the line after an observation is a footer. */
  predicate MentionsPage(line: string) {
    Contains(line, "1 of ") || Contains(line, "2 of ") || Contains(line, "3 of ")
  }

  /** The footer of the last page, `N of N`, judged by its first character. */
  predicate IsLastPageFooter(line: string)
    requires line != []
  {
    line == [line[0]] + " of " + [line[0]]
  }

  /** A line that may be appended to the observation before it. */
  predicate Continues(line: string, generic: string) {
    ':' !in line && !Contains(line, generic)
  }

  /** The observation line a poor-sample notice at line `i` becomes, merged with line `i + 1`. */
  function PoorSampleLine(lines: seq<string>, i: nat): string
    requires i + 1 < |lines|
  {
    "Poor Sample: " + AfterColon(lines[i] + " " + lines[i + 1])
  }

  /** What the observation at line `i` takes in from the lines after it. */
  function LookAheadAt(lines: seq<string>, generic: string, i: nat): LookAhead {
    if |lines| <= i + 1 then PastEnd
    else
      var next := lines[i + 1];
      if MentionsPage(next) then
        if IsLastPageFooter(next) then NoSpill
        else if |lines| <= i + 6 then PastEnd
        else if Continues(lines[i + 6], generic) then Spill(lines[i + 6])
        else NoSpill
      else if Continues(next, generic) then Spill(next)
      else NoSpill
  }

  /** The observation read from `line` with what it takes in from the lines after it. */
  function Entry(line: string, la: LookAhead): (o: Observation)
    requires la != PastEnd
  {
    Observation(Trim(BeforeColon(line)),
                Trim(AfterColon(line) + if la.Spill? then " " + la.more else ""))
  }

  /** What one line of a section, not being skipped, does to the scan. */
  datatype Step =
    | Stop                                // the next section's header: the section ends
    | Crash                               // the source raises IndexError
    | Pass(skip: nat)                     // no observation; skip this many lines after it
    | Read(o: Observation, skip: nat)     // an observation; skip this many lines after it

  /**
   * Line `i` of a section: a poor-sample notice is first merged with the next
   * line (which is then skipped); a header line stops the scan; a footer is
   * skipped with the four lines after it; a line without a colon is passed
   * over; any other line is an observation.
   */
  function LineStep(lines: seq<string>, generic: string, i: nat): Step
    requires i < |lines|
  {
    var poor := OpensPoorSample(lines[i]);
    if poor && |lines| <= i + 1 then Crash
    else
      var line := if poor then PoorSampleLine(lines, i) else lines[i];
      var after := if poor then 1 else 0;
      if StartsWith(line, generic) then Stop
      else if IsFooter(line) then Pass(4)
      else if ':' !in line then Pass(after)
      else
        var la := LookAheadAt(lines, generic, i);
        if la == PastEnd then Crash else Read(Entry(line, la), after)
  }

  /**
   * The observations of a section whose lines (from the line after its header to
   * the end of the report) are `lines`, read from index `i` with `skip` lines
   * still to be skipped; None where the source raises IndexError.
   */
  function Scan(lines: seq<string>, generic: string, i: nat, skip: nat): Option<seq<Observation>>
    decreases |lines| - i
  {
    if |lines| <= i then Some([])
    else if skip > 0 then Scan(lines, generic, i + 1, skip - 1)
    else
      match LineStep(lines, generic, i)
      case Stop => Some([])
      case Crash => None
      case Pass(n) => Scan(lines, generic, i + 1, n)
      case Read(o, n) =>
        match Scan(lines, generic, i + 1, n)
        case None => None
        case Some(rest) => Some([o] + rest)
  }

  /** The record key of an observation: language, section title and kind. */
  function ObsKey(lang: Language, section: string, kind: string): string {
    lang.Name() + " - " + SectionTitle(section) + ": " + Trim(kind)
  }

  /** The assignments made for a section's observations, in order. */
  function ObsFields(lang: Language, section: string, obs: seq<Observation>): (fs: seq<Field>)
    ensures |fs| == |obs|
    ensures forall k :: 0 <= k < |fs| ==> fs[k] == Field(ObsKey(lang, section, obs[k].kind), Some(obs[k].value))
  {
    if obs == [] then []
    else ObsFields(lang, section, obs[..|obs| - 1])
         + [Field(ObsKey(lang, section, obs[|obs| - 1].kind), Some(obs[|obs| - 1].value))]
  }

  /** One more observation adds its assignment at the end. */
  lemma ObsFieldsSnoc(lang: Language, section: string, obs: seq<Observation>, o: Observation)
    ensures ObsFields(lang, section, obs + [o]) == ObsFields(lang, section, obs) + [Field(ObsKey(lang, section, o.kind), Some(o.value))]
  {
    assert (obs + [o])[..|obs|] == obs;
  }

  /** Storing one more observation writes its value under its key and changes nothing else. */
  lemma ObsFieldsRecord(d: Record, lang: Language, section: string, obs: seq<Observation>, o: Observation)
    ensures Store(d, ObsFields(lang, section, obs + [o]))
         == Store(d, ObsFields(lang, section, obs))[ObsKey(lang, section, o.kind) := Some(o.value)]
  {
    ObsFieldsSnoc(lang, section, obs, o);
    StoreSnoc(d, ObsFields(lang, section, obs), Field(ObsKey(lang, section, o.kind), Some(o.value)));
  }

  // ---------------------------------------------------------------------------
  // Properties of the scan
  // ---------------------------------------------------------------------------

  /** Skipping `k` lines from `i` is starting afresh `k` lines later (or at the end). */
  lemma {:induction false} SkipAdvance(lines: seq<string>, generic: string, i: nat, k: nat)
    ensures Scan(lines, generic, i, k)
         == Scan(lines, generic, if i + k <= |lines| then i + k else |lines|, 0)
    decreases k
  {
    var j := if i + k <= |lines| then i + k else |lines|;
    if k > 0 && i < |lines| {
      ScanSkipsOne(lines, generic, i, k);
      SkipAdvance(lines, generic, i + 1, k - 1);
      assert j == if i + 1 + (k - 1) <= |lines| then i + 1 + (k - 1) else |lines|;
    } else if |lines| <= i {
      assert Scan(lines, generic, i, k) == Some([]) == Scan(lines, generic, j, 0);
    } else {
      assert j == i;
    }
  }

  /** A line being skipped only lowers the count. */
  lemma ScanSkipsOne(lines: seq<string>, generic: string, i: nat, skip: nat)
    requires i < |lines| && skip > 0
    ensures Scan(lines, generic, i, skip) == Scan(lines, generic, i + 1, skip - 1)
  {
  }

  /** A section ends at the first line that starts with the generic section header. */
  lemma ScanStopsAtHeader(lines: seq<string>, generic: string, i: nat)
    requires i < |lines| && StartsWith(lines[i], generic) && !OpensPoorSample(lines[i])
    ensures Scan(lines, generic, i, 0) == Some([])
  {
  }

  /** A page footer is dropped together with the four page-header lines after it. */
  lemma ScanSkipsFooter(lines: seq<string>, generic: string, i: nat)
    requires i < |lines| && IsFooter(lines[i]) && !StartsWith(lines[i], generic)
    requires !OpensPoorSample(lines[i])
    ensures Scan(lines, generic, i, 0)
         == Scan(lines, generic, if i + 5 <= |lines| then i + 5 else |lines|, 0)
  {
    SkipAdvance(lines, generic, i + 1, 4);
  }

  /** A line without a colon (that is no header or footer) is skipped: it only continues the last one. */
  lemma ScanDropsContinuation(lines: seq<string>, generic: string, i: nat)
    requires i < |lines| && ':' !in lines[i] && !OpensPoorSample(lines[i])
    requires !StartsWith(lines[i], generic) && !IsFooter(lines[i])
    ensures Scan(lines, generic, i, 0) == Scan(lines, generic, i + 1, 0)
  {
  }

  /**
   * A line with a colon yields an observation of the text before the first colon;
   * the scan goes on with the next line.
   */
  lemma ScanReadsObservation(lines: seq<string>, generic: string, i: nat)
    requires i < |lines| && ':' in lines[i] && !OpensPoorSample(lines[i])
    requires !StartsWith(lines[i], generic) && !IsFooter(lines[i])
    requires LookAheadAt(lines, generic, i) != PastEnd && Scan(lines, generic, i + 1, 0).Some?
    ensures Scan(lines, generic, i, 0).Some?
    ensures Scan(lines, generic, i, 0).value
         == [Entry(lines[i], LookAheadAt(lines, generic, i))] + Scan(lines, generic, i + 1, 0).value
    ensures Entry(lines[i], LookAheadAt(lines, generic, i)).kind == Trim(BeforeColon(lines[i]))
    ensures ':' !in Entry(lines[i], LookAheadAt(lines, generic, i)).kind
  {
    ColonSplit(lines[i]);
    TrimAbsent(BeforeColon(lines[i]), ':');
  }

  /**
   * A poor-sample notice becomes one "Poor Sample" observation whose value is the
   * text after the first colon of the notice joined to its next line; that next
   * line is then skipped.
   */
  lemma ScanPoorSample(lines: seq<string>, generic: string, i: nat)
    requires i + 1 < |lines| && OpensPoorSample(lines[i])
    requires !StartsWith(PoorSampleLine(lines, i), generic) && !IsFooter(PoorSampleLine(lines, i))
    requires LookAheadAt(lines, generic, i) != PastEnd && Scan(lines, generic, i + 2, 0).Some?
    ensures Scan(lines, generic, i, 0).Some?
    ensures Scan(lines, generic, i, 0).value
         == [Entry(PoorSampleLine(lines, i), LookAheadAt(lines, generic, i))] + Scan(lines, generic, i + 2, 0).value
    ensures Entry(PoorSampleLine(lines, i), LookAheadAt(lines, generic, i)).kind == "Poor Sample"
  {
    var line := PoorSampleLine(lines, i);
    ColonSplitJoin("Poor Sample", " " + AfterColon(lines[i] + " " + lines[i + 1]));
    assert line == "Poor Sample" + ":" + (" " + AfterColon(lines[i] + " " + lines[i + 1]));
    assert ':' in line by { assert line[11] == ':'; }
    SkipAdvance(lines, generic, i + 1, 1);
    TrimPadded([], "Poor Sample", []);
  }

  /**
   * The value of a poor-sample notice: when the notice has no colon and the next
   * line reads `a: b` with a colon-free `a`, the merged observation is `b`.
   */
  lemma PoorSampleReason(lines: seq<string>, i: nat, a: string, b: string)
    requires i + 1 < |lines| && ':' !in lines[i] && ':' !in a && lines[i + 1] == a + ":" + b
    ensures PoorSampleLine(lines, i) == "Poor Sample: " + b
  {
    assert lines[i] + " " + lines[i + 1] == (lines[i] + " " + a) + ":" + b;
    ColonSplitJoin(lines[i] + " " + a, b);
  }

  /** An observation followed by a plain continuation line takes that line in. */
  lemma EntrySpillsNext(lines: seq<string>, generic: string, i: nat)
    requires i + 1 < |lines| && !MentionsPage(lines[i + 1]) && Continues(lines[i + 1], generic)
    ensures LookAheadAt(lines, generic, i) == Spill(lines[i + 1])
    ensures Entry(lines[i], LookAheadAt(lines, generic, i)).value
         == Trim(AfterColon(lines[i]) + " " + lines[i + 1])
  {
    assert AfterColon(lines[i]) + (" " + lines[i + 1]) == AfterColon(lines[i]) + " " + lines[i + 1];
  }

  /**
   * An observation at the foot of a page takes in the line six ahead (past the
   * footer and the next page's header) when that line continues it.
   */
  lemma EntrySpillsAcrossPage(lines: seq<string>, generic: string, i: nat)
    requires i + 6 < |lines| && MentionsPage(lines[i + 1]) && lines[i + 1] != []
    requires !IsLastPageFooter(lines[i + 1]) && Continues(lines[i + 6], generic)
    ensures LookAheadAt(lines, generic, i) == Spill(lines[i + 6])
    ensures Entry(lines[i], LookAheadAt(lines, generic, i)).value
         == Trim(AfterColon(lines[i]) + " " + lines[i + 6])
  {
    assert AfterColon(lines[i]) + (" " + lines[i + 6]) == AfterColon(lines[i]) + " " + lines[i + 6];
  }

  /** An observation before the last page's footer takes in nothing. */
  lemma EntryAtLastPage(lines: seq<string>, generic: string, i: nat)
    requires i + 1 < |lines| && MentionsPage(lines[i + 1]) && lines[i + 1] != []
    requires IsLastPageFooter(lines[i + 1])
    ensures Entry(lines[i], LookAheadAt(lines, generic, i)).value == Trim(AfterColon(lines[i]))
  {
    assert AfterColon(lines[i]) + "" == AfterColon(lines[i]);
  }

  /** The kind of an observation read from a line is colon-free and stripped. */
  lemma LineStepKindClean(lines: seq<string>, generic: string, i: nat)
    requires i < |lines| && LineStep(lines, generic, i).Read?
    ensures ':' !in LineStep(lines, generic, i).o.kind && IsTrimmed(LineStep(lines, generic, i).o.kind)
  {
    var line := if OpensPoorSample(lines[i]) then PoorSampleLine(lines, i) else lines[i];
    ColonSplit(line);
    TrimAbsent(BeforeColon(line), ':');
  }

  /** Every kind the scan reports is colon-free and stripped. */
  lemma {:induction false} ScanKindsClean(lines: seq<string>, generic: string, i: nat, skip: nat)
    requires Scan(lines, generic, i, skip).Some?
    ensures forall k :: 0 <= k < |Scan(lines, generic, i, skip).value| ==>
      var kind := Scan(lines, generic, i, skip).value[k].kind;
      ':' !in kind && IsTrimmed(kind)
    decreases |lines| - i
  {
    if |lines| <= i {
    } else if skip > 0 {
      ScanKindsClean(lines, generic, i + 1, skip - 1);
    } else {
      match LineStep(lines, generic, i)
      case Stop =>
      case Pass(n) =>
        ScanKindsClean(lines, generic, i + 1, n);
      case Read(o, n) =>
        ScanKindsClean(lines, generic, i + 1, n);
        LineStepKindClean(lines, generic, i);
        var out := Scan(lines, generic, i, skip).value;
        var rest := Scan(lines, generic, i + 1, n).value;
        assert out == [o] + rest;
        forall k | 0 <= k < |out| ensures ':' !in out[k].kind && IsTrimmed(out[k].kind) {
          if k > 0 {
            assert out[k] == rest[k - 1];
          }
        }
    }
  }

  /** Different kinds in the same section give different keys. */
  lemma ObsKeyInjective(lang: Language, section: string, k1: string, k2: string)
    requires Trim(k1) != Trim(k2)
    ensures ObsKey(lang, section, k1) != ObsKey(lang, section, k2)
  {
    var pre := lang.Name() + " - " + SectionTitle(section) + ": ";
    assert ObsKey(lang, section, k1) == pre + Trim(k1);
    assert ObsKey(lang, section, k2) == pre + Trim(k2);
    assert (pre + Trim(k1))[|pre|..] == Trim(k1);
    assert (pre + Trim(k2))[|pre|..] == Trim(k2);
  }

  /**
   * Of several observations of the same kind in a section, the last one wins:
   * its value is what the record holds under the kind's key.
   */
  lemma LastObservationWins(d: Record, lang: Language, section: string, obs: seq<Observation>, i: nat)
    requires i < |obs|
    requires forall j :: 0 <= j < |obs| ==> IsTrimmed(obs[j].kind)
    requires forall j :: i < j < |obs| ==> obs[j].kind != obs[i].kind
    ensures var key := ObsKey(lang, section, obs[i].kind);
      key in Store(d, ObsFields(lang, section, obs)) &&
      Store(d, ObsFields(lang, section, obs))[key] == Some(obs[i].value)
  {
    var fs := ObsFields(lang, section, obs);
    var key := ObsKey(lang, section, obs[i].kind);
    assert fs[i] == Field(key, Some(obs[i].value));
    forall j | i < j < |fs| ensures fs[j].key != key {
      assert fs[j].key == ObsKey(lang, section, obs[j].kind);
      TrimIdempotent(obs[i].kind);
      TrimIdempotent(obs[j].kind);
      ObsKeyInjective(lang, section, obs[i].kind, obs[j].kind);
    }
    StoreLastWrite(d, fs, i);
  }

  // ---------------------------------------------------------------------------
  // The observation stage over the three sections
  // ---------------------------------------------------------------------------

  /** The lines of a section: from the line after its header to the end of the report. */
  function SectionLines(text: seq<string>, anchor: nat): seq<string>
    requires anchor <= |text|
  {
    text[anchor..]
  }

  /** Every section present can be scanned without the IndexError the source would raise. */
  predicate ObservationsReadable(text: seq<string>, lang: Language) {
    forall k :: 0 <= k < 3 ==>
      var a := ObsAnchors(text, lang)[k];
      a.Some? ==> Scan(SectionLines(text, a.value), lang.GenericHeader(), 0, 0).Some?
  }

  /** The assignments made for section `k`: none when the report lacks it. */
  function SectionWrites(text: seq<string>, lang: Language, k: nat): seq<Field>
    requires k < 3 && ObservationsReadable(text, lang)
  {
    match ObsAnchors(text, lang)[k]
    case None => []
    case Some(a) =>
      ObsFields(lang, ObsSections[k], Scan(SectionLines(text, a), lang.GenericHeader(), 0, 0).value)
  }

  /** The kinds section `k` yields, in order: none when the report lacks it. */
  function SectionKinds(text: seq<string>, lang: Language, k: nat): seq<string>
    requires k < 3 && ObservationsReadable(text, lang)
  {
    match ObsAnchors(text, lang)[k]
    case None => []
    case Some(a) =>
      var obs := Scan(SectionLines(text, a), lang.GenericHeader(), 0, 0).value;
      seq(|obs|, j requires 0 <= j < |obs| => obs[j].kind)
  }

  /** No section writes `key`: it is the key of no kind a present section yields. */
  predicate Unwritten(text: seq<string>, lang: Language, key: string)
    requires ObservationsReadable(text, lang)
  {
    forall k, kind :: 0 <= k < 3 && kind in SectionKinds(text, lang, k) ==> ObsKey(lang, ObsSections[k], kind) != key
  }

  /** The assignments of the observation stage for the first `n` sections, in order. */
  function ObsWrites(text: seq<string>, lang: Language, n: nat): seq<Field>
    requires n <= 3 && ObservationsReadable(text, lang)
  {
    if n == 0 then [] else ObsWrites(text, lang, n - 1) + SectionWrites(text, lang, n - 1)
  }

  /** A present section contributes the fields of its scan. */
  lemma SectionWritesPresent(text: seq<string>, lang: Language, k: nat, a: nat)
    requires k < 3 && ObservationsReadable(text, lang) && ObsAnchors(text, lang)[k] == Some(a)
    ensures a <= |text| && Scan(text[a..], lang.GenericHeader(), 0, 0).Some?
    ensures SectionWrites(text, lang, k) == ObsFields(lang, ObsSections[k], Scan(text[a..], lang.GenericHeader(), 0, 0).value)
  {
    assert ObsAnchors(text, lang)[k] == LastAnchor(text, lang.ObsHeaders()[k]);
    assert SectionLines(text, a) == text[a..];
  }

  /** One more section adds its fields, none when the report lacks it. */
  lemma ObsWritesStep(text: seq<string>, lang: Language, k: nat)
    requires k < 3 && ObservationsReadable(text, lang)
    ensures ObsWrites(text, lang, k + 1) == ObsWrites(text, lang, k) + SectionWrites(text, lang, k)
    ensures ObsAnchors(text, lang)[k].None? ==> ObsWrites(text, lang, k + 1) == ObsWrites(text, lang, k)
  {
    if ObsAnchors(text, lang)[k].None? {
      assert ObsWrites(text, lang, k) + [] == ObsWrites(text, lang, k);
    }
  }

  // ---------------------------------------------------------------------------
  // Keys of different sections
  // ---------------------------------------------------------------------------

  /** The title a section contributes to its keys: underscores to spaces, title-cased. */
  function SectionTitle(section: string): string {
    Title(ReplaceAll(section, "_", " "))
  }

  /** Title-casing a section name with no colon gives a title with none. */
  lemma SectionTitleLacksColon(section: string)
    requires ':' !in section
    ensures ':' !in SectionTitle(section)
  {
    var r := ReplaceAll(section, "_", " ");
    ReplaceCharEach(section, '_', ' ');
    forall j | 0 <= j < |r| ensures r[j] != ':' {
      assert section[j] in section;
    }
    TitleLacks(r, ':');
  }

  /** No section title holds a colon. */
  lemma SectionTitlesLackColon()
    ensures forall k :: 0 <= k < 3 ==> ':' !in SectionTitle(ObsSections[k])
  {
    forall k | 0 <= k < 3 ensures ':' !in SectionTitle(ObsSections[k]) {
      assert ':' !in ObsSections[k];
      SectionTitleLacksColon(ObsSections[k]);
    }
  }

  /** The three sections have pairwise different titles. */
  lemma SectionTitlesDistinct()
    ensures forall k, m :: 0 <= k < m < 3 ==> SectionTitle(ObsSections[k]) != SectionTitle(ObsSections[m])
  {
    forall k, m | 0 <= k < m < 3 ensures SectionTitle(ObsSections[k]) != SectionTitle(ObsSections[m]) {
      var r1 := ReplaceAll(ObsSections[k], "_", " ");
      var r2 := ReplaceAll(ObsSections[m], "_", " ");
      ReplaceCharEach(ObsSections[k], '_', ' ');
      ReplaceCharEach(ObsSections[m], '_', ' ');
      if |r1| == |r2| {
        assert Title(r1)[0] == UpperChar(ObsSections[k][0]);
        assert Title(r2)[0] == UpperChar(ObsSections[m][0]);
      }
    }
  }

  /** `pre + x + ": " + kind` determines `x` when `x` holds no colon. */
  lemma ColonSeparated(pre: string, x: string, y: string, k1: string, k2: string)
    requires ':' !in x && ':' !in y && x != y
    ensures pre + x + ": " + k1 != pre + y + ": " + k2
  {
    PiecesDistinct(pre, x, " " + k1, y, " " + k2, ':');
    assert pre + x + ": " + k1 == pre + x + [':'] + (" " + k1);
    assert pre + y + ": " + k2 == pre + y + [':'] + (" " + k2);
  }

  /** Observation keys of different sections differ, whatever the kinds. */
  lemma ObsKeyDistinct(lang: Language, k: nat, m: nat, kind1: string, kind2: string)
    requires k < 3 && m < 3 && k != m
    ensures ObsKey(lang, ObsSections[k], kind1) != ObsKey(lang, ObsSections[m], kind2)
  {
    SectionTitlesLackColon();
    SectionTitlesDistinct();
    ColonSeparated(lang.Name() + " - ", SectionTitle(ObsSections[k]), SectionTitle(ObsSections[m]), Trim(kind1), Trim(kind2));
  }

  // ---------------------------------------------------------------------------
  // The observation stage as a whole
  // ---------------------------------------------------------------------------

  /** A section writes only the keys of the kinds it yields. */
  lemma SectionWritesAvoid(text: seq<string>, lang: Language, k: nat, key: string)
    requires k < 3 && ObservationsReadable(text, lang)
    requires forall kind :: kind in SectionKinds(text, lang, k) ==> ObsKey(lang, ObsSections[k], kind) != key
    ensures forall j :: 0 <= j < |SectionWrites(text, lang, k)| ==> SectionWrites(text, lang, k)[j].key != key
  {
    var fs := SectionWrites(text, lang, k);
    match ObsAnchors(text, lang)[k]
    case None =>
      assert fs == [];
    case Some(b) =>
      SectionWritesPresent(text, lang, k, b);
      var obs := Scan(text[b..], lang.GenericHeader(), 0, 0).value;
      assert SectionLines(text, b) == text[b..];
      forall j | 0 <= j < |fs| ensures fs[j].key != key {
        assert SectionKinds(text, lang, k)[j] == obs[j].kind;
        assert fs[j].key == ObsKey(lang, ObsSections[k], obs[j].kind);
      }
  }

  /** A section leaves alone the keys of every other section. */
  lemma OtherSectionKeeps(e: Record, text: seq<string>, lang: Language, k: nat, m: nat, kind: string)
    requires k < 3 && m < 3 && k != m && ObservationsReadable(text, lang)
    ensures var key := ObsKey(lang, ObsSections[k], kind);
      (key in Store(e, SectionWrites(text, lang, m)) <==> key in e) &&
      (key in e ==> Store(e, SectionWrites(text, lang, m))[key] == e[key])
  {
    var key := ObsKey(lang, ObsSections[k], kind);
    var section := ObsSections[m];
    forall other ensures ObsKey(lang, section, other) != key {
      ObsKeyDistinct(lang, m, k, other, kind);
    }
    SectionWritesAvoid(text, lang, m, key);
    StoreUntouched(e, SectionWrites(text, lang, m), key);
  }

  /** A section records the last observation of each kind it holds. */
  lemma SectionRecorded(e: Record, text: seq<string>, lang: Language, k: nat, a: nat, obs: seq<Observation>, i: nat)
    requires k < 3 && ObservationsReadable(text, lang) && ObsAnchors(text, lang)[k] == Some(a)
    requires a <= |text| && Scan(text[a..], lang.GenericHeader(), 0, 0) == Some(obs)
    requires i < |obs| && forall j :: i < j < |obs| ==> obs[j].kind != obs[i].kind
    ensures var key := ObsKey(lang, ObsSections[k], obs[i].kind);
      key in Store(e, SectionWrites(text, lang, k)) && Store(e, SectionWrites(text, lang, k))[key] == Some(obs[i].value)
  {
    SectionWritesPresent(text, lang, k, a);
    ScanKindsClean(text[a..], lang.GenericHeader(), 0, 0);
    LastObservationWins(e, lang, ObsSections[k], obs, i);
  }

  /** Up to section `n`, the last observation of a kind in section `k` is recorded. */
  lemma {:induction false} ObservationsRecordedUpTo(d: Record, text: seq<string>, lang: Language, k: nat, a: nat,
                                                    obs: seq<Observation>, i: nat, n: nat)
    requires k < n <= 3 && ObservationsReadable(text, lang) && ObsAnchors(text, lang)[k] == Some(a)
    requires a <= |text| && Scan(text[a..], lang.GenericHeader(), 0, 0) == Some(obs)
    requires i < |obs| && forall j :: i < j < |obs| ==> obs[j].kind != obs[i].kind
    ensures var key := ObsKey(lang, ObsSections[k], obs[i].kind);
      key in Store(d, ObsWrites(text, lang, n)) && Store(d, ObsWrites(text, lang, n))[key] == Some(obs[i].value)
    decreases n
  {
    var before := ObsWrites(text, lang, n - 1);
    ObsWritesStep(text, lang, n - 1);
    StoreAppend(d, before, SectionWrites(text, lang, n - 1));
    assert Store(d, ObsWrites(text, lang, n)) == Store(Store(d, before), SectionWrites(text, lang, n - 1));
    if n == k + 1 {
      SectionRecorded(Store(d, before), text, lang, k, a, obs, i);
    } else {
      ObservationsRecordedUpTo(d, text, lang, k, a, obs, i, n - 1);
      OtherSectionKeeps(Store(d, before), text, lang, k, n - 1, obs[i].kind);
    }
  }

  /** A section leaves alone every key that no section writes. */
  lemma ForeignKeyKept(e: Record, text: seq<string>, lang: Language, m: nat, key: string)
    requires m < 3 && ObservationsReadable(text, lang)
    requires Unwritten(text, lang, key)
    ensures key in Store(e, SectionWrites(text, lang, m)) <==> key in e
    ensures key in e ==> Store(e, SectionWrites(text, lang, m))[key] == e[key]
  {
    var section := ObsSections[m];
    forall kind | kind in SectionKinds(text, lang, m) ensures ObsKey(lang, section, kind) != key {
    }
    SectionWritesAvoid(text, lang, m, key);
    StoreUntouched(e, SectionWrites(text, lang, m), key);
  }

  /**
   * After the observation stage, the key of an observation's kind in its section
   * holds the value of the last observation of that kind in the section: later
   * sections write other keys.
   */
  lemma ObservationsRecorded(d: Record, text: seq<string>, lang: Language, k: nat, a: nat, obs: seq<Observation>, i: nat)
    requires k < 3 && ObservationsReadable(text, lang) && ObsAnchors(text, lang)[k] == Some(a)
    requires a <= |text| && Scan(text[a..], lang.GenericHeader(), 0, 0) == Some(obs)
    requires i < |obs| && forall j :: i < j < |obs| ==> obs[j].kind != obs[i].kind
    ensures var key := ObsKey(lang, ObsSections[k], obs[i].kind);
      key in Store(d, ObsWrites(text, lang, 3)) && Store(d, ObsWrites(text, lang, 3))[key] == Some(obs[i].value)
  {
    ObservationsRecordedUpTo(d, text, lang, k, a, obs, i, 3);
  }

  /**
   * The observation stage leaves every key it does not write as it was: every key
   * but those of the kinds the present sections yield.
   */
  lemma {:induction false} ObservationsUntouched(d: Record, text: seq<string>, lang: Language, n: nat, key: string)
    requires n <= 3 && ObservationsReadable(text, lang)
    requires Unwritten(text, lang, key)
    ensures key in Store(d, ObsWrites(text, lang, n)) <==> key in d
    ensures key in d ==> Store(d, ObsWrites(text, lang, n))[key] == d[key]
  {
    if n > 0 {
      var before := ObsWrites(text, lang, n - 1);
      var fs := SectionWrites(text, lang, n - 1);
      ObservationsUntouched(d, text, lang, n - 1, key);
      ObsWritesStep(text, lang, n - 1);
      StoreAppend(d, before, fs);
      ForeignKeyKept(Store(d, before), text, lang, n - 1, key);
      assert Store(d, ObsWrites(text, lang, n)) == Store(Store(d, before), fs);
    }
  }

  /** The kinds a section yields are stripped. */
  lemma SectionKindsTrimmed(text: seq<string>, lang: Language, k: nat)
    requires k < 3 && ObservationsReadable(text, lang)
    ensures forall kind :: kind in SectionKinds(text, lang, k) ==> Trim(kind) == kind
  {
    match ObsAnchors(text, lang)[k]
    case None =>
    case Some(a) =>
      var lines := SectionLines(text, a);
      ScanKindsClean(lines, lang.GenericHeader(), 0, 0);
      forall kind | kind in SectionKinds(text, lang, k) ensures Trim(kind) == kind {
        assert kind == [] + kind + [];
        TrimPadded([], kind, []);
      }
  }

  /**
   * The key of a kind that section `k` does not yield keeps its presence and
   * value: no kind of an absent section, and no kind missing from a present one.
   */
  lemma ObservationsSkipped(d: Record, text: seq<string>, lang: Language, k: nat, kind: string)
    requires k < 3 && ObservationsReadable(text, lang) && Trim(kind) !in SectionKinds(text, lang, k)
    ensures var key, r := ObsKey(lang, ObsSections[k], kind), Store(d, ObsWrites(text, lang, 3));
      (key in r <==> key in d) && (key in d ==> r[key] == d[key])
  {
    var key := ObsKey(lang, ObsSections[k], kind);
    SectionKindsTrimmed(text, lang, k);
    forall m, other | 0 <= m < 3 && other in SectionKinds(text, lang, m)
      ensures ObsKey(lang, ObsSections[m], other) != key
    {
      if m != k {
        ObsKeyDistinct(lang, m, k, other, kind);
      } else {
        assert Trim(other) != Trim(kind);
        ObsKeyInjective(lang, ObsSections[k], other, kind);
      }
    }
    ObservationsUntouched(d, text, lang, 3, key);
  }
}
