# WJ IV report scraper — a verified model

This project models `ReportScraper`, the object at the heart of the WJIV scraper.
It reads the text of one Woodcock-Johnson IV (or Batería IV Woodcock-Muñoz) score
report, line by line, and fills a record that maps field names to values:

- **Layout detection** (the constructor). The report is Spanish as soon as one line
  contains "Batería", and English otherwise. The language picks a profile: the tests,
  the metric columns, the proficiency levels that contain spaces, the three
  observation-section headers and the generic prefix they share. One pass over the
  lines records, for "TABLE OF SCORES" and for each section header, one past the
  line where it LAST occurs. The first observation line is the least of the three
  section anchors, an absent section counting as the last line. The score table ends
  there in an English report and at the last line in a Spanish one.
- **Header block** (`GetHeaders`). Five two-column rows, `Name:`/`School:` and so on,
  each on a fixed line. The left column is the text between `A:` and the next `B:`,
  and the right column is the rest of the line after `B:`. Both are stripped, and a
  missing match is stored as `None`. The age becomes a number of months and the
  testing date is cut after its first word. The record also gets `Language`.
- **Identifier** (`SetId`). "ID" becomes the leading run of word characters of
  another field.
- **Score table** (`GetTestScores`). For each test of the profile, the first line of
  the table that starts with the test's name is read:
  - " (" becomes "(";
  - every whole-word proficiency level has its spaces turned into underscores;
  - the test name is deleted;
  - the rest is split on whitespace and zipped with the metrics.
  Each token is restored before it is stored: underscores back to spaces, a space
  before "(", then stripped. The key is `"<language> - <Test Title> - <metric>"`.
- **Observations** (`GetObservations`). Each present section is read from the line
  after its header until a line starting with the generic header prefix:
  - a page footer ("1 of", "2 of", "3 of") is skipped with the four lines after it;
  - a line without a colon is passed over;
  - a line with a colon is an observation `kind: value`;
  - the long "The results of …" notice is merged with the next line into a
    "Poor Sample" observation.
  The value also takes in the next line, or the line six ahead across a page break,
  when that line is neither an observation nor a section header.

The model is imperative where the source is. `Scraper.ReportScraper` is a class:
- the layout is held in `const` fields, set by its constructor;
- the record is a `var data: map<string, Option<string>>` that the three stages update
  in place, under `modifies this`.

Each stage is proved to leave `data` equal to the old record updated, in order, by
the assignments a pure specification function lists. Examples are `HeaderFields`,
`ScoreWrites` and `ObsWrites`. The lemmas beside those functions state what each
stage promises as a whole: which key holds which value, that every other key is
left alone (`Headers.HeadersRecorded`, `Scores.ScoresRecorded` and
`Scores.ScoresUntouched`, `Observations.ObservationsRecorded` and
`Observations.ObservationsUntouched`), and that a later observation of the same
kind overrides an earlier one. Keys of different tests, and of different
observation sections, never collide: their title-cased names differ and hold no
separator (`Scores.ScoreKeyDistinct`, `Observations.ObsKeyDistinct`). Nor do the
keys of different stages: header labels hold no hyphen, score keys hold no colon,
and observation keys hold both. So once the four stages have run in the order the
applications call them, every value a stage recorded is still in the record, except
the "ID" column of the header block, which the identifier stage overwrites
(`Pipeline.HeadersSurvive`, `Pipeline.ScoresSurvive`, `Pipeline.ObservationsSurvive`).
A key a stage could write but does not, such as the metrics of a test the table
lacks, or a kind no section yields, also keeps its old value (`Scores.ScoresSkipped`,
`Observations.ObservationsSkipped`).

Where the source raises an exception, the model turns it into a precondition or an
explicit error value:
- `IndexError`, `AttributeError` and `ValueError` in the header rows are covered by
  `HeadersReadable`;
- a missing "TABLE OF SCORES" line is covered by `scoresLine.Some?`;
- the observation scan can run off the end of the report. `Observations.Scan`
  returns `None` for that, and `GetObservations` requires `ObservationsReadable`.

## Behaviour worth knowing

The model follows the code in each case.

- **Age.** Only the first character of the years part and of the months part is
  read. So "0, 11" gives "1 Months", not 11 months (`Headers.AgeZeroEleven`).
- **Score line.** " (" is glued to "(" before the line is split. So in
  "Story Recall 92 (88-96) Average", "92(88-96)" is one token: W is "92 (88-96)" and
  AE is "Average" (`Scores.ScoreLineBand` with test "Story Recall", score "92",
  band "88-96)" and AE "Average"). It is not W "92" and AE "(88-96)".
- **"VISUAL PROCESSING (Gv)".** Gluing removes the space before "(", so the test
  name no longer occurs in the glued line and is not deleted. Its words
  "VISUAL" and "PROCESSING(Gv)" become the first two tokens, so W gets "VISUAL"
  and every score shifts two metrics along (`Scores.ScoreLineNameKept` with
  "VISUAL", "PROCESSING" and "Gv)"). The model keeps this behaviour as written.
- **Spanish score table.** The table ends at the report's last line, exclusive. So
  the last line is never searched for scores.
- **Keys can collide.** `SetId` overwrites the "ID" read from the header block. An
  observation kind that occurs twice in a section keeps its last value
  (`Observations.LastObservationWins`).

## Model

| member | source | states |
|---|---|---|
| Scraper.ReportScraper.constructor | analyze_pdf.py:89-143 | the language is Spanish iff some line contains "Batería"; the profile fields are that language's constants; each anchor is one past the last copy of its header; the first observation line is the least anchor (absent ones count as the last line); the score table ends there (English) or at the last line (Spanish); `data` is empty |
| Scraper.FindLanguage | analyze_pdf.py:89-94 | the loop with early exit returns Spanish exactly when some line contains the Spanish marker |
| Scraper.FindAnchors | analyze_pdf.py:121-130 | one pass of the if/elif chain over the lines yields, for the score header and each section header, one past its last occurrence, or none |
| Layout.LastAnchor | analyze_pdf.py:122-130 | an anchor is one past a line equal to the header, no later line equals the header, and there is no anchor iff the header is absent |
| Layout.LastAnchorStep | analyze_pdf.py:122-130 | scanning one more line moves the anchor there iff that line is the header, and otherwise keeps it |
| Layout.DetectLanguage | analyze_pdf.py:89-94 | Spanish iff some line contains "Batería"; `Scraper.FindLanguage` computes it with the source's loop and early exit |
| Layout.EndOfScoresLine | analyze_pdf.py:138-143 | the first observation line for English, the last line for Spanish; never past the last line (`Layout.EndOfScoresBeforeLast`) |
| Layout.ScoreTable | analyze_pdf.py:201 | the slice from one past "TABLE OF SCORES" to the end of the score table, empty when the end comes first; `Scraper.ReportScraper.GetTestScores` searches exactly these lines |
| Layout.MinAnchor | analyze_pdf.py:132-136 | the first observation line is at most every anchor (absent ones counting as the last line) and equals one of them |
| Layout.HeadersDistinct | analyze_pdf.py:60-70 | the three section headers of a language differ from each other and from "TABLE OF SCORES", so the elif chain can record each |
| Layout.HeadersStartGeneric | analyze_pdf.py:60-75 | every section header starts with its language's generic prefix, so a section's scan stops at the next section's header |
| Layout.EndOfScoresBeforeLast | analyze_pdf.py:132-143 | the end of the score table is never past the report's last line |
| Scraper.ReportScraper.GetHeaders | analyze_pdf.py:153-191 | the record becomes the old one updated by each row's left and right column values in row order, then by `Language` |
| Headers.LeftValue | analyze_pdf.py:168-180 | the stored left value: the left column, turned into months for Age (`Headers.AgeRowValue`), cut to its first word for Date of Testing (`Headers.TestingDateRowValue`), unchanged otherwise (`Headers.PlainRowValues`) |
| Headers.LeftColumn | analyze_pdf.py:168-169 | the lazy match between `A:` and the next `B:`, stripped; characterised by `Headers.LeftColumnIs` and `Headers.LeftColumnAbsent` |
| Headers.RightColumn | analyze_pdf.py:183-184 | the rest of the line after the first `B:`, stripped; characterised by `Headers.RightColumnIs` and `Headers.RightColumnAbsent` |
| Headers.AgeText | analyze_pdf.py:172-176 | 12 times the first digit of the years plus the first digit of the months, then " Months"; characterised by `Headers.AgeFirstDigits`, `Headers.AgeSevenThree` and `Headers.AgeZeroEleven` |
| Headers.HeaderFields | analyze_pdf.py:163-191 | the header stage's assignments: each row's left then right value, then "Language"; what they leave in the record is `Headers.HeadersRecorded` |
| Headers.LeftColumnIs | analyze_pdf.py:168-169 | with the first `A:` at p and the first `B:` after it at q, the left column is the stripped text between them |
| Headers.LeftColumnAbsent | analyze_pdf.py:168-169 | the left column is missing iff no `B:` starts after the end of any `A:` |
| Headers.RightColumnIs | analyze_pdf.py:183-184 | with the first `B:` at q, the right column is the stripped rest of the line after it |
| Headers.RightColumnAbsent | analyze_pdf.py:183-184 | the right column is missing iff the line holds no `B:` |
| Headers.AgeFirstDigits | analyze_pdf.py:172-176 | for "Y…, M…" with digits Y and M and no ", " in the years part, the age is 12·Y + M followed by " Months" |
| Headers.AgeSevenThree | analyze_pdf.py:172-176 | "7, 3" is readable and becomes "87 Months" |
| Headers.AgeZeroEleven | analyze_pdf.py:172-176 | "0, 11" becomes "1 Months": only the first digit of the months part counts |
| Headers.AgeRowValue | analyze_pdf.py:172-176 | the Age row (line 3) stores the months text of its left column |
| Headers.TestingDateRowValue | analyze_pdf.py:179-180 | the Date of Testing row (line 5) stores the first whitespace-separated word of its left column |
| Headers.PlainRowValues | analyze_pdf.py:164-169 | the Name, Date of Birth and Sex rows store their left column unchanged |
| Headers.HeaderLabelsDistinct | analyze_pdf.py:155-161 | the ten column labels and "Language" are eleven different keys |
| Headers.AssignRecorded | analyze_pdf.py:186-188 | with distinct labels, after the row assignments each row's labels hold that row's values |
| Headers.AssignUntouched | analyze_pdf.py:186-188 | a key that labels no column keeps its old presence and value |
| Headers.HeadersRecorded | analyze_pdf.py:153-191 | after the header stage, every row's two labels hold its left and right values, "Language" holds the language name, and every other key is unchanged |
| Scraper.ReportScraper.SetId | analyze_pdf.py:194-196 | "ID" becomes the leading word of the value under the given key, and nothing else changes |
| Text.LeadingWord | analyze_pdf.py:196 | the result is a prefix of the input made of word characters, and the input's next character is not a word character |
| Text.LeadingWordUnique | analyze_pdf.py:196 | any maximal word-character prefix is the leading word, so the "ID" value is fully determined |
| Scraper.ReportScraper.GetTestScores | analyze_pdf.py:199-230 | the record becomes the old one updated, test by test in profile order, by the metric values read from each test's first matching line of the score table |
| Scraper.FindTestLine | analyze_pdf.py:200-202 | the inner loop with `break` finds the first line of the table that starts with the test name, or none |
| Scores.TestLine | analyze_pdf.py:200-202 | the line found starts with the test name and no earlier line does; there is none iff no line does |
| Scores.ScoreWritesStep | analyze_pdf.py:200-230 | one more test appends exactly that test's assignments |
| Scores.TestFields | analyze_pdf.py:201-230 | the assignments of one test: those of its first line, none when no line starts with its name; which keys they touch is `Scores.TestFieldsKey` |
| Scores.ScoreWrites | analyze_pdf.py:199-230 | the score stage's assignments, test by test in profile order (`Scores.ScoreWritesStep`); what they leave in the record is `Scores.ScoresRecorded`, `Scores.ScoresUntouched` and `Scores.ScoresSkipped` |
| Scores.TestFieldsKey | analyze_pdf.py:218-228 | the k-th assignment of a test is the k-th metric's key, and only metrics the test's line has a token for are assigned |
| Scores.MetricWritten | analyze_pdf.py:201-228 | a test assigns the key of metric m iff it has a line and that line has an m-th token (`Scores.TestFieldsKey`, `Scores.ScoresSkipped`) |
| Scraper.ReportScraper.StoreScores | analyze_pdf.py:203-228 | a score line stores the zip of the metrics with the tokens of the glued, protected line with the test name deleted |
| Scraper.ReportScraper.StoreMetrics | analyze_pdf.py:218-228 | the k-th metric gets the k-th token restored, for as many pairs as the shorter list has |
| Scores.Glue | analyze_pdf.py:205 | `replace(" (", "(")`: a line without " (" is unchanged (`Scores.GlueAbsent`); a band is glued to the score before it (`Scores.GlueBand`) |
| Scores.ProtectFrom | analyze_pdf.py:207-212 | the left-to-right substitution of whole-word levels by their underscored forms; characterised by `Scores.ProtectShape`, `Scores.ProtectLevel` and `Scores.ProtectNoLevels` |
| Scores.Protect | analyze_pdf.py:207-212 | the substitution over the whole line; a line holding no level is unchanged (`Scores.ProtectAbsent`) |
| Scores.DeleteName | analyze_pdf.py:215 | `replace(test, "")`: a name that does not occur changes nothing (`Scores.DeleteAbsent`); a leading name that occurs nowhere else is cut off (`Scores.DeleteLeading`) |
| Scores.ScoreTokens | analyze_pdf.py:203-215 | glue, protect, delete the name, split on whitespace; what it yields for whole lines is `Scores.ScoreLineTokens`, `Scores.ScoreLineBand` and `Scores.ScoreLineNameKept` |
| Scores.Restore | analyze_pdf.py:222-228 | underscores to spaces, a space before "(", stripped; characterised by `Scores.RestorePlain`, `Scores.RestoreGlued` and `Scores.RestoreLevel` |
| Scores.ZipScores | analyze_pdf.py:218-228 | the k-th metric's key gets the k-th token restored, for as many pairs as the shorter list has; what the record then holds is `Scores.ScoreFieldsRecorded` |
| Scores.ScoreKey | analyze_pdf.py:228 | "language - Title - metric"; injective in the metric (`Scores.ScoreKeyInjective`) and in the test's title (`Scores.ScoreKeyDistinct`) |
| Scores.GlueAbsent | analyze_pdf.py:205 | a line without " (" is left unchanged by gluing |
| Scores.GlueBand | analyze_pdf.py:205 | with no " (" on either side, "x (y" is glued to "x(y" |
| Scores.ProtectAbsent | analyze_pdf.py:207-212 | a line in which no proficiency level occurs is left unchanged |
| Scores.DeleteAbsent | analyze_pdf.py:215 | deleting a name that does not occur leaves the line unchanged |
| Scores.DeleteLeading | analyze_pdf.py:215 | a line that starts with the name, and holds it nowhere else, loses exactly that prefix |
| Scores.ScoreLineTokens | analyze_pdf.py:203-215 | a line "test t1 … tn" with no band, no level and no second copy of the name yields exactly the tokens t1 … tn |
| Scores.ScoreLineBand | analyze_pdf.py:203-228 | a line "test w (band ae" yields the two tokens "w(band" and "ae", restored to "w (band" and "ae" |
| Scores.ScoreLineNameKept | analyze_pdf.py:203-215 | for a test named "a b (c", the glued line no longer holds the name, so the tokens are "a", "b(c" and then the scores |
| Scores.LevelAtSome | analyze_pdf.py:208-210 | the alternation matches only a listed level, and only as a whole word |
| Scores.LevelAtNone | analyze_pdf.py:208-210 | the alternation fails at a position iff no listed level occurs there as a whole word |
| Scores.ProtectShape | analyze_pdf.py:207-212 | protecting the levels keeps the line's length and only ever turns spaces into underscores |
| Scores.ProtectLevel | analyze_pdf.py:207-212 | where exactly one level matches as a whole word, the substitution emits it underscored and resumes after it |
| Scores.ProtectNoLevels | analyze_pdf.py:207-212 | with no levels (the Spanish profile) the line is unchanged |
| Scores.RestorePlain | analyze_pdf.py:220-228 | a token with no underscore and no "(" is restored to itself |
| Scores.RestoreGlued | analyze_pdf.py:205-225 | a score glued to its band, "a(b)", is restored to "a (b)" |
| Scores.RestoreLevel | analyze_pdf.py:211-222 | a trimmed level with no underscore or "(" survives underscoring and restoring |
| Scores.ProficiencyLevelsRestored | analyze_pdf.py:40-49 | every proficiency level of either profile comes back unchanged from underscoring and restoring |
| Scores.ScoreKeyInjective | analyze_pdf.py:228 | two metrics that differ after stripping give different score keys |
| Scores.MetricsTrimmed | analyze_pdf.py:28-35 | every metric name is already stripped |
| Scores.MetricsDistinct | analyze_pdf.py:28-35 | a profile's metric names are pairwise different after stripping, so no score overwrites another of the same test |
| Scores.ScoreFieldsRecorded | analyze_pdf.py:218-228 | after a test's assignments, the k-th metric's key holds the k-th token restored |
| Scores.TestTitlesLackHyphen | analyze_pdf.py:10-26 | no title-cased test name holds a hyphen, the separator of score keys |
| Scores.TestTitlesDistinct | analyze_pdf.py:10-26 | the title-cased test names of a profile are pairwise different |
| Scores.ScoreKeyDistinct | analyze_pdf.py:228 | score keys of tests with different titles differ, whatever the metrics |
| Scores.ScoresRecorded | analyze_pdf.py:199-230 | after the score stage, the key of test t and metric k holds the k-th token of t's line restored, for every k below the shorter of the metrics and the tokens |
| Scores.ScoresUntouched | analyze_pdf.py:199-230 | the score stage leaves every key that is not some test's metric key with its old presence and value |
| Scores.ScoresSkipped | analyze_pdf.py:199-230 | the key of a test with no line in the table, or of a metric past its line's tokens, keeps its old presence and value |
| Scraper.ReportScraper.GetObservations | analyze_pdf.py:232-313 | the record becomes the old one updated, section by section, by the observations scanned from each present section |
| Observations.SectionWritesPresent | analyze_pdf.py:235-242 | a present section is scanned from the line after its header to the end of the report |
| Observations.ObsWritesStep | analyze_pdf.py:233-242 | each section appends its observations, and an absent section appends none |
| Scraper.ReportScraper.StoreObservations | analyze_pdf.py:240-313 | one section's loop stores exactly the observations of its scan, in order |
| Scraper.ScanLine | analyze_pdf.py:245-310 | one line either ends the section or yields at most one observation and the number of lines to skip, consistent with the scan |
| Observations.Scan | analyze_pdf.py:240-313 | the observations of a section, or None where the source raises IndexError; characterised line by line by `Observations.ScanStopsAtHeader`, `Observations.ScanSkipsFooter`, `Observations.ScanSkipsOne`, `Observations.SkipAdvance`, `Observations.ScanDropsContinuation`, `Observations.ScanReadsObservation` and `Observations.ScanPoorSample` |
| Observations.LineStep | analyze_pdf.py:245-289 | what one line not being skipped does: stop, skip, pass or read; its kinds are clean (`Observations.LineStepKindClean`) |
| Observations.LookAheadAt | analyze_pdf.py:289-310 | which later line, if any, continues an observation, or past the end; characterised by `Observations.EntrySpillsNext`, `Observations.EntrySpillsAcrossPage` and `Observations.EntryAtLastPage` |
| Observations.Entry | analyze_pdf.py:283-313 | the observation read: stripped text before the first colon, and stripped text after it with the continuation appended; characterised by the same three lemmas |
| Observations.ScanStopsAtHeader | analyze_pdf.py:265-268 | a line starting with the generic header ends the section with nothing more read |
| Observations.ScanSkipsFooter | analyze_pdf.py:270-273 | a page footer and the four lines after it are skipped |
| Observations.SkipAdvance | analyze_pdf.py:245-248 | a skip count of k resumes the scan k lines later, or at the end |
| Observations.ScanSkipsOne | analyze_pdf.py:245-248 | a pending skip consumes one line and is decremented |
| Observations.ScanDropsContinuation | analyze_pdf.py:275-279 | a line without a colon yields no observation |
| Observations.ScanReadsObservation | analyze_pdf.py:281-313 | a line with a colon yields one observation, then the scan continues on the next line; its kind is the stripped text before the first colon |
| Observations.ScanPoorSample | analyze_pdf.py:250-263 | a poor-sample notice is merged with the next line into a "Poor Sample" observation, and that next line is skipped |
| Observations.PoorSampleReason | analyze_pdf.py:256-262 | the merged notice's value is what follows the first colon of the next line |
| Observations.EntrySpillsNext | analyze_pdf.py:307-310 | a next line that is not a footer, has no colon and holds no header text is appended to the value |
| Observations.EntrySpillsAcrossPage | analyze_pdf.py:291-305 | across a page footer that is not the last page's, the line six ahead is appended when it continues the observation |
| Observations.EntryAtLastPage | analyze_pdf.py:292-297 | before the last page's footer nothing is appended |
| Observations.LineStepKindClean | analyze_pdf.py:283-284 | the kind of an observation line holds no colon and is stripped |
| Observations.ScanKindsClean | analyze_pdf.py:283-313 | every observation a scan yields has a stripped kind without colons |
| Observations.ObsKeyInjective | analyze_pdf.py:313 | two kinds that differ after stripping give different observation keys |
| Observations.ObsFieldsRecord | analyze_pdf.py:313 | storing one more observation sets its key to its value and changes nothing else |
| Observations.LastObservationWins | analyze_pdf.py:313 | an observation whose kind does not recur later in its section is the value left under its key |
| Observations.SectionTitlesLackColon | analyze_pdf.py:53-57 | no section title holds a colon, the separator of observation keys |
| Observations.SectionTitlesDistinct | analyze_pdf.py:53-57 | the three section titles are pairwise different |
| Observations.ObsKeyDistinct | analyze_pdf.py:313 | observation keys of different sections differ, whatever the kinds |
| Observations.ObsKey | analyze_pdf.py:313 | "language - Section Title: kind"; injective in the stripped kind (`Observations.ObsKeyInjective`) and in the section (`Observations.ObsKeyDistinct`) |
| Observations.SectionTitle | analyze_pdf.py:313 | the section name with underscores as spaces, title-cased; pairwise different and colon-free (`Observations.SectionTitlesDistinct`, `Observations.SectionTitlesLackColon`) |
| Observations.SectionWrites | analyze_pdf.py:233-242 | a present section's assignments are those of its scan from one past its header (`Observations.SectionWritesPresent`); an absent one has none (`Observations.ObsWritesStep`) |
| Observations.SectionKinds | analyze_pdf.py:236-313 | the kinds a present section's scan yields, none for an absent section; stripped (`Observations.SectionKindsTrimmed`) |
| Observations.ObsWrites | analyze_pdf.py:233-313 | the observation stage's assignments, section by section (`Observations.ObsWritesStep`); what they leave in the record is `Observations.ObservationsRecorded`, `Observations.ObservationsUntouched` and `Observations.ObservationsSkipped` |
| Observations.IsFooter | analyze_pdf.py:271-273 | a line starting with "1 of", "2 of" or "3 of" is skipped with the four lines after it (`Observations.ScanSkipsFooter`) |
| Observations.MentionsPage | analyze_pdf.py:292-294 | a next line containing "1 of ", "2 of " or "3 of " is a page break, after which line i+6 is looked at (`Observations.EntrySpillsAcrossPage`) |
| Observations.IsLastPageFooter | analyze_pdf.py:297 | the footer "N of N" ends the report, and nothing is appended before it (`Observations.EntryAtLastPage`) |
| Observations.SectionKindsTrimmed | analyze_pdf.py:283-285 | every kind a section yields is already stripped |
| Observations.ObservationsRecorded | analyze_pdf.py:232-313 | after the observation stage, the key of a kind in a present section holds the value of the last observation of that kind in the section |
| Observations.ObservationsUntouched | analyze_pdf.py:232-313 | the observation stage leaves every key that is not an observation key with its old presence and value |
| Observations.ObservationsSkipped | analyze_pdf.py:232-313 | the key of a kind that a section does not yield, present or not, keeps its old presence and value |
| Pipeline.HeaderLabelsLackHyphen | analyze_pdf.py:155-191 | no header label, nor "Language", holds a hyphen |
| Pipeline.StageKeysHaveHyphen | analyze_pdf.py:228 | every score key and every observation key holds a hyphen after the language name (the same key format is at line 313) |
| Pipeline.HyphenFreeNotStageKey | analyze_pdf.py:228 | a key without a hyphen is neither a score key nor an observation key |
| Pipeline.ScoreKeyLacksColon | analyze_pdf.py:228 | a profile's score keys hold no colon |
| Pipeline.ObsKeyHasColon | analyze_pdf.py:313 | every observation key holds a colon after its section title |
| Pipeline.ScoreKeyNotObsKey | analyze_pdf.py:228 | no score key of a profile is an observation key |
| Pipeline.ProfileLacksColon | analyze_pdf.py:10-35 | the tests and metrics of both profiles hold no colon |
| Pipeline.LeftLabelsNotId | analyze_pdf.py:155-161 | "ID" labels a right column only, so no left value is overwritten by the identifier stage |
| Pipeline.NameRecorded | analyze_pdf.py:168-169 | after the header stage, "Name" holds the Name row's left column, which the identifier stage reads |
| Pipeline.AfterId | analyze_pdf.py:194-196 | the record after `get_headers` and `set_id("Name")`: "ID" becomes the leading word of the Name column; its values are stated by `Pipeline.IdSurvives` |
| Pipeline.Scraped | app.py:71-75 | the record after the four stages in the applications' order; what it holds is `Pipeline.HeadersSurvive`, `Pipeline.ScoresSurvive` and `Pipeline.ObservationsSurvive` |
| Pipeline.HyphenFreeKept | app.py:71-75 | a key without a hyphen goes through the score and observation stages unchanged |
| Pipeline.RowSurvives | app.py:71-75 | after all four stages each header row's columns hold their header values, but for "ID" |
| Pipeline.IdSurvives | app.py:71-75 | after all four stages "ID" holds the leading word of the Name column |
| Pipeline.LanguageSurvives | app.py:71-75 | after all four stages "Language" holds the language name |
| Pipeline.HeadersSurvive | app.py:71-75 | after headers, identifier, scores and observations in this order, every header value but "ID" is still recorded, "ID" holds the leading word of "Name", and "Language" the language |
| Pipeline.ScoresSurvive | app.py:71-75 | after all four stages every score the score stage recorded is still recorded |
| Pipeline.ObservationsSurvive | app.py:71-75 | after all four stages every observation the last stage recorded is recorded |
| Text.ColonSplit | analyze_pdf.py:283-285 | the text before the first colon, ":" and the text after it give the line back, and the first part holds no colon |
| Text.ColonSplitJoin | analyze_pdf.py:256-262 | splitting "a:b" at its first colon, with no colon in a, gives a and b |
| Text.SplitOnJoin | analyze_pdf.py:173 | joining the pieces of `split(", ")` with ", " gives the string back |
| Text.TokensJoinSpaced | analyze_pdf.py:215 | whitespace tokens joined by single spaces split back into the same tokens |
| Text.NatToStringValue | analyze_pdf.py:174-176 | the decimal text written for the months reads back as the same number |

## Left out

- Reading the PDF with pdfplumber is left out, since it is I/O. The model starts from the report's lines: each page's text, split on newlines, page after page.
- Setting the pdfminer log level is left out, since it is logging configuration.
- `print_file` and `__str__` are left out, since they are output formatting.
- The web upload service (`app.py`) and the batch CSV export (`generate_csv.py`) are left out, since they only drive the scraper and write its records out. Only the order in which they call the stages is modelled (`Pipeline.Scraped`).
- Text.IsWordChar: `\w` is modelled for ASCII and Latin-1 letters and digits only. Python's `\w` covers all of Unicode.
- Text.Title: `str.title()` casing is modelled for ASCII and Latin-1 letters other than ß, ÿ and µ, whose Python upper case changes the length (ß to "Ss") or leaves Latin-1 (ÿ to U+0178, µ to Greek capital mu). Its contract states only that the length is kept. No test name or section name of the profiles holds these characters.
- Headers.AgeText: only ASCII digits are accepted. Python's `int()` also reads other Unicode decimal digits, and an age written with them is outside the model.
- Headers.HeadersReadable: the crash paths of the header block are preconditions, not results. These are a missing header line, a missing Age or Date of Testing match, and a malformed age.
- Scraper.ReportScraper.GetTestScores: a report without "TABLE OF SCORES" raises `AttributeError` in the source. The method requires the anchor instead.
- Scraper.ReportScraper.GetObservations: an observation scan that reads past the report raises `IndexError` in the source. The method requires `ObservationsReadable` instead, and `Observations.Scan` returns `None` for that case.
- Scraper.ReportScraper.SetId: the default argument `"Name"` is not modelled. The caller passes the key.
- Header regexes: `.` not matching a newline does not matter, since every line comes from splitting on newlines.
- Regex escaping: `re.escape` is applied to the proficiency levels before they are joined into the alternation. The levels hold no regular-expression metacharacters, so the model matches them literally (`Scores.LevelMatches`). The header labels are put into their patterns unescaped; they hold no metacharacters either.
- Scraper.ReportScraper.SetId: the source raises `KeyError` when the key is missing and `TypeError` when its value is `None` (a header line without its label). The method requires the key to hold a value instead.
