/**
 * The table of scores: how one line of the table is cut into the values of the
 * metric columns, and which line each recognised test is read from.
 *
 * A line is pre-processed in three steps before it is split on whitespace: a
 * space before an opening parenthesis is removed (so that `92 (88-96)` stays one
 * token), the spaces inside a multi-word proficiency level are turned into
 * underscores (so that `Limited to Average` stays one token), and the test name
 * is deleted. Each token is then post-processed back: underscores become
 * spaces again and a space is put back before each opening parenthesis.
 */
module Scores {
  import opened Options
  import opened Text
  import opened Profiles
  import opened Records

  /** `line.replace(" (", "(")`. */
  function Glue(line: string): string {
    ReplaceAll(line, " (", "(")
  }

  /** Regular-expression `\b` at position `p`: a word character on exactly one side. */
  predicate Boundary(s: string, p: nat)
    requires p <= |s|
  {
    (p > 0 && IsWordChar(s[p - 1])) != (p < |s| && IsWordChar(s[p]))
  }

  /** Level `l` matches `\b(l)\b` at position `p` of `s`. */
  predicate LevelMatches(s: string, p: nat, l: string) {
    l != [] && OccursAt(s, l, p) && Boundary(s, p) && Boundary(s, p + |l|)
  }

  /**
   * The alternative of `\b(l1|l2|...)\b` that matches at `p`: the first level,
   * in list order, that occurs there as a whole word.
   */
  function LevelAt(s: string, p: nat, levels: seq<string>): Option<string> {
    if levels == [] then None
    else if LevelMatches(s, p, levels[0]) then Some(levels[0])
    else LevelAt(s, p, levels[1..])
  }

  /** What the alternation finds is one of the levels, matching as a whole word. */
  lemma {:induction false} LevelAtSome(s: string, p: nat, levels: seq<string>)
    ensures LevelAt(s, p, levels).Some? ==>
      LevelAt(s, p, levels).value in levels && LevelMatches(s, p, LevelAt(s, p, levels).value)
    decreases |levels|
  {
    if levels != [] && !LevelMatches(s, p, levels[0]) {
      LevelAtSome(s, p, levels[1..]);
    }
  }

  /** The alternation finds nothing exactly when no level matches as a whole word. */
  lemma {:induction false} LevelAtNone(s: string, p: nat, levels: seq<string>)
    ensures LevelAt(s, p, levels).None? <==> forall l :: l in levels ==> !LevelMatches(s, p, l)
    decreases |levels|
  {
    if levels != [] && !LevelMatches(s, p, levels[0]) {
      LevelAtNone(s, p, levels[1..]);
      assert forall l :: l in levels ==> l == levels[0] || l in levels[1..];
    }
  }

  /** A proficiency level with its spaces turned into underscores. */
  function Underscored(l: string): string {
    ReplaceAll(l, [' '], ['_'])
  }

  /**
   * `pattern.sub(...)` from position `p` on: scanning left to right, each whole-word
   * occurrence of a level is replaced by its underscored form and scanning resumes
   * after it; elsewhere the character is kept.
   */
  function ProtectFrom(s: string, p: nat, levels: seq<string>): string
    requires p <= |s|
    decreases |s| - p
  {
    if p == |s| then []
    else
      match LevelAt(s, p, levels)
      case Some(l) =>
        LevelAtSome(s, p, levels);
        Underscored(l) + ProtectFrom(s, p + |l|, levels)
      case None => [s[p]] + ProtectFrom(s, p + 1, levels)
  }

  function Protect(s: string, levels: seq<string>): string {
    ProtectFrom(s, 0, levels)
  }

  /**
   * `s.replace(test, "")`: every occurrence of the test name deleted. Python's
   * replace of an empty pattern by the empty string leaves `s` as it is.
   */
  function DeleteName(s: string, test: string): string {
    if test == [] then s else ReplaceAll(s, test, "")
  }

  /** The tokens of a score line: glued, levels protected, test name deleted, split on whitespace. */
  function ScoreTokens(line: string, test: string, levels: seq<string>): seq<string> {
    Tokens(DeleteName(Protect(Glue(line), levels), test))
  }

  /** A token turned back into a value: underscores to spaces, a space before `(`, stripped. */
  function Restore(token: string): string {
    Trim(ReplaceAll(ReplaceAll(token, "_", " "), "(", " ("))
  }

  /** The record key of a score: language, title-cased test name and metric. */
  function ScoreKey(lang: Language, test: string, metric: string): string {
    lang.Name() + " - " + Title(test) + " - " + Trim(metric)
  }

  function Min(a: nat, b: nat): nat {
    if a <= b then a else b
  }

  /**
   * `zip(metrics, tokens)` turned into assignments: the k-th metric gets the k-th
   * token restored, for as many pairs as the shorter list has.
   */
  function ZipScores(lang: Language, test: string, metrics: seq<string>, toks: seq<string>): seq<Field> {
    seq(Min(|metrics|, |toks|), k requires 0 <= k < Min(|metrics|, |toks|) =>
      Field(ScoreKey(lang, test, metrics[k]), Some(Restore(toks[k]))))
  }

  /** The assignments made for one test from its score line. */
  function ScoreFields(lang: Language, test: string, line: string): seq<Field>
  {
    ZipScores(lang, test, lang.Metrics(), ScoreTokens(line, test, lang.ProficiencyLevels()))
  }

  /** The first line that starts with the test name, if any. */
  function TestLine(lines: seq<string>, test: string): (r: Option<nat>)
    ensures r.Some? ==> r.value < |lines| && StartsWith(lines[r.value], test)
    ensures r.Some? ==> forall j :: 0 <= j < r.value ==> !StartsWith(lines[j], test)
    ensures r.None? <==> forall j :: 0 <= j < |lines| ==> !StartsWith(lines[j], test)
  {
    if lines == [] then None
    else if StartsWith(lines[0], test) then Some(0)
    else match TestLine(lines[1..], test)
      case None => None
      case Some(j) => Some(j + 1)
  }

  /** The assignments made for one test: those of its first line, none when it has no line. */
  function TestFields(lang: Language, lines: seq<string>, test: string): seq<Field>
  {
    match TestLine(lines, test)
    case None => []
    case Some(i) => ScoreFields(lang, test, lines[i])
  }

  /** Test `test` writes the key of metric `m`: it has a line, and that line has an m-th token. */
  predicate MetricWritten(lang: Language, lines: seq<string>, test: string, m: nat) {
    match TestLine(lines, test)
    case None => false
    case Some(i) => m < Min(|lang.Metrics()|, |ScoreTokens(lines[i], test, lang.ProficiencyLevels())|)
  }

  /** The assignments of the score stage for `tests`, test by test in order. */
  function ScoreWrites(lang: Language, lines: seq<string>, tests: seq<string>): seq<Field>
  {
    if tests == [] then []
    else ScoreWrites(lang, lines, tests[..|tests| - 1]) + TestFields(lang, lines, tests[|tests| - 1])
  }

  /** One more test adds the assignments of that test. */
  lemma ScoreWritesStep(lang: Language, lines: seq<string>, tests: seq<string>, t: nat)
    requires t < |tests|
    ensures ScoreWrites(lang, lines, tests[..t + 1]) == ScoreWrites(lang, lines, tests[..t]) + TestFields(lang, lines, tests[t])
  {
    assert tests[..t + 1][..t] == tests[..t];
  }

  // ---------------------------------------------------------------------------
  // Properties of the pre- and post-processing
  // ---------------------------------------------------------------------------

  /** A piece of `r` that copies `s` from `p` on, except that spaces may become underscores. */
  predicate SpacesMayBecomeUnderscores(s: string, p: nat, r: string) {
    p + |r| <= |s| && forall k :: 0 <= k < |r| ==> r[k] == s[p + k] || (s[p + k] == ' ' && r[k] == '_')
  }

  /** The piece emitted at one scan step: a whole level underscored, or one character. */
  function ProtectStep(s: string, p: nat, levels: seq<string>): string
    requires p < |s|
  {
    match LevelAt(s, p, levels)
    case Some(l) => Underscored(l)
    case None => [s[p]]
  }

  /** One scan step emits a non-empty piece and the scan resumes right after it. */
  lemma ProtectStepUnfold(s: string, p: nat, levels: seq<string>)
    requires p < |s|
    ensures 0 < |ProtectStep(s, p, levels)| && p + |ProtectStep(s, p, levels)| <= |s|
    ensures ProtectFrom(s, p, levels) == ProtectStep(s, p, levels) + ProtectFrom(s, p + |ProtectStep(s, p, levels)|, levels)
  {
    LevelAtSome(s, p, levels);
    match LevelAt(s, p, levels)
    case Some(l) =>
      ReplaceCharLength(l, ' ', '_');
      assert ProtectStep(s, p, levels) == Underscored(l);
    case None =>
      assert ProtectStep(s, p, levels) == [s[p]];
  }

  /** The piece copies `s` from `p` on, spaces possibly underscored. */
  lemma ProtectStepShape(s: string, p: nat, levels: seq<string>)
    requires p < |s|
    ensures SpacesMayBecomeUnderscores(s, p, ProtectStep(s, p, levels))
  {
    var h := ProtectStep(s, p, levels);
    LevelAtSome(s, p, levels);
    if LevelAt(s, p, levels).Some? {
      var l := LevelAt(s, p, levels).value;
      ReplaceCharEach(l, ' ', '_');
      assert s[p..p + |l|] == l;
      forall k | 0 <= k < |h| ensures h[k] == s[p + k] || (s[p + k] == ' ' && h[k] == '_') {
        assert s[p + k] == s[p..p + |l|][k];
      }
    }
  }

  /** Two adjacent pieces of that kind make one. */
  lemma SpacesMayBecomeUnderscoresAppend(s: string, p: nat, h: string, r: string)
    requires SpacesMayBecomeUnderscores(s, p, h) && SpacesMayBecomeUnderscores(s, p + |h|, r)
    ensures SpacesMayBecomeUnderscores(s, p, h + r)
  {
    forall k | |h| <= k < |h + r| ensures (h + r)[k] == s[p + k] || (s[p + k] == ' ' && (h + r)[k] == '_') {
      assert (h + r)[k] == r[k - |h|];
      assert p + k == (p + |h|) + (k - |h|);
    }
  }

  /**
   * Protecting levels keeps the length and changes nothing but spaces, each of
   * which may become an underscore.
   */
  lemma {:induction false} ProtectFromShape(s: string, p: nat, levels: seq<string>)
    requires p <= |s|
    ensures |ProtectFrom(s, p, levels)| == |s| - p
    ensures SpacesMayBecomeUnderscores(s, p, ProtectFrom(s, p, levels))
    decreases |s| - p
  {
    if p < |s| {
      ProtectStepUnfold(s, p, levels);
      ProtectStepShape(s, p, levels);
      var h := ProtectStep(s, p, levels);
      ProtectFromShape(s, p + |h|, levels);
      SpacesMayBecomeUnderscoresAppend(s, p, h, ProtectFrom(s, p + |h|, levels));
    }
  }

  lemma ProtectShape(s: string, levels: seq<string>)
    ensures |Protect(s, levels)| == |s| && SpacesMayBecomeUnderscores(s, 0, Protect(s, levels))
  {
    ProtectFromShape(s, 0, levels);
  }

  /** With no levels to protect (the Spanish profile) the substitution changes nothing. */
  lemma {:induction false} ProtectFromNoLevels(s: string, p: nat)
    requires p <= |s|
    ensures ProtectFrom(s, p, []) == s[p..]
    decreases |s| - p
  {
    if p < |s| {
      ProtectFromNoLevels(s, p + 1);
      assert s[p..] == [s[p]] + s[p + 1..];
    }
  }

  lemma ProtectNoLevels(s: string)
    ensures Protect(s, []) == s
  {
    ProtectFromNoLevels(s, 0);
  }

  /** A whole-word level at the scan position is underscored as one piece. */
  lemma ProtectLevel(s: string, p: nat, levels: seq<string>, l: string)
    requires p <= |s| && l in levels && LevelMatches(s, p, l)
    requires forall m :: m in levels && LevelMatches(s, p, m) ==> m == l
    ensures ProtectFrom(s, p, levels) == Underscored(l) + ProtectFrom(s, p + |l|, levels)
  {
    LevelAtSome(s, p, levels);
    LevelAtNone(s, p, levels);
  }

  /** A string with no character `c`. */
  predicate Lacks(s: string, c: char) {
    forall k :: 0 <= k < |s| ==> s[k] != c
  }

  /** A one-character pattern occurs nowhere in a string lacking that character. */
  lemma LacksNowhere(s: string, c: char)
    requires Lacks(s, c)
    ensures forall k: nat :: !OccursAt(s, [c], k)
  {
    forall k: nat ensures !OccursAt(s, [c], k) {
      if k + 1 <= |s| {
        assert s[k..k + 1] == [s[k]];
      }
    }
  }

  /** A plain token (no underscore, no parenthesis) is restored to itself. */
  lemma RestorePlain(t: string)
    requires IsToken(t) && Lacks(t, '_') && Lacks(t, '(')
    ensures Restore(t) == t
  {
    LacksNowhere(t, '_');
    LacksNowhere(t, '(');
    ReplaceAbsent(t, "_", " ");
    ReplaceAbsent(t, "(", " (");
    assert t == [] + t + [];
    TrimPadded([], t, []);
  }

  /** A glued token `a(b` is restored to `a (b`: the round trip of `Glue`. */
  lemma RestoreGlued(a: string, b: string)
    requires IsToken(a) && IsToken(b) && Lacks(a, '_') && Lacks(b, '_') && Lacks(a, '(') && Lacks(b, '(')
    ensures Restore(a + "(" + b) == a + " (" + b
  {
    var t := a + "(" + b;
    assert Lacks(t, '_') by {
      forall k | 0 <= k < |t| ensures t[k] != '_' {
        if k < |a| { assert t[k] == a[k]; } else if k > |a| { assert t[k] == b[k - |a| - 1]; }
      }
    }
    LacksNowhere(t, '_');
    LacksNowhere(a, '(');
    LacksNowhere(b, '(');
    ReplaceAbsent(t, "_", " ");
    ReplaceCharAppend(a + "(", b, '(', " (");
    ReplaceCharAppend(a, "(", '(', " (");
    ReplaceAbsent(a, "(", " (");
    ReplaceAbsent(b, "(", " (");
    assert ReplaceAll("(", "(", " (") == " (";
    var u := a + " (" + b;
    assert u == [] + u + [];
    assert u[0] == a[0] && u[|u| - 1] == b[|b| - 1];
    TrimPadded([], u, []);
  }

  /** An underscored level is restored to the level itself. */
  lemma RestoreLevel(l: string)
    requires IsTrimmed(l) && Lacks(l, '_') && Lacks(l, '(')
    ensures Restore(Underscored(l)) == l
  {
    ReplaceCharBack(l, ' ', '_');
    LacksNowhere(l, '(');
    ReplaceAbsent(l, "(", " (");
    assert l == [] + l + [];
    TrimPadded([], l, []);
  }

  /** The English proficiency levels hold no underscore. */
  lemma LevelsLackUnderscore()
    ensures forall l :: l in EnProficiencyLevels ==> Lacks(l, '_')
  {
  }

  /** The English proficiency levels hold no parenthesis. */
  lemma LevelsLackParenthesis()
    ensures forall l :: l in EnProficiencyLevels ==> Lacks(l, '(')
  {
  }

  /** The English proficiency levels are stripped. */
  lemma LevelsTrimmed()
    ensures forall l :: l in EnProficiencyLevels ==> IsTrimmed(l)
  {
  }

  /** Every proficiency level of both profiles survives the round trip. */
  lemma ProficiencyLevelsRestored(lang: Language)
    ensures forall l :: l in lang.ProficiencyLevels() ==> Restore(Underscored(l)) == l
  {
    LevelsLackUnderscore();
    LevelsLackParenthesis();
    LevelsTrimmed();
    forall l | l in lang.ProficiencyLevels() ensures Restore(Underscored(l)) == l {
      RestoreLevel(l);
    }
  }

  /** Distinct metric columns give distinct keys for the same test. */
  lemma ScoreKeyInjective(lang: Language, test: string, m1: string, m2: string)
    requires Trim(m1) != Trim(m2)
    ensures ScoreKey(lang, test, m1) != ScoreKey(lang, test, m2)
  {
    var pre := lang.Name() + " - " + Title(test) + " - ";
    assert ScoreKey(lang, test, m1) == pre + Trim(m1);
    assert ScoreKey(lang, test, m2) == pre + Trim(m2);
    assert (pre + Trim(m1))[|pre|..] == Trim(m1);
    assert (pre + Trim(m2))[|pre|..] == Trim(m2);
  }

  /** Each metric column label is already stripped. */
  lemma MetricsTrimmed(lang: Language)
    ensures forall i :: 0 <= i < |lang.Metrics()| ==> Trim(lang.Metrics()[i]) == lang.Metrics()[i]
  {
    var ms := lang.Metrics();
    forall i | 0 <= i < |ms| ensures Trim(ms[i]) == ms[i] {
      assert ms[i] == [] + ms[i] + [];
      TrimPadded([], ms[i], []);
    }
  }

  /** The metric columns of each profile are pairwise distinct once stripped. */
  lemma MetricsDistinct(lang: Language)
    ensures forall i, j :: 0 <= i < j < |lang.Metrics()| ==> Trim(lang.Metrics()[i]) != Trim(lang.Metrics()[j])
  {
    var ms := lang.Metrics();
    MetricsTrimmed(lang);
    forall i, j | 0 <= i < j < |ms| ensures ms[i] != ms[j] {
      assert |ms[i]| != |ms[j]| || ms[i][0] != ms[j][0];
    }
  }

  /** The tests of a profile hold no hyphen, so neither do their title-cased names. */
  lemma TestTitlesLackHyphen(lang: Language)
    ensures forall i :: 0 <= i < |lang.Tests()| ==> '-' !in Title(lang.Tests()[i])
  {
    var ts := lang.Tests();
    forall i | 0 <= i < |ts| ensures '-' !in Title(ts[i]) {
      assert '-' !in ts[i];
      TitleLacks(ts[i], '-');
    }
  }

  /** The tests of a profile have pairwise different title-cased names. */
  lemma TestTitlesDistinct(lang: Language)
    ensures forall i, j :: 0 <= i < j < |lang.Tests()| ==> Title(lang.Tests()[i]) != Title(lang.Tests()[j])
  {
    var ts := lang.Tests();
    forall i, j | 0 <= i < j < |ts| ensures Title(ts[i]) != Title(ts[j]) {
      if |ts[i]| == |ts[j]| {
        assert Title(ts[i])[0] == UpperChar(ts[i][0]);
        assert Title(ts[j])[0] == UpperChar(ts[j][0]);
        assert UpperChar(ts[i][0]) != UpperChar(ts[j][0]);
      }
    }
  }

  /**
   * Score keys of tests with different titles differ, whatever the metrics: the
   * title is the text between the first two hyphens.
   */
  lemma ScoreKeyDistinct(lang: Language, u: string, v: string, m1: string, m2: string)
    requires '-' !in Title(u) && '-' !in Title(v) && Title(u) != Title(v)
    ensures ScoreKey(lang, u, m1) != ScoreKey(lang, v, m2)
  {
    HyphenSeparated(lang.Name() + " - ", Title(u), Title(v), Trim(m1), Trim(m2));
  }

  /** `pre + x + " - " + m` determines `x` when `x` holds no hyphen. */
  lemma HyphenSeparated(pre: string, x: string, y: string, m1: string, m2: string)
    requires '-' !in x && '-' !in y && x != y
    ensures pre + x + " - " + m1 != pre + y + " - " + m2
  {
    var a1, a2 := x + " ", y + " ";
    assert a1[..|x|] == x && a2[..|y|] == y;
    assert '-' !in a1 && '-' !in a2;
    PiecesDistinct(pre, a1, " " + m1, a2, " " + m2, '-');
    assert pre + x + " - " + m1 == pre + a1 + ['-'] + (" " + m1);
    assert pre + y + " - " + m2 == pre + a2 + ['-'] + (" " + m2);
  }

  /** The k-th assignment for a test sets the key of the test and the k-th metric. */
  lemma TestFieldsKey(lang: Language, lines: seq<string>, test: string, k: nat)
    requires k < |TestFields(lang, lines, test)|
    ensures k < |lang.Metrics()| && TestFields(lang, lines, test)[k].key == ScoreKey(lang, test, lang.Metrics()[k])
    ensures MetricWritten(lang, lines, test, k)
  {
  }

  /**
   * After the fields of one test line are stored, the k-th metric's key holds
   * the k-th token restored, for every k within the shorter list.
   */
  lemma ScoreFieldsRecorded(d: Record, lang: Language, test: string, line: string, k: nat)
    requires k < |ScoreFields(lang, test, line)|
    ensures var toks := ScoreTokens(line, test, lang.ProficiencyLevels());
      var key := ScoreKey(lang, test, lang.Metrics()[k]);
      key in Store(d, ScoreFields(lang, test, line)) &&
      Store(d, ScoreFields(lang, test, line))[key] == Some(Restore(toks[k]))
  {
    var fs := ScoreFields(lang, test, line);
    MetricsDistinct(lang);
    forall j | k < j < |fs| ensures fs[j].key != fs[k].key {
      ScoreKeyInjective(lang, test, lang.Metrics()[k], lang.Metrics()[j]);
    }
    StoreLastWrite(d, fs, k);
  }

  // ---------------------------------------------------------------------------
  // How a whole score line is cut
  // ---------------------------------------------------------------------------

  /** A line with no space before a parenthesis is left as it is by gluing. */
  lemma GlueAbsent(s: string)
    requires !Contains(s, " (")
    ensures Glue(s) == s
  {
    ReplaceAbsent(s, " (", "(");
  }

  /** No " (" starts inside `x` in `x (y` when `x` holds none. */
  lemma NoGapInside(x: string, y: string)
    requires !Contains(x, " (")
    ensures forall k :: 0 <= k < |x| ==> !OccursAt(x + " (" + y, " (", k)
  {
    var s := x + " (" + y;
    forall k | 0 <= k < |x| ensures !OccursAt(s, " (", k) {
      if k + 2 <= |x| {
        assert s[k..k + 2] == x[k..k + 2];
        assert !OccursAt(x, " (", k);
      } else {
        assert s[k..k + 2][1] == s[|x|] == ' ';
      }
    }
  }

  /** Gluing a line that starts with " (" keeps its "(" and glues the rest. */
  lemma GlueAtStart(y: string)
    ensures ReplaceAll(" (" + y, " (", "(") == "(" + ReplaceAll(y, " (", "(")
  {
    var s := " (" + y;
    assert StartsWith(s, " (") by {
      assert s[..2] == " (";
    }
    assert s[2..] == y;
  }

  /** Gluing `x (y` leaves `x` alone when `x` holds no " (". */
  lemma GlueAfter(x: string, y: string)
    requires !Contains(x, " (")
    ensures Glue(x + " (" + y) == x + ReplaceAll(" (" + y, " (", "(")
  {
    var t := " (" + y;
    NoGapInside(x, y);
    assert x + " (" + y == x + t;
    ReplaceSkip(x, t, " (", "(");
  }

  /** Gluing a band to the score before it: `x (y` becomes `x(y`. */
  lemma GlueBand(x: string, y: string)
    requires !Contains(x, " (") && !Contains(y, " (")
    ensures Glue(x + " (" + y) == x + "(" + y
  {
    GlueAfter(x, y);
    GlueAtStart(y);
    ReplaceAbsent(y, " (", "(");
    assert x + ("(" + y) == x + "(" + y;
  }

  /** Deleting a name that does not occur changes nothing. */
  lemma DeleteAbsent(s: string, test: string)
    requires !Contains(s, test)
    ensures DeleteName(s, test) == s
  {
    if test != [] {
      ReplaceAbsent(s, test, "");
    }
  }

  /** A line that starts with the test name, and holds it nowhere else, loses just that prefix. */
  lemma DeleteLeading(test: string, rest: string)
    requires test != [] && !Contains(rest, test)
    ensures DeleteName(test + rest, test) == rest
  {
    var s := test + rest;
    assert StartsWith(s, test);
    assert s[|test|..] == rest;
    ReplaceAbsent(rest, test, "");
  }

  /** Where no proficiency level occurs, protecting levels changes nothing. */
  lemma {:induction false} ProtectFromAbsent(s: string, p: nat, levels: seq<string>)
    requires p <= |s|
    requires forall l :: l in levels ==> !Contains(s, l)
    ensures ProtectFrom(s, p, levels) == s[p..]
    decreases |s| - p
  {
    if p < |s| {
      forall l | l in levels ensures !LevelMatches(s, p, l) {
        assert !OccursAt(s, l, p);
      }
      LevelAtNone(s, p, levels);
      ProtectFromAbsent(s, p + 1, levels);
      assert s[p..] == [s[p]] + s[p + 1..];
    }
  }

  lemma ProtectAbsent(s: string, levels: seq<string>)
    requires forall l :: l in levels ==> !Contains(s, l)
    ensures Protect(s, levels) == s
  {
    ProtectFromAbsent(s, 0, levels);
  }

  /** A line with no band to glue and no level to protect reaches the name deletion unchanged. */
  lemma PlainLine(line: string, levels: seq<string>)
    requires !Contains(line, " (") && forall l :: l in levels ==> !Contains(line, l)
    ensures Protect(Glue(line), levels) == line
  {
    GlueAbsent(line);
    ProtectAbsent(line, levels);
  }

  /**
   * A score line made of the test name and a list of plain scores, with no band
   * to glue and no level to protect, yields exactly those scores.
   */
  lemma {:induction false} ScoreLineTokens(test: string, ts: seq<string>, levels: seq<string>)
    requires test != [] && forall k :: 0 <= k < |ts| ==> IsToken(ts[k])
    requires !Contains(test + " " + JoinSpaced(ts), " (")
    requires forall l :: l in levels ==> !Contains(test + " " + JoinSpaced(ts), l)
    requires !Contains(" " + JoinSpaced(ts), test)
    ensures ScoreTokens(test + " " + JoinSpaced(ts), test, levels) == ts
  {
    var line := test + " " + JoinSpaced(ts);
    var rest := " " + JoinSpaced(ts);
    assert line == test + rest;
    PlainLine(line, levels);
    DeleteLeading(test, rest);
    TokensAfterSpace(JoinSpaced(ts));
    TokensJoinSpaced(ts);
  }

  /** Gluing leaves no space before a parenthesis where the pieces had none. */
  lemma GluedLacksSpaceParen(x: string, y: string)
    requires !Contains(x, " (") && !Contains(y, " (")
    requires x == [] || x[|x| - 1] != ' '
    ensures !Contains(x + "(" + y, " (")
  {
    var s := x + "(" + y;
    forall k: nat ensures !OccursAt(s, " (", k) {
      if k + 2 <= |x| {
        assert s[k..k + 2] == x[k..k + 2];
        assert !OccursAt(x, " (", k);
      } else if k + 2 <= |s| && k < |x| {
        assert s[k..k + 2][0] == x[|x| - 1];
      } else if k + 2 <= |s| && k == |x| {
        assert s[k..k + 2][0] == '(';
      } else if k + 2 <= |s| {
        var t := s[|x| + 1..];
        assert t == y;
        assert s[k..k + 2] == t[k - |x| - 1..k - |x| + 1];
        assert !OccursAt(y, " (", k - |x| - 1);
      }
    }
  }

  /** A string that lacks `u` lacks every string holding `u`. */
  lemma PieceAbsent(s: string, t: string, u: string)
    requires Contains(t, u) && !Contains(s, u)
    ensures !Contains(s, t)
  {
    if Contains(s, t) {
      ContainsTransitive(s, t, u);
    }
  }

  /** A score glued to its band is one token. */
  lemma GluedIsToken(w: string, band: string)
    requires IsToken(w) && IsToken(band)
    ensures IsToken(w + "(" + band)
  {
    var t := w + "(" + band;
    forall k | 0 <= k < |t| ensures !IsSpace(t[k]) {
      if k < |w| {
        assert t[k] == w[k];
      } else if k > |w| {
        assert t[k] == band[k - |w| - 1];
      }
    }
  }

  /** A line whose only space before a parenthesis is the band's reaches the name deletion glued. */
  lemma BandLine(x: string, y: string, levels: seq<string>)
    requires !Contains(x, " (") && !Contains(y, " (")
    requires forall l :: l in levels ==> !Contains(x + "(" + y, l)
    ensures Protect(Glue(x + " (" + y), levels) == x + "(" + y
  {
    GlueBand(x, y);
    ProtectAbsent(x + "(" + y, levels);
  }

  /** The words after the test name: the glued score and band, then one more token. */
  lemma BandTokens(w: string, band: string, rest: string)
    requires IsToken(w) && IsToken(band)
    ensures Tokens(" " + w + "(" + band + " " + rest) == [w + "(" + band] + Tokens(rest)
  {
    var t := w + "(" + band;
    assert " " + w + "(" + band + " " + rest == " " + (t + " " + rest);
    TokensAfterSpace(t + " " + rest);
    GluedIsToken(w, band);
    TokensSpaced(t, rest);
  }

  /**
   * A line `test w (band ae`, as in `Story Recall 92 (88-96) Average`: the score
   * and its band stay one token, so the first metric gets `w (band` and the
   * second `ae`, not `w` and `(band`.
   */
  lemma {:induction false} ScoreLineBand(test: string, w: string, band: string, ae: string, levels: seq<string>)
    requires test != [] && IsToken(w) && IsToken(band) && IsToken(ae)
    requires Lacks(w, '_') && Lacks(w, '(') && Lacks(band, '_') && Lacks(band, '(')
    requires Lacks(ae, '_') && Lacks(ae, '(')
    requires !Contains(test + " " + w, " (") && !Contains(band + " " + ae, " (")
    requires forall l :: l in levels ==> !Contains(test + " " + w + "(" + band + " " + ae, l)
    requires !Contains(" " + w + "(" + band + " " + ae, test)
    ensures ScoreTokens(test + " " + w + " (" + band + " " + ae, test, levels) == [w + "(" + band, ae]
    ensures Restore(w + "(" + band) == w + " (" + band && Restore(ae) == ae
  {
    var x := test + " " + w;
    var y := band + " " + ae;
    var rest := " " + w + "(" + band + " " + ae;
    assert test + " " + w + " (" + band + " " + ae == x + " (" + y;
    assert x + "(" + y == test + " " + w + "(" + band + " " + ae == test + rest;
    BandLine(x, y, levels);
    DeleteLeading(test, rest);
    BandTokens(w, band, ae);
    TokensSpaced(ae, []);
    RestoreGlued(w, band);
    RestorePlain(ae);
  }

  /** Once glued, a line no longer holds a name with a space before a parenthesis. */
  lemma GluedNameAbsent(x: string, y: string, c: string)
    requires IsToken(x) || (x != [] && x[|x| - 1] != ' ')
    requires !Contains(x, " (") && !Contains(y, " (")
    ensures !Contains(x + "(" + y, x + " (" + c)
  {
    var test := x + " (" + c;
    assert test[|x|..|x| + 2] == " (";
    assert OccursAt(test, " (", |x|);
    GluedLacksSpaceParen(x, y);
    PieceAbsent(x + "(" + y, test, " (");
  }

  /** The tokens of a glued line that kept a name `a b(c`: the name's two words, then the scores. */
  lemma {:induction false} NameKeptTokens(a: string, b: string, c: string, ts: seq<string>)
    requires IsToken(a) && IsToken(b) && IsToken(c)
    requires forall k :: 0 <= k < |ts| ==> IsToken(ts[k])
    ensures Tokens(a + " " + b + "(" + c + " " + JoinSpaced(ts)) == [a, b + "(" + c] + ts
  {
    var t := b + "(" + c;
    assert a + " " + b + "(" + c + " " + JoinSpaced(ts) == a + " " + (t + " " + JoinSpaced(ts));
    TokensSpaced(a, t + " " + JoinSpaced(ts));
    GluedIsToken(b, c);
    TokensSpaced(t, JoinSpaced(ts));
    TokensJoinSpaced(ts);
  }

  /**
   * A test whose name holds a parenthesis, such as `VISUAL PROCESSING (Gv)`: once
   * the line is glued the name no longer occurs in it, so it is not deleted and
   * its two words become the first two tokens, shifting every score two metrics along.
   */
  lemma {:induction false} ScoreLineNameKept(a: string, b: string, c: string, ts: seq<string>, levels: seq<string>)
    requires IsToken(a) && IsToken(b) && IsToken(c)
    requires !Contains(a + " " + b, " (") && !Contains(c + " " + JoinSpaced(ts), " (")
    requires forall l :: l in levels ==> !Contains(a + " " + b + "(" + c + " " + JoinSpaced(ts), l)
    requires forall k :: 0 <= k < |ts| ==> IsToken(ts[k])
    ensures ScoreTokens(a + " " + b + " (" + c + " " + JoinSpaced(ts), a + " " + b + " (" + c, levels)
      == [a, b + "(" + c] + ts
  {
    var x := a + " " + b;
    var y := c + " " + JoinSpaced(ts);
    var g := a + " " + b + "(" + c + " " + JoinSpaced(ts);
    assert a + " " + b + " (" + c + " " + JoinSpaced(ts) == x + " (" + y;
    assert x + "(" + y == g;
    assert a + " " + b + " (" + c == x + " (" + c;
    BandLine(x, y, levels);
    assert x[|x| - 1] == b[|b| - 1];
    GluedNameAbsent(x, y, c);
    DeleteAbsent(g, x + " (" + c);
    NameKeptTokens(a, b, c, ts);
  }

  // ---------------------------------------------------------------------------
  // The score stage as a whole
  // ---------------------------------------------------------------------------

  /** Up to the `n`-th test, test `t`'s k-th metric holds its k-th token restored. */
  lemma {:induction false} ScoresRecordedUpTo(d: Record, lang: Language, lines: seq<string>, t: nat, i: nat, k: nat, n: nat)
    requires t < n <= |lang.Tests()| && TestLine(lines, lang.Tests()[t]) == Some(i)
    requires k < Min(|lang.Metrics()|, |ScoreTokens(lines[i], lang.Tests()[t], lang.ProficiencyLevels())|)
    ensures var key := ScoreKey(lang, lang.Tests()[t], lang.Metrics()[k]);
      key in Store(d, ScoreWrites(lang, lines, lang.Tests()[..n])) &&
      Store(d, ScoreWrites(lang, lines, lang.Tests()[..n]))[key]
        == Some(Restore(ScoreTokens(lines[i], lang.Tests()[t], lang.ProficiencyLevels())[k]))
    decreases n
  {
    var tests := lang.Tests();
    var test := tests[t];
    var key := ScoreKey(lang, test, lang.Metrics()[k]);
    var before := ScoreWrites(lang, lines, tests[..n - 1]);
    ScoreWritesStep(lang, lines, tests, n - 1);
    StoreAppend(d, before, TestFields(lang, lines, tests[n - 1]));
    if n == t + 1 {
      ScoreFieldsRecorded(Store(d, before), lang, test, lines[i], k);
    } else {
      ScoresRecordedUpTo(d, lang, lines, t, i, k, n - 1);
      var u := tests[n - 1];
      var fs := TestFields(lang, lines, u);
      TestTitlesDistinct(lang);
      TestTitlesLackHyphen(lang);
      forall j | 0 <= j < |fs| ensures fs[j].key != key {
        TestFieldsKey(lang, lines, u, j);
        ScoreKeyDistinct(lang, u, test, lang.Metrics()[j], lang.Metrics()[k]);
      }
      StoreUntouched(Store(d, before), fs, key);
    }
  }

  /**
   * After the score stage, the key of test `t` and metric `k` holds the k-th
   * token of the test's line restored, for every k within the shorter of the
   * metrics and the tokens: no later test writes that key.
   */
  lemma ScoresRecorded(d: Record, lang: Language, lines: seq<string>, t: nat, i: nat, k: nat)
    requires t < |lang.Tests()| && TestLine(lines, lang.Tests()[t]) == Some(i)
    requires k < Min(|lang.Metrics()|, |ScoreTokens(lines[i], lang.Tests()[t], lang.ProficiencyLevels())|)
    ensures var key := ScoreKey(lang, lang.Tests()[t], lang.Metrics()[k]);
      key in Store(d, ScoreWrites(lang, lines, lang.Tests())) &&
      Store(d, ScoreWrites(lang, lines, lang.Tests()))[key]
        == Some(Restore(ScoreTokens(lines[i], lang.Tests()[t], lang.ProficiencyLevels())[k]))
  {
    ScoresRecordedUpTo(d, lang, lines, t, i, k, |lang.Tests()|);
    assert lang.Tests()[..|lang.Tests()|] == lang.Tests();
  }

  /**
   * The score stage leaves every key it does not write as it was: every key but
   * those of the metrics each test's line has a token for.
   */
  lemma {:induction false} ScoresUntouched(d: Record, lang: Language, lines: seq<string>, tests: seq<string>, key: string)
    requires forall i, m :: 0 <= i < |tests| && 0 <= m < |lang.Metrics()| && MetricWritten(lang, lines, tests[i], m) ==>
      ScoreKey(lang, tests[i], lang.Metrics()[m]) != key
    ensures key in Store(d, ScoreWrites(lang, lines, tests)) <==> key in d
    ensures key in d ==> Store(d, ScoreWrites(lang, lines, tests))[key] == d[key]
    decreases |tests|
  {
    if tests != [] {
      var init := tests[..|tests| - 1];
      var u := tests[|tests| - 1];
      var fs := TestFields(lang, lines, u);
      ScoresUntouched(d, lang, lines, init, key);
      StoreAppend(d, ScoreWrites(lang, lines, init), fs);
      forall j | 0 <= j < |fs| ensures fs[j].key != key {
        TestFieldsKey(lang, lines, u, j);
      }
      StoreUntouched(Store(d, ScoreWrites(lang, lines, init)), fs, key);
    }
  }

  /**
   * A test's metric key the stage does not write keeps its presence and value:
   * every metric of a test that has no line, and every metric past the tokens of
   * its line.
   */
  lemma ScoresSkipped(d: Record, lang: Language, lines: seq<string>, t: nat, m: nat)
    requires t < |lang.Tests()| && m < |lang.Metrics()| && !MetricWritten(lang, lines, lang.Tests()[t], m)
    ensures var key, r := ScoreKey(lang, lang.Tests()[t], lang.Metrics()[m]), Store(d, ScoreWrites(lang, lines, lang.Tests()));
      (key in r <==> key in d) && (key in d ==> r[key] == d[key])
  {
    var tests, metrics := lang.Tests(), lang.Metrics();
    var key := ScoreKey(lang, tests[t], metrics[m]);
    TestTitlesDistinct(lang);
    TestTitlesLackHyphen(lang);
    MetricsDistinct(lang);
    forall i, n | 0 <= i < |tests| && 0 <= n < |metrics| && MetricWritten(lang, lines, tests[i], n)
      ensures ScoreKey(lang, tests[i], metrics[n]) != key
    {
      if i != t {
        ScoreKeyDistinct(lang, tests[i], tests[t], metrics[n], metrics[m]);
      } else {
        assert n != m;
        ScoreKeyInjective(lang, tests[t], metrics[n], metrics[m]);
      }
    }
    ScoresUntouched(d, lang, lines, tests, key);
  }
}
