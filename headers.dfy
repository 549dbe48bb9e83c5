/**
 * Header extraction: the two-column block on lines 1 to 5 of a report, each
 * line reading `A: <value> B: <value>`, and the normalisation of Age and of
 * Date of Testing.
 */
module Headers {
  import opened Options
  import opened Text
  import opened Profiles
  import opened Records

  /**
   * `re.search(f"{a}:(.*?){b}:", line)`, group 1 stripped: the text between the
   * first `a:` and the first `b:` after it; None when no `a:` is followed by a `b:`.
   */
  function LeftColumn(line: string, a: string, b: string): Option<string> {
    match FindFrom(line, a + ":", 0)
    case None => None
    case Some(p) =>
      match FindFrom(line, b + ":", p + |a| + 1)
      case None => None
      case Some(q) => Some(Trim(line[p + |a| + 1..q]))
  }

  /**
   * `re.search(f"{b}:(.*)", line)`, group 1 stripped: the rest of the line after
   * the first `b:`; None when the line has no `b:`.
   */
  function RightColumn(line: string, b: string): Option<string> {
    match FindFrom(line, b + ":", 0)
    case None => None
    case Some(q) => Some(Trim(line[q + |b| + 1..]))
  }

  /** There is no left column exactly when no `a:` has a `b:` after it. */
  lemma LeftColumnAbsent(line: string, a: string, b: string)
    ensures LeftColumn(line, a, b).None? <==> forall p: nat, q: nat ::
      OccursAt(line, a + ":", p) && OccursAt(line, b + ":", q) ==> q < p + |a| + 1
  {
  }

  /** There is no right column exactly when the line has no `b:`. */
  lemma RightColumnAbsent(line: string, b: string)
    ensures RightColumn(line, b).None? <==> forall q: nat :: !OccursAt(line, b + ":", q)
  {
  }

  /** The left column is the stripped text from the first `a:` to the first `b:` after it. */
  lemma LeftColumnIs(line: string, a: string, b: string, p: nat, q: nat)
    requires OccursAt(line, a + ":", p) && forall j :: 0 <= j < p ==> !OccursAt(line, a + ":", j)
    requires p + |a| + 1 <= q && OccursAt(line, b + ":", q)
    requires forall j :: p + |a| + 1 <= j < q ==> !OccursAt(line, b + ":", j)
    ensures LeftColumn(line, a, b) == Some(Trim(line[p + |a| + 1..q]))
  {
    var ac, bc := a + ":", b + ":";
    assert |ac| == |a| + 1 && q + |bc| <= |line|;
    FindFromIs(line, ac, 0, p);
    FindFromIs(line, bc, p + |ac|, q);
  }

  /** The right column is the stripped rest of the line after the first `b:`. */
  lemma RightColumnIs(line: string, b: string, q: nat)
    requires OccursAt(line, b + ":", q) && forall j :: 0 <= j < q ==> !OccursAt(line, b + ":", j)
    ensures RightColumn(line, b) == Some(Trim(line[q + |b| + 1..]))
  {
    FindFromIs(line, b + ":", 0, q);
  }

  /**
   * What `int(v.split(", ")[0][0])` and `int(v.split(", ")[1][0])` need: two
   * parts, each beginning with a digit.
   */
  predicate AgeReadable(v: string) {
    var parts := SplitOn(v, ", ");
    |parts| >= 2 && parts[0] != [] && IsDigit(parts[0][0]) && parts[1] != [] && IsDigit(parts[1][0])
  }

  /** Age `"Y, M"` as total months; only the first character of each part is read. */
  function AgeText(v: string): string
    requires AgeReadable(v)
  {
    var parts := SplitOn(v, ", ");
    NatToString(12 * DigitValue(parts[0][0]) + DigitValue(parts[1][0])) + " Months"
  }

  /**
   * The age in months is 12 times the first digit of the years plus the first
   * digit of the months, whatever follows either digit.
   */
  lemma AgeFirstDigits(y: char, ys: string, m: char, ms: string)
    requires IsDigit(y) && IsDigit(m)
    requires !Contains([y] + ys, ", ")
    ensures AgeReadable([y] + ys + ", " + [m] + ms)
    ensures AgeText([y] + ys + ", " + [m] + ms)
         == NatToString(12 * DigitValue(y) + DigitValue(m)) + " Months"
  {
    var v := [y] + ys + ", " + [m] + ms;
    var k := 1 + |ys|;
    assert v[..k] == [y] + ys;
    assert v[k..k + 2] == ", ";
    var w := [y] + ys;
    forall j | 0 <= j < k ensures !OccursAt(v, ", ", j) {
      if j + 2 <= k {
        assert !OccursAt(w, ", ", j);
        assert v[j..j + 2] == w[j..j + 2];
      } else {
        assert v[j + 1] == ',' && v[j..j + 2][1] == v[j + 1];
      }
    }
    FindFromIs(v, ", ", 0, k);
    var rest := v[k + 2..];
    assert rest == [m] + ms;
    var parts := SplitOn(v, ", ");
    assert parts == [[y] + ys] + SplitOn(rest, ", ");
    match FindFrom(rest, ", ", 0)
    case None =>
    case Some(j) =>
      assert rest[0] == m && OccursAt(rest, ", ", j) && rest[j] == ',';
  }

  /** The age `"7, 3"` is 87 months. */
  lemma AgeSevenThree()
    ensures AgeReadable("7, 3") && AgeText("7, 3") == "87 Months"
  {
    AgeFirstDigits('7', "", '3', "");
    assert "7, 3" == ['7'] + "" + ", " + ['3'] + "";
    assert NatToString(87) == NatToString(8) + [DigitChar(7)];
  }

  /** The age `"0, 11"` is read as 1 month: only the `1` of `11` is used. */
  lemma AgeZeroEleven()
    ensures AgeReadable("0, 11") && AgeText("0, 11") == "1 Months"
  {
    AgeFirstDigits('0', "", '1', "1");
    assert "0, 11" == ['0'] + "" + ", " + ['1'] + "1";
  }

  /** A header line: its line number and the labels of its left and right column. */
  datatype HeaderRow = HeaderRow(line: nat, left: string, right: string)

  /** The table the header stage walks, one row per header line. */
  const HeaderRows: seq<HeaderRow> := [
    HeaderRow(1, "Name", "School"),
    HeaderRow(2, "Date of Birth", "Teacher"),
    HeaderRow(3, "Age", "Grade"),
    HeaderRow(4, "Sex", "ID"),
    HeaderRow(5, "Date of Testing", "Examiners")
  ]

  /** The label under which the header stage stores the report's language. */
  const LanguageKey: string := "Language"

  /**
   * A header row can be read without the exceptions the source would raise: its
   * line exists, and an Age column is present and splits into two digit-led
   * parts, a Date of Testing column is present and not blank.
   */
  predicate RowReadable(text: seq<string>, row: HeaderRow) {
    && row.line < |text|
    && (row.left == "Age" ==>
          var v := LeftColumn(text[row.line], row.left, row.right);
          v.Some? && AgeReadable(v.value))
    && (row.left == "Date of Testing" ==>
          var v := LeftColumn(text[row.line], row.left, row.right);
          v.Some? && Tokens(v.value) != [])
  }

  predicate RowsReadable(text: seq<string>, rows: seq<HeaderRow>) {
    forall k :: 0 <= k < |rows| ==> RowReadable(text, rows[k])
  }

  /** Every row of the header table is readable. */
  predicate HeadersReadable(text: seq<string>) {
    RowsReadable(text, HeaderRows)
  }

  /** The value stored for a row's left column, after the Age or Date of Testing clean-up. */
  function LeftValue(text: seq<string>, row: HeaderRow): Option<string>
    requires RowReadable(text, row)
  {
    var v := LeftColumn(text[row.line], row.left, row.right);
    if row.left == "Age" then Some(AgeText(v.value))
    else if row.left == "Date of Testing" then Some(Tokens(v.value)[0])
    else v
  }

  /** The value stored for a row's right column. */
  function RightValue(text: seq<string>, row: HeaderRow): Option<string>
    requires row.line < |text|
  {
    RightColumn(text[row.line], row.right)
  }

  /** The values read from a row's two columns. */
  datatype ColumnValues = ColumnValues(left: Option<string>, right: Option<string>)

  /** The values each row of `rows` stores. */
  function RowValues(text: seq<string>, rows: seq<HeaderRow>): (vs: seq<ColumnValues>)
    requires RowsReadable(text, rows)
    ensures |vs| == |rows|
  {
    seq(|rows|, k requires 0 <= k < |rows| => ColumnValues(LeftValue(text, rows[k]), RightValue(text, rows[k])))
  }

  /** The assignments made for `rows` with values `vs`, row by row: left column, then right column. */
  function Assign(rows: seq<HeaderRow>, vs: seq<ColumnValues>): seq<Field>
    requires |rows| == |vs|
  {
    if rows == [] then []
    else
      var n := |rows|;
      Assign(rows[..n - 1], vs[..n - 1])
        + [Field(rows[n - 1].left, vs[n - 1].left), Field(rows[n - 1].right, vs[n - 1].right)]
  }

  /** One more row adds its left, then its right assignment. */
  lemma AssignStep(rows: seq<HeaderRow>, vs: seq<ColumnValues>, k: nat)
    requires |rows| == |vs| && k < |rows|
    ensures Assign(rows[..k + 1], vs[..k + 1])
         == Assign(rows[..k], vs[..k]) + [Field(rows[k].left, vs[k].left)] + [Field(rows[k].right, vs[k].right)]
  {
    assert rows[..k + 1][..k] == rows[..k] && vs[..k + 1][..k] == vs[..k];
  }

  /** The assignments of the header stage: the table's rows, then the language tag. */
  function HeaderFields(text: seq<string>, lang: Language): seq<Field>
    requires HeadersReadable(text)
  {
    Assign(HeaderRows, RowValues(text, HeaderRows)) + [Field(LanguageKey, Some(lang.Name()))]
  }

  /** No label is used twice in a table: the two labels of a row differ, and so do any two rows' labels. */
  predicate LabelsDistinct(rows: seq<HeaderRow>) {
    && (forall i, j :: 0 <= i < |rows| && 0 <= j < |rows| ==> rows[i].left != rows[j].right)
    && (forall i, j :: 0 <= i < j < |rows| ==> rows[i].left != rows[j].left && rows[i].right != rows[j].right)
  }

  /** `key` labels no column of `rows`. */
  predicate NotALabel(rows: seq<HeaderRow>, key: string) {
    forall k :: 0 <= k < |rows| ==> rows[k].left != key && rows[k].right != key
  }

  /** The header table's ten labels and the language label are eleven different keys. */
  lemma HeaderLabelsDistinct()
    ensures LabelsDistinct(HeaderRows) && NotALabel(HeaderRows, LanguageKey)
  {
    var rs := HeaderRows;
    forall i, j | 0 <= i < |rs| && 0 <= j < |rs| ensures rs[i].left != rs[j].right {
      assert |rs[i].left| != |rs[j].right|;
    }
    forall i, j | 0 <= i < j < |rs| ensures rs[i].left != rs[j].left && rs[i].right != rs[j].right {
      assert |rs[i].left| != |rs[j].left| || rs[i].left[0] != rs[j].left[0];
      assert |rs[i].right| != |rs[j].right|;
    }
  }

  /**
   * After the assignments of a table with distinct labels, every row's left label
   * holds its left value and its right label its right value.
   */
  lemma {:induction false} AssignRecorded(d: Record, rows: seq<HeaderRow>, vs: seq<ColumnValues>, k: nat)
    requires |rows| == |vs| && LabelsDistinct(rows) && k < |rows|
    ensures var r := Store(d, Assign(rows, vs));
      && rows[k].left in r && r[rows[k].left] == vs[k].left
      && rows[k].right in r && r[rows[k].right] == vs[k].right
  {
    var n := |rows|;
    var two := [Field(rows[n - 1].left, vs[n - 1].left), Field(rows[n - 1].right, vs[n - 1].right)];
    var a := Assign(rows[..n - 1], vs[..n - 1]);
    StoreAppend(d, a, two);
    assert two[..1] == [two[0]] && two[..1][..0] == [];
    assert Assign(rows, vs) == a + two;
    assert Store(Store(d, a), two[..1]) == Store(d, a)[two[0].key := two[0].value];
    assert Store(Store(d, a), two) == Store(d, a)[two[0].key := two[0].value][two[1].key := two[1].value];
    if k < n - 1 {
      assert rows[..n - 1][k] == rows[k] && vs[..n - 1][k] == vs[k];
      AssignRecorded(d, rows[..n - 1], vs[..n - 1], k);
      assert rows[k].left != rows[n - 1].left && rows[k].left != rows[n - 1].right;
      assert rows[k].right != rows[n - 1].left && rows[k].right != rows[n - 1].right;
    } else {
      assert rows[k].left != rows[k].right;
    }
  }

  /** A key that labels no column is left as it was by the table's assignments. */
  lemma {:induction false} AssignUntouched(d: Record, rows: seq<HeaderRow>, vs: seq<ColumnValues>, key: string)
    requires |rows| == |vs| && NotALabel(rows, key)
    ensures var r := Store(d, Assign(rows, vs));
      (key in r <==> key in d) && (key in d ==> r[key] == d[key])
  {
    if rows != [] {
      var n := |rows|;
      var two := [Field(rows[n - 1].left, vs[n - 1].left), Field(rows[n - 1].right, vs[n - 1].right)];
      StoreAppend(d, Assign(rows[..n - 1], vs[..n - 1]), two);
      assert two[..1] == [two[0]] && two[..1][..0] == [];
      var init := rows[..n - 1];
      assert NotALabel(init, key) by {
        forall k | 0 <= k < |init| ensures init[k].left != key && init[k].right != key {
          assert init[k] == rows[k];
        }
      }
      var a := Assign(init, vs[..n - 1]);
      assert Assign(rows, vs) == a + two;
      assert Store(Store(d, a), two[..1]) == Store(d, a)[two[0].key := two[0].value];
    assert Store(Store(d, a), two) == Store(d, a)[two[0].key := two[0].value][two[1].key := two[1].value];
      AssignUntouched(d, rows[..n - 1], vs[..n - 1], key);
    }
  }

  /**
   * After the header stage, each row's left label holds its left column (Age in
   * months, Date of Testing cut to its first token), each right label holds its
   * right column (None when unmatched), "Language" holds the language tag, and
   * every other entry of the record is as it was.
   */
  lemma HeadersRecorded(d: Record, text: seq<string>, lang: Language)
    requires HeadersReadable(text)
    ensures var r := Store(d, HeaderFields(text, lang));
      forall k :: 0 <= k < |HeaderRows| ==>
        var row := HeaderRows[k];
        && row.left in r && r[row.left] == LeftValue(text, row)
        && row.right in r && r[row.right] == RightValue(text, row)
    ensures var r := Store(d, HeaderFields(text, lang));
      LanguageKey in r && r[LanguageKey] == Some(lang.Name())
    ensures var r := Store(d, HeaderFields(text, lang));
      forall key :: NotALabel(HeaderRows, key) && key != LanguageKey ==>
        (key in r <==> key in d) && (key in d ==> r[key] == d[key])
  {
    var vs := RowValues(text, HeaderRows);
    var rows := Assign(HeaderRows, vs);
    var lf := Field(LanguageKey, Some(lang.Name()));
    assert (rows + [lf])[..|rows|] == rows;
    HeaderLabelsDistinct();
    forall k | 0 <= k < |HeaderRows|
      ensures var r, row := Store(d, rows), HeaderRows[k];
        && row.left in r && r[row.left] == LeftValue(text, row)
        && row.right in r && r[row.right] == RightValue(text, row)
    {
      AssignRecorded(d, HeaderRows, vs, k);
    }
    forall key | NotALabel(HeaderRows, key) && key != LanguageKey
      ensures var r := Store(d, rows);
        (key in r <==> key in d) && (key in d ==> r[key] == d[key])
    {
      AssignUntouched(d, HeaderRows, vs, key);
    }
  }

  /** The Age row stores the age in months, computed from its left column. */
  lemma AgeRowValue(text: seq<string>)
    requires HeadersReadable(text)
    ensures RowReadable(text, HeaderRows[2]) && var v := LeftColumn(text[3], "Age", "Grade");
      v.Some? && AgeReadable(v.value) && LeftValue(text, HeaderRows[2]) == Some(AgeText(v.value))
  {
    assert RowReadable(text, HeaderRows[2]);
  }

  /** The Date of Testing row stores the first whitespace-separated token of its left column. */
  lemma TestingDateRowValue(text: seq<string>)
    requires HeadersReadable(text)
    ensures RowReadable(text, HeaderRows[4]) && var v := LeftColumn(text[5], "Date of Testing", "Examiners");
      v.Some? && Tokens(v.value) != [] && LeftValue(text, HeaderRows[4]) == Some(Tokens(v.value)[0])
  {
    assert RowReadable(text, HeaderRows[4]);
  }

  /** The other three rows store their left column as matched. */
  lemma PlainRowValues(text: seq<string>)
    requires HeadersReadable(text)
    ensures LeftValue(text, HeaderRows[0]) == LeftColumn(text[1], "Name", "School")
    ensures LeftValue(text, HeaderRows[1]) == LeftColumn(text[2], "Date of Birth", "Teacher")
    ensures LeftValue(text, HeaderRows[3]) == LeftColumn(text[4], "Sex", "ID")
  {
    assert RowReadable(text, HeaderRows[0]) && RowReadable(text, HeaderRows[1]) && RowReadable(text, HeaderRows[3]);
  }
}
