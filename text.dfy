/**
 * The operations of Python's `str` that the report parser uses (`startswith`,
 * `in`, `split`, `strip`, `replace`, `title`, `str(int)`, the first-colon split
 * and the leading `\w` run), written out as functions on `seq<char>`.
 */
module Text {
  import opened Options

  // ---------------------------------------------------------------------------
  // Character classes
  // ---------------------------------------------------------------------------

  /** `str.isspace()`: the separators of `str.split()` and `str.strip()`. */
  predicate IsSpace(c: char) {
    c == ' ' || '\t' <= c <= '\r' || '\U{1C}' <= c <= '\U{1F}' || c == '\U{85}' || c == '\U{A0}'
    || c == '\U{1680}' || '\U{2000}' <= c <= '\U{200A}' || c == '\U{2028}' || c == '\U{2029}'
    || c == '\U{202F}' || c == '\U{205F}' || c == '\U{3000}'
  }

  predicate IsDigit(c: char) {
    '0' <= c <= '9'
  }

  function DigitValue(c: char): (d: nat)
    requires IsDigit(c)
    ensures d < 10
  {
    c as int - '0' as int
  }

  function DigitChar(d: nat): (c: char)
    requires d < 10
    ensures IsDigit(c) && DigitValue(c) == d
  {
    ('0' as int + d) as char
  }

  /** Letters that have an upper and a lower case: ASCII and the Latin-1 letters. */
  predicate IsCased(c: char) {
    'A' <= c <= 'Z' || 'a' <= c <= 'z'
    || ('\U{C0}' <= c <= '\U{FF}' && c != '\U{D7}' && c != '\U{F7}')
  }

  /** The regular-expression class `\w`: letters, digits and the underscore. */
  predicate IsWordChar(c: char) {
    IsCased(c) || IsDigit(c) || c == '_'
    || c == '\U{AA}' || c == '\U{B2}' || c == '\U{B3}' || c == '\U{B5}' || c == '\U{B9}'
    || c == '\U{BA}' || '\U{BC}' <= c <= '\U{BE}'
  }

  function UpperChar(c: char): char {
    if 'a' <= c <= 'z' then (c as int - 32) as char
    else if '\U{E0}' <= c <= '\U{FE}' && c != '\U{F7}' then (c as int - 32) as char
    else c
  }

  function LowerChar(c: char): char {
    if 'A' <= c <= 'Z' then (c as int + 32) as char
    else if '\U{C0}' <= c <= '\U{DE}' && c != '\U{D7}' then (c as int + 32) as char
    else c
  }

  // ---------------------------------------------------------------------------
  // Searching
  // ---------------------------------------------------------------------------

  /** `pat` occurs in `s` starting at index `k`. */
  predicate OccursAt(s: string, pat: string, k: nat) {
    k + |pat| <= |s| && s[k..k + |pat|] == pat
  }

  /** `s.startswith(p)`. */
  predicate StartsWith(s: string, p: string) {
    p <= s
  }

  /** `s.find(pat, from)`: the first occurrence of `pat` at or after `from`. */
  function FindFrom(s: string, pat: string, from: nat): (r: Option<nat>)
    requires from <= |s|
    ensures r.Some? ==> from <= r.value && OccursAt(s, pat, r.value)
    ensures r.Some? ==> forall k :: from <= k < r.value ==> !OccursAt(s, pat, k)
    ensures r.None? ==> forall k :: from <= k ==> !OccursAt(s, pat, k)
    decreases |s| - from
  {
    if OccursAt(s, pat, from) then Some(from)
    else if from == |s| then None
    else FindFrom(s, pat, from + 1)
  }

  /** The first occurrence at or after `from` is the one `FindFrom` reports. */
  lemma {:induction false} FindFromIs(s: string, pat: string, from: nat, k: nat)
    requires from <= k && OccursAt(s, pat, k)
    requires forall j :: from <= j < k ==> !OccursAt(s, pat, j)
    ensures FindFrom(s, pat, from) == Some(k)
    decreases k - from
  {
    if from < k {
      FindFromIs(s, pat, from + 1, k);
    }
  }

  /** `pat in s`. */
  predicate Contains(s: string, pat: string)
    ensures Contains(s, pat) <==> exists k: nat :: OccursAt(s, pat, k)
  {
    FindFrom(s, pat, 0).Some?
  }

  // ---------------------------------------------------------------------------
  // `str.split(sep)` with a separator
  // ---------------------------------------------------------------------------

  /** `s.split(sep)`: the pieces between the non-overlapping occurrences of `sep`. */
  function SplitOn(s: string, sep: string): (r: seq<string>)
    requires sep != []
    ensures |r| >= 1
    ensures forall k :: 0 <= k < |r| ==> !Contains(r[k], sep)
    decreases |s|
  {
    match FindFrom(s, sep, 0)
    case None => [s]
    case Some(k) =>
      assert !Contains(s[..k], sep) by {
        forall j: nat | OccursAt(s[..k], sep, j) ensures false {
          assert s[..k][j..j + |sep|] == s[j..j + |sep|];
          assert j < k && OccursAt(s, sep, j);
        }
      }
      [s[..k]] + SplitOn(s[k + |sep|..], sep)
  }

  /** `sep.join(ps)`. */
  function JoinWith(ps: seq<string>, sep: string): string {
    if ps == [] then [] else if |ps| == 1 then ps[0] else ps[0] + sep + JoinWith(ps[1..], sep)
  }

  /** Joining the pieces with the separator gives the string back. */
  lemma {:induction false} SplitOnJoin(s: string, sep: string)
    requires sep != []
    ensures JoinWith(SplitOn(s, sep), sep) == s
    decreases |s|
  {
    match FindFrom(s, sep, 0)
    case None =>
    case Some(k) =>
      var rest := s[k + |sep|..];
      var ps := SplitOn(s, sep);
      assert ps == [s[..k]] + SplitOn(rest, sep);
      assert ps[1..] == SplitOn(rest, sep);
      calc {
        JoinWith(ps, sep);
        ps[0] + sep + JoinWith(ps[1..], sep);
        { SplitOnJoin(rest, sep); }
        s[..k] + sep + rest;
        { assert s[k..k + |sep|] == sep; }
        s;
      }
  }

  // ---------------------------------------------------------------------------
  // The first-colon split: `s.split(":")[0]` and `":".join(s.split(":")[1:])`
  // ---------------------------------------------------------------------------

  /** The text before the first colon (all of `s` when it has none). */
  function BeforeColon(s: string): string {
    if s == [] || s[0] == ':' then [] else [s[0]] + BeforeColon(s[1..])
  }

  /** The text after the first colon, later colons kept (empty when `s` has none). */
  function AfterColon(s: string): string {
    if s == [] then [] else if s[0] == ':' then s[1..] else AfterColon(s[1..])
  }

  /** Splitting at the first colon loses nothing, and the part before it holds no colon. */
  lemma {:induction false} ColonSplit(s: string)
    requires ':' in s
    ensures s == BeforeColon(s) + ":" + AfterColon(s)
    ensures ':' !in BeforeColon(s)
  {
    if s[0] != ':' {
      assert ':' in s[1..] by {
        var k :| 0 <= k < |s| && s[k] == ':';
        assert s[1..][k - 1] == ':';
      }
      ColonSplit(s[1..]);
    }
  }

  /** The split is determined by the first colon: it undoes any join at a colon-free prefix. */
  lemma {:induction false} ColonSplitJoin(a: string, b: string)
    requires ':' !in a
    ensures BeforeColon(a + ":" + b) == a && AfterColon(a + ":" + b) == b
  {
    if a != [] {
      assert (a + ":" + b)[1..] == a[1..] + ":" + b;
      ColonSplitJoin(a[1..], b);
    }
  }

  /** Without a colon, the line is all "before" and nothing "after". */
  lemma {:induction false} ColonFree(s: string)
    requires ':' !in s
    ensures BeforeColon(s) == s && AfterColon(s) == []
  {
    if s != [] {
      ColonFree(s[1..]);
    }
  }

  // ---------------------------------------------------------------------------
  // `str.strip()`
  // ---------------------------------------------------------------------------

  predicate AllSpace(s: string) {
    forall k :: 0 <= k < |s| ==> IsSpace(s[k])
  }

  /** Neither end of `s` is whitespace. */
  predicate IsTrimmed(s: string) {
    s == [] || (!IsSpace(s[0]) && !IsSpace(s[|s| - 1]))
  }

  function TrimLeft(s: string): (r: string)
    ensures r == [] || !IsSpace(r[0])
  {
    if s != [] && IsSpace(s[0]) then TrimLeft(s[1..]) else s
  }

  function TrimRight(s: string): (r: string)
    ensures r == [] || !IsSpace(r[|r| - 1])
    ensures r <= s
  {
    if s != [] && IsSpace(s[|s| - 1]) then TrimRight(s[..|s| - 1]) else s
  }

  /** `s.strip()`. */
  function Trim(s: string): (r: string)
    ensures IsTrimmed(r)
  {
    TrimRight(TrimLeft(s))
  }

  /** Leading whitespace is dropped. */
  lemma {:induction false} TrimLeftSpaces(pre: string, s: string)
    requires AllSpace(pre)
    ensures TrimLeft(pre + s) == TrimLeft(s)
  {
    if pre != [] {
      assert (pre + s)[0] == pre[0] && IsSpace(pre[0]);
      assert (pre + s)[1..] == pre[1..] + s;
      TrimLeftSpaces(pre[1..], s);
    } else {
      assert pre + s == s;
    }
  }

  /** Trailing whitespace is dropped. */
  lemma {:induction false} TrimRightSpaces(s: string, post: string)
    requires AllSpace(post)
    ensures TrimRight(s + post) == TrimRight(s)
  {
    if post != [] {
      assert (s + post)[|s + post| - 1] == post[|post| - 1] && IsSpace(post[|post| - 1]);
      assert (s + post)[..|s + post| - 1] == s + post[..|post| - 1];
      TrimRightSpaces(s, post[..|post| - 1]);
    } else {
      assert s + post == s;
    }
  }

  /**
   * `strip` removes exactly the whitespace around a trimmed core: every string is
   * such a padding of its own `Trim`, so this pins `Trim` down completely.
   */
  lemma TrimPadded(pre: string, core: string, post: string)
    requires AllSpace(pre) && AllSpace(post) && IsTrimmed(core)
    ensures Trim(pre + core + post) == core
  {
    assert pre + core + post == pre + (core + post);
    TrimLeftSpaces(pre, core + post);
    if core == [] {
      assert core + post == post;
      TrimLeftSpaces(post, []);
      assert post + [] == post;
    } else {
      assert TrimLeft(core + post) == core + post;
    }
    TrimRightSpaces(core, post);
  }

  /** Stripping introduces no character: one absent from `s` is absent from `Trim(s)`. */
  lemma {:induction false} TrimLeftAbsent(s: string, c: char)
    requires c !in s
    ensures c !in TrimLeft(s)
  {
    if s != [] && IsSpace(s[0]) {
      TrimLeftAbsent(s[1..], c);
    }
  }

  lemma TrimAbsent(s: string, c: char)
    requires c !in s
    ensures c !in Trim(s)
  {
    TrimLeftAbsent(s, c);
  }

  /** Stripping twice is stripping once. */
  lemma TrimIdempotent(s: string)
    ensures Trim(Trim(s)) == Trim(s)
  {
    var t := Trim(s);
    assert t == [] + t + [];
    TrimPadded([], t, []);
  }

  // ---------------------------------------------------------------------------
  // `str.split()` with no argument
  // ---------------------------------------------------------------------------

  /** A piece of `str.split()`: non-empty and free of whitespace. */
  predicate IsToken(t: string) {
    t != [] && forall k :: 0 <= k < |t| ==> !IsSpace(t[k])
  }

  /** Length of the leading run of non-whitespace characters. */
  function WordLen(s: string): (n: nat)
    ensures n <= |s|
    ensures forall k :: 0 <= k < n ==> !IsSpace(s[k])
    ensures n < |s| ==> IsSpace(s[n])
  {
    if s == [] || IsSpace(s[0]) then 0 else 1 + WordLen(s[1..])
  }

  /** `s.split()`: the maximal runs of non-whitespace, in order. */
  function Tokens(s: string): (r: seq<string>)
    ensures forall k :: 0 <= k < |r| ==> IsToken(r[k])
    decreases |s|
  {
    if s == [] then []
    else if IsSpace(s[0]) then Tokens(s[1..])
    else
      var n := WordLen(s);
      [s[..n]] + Tokens(s[n..])
  }

  /** `" ".join(ts)`. */
  function JoinSpaced(ts: seq<string>): string {
    if ts == [] then []
    else if |ts| == 1 then ts[0]
    else ts[0] + " " + JoinSpaced(ts[1..])
  }

  lemma {:induction false} TokensSpaced(t: string, rest: string)
    requires IsToken(t)
    ensures Tokens(t + " " + rest) == [t] + Tokens(rest)
    ensures Tokens(t) == [t]
  {
    var s := t + " " + rest;
    WordLenOfToken(t, " " + rest);
    assert s == t + (" " + rest);
    assert s[..|t|] == t;
    assert s[|t|..] == " " + rest;
    assert (" " + rest)[1..] == rest;
    WordLenOfToken(t, []);
    assert t + [] == t;
    assert t[|t|..] == [];
  }

  lemma {:induction false} WordLenOfToken(t: string, rest: string)
    requires IsToken(t)
    requires rest == [] || IsSpace(rest[0])
    ensures WordLen(t + rest) == |t|
  {
    if |t| > 1 {
      assert (t + rest)[1..] == t[1..] + rest;
      WordLenOfToken(t[1..], rest);
    } else {
      assert (t + rest)[1..] == rest;
    }
  }

  /** Splitting a space-joined list of tokens gives the list back. */
  lemma {:induction false} TokensJoinSpaced(ts: seq<string>)
    requires forall k :: 0 <= k < |ts| ==> IsToken(ts[k])
    ensures Tokens(JoinSpaced(ts)) == ts
  {
    if |ts| == 1 {
      TokensSpaced(ts[0], []);
    } else if |ts| > 1 {
      TokensSpaced(ts[0], JoinSpaced(ts[1..]));
      TokensJoinSpaced(ts[1..]);
    }
  }

  // ---------------------------------------------------------------------------
  // `str.replace(pat, rep)`
  // ---------------------------------------------------------------------------

  /** `s.replace(pat, rep)`: every non-overlapping occurrence, left to right. */
  function ReplaceAll(s: string, pat: string, rep: string): string
    requires pat != []
    decreases |s|
  {
    if s == [] then []
    else if StartsWith(s, pat) then rep + ReplaceAll(s[|pat|..], pat, rep)
    else [s[0]] + ReplaceAll(s[1..], pat, rep)
  }

  /** Replacing a pattern that does not occur changes nothing. */
  lemma {:induction false} ReplaceAbsent(s: string, pat: string, rep: string)
    requires pat != []
    requires forall k: nat :: !OccursAt(s, pat, k)
    ensures ReplaceAll(s, pat, rep) == s
  {
    if s != [] {
      assert !OccursAt(s, pat, 0);
      forall k: nat ensures !OccursAt(s[1..], pat, k) {
        assert !OccursAt(s, pat, k + 1);
        if k + |pat| <= |s| - 1 {
          assert s[1..][k..k + |pat|] == s[k + 1..k + 1 + |pat|];
        }
      }
      ReplaceAbsent(s[1..], pat, rep);
    }
  }

  /** Dropping the first character shifts every occurrence one place left. */
  lemma OccursAfterFirst(s: string, pat: string, k: nat)
    requires s != []
    ensures OccursAt(s[1..], pat, k) <==> OccursAt(s, pat, k + 1)
  {
    if k + |pat| <= |s| - 1 {
      assert s[1..][k..k + |pat|] == s[k + 1..k + 1 + |pat|];
    }
  }

  /** Starting with a pattern is having an occurrence at index 0. */
  lemma StartsWithOccurs(s: string, pat: string)
    ensures StartsWith(s, pat) <==> OccursAt(s, pat, 0)
  {
    if |pat| <= |s| {
      assert s[0..|pat|] == s[..|pat|];
    }
  }

  /** A prefix in which no occurrence of the pattern starts is copied unchanged. */
  lemma {:induction false} ReplaceSkip(x: string, y: string, pat: string, rep: string)
    requires pat != []
    requires forall k :: 0 <= k < |x| ==> !OccursAt(x + y, pat, k)
    ensures ReplaceAll(x + y, pat, rep) == x + ReplaceAll(y, pat, rep)
    decreases |x|
  {
    if x == [] {
      assert x + y == y;
    } else {
      var s := x + y;
      assert !OccursAt(s, pat, 0);
      StartsWithOccurs(s, pat);
      assert s[1..] == x[1..] + y;
      forall k | 0 <= k < |x| - 1 ensures !OccursAt(x[1..] + y, pat, k) {
        OccursAfterFirst(s, pat, k);
      }
      ReplaceSkip(x[1..], y, pat, rep);
      assert ReplaceAll(s, pat, rep) == [s[0]] + ReplaceAll(s[1..], pat, rep);
      assert x == [x[0]] + x[1..] && s[0] == x[0];
    }
  }

  /** A pattern found inside a piece found in `s` is found in `s`. */
  lemma ContainsTransitive(s: string, t: string, u: string)
    requires Contains(s, t) && Contains(t, u)
    ensures Contains(s, u)
  {
    var i: nat :| OccursAt(s, t, i);
    var j: nat :| OccursAt(t, u, j);
    forall m | 0 <= m < |u| ensures s[i + j + m] == u[m] {
      assert u[m] == t[j..j + |u|][m] == t[j + m];
      assert t[j + m] == s[i..i + |t|][j + m];
    }
    assert s[i + j..i + j + |u|] == u;
    assert OccursAt(s, u, i + j);
  }

  /** In `a + [c] + b` with `c` absent from `a`, the first `c` is the one after `a`. */
  lemma FirstOccurrence(a: string, b: string, c: char)
    requires c !in a
    ensures FindFrom(a + [c] + b, [c], 0) == Some(|a|)
  {
    var s := a + [c] + b;
    assert s[|a|..|a| + 1] == [c];
    forall j | 0 <= j < |a| ensures !OccursAt(s, [c], j) {
      assert s[j..j + 1] == [a[j]];
      assert a[j] in a;
    }
    FindFromIs(s, [c], 0, |a|);
  }

  /**
   * Strings that share a prefix and then differ before the first `c` differ:
   * the first `c` after the prefix ends a different piece.
   */
  lemma PiecesDistinct(p: string, a1: string, b1: string, a2: string, b2: string, c: char)
    requires c !in a1 && c !in a2 && a1 != a2
    ensures p + a1 + [c] + b1 != p + a2 + [c] + b2
  {
    var r1, r2 := a1 + [c] + b1, a2 + [c] + b2;
    FirstOccurrence(a1, b1, c);
    FirstOccurrence(a2, b2, c);
    assert p + a1 + [c] + b1 == p + r1 && (p + r1)[|p|..] == r1;
    assert p + a2 + [c] + b2 == p + r2 && (p + r2)[|p|..] == r2;
    assert r1[..|a1|] == a1 && r2[..|a2|] == a2;
  }

  /** Leading whitespace is dropped by `str.split()`. */
  lemma TokensAfterSpace(s: string)
    ensures Tokens(" " + s) == Tokens(s)
  {
    assert (" " + s)[1..] == s;
  }

  /** Replacing one character by one character keeps every other character in place. */
  lemma {:induction false} ReplaceCharAt(s: string, a: char, b: char, k: nat)
    requires k < |s|
    ensures |ReplaceAll(s, [a], [b])| == |s|
    ensures ReplaceAll(s, [a], [b])[k] == if s[k] == a then b else s[k]
  {
    if k > 0 {
      ReplaceCharAt(s[1..], a, b, k - 1);
    } else if |s| > 1 {
      ReplaceCharAt(s[1..], a, b, 0);
    } else {
      assert s[1..] == [];
    }
  }

  /** A one-character replacement keeps the length. */
  lemma ReplaceCharLength(s: string, a: char, b: char)
    ensures |ReplaceAll(s, [a], [b])| == |s|
  {
    if s != [] {
      ReplaceCharAt(s, a, b, 0);
    }
  }

  /** A one-character replacement maps the string character by character. */
  lemma ReplaceCharEach(s: string, a: char, b: char)
    ensures |ReplaceAll(s, [a], [b])| == |s| &&
      forall k :: 0 <= k < |s| ==> ReplaceAll(s, [a], [b])[k] == if s[k] == a then b else s[k]
  {
    if s != [] {
      ReplaceCharAt(s, a, b, 0);
      forall k | 0 <= k < |s| ensures ReplaceAll(s, [a], [b])[k] == if s[k] == a then b else s[k] {
        ReplaceCharAt(s, a, b, k);
      }
    }
  }

  /** Replacing a character and then replacing it back restores a string free of the substitute. */
  lemma ReplaceCharBack(s: string, a: char, b: char)
    requires forall k :: 0 <= k < |s| ==> s[k] != b
    ensures ReplaceAll(ReplaceAll(s, [a], [b]), [b], [a]) == s
  {
    var t := ReplaceAll(s, [a], [b]);
    ReplaceCharEach(s, a, b);
    ReplaceCharEach(t, b, a);
  }

  /** A one-character pattern is replaced piecewise across a concatenation. */
  lemma {:induction false} ReplaceCharAppend(x: string, y: string, a: char, rep: string)
    ensures ReplaceAll(x + y, [a], rep) == ReplaceAll(x, [a], rep) + ReplaceAll(y, [a], rep)
  {
    if x != [] {
      assert (x + y)[1..] == x[1..] + y;
      ReplaceCharAppend(x[1..], y, a, rep);
    } else {
      assert x + y == y;
    }
  }

  // ---------------------------------------------------------------------------
  // `re.split(r'[^\w]+', s)[0]`
  // ---------------------------------------------------------------------------

  /** The maximal leading run of word characters (empty when `s` starts with another). */
  function LeadingWord(s: string): (r: string)
    ensures StartsWith(s, r)
    ensures forall k :: 0 <= k < |r| ==> IsWordChar(r[k])
    ensures |r| < |s| ==> !IsWordChar(s[|r|])
  {
    if s == [] || !IsWordChar(s[0]) then [] else [s[0]] + LeadingWord(s[1..])
  }

  /** `LeadingWord` is the only prefix that is all word characters and cannot be extended. */
  lemma {:induction false} LeadingWordUnique(s: string, w: string)
    requires StartsWith(s, w)
    requires forall k :: 0 <= k < |w| ==> IsWordChar(w[k])
    requires |w| < |s| ==> !IsWordChar(s[|w|])
    ensures LeadingWord(s) == w
  {
    if w != [] {
      assert s[0] == w[0];
      LeadingWordUnique(s[1..], w[1..]);
      assert w == [w[0]] + w[1..];
    }
  }

  // ---------------------------------------------------------------------------
  // `str(n)` and `str.title()`
  // ---------------------------------------------------------------------------

  /** Value of a string of decimal digits. */
  function DigitsValue(s: string): nat
    requires forall k :: 0 <= k < |s| ==> IsDigit(s[k])
  {
    if s == [] then 0 else 10 * DigitsValue(s[..|s| - 1]) + DigitValue(s[|s| - 1])
  }

  /** `str(n)` for a non-negative integer. */
  function NatToString(n: nat): (r: string)
    ensures r != [] && forall k :: 0 <= k < |r| ==> IsDigit(r[k])
    ensures r[0] == '0' ==> n == 0
  {
    if n < 10 then [DigitChar(n)] else NatToString(n / 10) + [DigitChar(n % 10)]
  }

  /** Reading back the decimal rendering gives the number. */
  lemma {:induction false} NatToStringValue(n: nat)
    ensures DigitsValue(NatToString(n)) == n
  {
    if n >= 10 {
      var s := NatToString(n);
      assert s[..|s| - 1] == NatToString(n / 10);
      NatToStringValue(n / 10);
    }
  }

  /**
   * `s.title()`: a cased letter becomes upper case when the character before it
   * is not a cased letter, and lower case otherwise.
   */
  function Title(s: string): (r: string)
    ensures |r| == |s|
  {
    seq(|s|, k requires 0 <= k < |s| =>
      if k == 0 || !IsCased(s[k - 1]) then UpperChar(s[k]) else LowerChar(s[k]))
  }

  /** Title-casing introduces no character that has no case. */
  lemma TitleLacks(s: string, d: char)
    requires !IsCased(d) && d !in s
    ensures d !in Title(s)
  {
    forall k | 0 <= k < |s| ensures Title(s)[k] != d {
      assert s[k] in s;
    }
  }
}
