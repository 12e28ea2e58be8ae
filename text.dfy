/**
 * The parts of Python's `str` that the PDF tool's page selection and file naming rely on:
 * isspace(), strip(), lower(), replace(c, ''), split(sep), split(), endswith() and int().
 */
module Text {
  import opened Wrappers

  /** str.isspace() for one character: the whitespace that strip() and split() skip. */
  predicate IsSpace(c: char) {
    || ('\t' <= c <= '\r') || ('\U{1C}' <= c <= ' ') || c == '\U{85}' || c == '\U{A0}'
    || c == '\U{1680}' || ('\U{2000}' <= c <= '\U{200A}') || c == '\U{2028}' || c == '\U{2029}'
    || c == '\U{202F}' || c == '\U{205F}' || c == '\U{3000}'
  }

  predicate NotSpace(c: char) {
    !IsSpace(c)
  }

  /** The digits `\d` and int() accept here (ASCII only, see README). */
  predicate IsDigit(c: char) {
    '0' <= c <= '9'
  }

  predicate AllDigits(s: string) {
    forall c | c in s :: IsDigit(c)
  }

  function LowerChar(c: char): char {
    if 'A' <= c <= 'Z' then (c as int + 32) as char else c
  }

  /** str.lower(), as far as the tool's comparisons can tell (see README). */
  function Lower(s: string): (r: string) {
    seq(|s|, i requires 0 <= i < |s| => LowerChar(s[i]))
  }

  /** lower() changes only the letters A to Z: every other character stays where it was. */
  lemma LowerKeeps(s: string, i: nat)
    requires i < |s|
    ensures |Lower(s)| == |s|
    ensures 'A' <= s[i] <= 'Z' || Lower(s)[i] == s[i]
  {
  }

  /** str.lstrip(): the suffix left after dropping leading whitespace. */
  function StripLeft(s: string): (r: string)
    ensures |r| <= |s| && r == s[|s| - |r|..]
    ensures forall i :: 0 <= i < |s| - |r| ==> IsSpace(s[i])
    ensures r == [] || !IsSpace(r[0])
  {
    if s != [] && IsSpace(s[0]) then StripLeft(s[1..]) else s
  }

  /** str.rstrip(): the prefix left after dropping trailing whitespace. */
  function StripRight(s: string): (r: string)
    ensures |r| <= |s| && r == s[..|r|]
    ensures forall i :: |r| <= i < |s| ==> IsSpace(s[i])
    ensures r == [] || !IsSpace(r[|r| - 1])
  {
    if s != [] && IsSpace(s[|s| - 1]) then StripRight(s[..|s| - 1]) else s
  }

  /** r is the slice of s that starts at a, and everything of s before or after it is whitespace. */
  predicate StrippedAt(s: string, r: string, a: int) {
    && 0 <= a <= |s| - |r| && r == s[a..a + |r|]
    && (forall i :: 0 <= i < a ==> IsSpace(s[i]))
    && (forall i :: a + |r| <= i < |s| ==> IsSpace(s[i]))
  }

  /** str.strip(): only whitespace is removed, and only at the two ends. */
  function Strip(s: string): (r: string)
    ensures r == [] || (!IsSpace(r[0]) && !IsSpace(r[|r| - 1]))
    ensures forall c :: c in r ==> c in s
    ensures forall c :: c in s ==> c in r || IsSpace(c)
  {
    var l := StripLeft(s);
    var r := StripRight(l);
    StripParts(s, l, r);
    r
  }

  /**
   * strip() returns one contiguous slice of s: whitespace is removed only before and after it.
   * Together with the ends of the result not being whitespace, this determines strip().
   */
  lemma StripSlice(s: string)
    ensures exists a :: StrippedAt(s, Strip(s), a)
  {
    var l := StripLeft(s);
    assert Strip(s) == StripRight(l);
    StripParts(s, l, StripRight(l));
  }

  /** What lstrip() and then rstrip() leave is the stripped slice of s. */
  lemma StripParts(s: string, l: string, r: string)
    requires |l| <= |s| && l == s[|s| - |l|..]
    requires forall i :: 0 <= i < |s| - |l| ==> IsSpace(s[i])
    requires l == [] || !IsSpace(l[0])
    requires |r| <= |l| && r == l[..|r|]
    requires forall i :: |r| <= i < |l| ==> IsSpace(l[i])
    requires r == [] || !IsSpace(r[|r| - 1])
    ensures r == [] || (!IsSpace(r[0]) && !IsSpace(r[|r| - 1]))
    ensures StrippedAt(s, r, |s| - |l|)
    ensures forall c :: c in r ==> c in s
    ensures forall c :: c in s ==> c in r || IsSpace(c)
  {
    var a := |s| - |l|;
    SliceChars(s, a, |s|);
    SliceChars(l, 0, |r|);
    assert r != [] ==> r[0] == l[0];
    assert r == s[a..a + |r|];
    assert forall i :: a + |r| <= i < |s| ==> s[i] == l[i - a];
  }

  /** The characters of s outside s[a..b] are whitespace: the rest are characters of the slice. */
  lemma SliceChars(s: string, a: nat, b: nat)
    requires a <= b <= |s|
    requires forall i :: 0 <= i < a ==> IsSpace(s[i])
    requires forall i :: b <= i < |s| ==> IsSpace(s[i])
    ensures forall c :: c in s[a..b] ==> c in s
    ensures forall c :: c in s ==> c in s[a..b] || IsSpace(c)
  {
    forall c | c in s ensures c in s[a..b] || IsSpace(c) {
      var i :| 0 <= i < |s| && s[i] == c;
      if a <= i < b {
        assert s[a..b][i - a] == c;
      }
    }
  }

  /** Strip leaves a string without whitespace as it is. */
  lemma {:induction false} StripNoSpace(s: string)
    requires forall c :: c in s ==> !IsSpace(c)
    ensures Strip(s) == s
  {
    if s != [] {
      assert s[0] in s;
      assert s[|s| - 1] in s;
    }
  }

  /** str.replace(c, ''): every occurrence of c removed, the other characters kept in order. */
  function RemoveChar(s: string, c: char): (r: string)
    ensures |r| <= |s|
    ensures forall x :: x in r <==> x in s && x != c
    ensures c !in s ==> r == s
  {
    if s == [] then [] else (if s[0] == c then [] else [s[0]]) + RemoveChar(s[1..], c)
  }

  /** Removing a character from a concatenation removes it from both halves. */
  lemma {:induction false} RemoveCharConcat(a: string, b: string, c: char)
    ensures RemoveChar(a + b, c) == RemoveChar(a, c) + RemoveChar(b, c)
  {
    if a != [] {
      assert (a + b)[0] == a[0] && (a + b)[1..] == a[1..] + b;
      RemoveCharConcat(a[1..], b, c);
    } else {
      assert a + b == b;
    }
  }

  /** Removing the spaces of "a b", where a and b hold none, glues a and b together. */
  lemma RemoveSpaceBetween(a: string, b: string)
    requires ' ' !in a && ' ' !in b
    ensures RemoveChar(a + " " + b, ' ') == a + b
  {
    RemoveCharConcat(a + " ", b, ' ');
    RemoveCharConcat(a, " ", ' ');
    assert " "[0] == ' ' && " "[1..] == [];
    assert RemoveChar(" ", ' ') == [];
    assert a + [] == a;
  }

  /** str.split(sep) with an explicit separator: the pieces between separators, empty ones included. */
  function SplitOn(s: string, sep: char): (parts: seq<string>)
    ensures |parts| >= 1
    ensures forall i :: 0 <= i < |parts| ==> sep !in parts[i]
    ensures forall i, x :: 0 <= i < |parts| && x in parts[i] ==> x in s
    ensures sep !in s ==> parts == [s]
  {
    if s == [] then [""]
    else
      var rest := SplitOn(s[1..], sep);
      assert s[0] in s && s == [s[0]] + s[1..];
      if s[0] == sep then [""] + rest else [[s[0]] + rest[0]] + rest[1..]
  }

  /** sep.join(parts): the inverse of SplitOn. */
  function Join(parts: seq<string>, sep: char): string
    requires |parts| >= 1
  {
    if |parts| == 1 then parts[0] else parts[0] + [sep] + Join(parts[1..], sep)
  }

  lemma JoinConsChar(c: char, parts: seq<string>, sep: char)
    requires |parts| >= 1
    ensures Join([[c] + parts[0]] + parts[1..], sep) == [c] + Join(parts, sep)
  {
    var ps := [[c] + parts[0]] + parts[1..];
    assert ps[1..] == parts[1..];
  }

  /** Joining the pieces with the separator gives back the split string. */
  lemma {:induction false} JoinSplitOn(s: string, sep: char)
    ensures Join(SplitOn(s, sep), sep) == s
  {
    if s != [] {
      var rest := SplitOn(s[1..], sep);
      JoinSplitOn(s[1..], sep);
      if s[0] == sep {
        assert ([""] + rest)[1..] == rest;
      } else {
        JoinConsChar(s[0], rest, sep);
      }
    }
  }

  lemma {:induction false} SplitOnAfterPiece(a: string, b: string, sep: char)
    requires sep !in a
    ensures SplitOn(a + [sep] + b, sep) == [a] + SplitOn(b, sep)
  {
    if a == [] {
      assert (a + [sep] + b)[1..] == b;
    } else {
      assert (a + [sep] + b)[1..] == a[1..] + [sep] + b;
      SplitOnAfterPiece(a[1..], b, sep);
      assert [a[0]] + a[1..] == a;
    }
  }

  /** Splitting "a,rest" on ',' gives a followed by the pieces of rest. */
  lemma SplitOnCons(a: string, sep: char, rest: string)
    requires sep !in a
    ensures SplitOn(a + [sep] + rest, sep) == [a] + SplitOn(rest, sep)
  {
    var parts := [a] + SplitOn(rest, sep);
    JoinSplitOn(rest, sep);
    assert parts[1..] == SplitOn(rest, sep);
    assert Join(parts, sep) == a + [sep] + rest;
    SplitOnJoin(parts, sep);
  }

  /** Splitting pieces that hold no separator after joining them gives back the pieces. */
  lemma {:induction false} SplitOnJoin(parts: seq<string>, sep: char)
    requires |parts| >= 1
    requires forall i :: 0 <= i < |parts| ==> sep !in parts[i]
    ensures SplitOn(Join(parts, sep), sep) == parts
  {
    if |parts| > 1 {
      SplitOnJoin(parts[1..], sep);
      SplitOnAfterPiece(parts[0], Join(parts[1..], sep), sep);
    }
  }

  /** Length of the longest prefix of s whose characters all satisfy P. */
  function Span(s: string, P: char -> bool): (n: nat)
    ensures n <= |s|
    ensures forall i :: 0 <= i < n ==> P(s[i])
    ensures n < |s| ==> !P(s[n])
  {
    if s != [] && P(s[0]) then 1 + Span(s[1..], P) else 0
  }

  /**
   * The maximal runs of characters satisfying P, left to right: re.findall of a one-or-more
   * character class, and with P = NotSpace the words of str.split().
   */
  function Runs(s: string, P: char -> bool): (runs: seq<string>)
    ensures forall i :: 0 <= i < |runs| ==> |runs[i]| > 0
    ensures forall i, c :: 0 <= i < |runs| && c in runs[i] ==> P(c)
    decreases |s|
  {
    if s == [] then []
    else if !P(s[0]) then Runs(s[1..], P)
    else
      var n := Span(s, P);
      assert forall c :: c in s[..n] ==> P(c);
      [s[..n]] + Runs(s[n..], P)
  }

  /** What lies around the runs: before the first, between consecutive ones, after the last. */
  function Gaps(s: string, P: char -> bool): (gaps: seq<string>)
    ensures |gaps| == |Runs(s, P)| + 1
    decreases |s|
  {
    if s == [] then [""]
    else if !P(s[0]) then
      var g := Gaps(s[1..], P);
      [[s[0]] + g[0]] + g[1..]
    else [""] + Gaps(s[Span(s, P)..], P)
  }

  /** gaps[0] + runs[0] + gaps[1] + ... + runs[k-1] + gaps[k]. */
  function Weave(gaps: seq<string>, runs: seq<string>): string
    requires |gaps| == |runs| + 1
  {
    if runs == [] then gaps[0] else gaps[0] + runs[0] + Weave(gaps[1..], runs[1..])
  }

  /**
   * The runs are maximal: s is rebuilt from its runs and the gaps around them, no gap holds a
   * character satisfying P, and every gap between two runs is non-empty.
   */
  lemma RunsDecompose(s: string, P: char -> bool)
    ensures Weave(Gaps(s, P), Runs(s, P)) == s
    ensures forall i, c :: 0 <= i < |Gaps(s, P)| && c in Gaps(s, P)[i] ==> !P(c)
    ensures forall i :: 0 < i < |Runs(s, P)| ==> |Gaps(s, P)[i]| > 0
  {
    WeaveRuns(s, P);
    GapsHoldNoRunChar(s, P);
    InnerGapsNonEmpty(s, P);
  }

  lemma {:induction false} WeaveRuns(s: string, P: char -> bool)
    ensures Weave(Gaps(s, P), Runs(s, P)) == s
    decreases |s|
  {
    if s == [] {
    } else if !P(s[0]) {
      WeaveRuns(s[1..], P);
      WeaveConsChar(s[0], Gaps(s[1..], P), Runs(s[1..], P));
      assert s == [s[0]] + s[1..];
    } else {
      var n := Span(s, P);
      WeaveRuns(s[n..], P);
      WeaveConsRun(s[..n], Gaps(s[n..], P), Runs(s[n..], P));
      assert s[..n] + s[n..] == s;
    }
  }

  lemma WeaveConsChar(c: char, gaps: seq<string>, runs: seq<string>)
    requires |gaps| == |runs| + 1
    ensures Weave([[c] + gaps[0]] + gaps[1..], runs) == [c] + Weave(gaps, runs)
  {
    var g := [[c] + gaps[0]] + gaps[1..];
    assert g[1..] == gaps[1..];
  }

  lemma WeaveConsRun(run: string, gaps: seq<string>, runs: seq<string>)
    requires |gaps| == |runs| + 1
    ensures Weave([""] + gaps, [run] + runs) == run + Weave(gaps, runs)
  {
    var g, r := [""] + gaps, [run] + runs;
    assert g[1..] == gaps && r[1..] == runs;
    assert Weave(g, r) == g[0] + r[0] + Weave(gaps, runs);
    assert g[0] + r[0] == run;
  }

  lemma {:induction false} GapsHoldNoRunChar(s: string, P: char -> bool)
    ensures forall i, c :: 0 <= i < |Gaps(s, P)| && c in Gaps(s, P)[i] ==> !P(c)
    decreases |s|
  {
    if s == [] {
    } else if !P(s[0]) {
      var g := Gaps(s[1..], P);
      GapsHoldNoRunChar(s[1..], P);
      var g' := [[s[0]] + g[0]] + g[1..];
      forall i, c | 0 <= i < |g'| && c in g'[i] ensures !P(c) {
        if i == 0 {
          assert c == s[0] || c in g[0];
        } else {
          assert g'[i] == g[i];
        }
      }
    } else {
      var rest := s[Span(s, P)..];
      GapsHoldNoRunChar(rest, P);
      var g := [""] + Gaps(rest, P);
      forall i, c | 0 <= i < |g| && c in g[i] ensures !P(c) {
        assert i > 0 && g[i] == Gaps(rest, P)[i - 1];
      }
    }
  }

  lemma {:induction false} InnerGapsNonEmpty(s: string, P: char -> bool)
    ensures forall i :: 0 < i < |Runs(s, P)| ==> |Gaps(s, P)[i]| > 0
    decreases |s|
  {
    if s == [] {
    } else if !P(s[0]) {
      var g := Gaps(s[1..], P);
      InnerGapsNonEmpty(s[1..], P);
      var g' := [[s[0]] + g[0]] + g[1..];
      assert forall i :: 0 < i < |g| ==> g'[i] == g[i];
    } else {
      var n := Span(s, P);
      var rest := s[n..];
      InnerGapsNonEmpty(rest, P);
      var g := [""] + Gaps(rest, P);
      var runs := [s[..n]] + Runs(rest, P);
      forall i | 0 < i < |runs| ensures |g[i]| > 0 {
        assert g[i] == Gaps(rest, P)[i - 1];
        if i == 1 {
          assert rest != [] && !P(rest[0]);
          assert Gaps(rest, P)[0][0] == rest[0];
        }
      }
    }
  }

  /** Runs of the concatenation of a stretch without P characters and s are the runs of s. */
  lemma {:induction false} RunsAfterGap(g: string, s: string, P: char -> bool)
    requires forall c :: c in g ==> !P(c)
    ensures Runs(g + s, P) == Runs(s, P)
  {
    if g != [] {
      assert g[0] in g;
      assert (g + s)[0] == g[0] && !P((g + s)[0]);
      assert (g + s)[1..] == g[1..] + s;
      RunsAfterGap(g[1..], s, P);
      assert Runs(g + s, P) == Runs((g + s)[1..], P);
    } else {
      assert g + s == s;
    }
  }

  /** A non-empty stretch of P characters between two stretches without any is the only run. */
  lemma SingleRun(g1: string, run: string, g2: string, P: char -> bool)
    requires forall c :: c in g1 ==> !P(c)
    requires run != [] && forall c :: c in run ==> P(c)
    requires forall c :: c in g2 ==> !P(c)
    ensures Runs(g1 + run + g2, P) == [run]
  {
    assert g1 + run + g2 == g1 + (run + g2);
    RunsAfterGap(g1, run + g2, P);
    var s := run + g2;
    assert s[0] == run[0] && run[0] in run;
    SpanOfRun(run, g2, P);
    assert s[..|run|] == run && s[|run|..] == g2;
    RunsAfterGap(g2, [], P);
    assert g2 + [] == g2;
  }

  lemma {:induction false} SpanOfRun(run: string, g: string, P: char -> bool)
    requires forall c :: c in run ==> P(c)
    requires g == [] || !P(g[0])
    ensures Span(run + g, P) == |run|
  {
    if run != [] {
      assert run[0] in run;
      assert (run + g)[1..] == run[1..] + g;
      SpanOfRun(run[1..], g, P);
    }
  }

  /** A run followed by a character outside P (or by nothing) is the first run. */
  lemma RunsConsRun(run: string, rest: string, P: char -> bool)
    requires run != [] && forall c :: c in run ==> P(c)
    requires rest == [] || !P(rest[0])
    ensures Runs(run + rest, P) == [run] + Runs(rest, P)
  {
    var s := run + rest;
    assert s[0] == run[0] && run[0] in run;
    SpanOfRun(run, rest, P);
    assert s[..|run|] == run && s[|run|..] == rest;
  }

  /** Two runs need a character outside P between them. */
  lemma TwoRunsHaveGap(s: string, P: char -> bool)
    requires |Runs(s, P)| >= 2
    ensures exists i :: 0 <= i < |s| && !P(s[i])
  {
    if s != [] && P(s[0]) {
      var n := Span(s, P);
      assert Runs(s[n..], P) != [];
      assert !P(s[n]);
    }
  }

  /** The whitespace-separated words of str.split() with no argument. */
  function Words(s: string): (words: seq<string>)
    ensures forall i :: 0 <= i < |words| ==> words[i] != [] && forall c :: c in words[i] ==> !IsSpace(c)
  {
    var words := Runs(s, NotSpace);
    forall i, c | 0 <= i < |words| && c in words[i] ensures !IsSpace(c) {
      assert NotSpace(c);
    }
    words
  }

  /** A character lies in some run exactly when it is a character of s satisfying P. */
  lemma RunsCover(s: string, P: char -> bool, c: char)
    ensures (exists i :: 0 <= i < |Runs(s, P)| && c in Runs(s, P)[i]) <==> c in s && P(c)
  {
    if exists i :: 0 <= i < |Runs(s, P)| && c in Runs(s, P)[i] {
      var i :| 0 <= i < |Runs(s, P)| && c in Runs(s, P)[i];
      RunCharsInString(s, P, i, c);
    }
    if c in s && P(c) {
      StringCharsInRuns(s, P, c);
    }
  }

  lemma {:induction false} RunCharsInString(s: string, P: char -> bool, i: nat, c: char)
    requires i < |Runs(s, P)| && c in Runs(s, P)[i]
    ensures c in s && P(c)
    decreases |s|
  {
    var runs := Runs(s, P);
    if !P(s[0]) {
      assert runs == Runs(s[1..], P);
      RunCharsInString(s[1..], P, i, c);
    } else {
      var n := Span(s, P);
      var rest := Runs(s[n..], P);
      assert runs == [s[..n]] + rest;
      if i > 0 {
        assert runs[i] == rest[i - 1];
        RunCharsInString(s[n..], P, i - 1, c);
      }
    }
  }

  lemma {:induction false} StringCharsInRuns(s: string, P: char -> bool, c: char)
    requires c in s && P(c)
    ensures exists i :: 0 <= i < |Runs(s, P)| && c in Runs(s, P)[i]
    decreases |s|
  {
    var runs := Runs(s, P);
    if !P(s[0]) {
      assert runs == Runs(s[1..], P);
      assert c != s[0];
      assert s == [s[0]] + s[1..];
      StringCharsInRuns(s[1..], P, c);
    } else {
      var n := Span(s, P);
      var rest := Runs(s[n..], P);
      assert runs == [s[..n]] + rest;
      assert s == s[..n] + s[n..];
      if c in s[..n] {
        assert c in runs[0];
      } else {
        StringCharsInRuns(s[n..], P, c);
        var j :| 0 <= j < |rest| && c in rest[j];
        assert runs[j + 1] == rest[j];
      }
    }
  }

  /** Every character of a two-word line is whitespace or a character of one of the words. */
  lemma TwoWordsChars(s: string, c: char)
    requires |Words(s)| == 2 && c in s
    ensures IsSpace(c) || c in Words(s)[0] || c in Words(s)[1]
  {
    assert Words(s) == Runs(s, NotSpace);
    RunsCover(s, NotSpace, c);
  }

  /** The characters of the words of a line are characters of the line. */
  lemma WordChars(s: string, i: nat, c: char)
    requires i < |Words(s)| && c in Words(s)[i]
    ensures c in s
  {
    assert Words(s) == Runs(s, NotSpace);
    RunsCover(s, NotSpace, c);
  }

  /** "a b".split() is [a, b] for two words without whitespace. */
  lemma TwoWords(a: string, b: string)
    requires a != [] && forall c :: c in a ==> NotSpace(c)
    requires b != [] && forall c :: c in b ==> NotSpace(c)
    ensures Words(a + " " + b) == [a, b]
  {
    assert a + " " + b == a + (" " + b);
    RunsConsRun(a, " " + b, NotSpace);
    RunsAfterGap(" ", b, NotSpace);
    SingleRun("", b, "", NotSpace);
    assert "" + b + "" == b;
  }

  /** str.endswith(suffix). */
  predicate EndsWith(s: string, suffix: string) {
    |suffix| <= |s| && s[|s| - |suffix|..] == suffix
  }

  /** The value of a string of decimal digits. */
  function DecimalValue(s: string): nat
    requires AllDigits(s)
  {
    if s == [] then 0
    else
      assert s[|s| - 1] in s;
      assert forall c :: c in s[..|s| - 1] ==> c in s;
      10 * DecimalValue(s[..|s| - 1]) + (s[|s| - 1] as int - '0' as int)
  }

  /** str(n): the decimal rendering of a natural number, without leading zeros. */
  function Decimal(n: nat): (s: string)
    ensures |s| > 0 && AllDigits(s)
  {
    (if n < 10 then "" else Decimal(n / 10)) + [('0' as int + n % 10) as char]
  }

  lemma {:induction false} DecimalRoundTrip(n: nat)
    ensures DecimalValue(Decimal(n)) == n
  {
    var s := Decimal(n);
    var p := if n < 10 then "" else Decimal(n / 10);
    var d := ('0' as int + n % 10) as char;
    assert s == p + [d];
    assert s[..|s| - 1] == p && s[|s| - 1] == d;
    assert d as int - '0' as int == n % 10;
    if n >= 10 {
      DecimalRoundTrip(n / 10);
    }
    assert DecimalValue(s) == 10 * DecimalValue(p) + n % 10;
  }

  /** The digit part int() accepts: digits, with single underscores between two digits. */
  predicate DigitGroups(t: string) {
    && |t| > 0 && IsDigit(t[0]) && IsDigit(t[|t| - 1])
    && (forall i :: 0 <= i < |t| ==> IsDigit(t[i]) || t[i] == '_')
    && (forall i :: 0 < i < |t| && t[i] == '_' ==> t[i - 1] != '_')
  }

  function Unsigned(t: string): Option<int> {
    if DigitGroups(t) then
      var digits := RemoveChar(t, '_');
      assert AllDigits(digits) by {
        forall c | c in digits ensures IsDigit(c) {
          var i :| 0 <= i < |t| && t[i] == c;
        }
      }
      Some(DecimalValue(digits))
    else None
  }

  /**
   * The whitespace int() skips around a number. int() first turns every non-ASCII whitespace
   * character into a space and passes ASCII characters through unchanged, then skips only
   * " \t\n\v\f\r": so U+001C to U+001F, which str.isspace() accepts, are not skipped.
   */
  predicate IntSpace(c: char) {
    || ('\t' <= c <= '\r') || c == ' ' || c == '\U{85}' || c == '\U{A0}'
    || c == '\U{1680}' || ('\U{2000}' <= c <= '\U{200A}') || c == '\U{2028}' || c == '\U{2029}'
    || c == '\U{202F}' || c == '\U{205F}' || c == '\U{3000}'
  }

  /** int() skips exactly the characters str.isspace() accepts other than U+001C to U+001F. */
  lemma IntSpaceIsSpace(c: char)
    ensures IntSpace(c) <==> IsSpace(c) && !('\U{1C}' <= c <= '\U{1F}')
  {
  }

  /** The suffix left after int() skips its leading whitespace. */
  function IntStripLeft(s: string): (r: string)
    ensures |r| <= |s| && r == s[|s| - |r|..]
    ensures forall i :: 0 <= i < |s| - |r| ==> IntSpace(s[i])
    ensures r == [] || !IntSpace(r[0])
  {
    if s != [] && IntSpace(s[0]) then IntStripLeft(s[1..]) else s
  }

  /** The prefix left after int() skips its trailing whitespace. */
  function IntStripRight(s: string): (r: string)
    ensures |r| <= |s| && r == s[..|r|]
    ensures forall i :: |r| <= i < |s| ==> IntSpace(s[i])
    ensures r == [] || !IntSpace(r[|r| - 1])
  {
    if s != [] && IntSpace(s[|s| - 1]) then IntStripRight(s[..|s| - 1]) else s
  }

  /** The text int() reads as a number: s without the whitespace int() skips at its two ends. */
  function IntStrip(s: string): (r: string)
    ensures r == [] || (!IntSpace(r[0]) && !IntSpace(r[|r| - 1]))
    ensures forall c :: c in r ==> c in s
    ensures forall c :: c in s ==> c in r || IntSpace(c)
  {
    var l := IntStripLeft(s);
    var r := IntStripRight(l);
    IntStripParts(s, l, r);
    r
  }

  /** What int() leaves after skipping whitespace on the left and then on the right. */
  lemma IntStripParts(s: string, l: string, r: string)
    requires |l| <= |s| && l == s[|s| - |l|..]
    requires forall i :: 0 <= i < |s| - |l| ==> IntSpace(s[i])
    requires l == [] || !IntSpace(l[0])
    requires |r| <= |l| && r == l[..|r|]
    requires forall i :: |r| <= i < |l| ==> IntSpace(l[i])
    requires r == [] || !IntSpace(r[|r| - 1])
    ensures r == [] || (!IntSpace(r[0]) && !IntSpace(r[|r| - 1]))
    ensures forall c :: c in r ==> c in s
    ensures forall c :: c in s ==> c in r || IntSpace(c)
  {
    var a := |s| - |l|;
    assert r != [] ==> r[0] == l[0];
    assert r == s[a..a + |r|];
    forall c | c in s ensures c in r || IntSpace(c) {
      var i :| 0 <= i < |s| && s[i] == c;
      if a <= i < a + |r| {
        assert r[i - a] == c;
      } else if a + |r| <= i {
        assert s[i] == l[i - a];
      }
    }
  }

  /** int() skips nothing around a string that holds none of its whitespace. */
  lemma {:induction false} IntStripNoSpace(s: string)
    requires forall c :: c in s ==> !IntSpace(c)
    ensures IntStrip(s) == s
  {
    if s != [] {
      assert !IntSpace(s[0]) by {
        assert s[0] in s;
      }
      assert IntStripLeft(s) == s;
      assert !IntSpace(s[|s| - 1]) by {
        assert s[|s| - 1] in s;
      }
      assert IntStripRight(s) == s;
    }
  }

  /**
   * int(s) in base 10: surrounding whitespace, an optional sign, then Unsigned; anything else
   * raises ValueError, modelled as None.
   */
  function ParseInt(s: string): Option<int> {
    var t := IntStrip(s);
    if t != [] && t[0] == '-' then
      match Unsigned(t[1..])
      case Some(v) => Some(-v)
      case None => None
    else if t != [] && t[0] == '+' then Unsigned(t[1..])
    else Unsigned(t)
  }

  /** int() of a non-empty string of digits is its decimal value. */
  lemma ParseIntDigits(s: string)
    requires s != [] && AllDigits(s)
    ensures ParseInt(s) == Some(DecimalValue(s))
  {
    forall c | c in s ensures !IntSpace(c) {
      assert IsDigit(c);
    }
    IntStripNoSpace(s);
    assert s[0] in s && s[|s| - 1] in s;
    assert DigitGroups(s) by {
      forall i | 0 <= i < |s| ensures IsDigit(s[i]) {
        assert s[i] in s;
      }
    }
    assert '_' !in s;
    assert Unsigned(s) == Some(DecimalValue(s));
  }

  /** int(str(n)) == n. */
  lemma ParseIntDecimal(n: nat)
    ensures ParseInt(Decimal(n)) == Some(n)
  {
    ParseIntDigits(Decimal(n));
    DecimalRoundTrip(n);
  }

  /** int() accepts nothing but digits, signs, underscores and the whitespace it skips. */
  lemma ParseIntCharset(s: string, c: char)
    requires ParseInt(s).Some? && c in s
    ensures IsDigit(c) || c == '+' || c == '-' || c == '_' || IntSpace(c)
  {
    var t := IntStrip(s);
    if !IntSpace(c) {
      assert c in t;
      var i :| 0 <= i < |t| && t[i] == c;
      if i > 0 && (t[0] == '-' || t[0] == '+') {
        assert t[1..][i - 1] == c;
      }
    }
  }

  /** A minus sign anywhere in a string int() accepts makes the value non-positive. */
  lemma ParseIntMinus(s: string)
    requires ParseInt(s).Some? && '-' in s
    ensures ParseInt(s).value <= 0
  {
    assert !IntSpace('-');
    var t := IntStrip(s);
    assert '-' in t;
    MinusOnlyAsSign(s);
  }

  /** In a string int() accepts, a minus sign can only be the sign itself. */
  lemma MinusOnlyAsSign(s: string)
    requires ParseInt(s).Some?
    ensures var t := IntStrip(s); '-' in t ==> t[0] == '-'
  {
    var t := IntStrip(s);
    if t != [] && t[0] == '+' {
      DigitGroupsNoMinus(t[1..]);
      assert t == [t[0]] + t[1..];
    } else if t == [] || t[0] != '-' {
      DigitGroupsNoMinus(t);
    }
  }

  lemma DigitGroupsNoMinus(t: string)
    requires DigitGroups(t)
    ensures '-' !in t
  {
    forall i | 0 <= i < |t| ensures t[i] != '-' {
    }
  }

  /** A whitespace character int() does skip, such as a tab, in front of digits leaves their value. */
  lemma LeadingSpaceSkipped(c: char, digits: string)
    requires IntSpace(c) && digits != [] && AllDigits(digits)
    ensures ParseInt([c] + digits) == Some(DecimalValue(digits))
  {
    assert IsDigit(digits[0]) by {
      assert digits[0] in digits;
    }
    IntStripLeftDigits(c, digits);
    ParseIntDigits(digits);
  }

  /** int() skips a leading whitespace character of its own in front of a digit. */
  lemma IntStripLeftDigits(c: char, digits: string)
    requires IntSpace(c) && digits != [] && IsDigit(digits[0])
    ensures ParseInt([c] + digits) == ParseInt(digits)
  {
    var u := [c] + digits;
    assert u[1..] == digits;
    assert IntStripLeft(u) == digits;
    assert IntStrip(u) == IntStrip(digits);
  }

  /**
   * U+001C to U+001F are whitespace to strip() and split() but not to int(): int() refuses such
   * a character in front of digits.
   */
  lemma SeparatorNotSkipped(c: char, digits: string)
    requires '\U{1C}' <= c <= '\U{1F}' && digits != [] && AllDigits(digits)
    ensures IsSpace(c)
    ensures ParseInt([c] + digits) == None
  {
    SeparatorKept(c, digits);
  }

  /** int() skips no U+001C to U+001F in front of digits: the number text starts with it. */
  lemma SeparatorKept(c: char, digits: string)
    requires '\U{1C}' <= c <= '\U{1F}' && AllDigits(digits)
    ensures IntStrip([c] + digits)[0] == c
  {
    var s := [c] + digits;
    assert IntStripLeft(s) == s;
    if digits != [] {
      assert IsDigit(digits[|digits| - 1]) by {
        assert digits[|digits| - 1] in digits;
      }
      assert s[|s| - 1] == digits[|digits| - 1];
    }
    assert IntStripRight(s) == s;
  }
}
