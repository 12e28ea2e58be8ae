/** PDFEditor.natural_sort_key and the ordering Python puts on the keys it returns. */
module NaturalSort {
  import opened Text

  /** re.findall(r'\d+', name): the maximal runs of digits, left to right. */
  function DigitRuns(name: string): seq<string> {
    Runs(name, IsDigit)
  }

  predicate NoDigits(name: string) {
    forall c | c in name :: !IsDigit(c)
  }

  /** natural_sort_key: the integer of every digit run in order, or [0] when there is none. */
  function NaturalSortKey(name: string): (key: seq<nat>)
    ensures |key| >= 1
  {
    var runs := DigitRuns(name);
    if runs == [] then [0]
    else seq(|runs|, i requires 0 <= i < |runs| => DecimalValue(runs[i]))
  }

  /**
   * The key is the list of digit-run values: the name splits into digit-free gaps and the
   * runs, gaps between two runs are non-empty (the runs are maximal), and the key lists the
   * value of each run, or is [0] exactly when the name holds no digit at all.
   */
  lemma NaturalSortKeyRuns(name: string)
    ensures var runs := DigitRuns(name); var gaps := Gaps(name, IsDigit);
      && name == Weave(gaps, runs)
      && (forall i, c :: 0 <= i < |gaps| && c in gaps[i] ==> !IsDigit(c))
      && (forall i :: 0 < i < |runs| ==> |gaps[i]| > 0)
      && (forall i :: 0 <= i < |runs| ==> |runs[i]| > 0 && AllDigits(runs[i]))
      && (runs == [] <==> NoDigits(name))
      && (runs != [] ==> |NaturalSortKey(name)| == |runs|
                         && forall i :: 0 <= i < |runs| ==> NaturalSortKey(name)[i] == DecimalValue(runs[i]))
      && (runs == [] ==> NaturalSortKey(name) == [0])
  {
    RunsDecompose(name, IsDigit);
    var runs := DigitRuns(name);
    var gaps := Gaps(name, IsDigit);
    if runs == [] {
      assert name == gaps[0];
    } else {
      assert runs[0][0] in runs[0];
      WeaveHoldsRun(gaps, runs);
    }
    if NoDigits(name) {
      RunsAfterGap(name, [], IsDigit);
      assert name + [] == name;
    }
  }

  /** Every run's characters occur in the woven string. */
  lemma {:induction false} WeaveHoldsRun(gaps: seq<string>, runs: seq<string>)
    requires |gaps| == |runs| + 1 && runs != [] && runs[0] != []
    ensures runs[0][0] in Weave(gaps, runs)
  {
    var w := Weave(gaps, runs);
    assert w == gaps[0] + runs[0] + Weave(gaps[1..], runs[1..]);
    assert w[|gaps[0]|] == runs[0][0];
  }

  /** The key is [0] exactly when the name has no digit, or its only digit run is zero-valued. */
  lemma NaturalSortKeyZero(name: string)
    ensures NaturalSortKey(name) == [0] <==>
      NoDigits(name) || (|DigitRuns(name)| == 1 && DecimalValue(DigitRuns(name)[0]) == 0)
  {
    NaturalSortKeyRuns(name);
  }

  /** A name with exactly one number in it, written in decimal, has that number as its key. */
  lemma NumberedNameKey(stem: string, n: nat, ext: string)
    requires NoDigits(stem) && NoDigits(ext)
    ensures NaturalSortKey(stem + Decimal(n) + ext) == [n]
  {
    SingleRun(stem, Decimal(n), ext, IsDigit);
    DecimalRoundTrip(n);
  }

  /** Python's `<` on lists of integers: the first difference decides, a proper prefix is smaller. */
  predicate KeyLess(a: seq<int>, b: seq<int>) {
    if a == [] then b != []
    else if b == [] then false
    else if a[0] != b[0] then a[0] < b[0]
    else KeyLess(a[1..], b[1..])
  }

  /** The comparison written as the language reference states it: find the first index where the lists differ. */
  ghost predicate FirstDifferenceLess(a: seq<int>, b: seq<int>) {
    exists k :: 0 <= k <= |a| && k <= |b| && a[..k] == b[..k] &&
      ((k < |a| && k < |b| && a[k] < b[k]) || (k == |a| && k < |b|))
  }

  lemma {:induction false} KeyLessIsFirstDifference(a: seq<int>, b: seq<int>)
    ensures KeyLess(a, b) <==> FirstDifferenceLess(a, b)
  {
    if a == [] {
      if b != [] {
        assert a[..0] == b[..0];
      }
    } else if b == [] {
    } else if a[0] != b[0] {
      if a[0] < b[0] {
        assert a[..0] == b[..0];
      }
    } else {
      KeyLessIsFirstDifference(a[1..], b[1..]);
      if KeyLess(a, b) {
        var k :| 0 <= k <= |a| - 1 && k <= |b| - 1 && a[1..][..k] == b[1..][..k] &&
          ((k < |a| - 1 && k < |b| - 1 && a[1..][k] < b[1..][k]) || (k == |a| - 1 && k < |b| - 1));
        assert a[..k + 1] == [a[0]] + a[1..][..k];
        assert b[..k + 1] == [b[0]] + b[1..][..k];
      }
      if FirstDifferenceLess(a, b) {
        var k :| 0 <= k <= |a| && k <= |b| && a[..k] == b[..k] &&
          ((k < |a| && k < |b| && a[k] < b[k]) || (k == |a| && k < |b|));
        assert k > 0;
        assert a[1..][..k - 1] == a[..k][1..];
        assert b[1..][..k - 1] == b[..k][1..];
        assert FirstDifferenceLess(a[1..], b[1..]);
      }
    }
  }

  lemma {:induction false} KeyLessIrreflexive(a: seq<int>)
    ensures !KeyLess(a, a)
  {
    if a != [] {
      KeyLessIrreflexive(a[1..]);
    }
  }

  lemma {:induction false} KeyLessTransitive(a: seq<int>, b: seq<int>, c: seq<int>)
    requires KeyLess(a, b) && KeyLess(b, c)
    ensures KeyLess(a, c)
  {
    if a != [] && b != [] && c != [] && a[0] == b[0] && b[0] == c[0] {
      KeyLessTransitive(a[1..], b[1..], c[1..]);
    }
  }

  /** Any two keys are equal or ordered one way round: list comparison is a total order. */
  lemma {:induction false} KeyLessTotal(a: seq<int>, b: seq<int>)
    ensures a == b || KeyLess(a, b) || KeyLess(b, a)
  {
    if a != [] && b != [] && a[0] == b[0] {
      KeyLessTotal(a[1..], b[1..]);
      if a[1..] == b[1..] {
        assert a == [a[0]] + a[1..] && b == [b[0]] + b[1..];
      }
    }
  }

  /**
   * Files named stem + number + ext are ordered by the number, not by its text:
   * "page2.pdf" sorts before "page10.pdf".
   */
  lemma NumberedNamesOrder(stem: string, m: nat, n: nat, ext: string)
    requires NoDigits(stem) && NoDigits(ext)
    ensures KeyLess(NaturalSortKey(stem + Decimal(m) + ext), NaturalSortKey(stem + Decimal(n) + ext)) <==> m < n
  {
    NumberedNameKey(stem, m, ext);
    NumberedNameKey(stem, n, ext);
    assert [m][1..] == [] && [n][1..] == [];
  }

  lemma Page2BeforePage10()
    ensures NaturalSortKey("page2.pdf") == [2] && NaturalSortKey("page10.pdf") == [10]
    ensures KeyLess(NaturalSortKey("page2.pdf"), NaturalSortKey("page10.pdf"))
  {
    assert Decimal(2) == "2";
    assert Decimal(10) == "10";
    assert "page2.pdf" == "page" + Decimal(2) + ".pdf";
    assert "page10.pdf" == "page" + Decimal(10) + ".pdf";
    NumberedNameKey("page", 2, ".pdf");
    NumberedNameKey("page", 10, ".pdf");
  }
}
