/**
 * The page-rewrite part of PDFEditor.delete_pages_interactive and
 * PDFEditor.extract_pages_interactive, and the output-name rule shared with the merge.
 *
 * A document is the sequence of its pages, of an opaque page type P. The console lines the
 * tool reads (already returned by input()) are parameters; each goes through strip() as in the
 * source.
 */
module Rewrite {
  import opened Text
  import opened PageSets
  import opened PageParser
  import opened Selection

  /** How one command ends: one of the early returns, or the pages written to the named file. */
  datatype Outcome<P> =
    | NothingSelected
    | AllPagesSelected
    | NoPdfFiles
    | Cancelled
    | Saved(fileName: string, pages: seq<P>)

  /** `if not name.endswith('.pdf'): name += '.pdf'` (a case-sensitive test). */
  function WithPdfSuffix(name: string): (r: string)
    ensures EndsWith(r, ".pdf")
    ensures EndsWith(name, ".pdf") ==> r == name
    ensures !EndsWith(name, ".pdf") ==> r == name + ".pdf"
  {
    if EndsWith(name, ".pdf") then name
    else
      var r := name + ".pdf";
      assert r[|r| - 4..] == ".pdf";
      r
  }

  /** Appending the suffix a second time changes nothing. */
  lemma WithPdfSuffixIdempotent(name: string)
    ensures WithPdfSuffix(WithPdfSuffix(name)) == WithPdfSuffix(name)
  {
  }

  /** The output name: the stripped line, or the default when it is blank, with ".pdf" ensured. */
  function OutputName(line: string, default: string): (name: string)
    ensures EndsWith(name, ".pdf")
  {
    var typed := Strip(line);
    WithPdfSuffix(if typed == [] then default else typed)
  }

  /** A blank line takes the default; a typed name is kept, and extended only when it lacks ".pdf". */
  lemma OutputNameCases(line: string, default: string)
    ensures Strip(line) == [] ==> OutputName(line, default) == WithPdfSuffix(default)
    ensures Strip(line) != [] ==> OutputName(line, default) == WithPdfSuffix(Strip(line))
    ensures Strip(line) != [] ==>
      OutputName(line, default)[..|Strip(line)|] == Strip(line) &&
      |OutputName(line, default)| <= |Strip(line)| + 4
    ensures EndsWith(Strip(line), ".pdf") ==> OutputName(line, default) == Strip(line)
  {
  }

  /** "report.PDF" is not recognised: the test is case-sensitive, so ".pdf" is appended. */
  lemma UpperCaseSuffixExtended()
    ensures WithPdfSuffix("report.PDF") == "report.PDF.pdf"
  {
    assert "report.PDF"[6..] == ".PDF";
  }

  /** `input(...).strip().lower() == 'y'`: the only answer that goes ahead. */
  predicate Confirms(line: string) {
    Lower(Strip(line)) == "y"
  }

  /** [pages[p - 1] for p in selection]: the pages at the selected 1-based positions, in selection order. */
  function PickPages<P>(doc: seq<P>, selection: seq<int>): (r: seq<P>)
    requires forall k :: 0 <= k < |selection| ==> 1 <= selection[k] <= |doc|
    ensures |r| == |selection|
    ensures forall k :: 0 <= k < |selection| ==> r[k] == doc[selection[k] - 1]
  {
    if selection == [] then []
    else
      [doc[selection[0] - 1]] + PickPages(doc, selection[1..])
  }

  /** The pages whose 1-based position is not in deleted, in document order. */
  function KeptPages<P>(doc: seq<P>, deleted: set<int>): seq<P> {
    if doc == [] then []
    else
      KeptPages(doc[..|doc| - 1], deleted) + if |doc| in deleted then [] else [doc[|doc| - 1]]
  }

  /** The positions 1..n that are not in deleted, ascending. */
  function Unselected(deleted: set<int>, n: nat): (r: seq<int>)
    ensures StrictlyAscending(r)
    ensures forall p :: p in r <==> 1 <= p <= n && p !in deleted
    ensures forall k :: 0 <= k < |r| ==> 1 <= r[k] <= n
  {
    if n == 0 then []
    else
      var init := Unselected(deleted, n - 1);
      if n in deleted then init
      else
        AppendAbove(init, n);
        init + [n]
  }

  /** Extracting pages listed within a prefix of the document reads them from that prefix. */
  lemma {:induction false} PickPagesPrefix<P>(doc: seq<P>, m: nat, selection: seq<int>)
    requires m <= |doc|
    requires forall k :: 0 <= k < |selection| ==> 1 <= selection[k] <= m
    ensures PickPages(doc[..m], selection) == PickPages(doc, selection)
  {
    if selection != [] {
      PickPagesPrefix(doc, m, selection[1..]);
    }
  }

  /** Appending one position to a selection appends its page to what is picked. */
  lemma {:induction false} PickPagesSnoc<P>(doc: seq<P>, selection: seq<int>, p: int)
    requires forall k :: 0 <= k < |selection| ==> 1 <= selection[k] <= |doc|
    requires 1 <= p <= |doc|
    ensures PickPages(doc, selection + [p]) == PickPages(doc, selection) + [doc[p - 1]]
  {
    if selection != [] {
      assert (selection + [p])[1..] == selection[1..] + [p];
      PickPagesSnoc(doc, selection[1..], p);
    }
  }

  /**
   * Deleting a set of pages is extracting the pages that are not in it: the kept pages are the
   * unselected positions, picked in ascending order.
   */
  lemma {:induction false} DeleteIsExtractComplement<P>(doc: seq<P>, deleted: set<int>)
    ensures KeptPages(doc, deleted) == PickPages(doc, Unselected(deleted, |doc|))
  {
    if doc != [] {
      var n := |doc|;
      var init := doc[..n - 1];
      DeleteIsExtractComplement(init, deleted);
      var before := Unselected(deleted, n - 1);
      var after := Unselected(deleted, n);
      assert forall k :: 0 <= k < |before| ==> before[k] in before;
      PickPagesPrefix(doc, n - 1, before);
      assert init == doc[..n - 1];
      if n in deleted {
        AscendingUnique(after, before);
      } else {
        assert forall i :: 0 <= i < |before| ==> before[i] in before;
        AscendingUnique(after, before + [n]);
        PickPagesSnoc(doc, before, n);
      }
    }
  }

  /** Deleting an ascending selection of k pages of an n-page document keeps n - k pages. */
  lemma KeptPagesCount<P>(doc: seq<P>, selection: seq<int>)
    requires StrictlyAscending(selection)
    requires forall p :: p in selection ==> 1 <= p <= |doc|
    ensures |KeptPages(doc, set p | p in selection)| == |doc| - |selection|
  {
    var deleted := set p | p in selection;
    var kept := Unselected(deleted, |doc|);
    assert forall p :: p in kept <==> 1 <= p <= |doc| && p !in selection;
    DisjointCount(selection, kept, |doc|);
    DeleteIsExtractComplement(doc, deleted);
  }

  /** An ascending selection and the ascending list of the positions it leaves out share out 1..n. */
  lemma {:induction false} DisjointCount(selection: seq<int>, kept: seq<int>, n: nat)
    requires StrictlyAscending(selection) && StrictlyAscending(kept)
    requires forall p :: p in kept <==> 1 <= p <= n && p !in selection
    requires forall p :: p in selection ==> 1 <= p <= n
    ensures |selection| + |kept| == n
  {
    if n > 0 {
      var s' := if n in selection then selection[..|selection| - 1] else selection;
      var k' := if n in selection then kept else kept[..|kept| - 1];
      if n in selection {
        LastIsMax(selection, n);
        assert forall p :: p in s' <==> p in selection && p != n;
      } else {
        assert n in kept;
        LastIsMax(kept, n);
        assert forall p :: p in k' <==> p in kept && p != n;
      }
      forall p | p in s' ensures 1 <= p <= n - 1 {
        assert p in selection && p != n;
      }
      forall p ensures p in k' <==> 1 <= p <= n - 1 && p !in s' {
      }
      DisjointCount(s', k', n - 1);
    } else {
      AscendingPagesCount(selection, 0);
      AscendingPagesCount(kept, 0);
    }
  }

  /** In an ascending list whose largest possible member n is present, n is the last entry. */
  lemma LastIsMax(xs: seq<int>, n: int)
    requires StrictlyAscending(xs) && n in xs
    requires forall p :: p in xs ==> p <= n
    ensures xs[|xs| - 1] == n
    ensures forall p :: p in xs[..|xs| - 1] <==> p in xs && p != n
  {
    var i :| 0 <= i < |xs| && xs[i] == n;
    assert xs[|xs| - 1] in xs;
    assert i == |xs| - 1;
    forall p | p in xs ensures p in xs[..|xs| - 1] || p == n {
      var j :| 0 <= j < |xs| && xs[j] == p;
      if j < |xs| - 1 {
        assert xs[..|xs| - 1][j] == p;
      }
    }
  }

  /** The positions selected for deletion, as the set the source tests membership in. */
  function DeletedSet(selection: seq<int>): set<int> {
    set p | p in selection
  }

  /** How delete_pages_interactive ends for the given document and console lines. */
  function DeleteOutcome<P>(doc: seq<P>, stem: string, pagesLine: string, nameLine: string, confirmLine: string): Outcome<P> {
    var selected := SelectForDelete(Strip(pagesLine), |doc|);
    if selected == [] then NothingSelected
    else if |doc| - |selected| == 0 then AllPagesSelected
    else if !Confirms(confirmLine) then Cancelled
    else Saved(OutputName(nameLine, stem + "_edited.pdf"), KeptPages(doc, DeletedSet(selected)))
  }

  /**
   * The copy loop of delete_pages_interactive: page i + 1 is written exactly when i is not p - 1
   * for a selected p; that is, the unselected pages in document order.
   */
  method WriteKept<P>(doc: seq<P>, pagesToDelete: seq<int>) returns (written: seq<P>)
    ensures written == KeptPages(doc, DeletedSet(pagesToDelete))
    ensures written == PickPages(doc, Unselected(DeletedSet(pagesToDelete), |doc|))
  {
    var deleteIndices := set p | p in pagesToDelete :: p - 1;
    written := [];
    for i := 0 to |doc|
      invariant written == KeptPages(doc[..i], DeletedSet(pagesToDelete))
    {
      assert doc[..i + 1][..i] == doc[..i];
      assert i in deleteIndices <==> i + 1 in DeletedSet(pagesToDelete);
      if i !in deleteIndices {
        written := written + [doc[i]];
      }
    }
    assert doc[..|doc|] == doc;
    DeleteIsExtractComplement(doc, DeletedSet(pagesToDelete));
  }

  /**
   * delete_pages_interactive after the document is read: select, refuse an empty selection,
   * normalise it, refuse to delete every page, ask for the name and the confirmation, then copy
   * the pages that are kept.
   */
  method DeletePages<P>(doc: seq<P>, stem: string, pagesLine: string, nameLine: string, confirmLine: string)
    returns (outcome: Outcome<P>, warnings: seq<Warning>)
    ensures outcome == DeleteOutcome(doc, stem, pagesLine, nameLine, confirmLine)
    ensures warnings == DeleteWarnings(Strip(pagesLine), |doc|)
  {
    var total := |doc|;
    var pagesToDelete;
    pagesToDelete, warnings := ChoosePagesToDelete(Strip(pagesLine), total);
    if pagesToDelete == [] {
      return NothingSelected, warnings;
    }
    SortedDistinctOfAscending(pagesToDelete);
    pagesToDelete := SortedDistinct(pagesToDelete);
    var keepCount := total - |pagesToDelete|;
    if keepCount == 0 {
      return AllPagesSelected, warnings;
    }
    var outputPdf := OutputName(nameLine, stem + "_edited.pdf");
    if !Confirms(confirmLine) {
      return Cancelled, warnings;
    }
    var written := WriteKept(doc, pagesToDelete);
    outcome := Saved(outputPdf, written);
  }

  /**
   * Deletion ends early exactly when nothing is selected or every page is; otherwise, once
   * confirmed, it writes the unselected pages in document order: total - |selection| of them,
   * at least one.
   */
  lemma DeleteOutcomeMeaning<P>(doc: seq<P>, stem: string, pagesLine: string, nameLine: string, confirmLine: string)
    ensures var selected := SelectForDelete(Strip(pagesLine), |doc|);
      var outcome := DeleteOutcome(doc, stem, pagesLine, nameLine, confirmLine);
      && (outcome == NothingSelected <==> selected == [])
      && (outcome == AllPagesSelected <==> |doc| > 0 && forall p :: 1 <= p <= |doc| ==> p in selected)
      && (outcome == Cancelled <==> selected != [] && |selected| < |doc| && !Confirms(confirmLine))
      && (outcome.Saved? <==> selected != [] && |selected| < |doc| && Confirms(confirmLine))
      && (outcome.Saved? ==>
            && outcome.fileName == OutputName(nameLine, stem + "_edited.pdf")
            && outcome.pages == PickPages(doc, Unselected(DeletedSet(selected), |doc|))
            && 1 <= |outcome.pages| == |doc| - |selected|)
  {
    var selected := SelectForDelete(Strip(pagesLine), |doc|);
    AscendingPagesCount(selected, |doc|);
    if |doc| > 0 && forall p :: 1 <= p <= |doc| ==> p in selected {
      assert 1 in selected;
    }
    KeptPagesCount(doc, selected);
    DeleteIsExtractComplement(doc, DeletedSet(selected));
  }

  /** How extract_pages_interactive ends for the given document and console lines. */
  function ExtractOutcome<P>(doc: seq<P>, stem: string, pagesLine: string, nameLine: string, confirmLine: string): Outcome<P> {
    var selected := SelectForExtract(Strip(pagesLine), |doc|);
    InRangeByIndex(selected, |doc|);
    ExtractEnding(doc, selected, OutputName(nameLine, stem + "_extracted.pdf"), Confirms(confirmLine))
  }

  /** How extraction ends once the selection, the output name and the answer are known. */
  function ExtractEnding<P>(doc: seq<P>, selected: seq<int>, fileName: string, confirmed: bool): Outcome<P>
    requires forall k :: 0 <= k < |selected| ==> 1 <= selected[k] <= |doc|
  {
    if selected == [] then NothingSelected
    else if !confirmed then Cancelled
    else Saved(fileName, PickPages(doc, selected))
  }

  /** A list whose members are pages of the document names a page at every index. */
  lemma InRangeByIndex(selected: seq<int>, total: int)
    requires forall p :: p in selected ==> 1 <= p <= total
    ensures forall k :: 0 <= k < |selected| ==> 1 <= selected[k] <= total
  {
    forall k | 0 <= k < |selected| ensures 1 <= selected[k] <= total {
      assert selected[k] in selected;
    }
  }

  /** The copy loop of extract_pages_interactive: page p - 1 (0-based) for each selected p, in order. */
  method WriteSelected<P>(doc: seq<P>, pagesToExtract: seq<int>) returns (written: seq<P>)
    requires forall k :: 0 <= k < |pagesToExtract| ==> 1 <= pagesToExtract[k] <= |doc|
    ensures |written| == |pagesToExtract|
    ensures forall k :: 0 <= k < |written| ==> written[k] == doc[pagesToExtract[k] - 1]
    ensures written == PickPages(doc, pagesToExtract)
  {
    written := [];
    for j := 0 to |pagesToExtract|
      invariant |written| == j
      invariant forall k :: 0 <= k < j ==> written[k] == doc[pagesToExtract[k] - 1]
    {
      var pageNum := pagesToExtract[j];
      written := written + [doc[pageNum - 1]];
    }
  }

  /**
   * extract_pages_interactive after the document is read: "all" or parse_page_numbers, refuse an
   * empty selection, ask for the name and the confirmation, then copy the selected pages.
   */
  method ExtractPages<P>(doc: seq<P>, stem: string, pagesLine: string, nameLine: string, confirmLine: string)
    returns (outcome: Outcome<P>, warnings: seq<Warning>)
    ensures outcome == ExtractOutcome(doc, stem, pagesLine, nameLine, confirmLine)
    ensures warnings == if Lower(Strip(pagesLine)) == "all" then [] else Warnings(Tokens(Strip(pagesLine)))
  {
    var total := |doc|;
    var pagesToExtract;
    pagesToExtract, warnings := ChoosePagesToExtract(Strip(pagesLine), total);
    InRangeByIndex(pagesToExtract, total);
    if pagesToExtract == [] {
      return NothingSelected, warnings;
    }
    var outputPdf := OutputName(nameLine, stem + "_extracted.pdf");
    if !Confirms(confirmLine) {
      return Cancelled, warnings;
    }
    var written := WriteSelected(doc, pagesToExtract);
    outcome := Saved(outputPdf, written);
  }

  /** Extracting every page, in order, gives back the document. */
  lemma PickAllPages<P>(doc: seq<P>)
    ensures PickPages(doc, AllPages(|doc|)) == doc
  {
    PickInOrder(doc, AllPages(|doc|));
  }

  /** Picking positions 1, 2, ..., n of an n-page document gives back the document. */
  lemma PickInOrder<P>(doc: seq<P>, selection: seq<int>)
    requires |selection| == |doc|
    requires forall k :: 0 <= k < |selection| ==> selection[k] == k + 1
    ensures PickPages(doc, selection) == doc
  {
    var r := PickPages(doc, selection);
    forall k | 0 <= k < |doc| ensures r[k] == doc[k] {
      assert selection[k] == k + 1;
    }
  }

  /**
   * Extraction ends early exactly when nothing is selected, or when the answer is not "y";
   * otherwise it saves under the typed or default name (ExtractSavedPages says which pages).
   */
  lemma ExtractOutcomeMeaning<P>(doc: seq<P>, stem: string, pagesLine: string, nameLine: string, confirmLine: string)
    ensures var selected := SelectForExtract(Strip(pagesLine), |doc|);
      var outcome := ExtractOutcome(doc, stem, pagesLine, nameLine, confirmLine);
      && (outcome == NothingSelected <==> selected == [])
      && (outcome == Cancelled <==> selected != [] && !Confirms(confirmLine))
      && (outcome.Saved? <==> selected != [] && Confirms(confirmLine))
      && (outcome.Saved? ==> outcome.fileName == OutputName(nameLine, stem + "_extracted.pdf"))
  {
  }

  /** Once confirmed, extraction writes one page per selected number, in selection order. */
  lemma ExtractSavedPages<P>(doc: seq<P>, stem: string, pagesLine: string, nameLine: string, confirmLine: string)
    ensures var selected := SelectForExtract(Strip(pagesLine), |doc|);
      var outcome := ExtractOutcome(doc, stem, pagesLine, nameLine, confirmLine);
      outcome.Saved? ==>
        && |outcome.pages| == |selected|
        && (forall k :: 0 <= k < |selected| ==>
              1 <= selected[k] <= |doc| && outcome.pages[k] == doc[selected[k] - 1])
  {
    var selected := SelectForExtract(Strip(pagesLine), |doc|);
    InRangeByIndex(selected, |doc|);
    var name := OutputName(nameLine, stem + "_extracted.pdf");
    assert ExtractOutcome(doc, stem, pagesLine, nameLine, confirmLine)
      == ExtractEnding(doc, selected, name, Confirms(confirmLine));
    EndingPicks(doc, selected, name, Confirms(confirmLine));
  }

  /** A save by ExtractEnding holds page p - 1 for each selected p, in selection order. */
  lemma EndingPicks<P>(doc: seq<P>, selected: seq<int>, fileName: string, confirmed: bool)
    requires forall k :: 0 <= k < |selected| ==> 1 <= selected[k] <= |doc|
    ensures var outcome := ExtractEnding(doc, selected, fileName, confirmed);
      outcome.Saved? ==>
        && |outcome.pages| == |selected|
        && (forall k :: 0 <= k < |selected| ==> outcome.pages[k] == doc[selected[k] - 1])
  {
  }

  /** Extracting "all" (in any letter case) from a non-empty document, once confirmed, copies it whole. */
  lemma ExtractAllCopiesDocument<P>(doc: seq<P>, stem: string, pagesLine: string, nameLine: string, confirmLine: string)
    requires Lower(Strip(pagesLine)) == "all" && |doc| > 0 && Confirms(confirmLine)
    ensures ExtractOutcome(doc, stem, pagesLine, nameLine, confirmLine)
      == Saved(OutputName(nameLine, stem + "_extracted.pdf"), doc)
  {
    assert SelectForExtract(Strip(pagesLine), |doc|) == AllPages(|doc|);
    PickAllPages(doc);
  }
}
