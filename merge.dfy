/**
 * The file-selection, ordering and concatenation logic of PDFEditor.merge_pdfs_interactive.
 *
 * A folder is the list of names os.listdir returns, in the order it returns them, and the
 * function giving the pages each file holds (what the merger appends for that name).
 */
module Merge {
  import opened Text
  import opened NaturalSort
  import opened Rewrite

  /** `f.lower().endswith('.pdf')`: unlike the output-name rule, this test ignores letter case. */
  predicate IsPdfName(name: string) {
    EndsWith(Lower(name), ".pdf")
  }

  /** The listing filter: the PDF names, in listing order. */
  function PdfNames(listing: seq<string>): (r: seq<string>)
    ensures forall n :: n in r <==> n in listing && IsPdfName(n)
    ensures |r| <= |listing|
  {
    if listing == [] then []
    else (if IsPdfName(listing[0]) then [listing[0]] else []) + PdfNames(listing[1..])
  }

  /** The filter keeps the listing's order: filtering a listing split in two filters each part. */
  lemma {:induction false} PdfNamesConcat(a: seq<string>, b: seq<string>)
    ensures PdfNames(a + b) == PdfNames(a) + PdfNames(b)
  {
    if a == [] {
      assert a + b == b;
    } else {
      var head := if IsPdfName(a[0]) then [a[0]] else [];
      assert (a + b)[0] == a[0] && (a + b)[1..] == a[1..] + b;
      assert PdfNames(a + b) == head + PdfNames(a[1..] + b);
      PdfNamesConcat(a[1..], b);
      assert PdfNames(a) == head + PdfNames(a[1..]);
      assert head + (PdfNames(a[1..]) + PdfNames(b)) == (head + PdfNames(a[1..])) + PdfNames(b);
    }
  }

  /** The filter keeps every copy of a PDF name the listing holds, and nothing else. */
  lemma {:induction false} PdfNamesCount(listing: seq<string>)
    ensures forall n :: multiset(PdfNames(listing))[n] == if IsPdfName(n) then multiset(listing)[n] else 0
  {
    if listing != [] {
      var head := if IsPdfName(listing[0]) then [listing[0]] else [];
      assert listing == [listing[0]] + listing[1..];
      assert PdfNames(listing) == head + PdfNames(listing[1..]);
      PdfNamesCount(listing[1..]);
    }
  }

  /** A single name is kept exactly when it is a PDF name. */
  lemma PdfNamesSingle(n: string)
    ensures PdfNames([n]) == if IsPdfName(n) then [n] else []
  {
    assert [n][1..] == [];
  }

  /** No name is followed by one whose key is smaller. */
  predicate SortedBy(names: seq<string>, key: string -> seq<nat>) {
    forall i, j :: 0 <= i < j < |names| ==> !KeyLess(key(names[j]), key(names[i]))
  }

  /** Places name after every entry whose key is not larger than its own. */
  function InsertBy(sorted: seq<string>, name: string, key: string -> seq<nat>): (r: seq<string>)
    requires SortedBy(sorted, key)
    ensures SortedBy(r, key)
    ensures multiset(r) == multiset(sorted) + multiset{name}
  {
    if sorted == [] then [name]
    else if KeyLess(key(name), key(sorted[0])) then
      InsertFirst(sorted, name, key);
      [name] + sorted
    else
      var rest := InsertBy(sorted[1..], name, key);
      assert sorted == [sorted[0]] + sorted[1..];
      ConsSorted(sorted, name, rest, key);
      [sorted[0]] + rest
  }

  /** A name whose key is below the first key of a sorted list may go in front of it. */
  lemma InsertFirst(sorted: seq<string>, name: string, key: string -> seq<nat>)
    requires SortedBy(sorted, key) && sorted != []
    requires KeyLess(key(name), key(sorted[0]))
    ensures SortedBy([name] + sorted, key)
  {
    var r := [name] + sorted;
    forall j | 0 <= j < |sorted|
      ensures !KeyLess(key(sorted[j]), key(name))
    {
      if j > 0 && KeyLess(key(sorted[j]), key(name)) {
        KeyLessTransitive(key(sorted[j]), key(name), key(sorted[0]));
      }
      if j == 0 {
        KeyLessAsymmetric(key(name), key(sorted[0]));
      }
    }
    assert forall i :: 1 <= i < |r| ==> r[i] == sorted[i - 1];
  }

  /** The first entry of a sorted list stays first when name, not below it, goes into the rest. */
  lemma ConsSorted(sorted: seq<string>, name: string, rest: seq<string>, key: string -> seq<nat>)
    requires SortedBy(sorted, key) && sorted != []
    requires !KeyLess(key(name), key(sorted[0]))
    requires SortedBy(rest, key)
    requires multiset(rest) == multiset(sorted[1..]) + multiset{name}
    ensures SortedBy([sorted[0]] + rest, key)
  {
    var r := [sorted[0]] + rest;
    forall j | 0 <= j < |rest|
      ensures !KeyLess(key(rest[j]), key(sorted[0]))
    {
      assert rest[j] in multiset(rest);
      if rest[j] != name {
        assert rest[j] in multiset(sorted[1..]);
        var i :| 0 <= i < |sorted[1..]| && sorted[1..][i] == rest[j];
        assert sorted[i + 1] == rest[j];
      }
    }
    assert forall i :: 1 <= i < |r| ==> r[i] == rest[i - 1];
  }

  /** list.sort(key=key): a stable insertion sort, each name placed after the ones before it with an equal key. */
  function SortBy(names: seq<string>, key: string -> seq<nat>): (r: seq<string>)
    ensures SortedBy(r, key)
    ensures multiset(r) == multiset(names)
  {
    if names == [] then []
    else
      var init := names[..|names| - 1];
      assert names == init + [names[|names| - 1]];
      InsertBy(SortBy(init, key), names[|names| - 1], key)
  }

  /** pdf_files.sort(key=natural_sort_key). */
  function SortByKey(names: seq<string>): (r: seq<string>)
    ensures SortedBy(r, NaturalSortKey)
    ensures multiset(r) == multiset(names)
  {
    SortBy(names, NaturalSortKey)
  }

  /** Python's list `<` is asymmetric: two keys are never each smaller than the other. */
  lemma KeyLessAsymmetric(a: seq<int>, b: seq<int>)
    requires KeyLess(a, b)
    ensures !KeyLess(b, a)
  {
    if KeyLess(b, a) {
      KeyLessTransitive(a, b, a);
      KeyLessIrreflexive(a);
    }
  }

  /** The merger's output: the pages of every named file, file after file. */
  function Concatenation<P>(names: seq<string>, pagesOf: string -> seq<P>): seq<P> {
    if names == [] then []
    else Concatenation(names[..|names| - 1], pagesOf) + pagesOf(names[|names| - 1])
  }

  /** Merging two lists of files one after the other is merging their concatenation. */
  lemma {:induction false} ConcatenationAppend<P>(a: seq<string>, b: seq<string>, pagesOf: string -> seq<P>)
    ensures Concatenation(a + b, pagesOf) == Concatenation(a, pagesOf) + Concatenation(b, pagesOf)
  {
    if b != [] {
      var init := b[..|b| - 1];
      assert (a + b)[..|a + b| - 1] == a + init;
      ConcatenationAppend(a, init, pagesOf);
    } else {
      assert a + b == a;
    }
  }

  /**
   * The pages of the i-th file sit, unchanged and in order, right after the pages of the files
   * before it.
   */
  lemma FilePagesInPlace<P>(names: seq<string>, pagesOf: string -> seq<P>, i: nat)
    requires i < |names|
    ensures var start := |Concatenation(names[..i], pagesOf)|;
      var merged := Concatenation(names, pagesOf);
      && start + |pagesOf(names[i])| <= |merged|
      && merged[start..start + |pagesOf(names[i])|] == pagesOf(names[i])
  {
    var before := names[..i];
    var after := names[i + 1..];
    assert names == before + [names[i]] + after;
    ConcatenationAppend(before + [names[i]], after, pagesOf);
    ConcatenationAppend(before, [names[i]], pagesOf);
    assert Concatenation([names[i]], pagesOf) == pagesOf(names[i]) by {
      assert [names[i]][..0] == [];
    }
  }

  /** How merge_pdfs_interactive ends once the folder is listed. */
  function MergeOutcome<P>(listing: seq<string>, pagesOf: string -> seq<P>, nameLine: string, confirmLine: string): Outcome<P> {
    var pdfFiles := PdfNames(listing);
    if pdfFiles == [] then NoPdfFiles
    else if !Confirms(confirmLine) then Cancelled
    else Saved(OutputName(nameLine, "merged_output.pdf"), Concatenation(SortByKey(pdfFiles), pagesOf))
  }

  /**
   * The merge is refused when the folder holds no PDF name; otherwise it is cancelled unless the
   * answer is "y", and saved under the typed name or "merged_output.pdf" when it is.
   */
  lemma MergeOutcomeMeaning<P>(listing: seq<string>, pagesOf: string -> seq<P>, nameLine: string, confirmLine: string)
    ensures var outcome := MergeOutcome(listing, pagesOf, nameLine, confirmLine);
      && (outcome == NoPdfFiles <==> PdfNames(listing) == [])
      && (outcome == Cancelled <==> PdfNames(listing) != [] && !Confirms(confirmLine))
      && (outcome.Saved? <==> PdfNames(listing) != [] && Confirms(confirmLine))
      && (outcome.Saved? ==> outcome.fileName == OutputName(nameLine, "merged_output.pdf"))
  {
  }

  /**
   * merge_pdfs_interactive after the folder is listed: keep the PDF names, refuse an empty
   * list, sort by the natural key, ask for the name and the confirmation, then append every
   * file's pages in that order.
   */
  method MergePdfs<P>(listing: seq<string>, pagesOf: string -> seq<P>, nameLine: string, confirmLine: string)
    returns (outcome: Outcome<P>)
    ensures outcome == MergeOutcome(listing, pagesOf, nameLine, confirmLine)
  {
    var pdfFiles := PdfNames(listing);
    if pdfFiles == [] {
      return NoPdfFiles;
    }
    pdfFiles := SortByKey(pdfFiles);
    var outputName := OutputName(nameLine, "merged_output.pdf");
    if !Confirms(confirmLine) {
      return Cancelled;
    }
    var merged := AppendFiles(pdfFiles, pagesOf);
    outcome := Saved(outputName, merged);
  }

  /** The merger loop: append the pages of each file in turn. */
  method AppendFiles<P>(pdfFiles: seq<string>, pagesOf: string -> seq<P>) returns (merged: seq<P>)
    ensures merged == Concatenation(pdfFiles, pagesOf)
  {
    merged := [];
    for idx := 0 to |pdfFiles|
      invariant merged == Concatenation(pdfFiles[..idx], pagesOf)
    {
      assert pdfFiles[..idx + 1][..idx] == pdfFiles[..idx];
      merged := merged + pagesOf(pdfFiles[idx]);
    }
    assert pdfFiles[..|pdfFiles|] == pdfFiles;
  }

  /** The merge refuses exactly when the folder holds no PDF name. */
  lemma MergeRefusal<P>(listing: seq<string>, pagesOf: string -> seq<P>, nameLine: string, confirmLine: string)
    ensures MergeOutcome(listing, pagesOf, nameLine, confirmLine) == NoPdfFiles <==>
      forall n :: n in listing ==> !IsPdfName(n)
  {
    var pdfFiles := PdfNames(listing);
    if pdfFiles != [] {
      assert pdfFiles[0] in pdfFiles;
    }
  }

  /**
   * An order the merger may append the listing's files in: sorted by natural sort key, and
   * holding every PDF name of the listing as often as the listing does, and nothing else.
   */
  ghost predicate MergeOrderOf(order: seq<string>, listing: seq<string>) {
    && SortedBy(order, NaturalSortKey)
    && multiset(order) == multiset(PdfNames(listing))
    && (forall n :: n in order <==> n in listing && IsPdfName(n))
    && (forall n :: multiset(order)[n] == if IsPdfName(n) then multiset(listing)[n] else 0)
  }

  /**
   * Once confirmed, the merge writes the pages of every PDF file of the folder, each as often as
   * the folder lists it, in an order sorted by natural sort key, under the typed or default
   * name, which ends in ".pdf".
   */
  lemma MergeSaved<P>(listing: seq<string>, pagesOf: string -> seq<P>, nameLine: string, confirmLine: string)
    ensures var outcome := MergeOutcome(listing, pagesOf, nameLine, confirmLine);
      outcome.Saved? ==>
        && outcome.fileName == OutputName(nameLine, "merged_output.pdf")
        && EndsWith(outcome.fileName, ".pdf")
        && exists order :: MergeOrderOf(order, listing) && outcome.pages == Concatenation(order, pagesOf)
  {
    var order := SortByKey(PdfNames(listing));
    MergeOrder(listing);
    var outcome := MergeOutcome(listing, pagesOf, nameLine, confirmLine);
    if outcome.Saved? {
      assert outcome.pages == Concatenation(order, pagesOf);
    }
  }

  /** The merger's order, the PDF names sorted by key, is such an order. */
  lemma MergeOrder(listing: seq<string>)
    ensures MergeOrderOf(SortByKey(PdfNames(listing)), listing)
  {
    var pdfFiles := PdfNames(listing);
    var order := SortByKey(pdfFiles);
    SameMultisetSameMembers(order, pdfFiles);
    PdfNamesCount(listing);
  }

  lemma SameMultisetSameMembers(a: seq<string>, b: seq<string>)
    requires multiset(a) == multiset(b)
    ensures forall n :: n in a <==> n in b
  {
    assert forall n :: n in a <==> n in multiset(a);
    assert forall n :: n in b <==> n in multiset(b);
  }

  /** A blank name line saves to "merged_output.pdf". */
  lemma MergeDefaultName(nameLine: string)
    requires Strip(nameLine) == []
    ensures OutputName(nameLine, "merged_output.pdf") == "merged_output.pdf"
  {
    assert "merged_output.pdf"[13..] == ".pdf";
  }

  /** Two files numbered m < n, listed in either order, are merged m first. */
  lemma NumberedFilesSorted(stem: string, m: nat, n: nat, ext: string)
    requires NoDigits(stem) && NoDigits(ext) && m < n
    ensures var first := stem + Decimal(m) + ext; var second := stem + Decimal(n) + ext;
      && SortByKey([second, first]) == [first, second]
      && SortByKey([first, second]) == [first, second]
  {
    var first := stem + Decimal(m) + ext;
    var second := stem + Decimal(n) + ext;
    NumberedNamesOrder(stem, m, n, ext);
    NumberedNamesOrder(stem, n, m, ext);
    assert SortBy([second], NaturalSortKey) == [second] by {
      assert [second][..0] == [];
    }
    assert SortBy([first], NaturalSortKey) == [first] by {
      assert [first][..0] == [];
    }
    assert [second, first][..1] == [second];
    assert [first, second][..1] == [first];
    var key: string -> seq<nat> := NaturalSortKey;
    assert KeyLess(key(first), key([second][0]));
    assert InsertBy([second], first, key) == [first, second];
    assert InsertBy([first], second, NaturalSortKey) == [first, second] by {
      assert [first][1..] == [];
    }
  }

  /** A confirmed merge of a folder holding only PDF names writes their pages in sorted order. */
  lemma MergeOfPdfs<P>(listing: seq<string>, pagesOf: string -> seq<P>, nameLine: string, confirmLine: string)
    requires listing != [] && Confirms(confirmLine)
    requires forall n :: n in listing ==> EndsWith(n, ".pdf")
    ensures MergeOutcome(listing, pagesOf, nameLine, confirmLine)
      == Saved(OutputName(nameLine, "merged_output.pdf"), Concatenation(SortByKey(listing), pagesOf))
  {
    PdfNamesOfPdfs(listing);
  }

  /** A name built by appending a suffix ends with that suffix. */
  lemma EndsWithSuffix(s: string, suffix: string)
    ensures EndsWith(s + suffix, suffix)
  {
    assert (s + suffix)[|s|..] == suffix;
  }

  /** Two PDF files numbered m < n are merged m first, whatever order the folder lists them in. */
  lemma NumberedFilesMerged<P>(stem: string, m: nat, n: nat, pagesOf: string -> seq<P>, nameLine: string, confirmLine: string)
    requires NoDigits(stem) && m < n && Confirms(confirmLine)
    ensures var first := stem + Decimal(m) + ".pdf"; var second := stem + Decimal(n) + ".pdf";
      MergeOutcome([second, first], pagesOf, nameLine, confirmLine)
        == Saved(OutputName(nameLine, "merged_output.pdf"), pagesOf(first) + pagesOf(second))
  {
    assert NoDigits(".pdf");
    var first := stem + Decimal(m) + ".pdf";
    var second := stem + Decimal(n) + ".pdf";
    EndsWithSuffix(stem + Decimal(m), ".pdf");
    EndsWithSuffix(stem + Decimal(n), ".pdf");
    MergeOfPdfs([second, first], pagesOf, nameLine, confirmLine);
    NumberedFilesSorted(stem, m, n, ".pdf");
    ConcatenationOfTwo(first, second, pagesOf);
  }

  lemma ConcatenationOfTwo<P>(a: string, b: string, pagesOf: string -> seq<P>)
    ensures Concatenation([a, b], pagesOf) == pagesOf(a) + pagesOf(b)
  {
    assert [a, b][..1] == [a];
    assert [a][..0] == [];
    assert Concatenation([a], pagesOf) == Concatenation([], pagesOf) + pagesOf(a);
    assert Concatenation([a, b], pagesOf) == Concatenation([a], pagesOf) + pagesOf(b);
  }

  /** "page10.pdf" listed before "page2.pdf" is still merged after it. */
  lemma Page2MergedBeforePage10<P>(pagesOf: string -> seq<P>, nameLine: string, confirmLine: string)
    requires Confirms(confirmLine)
    ensures MergeOutcome(["page10.pdf", "page2.pdf"], pagesOf, nameLine, confirmLine)
      == Saved(OutputName(nameLine, "merged_output.pdf"), pagesOf("page2.pdf") + pagesOf("page10.pdf"))
  {
    assert Decimal(2) == "2";
    assert Decimal(10) == "10";
    var first := "page" + Decimal(2) + ".pdf";
    var second := "page" + Decimal(10) + ".pdf";
    assert first == "page2.pdf" && second == "page10.pdf";
    assert NoDigits("page");
    NumberedFilesMerged("page", 2, 10, pagesOf, nameLine, confirmLine);
    assert [second, first] == ["page10.pdf", "page2.pdf"];
  }

  lemma PdfNamesOfPdfs(listing: seq<string>)
    requires forall n :: n in listing ==> EndsWith(n, ".pdf")
    ensures PdfNames(listing) == listing
  {
    if listing != [] {
      var n := listing[0];
      assert n in listing;
      LowerKeepsSuffix(n);
      PdfNamesOfPdfs(listing[1..]);
    }
  }

  /** A name already ending in lower-case ".pdf" passes the case-insensitive filter. */
  lemma LowerKeepsSuffix(name: string)
    requires EndsWith(name, ".pdf")
    ensures IsPdfName(name)
  {
    var k := |name| - 4;
    assert name[k..] == ".pdf";
    assert name[k] == '.' && name[k + 1] == 'p' && name[k + 2] == 'd' && name[k + 3] == 'f';
    assert Lower(name)[k..] == ".pdf";
  }

  /** "scan.PDF" is merged although the output-name rule would not accept its suffix. */
  lemma UpperCasePdfIsMerged()
    ensures IsPdfName("scan.PDF") && !EndsWith("scan.PDF", ".pdf")
  {
    var l := Lower("scan.PDF");
    assert l[4] == '.' && l[5] == 'p' && l[6] == 'd' && l[7] == 'f';
    assert l[4..] == ".pdf";
    assert "scan.PDF"[4..] == ".PDF";
  }
}
