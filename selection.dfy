/**
 * Which pages the delete and extract commands select (the rules written inline in
 * PDFEditor.delete_pages_interactive and PDFEditor.extract_pages_interactive).
 *
 * Deletion accepts, besides the page-number syntax of parse_page_numbers, a parity word
 * ("odd"/"홀수", "even"/"짝수") for every page of that parity, and "S odd" / "S even" for the
 * pages of that parity from page S on. Extraction accepts "all".
 */
module Selection {
  import opened Wrappers
  import opened Text
  import opened PageSets
  import opened PageParser

  datatype Parity = Odd | Even

  /** The option words, compared after lower(): "odd" or "홀수", "even" or "짝수". */
  function ParityWord(word: string): Option<Parity> {
    var w := Lower(word);
    if w == "odd" || w == "홀수" then Some(Odd)
    else if w == "even" || w == "짝수" then Some(Even)
    else None
  }

  /** i % 2 == 1 selects the odd pages, i % 2 == 0 the even ones. */
  predicate HasParity(page: int, parity: Parity) {
    if parity == Odd then page % 2 == 1 else page % 2 == 0
  }

  /** [i for i in range(first, last + 1) if i has the parity], in increasing order. */
  function ParityPages(first: int, last: int, parity: Parity): (pages: seq<int>)
    ensures StrictlyAscending(pages)
    ensures forall p :: p in pages <==> first <= p <= last && HasParity(p, parity)
    decreases last - first
  {
    if last < first then []
    else
      var init := ParityPages(first, last - 1, parity);
      assert forall i :: 0 <= i < |init| ==> init[i] in init;
      assert forall p | p in init :: p < last;
      var tail := if HasParity(last, parity) then [last] else [];
      assert forall p :: p in init + tail <==> p in init || p in tail;
      init + tail
  }

  /**
   * The "S odd" / "S even" form: two words, the first an integer S with 1 <= S <= total and
   * the second a parity word. It yields the pages of that parity in [S, total]; any other input
   * yields [], as does the form itself when no page qualifies.
   */
  function StartSelection(input: string, total: nat): seq<int> {
    var words := Words(input);
    if |words| == 2 && ParseInt(words[0]).Some? && 1 <= ParseInt(words[0]).value <= total then
      match ParityWord(words[1])
      case Some(parity) => ParityPages(ParseInt(words[0]).value, total, parity)
      case None => []
    else []
  }

  /** Deletion falls back to parse_page_numbers unless a parity rule selected something. */
  predicate UsesParser(input: string, total: nat) {
    ParityWord(input).None? && StartSelection(input, total) == []
  }

  /** The warning printed when the "S word" form names a start page outside [1, total]. */
  function StartWarnings(input: string, total: nat): seq<Warning> {
    var words := Words(input);
    if ParityWord(input).None? && |words| == 2 && ParseInt(words[0]).Some?
       && !(1 <= ParseInt(words[0]).value <= total)
    then [StartOutOfRange(ParseInt(words[0]).value, total)]
    else []
  }

  /** Every warning the deletion selection prints: the start-page warning, then the parser's. */
  function DeleteWarnings(input: string, total: nat): seq<Warning> {
    StartWarnings(input, total) + if UsesParser(input, total) then Warnings(Tokens(input)) else []
  }

  /** The pages delete_pages_interactive selects from the stripped input line. */
  function SelectForDelete(input: string, total: nat): (pages: seq<int>)
    ensures StrictlyAscending(pages)
    ensures forall p :: p in pages ==> 1 <= p <= total
  {
    match ParityWord(input)
    case Some(parity) => ParityPages(1, total, parity)
    case None =>
      var chosen := StartSelection(input, total);
      if chosen != [] then chosen else PageNumbers(input, total)
  }

  /**
   * The deletion rules as the source runs them: the whole-input parity words first, then the
   * two-word "S odd|even" form, and parse_page_numbers (which also returns its warnings) when
   * neither selected anything.
   */
  method ChoosePagesToDelete(input: string, total: nat) returns (pages: seq<int>, warnings: seq<Warning>)
    ensures pages == SelectForDelete(input, total)
    ensures warnings == DeleteWarnings(input, total)
  {
    warnings := [];
    pages := [];
    var whole := ParityWord(input);
    if whole == Some(Odd) {
      pages := ParityPages(1, total, Odd);
    } else if whole == Some(Even) {
      pages := ParityPages(1, total, Even);
    } else {
      var parts := Words(input);
      if |parts| == 2 {
        var start := ParseInt(parts[0]);
        if start.Some? {
          var option := ParityWord(parts[1]);
          if 1 <= start.value <= total {
            if option == Some(Odd) {
              pages := ParityPages(start.value, total, Odd);
            } else if option == Some(Even) {
              pages := ParityPages(start.value, total, Even);
            }
            if pages == [] {
              pages, warnings := ParsePageNumbers(input, total);
            }
          } else {
            var parsed;
            pages, parsed := ParsePageNumbers(input, total);
            warnings := [StartOutOfRange(start.value, total)] + parsed;
          }
        } else {
          pages, warnings := ParsePageNumbers(input, total);
        }
      } else {
        pages, warnings := ParsePageNumbers(input, total);
      }
    }
  }

  /** A whole-input parity word selects exactly the pages of that parity in [1, total]. */
  lemma WholeParitySelection(input: string, total: nat, parity: Parity, p: int)
    requires ParityWord(input) == Some(parity)
    ensures p in SelectForDelete(input, total) <==> 1 <= p <= total && HasParity(p, parity)
    ensures !UsesParser(input, total)
  {
  }

  /**
   * "S odd" / "S even" selects exactly the pages of that parity in [S, total], for every spelling
   * split() and int() accept: "5 odd", "05 odd", "+5\todd", " 5   ODD".
   */
  lemma StartParitySelection(input: string, total: nat, parity: Parity, p: int)
    requires |Words(input)| == 2
    requires ParseInt(Words(input)[0]).Some? && 1 <= ParseInt(Words(input)[0]).value <= total
    requires ParityWord(Words(input)[1]) == Some(parity)
    ensures p in SelectForDelete(input, total) <==>
      ParseInt(Words(input)[0]).value <= p <= total && HasParity(p, parity)
    ensures UsesParser(input, total) <==>
      ParseInt(Words(input)[0]).value == total && !HasParity(total, parity)
    ensures DeleteWarnings(input, total) ==
      if UsesParser(input, total) then [BadNumber(RemoveChar(input, ' '))] else []
  {
    var start := ParseInt(Words(input)[0]).value;
    TwoWordsNotParityWord(input);
    var pages := ParityPages(start, total, parity);
    assert StartSelection(input, total) == pages;
    assert StartWarnings(input, total) == [];
    ParityPagesEmpty(start, total, parity);
    if pages == [] {
      StartInputParsesToNothing(input, total);
      assert SelectForDelete(input, total) == [];
    } else {
      assert SelectForDelete(input, total) == pages;
    }
  }

  /** Every character of a parity word is a letter: no digit, sign, underscore, comma or space. */
  lemma ParityWordChars(word: string, c: char)
    requires ParityWord(word).Some? && c in word
    ensures !IsDigit(c) && !IsSpace(c) && c != '+' && c != '-' && c != '_' && c != ','
  {
    var i :| 0 <= i < |word| && word[i] == c;
    LowerKeeps(word, i);
    var w := Lower(word);
    if !('A' <= c <= 'Z') {
      assert w[i] == c && c in w;
    }
  }

  /**
   * An "S odd|even" input that falls back holds no comma and no '-', so the parser sees it, spaces
   * removed, as one token; the parity word's letters make that token no integer, so the parser
   * warns about it and selects nothing.
   */
  lemma StartInputParsesToNothing(input: string, total: nat)
    requires |Words(input)| == 2
    requires ParseInt(Words(input)[0]).Some? && 1 <= ParseInt(Words(input)[0]).value
    requires ParityWord(Words(input)[1]).Some?
    ensures Tokens(input) == [RemoveChar(input, ' ')]
    ensures PageNumbers(input, total) == []
    ensures Warnings(Tokens(input)) == [BadNumber(RemoveChar(input, ' '))]
  {
    var w0, w1 := Words(input)[0], Words(input)[1];
    var token := RemoveChar(input, ' ');
    forall c | c in input ensures c != ',' && c != '-' {
      TwoWordsChars(input, c);
      if c in w0 {
        ParseIntCharset(w0, c);
        if c == '-' {
          ParseIntMinus(w0);
        }
      } else if c in w1 {
        ParityWordChars(w1, c);
      }
    }
    assert ParseInt(token) == None by {
      var c := w1[0];
      assert c in w1;
      WordChars(input, 1, c);
      ParityWordChars(w1, c);
      assert c in token;
      if ParseInt(token).Some? {
        ParseIntCharset(token, c);
      }
    }
    SingleTokenInput(input, token);
    LoneNonNumber(input, token, total);
  }

  /** A start page outside [1, total] sends "S word" to the parser, after a warning about S. */
  lemma OutOfRangeStart(input: string, total: nat)
    requires |Words(input)| == 2
    requires ParseInt(Words(input)[0]).Some? && !(1 <= ParseInt(Words(input)[0]).value <= total)
    ensures SelectForDelete(input, total) == PageNumbers(input, total)
    ensures DeleteWarnings(input, total) ==
      [StartOutOfRange(ParseInt(Words(input)[0]).value, total)] + Warnings(Tokens(input))
  {
    TwoWordsNotParityWord(input);
  }

  /** Only the last page can leave "S odd|even" empty, when it has the other parity. */
  lemma ParityPagesEmpty(first: int, last: int, parity: Parity)
    requires first <= last
    ensures ParityPages(first, last, parity) == [] <==> first == last && !HasParity(first, parity)
  {
    var pages := ParityPages(first, last, parity);
    if HasParity(first, parity) {
      assert first in pages;
    } else if first < last {
      assert HasParity(first + 1, parity);
      assert first + 1 in pages;
    } else {
      SameMembersEmpty(pages, []);
    }
  }

  /** An input of two words is never a whole-input parity word. */
  lemma TwoWordsNotParityWord(input: string)
    requires |Words(input)| == 2
    ensures ParityWord(input) == None
  {
    TwoRunsHaveGap(input, NotSpace);
    var i :| 0 <= i < |input| && !NotSpace(input[i]);
    var c := input[i];
    assert IsSpace(c);
    assert c < 'A' || 'Z' < c;
    LowerKeeps(input, i);
    var w := Lower(input);
    assert w[i] == input[i];
    assert w[i] in w && IsSpace(w[i]);
    assert forall c | c in "odd" :: NotSpace(c);
    assert forall c | c in "even" :: NotSpace(c);
    assert forall c | c in "홀수" :: NotSpace(c);
    assert forall c | c in "짝수" :: NotSpace(c);
  }

  /**
   * Every input the parity rules do not take is parsed as page numbers: the selection is then
   * exactly parse_page_numbers' result, and in particular a malformed input selects nothing.
   */
  lemma FallbackIsParser(input: string, total: nat)
    requires UsesParser(input, total)
    ensures SelectForDelete(input, total) == PageNumbers(input, total)
  {
  }

  /** sorted(list(set(...))) leaves the selection as it is: it is already ascending and distinct. */
  lemma DeleteSelectionNormalised(input: string, total: nat)
    ensures SortedDistinct(SelectForDelete(input, total)) == SelectForDelete(input, total)
    ensures |SelectForDelete(input, total)| <= total
  {
    var pages := SelectForDelete(input, total);
    SortedDistinctOfAscending(pages);
    AscendingPagesCount(pages, total);
  }

  /** "all" (in any case) selects every page, anything else goes to parse_page_numbers. */
  function SelectForExtract(input: string, total: nat): (pages: seq<int>)
    ensures StrictlyAscending(pages)
    ensures forall p :: p in pages ==> 1 <= p <= total
    ensures Lower(input) == "all" ==> |pages| == total && forall p :: 1 <= p <= total ==> p in pages
  {
    if Lower(input) == "all" then AllPages(total) else PageNumbers(input, total)
  }

  /** The extraction rule as the source runs it: "all", or parse_page_numbers with its warnings. */
  method ChoosePagesToExtract(input: string, total: nat) returns (pages: seq<int>, warnings: seq<Warning>)
    ensures pages == SelectForExtract(input, total)
    ensures warnings == if Lower(input) == "all" then [] else Warnings(Tokens(input))
  {
    if Lower(input) == "all" {
      pages, warnings := AllPages(total), [];
    } else {
      pages, warnings := ParsePageNumbers(input, total);
    }
  }

  /** The selection of "S word" is the one ascending list of the pages of that parity in [S, total]. */
  lemma StartParityList(input: string, total: nat, parity: Parity, expected: seq<int>)
    requires |Words(input)| == 2
    requires ParseInt(Words(input)[0]).Some? && 1 <= ParseInt(Words(input)[0]).value <= total
    requires ParityWord(Words(input)[1]) == Some(parity)
    requires StrictlyAscending(expected)
    requires forall p :: p in expected <==>
      ParseInt(Words(input)[0]).value <= p <= total && HasParity(p, parity)
    ensures SelectForDelete(input, total) == expected
  {
    var selected := SelectForDelete(input, total);
    forall p ensures p in selected <==> p in expected {
      StartParitySelection(input, total, parity, p);
    }
    AscendingUnique(selected, expected);
  }

  /** "S word" with S written as a string of digits (leading zeros allowed) and one word after it. */
  lemma DigitsStartForm(digits: string, word: string)
    requires digits != [] && AllDigits(digits)
    requires word != [] && forall c :: c in word ==> NotSpace(c)
    ensures Words(digits + " " + word) == [digits, word]
    ensures ParseInt(digits) == Some(DecimalValue(digits))
    ensures RemoveChar(digits + " " + word, ' ') == digits + word
  {
    assert forall c :: c in digits ==> NotSpace(c) && c != ' ' by {
      assert AllDigits(digits);
    }
    TwoWords(digits, word);
    ParseIntDigits(digits);
    RemoveSpaceBetween(digits, word);
  }

  /** "S word", S in digits: the selection is the expected list of that parity in [S, total]. */
  lemma DigitsStartList(digits: string, word: string, total: nat, parity: Parity, expected: seq<int>)
    requires digits != [] && AllDigits(digits) && 1 <= DecimalValue(digits) <= total
    requires word != [] && (forall c :: c in word ==> NotSpace(c)) && ParityWord(word) == Some(parity)
    requires StrictlyAscending(expected)
    requires forall p :: p in expected <==> DecimalValue(digits) <= p <= total && HasParity(p, parity)
    ensures SelectForDelete(digits + " " + word, total) == expected
  {
    DigitsStartForm(digits, word);
    StartParityList(digits + " " + word, total, parity, expected);
  }

  /** "5 odd" on a ten-page document deletes pages 5, 7 and 9. */
  lemma FiveOddOfTen()
    ensures SelectForDelete("5 odd", 10) == [5, 7, 9]
  {
    assert "5" + " " + "odd" == "5 odd";
    assert AllDigits("5") && DecimalValue("5") == 5;
    assert ParityWord("odd") == Some(Odd);
    DigitsStartList("5", "odd", 10, Odd, [5, 7, 9]);
  }

  /** A zero-padded start page is read by int() all the same: "05 odd" is "5 odd". */
  lemma ZeroPaddedStart()
    ensures SelectForDelete("05 odd", 10) == [5, 7, 9]
  {
    assert "05" + " " + "odd" == "05 odd";
    assert AllDigits("05");
    assert DecimalValue("05") == 5 by {
      assert "05"[..1] == "0" && "0"[..0] == "";
    }
    assert ParityWord("odd") == Some(Odd);
    DigitsStartList("05", "odd", 10, Odd, [5, 7, 9]);
  }

  /** "6 짝수" (even) on a ten-page document deletes pages 6, 8 and 10. */
  lemma SixEvenOfTen()
    ensures SelectForDelete("6 짝수", 10) == [6, 8, 10]
  {
    assert "6" + " " + "짝수" == "6 짝수";
    assert AllDigits("6") && DecimalValue("6") == 6;
    assert forall c | c in "짝수" :: NotSpace(c);
    assert ParityWord("짝수") == Some(Even) by {
      var w := Lower("짝수");
      assert |w| == 2 && w[0] == '짝' && w[1] == '수';
      assert w == "짝수";
    }
    DigitsStartList("6", "짝수", 10, Even, [6, 8, 10]);
  }

  /**
   * "S word" falls back when S is the last page and has the other parity: the parser then sees
   * the single token made of the input without its spaces, warns about it and selects nothing.
   */
  lemma StartParityFallback(input: string, total: nat, parity: Parity)
    requires |Words(input)| == 2
    requires ParseInt(Words(input)[0]) == Some(total) && 1 <= total && !HasParity(total, parity)
    requires ParityWord(Words(input)[1]) == Some(parity)
    ensures SelectForDelete(input, total) == []
    ensures UsesParser(input, total)
    ensures DeleteWarnings(input, total) == [BadNumber(RemoveChar(input, ' '))]
  {
    StartParitySelection(input, total, parity, total);
    StartInputParsesToNothing(input, total);
  }

  /** "S word", S in digits, on an S-page document where S has the other parity selects nothing. */
  lemma DigitsStartFallback(digits: string, word: string, parity: Parity)
    requires digits != [] && AllDigits(digits) && 1 <= DecimalValue(digits)
    requires !HasParity(DecimalValue(digits), parity)
    requires word != [] && (forall c :: c in word ==> NotSpace(c)) && ParityWord(word) == Some(parity)
    ensures SelectForDelete(digits + " " + word, DecimalValue(digits)) == []
    ensures UsesParser(digits + " " + word, DecimalValue(digits))
    ensures DeleteWarnings(digits + " " + word, DecimalValue(digits)) == [BadNumber(digits + word)]
  {
    DigitsStartForm(digits, word);
    StartParityFallback(digits + " " + word, DecimalValue(digits), parity);
  }

  /**
   * "4 odd" on a four-page document: page 4 is even, so the parity rule selects nothing and the
   * input goes to parse_page_numbers as the token "4odd", which is no number; nothing is selected.
   */
  lemma FourOddOfFour()
    ensures SelectForDelete("4 odd", 4) == []
    ensures UsesParser("4 odd", 4) && DeleteWarnings("4 odd", 4) == [BadNumber("4odd")]
  {
    assert "4" + " " + "odd" == "4 odd" && "4" + "odd" == "4odd";
    assert AllDigits("4") && DecimalValue("4") == 4;
    assert ParityWord("odd") == Some(Odd);
    DigitsStartFallback("4", "odd", Odd);
  }

  /** A whole-input parity word selects the one ascending list of the pages of that parity. */
  lemma WholeParityList(input: string, total: nat, parity: Parity, expected: seq<int>)
    requires ParityWord(input) == Some(parity)
    requires StrictlyAscending(expected)
    requires forall p :: p in expected <==> 1 <= p <= total && HasParity(p, parity)
    ensures SelectForDelete(input, total) == expected
  {
    AscendingUnique(ParityPages(1, total, parity), expected);
  }

  /** "ODD" on a ten-page document deletes the odd pages. */
  lemma OddOfTen()
    ensures SelectForDelete("ODD", 10) == [1, 3, 5, 7, 9]
  {
    assert ParityWord("ODD") == Some(Odd) by {
      var w := Lower("ODD");
      assert |w| == 3 && w[0] == 'o' && w[1] == 'd' && w[2] == 'd';
      assert w == "odd";
    }
    WholeParityList("ODD", 10, Odd, [1, 3, 5, 7, 9]);
  }
}
