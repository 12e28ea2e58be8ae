/**
 * PDFEditor.parse_page_numbers: a comma-separated list of page numbers and inclusive ranges,
 * turned into the ascending list of distinct pages of a document of max_page pages.
 */
module PageParser {
  import opened Wrappers
  import opened Text
  import opened PageSets

  /**
   * A printed warning. The parser warns about a malformed token and carries on with the next
   * token; the delete command warns when "S odd|even" names a start page outside [1, total].
   */
  datatype Warning =
    | BadRange(token: string)
    | BadNumber(token: string)
    | StartOutOfRange(start: int, total: int)

  /** input.replace(' ', '').split(','): the tokens, rejoined with ',' they give the compacted input. */
  function Tokens(input: string): (tokens: seq<string>)
    ensures |tokens| >= 1
    ensures forall i :: 0 <= i < |tokens| ==> ' ' !in tokens[i] && ',' !in tokens[i]
    ensures Join(tokens, ',') == RemoveChar(input, ' ')
  {
    var compact := RemoveChar(input, ' ');
    JoinSplitOn(compact, ',');
    SplitOn(compact, ',')
  }

  /** A token holding '-' is a range when it splits on '-' into exactly two integers. */
  predicate IsRange(token: string) {
    var ends := SplitOn(token, '-');
    |ends| == 2 && ParseInt(ends[0]).Some? && ParseInt(ends[1]).Some?
  }

  /** range(a, b + 1) as a set of pages: empty when a > b. */
  function Range(a: int, b: int): (r: set<int>)
    ensures forall p :: p in r <==> a <= p <= b
    decreases b - a
  {
    if a > b then {} else Range(a, b - 1) + {b}
  }

  /** The pages one token adds: a range "a-b" adds a..b, an integer adds itself, anything else nothing. */
  function TokenPages(token: string): set<int> {
    if '-' in token then
      if IsRange(token) then
        var ends := SplitOn(token, '-');
        Range(ParseInt(ends[0]).value, ParseInt(ends[1]).value)
      else {}
    else
      match ParseInt(token)
      case Some(n) => {n}
      case None => {}
  }

  /** The warning a token draws: a '-' token that is not a range, or another token that is not an integer. */
  function TokenWarning(token: string): Option<Warning> {
    if '-' in token then
      if IsRange(token) then None else Some(BadRange(token))
    else if ParseInt(token).Some? then None
    else Some(BadNumber(token))
  }

  /** The union of what each of the given tokens asks for. */
  function Collect(tokens: seq<string>, pagesOf: string -> set<int>): set<int> {
    if tokens == [] then {}
    else Collect(tokens[..|tokens| - 1], pagesOf) + pagesOf(tokens[|tokens| - 1])
  }

  /** The set the loop has collected after the given tokens. */
  function Requested(tokens: seq<string>): set<int> {
    Collect(tokens, TokenPages)
  }

  /** The warnings printed for the given tokens, in order. */
  function Warnings(tokens: seq<string>): seq<Warning> {
    if tokens == [] then []
    else
      Warnings(tokens[..|tokens| - 1]) +
        match TokenWarning(tokens[|tokens| - 1])
        case Some(w) => [w]
        case None => []
  }

  /** What parse_page_numbers returns: the requested pages within [1, max_page], ascending. */
  function PageNumbers(input: string, maxPage: int): (pages: seq<int>)
    ensures StrictlyAscending(pages)
    ensures forall p :: p in pages ==> 1 <= p <= maxPage
  {
    Ascending(Requested(Tokens(input)), maxPage)
  }

  /**
   * parse_page_numbers: collect the pages of every token into a set, skipping (with a warning)
   * each malformed token, then keep the pages in [1, max_page] and sort them (the closing
   * filter-and-sort expression is the function Ascending).
   */
  method ParsePageNumbers(input: string, maxPage: int) returns (pages: seq<int>, warnings: seq<Warning>)
    ensures pages == PageNumbers(input, maxPage)
    ensures StrictlyAscending(pages)
    ensures forall p :: p in pages <==> 1 <= p <= maxPage && p in Requested(Tokens(input))
    ensures warnings == Warnings(Tokens(input))
  {
    var collected: set<int> := {};
    warnings := [];
    var parts := SplitOn(RemoveChar(input, ' '), ',');
    for i := 0 to |parts|
      invariant collected == Requested(parts[..i])
      invariant warnings == Warnings(parts[..i])
    {
      var part := parts[i];
      TokensStep(parts, i);
      if '-' in part {
        var ends := SplitOn(part, '-');
        if |ends| == 2 && ParseInt(ends[0]).Some? && ParseInt(ends[1]).Some? {
          collected := collected + Range(ParseInt(ends[0]).value, ParseInt(ends[1]).value);
        } else {
          warnings := warnings + [BadRange(part)];
        }
      } else {
        var n := ParseInt(part);
        if n.Some? {
          collected := collected + {n.value};
        } else {
          warnings := warnings + [BadNumber(part)];
        }
      }
    }
    assert parts[..|parts|] == parts;
    pages := Ascending(collected, maxPage);
  }

  lemma TokensStep(tokens: seq<string>, i: nat)
    requires i < |tokens|
    ensures Requested(tokens[..i + 1]) == Requested(tokens[..i]) + TokenPages(tokens[i])
    ensures Warnings(tokens[..i + 1]) == Warnings(tokens[..i]) +
      match TokenWarning(tokens[i]) case Some(w) => [w] case None => []
  {
    assert tokens[..i + 1][..i] == tokens[..i];
  }

  /** A page was collected exactly when some token asked for it. */
  lemma {:induction false} CollectMembers(tokens: seq<string>, pagesOf: string -> set<int>, p: int)
    ensures p in Collect(tokens, pagesOf) <==> exists i :: 0 <= i < |tokens| && p in pagesOf(tokens[i])
  {
    if tokens != [] {
      var init := tokens[..|tokens| - 1];
      CollectMembers(init, pagesOf, p);
      if p in Collect(init, pagesOf) {
        var i :| 0 <= i < |init| && p in pagesOf(init[i]);
        assert tokens[i] == init[i];
      }
      if exists i :: 0 <= i < |tokens| && p in pagesOf(tokens[i]) {
        var i :| 0 <= i < |tokens| && p in pagesOf(tokens[i]);
        if i < |init| {
          assert init[i] == tokens[i];
        }
      }
    }
  }

  /** Tokens are independent: what earlier tokens did, malformed or not, does not change what later ones add. */
  lemma {:induction false} CollectConcat(front: seq<string>, back: seq<string>, pagesOf: string -> set<int>)
    ensures Collect(front + back, pagesOf) == Collect(front, pagesOf) + Collect(back, pagesOf)
    decreases |back|
  {
    if back == [] {
      assert front + back == front;
    } else {
      var init := back[..|back| - 1];
      CollectConcat(front, init, pagesOf);
      assert (front + back)[..|front + back| - 1] == front + init;
    }
  }

  lemma RequestedConcat(front: seq<string>, back: seq<string>)
    ensures Requested(front + back) == Requested(front) + Requested(back)
  {
    CollectConcat(front, back, TokenPages);
  }

  /**
   * p is in the result exactly when it is a page of the document and some token asked for it:
   * an integer token equal to p, or a range token "a-b" with a <= p <= b.
   */
  lemma PageNumbersMembers(input: string, maxPage: int, p: int)
    ensures p in PageNumbers(input, maxPage) <==>
      1 <= p <= maxPage && exists i :: 0 <= i < |Tokens(input)| && p in TokenPages(Tokens(input)[i])
  {
    CollectMembers(Tokens(input), TokenPages, p);
  }

  /** A malformed token draws a warning and adds nothing; a well-formed one draws none. */
  lemma MalformedTokenAddsNothing(token: string)
    ensures TokenWarning(token).Some? ==> TokenPages(token) == {}
    ensures TokenWarning(token).None? ==> ('-' in token ==> IsRange(token)) && ('-' !in token ==> ParseInt(token).Some?)
  {
  }

  /** The decimal rendering of n is a token asking for page n. */
  lemma NumberToken(n: nat)
    ensures TokenPages(Decimal(n)) == {n} && TokenWarning(Decimal(n)) == None
  {
    ParseIntDecimal(n);
    assert '-' !in Decimal(n) by {
      assert AllDigits(Decimal(n));
    }
  }

  /** A one-digit token asks for its page. */
  lemma DigitToken(n: nat)
    requires n < 10
    ensures TokenPages([('0' as int + n) as char]) == {n}
  {
    assert Decimal(n) == [('0' as int + n) as char];
    NumberToken(n);
  }

  /** "a-b" asks for a..b inclusive, which is nothing when a > b. */
  lemma RangeToken(a: nat, b: nat)
    ensures TokenPages(Decimal(a) + "-" + Decimal(b)) == Range(a, b)
    ensures a > b ==> TokenPages(Decimal(a) + "-" + Decimal(b)) == {}
  {
    var da, db := Decimal(a), Decimal(b);
    var token := da + "-" + db;
    assert SplitOn(token, '-') == [da, db] by {
      assert '-' !in da && '-' !in db by {
        assert AllDigits(da) && AllDigits(db);
      }
      assert token == Join([da, db], '-');
      SplitOnJoin([da, db], '-');
    }
    assert '-' in token by {
      assert token[|da|] == '-';
    }
    ParseIntDecimal(a);
    ParseIntDecimal(b);
  }

  /** Spaces are removed before splitting: "1 2" is the token "12". */
  lemma SpacesIgnored(input: string, maxPage: int)
    ensures PageNumbers(input, maxPage) == PageNumbers(RemoveChar(input, ' '), maxPage)
  {
    assert RemoveChar(RemoveChar(input, ' '), ' ') == RemoveChar(input, ' ');
  }

  /** An input that holds no comma once its spaces are removed is one token. */
  lemma SingleTokenInput(input: string, token: string)
    requires RemoveChar(input, ' ') == token && ',' !in token
    ensures Tokens(input) == [token]
  {
  }

  /** An input that is one '-'-free token which is no integer selects nothing and draws one warning. */
  lemma LoneNonNumber(input: string, token: string, maxPage: int)
    requires Tokens(input) == [token]
    requires '-' !in token && ParseInt(token) == None
    ensures PageNumbers(input, maxPage) == []
    ensures Warnings(Tokens(input)) == [BadNumber(token)]
  {
    RequestedOne(token);
    assert [token][..0] == [];
    SameMembersEmpty(PageNumbers(input, maxPage), []);
  }

  lemma RequestedOne(t: string)
    ensures Requested([t]) == TokenPages(t)
  {
    assert [t][..0] == [];
    assert Collect([t], TokenPages) == Collect([], TokenPages) + TokenPages(t);
  }

  lemma RequestedThree(x: string, y: string, z: string)
    ensures Requested([x, y, z]) == TokenPages(x) + TokenPages(y) + TokenPages(z)
  {
    RequestedConcat([x], [y, z]);
    RequestedConcat([y], [z]);
    assert [x] + [y, z] == [x, y, z] && [y] + [z] == [y, z];
    RequestedOne(x);
    RequestedOne(y);
    RequestedOne(z);
  }

  /** Three tokens free of spaces and commas, joined by commas, split back into those three. */
  lemma TokensThree(x: string, y: string, z: string)
    requires ' ' !in x && ' ' !in y && ' ' !in z && ',' !in x && ',' !in y && ',' !in z
    ensures Tokens(x + "," + y + "," + z) == [x, y, z]
  {
    var input := x + "," + y + "," + z;
    assert RemoveChar(input, ' ') == input;
    assert input == x + [','] + (y + [','] + z);
    SplitOnCons(x, ',', y + [','] + z);
    SplitOnCons(y, ',', z);
  }

  /** Three increasing page numbers, comma-separated, give exactly those pages. */
  lemma NumberList(a: nat, b: nat, c: nat, maxPage: int)
    requires 1 <= a < b < c <= maxPage
    ensures PageNumbers(Decimal(a) + "," + Decimal(b) + "," + Decimal(c), maxPage) == [a, b, c]
  {
    var da, db, dc := Decimal(a), Decimal(b), Decimal(c);
    var input := da + "," + db + "," + dc;
    assert Tokens(input) == [da, db, dc] by {
      assert AllDigits(da) && AllDigits(db) && AllDigits(dc);
      TokensThree(da, db, dc);
    }
    assert Requested([da, db, dc]) == {a, b, c} by {
      RequestedThree(da, db, dc);
      NumberToken(a);
      NumberToken(b);
      NumberToken(c);
    }
    AscendingThree(a, b, c, maxPage);
  }

  lemma AscendingThree(a: int, b: int, c: int, maxPage: int)
    requires 1 <= a < b < c <= maxPage
    ensures Ascending({a, b, c}, maxPage) == [a, b, c]
  {
    AscendingUnique(Ascending({a, b, c}, maxPage), [a, b, c]);
  }

  /** The documented example "1,3,5" gives [1, 3, 5]. */
  lemma ExampleList()
    ensures PageNumbers("1,3,5", 10) == [1, 3, 5]
  {
    assert Decimal(1) + "," + Decimal(3) + "," + Decimal(5) == "1,3,5";
    NumberList(1, 3, 5, 10);
  }

  /** The pages a..b in order. */
  function Interval(a: int, b: int): (r: seq<int>)
    ensures StrictlyAscending(r)
    ensures forall p :: p in r <==> a <= p <= b
    decreases b - a
  {
    if a > b then []
    else
      var init := Interval(a, b - 1);
      assert forall i :: 0 <= i < |init| ==> init[i] in init;
      assert forall x | x in init :: x < b;
      assert forall p :: p in init + [b] <==> p in init || p == b;
      init + [b]
  }

  /** A range "a-b" within the document gives every page from a to b. */
  lemma RangeOnly(a: nat, b: nat, maxPage: int)
    requires 1 <= a && b <= maxPage
    ensures PageNumbers(Decimal(a) + "-" + Decimal(b), maxPage) == Interval(a, b)
  {
    var input := Decimal(a) + "-" + Decimal(b);
    assert Requested(Tokens(input)) == Range(a, b) by {
      assert Tokens(input) == [input] by {
        assert AllDigits(Decimal(a)) && AllDigits(Decimal(b));
        assert ' ' !in input && ',' !in input;
      }
      RangeToken(a, b);
      RequestedOne(input);
    }
    AscendingUnique(Ascending(Range(a, b), maxPage), Interval(a, b));
  }

  /** The documented example "1-5" gives [1, 2, 3, 4, 5]. */
  lemma ExampleRange()
    ensures PageNumbers("1-5", 10) == [1, 2, 3, 4, 5]
  {
    assert Interval(1, 5) == [1, 2, 3, 4, 5] by {
      assert Interval(1, 0) == [];
      assert Interval(1, 1) == [1];
      assert Interval(1, 2) == [1, 2];
      assert Interval(1, 3) == [1, 2, 3];
      assert Interval(1, 4) == [1, 2, 3, 4];
    }
    assert Decimal(1) + "-" + Decimal(5) == "1-5";
    RangeOnly(1, 5, 10);
  }

  /** Two digit strings joined by '-' hold no space and no comma. */
  lemma RangeTokenPlain(x: string, y: string)
    requires AllDigits(x) && AllDigits(y)
    ensures ' ' !in x + "-" + y && ',' !in x + "-" + y
  {
    assert forall c | c in x + "-" + y :: c in x || c == '-' || c in y;
  }

  /** What "a,b-c,d" asks for: a, b..c and d. */
  lemma NumberRangeNumberRequested(a: nat, b: nat, c: nat, d: nat)
    ensures Requested(Tokens(Decimal(a) + "," + Decimal(b) + "-" + Decimal(c) + "," + Decimal(d))) ==
      {a} + Range(b, c) + {d}
  {
    var da, dd := Decimal(a), Decimal(d);
    var range := Decimal(b) + "-" + Decimal(c);
    var input := da + "," + range + "," + dd;
    assert input == da + "," + Decimal(b) + "-" + Decimal(c) + "," + dd by {
      assert da + "," + (Decimal(b) + "-" + Decimal(c)) + "," + dd == da + "," + Decimal(b) + "-" + Decimal(c) + "," + dd;
    }
    assert Requested([da, range, dd]) == {a} + Range(b, c) + {d} by {
      RequestedThree(da, range, dd);
      NumberToken(a);
      RangeToken(b, c);
      NumberToken(d);
    }
    assert Tokens(input) == [da, range, dd] by {
      RangeTokenPlain(Decimal(b), Decimal(c));
      assert AllDigits(da) && AllDigits(dd);
      TokensThree(da, range, dd);
    }
  }

  /**
   * A number, a range and a number, comma-separated, give the union of what each asks for:
   * the result is the ascending list of exactly those pages that lie in the document.
   */
  lemma NumberRangeNumber(a: nat, b: nat, c: nat, d: nat, maxPage: int, expected: seq<int>)
    requires StrictlyAscending(expected)
    requires forall p :: p in expected <==> (p == a || b <= p <= c || p == d) && 1 <= p <= maxPage
    ensures PageNumbers(Decimal(a) + "," + Decimal(b) + "-" + Decimal(c) + "," + Decimal(d), maxPage) == expected
  {
    AscendingUnique(Ascending({a} + Range(b, c) + {d}, maxPage), expected);
    NumberRangeNumberRequested(a, b, c, d);
  }

  /** The documented example "1,3-5,7" gives [1, 3, 4, 5, 7]. */
  lemma ExampleMixed()
    ensures PageNumbers("1,3-5,7", 10) == [1, 3, 4, 5, 7]
  {
    assert Decimal(1) + "," + Decimal(3) + "-" + Decimal(5) + "," + Decimal(7) == "1,3-5,7";
    NumberRangeNumber(1, 3, 5, 7, 10, [1, 3, 4, 5, 7]);
  }

  /** A single page number within the document selects that page alone. */
  lemma SingleNumber(n: nat, maxPage: int)
    requires 1 <= n <= maxPage
    ensures PageNumbers(Decimal(n), maxPage) == [n]
  {
    assert Requested(Tokens(Decimal(n))) == {n} by {
      assert Tokens(Decimal(n)) == [Decimal(n)] by {
        assert AllDigits(Decimal(n));
        assert ' ' !in Decimal(n) && ',' !in Decimal(n);
      }
      NumberToken(n);
      RequestedOne(Decimal(n));
    }
    AscendingUnique(Ascending({n}, maxPage), [n]);
  }

  /** "1 2" is the page 12: spaces are removed before the input is split. */
  lemma SpaceJoinsDigits()
    ensures PageNumbers("1 2", 20) == [12]
  {
    assert Decimal(1) == "1" && Decimal(2) == "2" && Decimal(12) == "12";
    assert RemoveChar("1 2", ' ') == "12" by {
      RemoveSpaceBetween("1", "2");
    }
    SpacesIgnored("1 2", 20);
    SingleNumber(12, 20);
  }

  /** "3-1" runs backwards and selects nothing. */
  lemma BackwardRange()
    ensures PageNumbers("3-1", 10) == []
  {
    assert Interval(3, 1) == [];
    assert Decimal(3) + "-" + Decimal(1) == "3-1";
    RangeOnly(3, 1, 10);
  }

  /** An empty input is one malformed token: a warning about "" and no pages. */
  lemma EmptyInput(maxPage: int)
    ensures Tokens("") == [""]
    ensures Warnings(Tokens("")) == [BadNumber("")]
    ensures PageNumbers("", maxPage) == []
  {
    assert ParseInt("") == None;
    RequestedOne("");
    assert [""][..0] == [];
    SameMembersEmpty(PageNumbers("", maxPage), []);
  }

  /** "-n" is a range with an empty start: a warning, and no pages. */
  lemma NegativeToken(n: nat)
    ensures TokenPages("-" + Decimal(n)) == {}
    ensures TokenWarning("-" + Decimal(n)) == Some(BadRange("-" + Decimal(n)))
  {
    var token := "-" + Decimal(n);
    assert '-' in token by {
      assert token[0] == '-';
    }
    assert SplitOn(token, '-') == ["", Decimal(n)] by {
      assert '-' !in Decimal(n) by {
        assert AllDigits(Decimal(n));
      }
      assert token == "" + ['-'] + Decimal(n);
      SplitOnCons("", '-', Decimal(n));
    }
    assert !IsRange(token) by {
      assert ParseInt("") == None;
    }
  }

  /** "a-b-c" splits into three pieces, so it is no range: a warning, and no pages. */
  lemma ThreePartToken(a: nat, b: nat, c: nat)
    ensures TokenPages(Decimal(a) + "-" + Decimal(b) + "-" + Decimal(c)) == {}
    ensures TokenWarning(Decimal(a) + "-" + Decimal(b) + "-" + Decimal(c)).Some?
  {
    var da, db, dc := Decimal(a), Decimal(b), Decimal(c);
    var rest := db + "-" + dc;
    var token := da + "-" + rest;
    assert token == da + "-" + db + "-" + dc;
    assert '-' in token by {
      assert token[|da|] == '-';
    }
    assert |SplitOn(token, '-')| == 3 by {
      assert '-' !in da && '-' !in db && '-' !in dc by {
        assert AllDigits(da) && AllDigits(db) && AllDigits(dc);
      }
      SplitOnCons(da, '-', rest);
      SplitOnCons(db, '-', dc);
    }
    assert !IsRange(token);
  }
}
