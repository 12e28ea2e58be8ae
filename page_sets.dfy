/** Page lists as the tool produces them: distinct page numbers in strictly ascending order. */
module PageSets {

  predicate StrictlyAscending(xs: seq<int>) {
    forall i, j :: 0 <= i < j < |xs| ==> xs[i] < xs[j]
  }

  /** sorted(p for p in s if 1 <= p <= hi): the members of s in [1, hi], ascending. */
  function Ascending(s: set<int>, hi: int): (r: seq<int>)
    ensures StrictlyAscending(r)
    ensures forall p :: p in r <==> p in s && 1 <= p <= hi
    decreases hi
  {
    if hi < 1 then []
    else
      var init := Ascending(s, hi - 1);
      if hi !in s then init
      else
        MembersBelow(init, hi);
        AppendAbove(init, hi);
        init + [hi]
  }

  /** Every entry of a list whose members are all below n is below n. */
  lemma MembersBelow(xs: seq<int>, n: int)
    requires forall p :: p in xs ==> p < n
    ensures forall k :: 0 <= k < |xs| ==> xs[k] < n
  {
    forall k | 0 <= k < |xs| ensures xs[k] < n {
      assert xs[k] in xs;
    }
  }

  /** Appending a number above every entry of an ascending list keeps it ascending. */
  lemma AppendAbove(xs: seq<int>, n: int)
    requires StrictlyAscending(xs)
    requires forall k :: 0 <= k < |xs| ==> xs[k] < n
    ensures StrictlyAscending(xs + [n])
    ensures forall p :: p in xs + [n] <==> p in xs || p == n
  {
  }

  /** Putting a number below every member of an ascending list in front keeps it ascending. */
  lemma PrependBelow(n: int, xs: seq<int>)
    requires StrictlyAscending(xs)
    requires forall p :: p in xs ==> n < p
    ensures StrictlyAscending([n] + xs)
    ensures forall p :: p in [n] + xs <==> p == n || p in xs
  {
    MembersAbove(xs, n);
  }

  lemma MembersAbove(xs: seq<int>, n: int)
    requires forall p :: p in xs ==> n < p
    ensures forall k :: 0 <= k < |xs| ==> n < xs[k]
  {
    forall k | 0 <= k < |xs| ensures n < xs[k] {
      assert xs[k] in xs;
    }
  }

  /** list(range(1, n + 1)): every page of an n-page document, in order. */
  function AllPages(n: nat): (r: seq<int>)
    ensures |r| == n && StrictlyAscending(r)
    ensures forall p :: p in r <==> 1 <= p <= n
    ensures forall k :: 0 <= k < n ==> r[k] == k + 1
  {
    var r := seq(n, i requires 0 <= i < n => i + 1);
    forall p | 1 <= p <= n ensures p in r {
      assert r[p - 1] == p;
    }
    r
  }

  /** Inserts p into an ascending list, unless it is already there. */
  function InsertAscending(xs: seq<int>, p: int): (r: seq<int>)
    requires StrictlyAscending(xs)
    ensures StrictlyAscending(r)
    ensures forall x :: x in r <==> x in xs || x == p
  {
    if xs == [] then [p]
    else if p < xs[0] then [p] + xs
    else if p == xs[0] then xs
    else
      var rest := InsertAscending(xs[1..], p);
      TailMembers(xs);
      PrependBelow(xs[0], rest);
      assert xs == [xs[0]] + xs[1..];
      [xs[0]] + rest
  }

  /** sorted(set(xs)): the distinct members of xs, ascending. */
  function SortedDistinct(xs: seq<int>): (r: seq<int>)
    ensures StrictlyAscending(r)
    ensures forall x :: x in r <==> x in xs
  {
    if xs == [] then []
    else
      var init := xs[..|xs| - 1];
      assert xs == init + [xs[|xs| - 1]];
      InsertAscending(SortedDistinct(init), xs[|xs| - 1])
  }

  /** Two ascending lists with the same members are the same list. */
  lemma {:induction false} AscendingUnique(a: seq<int>, b: seq<int>)
    requires StrictlyAscending(a) && StrictlyAscending(b)
    requires forall x :: x in a <==> x in b
    ensures a == b
  {
    SameMembersEmpty(a, b);
    if a != [] {
      assert a[0] in b && b[0] in a;
      assert a[0] == b[0];
      TailMembers(a);
      TailMembers(b);
      AscendingUnique(a[1..], b[1..]);
      assert a == [a[0]] + a[1..] && b == [b[0]] + b[1..];
    }
  }

  lemma SameMembersEmpty(a: seq<int>, b: seq<int>)
    requires forall x :: x in a <==> x in b
    ensures a == [] <==> b == []
  {
    if a != [] {
      var x := a[0];
      assert x in a;
    }
    if b != [] {
      var x := b[0];
      assert x in b;
    }
  }

  lemma TailMembers(a: seq<int>)
    requires StrictlyAscending(a) && a != []
    ensures forall x :: x in a[1..] <==> x in a && x != a[0]
  {
    forall x | x in a ensures x in a[1..] || x == a[0] {
      var i :| 0 <= i < |a| && a[i] == x;
      if i > 0 {
        assert a[1..][i - 1] == x;
      }
    }
    forall x | x in a[1..] ensures x in a && x != a[0] {
      var i :| 0 <= i < |a| - 1 && a[1..][i] == x;
      assert a[i + 1] == x;
    }
  }

  /** Deduplicating and sorting an ascending list changes nothing. */
  lemma SortedDistinctOfAscending(xs: seq<int>)
    requires StrictlyAscending(xs)
    ensures SortedDistinct(xs) == xs
  {
    AscendingUnique(SortedDistinct(xs), xs);
  }

  /** At most hi pages of [1, hi] can be listed, and all hi exactly when every page is in s. */
  lemma {:induction false} AscendingCount(s: set<int>, hi: nat)
    ensures |Ascending(s, hi)| <= hi
    ensures |Ascending(s, hi)| == hi <==> forall p :: 1 <= p <= hi ==> p in s
  {
    if hi > 0 {
      AscendingCount(s, hi - 1);
      var init := Ascending(s, hi - 1);
      if hi in s {
        assert Ascending(s, hi) == init + [hi];
        if forall p :: 1 <= p <= hi ==> p in s {
          assert forall p :: 1 <= p <= hi - 1 ==> p in s;
        } else {
          var q :| 1 <= q <= hi && q !in s;
          assert q < hi;
        }
      } else {
        assert Ascending(s, hi) == init;
      }
    }
  }

  /**
   * An ascending list of pages of an n-page document has at most n entries, and n entries
   * exactly when it names every page.
   */
  lemma AscendingPagesCount(xs: seq<int>, n: nat)
    requires StrictlyAscending(xs)
    requires forall x :: x in xs ==> 1 <= x <= n
    ensures |xs| <= n
    ensures |xs| == n <==> forall p :: 1 <= p <= n ==> p in xs
  {
    var s := set x | x in xs;
    AscendingUnique(Ascending(s, n), xs);
    AscendingCount(s, n);
  }
}
