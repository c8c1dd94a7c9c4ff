/** The view projection of the spot page: the rows of the fetched list whose
    name contains the search term, ignoring case, and the page of them that
    the table shows. Both are recomputed from the page state on every render. */
module SpotView {
  import opened Wrappers
  import opened SpotTypes

  function Min(a: int, b: int): int { if a <= b then a else b }

  function Max(a: int, b: int): int { if a <= b then b else a }

  // ---------------------------------------------------------------------
  // Case-insensitive substring match

  /** Lower-casing of one character; only the ASCII letters are mapped. */
  function LowerChar(c: char): char {
    if 'A' <= c <= 'Z' then (c as int + 32) as char else c
  }

  /** `toLowerCase`, applied character by character. */
  function Lower(s: string): (r: string)
    ensures |r| == |s|
    ensures forall i :: 0 <= i < |s| ==> r[i] == LowerChar(s[i])
  {
    if s == [] then [] else [LowerChar(s[0])] + Lower(s[1..])
  }

  /** Lower-casing twice is lower-casing once. */
  lemma LowerIdempotent(s: string)
    ensures Lower(Lower(s)) == Lower(s)
  {
  }

  /** String inclusion: some suffix of `hay` starts with `needle`. A needle
      that is a prefix is included, and no needle longer than the haystack is. */
  function Includes(hay: string, needle: string): (b: bool)
    ensures needle <= hay ==> b
    ensures b ==> |needle| <= |hay|
    decreases |hay|
  {
    needle <= hay || (|hay| > 0 && Includes(hay[1..], needle))
  }

  /** `needle` occurs in `hay` starting at index `i`. */
  ghost predicate OccursAt(hay: string, needle: string, i: int) {
    0 <= i && i + |needle| <= |hay| && hay[i..i + |needle|] == needle
  }

  /** `Includes` is the substring relation: it holds exactly when the needle
      occurs at some index of the haystack. */
  lemma {:induction false} IncludesIffOccurs(hay: string, needle: string)
    ensures Includes(hay, needle) <==> exists i :: OccursAt(hay, needle, i)
    decreases |hay|
  {
    if needle <= hay {
      assert OccursAt(hay, needle, 0);
    } else if |hay| == 0 {
    } else {
      IncludesIffOccurs(hay[1..], needle);
      if exists j :: OccursAt(hay[1..], needle, j) {
        var j :| OccursAt(hay[1..], needle, j);
        assert hay[1..][j..j + |needle|] == hay[j + 1..j + 1 + |needle|];
        assert OccursAt(hay, needle, j + 1);
      }
      if exists i :: OccursAt(hay, needle, i) {
        var i :| OccursAt(hay, needle, i);
        assert i != 0;
        assert hay[1..][i - 1..i - 1 + |needle|] == hay[i..i + |needle|];
        assert OccursAt(hay[1..], needle, i - 1);
      }
    }
  }

  /** The empty search term is contained in every name. */
  lemma {:induction false} IncludesEmpty(hay: string)
    ensures Includes(hay, "")
  {
  }

  /** The filter's test: the spot has a name and, lower-cased, that name
      contains the lower-cased search term. A spot without a name never
      matches. */
  predicate Matches(s: Spot, term: string): (b: bool)
    ensures b <==> s.name.Some? && exists i :: OccursAt(Lower(s.name.value), Lower(term), i)
  {
    if s.name.Some? then
      IncludesIffOccurs(Lower(s.name.value), Lower(term));
      assert Includes(Lower(s.name.value), Lower(term)) <==> exists i :: OccursAt(Lower(s.name.value), Lower(term), i);
      Includes(Lower(s.name.value), Lower(term))
    else
      false
  }

  /** The match ignores the case of both the term and the name. */
  lemma MatchesIgnoresCase(s: Spot, term: string)
    requires s.name.Some?
    ensures Matches(s, Lower(term)) == Matches(s, term)
    ensures Matches(s.(name := Some(Lower(s.name.value))), term) == Matches(s, term)
  {
    LowerIdempotent(term);
    LowerIdempotent(s.name.value);
  }

  // ---------------------------------------------------------------------
  // filteredRows

  /** The spots of the list, in their order, that have a name containing the
      search term when both are lower-cased. */
  function FilteredRows(spots: seq<Spot>, term: string): (r: seq<Spot>)
    ensures |r| <= |spots|
    ensures forall x :: x in r ==> x in spots && x.name.Some? && Matches(x, term)
  {
    if spots == [] then []
    else (if Matches(spots[0], term) then [spots[0]] else []) + FilteredRows(spots[1..], term)
  }

  /** `xs` is `ys` with some elements left out, the rest in their order. */
  ghost predicate IsSubsequence<T>(xs: seq<T>, ys: seq<T>)
    decreases |ys|
  {
    xs == [] ||
    (ys != [] &&
     ((xs[0] == ys[0] && IsSubsequence(xs[1..], ys[1..])) || IsSubsequence(xs, ys[1..])))
  }

  /** The filter keeps the order of the list. */
  lemma {:induction false} FilteredRowsIsSubsequence(spots: seq<Spot>, term: string)
    ensures IsSubsequence(FilteredRows(spots, term), spots)
  {
    if spots != [] {
      FilteredRowsIsSubsequence(spots[1..], term);
      var rest := FilteredRows(spots[1..], term);
      if Matches(spots[0], term) {
        assert FilteredRows(spots, term) == [spots[0]] + rest;
        assert ([spots[0]] + rest)[1..] == rest;
      } else {
        assert FilteredRows(spots, term) == rest;
      }
    }
  }

  /** Every occurrence of a matching spot is kept and no other spot appears:
      together with the order, this determines the result. */
  lemma {:induction false} FilteredRowsCounts(spots: seq<Spot>, term: string, x: Spot)
    ensures multiset(FilteredRows(spots, term))[x] ==
            if Matches(x, term) then multiset(spots)[x] else 0
  {
    if spots != [] {
      FilteredRowsCounts(spots[1..], term, x);
      assert spots == [spots[0]] + spots[1..];
      assert multiset(spots) == multiset([spots[0]]) + multiset(spots[1..]);
    }
  }

  /** A spot is shown by the filter exactly when it is in the list and matches. */
  lemma FilteredRowsMembership(spots: seq<Spot>, term: string, x: Spot)
    ensures x in FilteredRows(spots, term) <==> x in spots && Matches(x, term)
  {
    FilteredRowsCounts(spots, term, x);
  }

  /** With an empty search term the filter keeps exactly the named spots, and
      is the identity on a list whose spots all have names. */
  lemma {:induction false} FilteredRowsEmptyTerm(spots: seq<Spot>)
    ensures forall x :: x in FilteredRows(spots, "") <==> x in spots && x.name.Some?
    ensures (forall i :: 0 <= i < |spots| ==> spots[i].name.Some?) ==> FilteredRows(spots, "") == spots
  {
    forall x | x in spots && x.name.Some?
      ensures x in FilteredRows(spots, "")
    {
      IncludesEmpty(Lower(x.name.value));
      FilteredRowsMembership(spots, "", x);
    }
    if spots != [] {
      FilteredRowsEmptyTerm(spots[1..]);
      if spots[0].name.Some? {
        IncludesEmpty(Lower(spots[0].name.value));
      }
    }
  }

  // ---------------------------------------------------------------------
  // displayedRows

  /** Array slicing for non-negative bounds: both bounds are clamped to the
      length, and the result is empty when the clamped start is not below the
      clamped end. */
  function Slice<T>(s: seq<T>, start: nat, end: nat): (r: seq<T>)
    ensures |r| == Max(0, Min(end, |s|) - Min(start, |s|))
    ensures forall k :: 0 <= k < |r| ==> r[k] == s[Min(start, |s|) + k]
  {
    var from := Min(start, |s|);
    var to := Min(end, |s|);
    if from < to then s[from..to] else []
  }

  /** The rows of one page: the run of `rowsPerPage` rows that starts at the
      page's first row, cut off at the end of the list. A page past the end
      is empty. */
  function DisplayedRows<T>(rows: seq<T>, page: nat, rowsPerPage: nat): (r: seq<T>)
    ensures |r| == Max(0, Min(rowsPerPage, |rows| - page * rowsPerPage))
    ensures forall k :: 0 <= k < |r| ==> r[k] == rows[page * rowsPerPage + k]
    ensures page * rowsPerPage >= |rows| ==> r == []
  {
    Slice(rows, page * rowsPerPage, page * rowsPerPage + rowsPerPage)
  }

  /** Row `k` of the list is shown on page `k / rowsPerPage`, at position
      `k % rowsPerPage`. */
  lemma RowOnItsPage<T>(rows: seq<T>, rowsPerPage: nat, k: nat)
    requires rowsPerPage > 0 && k < |rows|
    ensures k % rowsPerPage < |DisplayedRows(rows, k / rowsPerPage, rowsPerPage)|
    ensures DisplayedRows(rows, k / rowsPerPage, rowsPerPage)[k % rowsPerPage] == rows[k]
  {
    var p, q := k / rowsPerPage, k % rowsPerPage;
    assert p * rowsPerPage + q == k;
    assert p * rowsPerPage <= k;
  }

  /** Pages `0 .. n-1`, one after the other. */
  function PagesUpTo<T>(rows: seq<T>, rowsPerPage: nat, n: nat): seq<T> {
    if n == 0 then [] else PagesUpTo(rows, rowsPerPage, n - 1) + DisplayedRows(rows, n - 1, rowsPerPage)
  }

  /** The first `n` pages, put together, are the first `n * rowsPerPage` rows:
      paging loses no row and shows none twice. */
  lemma {:induction false} PagesUpToIsPrefix<T>(rows: seq<T>, rowsPerPage: nat, n: nat)
    ensures PagesUpTo(rows, rowsPerPage, n) == rows[..Min(n * rowsPerPage, |rows|)]
  {
    if n > 0 {
      PagesUpToIsPrefix(rows, rowsPerPage, n - 1);
      var start := (n - 1) * rowsPerPage;
      NextPageStart(n, rowsPerPage);
      assert DisplayedRows(rows, n - 1, rowsPerPage) == Slice(rows, start, n * rowsPerPage);
      PrefixThenSlice(rows, start, n * rowsPerPage);
    }
  }

  /** Page `n` starts where page `n - 1` ends. */
  lemma NextPageStart(n: nat, rowsPerPage: nat)
    requires n > 0
    ensures (n - 1) * rowsPerPage + rowsPerPage == n * rowsPerPage
  {
  }

  /** The rows before `a`, followed by the slice from `a` to `b`, are the rows
      before `b`. */
  lemma PrefixThenSlice<T>(rows: seq<T>, a: nat, b: nat)
    requires a <= b
    ensures rows[..Min(a, |rows|)] + Slice(rows, a, b) == rows[..Min(b, |rows|)]
  {
    var lo, hi := Min(a, |rows|), Min(b, |rows|);
    if lo < hi {
      assert rows[..lo] + rows[lo..hi] == rows[..hi];
    }
  }

  // ---------------------------------------------------------------------
  // Worked examples

  function Named(name: string, districtId: string): Spot {
    NoAttributes.(name := Some(name), districtId := Some(districtId))
  }

  /** A list with one spot "Ha Long Bay": the search "ha long" shows one row,
      the search "hanoi" shows none and the pager counts none. */
  lemma HaLongBayExample()
    ensures |DisplayedRows(FilteredRows([Named("Ha Long Bay", "d1")], "ha long"), 0, 5)| == 1
    ensures FilteredRows([Named("Ha Long Bay", "d1")], "hanoi") == []
  {
    var s := Named("Ha Long Bay", "d1");
    LowerExamples();
    assert "ha long" <= "ha long bay";
    assert Matches(s, "ha long");
    assert FilteredRows([s], "ha long") == [s] + FilteredRows([s][1..], "ha long");
    NoHanoiInHaLongBay();
    assert !Matches(s, "hanoi");
  }

  lemma NoHanoiInHaLongBay()
    ensures !Includes("ha long bay", "hanoi")
  {
    var h := "ha long bay";
    NoHanoiFrom(1);
    assert h[1..] == "a long bay";
    assert h[2] != "hanoi"[2];
  }

  /** No suffix of "ha long bay" after the first starts with 'h'. */
  lemma NoHanoiFrom(k: nat)
    requires 1 <= k <= 11
    ensures !Includes("ha long bay"[k..], "hanoi")
    decreases 11 - k
  {
    var h := "ha long bay";
    if k < 11 {
      NoHanoiFrom(k + 1);
      assert h[k..][1..] == h[k + 1..];
      assert h[k..][0] == h[k] != 'h';
    }
  }

  lemma LowerExamples()
    ensures Lower("Ha Long Bay") == "ha long bay"
    ensures Lower("ha long") == "ha long"
    ensures Lower("hanoi") == "hanoi"
  {
    LowerHaLongBay();
    LowerHaLong();
    LowerHanoi();
  }

  lemma LowerHaLongBay()
    ensures Lower("Ha Long Bay") == "ha long bay"
  {
    LowerPointwise("Ha Long Bay", "ha long bay");
  }

  /** A string whose characters lower-case one by one to those of `t`
      lower-cases to `t`. */
  lemma LowerPointwise(s: string, t: string)
    requires |s| == |t| && forall i :: 0 <= i < |s| ==> LowerChar(s[i]) == t[i]
    ensures Lower(s) == t
  {
  }

  lemma LowerHaLong()
    ensures Lower("ha long") == "ha long"
  {
    LowerPointwise("ha long", "ha long");
  }

  lemma LowerHanoi()
    ensures Lower("hanoi") == "hanoi"
  {
    LowerPointwise("hanoi", "hanoi");
  }

  /** Twelve rows, five per page: page 0 holds rows 0-4, page 2 rows 10-11
      and page 3 nothing. */
  lemma TwelveRowsExample<T>(rows: seq<T>)
    requires |rows| == 12
    ensures DisplayedRows(rows, 0, 5) == rows[0..5]
    ensures DisplayedRows(rows, 2, 5) == rows[10..12]
    ensures DisplayedRows(rows, 3, 5) == []
  {
  }
}
