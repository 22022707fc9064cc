/** The last stage of the pipeline: `paginatedUsers` slices the sorted list, and
    `totalPages` counts the pages. */
module Paging {

  function Min(a: int, b: int): int {
    if a <= b then a else b
  }

  /** Where `slice` starts or stops for the argument `i` on a list of length `n`: a negative
      argument counts back from the end, and the result is clamped to `[0, n]`. */
  function SliceIndex(i: int, n: nat): (j: nat)
    ensures j <= n
    ensures 0 <= i ==> j == Min(i, n)
  {
    if i < 0 then (if n + i < 0 then 0 else n + i) else Min(i, n)
  }

  /** `s.slice(start, end)`. */
  function Slice<T>(s: seq<T>, start: int, end: int): (r: seq<T>)
    ensures |r| <= |s|
    ensures start <= end ==> |r| <= end - start
  {
    var from, to := SliceIndex(start, |s|), SliceIndex(end, |s|);
    if from < to then s[from..to] else []
  }

  /** Page `page` of `perPage` records: the slice from `(page - 1) * perPage` to
      `(page - 1) * perPage + perPage`. */
  function Page<T>(s: seq<T>, page: int, perPage: int): (r: seq<T>)
    ensures 0 <= perPage ==> |r| <= perPage
    ensures perPage == 0 ==> r == []
  {
    var start := (page - 1) * perPage;
    Slice(s, start, start + perPage)
  }

  /** `Math.ceil(n / perPage)`: the least number of pages of `perPage` that hold `n`
      records. */
  function PageCount(n: nat, perPage: int): (r: nat)
    requires perPage > 0
    ensures n <= r * perPage
    ensures (r - 1) * perPage < n
  {
    var q := (n + perPage - 1) / perPage;
    var m := (n + perPage - 1) % perPage;
    assert n + perPage - 1 == q * perPage + m && 0 <= m < perPage;
    assert (q - 1) * perPage == q * perPage - perPage;
    q
  }

  /** 25 records at 10 per page take 3 pages; no records take none. */
  lemma PageCountExamples()
    ensures PageCount(25, 10) == 3
    ensures PageCount(0, 10) == 0
  {
  }

  /** One more page moves the start on by one page size. */
  lemma MulStep(m: int, k: int)
    ensures (m - 1) * k + k == m * k
  {
  }

  /** From page 1 on, a page is the part of `[(page - 1) * perPage, (page - 1) * perPage +
      perPage)` inside the list. */
  lemma PageSlice<T>(s: seq<T>, page: int, perPage: int)
    requires page >= 1 && perPage > 0
    ensures (page - 1) * perPage >= 0
    ensures Page(s, page, perPage) == s[Min((page - 1) * perPage, |s|)..Min((page - 1) * perPage + perPage, |s|)]
  {
    MulMonotone(0, page - 1, perPage);
  }

  /** From page 1 on, a page holds at most `perPage` records, the ones from its start on,
      and is empty once the start is at or past the end. */
  lemma PageIsClampedSlice<T>(s: seq<T>, page: int, perPage: int)
    requires page >= 1 && perPage > 0
    ensures var start := (page - 1) * perPage;
            && Page(s, page, perPage) == s[Min(start, |s|)..Min(start + perPage, |s|)]
            && |Page(s, page, perPage)| <= perPage
            && (start >= |s| ==> Page(s, page, perPage) == [])
            && forall i :: 0 <= i < |Page(s, page, perPage)| ==> Page(s, page, perPage)[i] == s[start + i]
  {
    PageSlice(s, page, perPage);
  }

  /** The pages `1 .. m` one after the other. */
  function PagesUpTo<T>(s: seq<T>, perPage: int, m: nat): seq<T> {
    if m == 0 then [] else PagesUpTo(s, perPage, m - 1) + Page(s, m, perPage)
  }

  /** The first `m` pages together are the first `m * perPage` records. */
  lemma {:induction false} PagesUpToPrefix<T>(s: seq<T>, perPage: int, m: nat)
    requires perPage > 0
    ensures PagesUpTo(s, perPage, m) == s[..Min(m * perPage, |s|)]
  {
    if m > 0 {
      PagesUpToPrefix(s, perPage, m - 1);
      PageSlice(s, m, perPage);
      var a := (m - 1) * perPage;
      MulStep(m, perPage);
      var i, j := Min(a, |s|), Min(a + perPage, |s|);
      assert s[..i] + s[i..j] == s[..j];
    }
  }

  /** The pages `1 .. PageCount(|s|, perPage)` together hold the whole list, in order. */
  lemma PagesCoverAll<T>(s: seq<T>, perPage: int)
    requires perPage > 0
    ensures PagesUpTo(s, perPage, PageCount(|s|, perPage)) == s
  {
    PagesUpToPrefix(s, perPage, PageCount(|s|, perPage));
  }

  /** Multiplying by a non-negative factor keeps the order. */
  lemma MulMonotone(a: int, b: int, k: int)
    requires a <= b && 0 <= k
    ensures a * k <= b * k
  {
    assert b * k - a * k == (b - a) * k;
  }

  /** From page 1 on, a page is empty exactly when its number is past the page count. */
  lemma PageEmptyIff<T>(s: seq<T>, page: int, perPage: int)
    requires page >= 1 && perPage > 0
    ensures Page(s, page, perPage) == [] <==> page > PageCount(|s|, perPage)
  {
    var n := PageCount(|s|, perPage);
    var start := (page - 1) * perPage;
    PageSlice(s, page, perPage);
    if page > n {
      MulMonotone(n, page - 1, perPage);
      assert start >= |s|;
    } else {
      MulMonotone(page - 1, n - 1, perPage);
      assert start < |s|;
      assert Min(start, |s|) < Min(start + perPage, |s|);
    }
  }

  /** No clamping of the page number: page 0 is empty, and a negative page counts back
      from the end of the list. */
  lemma NonPositivePages<T>(s: seq<T>, perPage: int)
    requires perPage > 0
    ensures Page(s, 0, perPage) == []
    ensures 2 * perPage <= |s| ==> Page(s, -1, perPage) == s[|s| - 2 * perPage..|s| - perPage]
  {
  }
}
