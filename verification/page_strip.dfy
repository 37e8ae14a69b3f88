/** The page-number strip under the upload list (`getPageNumbers`): every page
    when there are at most seven, otherwise the first page, the current page with
    its neighbours, the last page, and an ellipsis for each run of pages left out. */
module PageStrip {
  import opened Basics

  datatype PageButton = Number(n: int) | LeftEllipsis | RightEllipsis

  /** At most this many pages are listed without ellipses. */
  const MaxButtons := 7

  /** The buttons for pages `lo` to `hi`, in order. */
  function Range(lo: int, hi: int): (r: seq<PageButton>)
    ensures |r| == if lo <= hi then hi - lo + 1 else 0
    ensures forall i :: 0 <= i < |r| ==> r[i] == Number(lo + i)
    decreases hi - lo
  {
    if lo > hi then [] else [Number(lo)] + Range(lo + 1, hi)
  }

  /** `getPageNumbers()` for `totalPages` pages with `currentPage` shown. */
  function PageNumbers(totalPages: int, currentPage: int): (r: seq<PageButton>)
    ensures totalPages <= MaxButtons ==> r == Range(1, totalPages)
  {
    if totalPages <= MaxButtons then Range(1, totalPages)
    else
      var left := Max(2, currentPage - 1);
      var right := Min(totalPages - 1, currentPage + 1);
      [Number(1)]
      + (if left > 2 then [LeftEllipsis] else [])
      + Range(left, right)
      + (if right < totalPages - 1 then [RightEllipsis] else [])
      + [Number(totalPages)]
  }

  /** A strip for `totalPages` pages: it opens with page 1 and closes with the last
      page, consecutive numbers differ by one, and each ellipsis stands between two
      numbers and for at least one page between them. Such a strip lists its pages
      in increasing order and accounts for every page. */
  ghost predicate WellFormed(r: seq<PageButton>, totalPages: int) {
    && |r| > 0
    && r[0] == Number(1)
    && r[|r| - 1] == Number(totalPages)
    && (forall i :: 0 <= i < |r| - 1 && r[i].Number? && r[i + 1].Number? ==> r[i + 1].n == r[i].n + 1)
    && (forall i :: 0 <= i < |r| && !r[i].Number? ==>
          && 0 < i < |r| - 1
          && r[i - 1].Number? && r[i + 1].Number?
          && r[i + 1].n > r[i - 1].n + 1)
  }

  /** For a current page in range the strip is well formed, lists the current page,
      and has at most seven entries. */
  lemma PageNumbersWellFormed(totalPages: int, currentPage: int)
    requires 1 <= currentPage <= totalPages
    ensures WellFormed(PageNumbers(totalPages, currentPage), totalPages)
    ensures Number(currentPage) in PageNumbers(totalPages, currentPage)
    ensures |PageNumbers(totalPages, currentPage)| <= MaxButtons
  {
    var r := PageNumbers(totalPages, currentPage);
    if totalPages <= MaxButtons {
      assert r[currentPage - 1] == Number(currentPage);
    } else {
      LongStripListsCurrent(totalPages, currentPage);
      LongStripConsecutive(totalPages, currentPage);
      LongStripEllipses(totalPages, currentPage);
    }
  }

  lemma LongStripListsCurrent(totalPages: int, currentPage: int)
    requires 1 <= currentPage <= totalPages && totalPages > MaxButtons
    ensures Number(currentPage) in PageNumbers(totalPages, currentPage)
    ensures |PageNumbers(totalPages, currentPage)| <= MaxButtons
  {
    var r := PageNumbers(totalPages, currentPage);
    var left := Max(2, currentPage - 1);
    var m := if left > 2 then 2 else 1;
    StripEntries(totalPages, currentPage);
    if currentPage == 1 {
      assert r[0] == Number(currentPage);
    } else if currentPage == totalPages {
      assert r[|r| - 1] == Number(currentPage);
    } else {
      assert r[m + currentPage - left] == Number(currentPage);
    }
  }

  lemma LongStripConsecutive(totalPages: int, currentPage: int)
    requires 1 <= currentPage <= totalPages && totalPages > MaxButtons
    ensures var r := PageNumbers(totalPages, currentPage);
      forall i :: 0 <= i < |r| - 1 && r[i].Number? && r[i + 1].Number? ==> r[i + 1].n == r[i].n + 1
  {
    StripEntries(totalPages, currentPage);
  }

  lemma LongStripEllipses(totalPages: int, currentPage: int)
    requires 1 <= currentPage <= totalPages && totalPages > MaxButtons
    ensures var r := PageNumbers(totalPages, currentPage);
      forall i :: 0 <= i < |r| && !r[i].Number? ==>
        && 0 < i < |r| - 1
        && r[i - 1].Number? && r[i + 1].Number?
        && r[i + 1].n > r[i - 1].n + 1
  {
    var r := PageNumbers(totalPages, currentPage);
    var left := Max(2, currentPage - 1);
    var right := Min(totalPages - 1, currentPage + 1);
    var m := if left > 2 then 2 else 1;
    var e := m + right - left + 1;
    StripEntries(totalPages, currentPage);
    forall i | 0 <= i < |r| && !r[i].Number?
      ensures 0 < i < |r| - 1 && r[i - 1].Number? && r[i + 1].Number? && r[i + 1].n > r[i - 1].n + 1
    {
      if i == 1 && m == 2 {
        assert r[i - 1] == Number(1) && r[i + 1] == Number(left);
      } else {
        assert i == e;
        assert r[i - 1] == Number(right) && r[i + 1] == Number(totalPages);
      }
    }
  }

  /** Entry by entry, the strip for more than seven pages: page 1, the left ellipsis
      when `left > 2`, the pages `left` to `right`, the right ellipsis when
      `right < totalPages - 1`, and the last page. */
  lemma StripEntries(totalPages: int, currentPage: int)
    requires 1 <= currentPage <= totalPages && totalPages > MaxButtons
    ensures var left := Max(2, currentPage - 1);
            var right := Min(totalPages - 1, currentPage + 1);
            var m := if left > 2 then 2 else 1;
            var e := m + right - left + 1;
            var r := PageNumbers(totalPages, currentPage);
            && left <= right <= left + 2
            && |r| == e + (if right < totalPages - 1 then 1 else 0) + 1
            && r[0] == Number(1)
            && (m == 2 ==> r[1] == LeftEllipsis)
            && (forall i :: m <= i < e ==> r[i] == Number(left + i - m))
            && (right < totalPages - 1 ==> r[e] == RightEllipsis)
            && r[|r| - 1] == Number(totalPages)
  {
    var left := Max(2, currentPage - 1);
    var right := Min(totalPages - 1, currentPage + 1);
    var le: seq<PageButton> := if left > 2 then [LeftEllipsis] else [];
    var mid := Range(left, right);
    var re: seq<PageButton> := if right < totalPages - 1 then [RightEllipsis] else [];
    var r := PageNumbers(totalPages, currentPage);
    var m := 1 + |le|;
    assert r == ([Number(1)] + le) + mid + (re + [Number(totalPages)]);
    forall i | m <= i < m + |mid| ensures r[i] == Number(left + i - m) {
      assert r[i] == mid[i - m];
    }
    assert r[m + |mid|..] == re + [Number(totalPages)];
  }

  /** Every page appears on a well-formed strip, as a number or inside the run
      an ellipsis stands for. */
  lemma WellFormedCoversEveryPage(r: seq<PageButton>, totalPages: int, p: int)
    requires WellFormed(r, totalPages)
    requires 1 <= p <= totalPages
    ensures || Number(p) in r
            || exists i :: 0 < i < |r| - 1 && !r[i].Number? && r[i - 1].Number? && r[i + 1].Number?
                           && r[i - 1].n < p < r[i + 1].n
  {
    // walk to the last entry that does not lie past p
    var k := 0;
    while k + 1 < |r| && (!r[k + 1].Number? || r[k + 1].n <= p)
      invariant 0 <= k < |r|
      invariant r[k].Number? ==> r[k].n <= p
      invariant !r[k].Number? ==> 0 < k < |r| - 1 && r[k - 1].Number? && r[k - 1].n <= p
      decreases |r| - k
    {
      k := k + 1;
    }
    if r[k].Number? {
      if k + 1 < |r| {
        assert r[k + 1].n == r[k].n + 1;
      }
      assert r[k] == Number(p);
    } else if r[k - 1].n == p {
      assert r[k - 1] == Number(p);
    } else {
      assert r[k + 1].Number? && r[k + 1].n > p;
    }
  }
}
