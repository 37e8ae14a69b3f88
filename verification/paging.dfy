/** The page arithmetic shared by the upload list (page size 5, 7 or 10) and the
    employee table (10 rows): a page count of `max(1, ceil(n / size))`, 1-based
    page numbers, and the window `slice((page - 1) * size, page * size)`. */
module Paging {
  import opened Basics
  import Seqs

  /** `Math.max(1, Math.ceil(n / size))`: the fewest pages of `size` items that hold
      `n` items, and at least one. */
  function TotalPages(n: nat, size: nat): (r: nat)
    requires size >= 1
    ensures r >= 1
    ensures n <= r * size
    ensures r == 1 || (r - 1) * size < n
  {
    var c := (n + size - 1) / size;
    CeilBounds(n, size);
    if c < 1 then 1 else c
  }

  lemma CeilBounds(n: nat, size: nat)
    requires size >= 1
    ensures n <= ((n + size - 1) / size) * size
    ensures ((n + size - 1) / size) * size <= n + size - 1
  {
    var x := n + size - 1;
    var c := x / size;
    assert x == c * size + x % size;
  }

  /** Index of the first item shown on `page`. */
  function PageStart(page: int, size: nat): int {
    (page - 1) * size
  }

  /** The items shown on `page`: `items.slice(start, start + size)`. */
  function PageSlice<T>(items: seq<T>, page: int, size: nat): (r: seq<T>)
    ensures page >= 1 ==> |r| <= size
    ensures page >= 1 && PageStart(page, size) <= |items| ==>
      r == items[PageStart(page, size)..Min(PageStart(page, size) + size, |items|)]
  {
    var start := PageStart(page, size);
    StartNonNegative(page, size);
    Seqs.Slice(items, start, start + size)
  }

  /** Paging after an element-wise change shows the changed elements of the same page. */
  lemma PageSliceMap<T, U>(items: seq<T>, f: T -> U, page: int, size: nat)
    ensures PageSlice(Seqs.Map(items, f), page, size) == Seqs.Map(PageSlice(items, page, size), f)
  {
    var a := Seqs.ClampIndex(PageStart(page, size), |items|);
    var b := Seqs.ClampIndex(PageStart(page, size) + size, |items|);
    if a < b {
      Seqs.MapSlice(items, f, a, b);
    }
  }

  lemma StartNonNegative(page: int, size: nat)
    ensures page >= 1 ==> PageStart(page, size) >= 0
  {
    if page >= 1 {
      MulNonNegative(page - 1, size);
    }
  }

  lemma MulNonNegative(a: nat, b: nat)
    ensures a * b >= 0
  {
  }

  lemma MulMonotone(a: int, b: int, size: nat)
    requires a <= b
    ensures a * size <= b * size
  {
  }

  /** A page within `[1, totalPages]` starts on an existing item unless there are
      none; so such a page is never empty while items remain. */
  lemma PageInRangeNotEmpty<T>(items: seq<T>, page: int, size: nat)
    requires size >= 1
    requires 1 <= page <= TotalPages(|items|, size)
    ensures 0 <= PageStart(page, size) <= |items|
    ensures |PageSlice(items, page, size)| == 0 <==> |items| == 0
  {
    var tp := TotalPages(|items|, size);
    MulMonotone(page - 1, tp - 1, size);
    MulNonNegative(page - 1, size);
  }

  /** Every item lies on exactly the page `i / size + 1`, which is a valid page, at
      offset `i % size`: paging loses nothing. */
  lemma ItemOnItsPage<T>(items: seq<T>, i: nat, size: nat)
    requires size >= 1
    requires i < |items|
    ensures var p, k := i / size + 1, i % size;
      && 1 <= p <= TotalPages(|items|, size)
      && k < |PageSlice(items, p, size)|
      && PageSlice(items, p, size)[k] == items[i]
  {
    var q, rem := i / size, i % size;
    DivMod(i, size);
    ItemAt(items, q, rem, size);
  }

  lemma DivMod(i: nat, size: nat)
    requires size >= 1
    ensures i == (i / size) * size + i % size
    ensures 0 <= i % size < size && i / size >= 0
  {
  }

  /** The item at offset `rem` of page `q + 1`. */
  lemma ItemAt<T>(items: seq<T>, q: nat, rem: nat, size: nat)
    requires size >= 1 && rem < size
    requires q * size + rem < |items|
    ensures 1 <= q + 1 <= TotalPages(|items|, size)
    ensures rem < |PageSlice(items, q + 1, size)|
    ensures PageSlice(items, q + 1, size)[rem] == items[q * size + rem]
  {
    var tp := TotalPages(|items|, size);
    MulLessCancel(q, tp, size);
    assert PageStart(q + 1, size) == q * size;
    assert PageSlice(items, q + 1, size) == items[q * size..Min(q * size + size, |items|)];
  }

  /** Dividing out a positive factor keeps a strict order. */
  lemma MulLessCancel(a: nat, b: nat, size: nat)
    requires size >= 1 && a * size < b * size
    ensures a < b
  {
    if b <= a {
      MulMonotone(b, a, size);
    }
  }

  /** The previous-page button: `Math.max(1, p - 1)`. */
  function Prev(page: int): (r: int)
    ensures r >= 1
    ensures page > 1 ==> r == page - 1
    ensures page <= 1 ==> r == 1
  {
    Max(1, page - 1)
  }

  /** The next-page button: `Math.min(totalPages, p + 1)`. */
  function Next(page: int, totalPages: nat): (r: int)
    requires totalPages >= 1
    ensures r <= totalPages
    ensures page >= 1 ==> r >= 1
    ensures page < totalPages ==> r == page + 1
    ensures page >= totalPages ==> r == totalPages
  {
    Min(totalPages, page + 1)
  }

  /** Prev and Next keep a page that is in range in range. */
  lemma PrevNextStayInRange(page: int, totalPages: nat)
    requires 1 <= page <= totalPages
    ensures 1 <= Prev(page) <= totalPages
    ensures 1 <= Next(page, totalPages) <= totalPages
  {
  }
}
