/** The page-number strip of `src/app/components/Pagination.jsx`. */
module Pagination {
  datatype PageItem = Page(n: int) | Ellipsis

  /** The buttons for pages `lo` through `hi`, in order (none when `hi < lo`). */
  function Range(lo: int, hi: int): (r: seq<PageItem>)
    ensures |r| == (if hi < lo then 0 else hi - lo + 1)
    ensures forall i :: 0 <= i < |r| ==> r[i] == Page(lo + i)
    decreases hi - lo
  {
    if hi < lo then [] else [Page(lo)] + Range(lo + 1, hi)
  }

  /** `generatePageNumbers()`: every page when there are at most seven,
      otherwise the first and last page, a window around the current page,
      and an ellipsis for each hidden run. */
  function GeneratePageNumbers(current: int, total: int): (r: seq<PageItem>)
    ensures |r| <= 7
    ensures total >= 1 ==> |r| > 0 && r[0] == Page(1) && r[|r| - 1] == Page(total)
  {
    if total <= 7 then Range(1, total)
    else if current <= 3 then
      [Page(1), Page(2), Page(3), Page(4)] + (if total > 5 then [Ellipsis] else []) + [Page(total)]
    else if current >= total - 2 then
      [Page(1)] + (if total > 5 then [Ellipsis] else [])
      + [Page(total - 3), Page(total - 2), Page(total - 1), Page(total)]
    else
      [Page(1), Ellipsis, Page(current - 1), Page(current), Page(current + 1), Ellipsis, Page(total)]
  }

  /** The strip reads correctly: neighbouring buttons are consecutive pages,
      and every ellipsis stands between two buttons with at least one page
      hidden between them. */
  ghost predicate WellLaid(items: seq<PageItem>) {
    && (forall i :: 0 <= i < |items| - 1 && items[i].Page? && items[i + 1].Page? ==>
          items[i + 1].n == items[i].n + 1)
    && (forall i :: 0 <= i < |items| && items[i].Ellipsis? ==>
          0 < i < |items| - 1 && items[i - 1].Page? && items[i + 1].Page?
          && items[i + 1].n > items[i - 1].n + 1)
  }

  /** The facts the layout lemma states, for one strip. */
  ghost predicate GoodStrip(items: seq<PageItem>, current: int, total: int) {
    && |items| <= 7
    && WellLaid(items)
    && (total >= 1 ==> |items| > 0 && items[0] == Page(1) && items[|items| - 1] == Page(total))
    && (total < 1 ==> items == [])
    && (1 <= current <= total ==> Page(current) in items)
    && (forall i :: 0 <= i < |items| && items[i].Page? ==> 1 <= items[i].n <= total)
  }

  lemma ShortStrip(current: int, total: int)
    requires total <= 7
    ensures GeneratePageNumbers(current, total) == Range(1, total)
    ensures GoodStrip(GeneratePageNumbers(current, total), current, total)
  {
    var items := Range(1, total);
    if 1 <= current <= total {
      assert items[current - 1] == Page(current);
    }
  }

  lemma HeadStrip(current: int, total: int)
    requires total > 7 && current <= 3
    ensures GeneratePageNumbers(current, total) == [Page(1), Page(2), Page(3), Page(4), Ellipsis, Page(total)]
    ensures GoodStrip(GeneratePageNumbers(current, total), current, total)
  {
    var items := GeneratePageNumbers(current, total);
    assert items == [Page(1), Page(2), Page(3), Page(4), Ellipsis, Page(total)];
    if 1 <= current {
      assert items[current - 1] == Page(current);
    }
  }

  lemma TailStrip(current: int, total: int)
    requires total > 7 && 3 < current && current >= total - 2
    ensures GeneratePageNumbers(current, total)
      == [Page(1), Ellipsis, Page(total - 3), Page(total - 2), Page(total - 1), Page(total)]
    ensures GoodStrip(GeneratePageNumbers(current, total), current, total)
  {
    var items := GeneratePageNumbers(current, total);
    if current <= total {
      assert items[current - total + 5] == Page(current);
    }
  }

  lemma MiddleStrip(current: int, total: int)
    requires total > 7 && 3 < current < total - 2
    ensures GeneratePageNumbers(current, total)
      == [Page(1), Ellipsis, Page(current - 1), Page(current), Page(current + 1), Ellipsis, Page(total)]
    ensures GoodStrip(GeneratePageNumbers(current, total), current, total)
  {
    var items := GeneratePageNumbers(current, total);
    assert items[3] == Page(current);
  }

  /** For any current page and any page count: at most seven entries, laid out
      as above, running from page 1 to the last page, with the current page
      shown whenever it is a real page. */
  lemma GeneratePageNumbersShape(current: int, total: int)
    ensures GoodStrip(GeneratePageNumbers(current, total), current, total)
  {
    if total <= 7 {
      ShortStrip(current, total);
    } else if current <= 3 {
      HeadStrip(current, total);
    } else if current >= total - 2 {
      TailStrip(current, total);
    } else {
      MiddleStrip(current, total);
    }
  }

  /** The `totalPages > 5` tests never fail: they are only reached with more
      than seven pages. */
  lemma EllipsisTestRedundant(current: int, total: int)
    requires total > 7
    ensures Ellipsis in GeneratePageNumbers(current, total)
  {
    if current <= 3 {
      assert GeneratePageNumbers(current, total)[4] == Ellipsis;
    } else if current >= total - 2 {
      assert GeneratePageNumbers(current, total)[1] == Ellipsis;
    } else {
      assert GeneratePageNumbers(current, total)[1] == Ellipsis;
    }
  }

  /** The "previous" button's target, `Math.max(currentPage - 1, 1)`. */
  function PrevTarget(current: int): (r: int)
    ensures r >= 1
    ensures current > 1 ==> r == current - 1
    ensures current <= 1 ==> r == 1
  {
    if current - 1 > 1 then current - 1 else 1
  }

  /** The "next" button's target, `Math.min(currentPage + 1, totalPages)`. */
  function NextTarget(current: int, total: int): (r: int)
    ensures r <= total
    ensures current < total ==> r == current + 1
    ensures current >= total ==> r == total
  {
    if current + 1 < total then current + 1 else total
  }

  /** The "previous" button is disabled on page 1, "next" on the last page. */
  predicate PrevDisabled(current: int) { current == 1 }
  predicate NextDisabled(current: int, total: int) { current == total }

  /** From any page in range the buttons lead to a page in range, and an
      enabled button moves exactly one page. */
  lemma NavigationStaysInRange(current: int, total: int)
    requires 1 <= current <= total
    ensures 1 <= PrevTarget(current) <= total && 1 <= NextTarget(current, total) <= total
    ensures !PrevDisabled(current) ==> PrevTarget(current) == current - 1
    ensures !NextDisabled(current, total) ==> NextTarget(current, total) == current + 1
    ensures PrevDisabled(current) ==> PrevTarget(current) == current
    ensures NextDisabled(current, total) ==> NextTarget(current, total) == current
  {
  }
}
