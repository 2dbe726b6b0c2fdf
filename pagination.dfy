/**
 * The page bar (src/components/Pagination.tsx): the number of pages, when
 * the bar is shown, the guard on page changes and the disabled buttons.
 */
module Pagination {
  import opened Wrappers

  /** `Math.ceil(total / size)`: the fewest pages of `size` results that hold `total` results. */
  function TotalPages(total: nat, size: nat): (r: nat)
    requires size > 0
    ensures r * size >= total
    ensures r == 0 || (r - 1) * size < total
  {
    var r := (total + size - 1) / size;
    CeilingBounds(total, size, r);
    r
  }

  lemma CeilingBounds(total: nat, size: nat, r: nat)
    requires size > 0 && r == (total + size - 1) / size
    ensures r * size >= total
    ensures r == 0 || (r - 1) * size < total
  {
    var m := (total + size - 1) % size;
    assert total + size - 1 == r * size + m && 0 <= m < size;
    assert (r - 1) * size == r * size - size;
  }

  /** The bar renders only with more than one page. */
  predicate Renders(total: nat, size: nat)
    requires size > 0
  {
    TotalPages(total, size) > 1
  }

  /** There is a second page exactly when the results do not fit on one. */
  lemma RendersIff(total: nat, size: nat)
    requires size > 0
    ensures Renders(total, size) <==> total > size
  {
    var r := TotalPages(total, size);
    if r == 0 {
      assert r * size == 0;
    } else if r == 1 {
      assert r * size == size;
    } else {
      var below := r - 2;
      assert (r - 1) * size == below * size + size;
      assert below * size >= 0;
    }
  }

  /** `handlePageClick`: the page passed to `onPageChange`, if any. */
  function HandlePageClick(newPage: int, totalPages: int): (r: Option<int>)
    ensures r.Some? ==> r.value == newPage && 1 <= r.value <= totalPages
    ensures r.None? ==> newPage < 1 || newPage > totalPages
  {
    if newPage >= 1 && newPage <= totalPages then Some(newPage) else None
  }

  predicate PreviousDisabled(page: int)
  {
    page == 1
  }

  predicate NextDisabled(page: int, totalPages: int)
  {
    page == totalPages
  }

  /**
   * On a page inside the range, a button is disabled exactly when the guard
   * would drop its click, and an enabled button moves by one page.
   */
  lemma ButtonsMatchGuard(page: int, totalPages: int)
    requires 1 <= page <= totalPages
    ensures PreviousDisabled(page) <==> HandlePageClick(page - 1, totalPages).None?
    ensures NextDisabled(page, totalPages) <==> HandlePageClick(page + 1, totalPages).None?
    ensures !PreviousDisabled(page) ==> HandlePageClick(page - 1, totalPages) == Some(page - 1)
    ensures !NextDisabled(page, totalPages) ==> HandlePageClick(page + 1, totalPages) == Some(page + 1)
  {
  }
}
