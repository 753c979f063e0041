/** The window of numbered page buttons under the table. */
module Pager {
  import opened Wrappers
  import opened Page

  /** At most this many numbered page buttons are shown. */
  const MaxButtons: int := 5

  /** The page numbers to show: a run of consecutive pages starting two
      before the current one, shifted back when it would pass the last page,
      and never starting below page 1. No metadata means no buttons. */
  method GetVisiblePages(pagination: Option<Pagination>) returns (pages: seq<int>)
    ensures pagination.None? ==> pages == []
    ensures pagination.Some? ==>
              var total := pagination.value.totalPages;
              var current := pagination.value.currentPage;
              && |pages| == Min(MaxButtons, Max(0, total))
              && (forall i :: 0 <= i < |pages| ==> 1 <= pages[i] <= total)
              && (forall i :: 0 < i < |pages| ==> pages[i] == pages[i - 1] + 1)
              && (1 <= current <= total ==> current in pages)
              && (3 <= current <= total - 2 ==> pages[0] == current - 2)
    ensures pagination.Some? ==>
              var total := pagination.value.totalPages;
              var current := pagination.value.currentPage;
              var first := Max(1, Min(current - 2, total - MaxButtons + 1));
              pages == Range(first, first + Min(MaxButtons, Max(0, total)))
  {
    if pagination.None? {
      return [];
    }
    var total := pagination.value.totalPages;
    var current := pagination.value.currentPage;
    var start := Max(current - 2, 1);
    var end := start + MaxButtons - 1;
    if end > total {
      end := total;
      start := Max(end - MaxButtons + 1, 1);
      assert total <= 0 ==> start > end;
      assert 0 < total ==> end - start + 1 == Min(MaxButtons, total);
    }
    pages := [];
    var i := start;
    while i <= end
      invariant i == start + |pages|
      invariant pages != [] ==> i <= end + 1
      invariant forall j :: 0 <= j < |pages| ==> pages[j] == start + j
    {
      pages := pages + [i];
      i := i + 1;
    }
    assert |pages| == if start <= end then end - start + 1 else 0;
    if 1 <= current <= total {
      assert pages[current - start] == current;
    }
  }
}
