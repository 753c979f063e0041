/** Runs of the ledger over a dataset whose ids are 1, 2, 3, ... in dataset
    order, served `size` records per page (12 in the component). */
module Scenarios {
  import opened Wrappers
  import opened Page
  import opened Selection
  import opened Views
  import opened Trace

  /** "Select n" on a first page of ids 1..size, with size < n: the whole
      page is selected and n - size rows are still owed, all of them
      counted on screen. */
  lemma BulkOnFirstPage(size: nat, n: nat, p1: LoadedPage)
    requires 0 < size < n
    requires p1.rows == Range(1, size + 1) && p1.pagination.Some?
    ensures var bulk := BulkSelect(Initial, p1, Some(n));
            && bulk.selected == Elems(Range(1, size + 1))
            && bulk.deselected == {}
            && bulk.desired == bulk.remaining == n - size
            && DisplayedCount(bulk) == n
            && !bulk.overlay
  {
    var bulk := BulkSelect(Initial, p1, Some(n));
    assert BulkAccepted(p1, Some(n));
    assert p1.rows[..size] == p1.rows;
    RangeElemsCount(1, size + 1);
  }

  /** Then loading the second page (ids size+1..2*size) and a third page
      selects the owed rows from the top of the second and settles the
      quota; the third adds nothing. From a ledger with nothing selected,
      the selection is ids 1..n, for size < n <= 2 * size. */
  lemma BulkAcrossPages(l: Ledger, size: nat, n: nat, last: nat, p1: LoadedPage, p2: LoadedPage, p3: LoadedPage)
    requires l.selected == {} && l.deselected == {}
    requires 0 < size < n <= 2 * size
    requires p1.rows == Range(1, size + 1) && p1.pagination.Some?
    requires p2.rows == Range(size + 1, 2 * size + 1) && p2.pagination.Some?
    requires p3.rows == Range(2 * size + 1, 2 * size + 1 + last) && p3.pagination.Some?
    ensures var r := Visit(BulkSelect(l, p1, Some(n)), [p2, p3]);
            && r.selected == Elems(Range(1, n + 1))
            && r.deselected == {}
            && r.desired == r.remaining == 0
            && DisplayedCount(r) == n
  {
    var pages := [p2, p3];
    var r := Visit(BulkSelect(l, p1, Some(n)), pages);
    BulkThenVisitSelectsFirstN(l, p1, n, pages);
    TwoPagesRows(p2, p3);
    SeenIsRange(size, last, p1, p2, p3);
    SettledOnRange(l, r, p1.rows + VisitedRows(pages), 2 * size + 1 + last, n);
  }

  /** A ledger that greedily took the first n ids of the range 1..m - 1,
      starting from nothing selected, holds ids 1..n, owes nothing and
      displays n. */
  lemma SettledOnRange(l: Ledger, r: Ledger, seen: seq<int>, m: int, n: nat)
    requires l.selected == {} && l.deselected == {}
    requires seen == Range(1, m) && n < m
    requires r.selected == l.selected + Elems(seen[..Min(n, |seen|)])
    requires r.deselected == l.deselected - Elems(seen[..Min(n, |seen|)])
    requires r.desired == r.remaining == n - Min(n, |seen|)
    ensures r.selected == Elems(Range(1, n + 1))
    ensures r.deselected == {}
    ensures r.desired == r.remaining == 0
    ensures DisplayedCount(r) == n
  {
    RangePrefix(1, m, n);
    RangeElemsCount(1, n + 1);
  }

  /** Two loaded pages with metadata offer all their rows, in order. */
  lemma TwoPagesRows(p: LoadedPage, q: LoadedPage)
    requires p.pagination.Some? && q.pagination.Some?
    ensures VisitedRows([p, q]) == p.rows + q.rows
  {
    var pages := [p, q];
    assert pages[1..] == [q] && [q][1..] == [];
    assert VisitedRows([q]) == q.rows + VisitedRows([]);
    assert VisitedRows(pages) == p.rows + VisitedRows([q]);
  }

  /** Three consecutive pages of the dataset read as one range of ids. */
  lemma SeenIsRange(size: nat, last: nat, p1: LoadedPage, p2: LoadedPage, p3: LoadedPage)
    requires p1.rows == Range(1, size + 1)
    requires p2.rows == Range(size + 1, 2 * size + 1)
    requires p3.rows == Range(2 * size + 1, 2 * size + 1 + last)
    ensures p1.rows + (p2.rows + p3.rows) == Range(1, 2 * size + 1 + last)
  {
  }

  /** After select-all on a page, unchecking one row alone deselects it: the
      row stays in the selected set, becomes the only deselected id, and is
      no longer effectively selected. */
  lemma UncheckOneAfterSelectAll(rows: seq<int>, i: nat)
    requires i < |rows|
    ensures var all := OnSelectAllChange(Initial, rows, true);
            var r := OnSelectionChange(all, rows, rows[..i] + rows[i + 1..]);
            && rows[i] in r.selected
            && (rows[i] !in rows[..i] + rows[i + 1..] ==> r.deselected == {rows[i]} && !Effective(r, rows[i]))
  {
  }

  /** A negative or unparsable count changes nothing, the open input
      included; zero clears the sets and closes the input. */
  lemma RejectedInputKeepsOverlayOpen(l: Ledger, page: LoadedPage)
    requires l.overlay
    ensures BulkSelect(l, page, Some(-1)) == l
    ensures BulkSelect(l, page, None) == l
    ensures !BulkSelect(l, page, Some(0)).overlay
  {
  }

  /** Loading a page twice while rows are still owed spends quota on rows
      that are already selected: "select 6" on page [3, 4], then loads of
      [1, 2] and [3, 4] again, settles the quota with only four ids
      selected, and the counter shows 4. */
  lemma RevisitSpendsQuota(m: Pagination)
    ensures var p := LoadedPage([3, 4], Some(m));
            var q := LoadedPage([1, 2], Some(m));
            var r := Visit(BulkSelect(Initial, p, Some(6)), [q, p]);
            && r.selected == {1, 2, 3, 4}
            && r.desired == r.remaining == 0
            && DisplayedCount(r) == 4
  {
    var p := LoadedPage([3, 4], Some(m));
    var q := LoadedPage([1, 2], Some(m));
    var pages := [q, p];
    BulkThenVisitSelectsFirstN(Initial, p, 6, pages);
    TwoPagesRows(q, p);
    SettledOnRevisit(Visit(BulkSelect(Initial, p, Some(6)), pages), p.rows + VisitedRows(pages));
  }

  /** A ledger that greedily took the first 6 of the ids 3, 4, 1, 2, 3, 4
      from the initial one holds ids 1..4, owes nothing and displays 4. */
  lemma SettledOnRevisit(r: Ledger, seen: seq<int>)
    requires seen == [3, 4, 1, 2, 3, 4]
    requires r.selected == Initial.selected + Elems(seen[..Min(6, |seen|)])
    requires r.deselected == Initial.deselected - Elems(seen[..Min(6, |seen|)])
    requires r.desired == r.remaining == 6 - Min(6, |seen|)
    ensures r.selected == {1, 2, 3, 4}
    ensures r.desired == r.remaining == 0
    ensures DisplayedCount(r) == 4
  {
    assert seen[..6] == seen;
    assert Elems(seen) == {1, 2, 3, 4};
    assert r.deselected == {};
  }
}
