/** What the component derives from the ledger for rendering: the rows of the
    page shown as selected, the header checkbox, and the selection counter. */
module Views {
  import opened Page
  import opened Selection

  /** An id is effectively selected when it was selected and not deselected
      since. */
  predicate Effective(l: Ledger, id: int)
  {
    id in l.selected && id !in l.deselected
  }

  /** The rows of the page handed to the table as its selection: the page
      filtered, in page order, to the effectively selected ids. */
  function SelectedRowsOnPage(l: Ledger, rows: seq<int>): (r: seq<int>)
    ensures forall x :: x in r <==> x in rows && Effective(l, x)
    ensures |r| <= |rows|
    decreases |rows|
  {
    if rows == [] then []
    else if Effective(l, rows[0]) then [rows[0]] + SelectedRowsOnPage(l, rows[1..])
    else SelectedRowsOnPage(l, rows[1..])
  }

  /** The header checkbox: checked when the page is not empty and each of
      its rows is effectively selected, which is when the table is handed
      the whole page as its selection. */
  predicate SelectAllChecked(l: Ledger, rows: seq<int>): (r: bool)
    ensures r <==> rows != [] && SelectedRowsOnPage(l, rows) == rows
  {
    SelectedRowsOnPageWhole(l, rows);
    |rows| > 0 && forall i :: 0 <= i < |rows| ==> Effective(l, rows[i])
  }

  /** When the deselected set lies within the selected set, the size
      difference is the size of the set difference. */
  lemma DifferenceSize(a: set<int>, b: set<int>)
    ensures b <= a ==> |a| - |b| == |a - b|
  {
    if b <= a {
      assert a == (a - b) + b;
    }
  }

  /** The counter's selected part: the size of the selected set minus the
      size of the deselected set. In a ledger that keeps the invariant this
      is the number of effectively selected ids. */
  function TotalSelected(l: Ledger): (r: int)
    ensures Inv(l) ==> r == |l.selected - l.deselected| >= 0
  {
    DifferenceSize(l.selected, l.deselected);
    |l.selected| - |l.deselected|
  }

  /** The number shown after "Selected:": the counter plus the rows still
      owed to a bulk request. In a ledger that keeps the invariant it is
      the number of effectively selected ids plus the pending quota. */
  function DisplayedCount(l: Ledger): (r: int)
    ensures Inv(l) ==> r == |l.selected - l.deselected| + l.desired >= l.remaining
  {
    TotalSelected(l) + l.remaining
  }

  /** The filter is order-preserving: filtering a concatenation is the
      concatenation of the filtered parts. */
  lemma {:induction false} SelectedRowsOnPageConcat(l: Ledger, a: seq<int>, b: seq<int>)
    ensures SelectedRowsOnPage(l, a + b) == SelectedRowsOnPage(l, a) + SelectedRowsOnPage(l, b)
    decreases |a|
  {
    if a == [] {
      assert a + b == b;
    } else {
      assert (a + b)[0] == a[0];
      assert (a + b)[1..] == a[1..] + b;
      SelectedRowsOnPageConcat(l, a[1..], b);
    }
  }

  /** The filter keeps a row exactly when it is effectively selected. */
  lemma SelectedRowsOnPageSingleton(l: Ledger, x: int)
    ensures SelectedRowsOnPage(l, [x]) == if Effective(l, x) then [x] else []
  {
  }

  /** The filter returns the whole page exactly when every row is
      effectively selected. */
  lemma {:induction false} SelectedRowsOnPageWhole(l: Ledger, rows: seq<int>)
    ensures SelectedRowsOnPage(l, rows) == rows <==> forall i :: 0 <= i < |rows| ==> Effective(l, rows[i])
    decreases |rows|
  {
    if forall i :: 0 <= i < |rows| ==> Effective(l, rows[i]) {
      if rows != [] {
        assert Effective(l, rows[0]);
        forall i | 0 <= i < |rows[1..]|
          ensures Effective(l, rows[1..][i])
        {
          assert rows[1..][i] == rows[i + 1];
        }
        SelectedRowsOnPageWhole(l, rows[1..]);
      }
    } else {
      var i :| 0 <= i < |rows| && !Effective(l, rows[i]);
      assert rows[i] !in SelectedRowsOnPage(l, rows);
    }
  }

  /** The filter returns nothing exactly when no row is effectively
      selected. */
  lemma {:induction false} SelectedRowsOnPageNone(l: Ledger, rows: seq<int>)
    ensures SelectedRowsOnPage(l, rows) == [] <==> forall x :: x in rows ==> !Effective(l, x)
    decreases |rows|
  {
    if rows != [] {
      SelectedRowsOnPageNone(l, rows[1..]);
    }
  }

  /** The header checkbox agrees with the selection handed to the table: it
      is checked exactly when the page is non-empty and shown fully selected. */
  lemma HeaderMatchesSelection(l: Ledger, rows: seq<int>)
    ensures SelectAllChecked(l, rows) <==> rows != [] && SelectedRowsOnPage(l, rows) == rows
  {
  }

  /** Under the ledger invariant the counter is exact: the size difference is
      the number of effectively selected ids, so it is never negative, and
      the displayed number adds the rows still owed. */
  lemma CounterIsEffectiveCount(l: Ledger)
    requires Inv(l)
    ensures TotalSelected(l) == |l.selected - l.deselected| >= 0
    ensures TotalSelected(l) == |set x | x in l.selected && Effective(l, x)|
    ensures DisplayedCount(l) == |l.selected - l.deselected| + l.desired
  {
    assert l.selected == (l.selected - l.deselected) + l.deselected;
    assert (set x | x in l.selected && Effective(l, x)) == l.selected - l.deselected;
  }

  /** After the per-row reconciliation the table's report becomes the truth
      on the page: a row is shown selected exactly when it was checked. */
  lemma ReconciledPageMatchesChecked(l: Ledger, rows: seq<int>, checked: seq<int>)
    ensures var r := OnSelectionChange(l, rows, checked);
            forall x :: x in rows ==> (Effective(r, x) <==> x in checked)
  {
  }

  /** After header select-all the whole page is shown selected and the header
      is checked; after deselect-all nothing on the page is shown selected. */
  lemma HeaderTogglesWholePage(l: Ledger, rows: seq<int>)
    ensures SelectedRowsOnPage(OnSelectAllChange(l, rows, true), rows) == rows
    ensures rows != [] ==> SelectAllChecked(OnSelectAllChange(l, rows, true), rows)
    ensures SelectedRowsOnPage(OnSelectAllChange(l, rows, false), rows) == []
  {
    var on := OnSelectAllChange(l, rows, true);
    SelectedRowsOnPageWhole(on, rows);
    var off := OnSelectAllChange(l, rows, false);
    SelectedRowsOnPageNone(off, rows);
  }

  /** After a fill the filled prefix of the page is shown selected. */
  lemma FilledPrefixShownSelected(l: Ledger, page: LoadedPage)
    requires FillApplies(l, page)
    ensures var r := PageBecameVisible(l, page);
            var k := Min(l.desired, |page.rows|);
            forall i :: 0 <= i < k ==> Effective(r, page.rows[i])
  {
  }
}
