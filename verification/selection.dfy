/** The cross-page selection ledger of the table component
    (src/components/TableData.tsx) and its transitions, each a pure function
    from the old ledger and the page on screen to the new ledger. */
module Selection {
  import opened Wrappers
  import opened Page

  /** The component state the selection logic reads and writes:
      - `selected`, `deselected`: the ids explicitly selected and explicitly
        deselected, across all pages ever shown;
      - `desired`: rows still owed to a bulk "select N" request (the
        component starts it at null, which every reader treats as 0);
      - `remaining`: the copy of that quota shown in the counter;
      - `overlay`: whether the bulk-select input is open. */
  datatype Ledger = Ledger(selected: set<int>, deselected: set<int>, desired: nat, remaining: nat, overlay: bool)

  const Initial: Ledger := Ledger({}, {}, 0, 0, false)

  /** Ids enter `deselected` only while already in `selected`, and the quota
      and its displayed copy are always written together. */
  predicate Inv(l: Ledger)
  {
    l.deselected <= l.selected && l.desired == l.remaining
  }

  /** The loop that selects ids one by one in page order (used by the fill
      and by header select-all): each id is added to the selected set and
      removed from the deselected set. */
  function FillRows(sel: set<int>, desel: set<int>, ids: seq<int>): (r: (set<int>, set<int>))
    ensures r.0 == sel + Elems(ids)
    ensures r.1 == desel - Elems(ids)
    decreases |ids|
  {
    if ids == [] then (sel, desel)
    else
      ElemsCons(ids);
      FillRows(sel + {ids[0]}, desel - {ids[0]}, ids[1..])
  }

  /** The header deselect-all loop: each id of the page that was selected
      before the event is added to the deselected set. */
  function MarkDeselected(before: set<int>, desel: set<int>, ids: seq<int>): (r: set<int>)
    ensures r == desel + (Elems(ids) * before)
    decreases |ids|
  {
    if ids == [] then desel
    else
      ElemsCons(ids);
      MarkDeselected(before, if ids[0] in before then desel + {ids[0]} else desel, ids[1..])
  }

  /** The per-row reconciliation loop: an id the table reports as checked is
      selected and undeselected; an unchecked id that was selected before
      the event is deselected; any other id is left alone. */
  function ReconcileRows(before: set<int>, checked: seq<int>, sel: set<int>, desel: set<int>, ids: seq<int>): (r: (set<int>, set<int>))
    ensures r.0 == sel + (Elems(ids) * Elems(checked))
    ensures r.1 == (desel - (Elems(ids) * Elems(checked))) + ((Elems(ids) - Elems(checked)) * before)
    decreases |ids|
  {
    if ids == [] then (sel, desel)
    else
      ElemsCons(ids);
      var x := ids[0];
      if x in checked then ReconcileRows(before, checked, sel + {x}, desel - {x}, ids[1..])
      else if x in before then ReconcileRows(before, checked, sel, desel + {x}, ids[1..])
      else ReconcileRows(before, checked, sel, desel, ids[1..])
  }

  /** The greedy fill shared by the page effect and the bulk command: select
      the first min(count, |rows|) rows of the page and keep what is still
      owed as the new quota. */
  function GreedyFill(l: Ledger, rows: seq<int>, count: nat): (r: Ledger)
    ensures var k := Min(count, |rows|);
            && r.selected == l.selected + Elems(rows[..k])
            && r.deselected == l.deselected - Elems(rows[..k])
            && r.desired + k == count
    ensures r.remaining == r.desired
    ensures r.desired > 0 ==> |rows| < count
    ensures r.overlay == l.overlay
  {
    var k := Min(count, |rows|);
    var filled := FillRows(l.selected, l.deselected, rows[..k]);
    var left := count - k;
    if left > 0 then
      l.(selected := filled.0, deselected := filled.1, desired := left, remaining := left)
    else
      l.(selected := filled.0, deselected := filled.1, desired := 0, remaining := 0)
  }

  /** The fill guard: a positive quota, pagination metadata, a non-empty page. */
  predicate FillApplies(l: Ledger, page: LoadedPage)
  {
    l.desired > 0 && page.pagination.Some? && page.rows != []
  }

  /** The effect run after every page load: greedily select the leading rows
      of the new page still owed to a bulk request. */
  function PageBecameVisible(l: Ledger, page: LoadedPage): (r: Ledger)
    ensures !FillApplies(l, page) ==> r == l
    ensures FillApplies(l, page) ==>
              var k := Min(l.desired, |page.rows|);
              && 0 < k
              && r.selected == l.selected + Elems(page.rows[..k])
              && r.deselected == l.deselected - Elems(page.rows[..k])
              && r.desired == l.desired - k < l.desired
              && r.remaining == r.desired
              && r.overlay == l.overlay
  {
    if !FillApplies(l, page) then l
    else GreedyFill(l, page.rows, l.desired)
  }

  /** The bulk input is accepted for a fill: a parsed, positive number while
      a page with metadata is on screen. */
  predicate BulkAccepted(page: LoadedPage, input: Option<int>)
  {
    input.Some? && input.value > 0 && page.pagination.Some? && page.rows != []
  }

  /** The "select N rows" submit. The input is the parsed number, None when
      it does not parse. Zero clears both sets and closes the input, but
      keeps the quota and its displayed copy; an unparsable or negative
      number, or any number while no page is available, changes nothing
      (the input stays open); otherwise N becomes a fresh quota, filled
      greedily on the current page, and the input closes. */
  function BulkSelect(l: Ledger, page: LoadedPage, input: Option<int>): (r: Ledger)
    ensures input == Some(0) ==>
              r == Ledger({}, {}, l.desired, l.remaining, false)
    ensures input != Some(0) && !BulkAccepted(page, input) ==> r == l
    ensures BulkAccepted(page, input) ==>
              var n := input.value;
              var k := Min(n, |page.rows|);
              && 0 < k
              && r.selected == l.selected + Elems(page.rows[..k])
              && r.deselected == l.deselected - Elems(page.rows[..k])
              && r.desired + k == n
              && r.remaining == r.desired
              && !r.overlay
  {
    if input == Some(0) then
      l.(selected := {}, deselected := {}, overlay := false)
    else if !BulkAccepted(page, input) then
      l
    else
      GreedyFill(l, page.rows, input.value).(overlay := false)
  }

  /** The table's selection-change callback: `checked` holds the ids the
      table now shows as checked on the page. Only ids of the page move. */
  function OnSelectionChange(l: Ledger, rows: seq<int>, checked: seq<int>): (r: Ledger)
    ensures forall x :: x in rows && x in checked ==> x in r.selected && x !in r.deselected
    ensures forall x :: x in rows && x !in checked ==>
              && (x in r.selected <==> x in l.selected)
              && (x in r.deselected <==> x in l.deselected || x in l.selected)
    ensures forall x :: x !in rows ==>
              && (x in r.selected <==> x in l.selected)
              && (x in r.deselected <==> x in l.deselected)
    ensures r.desired == l.desired && r.remaining == l.remaining && r.overlay == l.overlay
  {
    var updated := ReconcileRows(l.selected, checked, l.selected, l.deselected, rows);
    l.(selected := updated.0, deselected := updated.1)
  }

  /** The header checkbox callback: checking it selects every row of the
      page; unchecking it deselects the page's rows that were selected. */
  function OnSelectAllChange(l: Ledger, rows: seq<int>, checked: bool): (r: Ledger)
    ensures checked ==>
              && (forall x :: x in rows ==> x in r.selected && x !in r.deselected)
              && (forall x :: x !in rows ==>
                    (x in r.selected <==> x in l.selected) && (x in r.deselected <==> x in l.deselected))
    ensures !checked ==>
              && r.selected == l.selected
              && (forall x :: x in r.deselected <==> x in l.deselected || (x in rows && x in l.selected))
    ensures r.desired == l.desired && r.remaining == l.remaining && r.overlay == l.overlay
  {
    if checked then
      var updated := FillRows(l.selected, l.deselected, rows);
      l.(selected := updated.0, deselected := updated.1)
    else
      l.(deselected := MarkDeselected(l.selected, l.deselected, rows))
  }

  /* Properties of the transitions. */

  /** Every transition keeps the ledger invariant. */
  lemma PageBecameVisibleKeepsInv(l: Ledger, page: LoadedPage)
    requires Inv(l)
    ensures Inv(PageBecameVisible(l, page))
  {
  }

  lemma BulkSelectKeepsInv(l: Ledger, page: LoadedPage, input: Option<int>)
    requires Inv(l)
    ensures Inv(BulkSelect(l, page, input))
  {
  }

  lemma OnSelectionChangeKeepsInv(l: Ledger, rows: seq<int>, checked: seq<int>)
    requires Inv(l)
    ensures Inv(OnSelectionChange(l, rows, checked))
  {
  }

  lemma OnSelectAllChangeKeepsInv(l: Ledger, rows: seq<int>, checked: bool)
    requires Inv(l)
    ensures Inv(OnSelectAllChange(l, rows, checked))
  {
  }

  /** The fill moves only the ids of the filled prefix of the page. */
  lemma FillTouchesOnlyPrefix(l: Ledger, page: LoadedPage, x: int)
    requires FillApplies(l, page)
    requires x !in page.rows[..Min(l.desired, |page.rows|)]
    ensures x in PageBecameVisible(l, page).selected <==> x in l.selected
    ensures x in PageBecameVisible(l, page).deselected <==> x in l.deselected
  {
  }

  /** Checking the header is the per-row reconciliation with every row of
      the page checked, and unchecking it is the reconciliation with none. */
  lemma HeaderIsReconciliation(l: Ledger, rows: seq<int>, checked: bool)
    ensures OnSelectAllChange(l, rows, checked) == OnSelectionChange(l, rows, if checked then rows else [])
  {
  }

  /** Applying select-all (or deselect-all) twice to the same page is the
      same as applying it once. */
  lemma OnSelectAllChangeIdempotent(l: Ledger, rows: seq<int>, checked: bool)
    ensures var once := OnSelectAllChange(l, rows, checked);
            OnSelectAllChange(once, rows, checked) == once
  {
  }

  /** The zero reset as written: the sets empty and the input closes, but a
      pending quota survives, so the next page load selects rows again. */
  lemma ZeroResetKeepsQuota(l: Ledger, page: LoadedPage, next: LoadedPage)
    requires l.desired > 0 && next.pagination.Some? && next.rows != []
    ensures var reset := BulkSelect(l, page, Some(0));
            && reset.selected == {} && reset.deselected == {}
            && reset.desired == l.desired
            && next.rows[0] in PageBecameVisible(reset, next).selected
  {
  }
}
