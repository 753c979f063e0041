# Cross-page row selection of the artworks table, in Dafny

The table component (`src/components/TableData.tsx`) shows one page of
artworks at a time and lets the user build a selection that spans pages.
Its selection logic is a small state machine over:

- `selectedRowIds` and `deselectedRowIds`, two sets of record ids that cover
  every page visited so far;
- `desiredSelectionCount`, the rows still owed to a "select N rows" request
  (null at start, which every reader treats as 0);
- `remainigSelect`, the copy of that quota shown in the counter;
- `showOverlay`, whether the "select N rows" input is open.

This project models that state as the immutable `Selection.Ledger` datatype.
Each event becomes a pure function from the old ledger and the page on
screen to the new ledger:

- the fill effect that runs after a page loads;
- the bulk "select N" submit;
- the table's per-row selection callback;
- the header select-all checkbox.

The views derived for rendering live in `Views`:

- the rows handed to the table as selected;
- the header checkbox;
- the "Selected: n rows" counter.

The numbered page-button window is in `Pager`. A record reduces to its
integer id. A loaded page is the sequence of those ids in the order the data
source returned them, together with the pagination metadata when the
component has any. `Trace` folds the events into runs and proves two things:

- the ledger invariant holds in every reachable state;
- the greedy fill selects, across pages, exactly the first N ids met in
  page-then-row order, counting a page loaded twice twice.

`Scenarios` works through generic runs with `size` ids per page and
size < N <= 2 * size, and through unchecking one row after select-all.

Modules:

- `Wrappers`: `Option`.
- `Page`: the pagination record, the loaded page, and set/range helpers.
- `Selection`: the ledger and its transitions.
- `Views`: the derived views.
- `Trace`: the event reducer and runs.
- `Pager`: the page window.
- `Scenarios`: the worked examples.

## Model

| member | source | states |
|---|---|---|
| Selection.FillRows | src/components/TableData.tsx:82-85 | the select-in-order loop ends with exactly the loop's ids added to the selected set and removed from the deselected set |
| Selection.MarkDeselected | src/components/TableData.tsx:178-180 | the deselect-all loop adds to the deselected set exactly the page ids that were selected before the event |
| Selection.ReconcileRows | src/components/TableData.tsx:153-161 | the reconciliation loop selects and undeselects the checked page ids, deselects the unchecked page ids that were selected before, and touches nothing else |
| Selection.GreedyFill | src/components/TableData.tsx:76-100 | with k = min(count, page size): the first k ids join the selected set and leave the deselected set; the new quota and counter both equal count - k; a quota stays owed only when the whole page was used; the overlay is unchanged |
| Selection.PageBecameVisible | src/components/TableData.tsx:72-102 | the line-74 guard (`FillApplies`): no quota, no metadata or an empty page leaves the ledger unchanged; otherwise 0 < k = min(quota, page size) leading rows are selected, the quota strictly drops by k, and the counter equals it |
| Selection.BulkSelect | src/components/TableData.tsx:104-143 | 0 empties both sets and closes the input but keeps quota and counter; an unparsable or negative number, or a missing page (the line-113 guard, `BulkAccepted`), changes nothing, the open input included; a positive number fills min(n, page size) rows, stores n - k as quota and counter, and closes the input |
| Selection.OnSelectionChange | src/components/TableData.tsx:149-165 | a checked page row ends selected and not deselected; an unchecked page row keeps its selected membership and is deselected iff it was deselected or selected before; ids off the page and the quota are untouched |
| Selection.OnSelectAllChange | src/components/TableData.tsx:168-185 | checking puts every page row in the selected set and out of the deselected set, leaving other ids alone; unchecking keeps the selected set and adds exactly the previously selected page rows to the deselected set |
| Selection.PageBecameVisibleKeepsInv | src/components/TableData.tsx:80-99 | the fill keeps deselected within selected and the quota equal to the counter |
| Selection.BulkSelectKeepsInv | src/components/TableData.tsx:107-140 | the bulk submit keeps the invariant, the zero reset included |
| Selection.OnSelectionChangeKeepsInv | src/components/TableData.tsx:153-161 | the reconciliation keeps the invariant: a row is deselected only if it was selected |
| Selection.OnSelectAllChangeKeepsInv | src/components/TableData.tsx:172-181 | select-all and deselect-all keep the invariant |
| Selection.FillTouchesOnlyPrefix | src/components/TableData.tsx:80-88 | an id outside the filled prefix of the page keeps its membership in both sets |
| Selection.HeaderIsReconciliation | src/components/TableData.tsx:168-185 | select-all equals the per-row reconciliation with all page rows checked; deselect-all equals it with none checked |
| Selection.OnSelectAllChangeIdempotent | src/components/TableData.tsx:172-181 | applying select-all (or deselect-all) twice to a page gives the same ledger as applying it once |
| Selection.ZeroResetKeepsQuota | src/components/TableData.tsx:107-112 | after the zero reset the sets are empty but a pending quota survives, so the next page load selects its first row again |
| Views.SelectedRowsOnPage | src/components/TableData.tsx:146 | the table's selection holds exactly the page rows that are selected and not deselected, and is no longer than the page |
| Views.SelectedRowsOnPageConcat | src/components/TableData.tsx:146 | the selection filter keeps page order: filtering a concatenation concatenates the filtered parts |
| Views.SelectedRowsOnPageSingleton | src/components/TableData.tsx:146 | a single row is kept iff it is effectively selected |
| Views.SelectedRowsOnPageWhole | src/components/TableData.tsx:146 | the filter returns the whole page iff every row is effectively selected |
| Views.SelectedRowsOnPageNone | src/components/TableData.tsx:146 | the filter returns nothing iff no page row is effectively selected |
| Views.SelectAllChecked | src/components/TableData.tsx:219 | the header checkbox is checked iff the page is non-empty and every row is effectively selected, which is iff the table is handed the whole page as its selection |
| Views.TotalSelected | src/components/TableData.tsx:187 | the counter's selected part is the selected set's size minus the deselected set's size; in a ledger that keeps the invariant it is the number of effectively selected ids and is never negative |
| Views.DisplayedCount | src/components/TableData.tsx:210 | the number after "Selected:" is that counter plus the displayed remaining count; in a ledger that keeps the invariant it is the number of effectively selected ids plus the pending quota |
| Views.HeaderMatchesSelection | src/components/TableData.tsx:217-219 | the header checkbox is checked iff the page is non-empty and the table is handed the whole page as selected |
| Views.CounterIsEffectiveCount | src/components/TableData.tsx:187-210 | under the invariant the size difference equals the number of effectively selected ids, so it is never negative; the displayed number adds the rows still owed |
| Views.ReconciledPageMatchesChecked | src/components/TableData.tsx:149-165 | after the per-row callback a page row is effectively selected iff the table reported it checked |
| Views.HeaderTogglesWholePage | src/components/TableData.tsx:168-185 | after select-all the whole page is shown selected and the header is checked; after deselect-all no page row is shown selected |
| Views.FilledPrefixShownSelected | src/components/TableData.tsx:80-88 | after a fill every row of the filled prefix is effectively selected |
| Trace.Step | src/components/TableData.tsx:72-250 | every event keeps the ledger invariant; only a page load or a bulk submit can change the quota; the chevron toggle (line 228) flips the input and the click outside (line 250) closes it, both leaving sets, quota and counter alone |
| Trace.RejectedBulkLeavesInputOpen | src/components/TableData.tsx:107-113 | after opening the input, a count that does not parse or is negative leaves the input open and the sets and quota unchanged |
| Trace.RunKeepsInv | src/components/TableData.tsx:72-185 | the invariant holds after any run of events from a state where it holds |
| Trace.ReachableInv | src/components/TableData.tsx:34-42 | every state reachable from the initial one (`Initial`: empty sets, no quota, counter 0, input closed) satisfies the invariant |
| Trace.QuotaRisesOnlyByBulk | src/components/TableData.tsx:91-99 | a run without a bulk submit never raises the quota |
| Trace.PageBecameVisibleTakesPrefix | src/components/TableData.tsx:72-102 | one page load selects the first min(quota, fillable rows) rows of the page, and a page without metadata has none fillable |
| Trace.ComposeFills | src/components/TableData.tsx:80-99 | two greedy fills in a row, over rows a and then rows b, select and undeselect exactly what one fill over a + b with the first quota does, and leave the same quota |
| Trace.VisitFillsVisitedPrefix | src/components/TableData.tsx:72-102 | a run of page loads selects exactly the first min(quota, m) of the m fillable rows met, in visiting order, counting a page loaded twice twice, and the quota drops by that many |
| Trace.BulkThenVisitSelectsFirstN | src/components/TableData.tsx:72-143 | after "select n" and further page loads the selection gains exactly the first min(n, m) ids met in page-then-row order, counting a page loaded twice twice, and n - min(n, m) are still owed |
| Trace.VisitKeepsOverlay | src/components/TableData.tsx:72-102 | page loads never open or close the bulk input |
| Trace.VisitKeepsInv | src/components/TableData.tsx:72-102 | page loads keep the invariant |
| Pager.GetVisiblePages | src/components/TableData.tsx:192-206 | no metadata gives no buttons; otherwise min(5, max(0, total)) consecutive ascending pages within 1..total, equal to the range starting at max(1, min(current - 2, total - 4)), containing the current page when it is in range and centred on it away from the ends |
| Scenarios.BulkOnFirstPage | src/components/TableData.tsx:115-142 | "select n" with n larger than the first page selects that whole page, owes n - size rows, and the counter shows n |
| Scenarios.BulkAcrossPages | src/components/TableData.tsx:72-143 | from a ledger with nothing selected, "select n" for size < n <= 2 * size, then pages 2 and 3, selects exactly ids 1..n, owes nothing, and the counter shows n |
| Scenarios.UncheckOneAfterSelectAll | src/components/TableData.tsx:149-185 | unchecking one row after select-all leaves it in the selected set, makes it the only deselected id, and stops it being effectively selected |
| Scenarios.RevisitSpendsQuota | src/components/TableData.tsx:80-99 | "select 6" on page [3, 4], then loads of [1, 2] and [3, 4] again, selects only ids 1..4, owes nothing, and the counter shows 4 |
| Scenarios.RejectedInputKeepsOverlayOpen | src/components/TableData.tsx:107-113 | a negative or unparsable count leaves the ledger, the open input included, unchanged; zero closes the input |

## Behaviour of the code worth knowing

- The zero reset (lines 107-112) empties both sets and closes the input.
  It does not clear `desiredSelectionCount` or `remainigSelect`. A quota
  still owed therefore survives the reset: the next page load selects rows
  again, and the counter keeps showing the owed rows
  (`Selection.ZeroResetKeepsQuota`).
- Rejected input (line 113) returns before `setShowOverlay(false)`, so the
  input stays open.
- A bulk request of 0 is honoured even when no page is loaded. The zero
  check comes before the check that a page is loaded.
- `|selected| - |deselected|` (line 187) is exact in every reachable state.
  Ids enter the deselected set only while they are in the selected set
  (lines 159, 179), and no transition removes an id from the selected set
  without emptying the deselected set (lines 109-110). The deselected set
  therefore stays a subset of the selected set, and the difference is the
  number of effectively selected ids (`Views.CounterIsEffectiveCount`).
- `desiredSelectionCount` is null or a non-negative integer in every
  reachable state, and every reader treats null as 0. The model therefore
  uses a `nat`, starting at 0.
- The fill effect (line 74) and the bulk command (line 113) test
  `!pagination`. Line 54 keeps the previous metadata when a response has
  none. So the metadata is missing only until the first response that
  carries it. The model takes the component's current metadata as part of
  the loaded page.
- The fill lowers the quota by the number of rows it walks (lines 80-91),
  whether or not they were already selected. A page loaded again while rows
  are still owed therefore spends quota on ids it selected before. "Select
  6" on page [3, 4], then loads of [1, 2] and [3, 4], ends with ids 1..4
  selected, nothing owed, and a counter of 4 (`Scenarios.RevisitSpendsQuota`).
  "Select N" thus selects the first N ids met counting a page loaded twice
  twice, and can end with fewer than N ids selected.

## Left out

- Fetching a page (lines 47-64): network I/O, JSON parsing and the loading
  flag. A loaded page is an input of each transition instead.
- React scheduling (line 102): state batching and when effects run. A page
  load is one atomic `PageLoaded` event applied with the new page on screen.
- `parseInt` of the input text (line 105). The bulk input is an
  `Option<int>`, where `None` stands for a text that does not parse (NaN).
- The Previous/Next buttons and their disabled states (lines 268, 280).
  They only request a page change.
- Rendering: JSX, the table and column widgets, the icon, and `console.log`.
- `truncateText` (lines 66-69) and the "Showing start to end" arithmetic
  (lines 189-190). Both are display formatting.
- Display-only record fields (title, origin, artist, inscriptions, dates).
- JavaScript numbers are modelled as unbounded integers, so the model
  shows no rounding and no `Infinity`. The bulk count is whatever digit
  string the user types, read by `parseInt` (line 105). Above 2^53 it is
  rounded, and so can be `count - rowsToSelect` (line 130) and
  `desiredSelectionCount - rowsToSelect` (line 91). A long enough digit
  string parses to `Infinity`, which passes the check at line 113. The
  quota and the counter then stay `Infinity`, and every page load selects
  its whole page, until an accepted bulk submit replaces them. The zero
  reset does not.
