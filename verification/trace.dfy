/** The ledger as one reducer over the component's events, and what a run of
    events does to it. */
module Trace {
  import opened Wrappers
  import opened Page
  import opened Selection

  /** The events that reach the selection logic: a page finished loading, the
      bulk input was submitted (None when it does not parse), the table
      reported the checked rows of the page, the header checkbox changed,
      the chevron toggled the bulk input, a click outside dismissed it. */
  datatype Event =
    | PageLoaded
    | BulkSubmitted(input: Option<int>)
    | RowsChecked(ids: seq<int>)
    | HeaderChecked(checked: bool)
    | OverlayToggled
    | OverlayDismissed

  /** One event, applied while `page` is on screen. */
  function Step(l: Ledger, page: LoadedPage, e: Event): (r: Ledger)
    ensures Inv(l) ==> Inv(r)
    ensures e.PageLoaded? || e.BulkSubmitted? || r.desired == l.desired
    ensures e.OverlayToggled? || e.OverlayDismissed? ==>
              && r.selected == l.selected && r.deselected == l.deselected
              && r.desired == l.desired && r.remaining == l.remaining
    ensures e.OverlayToggled? ==> r.overlay != l.overlay
    ensures e.OverlayDismissed? ==> !r.overlay
  {
    match e
    case PageLoaded => PageBecameVisible(l, page)
    case BulkSubmitted(input) => BulkSelect(l, page, input)
    case RowsChecked(ids) => OnSelectionChange(l, page.rows, ids)
    case HeaderChecked(checked) => OnSelectAllChange(l, page.rows, checked)
    case OverlayToggled => l.(overlay := !l.overlay)
    case OverlayDismissed => l.(overlay := false)
  }

  /** A run of events, each paired with the page on screen when it fired. */
  function Run(l: Ledger, events: seq<(LoadedPage, Event)>): Ledger
    decreases |events|
  {
    if events == [] then l
    else Run(Step(l, events[0].0, events[0].1), events[1..])
  }

  /** The invariant holds in every state reachable from the initial one. */
  lemma {:induction false} RunKeepsInv(l: Ledger, events: seq<(LoadedPage, Event)>)
    requires Inv(l)
    ensures Inv(Run(l, events))
    decreases |events|
  {
    if events != [] {
      RunKeepsInv(Step(l, events[0].0, events[0].1), events[1..]);
    }
  }

  lemma ReachableInv(events: seq<(LoadedPage, Event)>)
    ensures Inv(Run(Initial, events))
  {
    RunKeepsInv(Initial, events);
  }

  /** Opening the bulk input and submitting a count that does not parse or
      is negative leaves the input open and the selection unchanged. */
  lemma {:induction false} RejectedBulkLeavesInputOpen(l: Ledger, page: LoadedPage, input: Option<int>)
    requires !l.overlay
    requires input.None? || input.value < 0
    ensures var r := Run(l, [(page, OverlayToggled), (page, BulkSubmitted(input))]);
            && r.overlay
            && r.selected == l.selected && r.deselected == l.deselected
            && r.desired == l.desired
  {
    var events := [(page, OverlayToggled), (page, BulkSubmitted(input))];
    var open := Step(l, page, OverlayToggled);
    var rest := [(page, BulkSubmitted(input))];
    assert events[1..] == rest;
    assert Run(l, events) == Run(open, rest);
    assert rest[1..] == [];
    assert Run(open, rest) == Run(Step(open, page, BulkSubmitted(input)), []);
  }

  /** Only a bulk submission can raise the quota. */
  lemma {:induction false} QuotaRisesOnlyByBulk(l: Ledger, events: seq<(LoadedPage, Event)>)
    requires forall i :: 0 <= i < |events| ==> !events[i].1.BulkSubmitted?
    ensures Run(l, events).desired <= l.desired
    decreases |events|
  {
    if events != [] {
      var next := Step(l, events[0].0, events[0].1);
      assert next.desired <= l.desired;
      QuotaRisesOnlyByBulk(next, events[1..]);
    }
  }

  /** A sequence of page loads with no other event. */
  function Visit(l: Ledger, pages: seq<LoadedPage>): Ledger
    decreases |pages|
  {
    if pages == [] then l
    else Visit(PageBecameVisible(l, pages[0]), pages[1..])
  }

  /** The rows a fill can see on a page: all of them when the metadata is
      there, none otherwise. */
  function FillableRows(page: LoadedPage): seq<int>
  {
    if page.pagination.Some? then page.rows else []
  }

  /** The fillable rows of the visited pages, in visiting order. */
  function VisitedRows(pages: seq<LoadedPage>): seq<int>
    decreases |pages|
  {
    if pages == [] then [] else FillableRows(pages[0]) + VisitedRows(pages[1..])
  }

  /** One page load fills the first min(quota, |fillable rows|) rows. */
  lemma PageBecameVisibleTakesPrefix(l: Ledger, page: LoadedPage)
    ensures var rows := FillableRows(page);
            var k := Min(l.desired, |rows|);
            var r := PageBecameVisible(l, page);
            && r.selected == l.selected + Elems(rows[..k])
            && r.deselected == l.deselected - Elems(rows[..k])
            && r.desired == l.desired - k
            && (k == 0 ==> r == l)
            && (k > 0 ==> r.remaining == r.desired)
  {
  }

  /** Two greedy fills in a row, over rows `a` and then rows `b`, are one
      greedy fill over `a + b` with the first quota. */
  lemma ComposeFills(l: Ledger, mid: Ledger, r: Ledger, a: seq<int>, b: seq<int>)
    requires var ka := Min(l.desired, |a|);
             && mid.selected == l.selected + Elems(a[..ka])
             && mid.deselected == l.deselected - Elems(a[..ka])
             && mid.desired == l.desired - ka
    requires var kb := Min(mid.desired, |b|);
             && r.selected == mid.selected + Elems(b[..kb])
             && r.deselected == mid.deselected - Elems(b[..kb])
             && r.desired == mid.desired - kb
    ensures var k := Min(l.desired, |a + b|);
            && r.selected == l.selected + Elems((a + b)[..k])
            && r.deselected == l.deselected - Elems((a + b)[..k])
            && r.desired == l.desired - k
  {
    var ka := Min(l.desired, |a|);
    var kb := Min(mid.desired, |b|);
    PrefixOfConcat(a, b, l.desired);
    ElemsConcat(a[..ka], b[..kb]);
  }

  /** Greedy fill across pages: visiting pages selects exactly the first
      min(quota, n) of the n fillable rows seen, in visiting order, and the
      quota drops by that many. */
  lemma {:induction false} VisitFillsVisitedPrefix(l: Ledger, pages: seq<LoadedPage>)
    ensures var seen := VisitedRows(pages);
            var k := Min(l.desired, |seen|);
            var r := Visit(l, pages);
            && r.selected == l.selected + Elems(seen[..k])
            && r.deselected == l.deselected - Elems(seen[..k])
            && r.desired == l.desired - k
            && (k == 0 ==> r == l)
            && (k > 0 ==> r.remaining == r.desired)
    decreases |pages|
  {
    if pages == [] {
      assert VisitedRows(pages)[..0] == [];
    } else {
      var l1 := PageBecameVisible(l, pages[0]);
      PageBecameVisibleTakesPrefix(l, pages[0]);
      VisitFillsVisitedPrefix(l1, pages[1..]);
      ComposeFills(l, l1, Visit(l1, pages[1..]), FillableRows(pages[0]), VisitedRows(pages[1..]));
    }
  }

  /** The greedy-fill guarantee for a bulk request of n > 0 rows: after the
      request on one page and loads of further pages, the selection has
      gained exactly the first min(n, m) of the m rows met in page-then-row
      order, and min(n, m) fewer rows are still owed. */
  lemma {:induction false} BulkThenVisitSelectsFirstN(l: Ledger, page: LoadedPage, n: int, pages: seq<LoadedPage>)
    requires n > 0 && page.pagination.Some? && page.rows != []
    ensures var seen := page.rows + VisitedRows(pages);
            var k := Min(n, |seen|);
            var r := Visit(BulkSelect(l, page, Some(n)), pages);
            && r.selected == l.selected + Elems(seen[..k])
            && r.deselected == l.deselected - Elems(seen[..k])
            && r.desired == r.remaining == n - k
            && !r.overlay
  {
    var b := BulkSelect(l, page, Some(n));
    assert BulkAccepted(page, Some(n));
    var r := Visit(b, pages);
    VisitFillsVisitedPrefix(b, pages);
    VisitKeepsOverlay(b, pages);
    ComposeFills(l.(desired := n), b, r, page.rows, VisitedRows(pages));
  }

  /** Page loads never touch the bulk input. */
  lemma {:induction false} VisitKeepsOverlay(l: Ledger, pages: seq<LoadedPage>)
    ensures Visit(l, pages).overlay == l.overlay
    decreases |pages|
  {
    if pages != [] {
      VisitKeepsOverlay(PageBecameVisible(l, pages[0]), pages[1..]);
    }
  }

  lemma {:induction false} VisitKeepsInv(l: Ledger, pages: seq<LoadedPage>)
    requires Inv(l)
    ensures Inv(Visit(l, pages))
    decreases |pages|
  {
    if pages != [] {
      PageBecameVisibleKeepsInv(l, pages[0]);
      VisitKeepsInv(PageBecameVisible(l, pages[0]), pages[1..]);
    }
  }
}
