/**
 * The `extract_placements` loop shared by src/athlinks.rs, src/chronotrack.rs
 * and src/its_your_race.rs: print the current page, look for a next button,
 * and click it while there is one.  The browser is replaced by the sequence
 * of pages the loop meets; each page says what printing it gives, what the
 * next-button probe finds, and whether clicking fails.
 */
module Pagination {
  import opened Wrappers

  /** What `next_button` finds: a button to click, none, or an error. */
  datatype Probe<E> = HasNext | NoNext | ProbeFailed(error: E)

  /**
   * One page: what `print_placements` returns on it (its `Ok` stands for
   * the call succeeding, whether or not the page's placements parsed and
   * were printed), the probe, and the click's error if it fails.
   */
  datatype Page<B, E> = Page(extract: Result<B, E>, probe: Probe<E>, click: Option<E>)

  /**
   * How the loop ends: no next button, the first error, or the page
   * sequence running out while the site still offers a next page.
   */
  datatype End<E> = Finished | Failed(error: E) | OutOfPages

  /** The successful `print_placements` calls' batches, the clicks made, and how the loop ended. */
  datatype Run<B, E> = Run(batches: seq<B>, clicks: nat, end: End<E>)

  /** The loop leaves a page by clicking through to the next one. */
  predicate Passes<B, E>(pg: Page<B, E>) {
    pg.extract.Ok? && pg.probe.HasNext? && pg.click.None?
  }

  /** How the loop ends on a page it does not leave. */
  function EndAt<B, E>(pg: Page<B, E>): End<E>
    requires !Passes(pg)
  {
    match pg.extract
    case Err(e) => Failed(e)
    case Ok(_) =>
      match pg.probe
      case NoNext => Finished
      case ProbeFailed(e) => Failed(e)
      case HasNext => Failed(pg.click.value)
  }

  /** The loop over the pages, one iteration per page. */
  function Paginate<B, E>(pages: seq<Page<B, E>>): (r: Run<B, E>)
    decreases |pages|
  {
    if |pages| == 0 then Run([], 0, OutOfPages)
    else
      var pg := pages[0];
      match pg.extract
      case Err(e) => Run([], 0, Failed(e))
      case Ok(b) =>
        match pg.probe
        case NoNext => Run([b], 0, Finished)
        case ProbeFailed(e) => Run([b], 0, Failed(e))
        case HasNext =>
          match pg.click
          case Some(e) => Run([b], 0, Failed(e))
          case None =>
            var r := Paginate(pages[1..]);
            Run([b] + r.batches, r.clicks + 1, r.end)
  }

  /** The loop left each of the first `k` pages by a click. */
  ghost predicate PassesAll<B, E>(pages: seq<Page<B, E>>, k: nat)
    requires k <= |pages|
  {
    forall i :: 0 <= i < k ==> Passes(pages[i])
  }

  /**
   * The loop clicks through the first `k` pages and stops at page `k`:
   * it prints each page it reaches before looking for the button, so it
   * prints one batch per click plus the stopping page's batch when that
   * page printed; the batches are the pages' own, in order; and the loop
   * ends as that page makes it end.
   */
  lemma {:induction false} PaginateSpec<B, E>(pages: seq<Page<B, E>>, k: nat)
    requires k <= |pages| && PassesAll(pages, k) && (k < |pages| ==> !Passes(pages[k]))
    ensures Paginate(pages).clicks == k
    ensures |Paginate(pages).batches| == k + (if k < |pages| && pages[k].extract.Ok? then 1 else 0)
    ensures forall i :: 0 <= i < |Paginate(pages).batches| ==> pages[i].extract == Ok(Paginate(pages).batches[i])
    ensures Paginate(pages).end == if k == |pages| then OutOfPages else EndAt(pages[k])
    decreases k
  {
    if k > 0 {
      var rest := pages[1..];
      assert PassesAll(rest, k - 1) by {
        forall i | 0 <= i < k - 1 ensures Passes(rest[i]) {
          assert rest[i] == pages[i + 1];
        }
      }
      assert Passes(pages[0]);
      PaginateSpec(rest, k - 1);
      var r := Paginate(rest);
      assert Paginate(pages).batches == [pages[0].extract.value] + r.batches;
      forall i | 0 < i < |Paginate(pages).batches|
        ensures pages[i].extract == Ok(Paginate(pages).batches[i])
      {
        assert rest[i - 1] == pages[i];
      }
    }
  }

  /**
   * When there is no next button, `print_placements` has succeeded on
   * exactly one page more than the button was clicked.
   */
  lemma PrintedOneMoreThanClicked<B, E>(pages: seq<Page<B, E>>)
    requires Paginate(pages).end == Finished
    ensures |Paginate(pages).batches| == Paginate(pages).clicks + 1
  {
    var k := FirstStop(pages);
    PaginateSpec(pages, k);
  }

  /** The first page the loop does not click through, or the number of pages. */
  function FirstStop<B, E>(pages: seq<Page<B, E>>): (k: nat)
    ensures k <= |pages| && PassesAll(pages, k) && (k < |pages| ==> !Passes(pages[k]))
    decreases |pages|
  {
    if |pages| == 0 || !Passes(pages[0]) then 0
    else
      var k := FirstStop(pages[1..]);
      assert forall i :: 0 < i <= k ==> pages[i] == pages[1..][i - 1];
      k + 1
  }

  /** The run whose batches come first, whose clicks come first, followed by `r`. */
  function Prepend<B, E>(batches: seq<B>, clicks: nat, r: Run<B, E>): Run<B, E> {
    Run(batches + r.batches, clicks + r.clicks, r.end)
  }

  /** The do-while loop as the source writes it, one page per iteration. */
  method ExtractPlacements<B, E>(pages: seq<Page<B, E>>) returns (r: Run<B, E>)
    ensures r == Paginate(pages)
  {
    var batches: seq<B> := [];
    var i := 0;
    while i < |pages|
      invariant 0 <= i <= |pages|
      invariant Paginate(pages) == Prepend(batches, i, Paginate(pages[i..]))
      decreases |pages| - i
    {
      var pg := pages[i];
      var tail := Paginate(pages[i..]);
      if pg.extract.Err? {
        return Prepend(batches, i, Run([], 0, Failed(pg.extract.error)));
      }
      var b := pg.extract.value;
      if pg.probe.NoNext? {
        return Prepend(batches, i, Run([b], 0, Finished));
      }
      if pg.probe.ProbeFailed? {
        return Prepend(batches, i, Run([b], 0, Failed(pg.probe.error)));
      }
      if pg.click.Some? {
        return Prepend(batches, i, Run([b], 0, Failed(pg.click.value)));
      }
      assert pages[i..][1..] == pages[i + 1..];
      var next := Paginate(pages[i + 1..]);
      assert tail == Run([b] + next.batches, next.clicks + 1, next.end);
      assert (batches + [b]) + next.batches == batches + ([b] + next.batches);
      batches := batches + [b];
      i := i + 1;
    }
    assert pages[i..] == [];
    return Run(batches, i, OutOfPages);
  }
}
