/**
 * `utils/navigation_utils.py`: clicking a node that must appear within the
 * wait, and paging down until the scroll offset stops moving.
 */
module NavigationUtils {

  import opened Dom

  /**
   * `click_element`: wait (one second by default) for the node, then click it.
   * `Returned(true)` is a click, `Returned(false)` a swallowed
   * `TimeoutException`; a missing catalog key and any other driver error
   * escape to the caller.
   */
  function ClickElement(page: Page, catalog: Catalog, key: string): (r: Attempt<bool>)
    ensures r == Raised(KeyError(key)) <==> key !in catalog
    ensures r == Returned(true) <==> key in catalog && page.find(catalog[key]).Found?
    ensures r == Returned(false) <==> key in catalog && (page.find(catalog[key]).NotFound? || page.find(catalog[key]).Timeout?)
    ensures r == Raised(DriverError) <==> key in catalog && page.find(catalog[key]).OtherError?
  {
    if key !in catalog then Raised(KeyError(key))
    else
      match Wait(page.find(catalog[key]))
      case Found(_) => Returned(true)
      case Timeout => Returned(false)
      case _ => Raised(DriverError)
  }

  /** Clicking never raises when the key is in the catalog and the driver answers found or not found in time. */
  lemma ClickTolerant(page: Page, catalog: Catalog, key: string)
    requires key in catalog && !page.find(catalog[key]).OtherError?
    ensures ClickElement(page, catalog, key).Returned?
  {
  }

  /**
   * `readings[0]` is the offset before the first key press and
   * `readings[j]` the offset read after press `j`. The loop stops after `n`
   * presses: the first reading equal to the one before it.
   */
  predicate SettlesAt(readings: seq<int>, n: nat)
  {
    1 <= n < |readings| && readings[n] == readings[n - 1] &&
    forall j :: 1 <= j < n ==> readings[j] != readings[j - 1]
  }

  /** The readings repeat somewhere: the loop has no other exit. */
  ghost predicate Settles(readings: seq<int>)
  {
    exists n: nat :: SettlesAt(readings, n)
  }

  /** The stopping point is determined by the readings. */
  lemma SettlesUnique(readings: seq<int>, n: nat, m: nat)
    requires SettlesAt(readings, n) && SettlesAt(readings, m)
    ensures n == m
  {
  }

  /**
   * `scroll_selenium_keys`: press PAGE_DOWN, read `window.pageYOffset`, and
   * stop when it equals the previous reading, which is replaced each round.
   * The result is the number of presses.
   */
  method ScrollSeleniumKeys(offsets: seq<int>) returns (presses: nat)
    requires Settles(offsets)
    ensures SettlesAt(offsets, presses)
  {
    ghost var w: nat :| SettlesAt(offsets, w);
    var lastHeight := offsets[0];
    presses := 0;
    while true
      invariant 0 <= presses < w
      invariant lastHeight == offsets[presses]
      invariant forall j :: 1 <= j <= presses ==> offsets[j] != offsets[j - 1]
      decreases w - presses
    {
      presses := presses + 1;
      var newHeight := offsets[presses];
      if newHeight == lastHeight {
        return;
      }
      lastHeight := newHeight;
    }
  }

  /** Readings that repeat at once stop the loop after a single press. */
  lemma OnePressAtBottom(offsets: seq<int>)
    requires |offsets| >= 2 && offsets[1] == offsets[0]
    ensures SettlesAt(offsets, 1)
  {
  }
}
