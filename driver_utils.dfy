/**
 * `driver_utils.py`: scrolling by script until the document height stops
 * growing. Its copy of `scroll_selenium_keys` is the one of `NavigationUtils`.
 */
module DriverUtils {

  import opened NavigationUtils

  /**
   * `scroll_javascript`: `window.scrollBy` one page height, read
   * `document.body.scrollHeight`, and stop when it equals the previous
   * reading. `heights[0]` is the height before the first scroll; the result
   * is the number of scrolls.
   */
  method ScrollJavascript(heights: seq<int>) returns (scrolls: nat)
    requires Settles(heights)
    ensures SettlesAt(heights, scrolls)
  {
    ghost var w: nat :| SettlesAt(heights, w);
    var lastHeight := heights[0];
    scrolls := 0;
    while true
      invariant 0 <= scrolls < w
      invariant lastHeight == heights[scrolls]
      invariant forall j :: 1 <= j <= scrolls ==> heights[j] != heights[j - 1]
      decreases w - scrolls
    {
      scrolls := scrolls + 1;
      var newHeight := heights[scrolls];
      if newHeight == lastHeight {
        return;
      }
      lastHeight := newHeight;
    }
  }
}
