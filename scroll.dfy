/**
 * The scroll arithmetic at the end of oDataList::doPaint: the page size and range
 * handed to the scroll bars, the clamp that pulls an offset back when the content
 * has become shorter, and the scroll that brings the current line into view.
 */
module DLScroll {
  import opened Geometry

  /** Extra room below and right of the content; also the height a line must keep on screen. */
  const Slack: int := 32

  /** Half the client extent, at least one pixel. */
  function PageSize(extent: int): (r: int)
    ensures r >= 1
    ensures extent >= 2 ==> 2 * r <= extent <= 2 * r + 1
  {
    Max(1, Half(extent))
  }

  /** The scroll range for content ending at `end`, never negative. */
  function MaxScroll(end: int): (r: int)
    ensures r >= 0 && r >= end + Slack
    ensures end + Slack >= 0 ==> r == end + Slack
  {
    Max(0, end + Slack)
  }

  /** The largest offset the source keeps: the range less one page, at least zero. */
  function Limit(maxScroll: int, page: int): int
  {
    Max(0, maxScroll - page)
  }

  /** An offset past the range less one page is moved back to that limit. */
  function ClampOffset(offset: int, maxScroll: int, page: int): int
  {
    if offset > maxScroll - page then Limit(maxScroll, page) else offset
  }

  /** The clamp never leaves an offset beyond the limit, keeps every offset within it and never makes one negative. */
  lemma ClampMeaning(offset: int, maxScroll: int, page: int)
    ensures ClampOffset(offset, maxScroll, page) <= Limit(maxScroll, page)
    ensures 0 <= offset <= Limit(maxScroll, page) ==> ClampOffset(offset, maxScroll, page) == offset
    ensures offset >= 0 ==> ClampOffset(offset, maxScroll, page) >= 0
    ensures ClampOffset(offset, maxScroll, page) <= Max(offset, 0)
  {
  }

  /** Clamping twice is clamping once. */
  lemma ClampIdempotent(offset: int, maxScroll: int, page: int)
    ensures ClampOffset(ClampOffset(offset, maxScroll, page), maxScroll, page) == ClampOffset(offset, maxScroll, page)
  {
  }

  /** The vertical offset and the remembered top of the current line after the auto-scroll step. */
  datatype Scrolled = Scrolled(offset: int, lastTop: int)

  /** A line whose top is at `top` is out of view when it starts above the window or has less than Slack pixels in it. */
  predicate OutOfView(top: int, offset: int, height: int)
  {
    top < offset || top + Slack > offset + height
  }

  /**
   * The auto-scroll step.  `current` is the list's current line (0 for none) and `found`
   * the top findTopForRow reports for it: -1 when no header or row entry of the outline
   * shows it, and for a line inside a collapsed group the top cached when it was last laid
   * out.  A line whose top has not moved since the last paint is left alone so that the
   * user may scroll away from it; a moved line that is out of view is centred, within the
   * limit.
   */
  function AutoScroll(current: int, found: int, lastTop: int, offset: int, height: int, maxScroll: int, page: int): Scrolled
  {
    if current == 0 || found == -1 then Scrolled(offset, 0)
    else if found == lastTop then Scrolled(offset, lastTop)
    else if OutOfView(found, offset, height) then
      Scrolled(Max(0, Min(found - Half(height), maxScroll - page)), found)
    else Scrolled(offset, found)
  }

  /** What the step promises: the remembered top, which offset it keeps, and where a scroll lands. */
  lemma AutoScrollMeaning(current: int, found: int, lastTop: int, offset: int, height: int, maxScroll: int, page: int)
    ensures var r := AutoScroll(current, found, lastTop, offset, height, maxScroll, page);
      (r.lastTop == if current == 0 || found == -1 then 0 else found) &&
      (r.offset != offset ==> current != 0 && found != -1 && found != lastTop && OutOfView(found, offset, height)) &&
      (r.offset != offset ==> 0 <= r.offset <= Limit(maxScroll, page))
  {
  }

  /** Running the step again right after it changes nothing: the line's top is now the remembered one. */
  lemma AutoScrollIdempotent(current: int, found: int, lastTop: int, offset: int, height: int, maxScroll: int, page: int)
    ensures var r := AutoScroll(current, found, lastTop, offset, height, maxScroll, page);
      AutoScroll(current, found, r.lastTop, r.offset, height, maxScroll, page) == r
  {
  }

  /** A centring scroll that the limit does not cut short leaves the line in view, when the window is at least 64 pixels high. */
  lemma AutoScrollShowsLine(current: int, found: int, lastTop: int, offset: int, height: int, maxScroll: int, page: int)
    requires current != 0 && found != -1 && found != lastTop && OutOfView(found, offset, height)
    requires 0 <= found - Half(height) <= maxScroll - page
    requires height >= 2 * Slack
    ensures !OutOfView(found, AutoScroll(current, found, lastTop, offset, height, maxScroll, page).offset, height)
  {
  }
}
