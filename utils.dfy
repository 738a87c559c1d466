/** utils/utils.go: the pagination window shown under every list, and the
    template helpers that accept a missing date. The date formatter is a
    parameter (its layout is not modelled); a duration in days is the
    elapsed seconds divided by a day, truncated toward zero as Go's
    `int(hours / 24)` truncates. */
module Utils {
  import opened Common
  import opened GoText

  function Min(a: int, b: int): int {
    if a <= b then a else b
  }

  /** `GetPageRange`: the page numbers to offer around `currentPage`, at most
      `rangeSize` of them, slid left when the window would pass the last
      page; `[1]` when there is at most one page. */
  method GetPageRange(currentPage: int, totalPages: int, rangeSize: int) returns (pages: seq<int>)
    ensures totalPages <= 1 ==> pages == [1]
    ensures forall k :: 0 <= k < |pages| ==> pages[k] >= 1
    ensures forall k :: 0 <= k < |pages| - 1 ==> pages[k + 1] == pages[k] + 1
    ensures totalPages > 1 ==> forall k :: 0 <= k < |pages| ==> pages[k] <= totalPages
    ensures rangeSize >= 1 && totalPages > 1 ==> |pages| == Min(rangeSize, totalPages)
    ensures rangeSize >= 1 && 1 <= currentPage <= totalPages ==> currentPage in pages
    ensures rangeSize <= 0 && totalPages > 1 ==> pages == []
  {
    if totalPages <= 1 {
      return [1];
    }
    var start := currentPage - GoDiv(rangeSize, 2);
    if start < 1 {
      start := 1;
    }
    var end := start + rangeSize - 1;
    if end > totalPages {
      end := totalPages;
      start := end - rangeSize + 1;
      if start < 1 {
        start := 1;
      }
    }
    assert end <= totalPages;
    pages := [];
    var i := start;
    while i <= end
      invariant start <= i && (start <= end ==> i <= end + 1) && (start > end ==> i == start)
      invariant |pages| == i - start
      invariant forall k :: 0 <= k < |pages| ==> pages[k] == start + k
      decreases end - i
    {
      pages := pages + [i];
      i := i + 1;
    }
    if rangeSize >= 1 && 1 <= currentPage <= totalPages {
      assert pages[currentPage - start] == currentPage;
    }
  }

  /** `FormatDatePointer` and `FormatDateTimePointer`: a missing date prints
      as the empty string, a present one through the layout `format`. */
  function FormatPointer(t: Option<Time>, format: Time -> string): (r: string)
    ensures t.None? ==> r == ""
    ensures t.Some? ==> r == format(t.value)
  {
    match t
    case None => ""
    case Some(v) => format(v)
  }

  /** Whole days in a signed span of seconds, truncated toward zero. */
  function WholeDays(seconds: int): (d: int)
    ensures seconds >= 0 ==> d >= 0 && d * Day <= seconds < (d + 1) * Day
    ensures seconds < 0 ==> d <= 0 && (d - 1) * Day < seconds <= d * Day
  {
    GoDiv(seconds, Day)
  }

  /** `GetRemainingDays`: 0 for a missing date, otherwise the whole days
      from `now` until the date (negative once it has passed). */
  function GetRemainingDays(futureDate: Option<Time>, now: Time): (d: int)
    ensures futureDate.None? ==> d == 0
    ensures futureDate.Some? && futureDate.value >= now ==> d >= 0
  {
    match futureDate
    case None => 0
    case Some(t) => WholeDays(t - now)
  }

  /** `GetOverdueDays`: 0 for a missing date, otherwise the whole days from
      the date until `now`. */
  function GetOverdueDays(pastDate: Option<Time>, now: Time): (d: int)
    ensures pastDate.None? ==> d == 0
    ensures pastDate.Some? && pastDate.value <= now ==> d >= 0
  {
    match pastDate
    case None => 0
    case Some(t) => WholeDays(now - t)
  }

  /** Truncation toward zero is symmetric, so the days overdue are exactly
      the remaining days negated. */
  lemma {:induction false} OverdueIsNegatedRemaining(date: Option<Time>, now: Time)
    ensures GetOverdueDays(date, now) == -GetRemainingDays(date, now)
  {
    if date.Some? {
      var s := date.value - now;
      assert GoDiv(-s, Day) == -GoDiv(s, Day);
    }
  }
}
