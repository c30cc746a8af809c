/**
 * The page-to-offset arithmetic the request handlers do before calling the
 * film repository, and the clamp on the analytics endpoint's `limit`.
 */
module Paging {
  import opened Prelude
  import opened Validators

  /** Films per page: the repository's default `LIMIT`. */
  const PageSize := 10

  /** `offset = (page - 1) * 10`. */
  function PageOffset(page: int): int {
    (page - 1) * PageSize
  }

  /**
   * A validated page number always gives a non-negative offset that falls
   * on a page boundary, and page `p + 1` starts where page `p` ends.
   */
  lemma ValidatedPageOffset(raw: Raw)
    ensures PageOffset(ValidatePage(raw)) >= 0
    ensures PageOffset(ValidatePage(raw)) % PageSize == 0
    ensures PageOffset(ValidatePage(raw) + 1) == PageOffset(ValidatePage(raw)) + PageSize
  {
    var p := ValidatePage(raw);
    assert PageOffset(p) == (p - 1) * 10;
    assert ((p - 1) * 10) % 10 == 0;
  }

  const DefaultAnalyticsLimit := 5
  const MaxAnalyticsLimit := 100

  /**
   * `min(max(1, int(limit)), 100) if isinstance(limit, int) else 5`: the
   * number of popular queries the analytics data endpoint asks for.
   */
  function AnalyticsLimit(limit: Raw): (r: int)
    ensures 1 <= r <= MaxAnalyticsLimit
    ensures limit.Num? && 1 <= limit.n <= MaxAnalyticsLimit ==> r == limit.n
    ensures limit.Num? && limit.n < 1 ==> r == 1
    ensures limit.Num? && limit.n > MaxAnalyticsLimit ==> r == MaxAnalyticsLimit
    ensures !limit.Num? ==> r == DefaultAnalyticsLimit
  {
    match limit
    case Num(n) => Min(Max(1, n), MaxAnalyticsLimit)
    case _ => DefaultAnalyticsLimit
  }
}
