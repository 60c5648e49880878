/** `calculatePriorityScore` (gateway_contact_lists_logic.js, lines
    196-208). */
module Score {
  import opened Wrappers

  /** The base score of a priority tier. */
  function Base(priority: int): int {
    if priority == 10 then 80 else if priority == 20 then 60 else 40
  }

  /** An absent precision compares false with both thresholds. */
  function PrecisionBonus(precision: Option<int>): int {
    if precision.Some? && precision.value >= 95 then 10
    else if precision.Some? && precision.value >= 90 then 5
    else 0
  }

  function RelevanceBonus(relevance: Option<int>): int {
    if relevance.Some? && relevance.value >= 80 then 5 else 0
  }

  function Min(a: int, b: int): int {
    if a <= b then a else b
  }

  /** The clamp at 100 never binds: the score is the base plus its bonuses
      and lies in [40, 95]. */
  function PriorityScore(priority: int, precision: Option<int>, relevance: Option<int>): (s: int)
    ensures s == Base(priority) + PrecisionBonus(precision) + RelevanceBonus(relevance)
    ensures 40 <= s <= 95
  {
    Min(100, Base(priority) + PrecisionBonus(precision) + RelevanceBonus(relevance))
  }

  /** Contact-list hits are scored with precision 95 and relevance 90. */
  lemma ContactHitScore(priority: int)
    ensures PriorityScore(priority, Some(95), Some(90)) == Base(priority) + 15
    ensures PriorityScore(priority, Some(95), Some(90)) in {95, 75, 55}
  {
  }

  /** A better tier always outscores a worse one, whatever the bonuses. */
  lemma TierDominates(p: int, a: Option<int>, b: Option<int>, c: Option<int>, d: Option<int>)
    requires p != 10
    ensures PriorityScore(10, a, b) > PriorityScore(p, c, d)
    ensures p != 20 ==> PriorityScore(20, a, b) > PriorityScore(p, c, d)
  {
  }

  /** More precision or more relevance never lowers the score. */
  lemma ScoreMonotone(priority: int, p1: int, p2: int, r1: int, r2: int)
    requires p1 <= p2 && r1 <= r2
    ensures PriorityScore(priority, Some(p1), Some(r1)) <= PriorityScore(priority, Some(p2), Some(r2))
  {
  }
}
