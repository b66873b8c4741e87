/**
 * One person's statistics card (frontend/src/components/StatsCard.jsx): the
 * two counts as received and the completion rate, a percentage rounded to
 * the nearest integer with halves rounded up, or 0 when there are no tasks.
 * The rate is computed here in exact integer arithmetic.
 */
module StatsCard {
  import opened Tasks

  /**
   * `Math.round(completed / total * 100)` when `total > 0`, else 0:
   * the integer nearest to `100 * completed / total`, halves going up.
   */
  function CompletionRate(completed: nat, total: nat): (rate: int)
    ensures total == 0 ==> rate == 0
    ensures total > 0 ==> 2 * total * rate <= 200 * completed + total < 2 * total * (rate + 1)
  {
    if total > 0 then (200 * completed + total) / (2 * total) else 0
  }

  /** What the card displays. */
  datatype Card = Card(completedShown: nat, pendingShown: nat, rateShown: int)

  function Show(stats: Entry): (card: Card)
    ensures card.completedShown == stats.completed && card.pendingShown == stats.pending
    ensures card.rateShown == CompletionRate(stats.completed, stats.total)
  {
    Card(stats.completed, stats.pending, CompletionRate(stats.completed, stats.total))
  }

  /** Multiplying by a natural number keeps the order. */
  lemma MulMonotone(k: nat, a: int, b: int)
    requires a <= b
    ensures k * a <= k * b
  {
  }

  /** A rate of a consistent entry is a percentage. */
  lemma RateBounds(completed: nat, total: nat)
    requires completed <= total
    ensures 0 <= CompletionRate(completed, total) <= 100
  {
    var rate := CompletionRate(completed, total);
    MulMonotone(200, completed, total);
    if total > 0 {
      if rate < 0 {
        MulMonotone(2 * total, rate + 1, 0);
      }
      if rate > 100 {
        MulMonotone(2 * total, 101, rate);
      }
    }
  }

  /** Everything done is 100%; nothing done is 0%. */
  lemma RateExtremes(completed: nat, total: nat)
    ensures completed == total > 0 ==> CompletionRate(completed, total) == 100
    ensures completed == 0 ==> CompletionRate(completed, total) == 0
  {
  }

  /** For a fixed total, completing more tasks never lowers the rate. */
  lemma RateMonotone(c1: nat, c2: nat, total: nat)
    requires c1 <= c2
    ensures CompletionRate(c1, total) <= CompletionRate(c2, total)
  {
  }

  /** Three of four tasks done shows 75%. */
  lemma RateThreeOfFour()
    ensures Show(Entry(4, 3, 1)) == Card(3, 1, 75)
  {
  }
}
