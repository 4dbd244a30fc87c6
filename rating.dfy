/**
 * The month-over-month percentage change and the star/alert rating shown on
 * each comparison card.
 */
module Rating {

  /** Four star tiers for growth, four alert tiers for decline. */
  datatype Rating = Stars(count: nat) | Alerts(count: nat)

  /** The rating as a signed tier: +1..+4 for stars, -1..-4 for alerts. */
  function Tier(r: Rating): int {
    match r
    case Stars(n) => n
    case Alerts(n) => -(n as int)
  }

  /** Percentage change from `previous` to `current`; 0 when `previous` is 0. */
  function Pct(current: int, previous: int): (r: real)
    ensures previous == 0 ==> r == 0.0
    ensures previous != 0 ==> r * previous as real == (current - previous) as real * 100.0
  {
    if previous != 0 then (current - previous) as real / previous as real * 100.0 else 0.0
  }

  /**
   * The rating of a month: by the percentage change when the current value
   * is positive, otherwise by the current value alone.
   */
  function StarRating(current: int, previous: int): (r: Rating)
    ensures 1 <= r.count <= 4
    ensures r.Stars? ==> current > 0
    // the percentage ladder, one band per tier; 50% exactly is three stars
    ensures current > 0 ==> (r == Stars(4) <==> Pct(current, previous) > 50.0)
    ensures current > 0 ==> (r == Stars(3) <==> 25.0 <= Pct(current, previous) <= 50.0)
    ensures current > 0 ==> (r == Stars(2) <==> 5.0 <= Pct(current, previous) < 25.0)
    ensures current > 0 ==> (r == Stars(1) <==> 0.0 <= Pct(current, previous) < 5.0)
    ensures current > 0 ==> (r == Alerts(1) <==> -5.0 <= Pct(current, previous) < 0.0)
    ensures current > 0 ==> (r == Alerts(2) <==> -25.0 <= Pct(current, previous) < -5.0)
    ensures current > 0 ==> (r == Alerts(3) <==> -50.0 <= Pct(current, previous) < -25.0)
    ensures current > 0 ==> (r == Alerts(4) <==> Pct(current, previous) < -50.0)
    // the value ladder: only alerts, and everything below -100000 is the top alert
    ensures current <= 0 ==> (r == Alerts(1) <==> current > -5000)
    ensures current <= 0 ==> (r == Alerts(2) <==> -50000 <= current <= -5000)
    ensures current <= 0 ==> (r == Alerts(3) <==> -100000 <= current < -50000)
    ensures current <= 0 ==> (r == Alerts(4) <==> current < -100000)
  {
    var pct := Pct(current, previous);
    if current > 0 then
      if pct > 50.0 then Stars(4)
      else if pct >= 25.0 then Stars(3)
      else if pct >= 5.0 then Stars(2)
      else if pct >= 0.0 then Stars(1)
      else if pct >= -5.0 then Alerts(1)
      else if pct >= -25.0 then Alerts(2)
      else if pct >= -50.0 then Alerts(3)
      else Alerts(4)
    else
      if current > -5000 then Alerts(1)
      else if current >= -50000 then Alerts(2)
      else if current >= -100000 then Alerts(3)
      else if current >= -500000 then Alerts(4)
      else Alerts(4)
  }

  /** Against a positive previous month, the percentage grows with the current value. */
  lemma PctMonotone(a: int, b: int, previous: int)
    requires previous > 0 && a <= b
    ensures Pct(a, previous) <= Pct(b, previous)
  {
  }

  /**
   * For a fixed positive previous month, raising a positive current value
   * never lowers the rating.
   */
  lemma {:induction false} RatingMonotone(a: int, b: int, previous: int)
    requires previous > 0 && 0 < a <= b
    ensures Tier(StarRating(a, previous)) <= Tier(StarRating(b, previous))
  {
    PctMonotone(a, b, previous);
  }

  /**
   * A positive month against a negative previous month always rates as an
   * alert: dividing by the negative base makes the percentage negative.
   */
  lemma PositiveOverNegativeBaseIsAlert(current: int, previous: int)
    requires current > 0 && previous < 0
    ensures StarRating(current, previous).Alerts?
  {
  }

  /** A customer new this month (nothing last month) gets one star. */
  lemma NewCustomerIsOneStar(current: int)
    requires current > 0
    ensures StarRating(current, 0) == Stars(1)
  {
  }

  /** 1000 then 1500 is +50%, the top of the three-star band. */
  lemma FiftyPercentIsThreeStars()
    ensures Pct(1500, 1000) == 50.0 && StarRating(1500, 1000) == Stars(3)
  {
  }
}
