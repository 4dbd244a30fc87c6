/**
 * The "Top 7 Customers Comparison" panel: one card per top customer of the
 * latest month, padded with blank cards to seven.
 */
module Comparison {
  import opened Wrappers
  import opened Periods
  import opened Records
  import opened Sites
  import opened Ranking
  import opened Rating

  datatype Arrow = Up | Down

  /**
   * A card: the customer's latest-month and prior-month sums, their
   * difference and percentage change, the trend arrow and its colour, the
   * rating and the two months shown; or a blank placeholder.
   */
  datatype Card =
    | Filled(customer: string, current: int, previous: int, diff: int, pct: real,
             arrow: Arrow, color: Color, rating: Rating, month1: Period, month2: Period)
    | Blank
  {
    /** The text colour of the card; a blank card is black. */
    function TextColor(): Color {
      if Filled? then color else Black
    }
  }

  /** What the panel shows for one site. */
  datatype Panel = Panel(latest: Period, prior: Period, cards: seq<Card>)

  /** The card of customer `c`, comparing month `latest` with month `prior`. */
  function CardFor(rows: seq<Row>, c: string, latest: Period, prior: Period): (card: Card)
    ensures card.Filled? && card.customer == c
    ensures card.current == Total(rows, c, latest) && card.previous == Total(rows, c, prior)
    ensures card.diff == card.current - card.previous
    ensures card.pct == Pct(card.current, card.previous)
    ensures card.rating == StarRating(card.current, card.previous)
    // up and green only on a strict rise; an unchanged month is down and red
    ensures card.arrow == Up <==> card.current > card.previous
    ensures card.TextColor() == Green <==> card.arrow == Up
    ensures card.TextColor() == Red <==> card.arrow == Down
    ensures card.month1 == latest && card.month2 == prior
  {
    var cur := Total(rows, c, latest);
    var prev := Total(rows, c, prior);
    var up := cur > prev;
    Filled(c, cur, prev, cur - prev, Pct(cur, prev),
           if up then Up else Down, if up then Green else Red,
           StarRating(cur, prev), latest, prior)
  }

  /**
   * One card per customer of `top`, in the order of `top`, then blank cards
   * until there are seven.
   */
  method BuildCards(rows: seq<Row>, top: seq<string>, latest: Period, prior: Period)
    returns (cards: seq<Card>)
    ensures |cards| == if |top| < TopCount then TopCount else |top|
    ensures forall i :: 0 <= i < |top| ==> cards[i] == CardFor(rows, top[i], latest, prior)
    ensures forall i :: |top| <= i < |cards| ==> cards[i] == Blank
  {
    cards := [];
    for k := 0 to |top|
      invariant |cards| == k
      invariant forall i :: 0 <= i < k ==> cards[i] == CardFor(rows, top[i], latest, prior)
    {
      var cur := Total(rows, top[k], latest);
      var prev := Total(rows, top[k], prior);
      var diff := cur - prev;
      var pct := Pct(cur, prev);
      var rating := StarRating(cur, prev);
      var arrow, color := if cur > prev then Up else Down, if cur > prev then Green else Red;
      cards := cards + [Filled(top[k], cur, prev, diff, pct, arrow, color, rating, latest, prior)];
    }
    while |cards| < TopCount
      invariant |top| <= |cards| <= if |top| < TopCount then TopCount else |top|
      invariant forall i :: 0 <= i < |top| ==> cards[i] == CardFor(rows, top[i], latest, prior)
      invariant forall i :: |top| <= i < |cards| ==> cards[i] == Blank
      decreases TopCount - |cards|
    {
      cards := cards + [Blank];
    }
  }

  /**
   * The panel for `site`: its rows, the latest month (their maximum period),
   * the prior month, and the cards of the top seven customers of the latest
   * month.  Stops with a notice when the site has no rows or no valid period.
   */
  method ComparisonPanel(rows: seq<Row>, site: string) returns (res: Result<Panel, Notice>)
    ensures res == Failure(NoDataForSite) <==> SiteRows(rows, site) == []
    ensures res.Failure? ==> res.error == NoDataForSite || res.error == NoValidPeriods
    ensures res == Failure(NoValidPeriods) <==>
      SiteRows(rows, site) != [] && LatestPeriod(SiteRows(rows, site)).None?
    ensures res.Success? ==>
      var siteRows := SiteRows(rows, site);
      var top := TopCustomers(siteRows, res.value.latest);
      && LatestPeriod(siteRows) == Some(res.value.latest)
      && res.value.prior == PriorPeriod(siteRows, res.value.latest)
      && |res.value.cards| == TopCount
      && (forall i :: 0 <= i < |top| ==> res.value.cards[i] == CardFor(siteRows, top[i], res.value.latest, res.value.prior))
      && (forall i :: |top| <= i < TopCount ==> res.value.cards[i] == Blank)
  {
    var siteRows := SiteRows(rows, site);
    if siteRows == [] {
      return Failure(NoDataForSite);
    }
    var latest := LatestPeriod(siteRows);
    if latest.None? {
      return Failure(NoValidPeriods);
    }
    var prior := PriorPeriod(siteRows, latest.value);
    var top := TopCustomers(siteRows, latest.value);
    var cards := BuildCards(siteRows, top, latest.value, prior);
    res := Success(Panel(latest.value, prior, cards));
  }

  /**
   * The cards built for the top customers of a month: the filled cards come
   * first, belong to different customers with revenue in that month, and are
   * ordered by current sum, largest first.
   */
  lemma CardsRanked(rows: seq<Row>, latest: Period, prior: Period, cards: seq<Card>, i: nat, j: nat)
    requires |cards| == TopCount
    requires forall k :: 0 <= k < |TopCustomers(rows, latest)| ==>
      cards[k] == CardFor(rows, TopCustomers(rows, latest)[k], latest, prior)
    requires forall k :: |TopCustomers(rows, latest)| <= k < TopCount ==> cards[k] == Blank
    requires i < j < TopCount && cards[j].Filled?
    ensures cards[i].Filled? && cards[i].current >= cards[j].current
    ensures HasCell(rows, cards[j].customer, latest)
    ensures cards[i].customer != cards[j].customer
  {
    var top := TopCustomers(rows, latest);
    assert j < |top|;
  }

  /**
   * When the site has no month before the latest, the prior month is the
   * calendar month before it and has no rows: every card shows a previous
   * value of 0 and a percentage change of 0.
   */
  lemma FallbackPriorShowsZero(rows: seq<Row>, c: string, latest: Period)
    requires LatestPeriod(rows) == Some(latest)
    requires forall row :: row in rows && row.period.Some? ==> row.period.value >= latest
    ensures PriorPeriod(rows, latest) == MonthsBefore(latest, 1)
    ensures CardFor(rows, c, latest, PriorPeriod(rows, latest)).previous == 0
    ensures CardFor(rows, c, latest, PriorPeriod(rows, latest)).pct == 0.0
  {
    AbsentTotalIsZero(rows, c, PriorPeriod(rows, latest));
  }

  /** A customer with no row in the prior month shows previous 0, a diff equal to its current value and 0%. */
  lemma NewCustomerCard(rows: seq<Row>, c: string, latest: Period, prior: Period)
    requires !HasCell(rows, c, prior)
    ensures CardFor(rows, c, latest, prior).previous == 0
    ensures CardFor(rows, c, latest, prior).diff == CardFor(rows, c, latest, prior).current
    ensures CardFor(rows, c, latest, prior).pct == 0.0
    ensures CardFor(rows, c, latest, prior).current > 0 ==> CardFor(rows, c, latest, prior).rating == Stars(1)
  {
    AbsentTotalIsZero(rows, c, prior);
  }
}
