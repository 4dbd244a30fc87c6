/**
 * The dashboard's rows, before and after normalisation, and the notices it
 * shows when a step has nothing to work on.
 */
module Records {
  import opened Wrappers
  import opened Periods

  /**
   * A row as loaded.  `site` and `customer` are None where the cell is empty;
   * `year` and `month` are the whole numbers the Year and Month columns hold
   * after their float-to-int conversion; `amount` is None where the Amount
   * cell does not parse as a number.
   */
  datatype RawRow = RawRow(site: Option<string>, customer: Option<string>,
                           year: int, month: int, amount: Option<int>)

  /** A row after normalisation: a period (None for an invalid month) and a numeric amount. */
  datatype Row = Row(site: Option<string>, customer: Option<string>,
                     period: Option<Period>, amount: int)

  /** Why a panel shows a message instead of its content. */
  datatype Notice =
    | NoSites             // no usable site in the data
    | NoDataForSite       // the selected site has no rows
    | NoValidPeriods      // the site's rows have no valid period
    | NoCustomerSelected  // the customer selection is empty
    | NoRevenueData       // the selected customers have no row with a period

  /** The colours the page uses for trends. */
  datatype Color = Green | Red | Black

  /** Coerce the amount (unparseable becomes 0) and build the period. */
  function Normalize(raw: RawRow): (r: Row)
    ensures r.site == raw.site && r.customer == raw.customer
    ensures raw.amount.None? ==> r.amount == 0
    ensures raw.amount.Some? ==> r.amount == raw.amount.value
    ensures r.period.Some? <==> 1 <= raw.month <= 12 && EarliestPeriod <= raw.year * 12 + raw.month - 1 <= LatestRepresentable
    ensures r.period.Some? ==> YearOf(r.period.value) == raw.year && MonthOf(r.period.value) == raw.month
  {
    Row(raw.site, raw.customer, MakePeriod(raw.year, raw.month), raw.amount.GetOr(0))
  }

  /** Normalise every row; the table keeps its length and order. */
  function NormalizeAll(raws: seq<RawRow>): (rows: seq<Row>)
    ensures |rows| == |raws|
    ensures forall i :: 0 <= i < |raws| ==> rows[i] == Normalize(raws[i])
  {
    seq(|raws|, i requires 0 <= i < |raws| => Normalize(raws[i]))
  }

  /** Two rows with the same year and month get the same period. */
  lemma SameMonthSamePeriod(raws: seq<RawRow>, i: nat, j: nat)
    requires i < |raws| && j < |raws|
    requires raws[i].year == raws[j].year && raws[i].month == raws[j].month
    ensures NormalizeAll(raws)[i].period == NormalizeAll(raws)[j].period
  {
  }
}
