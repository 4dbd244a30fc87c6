/**
 * The latest and prior months of a site and the ranking of its customers by
 * revenue in the latest month.
 */
module Ranking {
  import opened Wrappers
  import opened Periods
  import opened Records

  /** Some row of `rows` falls in period `p`. */
  predicate HasPeriod(rows: seq<Row>, p: Period) {
    exists row :: row in rows && row.period == Some(p)
  }

  /** `p` lies strictly below `bound`, or there is no bound. */
  predicate Below(p: Period, bound: Option<Period>) {
    bound.None? || p < bound.value
  }

  /** The greatest period of `rows` strictly below `bound`; None when there is none (NaT). */
  function MaxPeriodBelow(rows: seq<Row>, bound: Option<Period>): (r: Option<Period>)
    ensures r.Some? ==> Below(r.value, bound) && HasPeriod(rows, r.value)
    ensures r.Some? ==> forall row :: row in rows && row.period.Some? && Below(row.period.value, bound) ==> row.period.value <= r.value
    ensures r.None? ==> forall row :: row in rows && row.period.Some? ==> !Below(row.period.value, bound)
  {
    if rows == [] then None
    else
      var init := rows[..|rows| - 1];
      var last := rows[|rows| - 1];
      assert rows == init + [last];
      var rest := MaxPeriodBelow(init, bound);
      if last.period.Some? && Below(last.period.value, bound) && (rest.None? || rest.value < last.period.value)
      then last.period
      else rest
  }

  /** The latest month: the maximum period, None when no row has a valid period. */
  function LatestPeriod(rows: seq<Row>): (r: Option<Period>)
    ensures r.None? <==> forall row :: row in rows ==> row.period.None?
    ensures r.Some? ==> HasPeriod(rows, r.value)
    ensures r.Some? ==> forall row :: row in rows && row.period.Some? ==> row.period.value <= r.value
  {
    MaxPeriodBelow(rows, None)
  }

  /**
   * The prior month: the greatest period before `latest` found in the rows,
   * or the calendar month before `latest` when the rows have none.
   */
  function PriorPeriod(rows: seq<Row>, latest: Period): (r: Period)
    ensures r < latest
    ensures forall row :: row in rows && row.period.Some? && row.period.value < latest ==> row.period.value <= r
    ensures (exists row :: row in rows && row.period.Some? && row.period.value < latest) ==> HasPeriod(rows, r)
    ensures (forall row :: row in rows && row.period.Some? ==> row.period.value >= latest) ==> r == MonthsBefore(latest, 1)
  {
    var inData := MaxPeriodBelow(rows, Some(latest));
    if inData.Some? then inData.value else MonthsBefore(latest, 1)
  }

  /** The summed Amount of customer `c` in period `p` (0 when there is no such row). */
  function Total(rows: seq<Row>, c: string, p: Period): int {
    if rows == [] then 0
    else
      var last := rows[|rows| - 1];
      Total(rows[..|rows| - 1], c, p)
        + (if last.customer == Some(c) && last.period == Some(p) then last.amount else 0)
  }

  /** A customer without a row in a month has a summed Amount of 0 there. */
  lemma {:induction false} AbsentTotalIsZero(rows: seq<Row>, c: string, p: Period)
    requires !HasCell(rows, c, p)
    ensures Total(rows, c, p) == 0
  {
    if rows != [] {
      var init := rows[..|rows| - 1];
      assert rows == init + [rows[|rows| - 1]];
      assert !HasCell(init, c, p) by {
        forall row | row in init ensures !(row.customer == Some(c) && row.period == Some(p)) {
          assert row in rows;
        }
      }
      AbsentTotalIsZero(init, c, p);
    }
  }

  /** Customer `c` has at least one row in period `p`. */
  predicate HasCell(rows: seq<Row>, c: string, p: Period) {
    exists row :: row in rows && row.customer == Some(c) && row.period == Some(p)
  }

  /** Pairwise different elements. */
  predicate Distinct(s: seq<string>) {
    forall i, j :: 0 <= i < j < |s| ==> s[i] != s[j]
  }

  /** The customers with a row in period `p`, each once (the groups of a group-by on Customer). */
  function CustomersIn(rows: seq<Row>, p: Period): (r: seq<string>)
    ensures Distinct(r)
    ensures forall c :: c in r <==> HasCell(rows, c, p)
  {
    if rows == [] then []
    else
      var init := rows[..|rows| - 1];
      var last := rows[|rows| - 1];
      assert rows == init + [last];
      var rest := CustomersIn(init, p);
      if last.period == Some(p) && last.customer.Some? && last.customer.value !in rest
      then rest + [last.customer.value]
      else rest
  }

  /** Sorted by `key`, largest first. */
  predicate SortedDesc(key: string -> int, cs: seq<string>) {
    forall i, j :: 0 <= i < j < |cs| ==> key(cs[i]) >= key(cs[j])
  }

  /** `cs[0]` does not occur again in a list without duplicates. */
  lemma HeadNotInTail(cs: seq<string>)
    requires Distinct(cs) && |cs| > 0
    ensures cs[0] !in cs[1..]
  {
  }

  /** Put `c` before the first customer whose key it reaches. */
  function InsertDesc(key: string -> int, c: string, cs: seq<string>): (r: seq<string>)
    requires SortedDesc(key, cs)
    ensures SortedDesc(key, r)
    ensures |r| == |cs| + 1
    ensures forall x :: x in r <==> x == c || x in cs
    ensures Distinct(cs) && c !in cs ==> Distinct(r)
  {
    if cs == [] then [c]
    else if key(c) >= key(cs[0]) then [c] + cs
    else
      var rest := InsertDesc(key, c, cs[1..]);
      assert Distinct(cs) ==> cs[0] !in cs[1..] by { if Distinct(cs) { HeadNotInTail(cs); } }
      assert forall x :: x in rest ==> key(cs[0]) >= key(x) by {
        forall x | x in rest ensures key(cs[0]) >= key(x) {
          if x != c {
            var j :| 0 <= j < |cs| - 1 && cs[1..][j] == x;
            assert x == cs[j + 1];
          }
        }
      }
      [cs[0]] + rest
  }

  /** The customers `cs`, reordered by `key`, largest first (an insertion sort). */
  function SortDesc(key: string -> int, cs: seq<string>): (r: seq<string>)
    requires Distinct(cs)
    ensures SortedDesc(key, r)
    ensures Distinct(r) && |r| == |cs|
    ensures forall x :: x in r <==> x in cs
  {
    if cs == [] then []
    else
      HeadNotInTail(cs);
      InsertDesc(key, cs[0], SortDesc(key, cs[1..]))
  }

  /** Sorted by period-`p` revenue, largest first. */
  predicate ByTotalDesc(rows: seq<Row>, p: Period, cs: seq<string>) {
    forall i, j :: 0 <= i < j < |cs| ==> Total(rows, cs[i], p) >= Total(rows, cs[j], p)
  }

  /** How many customers the comparison panel ranks. */
  const TopCount := 7

  /**
   * The top customers of period `latest`: its customers sorted by that month's
   * summed Amount, largest first, cut to the first seven.
   */
  function TopCustomers(rows: seq<Row>, latest: Period): (r: seq<string>)
    ensures |r| <= TopCount && Distinct(r)
    ensures forall c :: c in r ==> HasCell(rows, c, latest)
    ensures ByTotalDesc(rows, latest, r)
    ensures |CustomersIn(rows, latest)| <= TopCount ==> forall c :: HasCell(rows, c, latest) ==> c in r
    ensures |r| == if |CustomersIn(rows, latest)| < TopCount then |CustomersIn(rows, latest)| else TopCount
    ensures forall c, k :: HasCell(rows, c, latest) && c !in r && k in r ==> Total(rows, c, latest) <= Total(rows, k, latest)
  {
    var key := c => Total(rows, c, latest);
    var sorted := SortDesc(key, CustomersIn(rows, latest));
    assert ByTotalDesc(rows, latest, sorted) by {
      assert SortedDesc(key, sorted);
    }
    var n := if |sorted| < TopCount then |sorted| else TopCount;
    var top := sorted[..n];
    assert forall c, k :: HasCell(rows, c, latest) && c !in top && k in top ==> Total(rows, c, latest) <= Total(rows, k, latest) by {
      forall c, k | HasCell(rows, c, latest) && c !in top && k in top
        ensures Total(rows, c, latest) <= Total(rows, k, latest)
      {
        var j :| 0 <= j < |sorted| && sorted[j] == c;
        var i :| 0 <= i < n && top[i] == k;
        assert n <= j;
      }
    }
    top
  }
}
