/**
 * The rolling 24-month revenue table: for each selected customer an Amount
 * row (thousands) and a Diff row (month-over-month change, thousands), over
 * the most recent months in which the selected customers have revenue.
 */
module Pivot {
  import opened Wrappers
  import opened Periods
  import opened Records
  import opened Ranking

  datatype RowKind = AmountRow | DiffRow

  /** A table row; a None cell is shown blank. */
  datatype PivotRow = PivotRow(customer: string, kind: RowKind, cells: seq<Option<real>>)

  /** The month columns and the rows, two per selected customer. */
  datatype PivotTable = PivotTable(months: seq<Period>, rows: seq<PivotRow>)

  /** The table spans at most this many months, ending at the latest one. */
  const WindowMonths := 24

  /** The row belongs to one of the selected customers. */
  predicate InSelection(row: Row, selected: seq<string>) {
    row.customer.Some? && row.customer.value in selected
  }

  /** The rows of the selected customers, each as often as it occurs. */
  function SelectedRows(rows: seq<Row>, selected: seq<string>): (r: seq<Row>)
    ensures forall row :: multiset(r)[row] == if InSelection(row, selected) then multiset(rows)[row] else 0
    ensures forall row :: row in r <==> row in rows && InSelection(row, selected)
  {
    if rows == [] then []
    else
      var init := rows[..|rows| - 1];
      var last := rows[|rows| - 1];
      assert rows == init + [last];
      if InSelection(last, selected) then SelectedRows(init, selected) + [last]
      else SelectedRows(init, selected)
  }

  /** Some selected customer has revenue (a row with a valid period) in month `p`. */
  predicate HasRevenue(rows: seq<Row>, selected: seq<string>, p: Period) {
    exists row :: row in rows && InSelection(row, selected) && row.period == Some(p)
  }

  /** The months in `[lo, hi)` in which `rows` has a row, ascending. */
  function PeriodsBetween(rows: seq<Row>, lo: Period, hi: Period): (r: seq<Period>)
    decreases hi - lo
    ensures forall p :: p in r <==> lo <= p < hi && HasPeriod(rows, p)
    ensures forall i, j :: 0 <= i < j < |r| ==> r[i] < r[j]
    ensures |r| <= if lo <= hi then hi - lo else 0
  {
    if hi <= lo then []
    else
      var rest := PeriodsBetween(rows, lo, hi - 1);
      assert forall i :: 0 <= i < |rest| ==> rest[i] < hi - 1 by {
        forall i | 0 <= i < |rest| ensures rest[i] < hi - 1 { assert rest[i] in rest; }
      }
      if HasPeriod(rows, hi - 1) then rest + [hi - 1] else rest
  }

  /** When every month of `[lo, hi)` has a row, all of them are columns. */
  lemma {:induction false} PeriodsBetweenFull(rows: seq<Row>, lo: Period, hi: Period)
    requires lo <= hi
    requires forall p :: lo <= p < hi ==> HasPeriod(rows, p)
    ensures |PeriodsBetween(rows, lo, hi)| == hi - lo
    decreases hi - lo
  {
    if lo < hi {
      PeriodsBetweenFull(rows, lo, hi - 1);
    }
  }

  /**
   * The month columns: the distinct months with revenue of the selected
   * customers, from 23 months before the latest such month up to it,
   * ascending; None when the selected customers have no revenue at all.
   */
  function Window(rows: seq<Row>, selected: seq<string>): (r: Option<seq<Period>>)
    ensures r.None? <==> forall p :: !HasRevenue(rows, selected, p)
    ensures r.Some? ==> 1 <= |r.value| <= WindowMonths
    ensures r.Some? ==> forall i, j :: 0 <= i < j < |r.value| ==> r.value[i] < r.value[j]
    // the last column is the latest month of the selected customers' rows
    ensures r.Some? ==> HasRevenue(rows, selected, r.value[|r.value| - 1])
    ensures r.Some? ==> forall p :: HasRevenue(rows, selected, p) ==> p <= r.value[|r.value| - 1]
    // exactly the months with revenue in the trailing 24-month window
    ensures r.Some? ==> forall p :: p in r.value <==>
      MonthsBefore(r.value[|r.value| - 1], WindowMonths - 1) <= p && HasRevenue(rows, selected, p)
  {
    var sel := SelectedRows(rows, selected);
    var max := LatestPeriod(sel);
    if max.None? then
      None
    else
      var m := max.value;
      var ms := PeriodsBetween(sel, MonthsBefore(m, WindowMonths - 1), m + 1);
      assert m in ms;
      var k :| 0 <= k < |ms| && ms[k] == m;
      assert k == |ms| - 1;
      assert forall p :: HasRevenue(rows, selected, p) ==> p <= m by {
        forall p | HasRevenue(rows, selected, p) ensures p <= m {
          var row :| row in rows && InSelection(row, selected) && row.period == Some(p);
          assert row in sel;
        }
      }
      assert forall p :: HasPeriod(sel, p) <==> HasRevenue(rows, selected, p) by {
        forall p ensures HasPeriod(sel, p) <==> HasRevenue(rows, selected, p) {
          if HasRevenue(rows, selected, p) {
            var row :| row in rows && InSelection(row, selected) && row.period == Some(p);
            assert row in sel;
          }
        }
      }
      Some(ms)
  }

  /** With revenue in each of the last 24 months, the table shows exactly 24 columns. */
  lemma FullHistoryFillsWindow(rows: seq<Row>, selected: seq<string>)
    requires Window(rows, selected).Some?
    requires var ms := Window(rows, selected).value;
      forall p :: MonthsBefore(ms[|ms| - 1], WindowMonths - 1) <= p <= ms[|ms| - 1] ==> HasRevenue(rows, selected, p)
    ensures |Window(rows, selected).value| == WindowMonths
  {
    var ms := Window(rows, selected).value;
    var m := ms[|ms| - 1];
    var sel := SelectedRows(rows, selected);
    assert LatestPeriod(sel) == Some(m);
    assert ms == PeriodsBetween(sel, MonthsBefore(m, WindowMonths - 1), m + 1);
    forall p | MonthsBefore(m, WindowMonths - 1) <= p < m + 1
      ensures HasPeriod(sel, p)
    {
      assert HasRevenue(rows, selected, p);
      var row :| row in rows && InSelection(row, selected) && row.period == Some(p);
      assert row in sel;
    }
    PeriodsBetweenFull(sel, MonthsBefore(m, WindowMonths - 1), m + 1);
  }

  /** The summed Amount of `c` in month `p`, None (NaN) when `c` has no row there. */
  function Cell(rows: seq<Row>, c: string, p: Period): Option<int> {
    if HasCell(rows, c, p) then Some(Total(rows, c, p)) else None
  }

  /**
   * Amount cells: blank exactly where the customer has no row in that month,
   * otherwise the month's summed Amount in thousands.
   */
  predicate IsAmountCells(cells: seq<Option<real>>, rows: seq<Row>, c: string, months: seq<Period>) {
    && |cells| == |months|
    && forall j :: 0 <= j < |months| ==>
         && (cells[j].None? <==> !HasCell(rows, c, months[j]))
         && (cells[j].Some? ==> cells[j].value == Total(rows, c, months[j]) as real / 1000.0)
  }

  /**
   * Diff cells: blank in the first column and wherever this month's or the
   * previous column's amount is blank, otherwise the change between the two
   * months' sums in thousands, which is the difference of the two amount cells.
   */
  predicate IsDiffCells(cells: seq<Option<real>>, amounts: seq<Option<real>>, rows: seq<Row>, c: string, months: seq<Period>) {
    && |cells| == |months| && |amounts| == |months|
    && forall j {:trigger cells[j]} :: 0 <= j < |months| ==>
         && (cells[j].None? <==> j == 0 || amounts[j].None? || amounts[j - 1].None?)
         && (cells[j].Some? ==>
               && cells[j].value == (Total(rows, c, months[j]) - Total(rows, c, months[j - 1])) as real / 1000.0
               && cells[j].value == amounts[j].value - amounts[j - 1].value)
  }

  /** The Amount and Diff cells of customer `c` over the month columns. */
  method CustomerRows(rows: seq<Row>, c: string, months: seq<Period>)
    returns (amounts: seq<Option<real>>, diffs: seq<Option<real>>)
    ensures IsAmountCells(amounts, rows, c, months)
    ensures IsDiffCells(diffs, amounts, rows, c, months)
  {
    // the customer's row of the group-by, aligned to the month columns
    var reindexed := seq(|months|, j requires 0 <= j < |months| => Cell(rows, c, months[j]));

    amounts := [];
    for j := 0 to |reindexed|
      invariant |amounts| == j
      invariant forall i :: 0 <= i < j ==> (amounts[i].None? <==> reindexed[i].None?)
      invariant forall i :: 0 <= i < j && amounts[i].Some? ==> amounts[i].value == reindexed[i].value as real / 1000.0
    {
      var v := reindexed[j];
      if v.None? {
        amounts := amounts + [None];
      } else {
        amounts := amounts + [Some(v.value as real / 1000.0)];
      }
    }

    // None before the first column; Some(None) after a blank column
    diffs := [];
    var prev: Option<Option<int>> := None;
    for j := 0 to |reindexed|
      invariant |diffs| == j
      invariant prev.None? <==> j == 0
      invariant j > 0 ==> prev == Some(reindexed[j - 1])
      invariant forall i :: 0 <= i < j ==>
        (diffs[i].None? <==> i == 0 || reindexed[i].None? || reindexed[i - 1].None?)
      invariant forall i :: 0 <= i < j && diffs[i].Some? ==>
        i > 0 && reindexed[i].Some? && reindexed[i - 1].Some? &&
        diffs[i].value == (reindexed[i].value - reindexed[i - 1].value) as real / 1000.0
    {
      var v := reindexed[j];
      if prev.None? || v.None? || prev.value.None? {
        diffs := diffs + [None];
      } else {
        diffs := diffs + [Some((v.value - prev.value.value) as real / 1000.0)];
      }
      prev := Some(v);
    }
  }

  /**
   * The table rows: for each selected customer, in selection order, its
   * Amount row immediately followed by its Diff row.
   */
  method BuildRows(rows: seq<Row>, selected: seq<string>, months: seq<Period>)
    returns (table: seq<PivotRow>)
    ensures |table| == 2 * |selected|
    ensures forall k :: 0 <= k < |table| ==>
      table[k].customer == selected[k / 2] && table[k].kind == (if k % 2 == 0 then AmountRow else DiffRow)
    ensures forall k :: 0 <= k < |table| && k % 2 == 0 ==>
      IsAmountCells(table[k].cells, rows, selected[k / 2], months)
    ensures forall k :: 0 <= k < |table| && k % 2 == 1 ==>
      IsDiffCells(table[k].cells, table[k - 1].cells, rows, selected[k / 2], months)
  {
    table := [];
    for i := 0 to |selected|
      invariant |table| == 2 * i
      invariant forall k :: 0 <= k < |table| ==>
        table[k].customer == selected[k / 2] && table[k].kind == (if k % 2 == 0 then AmountRow else DiffRow)
      invariant forall k :: 0 <= k < |table| && k % 2 == 0 ==>
        IsAmountCells(table[k].cells, rows, selected[k / 2], months)
      invariant forall k :: 0 <= k < |table| && k % 2 == 1 ==>
        IsDiffCells(table[k].cells, table[k - 1].cells, rows, selected[k / 2], months)
    {
      var amounts, diffs := CustomerRows(rows, selected[i], months);
      table := table + [PivotRow(selected[i], AmountRow, amounts), PivotRow(selected[i], DiffRow, diffs)];
    }
  }

  /**
   * The revenue table of a site's rows for the selected customers; stops with
   * a notice when nothing is selected or the selection has no revenue.
   */
  method PivotPanel(rows: seq<Row>, selected: seq<string>) returns (res: Result<PivotTable, Notice>)
    ensures res == Failure(NoCustomerSelected) <==> selected == []
    ensures res.Failure? ==> res.error == NoCustomerSelected || res.error == NoRevenueData
    ensures res == Failure(NoRevenueData) <==> selected != [] && forall p :: !HasRevenue(rows, selected, p)
    ensures res.Success? ==> Window(rows, selected) == Some(res.value.months)
    ensures res.Success? ==> var t := res.value;
      && |t.rows| == 2 * |selected|
      && (forall k :: 0 <= k < |t.rows| ==>
            t.rows[k].customer == selected[k / 2] && t.rows[k].kind == (if k % 2 == 0 then AmountRow else DiffRow))
      && (forall k :: 0 <= k < |t.rows| && k % 2 == 0 ==>
            IsAmountCells(t.rows[k].cells, rows, selected[k / 2], t.months))
      && (forall k :: 0 <= k < |t.rows| && k % 2 == 1 ==>
            IsDiffCells(t.rows[k].cells, t.rows[k - 1].cells, rows, selected[k / 2], t.months))
  {
    if selected == [] {
      return Failure(NoCustomerSelected);
    }
    var window := Window(rows, selected);
    if window.None? {
      return Failure(NoRevenueData);
    }
    var table := BuildRows(rows, selected, window.value);
    res := Success(PivotTable(window.value, table));
  }

  /** A selected customer without any row gets an all-blank Amount row and Diff row. */
  lemma AbsentCustomerIsBlank(amounts: seq<Option<real>>, diffs: seq<Option<real>>,
                              rows: seq<Row>, c: string, months: seq<Period>)
    requires IsAmountCells(amounts, rows, c, months) && IsDiffCells(diffs, amounts, rows, c, months)
    requires forall row :: row in rows ==> row.customer != Some(c)
    ensures forall j :: 0 <= j < |months| ==> amounts[j].None? && diffs[j].None?
  {
    forall j | 0 <= j < |months| ensures amounts[j].None? && diffs[j].None? {
      assert !HasCell(rows, c, months[j]);
    }
  }

  datatype Sign = Plus | Minus | NoSign

  /** How a non-blank cell is drawn: colour, sign prefix and weight. */
  datatype CellStyle = CellStyle(color: Color, sign: Sign, bold: bool)

  /**
   * Amount cells are plain black; Diff cells are bold, green with "+" when
   * positive, red with "-" when negative, black without sign when zero.
   */
  function StyleOf(kind: RowKind, v: real): (s: CellStyle)
    ensures kind == AmountRow ==> s == CellStyle(Black, NoSign, false)
    ensures kind == DiffRow ==> s.bold
    ensures kind == DiffRow ==> (s.color == Green <==> v > 0.0) && (s.sign == Plus <==> v > 0.0)
    ensures kind == DiffRow ==> (s.color == Red <==> v < 0.0) && (s.sign == Minus <==> v < 0.0)
  {
    if kind == DiffRow then
      CellStyle(if v > 0.0 then Green else if v < 0.0 then Red else Black,
                if v > 0.0 then Plus else if v < 0.0 then Minus else NoSign,
                true)
    else CellStyle(Black, NoSign, false)
  }

  /** The whole thousands shown: the absolute value with its fraction cut off. */
  function Magnitude(v: real): (m: int)
    ensures 0 <= m
    ensures m as real <= (if v < 0.0 then -v else v) < m as real + 1.0
  {
    (if v < 0.0 then -v else v).Floor
  }

  /** A Diff cell is green exactly when the month's sum rose, red exactly when it fell. */
  lemma DiffColourFollowsTrend(cells: seq<Option<real>>, amounts: seq<Option<real>>,
                               rows: seq<Row>, c: string, months: seq<Period>, j: nat)
    requires IsDiffCells(cells, amounts, rows, c, months) && j < |months| && cells[j].Some?
    ensures j > 0
    ensures StyleOf(DiffRow, cells[j].value).color == Green <==> Total(rows, c, months[j]) > Total(rows, c, months[j - 1])
    ensures StyleOf(DiffRow, cells[j].value).color == Red <==> Total(rows, c, months[j]) < Total(rows, c, months[j - 1])
  {
  }
}
