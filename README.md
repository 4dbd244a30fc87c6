# Monthly customer revenue dashboard: the aggregation and comparison engine

This project models the logic inside `render_chart_page` of the Streamlit revenue
dashboard. It takes a table of `(Site, Customer, Year, Month, Amount)` rows and computes:

- **normalisation**: each Amount is coerced to a number, and unparseable values become 0. Year and Month become a month-granular period, or null when they do not form one.
- **the site list**: sorted, each site once, with empty and whitespace-only sites left out. The rows are partitioned by site.
- **the comparison panel**: the latest month, the prior month, and the top seven customers by latest-month revenue. Each of them gets a card with its current and previous sums, the difference, the percentage change, an arrow and colour, and a star/alert rating. Blank cards pad the list to seven.
- **the rolling 24-month table**: for each selected customer, an Amount row (thousands) and a Diff row (month-over-month change, thousands). The columns are the months with revenue from 23 months before the latest one up to it. Diff cells are coloured by their sign.

Files and modules:

- `wrappers.dfy` (`Wrappers`): Option and Result.
- `periods.dfy` (`Periods`): a period is the month index `year * 12 + month - 1`, so a first-of-month timestamp becomes an integer.
- `records.dfy` (`Records`): raw and normalised rows and the user notices.
- `sites.dfy` (`Sites`): string order, the site list and the site partition.
- `ranking.dfy` (`Ranking`): latest and prior month, per-customer sums, the top-seven ranking.
- `rating.dfy` (`Rating`): the percentage change and the rating ladder.
- `comparison.dfy` (`Comparison`): the cards and the comparison panel.
- `pivot.dfy` (`Pivot`): the month window, the Amount/Diff rows and the cell styles.

The loops of the source stay loops here: the card loop with its padding loop, and the per-customer loops that build the Amount and Diff cells with a running `prev`. They are methods proved against specification predicates. The group-bys, sorts and maxima are functions.

Three behaviours of the code the model follows as written:

- A non-numeric or missing Year/Month does not degrade to a null period. `astype(float).astype(int)` raises on it. The model takes Year and Month as the integers that conversion yields. Only the `"%Y-%m"` parse can fail: a month outside 1..12, or a month whose first day lies outside the nanosecond timestamp range (October 1677 to April 2262).
- Ties in the top-seven ranking are not broken in input order. `sort_values` uses an unstable sort, so the model asserts nothing about the order of customers with equal sums.
- The guard "no recent periods to show" (chart_page.py:243-245) can never fire. `Pivot.Window` proves that the column list is non-empty whenever the selection has revenue, so `Pivot.PivotPanel` has no such branch. The guard "No data for selected site" (chart_page.py:75-77) cannot fire either: the selected site is forced into the site list (chart_page.py:66-71), and every listed site comes from a row. `Comparison.ComparisonPanel` keeps that branch because it takes the site as a free parameter.

## Model

| member | source | states |
|---|---|---|
| `Periods.MakePeriod` | chart_page.py:50-52 | the period exists iff the month is 1..12 and its first day is a representable timestamp; it then gives back that year and month |
| `Periods.PeriodOfItsParts` | chart_page.py:50-52 | every representable period is the period of its own year and month (round trip) |
| `Periods.SamePeriodIffSameMonth` | chart_page.py:50-52 | two (year, month) pairs give the same period iff they are the same pair |
| `Periods.PeriodOrderIsCalendarOrder` | chart_page.py:50-52 | period order is lexicographic (year, month) order |
| `Periods.MonthsBefore` | chart_page.py:88 | shifting back by a positive number of calendar months gives an earlier period |
| `Periods.OneMonthBefore` | chart_page.py:88 | one month back stays in the same year and lowers the month, except that January steps to December of the year before |
| `Periods.JanuaryStepsBackToDecember` | chart_page.py:88 | January 2024 minus one month is December 2023 |
| `Records.Normalize` | chart_page.py:47-52 | an unparseable amount becomes 0 and a parsed one is kept; the period is null exactly for an invalid month; site and customer are unchanged |
| `Records.NormalizeAll` | chart_page.py:47-52 | normalisation keeps the table's length and row order |
| `Records.SameMonthSamePeriod` | chart_page.py:50-52 | rows with the same year and month get the same period |
| `Sites.LexIrreflexive` | chart_page.py:56 | no string sorts before itself |
| `Sites.LexTransitive` | chart_page.py:56 | string order is transitive |
| `Sites.LexTotal` | chart_page.py:56 | of two different strings, one sorts first |
| `Sites.InsertSorted` | chart_page.py:56 | inserting into a strictly sorted list keeps it strictly sorted and adds exactly that element |
| `Sites.SiteList` | chart_page.py:56 | the site list is strictly sorted and holds exactly the non-null, non-blank sites of the data |
| `Sites.SiteListDistinct` | chart_page.py:56 | no site is listed twice |
| `Sites.ListSites` | chart_page.py:56-59 | the "no sites" notice is given iff no row has a non-blank site; otherwise the non-empty sorted list |
| `Sites.SiteRows` | chart_page.py:74 | the site's rows are every row whose site equals it, each as often as in the input, and nothing else |
| `Sites.SiteRowsMembership` | chart_page.py:74 | a row is in the partition iff it is in the data with that site |
| `Ranking.MaxPeriodBelow` | chart_page.py:82-87 | the result is the greatest period below the bound found in the rows, or none when no row has a period below it |
| `Ranking.LatestPeriod` | chart_page.py:82-85 | the latest month is a period of the rows and no row is later; none iff no row has a valid period |
| `Ranking.PriorPeriod` | chart_page.py:87-88 | the prior month is before the latest, and is the greatest earlier period in the data; with no earlier period it is exactly one calendar month before |
| `Ranking.AbsentTotalIsZero` | chart_page.py:117-118 | a customer without a row in a month has a summed Amount of 0 there |
| `Ranking.CustomersIn` | chart_page.py:91-92 | the month's group-by keys: each customer with a row in that month, once |
| `Ranking.InsertDesc` | chart_page.py:93 | inserting into a list sorted by descending key keeps it sorted, adds exactly that element and keeps it duplicate-free |
| `Ranking.SortDesc` | chart_page.py:93 | the sorted list is a duplicate-free permutation of the input, by descending key |
| `Ranking.TopCustomers` | chart_page.py:91-94 | at most 7, distinct customers, all with revenue in the latest month, ordered by latest-month sum (non-increasing); all of them when there are at most 7; no customer left out has a larger sum than any kept |
| `Rating.Pct` | chart_page.py:98 | the percentage is 0 when the previous value is 0; otherwise pct × previous = (current − previous) × 100 |
| `Rating.StarRating` | chart_page.py:96-113 | for a positive current value, each star/alert tier corresponds exactly to its percentage band (> 50 → 4 stars, so exactly 50 is 3 stars); for current ≤ 0, only alerts, banded by value alone, and everything below −100000 is 4 alerts |
| `Rating.PctMonotone` | chart_page.py:98 | against a positive previous month, the percentage grows with the current value |
| `Rating.RatingMonotone` | chart_page.py:97-107 | for a fixed positive previous month, raising a positive current value never lowers the rating tier |
| `Rating.PositiveOverNegativeBaseIsAlert` | chart_page.py:98-107 | a positive month against a negative previous month always rates as an alert |
| `Rating.NewCustomerIsOneStar` | chart_page.py:98-103 | with no previous revenue, any positive current value gets one star |
| `Rating.FiftyPercentIsThreeStars` | chart_page.py:98-101 | 1000 then 1500 is +50% and three stars |
| `Comparison.CardFor` | chart_page.py:116-135 | a card has the customer's latest-month and prior-month sums, their difference, percentage and rating; the arrow is up and green iff current > previous strictly, so equal values are down and red |
| `Comparison.BuildCards` | chart_page.py:115-150 | there are seven cards when there are at most seven customers; the first ones are the customers' cards in ranking order and the rest are blank |
| `Comparison.ComparisonPanel` | chart_page.py:74-150 | "no data for site" iff the site has no rows; "no valid periods" iff none of its rows has a period; otherwise the latest and prior month and exactly seven cards, the top customers' first and the rest blank |
| `Comparison.FallbackPriorShowsZero` | chart_page.py:87-88 | with no month before the latest, the prior month is the calendar month before it, and every card shows previous 0 and 0% |
| `Comparison.NewCustomerCard` | chart_page.py:117-121 | a customer with no row in the prior month shows previous 0, diff equal to current, 0% and, when current is positive, one star |
| `Comparison.CardsRanked` | chart_page.py:91-150 | in the cards built for the top customers, filled cards come first, belong to distinct customers with latest-month revenue and are ordered by current sum, largest first |
| `Pivot.SelectedRows` | chart_page.py:227 | every row of a selected customer, each as often as in the input, and no other row |
| `Pivot.PeriodsBetween` | chart_page.py:238-241 | exactly the months in the range that have rows, strictly ascending, no more than the range's length |
| `Pivot.PeriodsBetweenFull` | chart_page.py:238-241 | when every month in the range has a row, every one is a column |
| `Pivot.Window` | chart_page.py:227-245 | none iff the selected customers have no revenue; otherwise 1 to 24 strictly ascending columns. The last column is the latest month of the selected customers' rows, and the columns are exactly the months with revenue from 23 months before it |
| `Pivot.FullHistoryFillsWindow` | chart_page.py:236-241 | with revenue in each of the last 24 months (for example 30 months of history), the table has exactly 24 columns |
| `Pivot.CustomerRows` | chart_page.py:252-284 | an Amount cell is blank iff the customer has no row in that month, otherwise the sum / 1000. A Diff cell is blank in the first column or next to a blank amount, otherwise (sum − previous sum) / 1000, the difference of the two amount cells |
| `Pivot.BuildRows` | chart_page.py:250-287 | two rows per selected customer, in selection order, the Amount row immediately followed by the Diff row, with the cells above |
| `Pivot.PivotPanel` | chart_page.py:194-287 | "select at least one customer" iff the selection is empty; "no revenue data" iff it has no revenue; otherwise the window's columns and the Amount/Diff rows of every selected customer |
| `Pivot.AbsentCustomerIsBlank` | chart_page.py:252-259 | a selected customer without any row gets an all-blank Amount row and Diff row |
| `Pivot.StyleOf` | chart_page.py:316-324 | Amount cells are plain black; Diff cells are bold, green with "+" iff positive, red with "-" iff negative, black without sign at zero |
| `Pivot.Magnitude` | chart_page.py:316 | the displayed number is the absolute value with its fraction cut off |
| `Pivot.DiffColourFollowsTrend` | chart_page.py:273-276 | a Diff cell is green iff the month's sum rose, red iff it fell |

## Left out

- Streamlit presentation and session plumbing: CSS, sidebar buttons, the session state, the data-signature reset of the selected site, the multiselect widget, and the card and HTML table markup (chart_page.py:9-45, 61-73, 152-198, 291-331). The selected site and customers are parameters here.
- The plotly line and bar charts (chart_page.py:199-222) and the per-year group-by that feeds the bar chart. These are calls into a charting library.
- String formatting: `strftime` month labels, thousands separators and `"{:.2f}"`. Cards keep the periods and the signed numbers. The card text shows `abs(diff)` and `abs(pct)`.
- Floating point: amounts are integers and percentages and thousands are exact reals. Float rounding near a rating threshold is not modelled.
- Timestamp overflow on subtraction: `latest - 1 month` and `max - 23 months` raise in pandas below October 1677. The model subtracts month indices.
- Data loading (load_sample_data.py) and page setup (app.py): spreadsheet reading, caching and session initialisation are not part of this model.
- `Ranking.TopCustomers`: the order among customers with equal sums is not stated, because the source's sort is unstable.
