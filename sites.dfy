/**
 * The site list shown in the sidebar and the partition of the rows by site.
 *
 * Sites are listed once each, in string order, leaving out empty cells and
 * names made only of whitespace.
 */
module Sites {
  import opened Wrappers
  import opened Records

  /** The characters a string's `strip()` removes (the whitespace code points). */
  predicate IsSpace(c: char) {
    var n := c as int;
    (9 <= n <= 13) || (28 <= n <= 32) || n == 0x85 || n == 0xA0 || n == 0x1680
    || (0x2000 <= n <= 0x200A) || n == 0x2028 || n == 0x2029 || n == 0x202F
    || n == 0x205F || n == 0x3000
  }

  /** True iff stripping `s` leaves the empty string. */
  predicate IsBlank(s: string) {
    forall i :: 0 <= i < |s| ==> IsSpace(s[i])
  }

  /** String order: code point by code point, a proper prefix first. */
  predicate LexLess(a: string, b: string) {
    if |a| == 0 then |b| > 0
    else if |b| == 0 then false
    else a[0] < b[0] || (a[0] == b[0] && LexLess(a[1..], b[1..]))
  }

  lemma {:induction false} LexIrreflexive(a: string)
    ensures !LexLess(a, a)
  {
    if |a| > 0 {
      LexIrreflexive(a[1..]);
    }
  }

  lemma {:induction false} LexTransitive(a: string, b: string, c: string)
    requires LexLess(a, b) && LexLess(b, c)
    ensures LexLess(a, c)
  {
    if |a| > 0 && a[0] == b[0] && b[0] == c[0] {
      LexTransitive(a[1..], b[1..], c[1..]);
    }
  }

  lemma {:induction false} LexTotal(a: string, b: string)
    requires a != b
    ensures LexLess(a, b) || LexLess(b, a)
  {
    if |a| > 0 && |b| > 0 && a[0] == b[0] {
      assert a == [a[0]] + a[1..] && b == [b[0]] + b[1..];
      LexTotal(a[1..], b[1..]);
    }
  }

  /** Each element is below every later one: sorted, and so without duplicates. */
  predicate StrictlySorted(s: seq<string>) {
    forall i, j :: 0 <= i < j < |s| ==> LexLess(s[i], s[j])
  }

  /** Add `x` to a strictly sorted list, at its place, unless it is there already. */
  function InsertSorted(x: string, s: seq<string>): (r: seq<string>)
    requires StrictlySorted(s)
    ensures StrictlySorted(r)
    ensures forall y :: y in r <==> y == x || y in s
  {
    if s == [] then [x]
    else if x == s[0] then s
    else if LexLess(x, s[0]) then
      assert forall j :: 0 < j < |s| ==> LexLess(x, s[j]) by {
        forall j | 0 < j < |s| ensures LexLess(x, s[j]) { LexTransitive(x, s[0], s[j]); }
      }
      [x] + s
    else
      LexTotal(x, s[0]);
      var rest := InsertSorted(x, s[1..]);
      assert forall y :: y in rest ==> LexLess(s[0], y);
      [s[0]] + rest
  }

  /** `s` is a site the sidebar lists: some row carries it and it is not blank. */
  predicate IsListedSite(rows: seq<Row>, s: string) {
    Some(s) in SitesOf(rows) && !IsBlank(s)
  }

  /** The Site column. */
  function SitesOf(rows: seq<Row>): (r: seq<Option<string>>)
    ensures |r| == |rows| && forall i :: 0 <= i < |rows| ==> r[i] == rows[i].site
  {
    seq(|rows|, i requires 0 <= i < |rows| => rows[i].site)
  }

  /**
   * The sorted distinct list of non-empty, non-blank sites.  It is strictly
   * sorted, so no site appears twice, and it holds exactly the listed sites.
   */
  function SiteList(rows: seq<Row>): (r: seq<string>)
    ensures StrictlySorted(r)
    ensures forall s :: s in r <==> IsListedSite(rows, s)
  {
    if rows == [] then []
    else
      var init := rows[..|rows| - 1];
      var rest := SiteList(init);
      var site := rows[|rows| - 1].site;
      assert SitesOf(rows) == SitesOf(init) + [site];
      if site.Some? && !IsBlank(site.value) then InsertSorted(site.value, rest) else rest
  }

  /** No site appears twice in the list. */
  lemma SiteListDistinct(rows: seq<Row>, i: nat, j: nat)
    requires i < j < |SiteList(rows)|
    ensures SiteList(rows)[i] != SiteList(rows)[j]
  {
    LexIrreflexive(SiteList(rows)[i]);
  }

  /** The sidebar list, or the NoSites notice when there is nothing to list. */
  function ListSites(rows: seq<Row>): (r: Result<seq<string>, Notice>)
    ensures r.Failure? <==> forall s :: !IsListedSite(rows, s)
    ensures r.Failure? ==> r.error == NoSites
    ensures r.Success? ==> r.value == SiteList(rows) && |r.value| > 0
  {
    var sites := SiteList(rows);
    if sites == [] then Failure(NoSites)
    else
      assert IsListedSite(rows, sites[0]);
      Success(sites)
  }

  /**
   * The rows of one site: each row whose Site equals
   * `site` exactly is kept as many times as it occurs, and no other row is.
   */
  function SiteRows(rows: seq<Row>, site: string): (r: seq<Row>)
    ensures forall row :: multiset(r)[row] == if row.site == Some(site) then multiset(rows)[row] else 0
  {
    if rows == [] then []
    else
      var init := rows[..|rows| - 1];
      var last := rows[|rows| - 1];
      assert rows == init + [last];
      if last.site == Some(site) then SiteRows(init, site) + [last] else SiteRows(init, site)
  }

  /** Every row of the partition belongs to the site, and every row of the site is in it. */
  lemma SiteRowsMembership(rows: seq<Row>, site: string, row: Row)
    ensures row in SiteRows(rows, site) <==> row in rows && row.site == Some(site)
  {
    assert row in SiteRows(rows, site) <==> multiset(SiteRows(rows, site))[row] > 0;
    assert row in rows <==> multiset(rows)[row] > 0;
  }
}
