/** The certificate record as the dashboards see it, and the pieces of the two
    dashboards' filtering that are the same in both: the date-range test, the
    year/month test, the set of years and months present, and the descending
    order of the year and month drop-down options. */
module Certificates {
  import opened Seqs
  import opened Text

  /** A calendar month, 1 to 12. */
  type Month = m: int | 1 <= m <= 12 witness 1

  /** A parsed certificate date: a millisecond timestamp with the year and month
      it falls in. */
  datatype CertDate = CertDate(stamp: int, year: nat, month: Month)

  /** A "YYYY-MM" month value. */
  datatype YearMonth = YearMonth(year: nat, month: Month)

  /** A certificate as listed on a dashboard. `date` is None when the field is
      missing or does not parse as a date. */
  datatype Certificate = Certificate(
    id: string,
    eventName: Option<string>,
    description: Option<string>,
    eventType: Option<string>,
    rollno: Option<string>,
    date: Option<CertDate>)

  /** A drop-down selection: "All", or one value. */
  datatype Choice<T> = All | Only(value: T)

  const MsPerDay := 86_400_000

  /** The last millisecond (23:59:59.999) of the day that starts at `dayStart`. */
  function EndOfDay(dayStart: int): (r: int)
    ensures dayStart < r && r - dayStart == MsPerDay - 1
  {
    dayStart + MsPerDay - 1
  }

  /** The date-range test: a certificate needs a date, at or after `from` when it
      is set, and no later than the end of the day `to` when it is set. */
  predicate InRange(d: Option<CertDate>, from: Option<int>, to: Option<int>) {
    d.Some? &&
    (from.Some? ==> from.value <= d.value.stamp) &&
    (to.Some? ==> d.value.stamp <= EndOfDay(to.value))
  }

  /** The "YYYY-MM" value of a date, when there is one. */
  function MonthOf(d: Option<CertDate>): Option<YearMonth> {
    if d.Some? then Some(YearMonth(d.value.year, d.value.month)) else None
  }

  /** The year/month test used when no date range is set. A certificate without a
      date fails any specific year or month. */
  predicate YearMonthMatches(d: Option<CertDate>, year: Choice<nat>, month: Choice<YearMonth>) {
    (year.All? || (d.Some? && d.value.year == year.value)) &&
    (month.All? || MonthOf(d) == Some(month.value))
  }

  /** Whether the month drop-down shows a month under the chosen year. */
  predicate YearSelected(year: Choice<nat>, ym: YearMonth) {
    year.All? || ym.year == year.value
  }

  /** The set of years found among the certificates' dates. */
  function YearsOf(certs: seq<Certificate>): set<nat> {
    set i | 0 <= i < |certs| && certs[i].date.Some? :: certs[i].date.value.year
  }

  /** The set of months found among the certificates' dates. */
  function MonthsOf(certs: seq<Certificate>): set<YearMonth> {
    set i | 0 <= i < |certs| && certs[i].date.Some? :: MonthOf(certs[i].date).value
  }

  lemma YearsOfSnoc(certs: seq<Certificate>, c: Certificate)
    ensures YearsOf(certs + [c]) == YearsOf(certs) + (if c.date.Some? then {c.date.value.year} else {})
  {
    var s := certs + [c];
    assert forall i :: 0 <= i < |certs| ==> s[i] == certs[i];
    assert s[|certs|] == c;
  }

  lemma MonthsOfSnoc(certs: seq<Certificate>, c: Certificate)
    ensures MonthsOf(certs + [c]) == MonthsOf(certs) + (if c.date.Some? then {MonthOf(c.date).value} else {})
  {
    var s := certs + [c];
    assert forall i :: 0 <= i < |certs| ==> s[i] == certs[i];
    assert s[|certs|] == c;
  }

  /** The numeric form YYYYMM of a month. */
  function Rank(ym: YearMonth): int {
    ym.year * 100 + ym.month
  }

  /** Comparing ranks is comparing "YYYY-MM": by year, then by month. */
  lemma RankOrdersLikeYearThenMonth(a: YearMonth, b: YearMonth)
    ensures Rank(a) < Rank(b) <==> a.year < b.year || (a.year == b.year && a.month < b.month)
    ensures Rank(a) == Rank(b) <==> a == b
  {
    if a.year < b.year {
      assert Rank(a) <= a.year * 100 + 12 < (a.year + 1) * 100 + 1 <= Rank(b);
    } else if b.year < a.year {
      assert Rank(b) <= b.year * 100 + 12 < (b.year + 1) * 100 + 1 <= Rank(a);
    }
  }

  /** `rank` tells the elements of `s` apart. */
  ghost predicate Injective<T(!new)>(s: set<T>, rank: T -> int) {
    forall x, y :: x in s && y in s && rank(x) == rank(y) ==> x == y
  }

  /** Strictly decreasing by `rank`: sorted descending, without repeats. */
  ghost predicate StrictlyDescending<T>(r: seq<T>, rank: T -> int) {
    forall i, j :: 0 <= i < j < |r| ==> rank(r[i]) > rank(r[j])
  }

  /** The element of a non-empty set with the greatest rank. */
  method MaxByRank<T(==,!new)>(s: set<T>, rank: T -> int) returns (m: T)
    requires s != {}
    requires Injective(s, rank)
    ensures m in s
    ensures forall x :: x in s && x != m ==> rank(x) < rank(m)
  {
    var x :| x in s;
    m := x;
    var rest := s - {x};
    while rest != {}
      invariant rest <= s && m in s && m !in rest
      invariant forall y :: y in s && y !in rest ==> rank(y) <= rank(m)
      decreases |rest|
    {
      var y :| y in rest;
      if rank(y) > rank(m) {
        m := y;
      }
      rest := rest - {y};
    }
  }

  /** `Array.from(set).sort(descending)`: every element of the set once, greatest rank first. */
  method SortDescending<T(==,!new)>(s: set<T>, rank: T -> int) returns (r: seq<T>)
    requires Injective(s, rank)
    ensures forall x :: x in r <==> x in s
    ensures StrictlyDescending(r, rank)
  {
    var rest := s;
    r := [];
    while rest != {}
      invariant rest <= s
      invariant forall x :: x in r <==> x in s && x !in rest
      invariant StrictlyDescending(r, rank)
      invariant forall i, x :: 0 <= i < |r| && x in rest ==> rank(x) < rank(r[i])
      decreases |rest|
    {
      var m := MaxByRank(rest, rank);
      r := r + [m];
      rest := rest - {m};
    }
  }

  /** A year's identity is its own rank. */
  function YearRank(y: nat): int {
    y
  }

  const MonthNames := ["Jan", "Feb", "Mar", "Apr", "May", "Jun",
                       "Jul", "Aug", "Sep", "Oct", "Nov", "Dec"]

  /** The three-letter name of a month. */
  function MonthName(m: Month): string {
    MonthNames[m - 1]
  }

  /** The number a string of decimal digits denotes, most significant digit first. */
  function DigitsValue(s: string): int {
    if s == [] then 0
    else DigitsValue(s[..|s| - 1]) * 10 + (s[|s| - 1] as int - '0' as int)
  }

  /** The decimal text of a number, as `toString()` writes it: digits denoting `n`,
      with no leading zero. */
  function DecimalText(n: nat): (r: string)
    ensures |r| > 0
    ensures forall i :: 0 <= i < |r| ==> '0' <= r[i] <= '9'
    ensures DigitsValue(r) == n
    ensures |r| > 1 ==> r[0] != '0'
  {
    if n < 10 then [('0' as int + n) as char]
    else DecimalText(n / 10) + [('0' as int + n % 10) as char]
  }

  /** A month drop-down option: its "YYYY-MM" value and its display text. */
  datatype MonthOption = MonthOption(value: YearMonth, text: string)

  /** Month options strictly decreasing by their "YYYY-MM" value. */
  ghost predicate MonthsDescending(months: seq<MonthOption>) {
    forall i, j :: 0 <= i < j < |months| ==> Rank(months[i].value) > Rank(months[j].value)
  }

  /** Distinct months have distinct ranks. */
  lemma RankInjective(s: set<YearMonth>)
    ensures Injective(s, Rank)
  {
    forall x, y | x in s && y in s && Rank(x) == Rank(y) ensures x == y {
      RankOrdersLikeYearThenMonth(x, y);
    }
  }

  /** The year drop-down: every year present among all certificates once, newest first. */
  method YearOptions(yearSet: set<nat>) returns (years: seq<nat>)
    ensures forall y :: y in years <==> y in yearSet
    ensures StrictlyDescending(years, YearRank)
  {
    years := SortDescending(yearSet, YearRank);
  }

  /** The month drop-down: the months present, newest first, limited to the chosen
      year, each shown with the text `caption` gives it. Keeping only the chosen
      year's months before sorting gives the same list as sorting first. */
  method MonthOptions(monthSet: set<YearMonth>, year: Choice<nat>, caption: YearMonth -> string)
    returns (months: seq<MonthOption>)
    ensures forall o :: o in months <==>
      o.value in monthSet && YearSelected(year, o.value) && o.text == caption(o.value)
    ensures MonthsDescending(months)
  {
    var shown := set m | m in monthSet && YearSelected(year, m);
    RankInjective(shown);
    var keys := SortDescending(shown, Rank);
    months := seq(|keys|, k requires 0 <= k < |keys| => MonthOption(keys[k], caption(keys[k])));
    forall o: MonthOption | o.value in monthSet && YearSelected(year, o.value) && o.text == caption(o.value)
      ensures o in months
    {
      assert o.value in shown && o.value in keys;
      var k :| 0 <= k < |keys| && keys[k] == o.value;
      assert months[k] == o;
    }
    forall o | o in months
      ensures o.value in shown && o.text == caption(o.value)
    {
      var k :| 0 <= k < |months| && months[k] == o;
      assert keys[k] in keys;
    }
  }

  // ---------------------------------------------------------------------------
  // The filter controls and the tests both dashboards apply in the same way
  // ---------------------------------------------------------------------------

  /** The filter controls. A date bound is None while its field is empty; `dateTo`
      is the first millisecond of the chosen day. */
  datatype Filters = Filters(
    search: string,
    eventType: Choice<string>,
    year: Choice<nat>,
    month: Choice<YearMonth>,
    dateFrom: Option<int>,
    dateTo: Option<int>)

  /** `(field?.toLowerCase() || "")`: a missing field searches as "". */
  function LowerOrEmpty(s: Option<string>): string {
    Lower(s.GetOr(""))
  }

  /** The type drop-down: "All" or exactly the certificate's type. */
  predicate MatchesType(c: Certificate, t: Choice<string>) {
    t.All? || c.eventType == Some(t.value)
  }

  /** Either date-range field is filled in. */
  predicate RangeActive(f: Filters) {
    f.dateFrom.Some? || f.dateTo.Some?
  }

  /** The date test: the range when one is set, otherwise the year and month. */
  predicate DatePasses(f: Filters, c: Certificate) {
    if RangeActive(f) then InRange(c.date, f.dateFrom, f.dateTo)
    else YearMonthMatches(c.date, f.year, f.month)
  }

  /** While a date range is set, the year and month selections are ignored and a
      certificate without a date is never listed. */
  lemma RangeOverridesYearMonth(f: Filters, c: Certificate, year: Choice<nat>, month: Choice<YearMonth>)
    requires RangeActive(f)
    ensures DatePasses(f, c) == DatePasses(f.(year := year, month := month), c)
    ensures c.date.None? ==> !DatePasses(f, c)
  {
  }

  /** The "to" bound includes its whole day, through 23:59:59.999, and nothing after it;
      the "from" bound is inclusive, and nothing before it passes. */
  lemma RangeBoundsInclusive(f: Filters, c: Certificate)
    requires c.date.Some?
    requires f.dateFrom.Some? && f.dateTo.Some?
    ensures c.date.value.stamp == f.dateFrom.value && f.dateFrom.value <= f.dateTo.value ==> DatePasses(f, c)
    ensures f.dateFrom.value <= f.dateTo.value <= c.date.value.stamp < f.dateTo.value + MsPerDay ==> DatePasses(f, c)
    ensures c.date.value.stamp >= f.dateTo.value + MsPerDay ==> !DatePasses(f, c)
    ensures c.date.value.stamp < f.dateFrom.value ==> !DatePasses(f, c)
    ensures DatePasses(f, c) <==> f.dateFrom.value <= c.date.value.stamp < f.dateTo.value + MsPerDay
  {
  }

  /** Without a date range, a certificate passes the date test exactly when it
      matches the chosen year (or "All") and the chosen month (or "All"). */
  lemma YearMonthWhenNoRange(f: Filters, c: Certificate)
    requires !RangeActive(f)
    ensures DatePasses(f, c) <==>
      (f.year.All? || (c.date.Some? && c.date.value.year == f.year.value)) &&
      (f.month.All? || (c.date.Some? && c.date.value.year == f.month.value.year &&
                        c.date.value.month == f.month.value.month))
  {
  }

}
