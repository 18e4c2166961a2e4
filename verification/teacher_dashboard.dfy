/** The teacher dashboard: the filter over every student's certificates (searched
    by roll number or event name), its year and month drop-downs, and the counts
    shown on its summary cards. */
module TeacherDashboard {
  import opened Seqs
  import opened Text
  import opened Certificates

  /** The search box matches the roll number or the event name, ignoring case;
      the description is not searched. */
  predicate MatchesSearch(c: Certificate, query: string) {
    Contains(LowerOrEmpty(c.rollno), Lower(query)) ||
    Contains(LowerOrEmpty(c.eventName), Lower(query))
  }

  /** A certificate is listed when all four flags hold. */
  predicate Passes(f: Filters, c: Certificate) {
    MatchesSearch(c, f.search) && MatchesType(c, f.eventType) && DatePasses(f, c)
  }

  function PassesFn(f: Filters): Certificate -> bool {
    c => Passes(f, c)
  }

  /** The certificates the table shows, in their original order. */
  function Visible(certs: seq<Certificate>, f: Filters): seq<Certificate> {
    Filter(certs, PassesFn(f))
  }

  /** The month option text, "YYYY Mon". */
  function MonthText(ym: YearMonth): string {
    DecimalText(ym.year) + " " + MonthName(ym.month)
  }

  /** The `matchesDateFilter` and `matchesDateRangeFilter` flags, computed step by
      step as the dashboard does: the year/month flag applies only while both range
      fields are empty, the range flag only while one of them is filled in. */
  method DateFlags(c: Certificate, f: Filters) returns (matchesDateFilter: bool, matchesDateRangeFilter: bool)
    ensures !RangeActive(f) ==> matchesDateRangeFilter && (matchesDateFilter <==> YearMonthMatches(c.date, f.year, f.month))
    ensures RangeActive(f) ==> matchesDateFilter && (matchesDateRangeFilter <==> InRange(c.date, f.dateFrom, f.dateTo))
  {
    matchesDateFilter := true;
    matchesDateRangeFilter := true;
    if f.dateFrom.None? && f.dateTo.None? {
      var certYear: Option<nat> := if c.date.Some? then Some(c.date.value.year) else None;
      var matchesYear := f.year.All? || certYear == Some(f.year.value);
      var matchesMonth := f.month.All?;
      if !f.month.All? {
        matchesMonth := MonthOf(c.date) == Some(f.month.value);
      }
      matchesDateFilter := matchesYear && matchesMonth;
    } else {
      if c.date.Some? {
        if f.dateFrom.Some? {
          matchesDateRangeFilter := matchesDateRangeFilter && c.date.value.stamp >= f.dateFrom.value;
        }
        if f.dateTo.Some? {
          var dateToInclusive := EndOfDay(f.dateTo.value);
          matchesDateRangeFilter := matchesDateRangeFilter && c.date.value.stamp <= dateToInclusive;
        }
      } else {
        matchesDateRangeFilter := false;
      }
      matchesDateFilter := true;
    }
  }

  /** One pass over all certificates: the filtered list, and the year and month
      drop-downs built from every certificate, whether or not it is listed. */
  method ComputeView(certs: seq<Certificate>, f: Filters)
    returns (filtered: seq<Certificate>, years: seq<nat>, months: seq<MonthOption>)
    ensures filtered == Visible(certs, f)
    ensures forall y :: y in years <==> y in YearsOf(certs)
    ensures StrictlyDescending(years, YearRank)
    ensures forall o :: o in months <==>
      o.value in MonthsOf(certs) && YearSelected(f.year, o.value) && o.text == MonthText(o.value)
    ensures MonthsDescending(months)
  {
    var yearSet: set<nat> := {};
    var monthSet: set<YearMonth> := {};
    var searchLower := Lower(f.search);
    filtered := [];
    var i := 0;
    while i < |certs|
      invariant 0 <= i <= |certs|
      invariant filtered == Visible(certs[..i], f)
      invariant yearSet == YearsOf(certs[..i])
      invariant monthSet == MonthsOf(certs[..i])
    {
      var c := certs[i];
      if c.date.Some? {
        yearSet := yearSet + {c.date.value.year};
        monthSet := monthSet + {YearMonth(c.date.value.year, c.date.value.month)};
      }
      var matchesSearch := Contains(LowerOrEmpty(c.rollno), searchLower) ||
                           Contains(LowerOrEmpty(c.eventName), searchLower);
      var matchesFilter := f.eventType.All? || c.eventType == Some(f.eventType.value);
      var matchesDateFilter, matchesDateRangeFilter := DateFlags(c, f);
      if matchesSearch && matchesFilter && matchesDateFilter && matchesDateRangeFilter {
        filtered := filtered + [c];
      }
      assert certs[..i + 1] == certs[..i] + [c];
      FilterSnoc(certs[..i], c, PassesFn(f));
      YearsOfSnoc(certs[..i], c);
      MonthsOfSnoc(certs[..i], c);
      i := i + 1;
    }
    assert certs[..i] == certs;
    years := YearOptions(yearSet);
    months := MonthOptions(monthSet, f.year, MonthText);
  }

  /** The listed certificates are exactly those that pass, in their original order,
      each as many times as it occurs in the input. */
  lemma {:induction false} VisibleIsOrderedSelection(certs: seq<Certificate>, f: Filters)
    ensures IsSubsequence(Visible(certs, f), certs)
    ensures forall c :: c in Visible(certs, f) <==> c in certs && Passes(f, c)
    ensures forall c :: multiset(Visible(certs, f))[c] == if Passes(f, c) then multiset(certs)[c] else 0
  {
    FilterIsSubsequence(certs, PassesFn(f));
  }

  /** The description plays no part in the search: replacing it never changes
      whether a certificate matches, and a certificate whose only match is in its
      description is not found. */
  lemma DescriptionNotSearched(c: Certificate, query: string, d: Option<string>)
    ensures MatchesSearch(c, query) == MatchesSearch(c.(description := d), query)
    ensures (!Contains(LowerOrEmpty(c.rollno), Lower(query)) &&
             !Contains(LowerOrEmpty(c.eventName), Lower(query))) ==> !MatchesSearch(c, query)
  {
  }

  // ---------------------------------------------------------------------------
  // Summary cards
  // ---------------------------------------------------------------------------

  /** The distinct roll numbers among the certificates (a missing one counts once). */
  function RollnosOf(certs: seq<Certificate>): (r: set<Option<string>>)
    ensures forall x :: x in r <==> exists i :: 0 <= i < |certs| && certs[i].rollno == x
  {
    if certs == [] then {}
    else
      var rest := RollnosOf(certs[1..]);
      assert forall i :: 1 <= i < |certs| ==> certs[i] == certs[1..][i - 1];
      {certs[0].rollno} + rest
  }

  /** "Total Students": the number of distinct roll numbers. */
  function TotalStudents(certs: seq<Certificate>): nat {
    |RollnosOf(certs)|
  }

  /** There are never more students than certificates, and at least one student
      when there is any certificate. */
  lemma {:induction false} TotalStudentsBounds(certs: seq<Certificate>)
    ensures TotalStudents(certs) <= |certs|
    ensures |certs| > 0 ==> TotalStudents(certs) >= 1
  {
    if certs != [] {
      TotalStudentsBounds(certs[1..]);
      assert RollnosOf(certs) == {certs[0].rollno} + RollnosOf(certs[1..]);
    }
  }

  /** "Filtered Results" never exceeds "Total Certificates". */
  lemma FilteredAtMostTotal(certs: seq<Certificate>, f: Filters)
    ensures |Visible(certs, f)| <= |certs|
  {
  }
}
