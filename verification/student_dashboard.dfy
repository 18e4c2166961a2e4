/** The student dashboard: the filter over the student's own certificates, the
    year and month drop-downs, and the updates to the certificate and toast lists
    after a save, a delete, or a toast being shown or dismissed. */
module StudentDashboard {
  import opened Seqs
  import opened Text
  import opened Certificates

  /** The search box matches the event name or the description, ignoring case. */
  predicate MatchesSearch(c: Certificate, query: string) {
    Contains(LowerOrEmpty(c.eventName), Lower(query)) ||
    Contains(LowerOrEmpty(c.description), Lower(query))
  }

  /** A certificate is listed when it passes all three tests. */
  predicate Passes(f: Filters, c: Certificate) {
    MatchesSearch(c, f.search) && MatchesType(c, f.eventType) && DatePasses(f, c)
  }

  function PassesFn(f: Filters): Certificate -> bool {
    c => Passes(f, c)
  }

  /** The certificates the table shows, in their original order. */
  function Visible(certs: seq<Certificate>, f: Filters): seq<Certificate> {
    Filter(certs, PassesFn(f))
  }

  /** The month option text, "Mon YYYY". */
  function MonthText(ym: YearMonth): string {
    MonthName(ym.month) + " " + DecimalText(ym.year)
  }

  /** The `matchesDate` flag, computed step by step as the dashboard does. */
  method MatchesDate(c: Certificate, f: Filters) returns (matchesDate: bool)
    ensures matchesDate <==> DatePasses(f, c)
    ensures RangeActive(f) && c.date.None? ==> !matchesDate
  {
    matchesDate := true;
    if f.dateFrom.Some? || f.dateTo.Some? {
      matchesDate := true;
      if c.date.Some? {
        if f.dateFrom.Some? {
          matchesDate := matchesDate && c.date.value.stamp >= f.dateFrom.value;
        }
        if f.dateTo.Some? {
          var dateToInclusive := EndOfDay(f.dateTo.value);
          matchesDate := matchesDate && c.date.value.stamp <= dateToInclusive;
        }
      } else {
        matchesDate := false;
      }
    } else {
      var certYear: Option<nat> := if c.date.Some? then Some(c.date.value.year) else None;
      var matchesYear := f.year.All? || certYear == Some(f.year.value);
      var matchesMonth := f.month.All?;
      if !f.month.All? {
        matchesMonth := MonthOf(c.date) == Some(f.month.value);
      }
      matchesDate := matchesYear && matchesMonth;
    }
  }

  /** One pass over all certificates: the filtered list, and the year and month
      drop-downs built from every certificate, whether or not it is listed. */
  method ComputeView(certs: seq<Certificate>, f: Filters)
    returns (filtered: seq<Certificate>, years: seq<nat>, months: seq<MonthOption>)
    ensures filtered == Visible(certs, f)
    ensures forall y :: y in years <==> y in YearsOf(certs)
    ensures StrictlyDescending(years, YearRank)
    ensures forall o :: o in months <==>
      o.value in MonthsOf(certs) && YearSelected(f.year, o.value) && o.text == MonthText(o.value)
    ensures MonthsDescending(months)
  {
    var yearSet: set<nat> := {};
    var monthSet: set<YearMonth> := {};
    filtered := [];
    var i := 0;
    while i < |certs|
      invariant 0 <= i <= |certs|
      invariant filtered == Visible(certs[..i], f)
      invariant yearSet == YearsOf(certs[..i])
      invariant monthSet == MonthsOf(certs[..i])
    {
      var c := certs[i];
      if c.date.Some? {
        yearSet := yearSet + {c.date.value.year};
        monthSet := monthSet + {YearMonth(c.date.value.year, c.date.value.month)};
      }
      var matchesSearch := MatchesSearch(c, f.search);
      var matchesFilter := f.eventType.All? || c.eventType == Some(f.eventType.value);
      var matchesDate := MatchesDate(c, f);
      if matchesSearch && matchesFilter && matchesDate {
        filtered := filtered + [c];
      }
      assert certs[..i + 1] == certs[..i] + [c];
      FilterSnoc(certs[..i], c, PassesFn(f));
      YearsOfSnoc(certs[..i], c);
      MonthsOfSnoc(certs[..i], c);
      i := i + 1;
    }
    assert certs[..i] == certs;
    years := YearOptions(yearSet);
    months := MonthOptions(monthSet, f.year, MonthText);
  }

  /** The listed certificates are exactly those that pass, in their original order,
      each as many times as it occurs in the input. */
  lemma {:induction false} VisibleIsOrderedSelection(certs: seq<Certificate>, f: Filters)
    ensures IsSubsequence(Visible(certs, f), certs)
    ensures forall c :: c in Visible(certs, f) <==> c in certs && Passes(f, c)
    ensures forall c :: multiset(Visible(certs, f))[c] == if Passes(f, c) then multiset(certs)[c] else 0
    ensures |Visible(certs, f)| <= |certs|
  {
    FilterIsSubsequence(certs, PassesFn(f));
  }

  /** An empty search box lets every certificate through the search test. */
  lemma EmptySearchMatches(c: Certificate)
    ensures MatchesSearch(c, "")
  {
    ContainsEmpty(LowerOrEmpty(c.eventName));
  }

  /** With no other filter set, the table shows every certificate. */
  lemma {:induction false} NoFiltersShowsAll(certs: seq<Certificate>)
    ensures Visible(certs, Filters("", All, All, All, None, None)) == certs
  {
    var f := Filters("", All, All, All, None, None);
    forall i | 0 <= i < |certs| ensures PassesFn(f)(certs[i]) {
      EmptySearchMatches(certs[i]);
    }
    FilterAll(certs, PassesFn(f));
  }

  // ---------------------------------------------------------------------------
  // Certificate and toast lists
  // ---------------------------------------------------------------------------

  /** A notification: its id is the clock reading when it was shown. */
  datatype Toast = Toast(id: int, message: string, kind: string)

  /** Edit: every certificate with the edited id is replaced by the server's copy. */
  function ReplaceById(certs: seq<Certificate>, id: string, updated: Certificate): (r: seq<Certificate>)
    ensures |r| == |certs|
    ensures forall i :: 0 <= i < |certs| ==>
      r[i] == if certs[i].id == id then updated else certs[i]
  {
    if certs == [] then []
    else [if certs[0].id == id then updated else certs[0]] + ReplaceById(certs[1..], id, updated)
  }

  function IdIsNot(id: string): Certificate -> bool {
    (c: Certificate) => c.id != id
  }

  /** Delete: drop every certificate with the given id. */
  function RemoveById(certs: seq<Certificate>, id: string): seq<Certificate> {
    Filter(certs, IdIsNot(id))
  }

  function ToastIdIsNot(id: int): Toast -> bool {
    (t: Toast) => t.id != id
  }

  /** `removeToast`: drop every toast with the given id. */
  function RemoveToast(toasts: seq<Toast>, id: int): seq<Toast> {
    Filter(toasts, ToastIdIsNot(id))
  }

  /** `showToast`: append a toast stamped with the current time. */
  function ShowToast(toasts: seq<Toast>, now: int, message: string, kind: string): seq<Toast> {
    toasts + [Toast(now, message, kind)]
  }

  /** Deleting removes exactly the certificates with that id and keeps the rest in order. */
  lemma {:induction false} RemoveByIdKeepsOthers(certs: seq<Certificate>, id: string)
    ensures forall c :: c in RemoveById(certs, id) <==> c in certs && c.id != id
    ensures forall c :: multiset(RemoveById(certs, id))[c] == if c.id != id then multiset(certs)[c] else 0
    ensures IsSubsequence(RemoveById(certs, id), certs)
  {
    FilterIsSubsequence(certs, IdIsNot(id));
  }

  /** Dismissing a toast removes exactly the toasts with that id and keeps the rest in order. */
  lemma {:induction false} RemoveToastKeepsOthers(toasts: seq<Toast>, id: int)
    ensures forall t :: t in RemoveToast(toasts, id) <==> t in toasts && t.id != id
    ensures forall t :: multiset(RemoveToast(toasts, id))[t] == if t.id != id then multiset(toasts)[t] else 0
    ensures IsSubsequence(RemoveToast(toasts, id), toasts)
  {
    FilterIsSubsequence(toasts, ToastIdIsNot(id));
  }

  /** Showing a toast and then dismissing its id leaves the earlier toasts that
      have a different id, in order. */
  lemma {:induction false} ShowThenRemoveToast(toasts: seq<Toast>, now: int, message: string, kind: string)
    ensures RemoveToast(ShowToast(toasts, now, message, kind), now) == RemoveToast(toasts, now)
  {
    FilterSnoc(toasts, Toast(now, message, kind), ToastIdIsNot(now));
  }

  /** The dashboard state touched by saving and deleting. */
  datatype Dashboard = Dashboard(
    certificates: seq<Certificate>,
    toasts: seq<Toast>,
    modalOpen: bool,
    editing: Option<Certificate>)

  /** The error the upload form passes along instead of form data. */
  datatype FormError = FormError(message: string, kind: string)

  /** The server's answer to a save request: the saved certificate, or a failure. */
  datatype Reply = RequestFailed | Saved(cert: Certificate)

  /** `handleSave`: show a form error; or, after the server's reply, replace the
      edited certificate or append the new one and close the form. */
  function HandleSave(d: Dashboard, error: Option<FormError>, reply: Reply, now: int): Dashboard {
    if error.Some? then
      d.(toasts := ShowToast(d.toasts, now, error.value.message, error.value.kind))
    else if reply.RequestFailed? then
      d.(toasts := ShowToast(d.toasts, now, "Failed to save certificate", "error"))
    else if d.editing.Some? then
      d.(certificates := ReplaceById(d.certificates, d.editing.value.id, reply.cert),
         toasts := ShowToast(d.toasts, now, "Certificate updated successfully!", "success"),
         editing := None,
         modalOpen := false)
    else
      d.(certificates := d.certificates + [reply.cert],
         toasts := ShowToast(d.toasts, now, "Certificate added successfully!", "success"),
         modalOpen := false)
  }

  /** `handleDelete`: on success drop the certificate; either way show a toast. */
  function HandleDelete(d: Dashboard, id: string, succeeded: bool, now: int): Dashboard {
    if succeeded then
      d.(certificates := RemoveById(d.certificates, id),
         toasts := ShowToast(d.toasts, now, "Certificate deleted successfully!", "success"))
    else
      d.(toasts := ShowToast(d.toasts, now, "Failed to delete certificate", "error"))
  }

  /** A saved edit keeps the list's length and order and changes only the entries
      whose id is the edited one. */
  lemma SavedEditReplacesInPlace(d: Dashboard, reply: Reply, now: int)
    requires d.editing.Some? && reply.Saved?
    ensures var r := HandleSave(d, None, reply, now);
      |r.certificates| == |d.certificates| &&
      (forall i :: 0 <= i < |d.certificates| && d.certificates[i].id != d.editing.value.id ==>
        r.certificates[i] == d.certificates[i]) &&
      (forall i :: 0 <= i < |d.certificates| && d.certificates[i].id == d.editing.value.id ==>
        r.certificates[i] == reply.cert) &&
      r.editing.None? && !r.modalOpen
  {
  }

  /** A saved addition appends exactly one certificate at the end. */
  lemma SavedAddAppends(d: Dashboard, reply: Reply, now: int)
    requires d.editing.None? && reply.Saved?
    ensures var r := HandleSave(d, None, reply, now);
      |r.certificates| == |d.certificates| + 1 &&
      r.certificates[..|d.certificates|] == d.certificates &&
      r.certificates[|d.certificates|] == reply.cert && !r.modalOpen
  {
  }

  /** `handleSave` by itself: a form error or a failed request only adds a toast;
      the list, the modal flag and the certificate being edited stay as they were.
      (A failed request from a submitted form also had the modal closed by the
      form: see `SubmitAndClose`.) */
  lemma FailedSaveOnlyToasts(d: Dashboard, error: Option<FormError>, reply: Reply, now: int)
    requires error.Some? || reply.RequestFailed?
    ensures var r := HandleSave(d, error, reply, now);
      r.certificates == d.certificates && r.modalOpen == d.modalOpen && r.editing == d.editing &&
      |r.toasts| == |d.toasts| + 1 && r.toasts[..|d.toasts|] == d.toasts
  {
  }

  /** `handleCloseModal`: the modal closes and the edited record is dropped. */
  function CloseModal(d: Dashboard): Dashboard {
    d.(modalOpen := false, editing := None)
  }

  /** A submit of a complete form: the modal calls `onSave(formData)` and then, before
      the request settles, `onClose()`. The save still uses the edited record it
      captured when it was called, and the two touch the list and the toasts only
      through the save, so the state ends as the save's outcome with the modal
      closed and nothing being edited. */
  function SubmitAndClose(d: Dashboard, reply: Reply, now: int): Dashboard {
    CloseModal(HandleSave(d, None, reply, now))
  }

  /** After a submit the modal is closed and the edit is over whatever the server
      answers; a failed request leaves the list as it was with one error toast, a
      saved edit replaces in place and a saved addition appends. */
  lemma SubmitAndCloseOutcome(d: Dashboard, reply: Reply, now: int)
    ensures var r := SubmitAndClose(d, reply, now);
      !r.modalOpen && r.editing.None? &&
      r.toasts[..|d.toasts|] == d.toasts && |r.toasts| == |d.toasts| + 1 &&
      (reply.RequestFailed? ==>
        r.certificates == d.certificates &&
        r.toasts[|d.toasts|] == Toast(now, "Failed to save certificate", "error")) &&
      (reply.Saved? && d.editing.Some? ==>
        r.certificates == ReplaceById(d.certificates, d.editing.value.id, reply.cert)) &&
      (reply.Saved? && d.editing.None? ==>
        r.certificates == d.certificates + [reply.cert])
  {
  }

  /** A successful delete removes every certificate with that id and keeps the others in order;
      a failed one leaves the list alone. */
  lemma {:induction false} DeleteRemovesOnlyThatId(d: Dashboard, id: string, succeeded: bool, now: int)
    ensures var r := HandleDelete(d, id, succeeded, now);
      (succeeded ==>
        IsSubsequence(r.certificates, d.certificates) &&
        (forall c :: c in r.certificates <==> c in d.certificates && c.id != id) &&
        (forall c :: multiset(r.certificates)[c] == if c.id != id then multiset(d.certificates)[c] else 0)) &&
      (!succeeded ==> r.certificates == d.certificates)
  {
    RemoveByIdKeepsOthers(d.certificates, id);
  }
}
