# Activity-points certificate tracker: a Dafny model

This project models the decision logic of a student activity-points tracker in Dafny. Students upload
certificates of extra-curricular activities: courses, workshops, sports and so on. Teachers browse
the certificates of all students, and a rule table says how many points each kind of activity is
worth.

The model covers:

- **Activity rules** (`ActivityRules`, `ActivityRulesUI`):
  - the first-match classifier `getPointsInfo` and the `MAX_POINTS_BY_CATEGORY` table;
  - the `UI_ACTIVITY_RULES` category/sub-type table, with its well-formedness and its agreement with the classifier.
- **Dashboards** (`Certificates`, `StudentDashboard`, `TeacherDashboard`):
  - the certificate filters: search, type, and a date range that overrides the year/month selection;
  - the descending year and month drop-down options;
  - the student dashboard's list updates: edit in place, append, delete by id, and toasts;
  - the teacher dashboard's "Total Students" and "Filtered Results" cards.
- **Upload form** (`UploadModal`): a class holding the form record. It covers:
  - the effect that loads or clears the form;
  - the per-field handlers;
  - the 10 MiB file limit;
  - the PDF test;
  - the required-field check on submit.
- **Activity handlers** (`ActivityController`): a class holding the activity collection as a `map`.
  - The file pass-through and its default.
  - The roll-number remap.
  - Owner-scoped listing, add, update and delete.
  - The teacher's listing, which leaves out descriptions.
  - Listings are newest first.
- **Authentication handlers** (`AuthController`): a class holding the student and teacher collections.
  - The login/registration decision tree.
  - Password reset.
  - The current-user lookup.

Modelling choices:

- **Hashing.** bcrypt is replaced by an injective stand-in `Hash`. `Compare(p, Hash(q))` holds exactly when `p == q`, and this is proved.
- **Session token.** The signed session token is represented by the user id it carries.
- **Database ids.** Fresh ids are parameters. A fresh id that is already taken yields the handler's 500 path.
- **Certificate dates.** A certificate date is an optional record of a millisecond timestamp, a year and a month. `None` stands for a date that is missing or does not parse.
- **Filter range.** The date-range inputs are the timestamps of the start of the chosen days.
- **Lower-casing.** `toLowerCase` is modelled on ASCII letters.
- **Concatenation of name and description.** Each field is a string, `undefined` or `null`, as JavaScript holds it. `eventName + description` gives text when at least one operand is a string: a missing field reads as "undefined" and a null one as "null". When neither is a string, JavaScript adds them as numbers (NaN or 0). The `toLowerCase` call on that number throws a TypeError. The classifier's result is then `None`.
- **Month values.** "YYYY-MM" month values are compared by `year * 100 + month`. This is the same as their string order for four-digit years.
- **Dashboard state.** State changes that the dashboards make through React setters are modelled as functions from the old state to the new one.
- **Request handling.** Each backend handler is a method on a class whose fields are the collections it reads and writes.

The source computes a capped total nowhere. `ActivityRulesUI.CappedSubTotal` is an addition. It makes
the comment "Capped at 6 total for Participant sub-type" precise, and it is labelled as an addition
in the code.

## Model

| member | source | states |
|---|---|---|
| Text.Lower | frontend/src/pages/StudentDashboard.jsx:203-209 | `toLowerCase` keeps the length and lower-cases each character. |
| Text.ContainsIff | frontend/src/pages/StudentDashboard.jsx:203-209 | `includes` holds exactly when the pattern occurs at some index. |
| Text.ContainsAcrossJoin | frontend/src/utils/activityRules.js:31-33 | A pattern split between the end of one text and the start of the next occurs in their concatenation. |
| Seqs.Filter | frontend/src/pages/StudentDashboard.jsx:175 | `Array.filter` keeps exactly the elements that pass, each as many times as it occurs in the input, and no more elements than the input has. |
| Seqs.FilterIsSubsequence | frontend/src/pages/StudentDashboard.jsx:175-245 | A filtered list is an order-preserving subsequence of its input. |
| Seqs.FilterSnoc | frontend/src/pages/StudentDashboard.jsx:175-245 | Filtering a list extended by one element extends the filtered list by that element exactly when it passes. |
| ActivityRules.GetPointsInfo | frontend/src/utils/activityRules.js:15-62 | The classifier throws (`None`) exactly when the activity is not a MOOC, is a "Workshop", and has neither name nor description as a string. Every other result has `0 < points <= maxPoints`. Its category is a key of `MAX_POINTS_BY_CATEGORY`, and `maxPoints` is at most that key's value. |
| ActivityRules.ThrowsOnlyWithoutText | frontend/src/utils/activityRules.js:29-47 | Only a "Workshop" can make the classifier throw, and one text field that is a string is enough to prevent it. |
| ActivityRules.PointsInfoOutcomes | frontend/src/utils/activityRules.js:15-62 | The result is the throw or one of exactly four records: MOOCs 20/40, Technical 5/10, Technical 3/6, Other 10/20. |
| ActivityRules.CourseIsMooc | frontend/src/utils/activityRules.js:21-26 | Type "Course" always gives MOOCs 20/40, whatever the name and description. |
| ActivityRules.MoocNameWins | frontend/src/utils/activityRules.js:21-26 | An event name containing "mooc" in any case gives MOOCs, whatever the type. |
| ActivityRules.MoocsIff | frontend/src/utils/activityRules.js:21-26 | The category is MOOCs exactly when the type is "Course" or the lower-cased name contains "mooc". |
| ActivityRules.TechnicalIff | frontend/src/utils/activityRules.js:29-54 | Technical/Research Participation comes exactly from a "Workshop" that is not a MOOC and whose name plus description is text that mentions "organizer" or "participant". |
| ActivityRules.OrganizerIff | frontend/src/utils/activityRules.js:29-40 | A result of Technical 5/10 comes exactly from a non-MOOC Workshop whose name plus description mentions "organizer", whether or not it also mentions "participant". |
| ActivityRules.ParticipantIff | frontend/src/utils/activityRules.js:29-54 | A result of Technical 3/6 comes exactly from a non-MOOC Workshop whose name plus description mentions "participant" but not "organizer". |
| ActivityRules.KeywordAcrossJoin | frontend/src/utils/activityRules.js:43-54 | A keyword that straddles the join of name and description still matches, because they are joined with no separator. |
| ActivityRules.CaseInsensitive | frontend/src/utils/activityRules.js:21-54 | Two activities whose text fields lower-case to the same strings, and whose other fields are equally missing or null, get the same result. |
| ActivityRules.DefaultIff | frontend/src/utils/activityRules.js:58-62 | The result is Other 10/20 exactly when no earlier rule matches and no Workshop test throws. |
| ActivityRulesUI.UiActivityRulesWellFormed | frontend/src/utils/activityRulesUI.js:1-64 | Category ids are distinct. Sub-ids are numbered 1..n in order. Every sub-type has `0 < points <= sub max <= category max`. |
| ActivityRulesUI.NumberedSubsDistinct | frontend/src/utils/activityRulesUI.js:13-16 | Sub-types numbered 1..n have pairwise distinct sub-ids. |
| ActivityRulesUI.SportsTiersIncrease | frontend/src/utils/activityRulesUI.js:41-45 | Sports tiers from College to National have strictly increasing points and non-decreasing caps. |
| ActivityRulesUI.MaximaAgree | frontend/src/utils/activityRules.js:5-11 | The table's MOOCs, Technical, Rural and Sports maxima equal those of `MAX_POINTS_BY_CATEGORY`. |
| ActivityRulesUI.PointsInfoAgreesWithTable | frontend/src/utils/activityRulesUI.js:3-16 | Each classifier result that is neither the throw nor Other matches its table row: Per Course 20 of 40, Organizer 5 of 10, Participant 3 capped at 6. |
| ActivityRulesUI.CappedSubTotal | frontend/src/utils/activityRulesUI.js:15 | Addition. The clamped total is at most the sub-type cap and the category max. It never exceeds count × points, and it equals one of the two. |
| ActivityRulesUI.CappedSubTotalMonotone | frontend/src/utils/activityRulesUI.js:15 | Addition. More activities never lower the capped total. |
| ActivityRulesUI.ParticipantCappedAtSix | frontend/src/utils/activityRulesUI.js:15 | Addition. The Participant total is `min(3k, 6)`, so it is at most 6 for any count. |
| Certificates.YearsOfSnoc | frontend/src/pages/StudentDashboard.jsx:188-190 | Scanning one more certificate adds its year, if it has a date, to the set of years. |
| Certificates.MonthsOfSnoc | frontend/src/pages/StudentDashboard.jsx:192-194 | Scanning one more certificate adds its "YYYY-MM" month, if it has a date, to the set of months. |
| Certificates.RankOrdersLikeYearThenMonth | frontend/src/pages/StudentDashboard.jsx:257 | Ordering "YYYY-MM" values by rank is year first, then month, and distinct months have distinct ranks. |
| Certificates.MaxByRank | frontend/src/pages/StudentDashboard.jsx:247 | The element picked from a non-empty set is a member with the highest rank. |
| Certificates.SortDescending | frontend/src/pages/StudentDashboard.jsx:247 | The result holds exactly the set's elements, in strictly descending rank. |
| Certificates.DecimalText | frontend/src/pages/StudentDashboard.jsx:254 | A year renders as its decimal digits: a non-empty digit string that denotes the number, with no leading zero. |
| Certificates.RankInjective | frontend/src/pages/StudentDashboard.jsx:257 | Distinct months never tie in the descending order. |
| Certificates.YearOptions | frontend/src/pages/StudentDashboard.jsx:247 | Year options are exactly the years present, newest first. |
| Certificates.MonthOptions | frontend/src/pages/StudentDashboard.jsx:248-261 | Month options are exactly the months present in the selected year (or all months), newest first, each with its label. |
| Certificates.RangeOverridesYearMonth | frontend/src/pages/StudentDashboard.jsx:217-233 | While a date range is set, the year and month choices are ignored and a dateless certificate fails. |
| Certificates.RangeBoundsInclusive | frontend/src/pages/StudentDashboard.jsx:221-228 | With both bounds set, a dated certificate passes exactly when its stamp is at or after "from" and before the end of the "to" day. "From" is inclusive, and "to" includes its whole day and nothing after it. |
| Certificates.YearMonthWhenNoRange | frontend/src/pages/StudentDashboard.jsx:234-242 | With no range, a certificate passes exactly when its year matches (or "All") and its "YYYY-MM" matches (or "All"). |
| StudentDashboard.MatchesDate | frontend/src/pages/StudentDashboard.jsx:215-242 | The step-by-step `matchesDate` flag equals the date test, and fails for a dateless certificate while a range is set. |
| StudentDashboard.ComputeView | frontend/src/pages/StudentDashboard.jsx:156-267 | The memo returns exactly the certificates that pass all filters, in order. Years and months are taken from all certificates, not just the filtered ones, and sorted newest first. |
| StudentDashboard.VisibleIsOrderedSelection | frontend/src/pages/StudentDashboard.jsx:244 | The visible list is an ordered subsequence of the certificates. It holds exactly those that pass search, type and date, each as many times as it occurs in the input. |
| StudentDashboard.EmptySearchMatches | frontend/src/pages/StudentDashboard.jsx:203-209 | An empty query matches every certificate, including one with no name or description. |
| StudentDashboard.NoFiltersShowsAll | frontend/src/pages/StudentDashboard.jsx:175-245 | With an empty search, "All" choices and no range, every certificate is shown in order. |
| StudentDashboard.ReplaceById | frontend/src/pages/StudentDashboard.jsx:108-112 | An edit keeps length and order, replaces every entry with the edited id and keeps all others. |
| StudentDashboard.RemoveByIdKeepsOthers | frontend/src/pages/StudentDashboard.jsx:133 | Delete leaves exactly the entries with another id, each as many times as before, in their order. |
| StudentDashboard.RemoveToastKeepsOthers | frontend/src/pages/StudentDashboard.jsx:51-53 | `removeToast` leaves exactly the toasts with another id, each as many times as before, in their order. |
| StudentDashboard.ShowThenRemoveToast | frontend/src/pages/StudentDashboard.jsx:47-53 | Showing a toast and then removing its id is the same as removing that id from the list before it was shown. |
| StudentDashboard.SavedEditReplacesInPlace | frontend/src/pages/StudentDashboard.jsx:100-114 | A saved edit keeps length and order, replaces exactly the entries with the edited id, clears the edited record and closes the modal. |
| StudentDashboard.SavedAddAppends | frontend/src/pages/StudentDashboard.jsx:115-123 | A saved add appends the new certificate after the unchanged list and closes the modal. |
| StudentDashboard.FailedSaveOnlyToasts | frontend/src/pages/StudentDashboard.jsx:93-128 | `handleSave` by itself: a form error or a failed request leaves the certificates, the modal flag and the edited record unchanged and only appends a toast. |
| StudentDashboard.SubmitAndCloseOutcome | frontend/src/pages/StudentDashboard.jsx:93-153 | A complete form's submit saves and immediately closes the modal. Afterwards the modal is closed and nothing is being edited, whatever the reply, and exactly one toast is appended. A failed request leaves the list unchanged with the error toast, a saved edit replaces in place and a saved add appends. |
| StudentDashboard.DeleteRemovesOnlyThatId | frontend/src/pages/StudentDashboard.jsx:130-139 | A successful delete removes exactly the entries with that id and keeps every other entry, as many times as before and in order. A failed one changes no certificate. |
| TeacherDashboard.DateFlags | frontend/src/pages/TeacherDashboard.jsx:144-173 | Year/month is tested only without a range, and the range only with one. The flag that is not tested stays true. |
| TeacherDashboard.ComputeView | frontend/src/pages/TeacherDashboard.jsx:100-213 | The memo returns exactly the certificates that pass all four flags, in order, with years and months of all certificates, newest first. |
| TeacherDashboard.VisibleIsOrderedSelection | frontend/src/pages/TeacherDashboard.jsx:176-181 | The result is an ordered subsequence holding exactly the certificates that pass, each as many times as it occurs in the input. |
| TeacherDashboard.DescriptionNotSearched | frontend/src/pages/TeacherDashboard.jsx:137-139 | Replacing the description never changes whether a certificate matches the search. A query found in neither the roll number nor the event name does not match. |
| TeacherDashboard.RollnosOf | frontend/src/pages/TeacherDashboard.jsx:267 | The set holds exactly the roll numbers (missing included) that occur in the certificates. |
| TeacherDashboard.TotalStudentsBounds | frontend/src/pages/TeacherDashboard.jsx:267 | "Total Students" is at most the number of certificates, and at least 1 when there is any. |
| TeacherDashboard.FilteredAtMostTotal | frontend/src/pages/TeacherDashboard.jsx:274 | "Filtered Results" is at most "Total Certificates". |
| UploadModal.IsPdf | frontend/src/components/UploadModal.jsx:17 | True exactly when the file starts with "data:application/pdf;", which implies it is non-empty. |
| UploadModal.UploadForm.constructor | frontend/src/components/UploadModal.jsx:6-14 | The form starts as the edited record, or empty with type "Workshop". |
| UploadModal.UploadForm.Sync | frontend/src/components/UploadModal.jsx:19-31 | The effect loads `editData` when present. Otherwise it resets a closed form and leaves an open one as is. |
| UploadModal.UploadForm.Submit | frontend/src/components/UploadModal.jsx:33-40 | A missing name, description or date is rejected with the error message and stays open. Otherwise the unchanged form is handed over and the modal closes. |
| UploadModal.UploadForm.PickFile | frontend/src/components/UploadModal.jsx:42-56 | A file over 10485760 bytes is refused with the form unchanged. Otherwise only `file` changes. |
| UploadModal.UploadForm.SetEventName | frontend/src/components/UploadModal.jsx:96-98 | Only the event name changes. |
| UploadModal.UploadForm.SetDescription | frontend/src/components/UploadModal.jsx:110-112 | Only the description changes. |
| UploadModal.UploadForm.SetDate | frontend/src/components/UploadModal.jsx:129-131 | Only the date changes. |
| UploadModal.UploadForm.SetEventType | frontend/src/components/UploadModal.jsx:142-144 | Only the type changes. |
| UploadModal.EmptyFormIsIncomplete | frontend/src/components/UploadModal.jsx:23-29 | A reset form has type "Workshop", no PDF, and would be rejected on submit. |
| UploadModal.RequiredFieldsSuffice | frontend/src/components/UploadModal.jsx:34 | Filling in the three required fields makes any form submittable. |
| ActivityController.SaveFileToStorage | backend/controllers/activityController.js:4-9 | A non-empty file is returned unchanged, with or without the "data:" prefix. An empty or absent one becomes "uploads/default_certificate.pdf". |
| ActivityController.SaveFileToStorageStable | backend/controllers/activityController.js:4-9 | The stored reference is never empty, and storing it again keeps it. |
| ActivityController.PdfStoredAsSent | backend/controllers/activityController.js:5-6 | A PDF accepted by the upload form is stored exactly as sent. |
| ActivityController.RemapFields | backend/controllers/activityController.js:39-43 | The remap copies every field. The roll number is the owner's or "N/A", and `userId` is the owner's id or null, consistently. |
| ActivityController.InsertByDate | backend/controllers/activityController.js:34-36 | Insertion adds exactly the one view. |
| ActivityController.InsertByDateSorted | backend/controllers/activityController.js:34-36 | Insertion keeps a list newest first. |
| ActivityController.SortedViews | backend/controllers/activityController.js:31-36 | The result holds the views of exactly the given ids, each once, newest first. |
| ActivityController.UpdateIsOwnerScoped | backend/controllers/activityController.js:108-119 | An update succeeds exactly when the id exists and belongs to the caller. It then rewrites that document's fields, owner kept, with the file defaulted. |
| ActivityController.DeleteIsOwnerScoped | backend/controllers/activityController.js:146-156 | A delete succeeds exactly when the id exists and belongs to the caller, and it then removes only that document. |
| ActivityController.OthersDocumentsUntouched | backend/controllers/activityController.js:101-169 | Update and delete leave every other document as it was. |
| ActivityController.ActivityStore.constructor | backend/models/activityModel.js:3-17 | The store starts with the given documents and students. |
| ActivityController.ActivityStore.GetActivities | backend/controllers/activityController.js:22-61 | Without a user id the reply is 400 and empty. Otherwise it is 200 with exactly the caller's remapped documents, newest first. |
| ActivityController.ActivityStore.AddActivity | backend/controllers/activityController.js:63-99 | Stores one new document owned by the caller with the given fields and the file passed through `saveFileToStorage` (201). The error path (500) leaves the store unchanged. |
| ActivityController.ActivityStore.UpdateActivity | backend/controllers/activityController.js:101-140 | Rewrites the document only when both id and owner match (200 with its view). Otherwise the reply is 404 and the store is unchanged. |
| ActivityController.ActivityStore.DeleteActivity | backend/controllers/activityController.js:142-169 | Removes the document only when both id and owner match (200). Otherwise the reply is 404 and the store is unchanged. |
| ActivityController.ActivityStore.GetAllActivities | backend/controllers/activityController.js:172-197 | Every document, remapped without its description, newest first. |
| AuthController.CompareHash | backend/controllers/authcontroller.js:89 | `compare(p, hash(q))` holds exactly when `p == q`. |
| AuthController.FallbackAcceptsStoredText | backend/controllers/authcontroller.js:31-33 | With the plain-text fallback, a stored value, hash or not, is accepted as the password. A student's hash-only test never accepts a stored value that is not a hash. |
| AuthController.ResetPasswordAccepted | backend/controllers/authcontroller.js:137-147 | After a reset, the hash test accepts only the new password. The fallback test also accepts the stored hash text itself. |
| AuthController.FindByRollno | backend/controllers/authcontroller.js:20 | Returns a user with that roll number, or none when no user has it. The result is the unique match when roll numbers are unique. |
| AuthController.RegisterMissingFields | backend/controllers/authcontroller.js:10-14 | A missing roll number or password gives 400, with no user created and no cookie. |
| AuthController.TeacherLogin | backend/controllers/authcontroller.js:23-55 | On the teacher tab nothing is created. The reply is 404 exactly when the roll number is unknown, and 200 with that teacher's cookie exactly when the password matches by hash or as plain text. |
| AuthController.StudentLoginHashOnly | backend/controllers/authcontroller.js:58-79 | An existing student gets a cookie exactly when the hash compares, with no plain-text fallback. A mismatch gives 400. |
| AuthController.NewStudentRegistration | backend/controllers/authcontroller.js:81-105 | A new student is created exactly when password == roll number, with the hash stored and a cookie set. Otherwise the reply is "incorrect password" with `success` true, and nothing is created. |
| AuthController.StoreFollowsTab | backend/controllers/authcontroller.js:17-23 | The student collection is used only on the "Student" tab. Any tab other than Student or Teacher registers into the teacher collection. |
| AuthController.ResetChangesOnlyCaller | backend/controllers/authcontroller.js:112-161 | A reset succeeds exactly when both fields are given and the caller exists (students searched first) with a matching old password. Only that user's password then changes, to the new hash. Any other outcome changes nothing. |
| AuthController.Auth.constructor | backend/models/teacherModel.js:3-13 | The two collections start as given, with roll numbers unique in each. |
| AuthController.Auth.Register | backend/controllers/authcontroller.js:6-110 | The handler's reply and both collections afterwards are those of the register decision tree, and roll numbers stay unique. |
| AuthController.Auth.ResetPassword | backend/controllers/authcontroller.js:112-161 | The handler's reply and both collections afterwards are those of the reset rules, and roll numbers stay unique. |
| AuthController.Auth.GetUser | backend/controllers/authcontroller.js:177-218 | No user id gives 401. Otherwise the user, without the password, with role "Student" if found among students, else "Teacher" if found among teachers, else 404. |

## Left out

- Rendering, animation, styling and navigation are not modelled. This covers the JSX of every page and component, the login page, the app shell, the navbar, the view modal, the certificate tables and the reset-password modal. They have no logic beyond empty-field checks before a request.
- HTTP requests (axios), `react-hot-toast` and route wiring (server.js, routes/*.js) are side effects and are left out.
- The toast container's 3-second timer is timing, not logic.
- The student dashboard's "This Year" and "Event Types" cards and the teacher dashboard's "Unique Event Types" card are display only and are left out.
- The `logout` handler only clears the cookie; it is not modelled.
- The total score stays 0 in the dashboard, and no capped total or overall score is computed anywhere. The function `calculateAndCapPoints` that a comment in activityRules.js refers to is not part of this model.
- Mongoose query and populate internals are left out; each collection is a map from id to document.
- Of the schema's validation, only the required text fields (name, type, file) being non-empty is modelled. A date that does not parse is not modelled: request dates are timestamps.
- studentModel.js is not part of this model; students are modelled with the same fields as teachers (roll number, password).
- bcrypt's salt and JWT signing, verification and expiry are not modelled: the hash is an injective stand-in, and a cookie is the user id it would carry.
- The authentication middleware reads the secret under a different environment-variable name than the signer uses. That is configuration, and the middleware is not part of this model.
- JavaScript `Date` parsing, time zones and `toLocaleDateString` are abstracted. A certificate date is a timestamp with its year and month, and a range bound is the timestamp of its day's start.
- `FileReader` base64 encoding is abstracted to the data URL it yields. So is the fact that its callback writes back a copy of the form taken when the file was picked.
- Text.Lower: lower-cases ASCII letters only; Unicode case mapping is left out.
- ActivityRules.GetPointsInfo: a name or description that is neither a string, `undefined` nor `null` (a number, say) is not modelled; the activity schema declares both as strings.
- Certificates.MonthOptions: "YYYY-MM" strings are compared through year × 100 + month, which agrees with string order only for four-digit years. The `startsWith(filterYear)` test on a month value is modelled as equality of years, which is the same for the four-digit year strings the year drop-down offers.
- Certificates.YearOptions: years are sorted numerically, as the `b - a` comparator does.
- ActivityController.RemapFields: takes the owner id the populated reference reports as the document's owner reference. Whether the populate projection, which excludes the student's `_id`, leaves that id undefined is Mongoose behaviour and is not modelled.
- ActivityController.ActivityStore.AddActivity: the 500 reply's database error message is not modelled.
- AuthController.Auth.Register: the 500 reply for a taken id carries a fixed message instead of the database's error text.
- UploadModal.UploadForm.PickFile: the browser's `alert` on an oversized file is represented by the `TooLarge` result.
