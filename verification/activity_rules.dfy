/** The client-side activity-points classifier: a fixed table of category maxima
    and an ordered chain of tests where the first match decides the category,
    the points awarded and the maximum for that kind of activity. */
module ActivityRules {
  import opened Seqs
  import opened Text

  const Moocs := "MOOCs"
  const Technical := "Technical/Research Participation"
  const Rural := "Rural Reporting"
  const Sports := "Sports/Games"
  const DefaultCategory := "Other"
  const DefaultPoints := 10
  const DefaultMax := 20

  /** `MAX_POINTS_BY_CATEGORY`: the maximum points per category name. */
  const MaxPointsByCategory: map<string, nat> :=
    map[Moocs := 40, Technical := 10, Rural := 10, Sports := 30, DefaultCategory := DefaultMax]

  /** A text field as JavaScript holds it: a string, `undefined` or `null`. */
  datatype JsValue = Undefined | Null | Str(text: string)

  /** The fields of an activity record that the classifier reads. */
  datatype Activity = Activity(eventType: Option<string>, eventName: JsValue, description: JsValue)

  /** `{category, points, maxPoints}` */
  datatype PointsInfo = PointsInfo(category: string, points: nat, maxPoints: nat)

  /** The text a value becomes when `+` joins it to a string. */
  function JsText(v: JsValue): string {
    match v
    case Undefined => "undefined"
    case Null => "null"
    case Str(s) => s
  }

  /** `eventName + description`: a string when either operand is one; otherwise
      JavaScript adds the two as numbers (NaN or 0), which has no `toLowerCase`. */
  function Joined(a: Activity): Option<string> {
    if a.eventName.Str? || a.description.Str? then Some(JsText(a.eventName) + JsText(a.description))
    else None
  }

  /** The first rule: the type is "Course", or the event name (when it is a
      non-empty string) mentions "mooc" in any case. */
  predicate IsMoocRule(a: Activity) {
    a.eventType == Some("Course") ||
    (a.eventName.Str? && a.eventName.text != "" && Contains(Lower(a.eventName.text), "mooc"))
  }

  /** The Workshop tests reach `(eventName + description).toLowerCase()` with no
      string to lower-case, and throw. */
  predicate ThrowsOnWorkshop(a: Activity) {
    a.eventType == Some("Workshop") && Joined(a).None?
  }

  /** A Workshop whose combined, lower-cased text mentions the given keyword. */
  predicate IsWorkshopWith(a: Activity, keyword: string) {
    a.eventType == Some("Workshop") && Joined(a).Some? && Contains(Lower(Joined(a).value), keyword)
  }

  /** `getPointsInfo`: the first matching rule wins; anything unmatched is "Other".
      None stands for the TypeError thrown when a non-MOOC Workshop has neither
      field as a string. */
  function GetPointsInfo(a: Activity): (r: Option<PointsInfo>)
    ensures r.None? <==> !IsMoocRule(a) && ThrowsOnWorkshop(a)
    ensures r.Some? ==> 0 < r.value.points <= r.value.maxPoints
    ensures r.Some? ==> r.value.category in MaxPointsByCategory &&
                        r.value.maxPoints <= MaxPointsByCategory[r.value.category]
  {
    if IsMoocRule(a) then Some(PointsInfo(Moocs, 20, 40))
    else if ThrowsOnWorkshop(a) then None
    else if IsWorkshopWith(a, "organizer") then Some(PointsInfo(Technical, 5, 10))
    else if IsWorkshopWith(a, "participant") then Some(PointsInfo(Technical, 3, 6))
    else Some(PointsInfo(DefaultCategory, DefaultPoints, DefaultMax))
  }

  /** Only a Workshop can make the classifier throw, and a single present text
      field is enough to avoid it. */
  lemma ThrowsOnlyWithoutText(a: Activity)
    ensures a.eventType != Some("Workshop") ==> GetPointsInfo(a).Some?
    ensures a.eventName.Str? || a.description.Str? ==> GetPointsInfo(a).Some?
  {
  }

  /** Exactly four results are possible, besides the throw. */
  lemma PointsInfoOutcomes(a: Activity)
    ensures GetPointsInfo(a) in {Some(PointsInfo(Moocs, 20, 40)), Some(PointsInfo(Technical, 5, 10)),
                                 Some(PointsInfo(Technical, 3, 6)), Some(PointsInfo(DefaultCategory, 10, 20)), None}
  {
  }

  /** A "Course" is always a MOOC, whatever its name or description. */
  lemma CourseIsMooc(a: Activity)
    requires a.eventType == Some("Course")
    ensures GetPointsInfo(a) == Some(PointsInfo(Moocs, 20, 40))
  {
  }

  /** An event name mentioning "mooc" in any case is a MOOC whatever its type,
      even when the text also mentions "organizer" or "participant". */
  lemma MoocNameWins(a: Activity, name: string, i: nat)
    requires a.eventName == Str(name)
    requires OccursAt(Lower(name), "mooc", i)
    ensures GetPointsInfo(a) == Some(PointsInfo(Moocs, 20, 40))
  {
    ContainsIff(Lower(name), "mooc");
  }

  /** The result is MOOCs exactly when the first rule applies. */
  lemma MoocsIff(a: Activity)
    ensures GetPointsInfo(a).Some? && GetPointsInfo(a).value.category == Moocs <==> IsMoocRule(a)
  {
  }

  /** Only a Workshop that is not a MOOC can score in Technical/Research
      Participation, and only through one of its two keywords. */
  lemma TechnicalIff(a: Activity)
    ensures GetPointsInfo(a).Some? && GetPointsInfo(a).value.category == Technical <==>
            !IsMoocRule(a) && a.eventType == Some("Workshop") && Joined(a).Some? &&
            (Contains(Lower(Joined(a).value), "organizer") || Contains(Lower(Joined(a).value), "participant"))
  {
  }

  /** A non-MOOC Workshop mentioning "organizer" gets 5 of 10, whether or not it
      also mentions "participant", and no other activity does. */
  lemma OrganizerIff(a: Activity)
    ensures GetPointsInfo(a) == Some(PointsInfo(Technical, 5, 10)) <==>
            !IsMoocRule(a) && IsWorkshopWith(a, "organizer")
  {
  }

  /** "organizer" is tested first, so 3 of 6 goes exactly to a non-MOOC Workshop
      that mentions "participant" and not "organizer". */
  lemma ParticipantIff(a: Activity)
    ensures GetPointsInfo(a) == Some(PointsInfo(Technical, 3, 6)) <==>
            !IsMoocRule(a) && !IsWorkshopWith(a, "organizer") && IsWorkshopWith(a, "participant")
  {
  }

  /** A keyword split between the end of the event name and the start of the
      description still matches, since the two are joined without a separator. */
  lemma {:induction false} KeywordAcrossJoin(a: Activity, name: string, desc: string, keyword: string, k: nat)
    requires keyword == "organizer" || keyword == "participant"
    requires a.eventType == Some("Workshop") && !IsMoocRule(a)
    requires a.eventName == Str(name) && a.description == Str(desc)
    requires k <= |keyword| && k <= |name|
    requires Lower(name)[|name| - k..] == keyword[..k]
    requires StartsWith(Lower(desc), keyword[k..])
    ensures GetPointsInfo(a) == Some(PointsInfo(Technical, 5, 10)) || GetPointsInfo(a) == Some(PointsInfo(Technical, 3, 6))
  {
    LowerAppend(name, desc);
    ContainsAcrossJoin(Lower(name), Lower(desc), keyword, k);
  }

  /** Upper-case letters in the name or description do not change the outcome. */
  lemma {:induction false} CaseInsensitive(a: Activity, b: Activity)
    requires a.eventType == b.eventType
    requires a.eventName.Str? == b.eventName.Str? && a.description.Str? == b.description.Str?
    requires !a.eventName.Str? ==> a.eventName == b.eventName
    requires !a.description.Str? ==> a.description == b.description
    requires a.eventName.Str? ==> Lower(a.eventName.text) == Lower(b.eventName.text)
    requires a.description.Str? ==> Lower(a.description.text) == Lower(b.description.text)
    ensures GetPointsInfo(a) == GetPointsInfo(b)
  {
    LowerAppend(JsText(a.eventName), JsText(a.description));
    LowerAppend(JsText(b.eventName), JsText(b.description));
    if Joined(a).Some? {
      assert Lower(Joined(a).value) == Lower(Joined(b).value);
    }
    if a.eventName.Str? {
      assert a.eventName.text == "" <==> b.eventName.text == "";
    }
  }

  /** An activity that no rule matches, and on which no test throws, falls into
      "Other" with 10 of 20 points; every other activity gets a named category or throws. */
  lemma DefaultIff(a: Activity)
    ensures GetPointsInfo(a) == Some(PointsInfo(DefaultCategory, DefaultPoints, DefaultMax)) <==>
            !IsMoocRule(a) && !ThrowsOnWorkshop(a) &&
            !IsWorkshopWith(a, "organizer") && !IsWorkshopWith(a, "participant")
  {
  }
}
