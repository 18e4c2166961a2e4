/** `UI_ACTIVITY_RULES`: the category / sub-type table shown to users, its
    well-formedness, and its agreement with the classifier's constants. */
module ActivityRulesUI {
  import opened Seqs
  import AR = ActivityRules

  /** A sub-type: per-activity points and, for some sub-types, their own maximum. */
  datatype SubRule = SubRule(subId: nat, title: string, points: nat, max: Option<nat>)

  /** A category with its maximum and its ordered sub-types. */
  datatype RuleCategory = RuleCategory(id: nat, title: string, max: nat, subs: seq<SubRule>)

  const UiActivityRules: seq<RuleCategory> := [
    RuleCategory(1, "MOOCs / SWAYAM / NPTEL / Course", 40,
      [SubRule(1, "Per Course", 20, None)]),
    RuleCategory(2, "Technical Fest / Conference / Hackathons", 10,
      [SubRule(1, "Organizer", 5, None),
       SubRule(2, "Participant", 3, Some(6))]),
    RuleCategory(3, "Rural Reporting / Harihtharam / Plantation", 10,
      [SubRule(1, "Rural Reporting", 5, None),
       SubRule(2, "Hariharam / Plantation", 1, None)]),
    RuleCategory(5, "Participation in Relief camps", 40,
      [SubRule(1, "Per Camp", 20, None)]),
    RuleCategory(13, "Participation in Sports/Games", 30,
      [SubRule(1, "College level", 5, Some(10)),
       SubRule(2, "University level", 10, Some(20)),
       SubRule(3, "Region level", 12, Some(24)),
       SubRule(4, "State level", 15, Some(30)),
       SubRule(5, "National level", 20, Some(30))]),
    RuleCategory(9, "Research Publication (per publication)", 20,
      [SubRule(1, "Publication", 10, None)]),
    RuleCategory(14, "Cultural Program (Dance, Drama, Music etc.)", 10,
      [SubRule(1, "Participation", 5, None)])
  ]

  /** Category ids are pairwise distinct. */
  predicate DistinctIds(rules: seq<RuleCategory>) {
    forall i, j :: 0 <= i < j < |rules| ==> rules[i].id != rules[j].id
  }

  /** Sub-types are numbered 1..n in table order. */
  predicate SubsNumbered(c: RuleCategory) {
    forall k :: 0 <= k < |c.subs| ==> c.subs[k].subId == k + 1
  }

  /** The cap that applies to a sub-type: its own maximum, else its category's. */
  function SubCap(s: SubRule, c: RuleCategory): nat {
    s.max.GetOr(c.max)
  }

  /** A sub-type awards positive points, no more than its own cap, which is no more
      than its category's maximum. */
  predicate SubWithinCategory(s: SubRule, c: RuleCategory) {
    0 < s.points <= SubCap(s, c) <= c.max
  }

  predicate WellFormedCategory(c: RuleCategory) {
    |c.subs| > 0 && SubsNumbered(c) &&
    forall k :: 0 <= k < |c.subs| ==> SubWithinCategory(c.subs[k], c)
  }

  predicate WellFormed(rules: seq<RuleCategory>) {
    DistinctIds(rules) && forall i :: 0 <= i < |rules| ==> WellFormedCategory(rules[i])
  }

  /** The shipped table is well formed. */
  lemma UiActivityRulesWellFormed()
    ensures WellFormed(UiActivityRules)
  {
    var t := UiActivityRules;
    forall i | 0 <= i < |t| ensures WellFormedCategory(t[i]) {
      var c := t[i];
      forall k | 0 <= k < |c.subs| ensures c.subs[k].subId == k + 1 && SubWithinCategory(c.subs[k], c) { }
    }
  }

  /** Numbering 1..n makes the sub-type ids of a category distinct. */
  lemma NumberedSubsDistinct(c: RuleCategory)
    requires SubsNumbered(c)
    ensures forall j, k :: 0 <= j < k < |c.subs| ==> c.subs[j].subId != c.subs[k].subId
  {
  }

  /** The sports tiers run College to National with strictly increasing points
      and non-decreasing sub-type maxima. */
  lemma SportsTiersIncrease()
    ensures UiActivityRules[4].id == 13
    ensures var subs := UiActivityRules[4].subs;
      |subs| == 5 &&
      (forall j, k :: 0 <= j < k < 5 ==> subs[j].points < subs[k].points) &&
      (forall j, k :: 0 <= j < k < 5 ==> SubCap(subs[j], UiActivityRules[4]) <= SubCap(subs[k], UiActivityRules[4]))
  {
  }

  /** Maps a table category to its key in `MAX_POINTS_BY_CATEGORY`, where one exists. */
  function CategoryKey(id: nat): Option<string> {
    if id == 1 then Some(AR.Moocs)
    else if id == 2 then Some(AR.Technical)
    else if id == 3 then Some(AR.Rural)
    else if id == 13 then Some(AR.Sports)
    else None
  }

  /** Every table category that has a key in `MAX_POINTS_BY_CATEGORY` has the same maximum there. */
  lemma MaximaAgree()
    ensures forall i :: 0 <= i < |UiActivityRules| && CategoryKey(UiActivityRules[i].id).Some? ==>
      CategoryKey(UiActivityRules[i].id).value in AR.MaxPointsByCategory &&
      AR.MaxPointsByCategory[CategoryKey(UiActivityRules[i].id).value] == UiActivityRules[i].max
  {
  }

  /** Each non-default result of the classifier is a row of the table: MOOCs is
      "Per Course" of category 1, the two Technical results are "Organizer" and
      "Participant" of category 2, with the matching points and maxima. */
  lemma PointsInfoAgreesWithTable(a: AR.Activity)
    ensures var r := AR.GetPointsInfo(a);
      r.Some? ==>
      (r.value.category == AR.Moocs ==>
        r.value.points == UiActivityRules[0].subs[0].points && r.value.maxPoints == UiActivityRules[0].max) &&
      (r.value.category == AR.Technical && r.value.points == 5 ==>
        UiActivityRules[1].subs[0].title == "Organizer" &&
        r.value.points == UiActivityRules[1].subs[0].points && r.value.maxPoints == UiActivityRules[1].max) &&
      (r.value.category == AR.Technical && r.value.points != 5 ==>
        UiActivityRules[1].subs[1].title == "Participant" &&
        r.value.points == UiActivityRules[1].subs[1].points && Some(r.value.maxPoints) == UiActivityRules[1].subs[1].max)
  {
    AR.PointsInfoOutcomes(a);
  }

  // ---------------------------------------------------------------------------
  // Addition, not present in the source: the source only states, in a comment on
  // the Participant row, that its total is "capped at 6". Nothing in the source
  // computes a capped total; this helper makes that comment precise.
  // ---------------------------------------------------------------------------

  /** The total for `count` activities of sub-type `s`, clamped to the sub-type's cap. */
  function CappedSubTotal(count: nat, s: SubRule, c: RuleCategory): (r: nat)
    requires SubWithinCategory(s, c)
    ensures r <= SubCap(s, c) <= c.max
    ensures r <= count * s.points
    ensures r == count * s.points || r == SubCap(s, c)
  {
    if count * s.points <= SubCap(s, c) then count * s.points else SubCap(s, c)
  }

  /** Adding activities never lowers the capped total. */
  lemma {:induction false} CappedSubTotalMonotone(m: nat, n: nat, s: SubRule, c: RuleCategory)
    requires SubWithinCategory(s, c)
    requires m <= n
    ensures CappedSubTotal(m, s, c) <= CappedSubTotal(n, s, c)
  {
    assert m * s.points <= n * s.points by {
      var d := n - m;
      assert n * s.points == m * s.points + d * s.points;
    }
  }

  /** Participants score 3 each up to a total of 6, whatever their number. */
  lemma ParticipantCappedAtSix(count: nat)
    ensures var c := UiActivityRules[1];
      SubWithinCategory(c.subs[1], c) &&
      CappedSubTotal(count, c.subs[1], c) == (if 3 * count <= 6 then 3 * count else 6) &&
      CappedSubTotal(count, c.subs[1], c) <= 6
  {
  }
}
