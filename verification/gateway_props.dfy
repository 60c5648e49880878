/** Properties of the decision arbiter: tier precedence, the VIP
    carve-out, the AI hand-off and the scores it hands out. */
module GatewayProps {
  import opened Wrappers
  import opened Text
  import opened Normalize
  import opened Features
  import opened Selection
  import opened Contacts
  import opened Rules
  import opened Score
  import opened Gateway

  // ---------------------------------------------------------------------
  // Tier precedence
  // ---------------------------------------------------------------------

  /** Once a contact-list entry matches, the classification rules are not
      consulted: any rule table gives the same decision, and the source is
      never the rule table. */
  lemma ContactTierDecides(id: Option<string>, f: FeatureMap, cs: seq<Contact>, rs: seq<Rule>, rs': seq<Rule>)
    requires CheckContactLists(f, cs).Some?
    ensures Decide(id, f, cs, rs) == Decide(id, f, cs, rs')
    ensures Decide(id, f, cs, rs).source != "classification_rules"
  {
    var c := CheckContactLists(f, cs).value;
    assert Decide(id, f, cs, rs) == ContactTier(id, f, cs, c);
    assert Decide(id, f, cs, rs') == ContactTier(id, f, cs, c);
    ContactTierSource(id, f, cs, c);
  }

  lemma ContactTierSource(id: Option<string>, f: FeatureMap, cs: seq<Contact>, c: Contact)
    ensures ContactTier(id, f, cs, c).source != "classification_rules"
  {
    var d := ContactTier(id, f, cs, c);
    if d.Matched? && d.details.ContactHit? {
      assert d.source[1] == 'o';
    }
  }

  /** An ordinary contact-list hit, or a `vip_finance` hit from a generic or
      dot-less sender: the entry's category and action, confidence 95, and
      the tier's base score plus 15. */
  lemma ContactHitDecision(id: Option<string>, f: FeatureMap, cs: seq<Contact>, rs: seq<Rule>)
    requires CheckContactLists(f, cs).Some?
    requires var c := CheckContactLists(f, cs).value;
             c.listType != "vip_finance" || !LooksPersonal(SenderLocalPart(f))
    ensures var c := CheckContactLists(f, cs).value;
            Decide(id, f, cs, rs) ==
            Matched(id, f, Verdict(c.targetCategory, c.recommendedAction, 95, Base(c.priority) + 15, false),
                    ContactHit(c), "contact_lists_" + c.listType)
  {
    ContactHitScore(CheckContactLists(f, cs).value.priority);
  }

  /** Without a contact hit, the best rule decides: confidence is the
      rule's precision (90 when absent or zero) and the score gets the
      precision bonus only. */
  lemma RuleHitDecision(id: Option<string>, f: FeatureMap, cs: seq<Contact>, rs: seq<Rule>)
    requires CheckContactLists(f, cs).None?
    requires CheckClassificationRules(f, rs).Some?
    ensures var m := CheckClassificationRules(f, rs).value;
            Decide(id, f, cs, rs) ==
            Matched(id, f,
                    Verdict(m.targetCategory, m.recommendedAction,
                            if m.precision.None? || m.precision.value == 0 then 90 else m.precision.value,
                            Base(m.priority) + PrecisionBonus(m.precision), false),
                    RuleHit(m), "classification_rules")
  {
  }

  /** When neither table matches, the e-mail goes to the AI classifier. */
  lemma NoMatchFallsBack(id: Option<string>, f: FeatureMap, cs: seq<Contact>, rs: seq<Rule>)
    requires forall i | 0 <= i < |cs| :: !ContactMatches(f, cs[i])
    requires forall i | 0 <= i < |rs| :: !RuleMatches(f, rs[i])
    ensures Decide(id, f, cs, rs) == Unmatched(id, f, NeedsAi, NoMatchReason)
  {
  }

  /** Empty tables send every e-mail to the AI classifier. */
  lemma EmptyTablesFallBack(e: Email)
    ensures ApplyGateway(e, [], []) == Unmatched(e.messageId, ExtractFeatures(e), NeedsAi, NoMatchReason)
  {
    NoMatchFallsBack(e.messageId, ExtractFeatures(e), [], []);
  }

  /** The two and only two ways to reach the AI hand-off. */
  lemma NeedsAiExactly(id: Option<string>, f: FeatureMap, cs: seq<Contact>, rs: seq<Rule>)
    ensures Decide(id, f, cs, rs).source == NeedsAi <==>
            || ((forall i | 0 <= i < |cs| :: !ContactMatches(f, cs[i])) &&
                (forall i | 0 <= i < |rs| :: !RuleMatches(f, rs[i])))
            || (&& CheckContactLists(f, cs).Some?
                && CheckContactLists(f, cs).value.listType == "vip_finance"
                && LooksPersonal(SenderLocalPart(f))
                && !IsVipPersonal(f, cs))
  {
  }

  // ---------------------------------------------------------------------
  // The vip_finance carve-out
  // ---------------------------------------------------------------------

  /** A personal-looking sender from a `vip_finance` domain is promoted to
      business_critical when a `vip_personal` entry names the address, and
      handed to the AI classifier otherwise. */
  lemma VipFinancePersonalSender(id: Option<string>, f: FeatureMap, cs: seq<Contact>, rs: seq<Rule>)
    requires CheckContactLists(f, cs).Some?
    requires CheckContactLists(f, cs).value.listType == "vip_finance"
    requires LooksPersonal(SenderLocalPart(f))
    ensures IsVipPersonal(f, cs) ==>
              Decide(id, f, cs, rs) ==
              Matched(id, f, Verdict("business_critical", "review", 95, 90, false),
                      VipPersonalHit, "contact_lists_vip_personal")
    ensures !IsVipPersonal(f, cs) ==> Decide(id, f, cs, rs) == Unmatched(id, f, NeedsAi, VipSuppressReason)
  {
  }

  /** A sender whose local part starts with a generic prefix is never
      treated as a person, dots or not. */
  lemma GenericPrefixNotPersonal(local: string, p: string)
    requires p in GenericPrefixes && StartsWith(local, p)
    ensures !LooksPersonal(local)
  {
  }

  /** The local part `jane.doe` looks personal; `noreply.bank` and `jane`
      do not. */
  lemma PersonalLooksExamples()
    ensures LooksPersonal("jane.doe")
    ensures !LooksPersonal("noreply.bank")
    ensures !LooksPersonal("jane")
  {
    assert StartsWith("noreply.bank", GenericPrefixes[0]);
    forall p | p in GenericPrefixes ensures !StartsWith("jane.doe", p) {
      assert p[0] != 'j';
    }
    assert "jane.doe"[4] == '.';
  }

  function JaneFeatures(): FeatureMap {
    FeatureMap(Some("jane.doe@example.com"), None, None, Some("example.com"), None, None, None, None, None)
  }

  /** The finance domain `example.com`, registered as `vip_finance`. */
  function FinanceEntry(): Contact {
    Contact("from_domain", "example.com", "vip_finance", "business_critical", "review", 20, "")
  }

  /** A `vip_personal` entry for `jane.doe@example.com`. */
  function PersonalEntry(priority: int): Contact {
    Contact("from_address", "jane.doe@example.com", "vip_personal", "personal", "review", priority, "")
  }

  lemma JaneLooksPersonal()
    ensures SenderLocalPart(JaneFeatures()) == "jane.doe"
    ensures LooksPersonal(SenderLocalPart(JaneFeatures()))
    ensures ContactMatches(JaneFeatures(), FinanceEntry())
    ensures forall p :: ContactMatches(JaneFeatures(), PersonalEntry(p))
  {
    assert "jane.doe@example.com" == "jane.doe" + ['@'] + "example.com";
    BeforeAfterOfJoin("jane.doe", '@', "example.com");
    PersonalLooksExamples();
  }

  /** Both the finance entry and her own entry match her e-mail. */
  lemma JaneEntriesMatch(priority: int)
    ensures ContactMatches(JaneFeatures(), FinanceEntry())
    ensures ContactMatches(JaneFeatures(), PersonalEntry(priority))
  {
  }

  /** `jane.doe@example.com` writing from a `vip_finance` domain, with no
      `vip_personal` entry for her, goes to the AI classifier. */
  lemma JaneDoeSuppressed(id: Option<string>, rs: seq<Rule>)
    ensures Decide(id, JaneFeatures(), [FinanceEntry()], rs) == Unmatched(id, JaneFeatures(), NeedsAi, VipSuppressReason)
  {
    var f := JaneFeatures();
    JaneLooksPersonal();
    Contacts.WinnerIsReturned(f, [FinanceEntry()], 0);
    assert !IsVipPersonal(f, [FinanceEntry()]);
    assert VipPolicy(f, [FinanceEntry()]) == Suppress;
    assert Decide(id, f, [FinanceEntry()], rs) == ContactTier(id, f, [FinanceEntry()], FinanceEntry());
  }

  /** With a `vip_personal` entry for her of a larger priority number, the
      finance entry still wins and she is promoted to business_critical. */
  lemma JaneDoePromoted(id: Option<string>, rs: seq<Rule>)
    ensures Decide(id, JaneFeatures(), [FinanceEntry(), PersonalEntry(30)], rs) ==
            Matched(id, JaneFeatures(), Verdict("business_critical", "review", 95, 90, false),
                    VipPersonalHit, "contact_lists_vip_personal")
  {
    var f := JaneFeatures();
    var cs := [FinanceEntry(), PersonalEntry(30)];
    JaneFinanceEntryIsWinner();
    JaneLooksPersonal();
    assert cs[1] == PersonalEntry(30);
    assert IsVipPersonal(f, cs);
    assert VipPolicy(f, cs) == Promote;
    assert Decide(id, f, cs, rs) == ContactTier(id, f, cs, FinanceEntry());
  }

  lemma JaneFinanceEntryIsWinner()
    ensures CheckContactLists(JaneFeatures(), [FinanceEntry(), PersonalEntry(30)]) == Some(FinanceEntry())
  {
    var cs := [FinanceEntry(), PersonalEntry(30)];
    JaneEntriesMatch(30);
    assert cs[0] == FinanceEntry() && cs[1] == PersonalEntry(30);
    forall j | 0 <= j < |cs| && ContactMatches(JaneFeatures(), cs[j])
      ensures cs[0].priority <= cs[j].priority
    {
      assert j == 0 || j == 1;
    }
    assert Contacts.Wins(JaneFeatures(), cs, 0);
    Contacts.WinnerIsReturned(JaneFeatures(), cs, 0);
  }

  /** With a smaller priority number, her own entry wins and decides with
      its own category, under the same source label. */
  lemma JaneDoeOwnEntryWins(id: Option<string>, rs: seq<Rule>)
    ensures Decide(id, JaneFeatures(), [FinanceEntry(), PersonalEntry(10)], rs) ==
            Matched(id, JaneFeatures(), Verdict("personal", "review", 95, 95, false),
                    ContactHit(PersonalEntry(10)), "contact_lists_vip_personal")
  {
    var f := JaneFeatures();
    var cs := [FinanceEntry(), PersonalEntry(10)];
    JaneOwnEntryIsWinner();
    assert cs[1].listType != "vip_finance" by {
      assert cs[1].listType[4] != "vip_finance"[4];
    }
    ContactHitDecision(id, f, cs, rs);
    assert cs[1].listType == "vip_personal";
    PersonalSourceLabel();
    assert Base(cs[1].priority) + 15 == 95;
  }

  lemma JaneOwnEntryIsWinner()
    ensures CheckContactLists(JaneFeatures(), [FinanceEntry(), PersonalEntry(10)]) == Some(PersonalEntry(10))
  {
    var cs := [FinanceEntry(), PersonalEntry(10)];
    JaneEntriesMatch(10);
    assert cs[0] == FinanceEntry() && cs[1] == PersonalEntry(10);
    forall j | 0 <= j < |cs| && ContactMatches(JaneFeatures(), cs[j])
      ensures cs[1].priority <= cs[j].priority
    {
      assert j == 0 || j == 1;
    }
    assert Contacts.Wins(JaneFeatures(), cs, 1);
    Contacts.WinnerIsReturned(JaneFeatures(), cs, 1);
  }

  lemma PersonalSourceLabel()
    ensures "contact_lists_" + "vip_personal" == "contact_lists_vip_personal"
  {
    var s := "contact_lists_" + "vip_personal";
    forall i | 0 <= i < |s| ensures s[i] == "contact_lists_vip_personal"[i] {
    }
  }

  // ---------------------------------------------------------------------
  // Relevance never reaches the score
  // ---------------------------------------------------------------------

  /** Tables that differ only in the rules' relevance give the same
      decision: the match record drops the field, so its bonus is never
      applied. */
  lemma {:induction false} RelevanceIgnored(id: Option<string>, f: FeatureMap, cs: seq<Contact>,
                                            rs: seq<Rule>, rs': seq<Rule>)
    requires |rs| == |rs'|
    requires forall i | 0 <= i < |rs| :: rs'[i] == rs[i].(relevance := rs'[i].relevance)
    ensures Decide(id, f, cs, rs) == Decide(id, f, cs, rs')
  {
    var ok := RulePred(f);
    assert forall r :: ok(r) == RuleMatches(f, r);
    FirstMinCongruent(rs, ok, RulePriority, rs', ok, RulePriority);
    var w := FirstMin(rs, ok, RulePriority);
    if w.Some? {
      assert ToMatch(rs[w.value]) == ToMatch(rs'[w.value]);
    }
  }

  /** Even a rule with relevance 80 or more scores no more than its tier's
      base plus the precision bonus. */
  lemma RuleScoreWithoutRelevanceBonus(id: Option<string>, f: FeatureMap, cs: seq<Contact>, rs: seq<Rule>)
    requires CheckContactLists(f, cs).None?
    requires CheckClassificationRules(f, rs).Some?
    ensures var d := Decide(id, f, cs, rs);
            var m := CheckClassificationRules(f, rs).value;
            d.Matched? && d.verdict.priorityScore <= Base(m.priority) + 10
  {
    RuleHitDecision(id, f, cs, rs);
  }
}
