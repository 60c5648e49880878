/** The decision arbiter `applyGateway` (gateway_contact_lists_logic.js,
    lines 214-324): contact lists first, then classification rules, then
    a hand-off to the AI classifier. */
module Gateway {
  import opened Wrappers
  import opened Text
  import opened Normalize
  import opened Features
  import opened Contacts
  import opened Rules
  import opened Score

  datatype Verdict = Verdict(
    primaryCategory: string,
    recommendedAction: string,
    confidence: int,
    priorityScore: int,
    requiresDeepAnalysis: bool)

  /** The `match_details` of a matched decision. */
  datatype MatchDetails =
    | ContactHit(contact: Contact)
    | RuleHit(rule: RuleMatch)
      /** source contact_lists, list type vip_personal, reason VipPersonalReason */
    | VipPersonalHit

  datatype Decision =
    | Matched(messageId: Option<string>, features: FeatureMap, verdict: Verdict,
              details: MatchDetails, source: string)
    | Unmatched(messageId: Option<string>, features: FeatureMap, source: string, reason: string)

  const NeedsAi: string := "needs_ai"
  const NoMatchReason: string := "no_matching_rules_or_contacts"
  const VipSuppressReason: string := "VIP finance domain but personal sender (not in vip_personal list)"
  const VipPersonalReason: string := "VIP personal contact from finance domain"
  const ContactConfidence: int := 95

  /** Local parts that mark a mailbox as generic rather than personal. */
  const GenericPrefixes: seq<string> :=
    ["noreply", "no-reply", "alerts", "newsletter", "info",
     "support", "notifications", "news", "updates", "marketing"]

  // ---------------------------------------------------------------------
  // VIP disambiguation
  // ---------------------------------------------------------------------

  /** The local part of the sender address; empty when there is none. */
  function SenderLocalPart(f: FeatureMap): string {
    if f.fromAddress.Some? then LocalPart(f.fromAddress.value) else ""
  }

  predicate IsGeneric(local: string) {
    exists p | p in GenericPrefixes :: StartsWith(local, p)
  }

  /** The heuristic for a person's name, such as `john.smith`. */
  predicate LooksPersonal(local: string) {
    !IsGeneric(local) && '.' in local
  }

  /** Some `vip_personal` entry carries the sender address, whatever its
      identifier type. */
  predicate IsVipPersonal(f: FeatureMap, cs: seq<Contact>) {
    exists c | c in cs :: c.listType == "vip_personal" && f.fromAddress == Some(c.identifierValue)
  }

  datatype VipOutcome = Promote | Suppress | FallThrough

  /** The carve-out applied when the winning contact is `vip_finance`. */
  function VipPolicy(f: FeatureMap, cs: seq<Contact>): VipOutcome {
    if !LooksPersonal(SenderLocalPart(f)) then FallThrough
    else if IsVipPersonal(f, cs) then Promote
    else Suppress
  }

  // ---------------------------------------------------------------------
  // Decisions
  // ---------------------------------------------------------------------

  function ContactDecision(id: Option<string>, f: FeatureMap, c: Contact): Decision {
    Matched(id, f,
            Verdict(c.targetCategory, c.recommendedAction, ContactConfidence,
                    PriorityScore(c.priority, Some(95), Some(90)), false),
            ContactHit(c), "contact_lists_" + c.listType)
  }

  /** A rule hit's confidence: its precision, or 90 when the precision is
      absent or zero. */
  function RuleConfidence(m: RuleMatch): int {
    if m.precision.None? || m.precision.value == 0 then 90 else m.precision.value
  }

  /** The match record carries no relevance, so `ruleMatch.relevance` is
      undefined and the score gets no relevance bonus. */
  function RuleDecision(id: Option<string>, f: FeatureMap, m: RuleMatch): Decision {
    Matched(id, f,
            Verdict(m.targetCategory, m.recommendedAction, RuleConfidence(m),
                    PriorityScore(m.priority, m.precision, None), false),
            RuleHit(m), "classification_rules")
  }

  /** The decision once contact entry `c` has won: the VIP carve-out for
      `vip_finance`, otherwise the entry's own verdict. */
  function ContactTier(id: Option<string>, f: FeatureMap, cs: seq<Contact>, c: Contact): Decision {
    var outcome := if c.listType == "vip_finance" then VipPolicy(f, cs) else FallThrough;
    if outcome == Promote then
      Matched(id, f, Verdict("business_critical", "review", 95, 90, false),
              VipPersonalHit, "contact_lists_vip_personal")
    else if outcome == Suppress then
      Unmatched(id, f, NeedsAi, VipSuppressReason)
    else
      assert ("contact_lists_" + c.listType)[0] != NeedsAi[0];
      ContactDecision(id, f, c)
  }

  /** The three tiers over already extracted features. */
  function Decide(id: Option<string>, f: FeatureMap, cs: seq<Contact>, rs: seq<Rule>): (d: Decision)
    ensures d.messageId == id && d.features == f
    ensures d.Unmatched? <==> d.source == NeedsAi
    ensures d.Unmatched? ==> d.reason == NoMatchReason || d.reason == VipSuppressReason
    ensures d.Matched? ==> !d.verdict.requiresDeepAnalysis && 40 <= d.verdict.priorityScore <= 95
    ensures d.Matched? && d.details.ContactHit? ==>
              d.verdict.confidence == ContactConfidence && d.source == "contact_lists_" + d.details.contact.listType
    ensures d.Matched? && d.details.RuleHit? ==> d.source == "classification_rules"
    ensures CheckContactLists(f, cs).Some? ==> !(d.Matched? && d.details.RuleHit?)
  {
    match CheckContactLists(f, cs)
    case Some(c) => ContactTier(id, f, cs, c)
    case None =>
      match CheckClassificationRules(f, rs)
      case Some(m) => RuleDecision(id, f, m)
      case None => Unmatched(id, f, NeedsAi, NoMatchReason)
  }

  /** `applyGateway`: the decision carries the e-mail's id and the features
      extracted from it. */
  function ApplyGateway(e: Email, cs: seq<Contact>, rs: seq<Rule>): (d: Decision)
    ensures d.messageId == e.messageId
    ensures d.features == ExtractFeatures(e) && Canonical(d.features)
    ensures d.Unmatched? <==> d.source == NeedsAi
  {
    Decide(e.messageId, ExtractFeatures(e), cs, rs)
  }
}
