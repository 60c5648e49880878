/** The contact-list matcher `checkContactLists`
    (gateway_contact_lists_logic.js, lines 107-159). */
module Contacts {
  import opened Wrappers
  import opened Text
  import opened Features
  import opened Selection

  /** A row of the contact-list registry. Lower priority numbers win. */
  datatype Contact = Contact(
    identifierType: string,
    identifierValue: string,
    listType: string,
    targetCategory: string,
    recommendedAction: string,
    priority: int,
    notes: string)

  /** The identifier types the matcher's `switch` knows. */
  datatype IdentifierType =
    | ByFromAddress | ByFromAddressContains | ByFromDomain
    | ByMessageIdDomain | ByListDomain | ByUnsubDomain

  function IdentifierTypeNamed(s: string): Option<IdentifierType> {
    if s == "from_address" then Some(ByFromAddress)
    else if s == "from_address_contains" then Some(ByFromAddressContains)
    else if s == "from_domain" then Some(ByFromDomain)
    else if s == "message_id_domain" then Some(ByMessageIdDomain)
    else if s == "list_domain" then Some(ByListDomain)
    else if s == "unsub_domain" then Some(ByUnsubDomain)
    else None
  }

  /** The predicate keyed by the entry's identifier type. Every value is a
      string, so an absent feature never equals it; an unknown type falls
      through the `switch` and never matches. */
  predicate ContactMatches(f: FeatureMap, c: Contact): (b: bool)
    ensures IdentifierTypeNamed(c.identifierType).None? ==> !b
    ensures IdentifierTypeNamed(c.identifierType).Some? && c.identifierType != "from_address_contains" ==>
              (b <==> Lookup(f, c.identifierType) == Some(c.identifierValue))
    ensures c.identifierType == "from_address_contains" ==>
              (b <==> f.fromAddress.Some? && exists i: nat | i <= |f.fromAddress.value| :: OccursAt(f.fromAddress.value, c.identifierValue, i))
  {
    match IdentifierTypeNamed(c.identifierType)
    case None => false
    case Some(ByFromAddress) => f.fromAddress == Some(c.identifierValue)
    case Some(ByFromAddressContains) => f.fromAddress.Some? && Contains(f.fromAddress.value, c.identifierValue)
    case Some(ByFromDomain) => f.fromDomain == Some(c.identifierValue)
    case Some(ByMessageIdDomain) => f.messageIdDomain == Some(c.identifierValue)
    case Some(ByListDomain) => f.listDomain == Some(c.identifierValue)
    case Some(ByUnsubDomain) => f.unsubDomain == Some(c.identifierValue)
  }

  function MatchPred(f: FeatureMap): Contact -> bool {
    (c: Contact) => ContactMatches(f, c)
  }

  function PriorityOf(c: Contact): int {
    c.priority
  }

  /** Entry i is the one the matcher returns: it matches, no matching entry
      has a smaller priority number, and every matching entry before it has
      a strictly larger one. */
  predicate Wins(f: FeatureMap, cs: seq<Contact>, i: nat) {
    && i < |cs| && ContactMatches(f, cs[i])
    && (forall j | 0 <= j < |cs| && ContactMatches(f, cs[j]) :: cs[i].priority <= cs[j].priority)
    && (forall j | 0 <= j < i && ContactMatches(f, cs[j]) :: cs[i].priority < cs[j].priority)
  }

  lemma WinsIsFirstMin(f: FeatureMap, cs: seq<Contact>, i: nat)
    ensures Wins(f, cs, i) <==> IsFirstMin(cs, MatchPred(f), PriorityOf, i)
  {
    assert forall c :: MatchPred(f)(c) == ContactMatches(f, c);
  }

  /** `checkContactLists`. */
  function CheckContactLists(f: FeatureMap, cs: seq<Contact>): (r: Option<Contact>)
    ensures r.None? <==> forall i | 0 <= i < |cs| :: !ContactMatches(f, cs[i])
    ensures r.Some? ==> exists i | 0 <= i < |cs| :: cs[i] == r.value && Wins(f, cs, i)
    ensures r.Some? ==> IdentifierTypeNamed(r.value.identifierType).Some?
  {
    var ok := MatchPred(f);
    assert forall c :: ok(c) == ContactMatches(f, c);
    var w := FirstMin(cs, ok, PriorityOf);
    if w.Some? then
      WinsIsFirstMin(f, cs, w.value);
      Some(cs[w.value])
    else None
  }

  /** Conversely, the entry that wins is the one returned. */
  lemma WinnerIsReturned(f: FeatureMap, cs: seq<Contact>, i: nat)
    requires Wins(f, cs, i)
    ensures CheckContactLists(f, cs) == Some(cs[i])
  {
    var r := CheckContactLists(f, cs);
    assert r.Some?;
    var k :| 0 <= k < |cs| && cs[k] == r.value && Wins(f, cs, k);
    WinsIsFirstMin(f, cs, i);
    WinsIsFirstMin(f, cs, k);
    FirstMinUnique(cs, MatchPred(f), PriorityOf, i, k);
  }

  /** The one-pass selection returns what the gateway's code returns:
      the head of the matches after a stable sort by priority. */
  lemma CheckContactListsIsSortHead(f: FeatureMap, cs: seq<Contact>)
    ensures var sorted := SortByKey(Filter(cs, MatchPred(f)), PriorityOf);
            CheckContactLists(f, cs) == if sorted == [] then None else Some(sorted[0])
  {
    FirstMinIsSortHead(cs, MatchPred(f), PriorityOf);
  }

  /** Entries whose identifier type the `switch` does not know never
      match. */
  lemma UnknownTypeNeverMatches(f: FeatureMap, c: Contact)
    requires IdentifierTypeNamed(c.identifierType).None?
    ensures !ContactMatches(f, c)
  {
  }

  /** `includes('')` is true, so an empty `from_address_contains` value
      matches every present sender. */
  lemma EmptyContainsMatchesAnySender(f: FeatureMap, c: Contact)
    requires c.identifierType == "from_address_contains" && c.identifierValue == ""
    ensures ContactMatches(f, c) <==> f.fromAddress.Some?
  {
    if f.fromAddress.Some? {
      assert OccursAt(f.fromAddress.value, "", 0);
    }
  }

  lemma OccurrenceOfLowerIsLower(hay: string, needle: string, i: nat)
    requires IsLower(hay) && OccursAt(hay, needle, i)
    ensures IsLower(needle)
  {
    SliceOfLowerIsLower(hay, i, i + |needle|);
  }

  /** Against canonical (lower-case) features, an entry whose value has an
      upper-case letter never matches. */
  lemma UpperCaseValueNeverMatches(f: FeatureMap, c: Contact)
    requires Canonical(f) && !IsLower(c.identifierValue)
    ensures !ContactMatches(f, c)
  {
    assert IsLowerOpt(Get(f, FromAddress)) && IsLowerOpt(Get(f, FromDomain)) && IsLowerOpt(Get(f, MessageIdDomain));
    assert IsLowerOpt(Get(f, ListDomain)) && IsLowerOpt(Get(f, UnsubDomain));
    if IdentifierTypeNamed(c.identifierType) == Some(ByFromAddressContains) && f.fromAddress.Some? {
      if Contains(f.fromAddress.value, c.identifierValue) {
        var i: nat :| i <= |f.fromAddress.value| && OccursAt(f.fromAddress.value, c.identifierValue, i);
        OccurrenceOfLowerIsLower(f.fromAddress.value, c.identifierValue, i);
      }
    }
  }

  /** So a registry row stored with upper-case letters is dead: it matches
      no e-mail at all. */
  lemma UpperCaseEntryIsDead(e: Email, c: Contact)
    requires !IsLower(c.identifierValue)
    ensures !ContactMatches(ExtractFeatures(e), c)
  {
    UpperCaseValueNeverMatches(ExtractFeatures(e), c);
  }

  /** An address-contains entry `pasi.penkkala` matches
      `pasi.penkkala@anycompany.com` and not `other@anycompany.com`. */
  lemma AddressContainsExample(f: FeatureMap, g: FeatureMap, c: Contact)
    requires c.identifierType == "from_address_contains" && c.identifierValue == "pasi.penkkala"
    requires f.fromAddress == Some("pasi.penkkala@anycompany.com")
    requires g.fromAddress == Some("other@anycompany.com")
    ensures ContactMatches(f, c)
    ensures !ContactMatches(g, c)
  {
    assert OccursAt("pasi.penkkala@anycompany.com", "pasi.penkkala", 0);
    var hay := "other@anycompany.com";
    forall i: nat | i <= |hay| ensures !OccursAt(hay, "pasi.penkkala", i) {
      if i + 13 <= |hay| {
        assert hay[i] != 'p';
        assert hay[i..i + 13][0] == hay[i];
      }
    }
  }
}
