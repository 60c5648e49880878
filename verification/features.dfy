/** The feature extractor (gateway_contact_lists_logic.js, lines 89-101)
    and the feature record both matchers read. */
module Features {
  import opened Wrappers
  import opened Text
  import opened Normalize

  /** The fields of an incoming e-mail the gateway reads; each may be
      absent. */
  datatype Email = Email(
    messageId: Option<string>,
    fromAddress: Option<string>,
    senderAddress: Option<string>,
    replyToAddress: Option<string>,
    fromDomain: Option<string>,
    messageIdHeader: Option<string>,
    listId: Option<string>,
    unsubscribeLink: Option<string>,
    precedence: Option<string>,
    autoSubmitted: Option<string>)

  /** The fixed-shape feature record. */
  datatype FeatureMap = FeatureMap(
    fromAddress: Option<string>,
    senderAddress: Option<string>,
    replyToAddress: Option<string>,
    fromDomain: Option<string>,
    messageIdDomain: Option<string>,
    listDomain: Option<string>,
    unsubDomain: Option<string>,
    precedence: Option<string>,
    autoSubmitted: Option<string>)

  /** The closed set of feature names. */
  datatype FeatureName =
    | FromAddress | SenderAddress | ReplyToAddress | FromDomain
    | MessageIdDomain | ListDomain | UnsubDomain | Precedence | AutoSubmitted

  /** The property name of a feature in the gateway's feature object. */
  function KeyOf(n: FeatureName): string {
    match n
    case FromAddress => "from_address"
    case SenderAddress => "sender_address"
    case ReplyToAddress => "reply_to_address"
    case FromDomain => "from_domain"
    case MessageIdDomain => "message_id_domain"
    case ListDomain => "list_domain"
    case UnsubDomain => "unsub_domain"
    case Precedence => "precedence"
    case AutoSubmitted => "auto_submitted"
  }

  /** The feature a rule's `feature` string names, if any. */
  function FeatureNamed(key: string): (r: Option<FeatureName>)
    ensures r.Some? ==> KeyOf(r.value) == key
  {
    if key == "from_address" then Some(FromAddress)
    else if key == "sender_address" then Some(SenderAddress)
    else if key == "reply_to_address" then Some(ReplyToAddress)
    else if key == "from_domain" then Some(FromDomain)
    else if key == "message_id_domain" then Some(MessageIdDomain)
    else if key == "list_domain" then Some(ListDomain)
    else if key == "unsub_domain" then Some(UnsubDomain)
    else if key == "precedence" then Some(Precedence)
    else if key == "auto_submitted" then Some(AutoSubmitted)
    else None
  }

  /** Every feature is found again under its own property name, so a
      string names a feature exactly when it is one of the nine keys. */
  lemma FeatureNamedRoundTrip(n: FeatureName, key: string)
    ensures FeatureNamed(KeyOf(n)) == Some(n)
    ensures FeatureNamed(key).None? <==> forall m: FeatureName :: KeyOf(m) != key
  {
  }

  function Get(f: FeatureMap, n: FeatureName): Option<string> {
    match n
    case FromAddress => f.fromAddress
    case SenderAddress => f.senderAddress
    case ReplyToAddress => f.replyToAddress
    case FromDomain => f.fromDomain
    case MessageIdDomain => f.messageIdDomain
    case ListDomain => f.listDomain
    case UnsubDomain => f.unsubDomain
    case Precedence => f.precedence
    case AutoSubmitted => f.autoSubmitted
  }

  /** `features[name]`: total, and absent for a name that is not a
      feature. */
  function Lookup(f: FeatureMap, key: string): (v: Option<string>)
    ensures (forall m: FeatureName :: KeyOf(m) != key) ==> v.None?
    ensures forall m: FeatureName :: KeyOf(m) == key ==> v == Get(f, m)
  {
    match FeatureNamed(key)
    case Some(n) => Get(f, n)
    case None => None
  }

  /** Every present feature is in lower case (the canonical form). */
  predicate Canonical(f: FeatureMap) {
    forall n: FeatureName :: Get(f, n).Some? ==> IsLower(Get(f, n).value)
  }

  /** An optional header lower-cased, when it is present. */
  function LowerOpt(x: Option<string>): (r: Option<string>)
    ensures r.Some? <==> x.Some?
    ensures r.Some? ==> IsLower(r.value) && |r.value| == |x.value|
    ensures r.Some? ==> forall i | 0 <= i < |x.value| :: r.value[i] == LowerChar(x.value[i])
  {
    match x
    case Some(v) => Some(Lower(v))
    case None => None
  }

  /** The sender domain: the declared domain in lower case when it is
      non-empty, otherwise the domain of the from address. */
  function SenderDomain(e: Email): Option<string> {
    if Falsy(e.fromDomain) then ExtractDomain(e.fromAddress) else LowerOpt(e.fromDomain)
  }

  /** `extractFeatures`. */
  function ExtractFeatures(e: Email): (f: FeatureMap)
    ensures Canonical(f)
    ensures f.fromAddress.Some? <==> !Falsy(e.fromAddress)
    ensures !Falsy(e.fromDomain) ==> f.fromDomain == Some(Lower(e.fromDomain.value))
    ensures Falsy(e.fromDomain) && f.fromDomain.Some? ==>
              f.fromAddress.Some? && f.fromAddress.value == LocalPart(f.fromAddress.value) + "@" + f.fromDomain.value
    ensures Falsy(e.fromDomain) && !Falsy(e.fromAddress) ==>
              (f.fromDomain.Some? <==> '@' in f.fromAddress.value)
    ensures f.precedence.Some? <==> e.precedence.Some?
    ensures f.autoSubmitted.Some? <==> e.autoSubmitted.Some?
    ensures f.precedence.Some? ==> f.precedence.value == Lower(e.precedence.value)
    ensures f.autoSubmitted.Some? ==> f.autoSubmitted.value == Lower(e.autoSubmitted.value)
    ensures f.fromAddress == NormalizeEmail(e.fromAddress)
    ensures f.senderAddress == NormalizeEmail(e.senderAddress)
    ensures f.replyToAddress == NormalizeEmail(e.replyToAddress)
    ensures Falsy(e.fromDomain) ==> f.fromDomain == ExtractDomain(e.fromAddress)
    ensures f.messageIdDomain == ExtractMessageIdDomain(e.messageIdHeader)
    ensures f.listDomain == ExtractListDomain(e.listId)
    ensures f.unsubDomain == ExtractUnsubDomain(e.unsubscribeLink)
  {
    var f := FeatureMap(
      NormalizeEmail(e.fromAddress),
      NormalizeEmail(e.senderAddress),
      NormalizeEmail(e.replyToAddress),
      SenderDomain(e),
      ExtractMessageIdDomain(e.messageIdHeader),
      ExtractListDomain(e.listId),
      ExtractUnsubDomain(e.unsubscribeLink),
      LowerOpt(e.precedence),
      LowerOpt(e.autoSubmitted));
    assert IsLowerOpt(f.fromDomain) by {
      if !Falsy(e.fromDomain) {
        assert f.fromDomain == LowerOpt(e.fromDomain);
      }
    }
    FieldsLowerIsCanonical(f);
    f
  }

  predicate IsLowerOpt(x: Option<string>) {
    x.Some? ==> IsLower(x.value)
  }

  lemma FieldsLowerIsCanonical(f: FeatureMap)
    requires IsLowerOpt(f.fromAddress) && IsLowerOpt(f.senderAddress) && IsLowerOpt(f.replyToAddress)
    requires IsLowerOpt(f.fromDomain) && IsLowerOpt(f.messageIdDomain) && IsLowerOpt(f.listDomain)
    requires IsLowerOpt(f.unsubDomain) && IsLowerOpt(f.precedence) && IsLowerOpt(f.autoSubmitted)
    ensures Canonical(f)
  {
    forall n: FeatureName ensures IsLowerOpt(Get(f, n)) {
    }
  }
}
