/** The normalisers (gateway_contact_lists_logic.js, lines 31-83): they
    turn raw header text into the lower-case keys the matchers compare. */
module Normalize {
  import opened Wrappers
  import opened Text
  import opened Patterns

  /** JavaScript falsiness of an optional string: absent or empty. */
  predicate Falsy(x: Option<string>) {
    x.None? || x.value == ""
  }

  /** The local part of an address: everything before its first `@`. */
  function LocalPart(a: string): string {
    Before(a, '@')
  }

  /** The domain part of an address: what lies between its first `@` and
      the next one, or the end. */
  function DomainPart(a: string): string {
    Before(After(a, '@'), '@')
  }

  /** An address with exactly one `@` and no `+` before it. */
  predicate SingleAtTagFree(a: string) {
    '@' in a ==> '+' !in LocalPart(a) && '@' !in After(a, '@')
  }

  /** Display-name removal: the first `<...>` group when there is one. */
  function Unwrap(t: string): string {
    match AngleGroup(t)
    case Some(g) => g
    case None => t
  }

  /** The `+tag` removal applied once the address contains `@`: keep the
      local part up to its first `+`, then `@`, then the second piece of
      the split (anything after a second `@` is lost). */
  function StripTag(a: string): (r: string)
    requires '@' in a
    ensures '@' in r && SingleAtTagFree(r)
    ensures LocalPart(r) == Before(LocalPart(a), '+')
    ensures After(r, '@') == DomainPart(a)
  {
    var local := Before(LocalPart(a), '+');
    var domain := DomainPart(a);
    BeforeAfterOfJoin(local, '@', domain);
    local + "@" + domain
  }

  lemma UnwrapKeepsLower(t: string)
    requires IsLower(t)
    ensures IsLower(Unwrap(t))
  {
    if AngleGroup(t).Some? {
      var i :| 0 <= i < |t| && AngleAt(t, i) == AngleGroup(t);
      var g := AngleGroup(t).value;
      SliceOfLowerIsLower(t, i + 1, i + 1 + |g|);
    }
  }

  lemma StripTagKeepsLower(a: string)
    requires IsLower(a) && '@' in a
    ensures IsLower(StripTag(a))
  {
    var lp := LocalPart(a);
    var local := Before(lp, '+');
    assert local == a[..|local|];
    SliceOfLowerIsLower(a, 0, |local|);
    var rest := After(a, '@');
    assert rest == a[|lp| + 1..];
    SliceOfLowerIsLower(a, |lp| + 1, |a|);
    var domain := DomainPart(a);
    SliceOfLowerIsLower(rest, 0, |domain|);
    assert IsLower("@");
    JoinOfLowerIsLower(local, "@");
    JoinOfLowerIsLower(local + "@", domain);
  }

  /** `normalizeEmail`: lower-case and trim, keep the first `<...>` group,
      then drop the `+tag` of the local part. */
  function NormalizeEmail(addr: Option<string>): (r: Option<string>)
    ensures r.None? <==> Falsy(addr)
    ensures r.Some? ==> IsLower(r.value)
    ensures r.Some? ==> SingleAtTagFree(r.value)
  {
    if Falsy(addr) then None
    else
      var t := Trim(Lower(addr.value));
      TrimKeepsLower(Lower(addr.value));
      var a := Unwrap(t);
      UnwrapKeepsLower(t);
      if '@' in a then
        StripTagKeepsLower(a);
        Some(StripTag(a))
      else Some(a)
  }

  lemma DomainOfSingleAt(v: string)
    requires IsLower(v) && '@' in v && SingleAtTagFree(v)
    ensures DomainPart(v) == After(v, '@')
    ensures v == LocalPart(v) + "@" + DomainPart(v)
    ensures IsLower(DomainPart(v)) && '@' !in DomainPart(v)
  {
    assert After(v, '@') == v[|LocalPart(v)| + 1..];
    SliceOfLowerIsLower(v, |LocalPart(v)| + 1, |v|);
  }

  /** `extractDomain`: the domain of the normalised address. */
  function ExtractDomain(email: Option<string>): (r: Option<string>)
    ensures r.Some? <==> NormalizeEmail(email).Some? && '@' in NormalizeEmail(email).value
    ensures r.Some? ==> NormalizeEmail(email).value == LocalPart(NormalizeEmail(email).value) + "@" + r.value
    ensures r.Some? ==> IsLower(r.value) && '@' !in r.value
  {
    if Falsy(email) then None
    else
      var n := NormalizeEmail(email);
      if n.None? || n.value == "" || '@' !in n.value then None
      else
        DomainOfSingleAt(n.value);
        Some(DomainPart(n.value))
  }

  /** `extractMessageIdDomain`. */
  function ExtractMessageIdDomain(header: Option<string>): (r: Option<string>)
    ensures r.None? <==> Falsy(header) || forall i | 0 <= i < |header.value| :: MsgIdAt(header.value, i).None?
    ensures r.Some? ==> IsLower(r.value) && r.value != [] && '>' !in r.value
  {
    if Falsy(header) then None
    else
      match MsgIdGroup(header.value)
      case Some(g) =>
        var i :| 0 <= i < |header.value| && MsgIdAt(header.value, i) == Some(g);
        MsgIdCaptureHasNoGt(header.value, i);
        Some(Lower(g))
      case None => None
  }

  /** `extractListDomain`. */
  function ExtractListDomain(listId: Option<string>): (r: Option<string>)
    ensures r.None? <==> Falsy(listId) || forall i | 0 <= i < |listId.value| :: AngleAt(listId.value, i).None?
    ensures r.Some? ==> IsLower(r.value) && r.value != [] && '>' !in r.value
  {
    if Falsy(listId) then None
    else
      match AngleGroup(listId.value)
      case Some(g) =>
        var i :| 0 <= i < |listId.value| && AngleAt(listId.value, i) == Some(g);
        AngleCaptureHasNoGt(listId.value, i);
        Some(Lower(g))
      case None => None
  }

  /** `extractUnsubDomain`: an http(s) host, else a `mailto:` domain, else
      the domain after a bare `@`. */
  function ExtractUnsubDomain(link: Option<string>): (r: Option<string>)
    ensures r.None? <==> (Falsy(link) ||
              forall i | 0 <= i < |link.value| :: HttpAt(link.value, i).None? && !ViableAt(link.value, i))
    ensures r.Some? ==> IsLower(r.value) && DomainText(r.value)
  {
    if Falsy(link) then None
    else
      var s := link.value;
      match HttpHost(s)
      case Some(h) =>
        var i :| 0 <= i < |s| && HttpAt(s, i) == Some(h);
        HttpCaptureIsDomainText(s, i);
        LowerKeepsDomainText(h);
        Some(Lower(h))
      case None =>
        match MailtoDomain(s)
        case Some(m) =>
          var i :| 0 <= i < |s| && MailtoAt(s, i) == Some(m);
          MailtoCaptureIsDomainText(s, i);
          LowerKeepsDomainText(m);
          assert ViableAt(s, MailtoAtSign(s, i).value);
          Some(Lower(m))
        case None =>
          match BareDomain(s)
          case Some(b) =>
            var i :| 0 <= i < |s| && BareAt(s, i) == Some(b);
            BareCaptureIsDomainText(s, i);
            LowerKeepsDomainText(b);
            BareAtSucceeds(s, i);
            Some(Lower(b))
          case None =>
            assert forall i | 0 <= i < |s| :: !ViableAt(s, i) by {
              forall i | 0 <= i < |s| ensures !ViableAt(s, i) {
                BareAtSucceeds(s, i);
              }
            }
            None
  }
}
