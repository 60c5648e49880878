/** Properties of the normalisers that relate them to the shapes of text
    they are meant to handle. */
module NormalizeProps {
  import opened Wrappers
  import opened Text
  import opened Patterns
  import opened Normalize

  /** One step of `NormalizeEmail` on a present, non-empty input. */
  lemma NormalizeEmailUnfold(raw: string)
    requires raw != ""
    ensures var a := Unwrap(Trim(Lower(raw)));
            NormalizeEmail(Some(raw)) == Some(if '@' in a then StripTag(a) else a)
  {
  }

  lemma NoAngleGroupWithoutLt(t: string)
    requires '<' !in t
    ensures AngleGroup(t).None?
  {
    assert forall i | 0 <= i < |t| :: AngleAt(t, i).None?;
  }

  /** An address already in canonical form (lower case, no surrounding
      white space, no `<`, one `@` at most, no `+tag`) is left as it is:
      normalising is the identity on its own canonical outputs of this
      shape. */
  lemma NormalizeEmailFixesCanonical(a: string)
    requires a != "" && IsLower(a) && '<' !in a
    requires !IsSpace(a[0]) && !IsSpace(a[|a| - 1])
    requires SingleAtTagFree(a)
    ensures NormalizeEmail(Some(a)) == Some(a)
  {
    TrimOfTrimmed(a);
    NoAngleGroupWithoutLt(a);
    if '@' in a {
      BeforeAfterOfJoin(LocalPart(a), '@', After(a, '@'));
    }
  }

  /** Input without `@` and without `<` only loses its case and its
      surrounding white space. */
  lemma NormalizeEmailWithoutAt(raw: string)
    requires raw != "" && '@' !in raw && '<' !in raw
    ensures NormalizeEmail(Some(raw)) == Some(Trim(Lower(raw)))
  {
    var l := Lower(raw);
    LowerKeepsNonLetter(raw, '@');
    LowerKeepsNonLetter(raw, '<');
    var t := Trim(l);
    var a: nat :| TrimmedAt(l, t, a);
    assert '<' !in t && '@' !in t by {
      assert forall k | 0 <= k < |t| :: t[k] == l[a + k];
    }
    NoAngleGroupWithoutLt(t);
  }

  /** A plain address `local+tag@domain`, in any case and with surrounding
      white space, normalises to `local@domain`. */
  lemma NormalizeEmailOfPlainForm(raw: string, local: string, tag: string, domain: string)
    requires raw != ""
    requires Trim(Lower(raw)) == local + tag + "@" + domain
    requires '<' !in local && '<' !in tag && '<' !in domain
    requires '@' !in local && '@' !in tag && '@' !in domain
    requires '+' !in local && (tag == [] || tag[0] == '+')
    ensures NormalizeEmail(Some(raw)) == Some(local + "@" + domain)
  {
    NoAngleGroupWithoutLt(local + tag + "@" + domain);
    StripTagOfParts(local, tag, domain);
    NormalizeEmailUnfold(raw);
  }

  /** The plain form of the gateway's own example. */
  lemma NormalizeEmailPlainExample()
    ensures NormalizeEmail(Some("john+tag@example.com")) == Some("john@example.com")
  {
    PlainExampleShape();
    NormalizeEmailOfPlainForm("john+tag@example.com", "john", "+tag", "example.com");
  }

  lemma PlainExampleShape()
    ensures Trim(Lower("john+tag@example.com")) == "john" + "+tag" + "@" + "example.com"
    ensures "john" + "@" + "example.com" == "john@example.com"
    ensures '<' !in "john" && '<' !in "+tag" && '<' !in "example.com"
    ensures '@' !in "john" && '@' !in "+tag" && '@' !in "example.com"
    ensures '+' !in "john" && "+tag"[0] == '+'
  {
    PlainExampleTrimmed();
    assert "john+tag@example.com" == "john" + "+tag" + "@" + "example.com";
  }

  lemma PlainExampleTrimmed()
    ensures Trim(Lower("john+tag@example.com")) == "john+tag@example.com"
  {
    var raw := "john+tag@example.com";
    assert IsLower(raw);
    assert Lower(raw) == raw;
    assert !IsSpace(raw[0]) && !IsSpace(raw[|raw| - 1]);
    TrimOfTrimmed(raw);
  }

  /** `Before(local + tag, '+')` removes a `+tag` suffix. */
  lemma DropTag(local: string, tag: string)
    requires '+' !in local
    requires tag == [] || tag[0] == '+'
    ensures Before(local + tag, '+') == local
  {
    if tag == [] {
      assert local + tag == local;
    } else {
      assert local + tag == local + ['+'] + tag[1..];
      BeforeAfterOfJoin(local, '+', tag[1..]);
    }
  }

  /** The first `<...>` group of `name<inner>` is `inner` when `name` has
      no `<` and `inner` no `>`. */
  lemma AngleGroupOfDisplayForm(l: string, name: string, inner: string)
    requires l == name + "<" + inner + ">"
    requires '<' !in name && '>' !in inner && inner != []
    ensures AngleGroup(l) == Some(inner)
  {
    var i := |name|;
    assert l[i] == '<';
    assert l[i + 1..i + 1 + |inner|] == inner;
    assert l[i + 1 + |inner|] == '>';
    assert forall k | 0 <= k < |inner| :: NotGt(inner[k]);
    assert MaximalRun(l, i + 1, inner, NotGt);
    assert AngleShape(l, i, inner);
    AngleAtSpec(l, i, inner);
    forall j | 0 <= j < i ensures AngleAt(l, j).None? {
      assert l[j] == name[j];
    }
    AngleGroupIs(l, i);
  }

  /** Trimming leaves `name<inner>` alone, and unwrapping keeps `inner`. */
  lemma UnwrapOfDisplayForm(l: string, name: string, inner: string)
    requires l == name + "<" + inner + ">"
    requires '<' !in name && (name == [] || !IsSpace(name[0]))
    requires '>' !in inner && inner != []
    ensures Unwrap(Trim(l)) == inner
  {
    DisplayFormTrimmed(l, name, inner);
    AngleGroupOfDisplayForm(l, name, inner);
  }

  lemma StripTagOfParts(local: string, tag: string, domain: string)
    requires '@' !in local && '@' !in tag && '@' !in domain
    requires '+' !in local && (tag == [] || tag[0] == '+')
    ensures '@' in local + tag + "@" + domain
    ensures StripTag(local + tag + "@" + domain) == local + "@" + domain
  {
    var inner := local + tag + "@" + domain;
    assert inner == (local + tag) + ['@'] + domain;
    assert inner[|local + tag|] == '@';
    BeforeAfterOfJoin(local + tag, '@', domain);
    DropTag(local, tag);
  }

  /** The display-name form `Name <local+tag@domain>` normalises to
      `local@domain`, whatever the case of the input. */
  lemma NormalizeEmailOfDisplayForm(raw: string, name: string, local: string, tag: string, domain: string)
    requires Lower(raw) == name + "<" + local + tag + "@" + domain + ">"
    requires '<' !in name && (name == [] || !IsSpace(name[0]))
    requires '>' !in local && '>' !in tag && '>' !in domain
    requires '@' !in local && '@' !in tag && '@' !in domain
    requires '+' !in local && (tag == [] || tag[0] == '+')
    ensures NormalizeEmail(Some(raw)) == Some(local + "@" + domain)
  {
    var inner := local + tag + "@" + domain;
    assert '>' !in inner;
    UnwrapOfDisplayForm(Lower(raw), name, inner);
    StripTagOfParts(local, tag, domain);
    NormalizeEmailUnfold(raw);
  }

  lemma DisplayFormTrimmed(l: string, name: string, inner: string)
    requires l == name + "<" + inner + ">"
    requires name == [] || !IsSpace(name[0])
    ensures Trim(l) == l
  {
    assert l[0] == (if name == [] then '<' else name[0]);
    assert l[|l| - 1] == '>';
    TrimOfTrimmed(l);
  }

  /** The example of the gateway's own comments. */
  lemma NormalizeEmailExample()
    ensures NormalizeEmail(Some("John Doe <john+promo@Example.COM>")) == Some("john@example.com")
  {
    ExampleShape();
    NormalizeEmailOfDisplayForm("John Doe <john+promo@Example.COM>", "john doe ", "john", "+promo", "example.com");
  }

  lemma ExampleShape()
    ensures Lower("John Doe <john+promo@Example.COM>") == "john doe " + "<" + "john" + "+promo" + "@" + "example.com" + ">"
    ensures "john" + "@" + "example.com" == "john@example.com"
    ensures '<' !in "john doe " && !IsSpace("john doe "[0])
    ensures '>' !in "john" && '>' !in "+promo" && '>' !in "example.com"
    ensures '@' !in "john" && '@' !in "+promo" && '@' !in "example.com"
    ensures '+' !in "john" && "+promo"[0] == '+'
  {
    assert "john doe <john+promo@example.com>" == "john doe " + "<" + "john" + "+promo" + "@" + "example.com" + ">";
    LowerOfExample();
  }

  lemma LowerOfExample()
    ensures Lower("John Doe <john+promo@Example.COM>") == "john doe <john+promo@example.com>"
  {
  }

  // ---------------------------------------------------------------------
  // Header domains
  // ---------------------------------------------------------------------

  /** An `@` that starts a message-id match: followed by a character other
      than `>`. */
  predicate MsgIdAnchor(h: string, j: nat) {
    j + 1 < |h| && h[j] == '@' && h[j + 1] != '>'
  }

  /** The message-id domain is taken from the FIRST `@` that is followed
      by a character other than `>`, and runs up to the next `>` or the
      end; later `@`s are part of it. */
  lemma MessageIdDomainFromFirstAt(h: string, i: nat, g: string)
    requires MsgIdShape(h, i, g)
    requires forall j | 0 <= j < i :: !MsgIdAnchor(h, j)
    ensures ExtractMessageIdDomain(Some(h)) == Some(Lower(g))
  {
    MsgIdAtSpec(h, i, g);
    forall j | 0 <= j < i ensures MsgIdAt(h, j).None? {
      assert !MsgIdAnchor(h, j);
      MsgIdAtSucceeds(h, j);
    }
    MsgIdGroupIs(h, i);
  }

  /** No message-id domain exactly when no `@` is followed by a character
      other than `>`. */
  lemma MessageIdDomainAbsent(h: string)
    ensures ExtractMessageIdDomain(Some(h)).None? <==> forall j | 0 <= j < |h| :: !MsgIdAnchor(h, j)
  {
    forall j | 0 <= j < |h| ensures MsgIdAt(h, j).None? <==> !MsgIdAnchor(h, j) {
      MsgIdAtSucceeds(h, j);
    }
  }

  /** The list domain is the lower-cased first `<...>` group. */
  lemma ListDomainFromFirstGroup(h: string, i: nat, g: string)
    requires AngleShape(h, i, g)
    requires forall j | 0 <= j < i :: AngleAt(h, j).None?
    ensures ExtractListDomain(Some(h)) == Some(Lower(g))
  {
    AngleAtSpec(h, i, g);
    AngleGroupIs(h, i);
  }

  // ---------------------------------------------------------------------
  // Unsubscribe domain: http(s) host, then mailto, then bare `@`
  // ---------------------------------------------------------------------

  /** An http(s) host anywhere wins over every `mailto:` and `@`. */
  lemma UnsubPrefersHttp(s: string, i: nat, g: string)
    requires HttpShape(s, i, g)
    requires forall j | 0 <= j < i :: HttpAt(s, j).None?
    ensures ExtractUnsubDomain(Some(s)) == Some(Lower(g))
  {
    HttpAtSpec(s, i, g);
    HttpHostIs(s, i);
  }

  /** Without an http(s) host, the first `mailto:` that has a viable `@`
      decides, through the LAST viable `@` on its line. */
  lemma UnsubFallsBackToMailto(s: string, i: nat, k: nat, g: string)
    requires forall j | 0 <= j < |s| :: HttpAt(s, j).None?
    requires MailtoShape(s, i, k, g)
    requires forall j | 0 <= j < i :: MailtoAt(s, j).None?
    ensures ExtractUnsubDomain(Some(s)) == Some(Lower(g))
  {
    MailtoAtSpec(s, i, k, g);
    assert HttpHost(s).None?;
    MailtoDomainIs(s, i);
  }

  /** With neither, the first `@` followed by a domain character decides. */
  lemma UnsubFallsBackToBare(s: string, i: nat, g: string)
    requires forall j | 0 <= j < |s| :: HttpAt(s, j).None? && MailtoAt(s, j).None?
    requires BareShape(s, i, g)
    requires forall j | 0 <= j < i :: !ViableAt(s, j)
    ensures ExtractUnsubDomain(Some(s)) == Some(Lower(g))
  {
    BareAtSpec(s, i, g);
    forall j | 0 <= j < i ensures BareAt(s, j).None? {
      BareAtSucceeds(s, j);
    }
    assert HttpHost(s).None? && MailtoDomain(s).None?;
    BareDomainIs(s, i);
  }
}
