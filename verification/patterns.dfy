/** The five regular expressions of the gateway's normalisers, written as
    explicit scans. For each pattern, `XAt(s, i)` is the attempt of the
    pattern anchored at position i (the captured group, or None), and the
    search function returns the capture of the leftmost successful
    attempt, as `String.prototype.match` without the `g` flag does.

    Each `XAt` is paired with a declarative `XShape` predicate saying which
    text the regular expression accepts at i, and a lemma proving the two
    agree. Greedy quantifiers over a negated character class can only stop
    at the end of the maximal run, which is why the scans use `RunEnd`. */
module Patterns {
  import opened Wrappers
  import opened Scan
  import opened Text

  // ---------------------------------------------------------------------
  // Character classes
  // ---------------------------------------------------------------------

  /** `[^>]` */
  predicate NotGt(c: char) {
    c != '>'
  }

  /** `[^\/>,;\s]`: a character of an http(s) host. */
  predicate HostChar(c: char) {
    c != '/' && c != '>' && c != ',' && c != ';' && !IsSpace(c)
  }

  /** `[^>,;\s]`: a character of a mail domain. */
  predicate DomainChar(c: char) {
    c != '>' && c != ',' && c != ';' && !IsSpace(c)
  }

  /** `.` */
  predicate DotChar(c: char) {
    !IsLineTerminator(c)
  }

  /** `g` is a non-empty run of `p`-characters at `start` that cannot be
      extended: what a greedy `[...]+` at the end of a pattern captures. */
  predicate MaximalRun(s: string, start: nat, g: string, p: char -> bool) {
    && start + |g| <= |s|
    && |g| > 0
    && s[start..start + |g|] == g
    && (forall k | 0 <= k < |g| :: p(g[k]))
    && (start + |g| == |s| || !p(s[start + |g|]))
  }

  lemma MaximalRunIsRunEnd(s: string, start: nat, g: string, p: char -> bool)
    requires start <= |s|
    ensures MaximalRun(s, start, g, p) <==>
              (start < RunEnd(s, start, p) && g == s[start..RunEnd(s, start, p)])
  {
    var e := RunEnd(s, start, p);
    if MaximalRun(s, start, g, p) {
      var f := start + |g|;
      assert forall j | start <= j < f :: p(s[j]) by {
        forall j | start <= j < f ensures p(s[j]) {
          assert s[j] == g[j - start];
        }
      }
    }
  }

  // ---------------------------------------------------------------------
  // /<([^>]+)>/
  // ---------------------------------------------------------------------

  function AngleAt(s: string, i: nat): Option<string> {
    if i < |s| && s[i] == '<' then
      var e := RunEnd(s, i + 1, NotGt);
      if i + 1 < e < |s| then Some(s[i + 1..e]) else None
    else None
  }

  /** `<`, then a group of one or more non-`>` characters, then `>`. */
  predicate AngleShape(s: string, i: nat, g: string) {
    && i < |s| && s[i] == '<'
    && MaximalRun(s, i + 1, g, NotGt)
    && i + 1 + |g| < |s|
  }

  lemma AngleAtSpec(s: string, i: nat, g: string)
    ensures AngleAt(s, i) == Some(g) <==> AngleShape(s, i, g)
  {
    if i < |s| && s[i] == '<' {
      MaximalRunIsRunEnd(s, i + 1, g, NotGt);
    }
  }

  /** The first `<...>` group of `s`. */
  function AngleGroup(s: string): (r: Option<string>)
    ensures r.None? <==> forall i | 0 <= i < |s| :: AngleAt(s, i).None?
    ensures r.Some? ==> exists i | 0 <= i < |s| ::
              AngleAt(s, i) == r && (forall j | 0 <= j < i :: AngleAt(s, j).None?)
  {
    var at := (i: nat) => AngleAt(s, i);
    assert forall i: nat :: at(i) == AngleAt(s, i);
    FirstMatch(|s|, at)
  }

  /** The leftmost successful attempt decides. */
  lemma AngleGroupIs(s: string, i: nat)
    requires i < |s| && AngleAt(s, i).Some?
    requires forall j | 0 <= j < i :: AngleAt(s, j).None?
    ensures AngleGroup(s) == AngleAt(s, i)
  {
    assert AngleGroup(s).Some?;
    var k: nat :| k < |s| && AngleAt(s, k) == AngleGroup(s) && (forall j | 0 <= j < k :: AngleAt(s, j).None?);
    assert k < i ==> AngleAt(s, k).None?;
    assert i < k ==> AngleAt(s, i).None?;
  }

  // ---------------------------------------------------------------------
  // /@([^>]+)>?/
  // ---------------------------------------------------------------------

  function MsgIdAt(s: string, i: nat): Option<string> {
    if i < |s| && s[i] == '@' then
      var e := RunEnd(s, i + 1, NotGt);
      if i + 1 < e then Some(s[i + 1..e]) else None
    else None
  }

  /** `@`, then the longest non-empty run of non-`>` characters; the
      optional `>` after it never changes the capture. */
  predicate MsgIdShape(s: string, i: nat, g: string) {
    i < |s| && s[i] == '@' && MaximalRun(s, i + 1, g, NotGt)
  }

  lemma MsgIdAtSpec(s: string, i: nat, g: string)
    ensures MsgIdAt(s, i) == Some(g) <==> MsgIdShape(s, i, g)
  {
    if i < |s| && s[i] == '@' {
      MaximalRunIsRunEnd(s, i + 1, g, NotGt);
    }
  }

  /** The attempt at i succeeds exactly at an `@` followed by a character
      other than `>`. */
  lemma MsgIdAtSucceeds(s: string, i: nat)
    ensures MsgIdAt(s, i).Some? <==> (i + 1 < |s| && s[i] == '@' && s[i + 1] != '>')
  {
  }

  function MsgIdGroup(s: string): (r: Option<string>)
    ensures r.None? <==> forall i | 0 <= i < |s| :: MsgIdAt(s, i).None?
    ensures r.Some? ==> exists i | 0 <= i < |s| ::
              MsgIdAt(s, i) == r && (forall j | 0 <= j < i :: MsgIdAt(s, j).None?)
  {
    var at := (i: nat) => MsgIdAt(s, i);
    assert forall i: nat :: at(i) == MsgIdAt(s, i);
    FirstMatch(|s|, at)
  }

  /** The leftmost successful attempt decides. */
  lemma MsgIdGroupIs(s: string, i: nat)
    requires i < |s| && MsgIdAt(s, i).Some?
    requires forall j | 0 <= j < i :: MsgIdAt(s, j).None?
    ensures MsgIdGroup(s) == MsgIdAt(s, i)
  {
    assert MsgIdGroup(s).Some?;
    var k: nat :| k < |s| && MsgIdAt(s, k) == MsgIdGroup(s) && (forall j | 0 <= j < k :: MsgIdAt(s, j).None?);
    assert k < i ==> MsgIdAt(s, k).None?;
    assert i < k ==> MsgIdAt(s, i).None?;
  }

  // ---------------------------------------------------------------------
  // /https?:\/\/([^\/>,;\s]+)/
  // ---------------------------------------------------------------------

  /** Length of the `http://` or `https://` scheme at i, or 0. */
  function SchemeLength(s: string, i: nat): (n: nat)
    ensures n == 0 || n == 7 || n == 8
    ensures n > 0 ==> i + n <= |s|
  {
    if i <= |s| && StartsWith(s[i..], "https://") then 8
    else if i <= |s| && StartsWith(s[i..], "http://") then 7
    else 0
  }

  function HttpAt(s: string, i: nat): Option<string> {
    var n := SchemeLength(s, i);
    if n > 0 then
      var e := RunEnd(s, i + n, HostChar);
      if i + n < e then Some(s[i + n..e]) else None
    else None
  }

  /** `http://` or `https://`, then the longest non-empty run of host
      characters. */
  predicate HttpShape(s: string, i: nat, g: string) {
    || (i <= |s| && StartsWith(s[i..], "https://") && MaximalRun(s, i + 8, g, HostChar))
    || (i <= |s| && StartsWith(s[i..], "http://") && MaximalRun(s, i + 7, g, HostChar))
  }

  lemma HttpAtSpec(s: string, i: nat, g: string)
    ensures HttpAt(s, i) == Some(g) <==> HttpShape(s, i, g)
  {
    var n := SchemeLength(s, i);
    if i <= |s| && StartsWith(s[i..], "https://") {
      assert s[i + 4] == 's';
      assert !StartsWith(s[i..], "http://") by { assert s[i..][4] == 's'; }
      MaximalRunIsRunEnd(s, i + 8, g, HostChar);
    } else if i <= |s| && StartsWith(s[i..], "http://") {
      MaximalRunIsRunEnd(s, i + 7, g, HostChar);
    }
  }

  function HttpHost(s: string): (r: Option<string>)
    ensures r.None? <==> forall i | 0 <= i < |s| :: HttpAt(s, i).None?
    ensures r.Some? ==> exists i | 0 <= i < |s| ::
              HttpAt(s, i) == r && (forall j | 0 <= j < i :: HttpAt(s, j).None?)
  {
    var at := (i: nat) => HttpAt(s, i);
    assert forall i: nat :: at(i) == HttpAt(s, i);
    FirstMatch(|s|, at)
  }

  /** The leftmost successful attempt decides. */
  lemma HttpHostIs(s: string, i: nat)
    requires i < |s| && HttpAt(s, i).Some?
    requires forall j | 0 <= j < i :: HttpAt(s, j).None?
    ensures HttpHost(s) == HttpAt(s, i)
  {
    assert HttpHost(s).Some?;
    var k: nat :| k < |s| && HttpAt(s, k) == HttpHost(s) && (forall j | 0 <= j < k :: HttpAt(s, j).None?);
    assert k < i ==> HttpAt(s, k).None?;
    assert i < k ==> HttpAt(s, i).None?;
  }

  // ---------------------------------------------------------------------
  // /@([^>,;\s]+)/
  // ---------------------------------------------------------------------

  function BareAt(s: string, i: nat): Option<string> {
    if i < |s| && s[i] == '@' then
      var e := RunEnd(s, i + 1, DomainChar);
      if i + 1 < e then Some(s[i + 1..e]) else None
    else None
  }

  predicate BareShape(s: string, i: nat, g: string) {
    i < |s| && s[i] == '@' && MaximalRun(s, i + 1, g, DomainChar)
  }

  lemma BareAtSpec(s: string, i: nat, g: string)
    ensures BareAt(s, i) == Some(g) <==> BareShape(s, i, g)
  {
    if i < |s| && s[i] == '@' {
      MaximalRunIsRunEnd(s, i + 1, g, DomainChar);
    }
  }

  /** An `@` that the bare pattern accepts: followed by a domain character. */
  predicate ViableAt(s: string, k: nat) {
    k + 1 < |s| && s[k] == '@' && DomainChar(s[k + 1])
  }

  lemma BareAtSucceeds(s: string, i: nat)
    ensures BareAt(s, i).Some? <==> ViableAt(s, i)
  {
  }

  function BareDomain(s: string): (r: Option<string>)
    ensures r.None? <==> forall i | 0 <= i < |s| :: BareAt(s, i).None?
    ensures r.Some? ==> exists i | 0 <= i < |s| ::
              BareAt(s, i) == r && (forall j | 0 <= j < i :: BareAt(s, j).None?)
  {
    var at := (i: nat) => BareAt(s, i);
    assert forall i: nat :: at(i) == BareAt(s, i);
    FirstMatch(|s|, at)
  }

  /** The leftmost successful attempt decides. */
  lemma BareDomainIs(s: string, i: nat)
    requires i < |s| && BareAt(s, i).Some?
    requires forall j | 0 <= j < i :: BareAt(s, j).None?
    ensures BareDomain(s) == BareAt(s, i)
  {
    assert BareDomain(s).Some?;
    var k: nat :| k < |s| && BareAt(s, k) == BareDomain(s) && (forall j | 0 <= j < k :: BareAt(s, j).None?);
    assert k < i ==> BareAt(s, k).None?;
    assert i < k ==> BareAt(s, i).None?;
  }

  // ---------------------------------------------------------------------
  // /mailto:.*@([^>,;\s]+)/
  // ---------------------------------------------------------------------

  predicate MailtoPrefix(s: string, i: nat) {
    i <= |s| && StartsWith(s[i..], "mailto:")
  }

  /** The `@` the greedy `.*` settles on for a `mailto:` at i: the last
      viable `@` reachable without crossing a line terminator. */
  function MailtoAtSign(s: string, i: nat): (k: Option<nat>)
    requires MailtoPrefix(s, i)
    ensures k.Some? ==> i + 7 <= k.value && ViableAt(s, k.value)
    ensures k.Some? ==> forall j | i + 7 <= j < k.value :: DotChar(s[j])
    ensures k.None? ==> forall j | i + 7 <= j < |s| && (forall m | i + 7 <= m < j :: DotChar(s[m])) :: !ViableAt(s, j)
    ensures k.Some? ==> forall j | k.value < j < |s| && (forall m | i + 7 <= m < j :: DotChar(s[m])) :: !ViableAt(s, j)
  {
    var d := RunEnd(s, i + 7, DotChar);
    var viable := (j: nat) => ViableAt(s, j);
    var k := LastHit(i + 7, d, viable);
    forall j | i + 7 <= j < |s| && (forall m | i + 7 <= m < j :: DotChar(s[m])) && (k.None? || k.value < j)
      ensures !ViableAt(s, j)
    {
      if j < d {
        assert !viable(j);
      }
    }
    k
  }

  function MailtoAt(s: string, i: nat): Option<string> {
    if MailtoPrefix(s, i) then
      var k := MailtoAtSign(s, i);
      if k.Some? then BareAt(s, k.value) else None
    else None
  }

  /** `mailto:`, then any characters but line terminators up to the `@`
      at k, then the longest non-empty run of domain characters; no later
      `@` that the `.*` could also reach is viable (greediness). */
  predicate MailtoShape(s: string, i: nat, k: nat, g: string) {
    && MailtoPrefix(s, i)
    && i + 7 <= k
    && BareShape(s, k, g)
    && (forall m | i + 7 <= m < k :: DotChar(s[m]))
    && (forall j | k < j < |s| && (forall m | i + 7 <= m < j :: DotChar(s[m])) :: !ViableAt(s, j))
  }

  lemma MailtoAtSpec(s: string, i: nat, k: nat, g: string)
    ensures MailtoShape(s, i, k, g) ==> MailtoAt(s, i) == Some(g)
    ensures MailtoAt(s, i) == Some(g) && MailtoPrefix(s, i) ==>
              MailtoAtSign(s, i) == Some(k) ==> MailtoShape(s, i, k, g)
  {
    BareAtSpec(s, k, g);
    if MailtoShape(s, i, k, g) {
      assert ViableAt(s, k);
    }
  }

  /** A `mailto:` capture is always also a capture of the bare pattern. */
  lemma MailtoIsBare(s: string, i: nat)
    requires MailtoAt(s, i).Some?
    ensures exists k | i + 7 <= k < |s| :: BareAt(s, k) == MailtoAt(s, i)
  {
    var k := MailtoAtSign(s, i).value;
    assert BareAt(s, k) == MailtoAt(s, i);
  }

  // ---------------------------------------------------------------------
  // What the captures consist of
  // ---------------------------------------------------------------------

  /** Every domain-style capture is a non-empty run of domain characters. */
  predicate DomainText(g: string) {
    g != [] && forall k | 0 <= k < |g| :: DomainChar(g[k])
  }

  lemma BareCaptureIsDomainText(s: string, i: nat)
    requires BareAt(s, i).Some?
    ensures DomainText(BareAt(s, i).value)
  {
    var g := BareAt(s, i).value;
    assert forall k | 0 <= k < |g| :: g[k] == s[i + 1 + k];
  }

  lemma HttpCaptureIsDomainText(s: string, i: nat)
    requires HttpAt(s, i).Some?
    ensures DomainText(HttpAt(s, i).value)
    ensures '/' !in HttpAt(s, i).value
  {
    var g := HttpAt(s, i).value;
    var n := SchemeLength(s, i);
    assert forall k | 0 <= k < |g| :: g[k] == s[i + n + k];
  }

  lemma MailtoCaptureIsDomainText(s: string, i: nat)
    requires MailtoAt(s, i).Some?
    ensures DomainText(MailtoAt(s, i).value)
  {
    BareCaptureIsDomainText(s, MailtoAtSign(s, i).value);
  }

  /** Lower-casing keeps a domain capture a domain capture. */
  lemma LowerKeepsDomainText(g: string)
    requires DomainText(g)
    ensures DomainText(Lower(g))
  {
  }

  /** The captures of `<...>` and of `@...` are non-empty and free of `>`. */
  lemma AngleCaptureHasNoGt(s: string, i: nat)
    requires AngleAt(s, i).Some?
    ensures AngleAt(s, i).value != [] && '>' !in AngleAt(s, i).value
  {
    var g := AngleAt(s, i).value;
    assert forall k | 0 <= k < |g| :: g[k] == s[i + 1 + k];
  }

  lemma MsgIdCaptureHasNoGt(s: string, i: nat)
    requires MsgIdAt(s, i).Some?
    ensures MsgIdAt(s, i).value != [] && '>' !in MsgIdAt(s, i).value
  {
    var g := MsgIdAt(s, i).value;
    assert forall k | 0 <= k < |g| :: g[k] == s[i + 1 + k];
  }

  function MailtoDomain(s: string): (r: Option<string>)
    ensures r.None? <==> forall i | 0 <= i < |s| :: MailtoAt(s, i).None?
    ensures r.Some? ==> exists i | 0 <= i < |s| ::
              MailtoAt(s, i) == r && (forall j | 0 <= j < i :: MailtoAt(s, j).None?)
  {
    var at := (i: nat) => MailtoAt(s, i);
    assert forall i: nat :: at(i) == MailtoAt(s, i);
    FirstMatch(|s|, at)
  }

  /** The leftmost successful attempt decides. */
  lemma MailtoDomainIs(s: string, i: nat)
    requires i < |s| && MailtoAt(s, i).Some?
    requires forall j | 0 <= j < i :: MailtoAt(s, j).None?
    ensures MailtoDomain(s) == MailtoAt(s, i)
  {
    assert MailtoDomain(s).Some?;
    var k: nat :| k < |s| && MailtoAt(s, k) == MailtoDomain(s) && (forall j | 0 <= j < k :: MailtoAt(s, j).None?);
    assert k < i ==> MailtoAt(s, k).None?;
    assert i < k ==> MailtoAt(s, i).None?;
  }
}
