# Gateway classifier: contact lists and classification rules

This project models the e-mail classification gateway of
`outlook/Database/gateway_contact_lists_logic.js` and proves properties about
that model in Dafny.

For each incoming e-mail the gateway works in three steps:

1. It extracts a *feature map*: the normalised from, sender and reply-to
   addresses, the sender domain, the domains found in the Message-ID,
   List-Id and List-Unsubscribe headers, and the lower-cased `Precedence`
   and `Auto-Submitted` values.
2. It compares the features with a registry of *contact-list entries*, such
   as VIP senders, internal senders or personal contacts.
3. If no entry matches, it compares them with a table of *classification
   rules*. Each rule is a feature name, an expected value and statistics.

A contact-list hit decides the e-mail, except for one carve-out. When the
winning entry is `vip_finance` and the sender looks like a person, the
address must also be listed as `vip_personal`; otherwise the e-mail is
handed to the AI classifier. A rule hit decides only when no contact entry
matched. When nothing matches, the result is an unmatched decision with
source `needs_ai`.

The modules follow the structure of the code:

| file | module | what it holds |
|---|---|---|
| `wrappers.dfy` | `Wrappers` | `Option` |
| `scan.dfy` | `Scan` | leftmost and rightmost search, maximal runs |
| `text.dfy` | `Text` | ASCII `toLowerCase`, ECMAScript `trim`, `split(c)[0]`, `includes`, `startsWith` |
| `patterns.dfy` | `Patterns` | the five regular expressions, each as a match attempt at a position plus a declarative shape |
| `normalize.dfy`, `normalize_props.dfy` | `Normalize`, `NormalizeProps` | `normalizeEmail` and the four `extract*Domain` helpers |
| `features.dfy` | `Features` | the e-mail record, the feature map, `extractFeatures` |
| `selection.dfy` | `Selection` | "filter, stable sort by priority, take the head" as a one-pass first minimum |
| `contacts.dfy` | `Contacts` | `checkContactLists` |
| `rules.dfy` | `Rules` | `checkClassificationRules` |
| `score.dfy` | `Score` | `calculatePriorityScore` |
| `gateway.dfy`, `gateway_props.dfy` | `Gateway`, `GatewayProps` | `applyGateway` and its decision properties |

Modelling conventions:

- A JavaScript value that may be `null` or `undefined` is an `Option`.
- `!x` on a string holds for `None` and for `Some("")`; the model calls this `Falsy`.
- `String.prototype.match` returns the leftmost match. Each pattern is modelled as an attempt at position `i` (`AngleAt`, `MsgIdAt`, `HttpAt`, `MailtoAt`, `BareAt`) and a search for the first position where the attempt succeeds.
- Greedy `[^…]+` runs are maximal runs.
- For `mailto:.*@`, the greedy `.*` backtracks to the last usable `@` on the line.

The gateway collects the matches, sorts them by priority with a stable
sort, and returns the head. The model computes this in one pass: the first
element with the smallest key. `Selection.FirstMinIsSortHead` proves the
one-pass result equals the head of the stable insertion sort of the
filtered list.

## Model

| member | source | states |
|---|---|---|
| Text.Lower | outlook/Database/gateway_contact_lists_logic.js:33 | `toLowerCase` keeps the length, maps every character through the ASCII case map, gives lower-case text, and is the identity on lower-case text |
| Text.Trim | outlook/Database/gateway_contact_lists_logic.js:33 | `trim` returns a contiguous slice of the input with no ECMAScript white space or line terminator at either end; only such characters are removed |
| Text.TrimOfTrimmed | outlook/Database/gateway_contact_lists_logic.js:33 | text with no white space at either end is unchanged by `trim` |
| Text.Before | outlook/Database/gateway_contact_lists_logic.js:41-42 | `split(c)[0]` is the longest prefix without `c`; the whole string when `c` does not occur |
| Text.After | outlook/Database/gateway_contact_lists_logic.js:41 | `split(c)` re-joined: the string is its first piece, then `c`, then the rest |
| Text.BeforeAfterOfJoin | outlook/Database/gateway_contact_lists_logic.js:41-43 | splitting `x + c + y` on its first `c`, where `x` has no `c`, gives back `x` and `y` |
| Text.Contains | outlook/Database/gateway_contact_lists_logic.js:121 | `includes` holds exactly when the needle occurs at some position, including the empty needle |
| Patterns.AngleAtSpec | outlook/Database/gateway_contact_lists_logic.js:36 | `/<([^>]+)>/` at position i captures g exactly when there is `<`, then a maximal non-empty run of non-`>` characters g, then `>` |
| Patterns.AngleGroupIs | outlook/Database/gateway_contact_lists_logic.js:36-37 | the leftmost successful `<…>` attempt is the group returned |
| Patterns.MsgIdAtSpec | outlook/Database/gateway_contact_lists_logic.js:57 | `/@([^>]+)>?/` at i captures g exactly when there is `@`, then the maximal non-empty run g of non-`>` characters |
| Patterns.MsgIdAtSucceeds | outlook/Database/gateway_contact_lists_logic.js:57 | an attempt at i succeeds exactly when `@` is followed by a character other than `>` |
| Patterns.HttpAtSpec | outlook/Database/gateway_contact_lists_logic.js:71 | `/https?:\/\/([^\/>,;\s]+)/` at i captures g exactly when `http://` or `https://` is followed by the maximal non-empty run g of host characters |
| Patterns.MailtoAtSign | outlook/Database/gateway_contact_lists_logic.js:75 | the `@` that `mailto:.*@` settles on is the LAST viable `@` reachable through non-line-terminator characters; no viable `@` means no match |
| Patterns.MailtoAtSpec | outlook/Database/gateway_contact_lists_logic.js:75 | an attempt at a `mailto:` captures g exactly when the backtracked `@` is followed by the maximal domain-character run g |
| Patterns.MailtoIsBare | outlook/Database/gateway_contact_lists_logic.js:75-79 | every `mailto:` capture is also a capture of the bare `@` pattern at a later position |
| Patterns.BareAtSpec | outlook/Database/gateway_contact_lists_logic.js:79 | `/@([^>,;\s]+)/` at i captures g exactly when `@` is followed by the maximal non-empty domain-character run g |
| Patterns.BareCaptureIsDomainText | outlook/Database/gateway_contact_lists_logic.js:79 | a bare capture is non-empty and holds no `>`, `,`, `;` or white space |
| Patterns.HttpCaptureIsDomainText | outlook/Database/gateway_contact_lists_logic.js:71 | an http(s) host capture is non-empty and holds no `>`, `,`, `;` or white space (nor `/`) |
| Patterns.MailtoCaptureIsDomainText | outlook/Database/gateway_contact_lists_logic.js:75 | a `mailto:` capture is non-empty and holds no `>`, `,`, `;` or white space |
| Normalize.NormalizeEmail | outlook/Database/gateway_contact_lists_logic.js:31-46 | `null` exactly for falsy input; the result is lower case, has at most one `@`, and has no `+` in its local part when it has an `@` |
| Normalize.StripTag | outlook/Database/gateway_contact_lists_logic.js:40-44 | the rebuilt address keeps the local part up to its first `+`, then `@`, then the text between the first and second `@` |
| Normalize.ExtractDomain | outlook/Database/gateway_contact_lists_logic.js:48-53 | a domain exactly when the normalised address has an `@`; the address is its local part, `@` and that domain; the domain is lower case and has no `@` |
| Normalize.ExtractMessageIdDomain | outlook/Database/gateway_contact_lists_logic.js:55-59 | `null` exactly for a falsy header or one with no `@` followed by a non-`>`; otherwise a non-empty lower-case domain without `>` |
| Normalize.ExtractListDomain | outlook/Database/gateway_contact_lists_logic.js:61-65 | `null` exactly for a falsy List-Id or one with no `<…>` group; otherwise a non-empty lower-case value without `>` |
| Normalize.ExtractUnsubDomain | outlook/Database/gateway_contact_lists_logic.js:67-83 | `null` exactly when the link is falsy, or has no http(s) host and no `@` followed by a domain character; otherwise lower-case domain text |
| NormalizeProps.NormalizeEmailFixesCanonical | outlook/Database/gateway_contact_lists_logic.js:31-46 | normalising an already canonical address (lower case, trimmed, no `<`, one `@` at most, no `+tag`) returns it unchanged |
| NormalizeProps.NormalizeEmailWithoutAt | outlook/Database/gateway_contact_lists_logic.js:31-45 | input without `@` or `<` is only lower-cased and trimmed |
| NormalizeProps.NormalizeEmailOfDisplayForm | outlook/Database/gateway_contact_lists_logic.js:33-43 | `Name <local+tag@domain>` in any case normalises to `local@domain` |
| NormalizeProps.NormalizeEmailExample | outlook/Database/gateway_contact_lists_logic.js:35-39 | `John Doe <john+promo@Example.COM>` normalises to `john@example.com` |
| NormalizeProps.NormalizeEmailOfPlainForm | outlook/Database/gateway_contact_lists_logic.js:31-44 | a plain address `local+tag@domain` with a single `@` and no `<`, in any case and with white space around it, normalises to `local@domain`; the tag may be empty |
| NormalizeProps.NormalizeEmailPlainExample | outlook/Database/gateway_contact_lists_logic.js:39-44 | `john+tag@example.com` normalises to `john@example.com` |
| NormalizeProps.MessageIdDomainFromFirstAt | outlook/Database/gateway_contact_lists_logic.js:55-59 | the Message-ID domain starts after the first `@` followed by a non-`>` and runs to the next `>` or the end, lower-cased |
| NormalizeProps.MessageIdDomainAbsent | outlook/Database/gateway_contact_lists_logic.js:55-59 | no Message-ID domain exactly when no `@` is followed by a character other than `>` |
| NormalizeProps.ListDomainFromFirstGroup | outlook/Database/gateway_contact_lists_logic.js:61-65 | the List-Id domain is the lower-cased first `<…>` group |
| NormalizeProps.UnsubPrefersHttp | outlook/Database/gateway_contact_lists_logic.js:70-72 | an http(s) host anywhere in the link wins over any `mailto:` or `@` |
| NormalizeProps.UnsubFallsBackToMailto | outlook/Database/gateway_contact_lists_logic.js:74-76 | with no http(s) host, the first `mailto:` with a usable `@` gives the domain after its last usable `@` |
| NormalizeProps.UnsubFallsBackToBare | outlook/Database/gateway_contact_lists_logic.js:78-80 | with neither, the first `@` followed by a domain character gives the domain |
| Features.FeatureNamedRoundTrip | outlook/Database/gateway_contact_lists_logic.js:90-100 | each of the nine feature keys names its feature, and a string names a feature exactly when it is one of the nine keys |
| Features.Lookup | outlook/Database/gateway_contact_lists_logic.js:169 | `features[name]` is the named feature's value, and absent for a name that is not a feature key |
| Features.LowerOpt | outlook/Database/gateway_contact_lists_logic.js:98-99 | `x?.toLowerCase()` is present exactly when x is, with the same length, in lower case, and each character is the ASCII case map of x's character at the same position |
| Features.ExtractFeatures | outlook/Database/gateway_contact_lists_logic.js:89-101 | each feature is absent or the output of its normaliser: the three addresses are `normalizeEmail` of the headers, `message_id_domain`, `list_domain` and `unsub_domain` are the three header extractors applied to their headers, and with a falsy declared domain `from_domain` is `extractDomain` of the from address; every present feature is lower case; `precedence` and `auto_submitted` are present exactly when the headers are, and then are the headers lower-cased; from_address is present exactly for a non-falsy input; a non-falsy declared domain wins, lower-cased; otherwise the domain is present exactly when the address has an `@`, and the address is its local part, `@` and that domain |
| Selection.FirstMin | outlook/Database/gateway_contact_lists_logic.js:156-158 | none exactly when no element passes; otherwise a passing element with the smallest key, earlier than every other passing element with that key |
| Selection.SortByKeyIsStableSort | outlook/Database/gateway_contact_lists_logic.js:156 | the insertion sort is a permutation, is sorted by key, and keeps equal keys in their input order |
| Selection.FirstMinIsSortHead | outlook/Database/gateway_contact_lists_logic.js:141-158 | the one-pass first minimum picks exactly the head of the stably sorted list of matches |
| Selection.FirstMinCongruent | outlook/Database/gateway_contact_lists_logic.js:168-189 | the winner depends only on which elements pass and on their keys |
| Contacts.CheckContactLists | outlook/Database/gateway_contact_lists_logic.js:107-159 | `null` exactly when no entry matches; otherwise an entry that matches, has the smallest priority number, and comes first among entries with that number; its identifier type is one of the six known |
| Contacts.ContactMatches | outlook/Database/gateway_contact_lists_logic.js:113-139 | an entry of an unknown identifier type never matches; for the five equality types an entry matches exactly when the feature of that name equals its value; a `from_address_contains` entry matches exactly when there is a from address and its value occurs in it at some position |
| Contacts.WinnerIsReturned | outlook/Database/gateway_contact_lists_logic.js:156-158 | conversely, the entry that wins that comparison is the one returned |
| Contacts.CheckContactListsIsSortHead | outlook/Database/gateway_contact_lists_logic.js:141-158 | the result is the head of the matching entries after a stable sort by priority |
| Contacts.UnknownTypeNeverMatches | outlook/Database/gateway_contact_lists_logic.js:113-139 | an identifier type the switch does not know never matches |
| Contacts.EmptyContainsMatchesAnySender | outlook/Database/gateway_contact_lists_logic.js:119-122 | an empty `from_address_contains` value matches every e-mail with a from address |
| Contacts.UpperCaseValueNeverMatches | outlook/Database/gateway_contact_lists_logic.js:113-139 | against lower-case features, an entry value with an upper-case letter never matches |
| Contacts.UpperCaseEntryIsDead | outlook/Database/gateway_contact_lists_logic.js:89-139 | such an entry matches no e-mail at all |
| Contacts.AddressContainsExample | outlook/Database/gateway_contact_lists_logic.js:119-121 | `pasi.penkkala` matches `pasi.penkkala@anycompany.com` and not `other@anycompany.com` |
| Rules.ToMatch | outlook/Database/gateway_contact_lists_logic.js:172-182 | the match record copies the rule's fields, and its action is the rule's action unless that is missing or empty, when it is `review` |
| Rules.RuleMatches | outlook/Database/gateway_contact_lists_logic.js:169-171 | a rule matches exactly when its key value is non-empty and the feature its name denotes holds that value |
| Rules.CheckClassificationRules | outlook/Database/gateway_contact_lists_logic.js:165-190 | `null` exactly when no rule matches; otherwise the record of a matching rule with the smallest priority number, first among equals; its key value is non-empty and equals the named feature |
| Rules.CheckClassificationRulesIsSortHead | outlook/Database/gateway_contact_lists_logic.js:168-189 | the result is the head of the match records after a stable sort by priority |
| Rules.UnmatchableRules | outlook/Database/gateway_contact_lists_logic.js:169-171 | a rule naming no feature, or expecting the empty string, never matches |
| Score.PriorityScore | outlook/Database/gateway_contact_lists_logic.js:196-208 | the score is the tier base plus the bonuses, so the clamp at 100 never binds, and it lies in [40, 95] |
| Score.ContactHitScore | outlook/Database/gateway_contact_lists_logic.js:284 | a contact hit scores its tier base plus 15: 95, 75 or 55 |
| Score.TierDominates | outlook/Database/gateway_contact_lists_logic.js:198-205 | a better tier outscores a worse one whatever the bonuses |
| Score.ScoreMonotone | outlook/Database/gateway_contact_lists_logic.js:201-205 | more precision or relevance never lowers the score |
| Gateway.Decide | outlook/Database/gateway_contact_lists_logic.js:217-323 | a decision is unmatched exactly when its source is `needs_ai`, with one of the two reasons; a matched decision never asks for deep analysis and scores in [40, 95]; a contact hit has confidence 95 and source `contact_lists_` plus its list type; with a contact hit no rule decides |
| Gateway.ApplyGateway | outlook/Database/gateway_contact_lists_logic.js:214-215 | the decision carries the e-mail's message id and its extracted, lower-case features |
| GatewayProps.ContactTierDecides | outlook/Database/gateway_contact_lists_logic.js:217-289 | once a contact entry matches, every rule table gives the same decision, and the source is never `classification_rules` |
| GatewayProps.ContactHitDecision | outlook/Database/gateway_contact_lists_logic.js:276-289 | an ordinary contact hit, or a `vip_finance` hit from a sender that does not look personal, returns the entry's category and action, confidence 95, base plus 15 |
| GatewayProps.RuleHitDecision | outlook/Database/gateway_contact_lists_logic.js:293-314 | with no contact hit, the best rule decides: confidence is its precision or 90, and the score is base plus precision bonus only |
| GatewayProps.NoMatchFallsBack | outlook/Database/gateway_contact_lists_logic.js:317-323 | with no contact hit and no rule hit, the result is unmatched, `needs_ai`, `no_matching_rules_or_contacts` |
| GatewayProps.EmptyTablesFallBack | outlook/Database/gateway_contact_lists_logic.js:317-323 | empty tables send every e-mail to the AI classifier |
| GatewayProps.NeedsAiExactly | outlook/Database/gateway_contact_lists_logic.js:225-323 | the source is `needs_ai` exactly when nothing matches, or a `vip_finance` entry wins for a personal-looking sender not listed as `vip_personal` |
| GatewayProps.VipFinancePersonalSender | outlook/Database/gateway_contact_lists_logic.js:225-272 | stated through `Gateway.LooksPersonal` and `Gateway.VipPolicy`: for a winning `vip_finance` entry and a personal-looking sender: promoted to business_critical, 95, 90 when a `vip_personal` entry names the address; suppressed to `needs_ai` otherwise |
| GatewayProps.GenericPrefixNotPersonal | outlook/Database/gateway_contact_lists_logic.js:227-233 | under `Gateway.LooksPersonal`, a local part starting with a generic prefix is never treated as a person |
| GatewayProps.PersonalLooksExamples | outlook/Database/gateway_contact_lists_logic.js:227-233 | `jane.doe` looks personal; `noreply.bank` and `jane` do not |
| GatewayProps.JaneDoeSuppressed | outlook/Database/gateway_contact_lists_logic.js:264-270 | `jane.doe@example.com` from a `vip_finance` domain, with no `vip_personal` entry, goes to the AI classifier |
| GatewayProps.JaneDoePromoted | outlook/Database/gateway_contact_lists_logic.js:236-261 | with a `vip_personal` entry for her of a larger priority number she is promoted to business_critical, confidence 95, score 90 |
| GatewayProps.JaneDoeOwnEntryWins | outlook/Database/gateway_contact_lists_logic.js:276-289 | with a smaller priority number her own entry wins and decides with its own category under source `contact_lists_vip_personal` |
| GatewayProps.RelevanceIgnored | outlook/Database/gateway_contact_lists_logic.js:172-182 | rule tables that differ only in relevance give the same decision |
| GatewayProps.RuleScoreWithoutRelevanceBonus | outlook/Database/gateway_contact_lists_logic.js:299-303 | a rule hit scores at most its tier base plus 10, whatever the rule's relevance |

## Left out

- `outlook/build_batch_prompt_cache_HYBRID.js` and `outlook/read_doc.py` are not part of this model. They build prompts and read documents; they are not the gateway.
- `module.exports` is not modelled; it only re-exports the functions above.
- Text.Lower: only ASCII letters are lower-cased. JavaScript's `toLowerCase` also maps non-ASCII letters, and some of them change length; that Unicode mapping is not modelled.
- `String(addr)`, the coercion of a non-string value in `normalizeEmail`, is not modelled; every header is a string or absent.
- Subject, body and any other e-mail fields the gateway never reads are not modelled.
- Score.PriorityScore: priority, precision and relevance are integers. Fractional values and `NaN` are not modelled. Comparisons with `null` or `undefined` are modelled as absent values, which add no bonus.
- Contacts.CheckContactLists: the `source: 'contact_lists'` field of the match record is not stored, because it is a constant. The model also assumes contact fields are always present strings.
- Rules.CheckClassificationRules: `features[rule.feature]` on a name inherited from JavaScript's object prototype (such as `constructor`) is modelled as absent. In JavaScript that lookup yields a function, which never equals a string key value, so the outcome is the same.
- The rule decision's score: the match record carries no relevance, so `ruleMatch.relevance` is `undefined` and the relevance bonus is never applied. The model keeps that behaviour, as the code does.
- Array sorting: `Array.prototype.sort` with the comparator `a.priority - b.priority` is stable in current engines. It is modelled as a stable insertion sort, and the gateway's result as the head of that sort.
- Rules.ToMatch: the `source: 'classification_rules'` field of the rule match record (line 173) is not stored, because it is a constant.
- Rules.RuleMatches: the rule's `rule_id`, `feature`, `key_value` and `target_category` are modelled as strings that are always present (only `recommended_action`, `precision`, `support` and `relevance` may be absent; the code never reads `relevance`); a rule with a missing or non-string field of the first kind is not modelled.
- Text.Lower: strings are sequences of code points, not of UTF-16 code units as in JavaScript; lengths and positions of characters outside the Basic Multilingual Plane differ.
