# Safari content-blocker converter core, modelled in Dafny

This project models two pieces of the Swift converter that turns AdGuard filter rules into Safari content-blocker entries. It proves properties of the model.

1. **The domain-list parser** `Rule.addDomains` (module `DomainList`, file `rule.dfy`).
   - It scans the UTF-8 bytes of a separator-delimited list, such as the value of `$domain=`.
   - Each segment is appended to the rule's `permittedDomains`, or, when it starts with `~`, to `restrictedDomains` without that `~`.
   - A segment with a byte above 127 is stored in its IDNA encoding.
   - The parser throws on a segment that is too short or shaped like a regular expression (`/…/`).
   - `Rule` is a Dafny class with those two fields, and `AddDomains` is the source's byte loop.
   - The loop is proved to append exactly what the specification function `ParseDomains` yields. That function is built from the raw segments (`Pieces`), the per-segment decision (`ParsePiece`) and the in-order scan (`ScanPieces`).

2. **The compiler** `Compiler.compileRules` and its helpers (modules `Compiler`, `BlockerEntries`, `ExceptionDomains`, `ActionExceptions`, `Specifichide`, `CssCompaction` and `DomainCompaction`, plus `Lists` for shared sequence functions).
   - One pass over the rules routes each generated entry into a bucket by action type. A `$specifichide` network rule instead contributes a `"*" + domain` exclusion.
   - Exceptions are then resolved per bucket (`applyActionExceptions`, `applyExceptionDomains`).
   - The css buckets are compacted into wide and per-domain entries of at most 250 selectors (`compactCssRules`, `compactDomainCssRules`, `createDomainWideEntries`).
   - The `$specifichide` domains are removed from the domain-scoped buckets (`applySpecifichide`).
   - A cancellation seen at any checkpoint returns an empty result.
   - Every procedure with a loop is a Dafny method with that loop, proved equal to a specification function. `getActionValue` and `createWideRule` have no loop and are functions (`ActionValue`, `CreateWideRule`). The properties the source promises are lemmas about those functions.

Modelling choices:
- An entry (`BlockerEntry`) is a value: a `Trigger` (URL filter, optional `ifDomain`, optional `unlessDomain`) and an `Action` (kind and four optional payloads). An absent list and an empty list stay distinct throughout, as in the source.
- The Swift `inout` arrays are modelled as methods that return the rewritten array next to the result. `applyExceptionDomains` returns the edited trigger.
- The model keeps these behaviours of the code as written:
  - The length test `i - previousSeparator <= 2` runs before the leading `~` is stripped (Rule.swift:43-52). The last segment, whose boundary is its own final byte, is also measured one short. So an inner segment needs 3 bytes and the last one 4, counting any `~`. An inner `~ab` is accepted and stores the two-byte domain `ab`, while a final `~ab` is rejected (`TooShortIff`, `TildeLetterTooShort`).
  - Only one `~` is stripped: `~~abc` stores `~abc` as a restricted domain (`DoubleTildeKeepsOne`).
  - When exceptions are grouped by payload, only an absent payload is skipped. An empty payload `""` is a key like any other (Compiler.swift:307, `GroupByPayload`).
  - Swift's precedence makes the drop test `A || (B && cosmetic)` (Compiler.swift:340). The keep test at 344-345 also drops entries whose two lists are both non-empty (`DroppedIff`). The precedence never shows in the compiler: every bucket the test is applied to holds cosmetic actions only (`PrecedenceUnobservable`).
  - `applySpecifichide` rewrites every entry of the bucket it is given, whatever its action type. The compiler applies it after domain compaction, to the domain-sensitive css-display-none, extended-css and css-inject buckets (Compiler.swift:145-181, `SpecifichideApplied`).
  - Specifichide matching is by literal string. The collected domain is `"*" + domain`, so `*only.com` does not remove `only.com` (`MatchingIsLiteral`). It removes only `*only.com` itself (`OnlyDomainRemoved`).

## Model

| member | source | states |
|---|---|---|
| DomainList.Rule.constructor | Sources/ContentBlockerConverter/Rules/Rule.swift:7-21 | a new rule has the given text, all flags false and both domain lists empty |
| DomainList.Rule.AddDomains | Sources/ContentBlockerConverter/Rules/Rule.swift:32-83 | the call appends `ParseDomains(s)`'s permitted and restricted domains after the lists' old contents, which survive as prefixes; it never clears them; the throw is the returned error, and the domains stored before it stay stored; it requires a non-empty string, because the range `0...maxIndex` traps on an empty one |
| DomainList.ParseSegmentAt | Sources/ContentBlockerConverter/Rules/Rule.swift:42-75 | the loop body at a boundary `i` reads the string by index and keeps a running flag for non-ASCII bytes. Its result is `ParsePiece` of the raw segment that the boundary ends, the last segment running to the end of the string. So the by-index loop agrees with the segment-level definition of rejection, `~` routing, IDNA and the regex test |
| DomainList.PieceBy | Sources/ContentBlockerConverter/Rules/Rule.swift:42-58 | for the raw segment that a boundary `i` ends, the measure is `i - start` and the first byte is `s[start]`. The stored domain is the slice after an optional `~`, encoded when a byte above 127 occurs before `i` |
| DomainList.Split | Sources/ContentBlockerConverter/Rules/Rule.swift:39-42 | there is at least one segment exactly when bytes remain to be scanned |
| DomainList.PiecesJoin | Sources/ContentBlockerConverter/Rules/Rule.swift:39-58 | the segments, joined with the separator between them, give back the whole string |
| DomainList.PiecesSeparatorFree | Sources/ContentBlockerConverter/Rules/Rule.swift:42-58 | no segment but the last contains the separator; the last is non-empty and can contain it only as its final byte |
| DomainList.PiecesCount | Sources/ContentBlockerConverter/Rules/Rule.swift:39-42 | there is one segment more than there are separator bytes before the final byte |
| DomainList.TrailingSeparatorKept | Sources/ContentBlockerConverter/Rules/Rule.swift:42-58 | a final separator byte does not start a new segment: it is the last byte of the last segment |
| DomainList.NonAsciiMeans | Sources/ContentBlockerConverter/Rules/Rule.swift:77-80 | the flag the loop keeps is set exactly when some byte of the segment before its boundary is above 127 |
| DomainList.TooShortIff | Sources/ContentBlockerConverter/Rules/Rule.swift:43-45 | a segment throws "too short" exactly when its boundary measure (length, or length minus one for the last segment, counting any `~`) is at most 2 |
| DomainList.AcceptedSegment | Sources/ContentBlockerConverter/Rules/Rule.swift:47-72 | a long enough segment throws the regex error exactly when its stored domain starts and ends with `/`; otherwise it is restricted exactly when it starts with `~`, and its domain is the stored domain |
| DomainList.StoredVerbatimIffAscii | Sources/ContentBlockerConverter/Rules/Rule.swift:54-61 | a segment with no byte above 127 before its boundary is stored byte for byte as sliced, without the `~`; otherwise its IDNA encoding is stored |
| DomainList.ScanSucceedsIff | Sources/ContentBlockerConverter/Rules/Rule.swift:39-82 | the call throws exactly when some segment is rejected |
| DomainList.ScanStoresPrefix | Sources/ContentBlockerConverter/Rules/Rule.swift:39-82 | each list receives the accepted segments routed to it, in encounter order, up to the first rejected segment, whose error is reported; the segments before the throw stay stored |
| DomainList.SuccessCount | Sources/ContentBlockerConverter/Rules/Rule.swift:39-75 | on success the call stores one domain more than there are separator bytes before the final byte, across the two lists |
| DomainList.TildeLetterTooShort | Tests/ContentBlockerConverterTests/Rules/NetworkRuleTests.swift:306 | `~e` throws "too short" and stores nothing |
| DomainList.PermittedAndRestricted | Tests/ContentBlockerConverterTests/Rules/NetworkRuleTests.swift:170-174 | `a.co\|~b.co` permits `a.co` and restricts `b.co` |
| DomainList.RegexAfterStored | Tests/ContentBlockerConverterTests/Rules/NetworkRuleTests.swift:310 | in `a.co\|/bc/` the regex-shaped segment throws after `a.co` was stored |
| DomainList.DoubleTildeKeepsOne | Sources/ContentBlockerConverter/Rules/Rule.swift:47-52 | `~~abc` is restricted, and its stored domain keeps the second `~` |
| Lists.Without | Sources/ContentBlockerConverter/Compiler/Compiler.swift:231-237 | the order-preserving removal filter. Its contract only bounds the length: it never lengthens the list. What it keeps is stated by `Lists.WithoutMembers` |
| Lists.WithoutMembers | Sources/ContentBlockerConverter/Compiler/Compiler.swift:231-237 | the filter keeps exactly the elements not excluded |
| Lists.Common | Sources/ContentBlockerConverter/Compiler/Compiler.swift:221-227 | the applicable exception domains, in exception order. Its contract only bounds the length: never more than the exception domains. What it keeps is stated by `Lists.CommonMembers` |
| Lists.CommonMembers | Sources/ContentBlockerConverter/Compiler/Compiler.swift:221-227 | a domain is applicable exactly when it is an exception domain held by the matching list |
| Lists.Chunks | Sources/ContentBlockerConverter/Compiler/Compiler.swift:459 | `chunked(into:)` yields no chunk exactly for an empty array |
| Lists.ChunksShape | Sources/ContentBlockerConverter/Compiler/Compiler.swift:459 | the chunks concatenate back to the array in order; each is non-empty and at most `n` long, and all but the last are exactly `n` long |
| Lists.ChunksCount | Sources/ContentBlockerConverter/Compiler/Compiler.swift:459 | there are ceil(len / n) chunks |
| Lists.Join | Sources/ContentBlockerConverter/Compiler/Compiler.swift:356 | joining one string gives that string |
| Lists.JoinEnds | Sources/ContentBlockerConverter/Compiler/Compiler.swift:356 | the joined string starts with the first string and ends with the last |
| BlockerEntries.CosmeticKinds | Sources/ContentBlockerConverter/Compiler/Compiler.swift:14-20 | exactly css-display-none, css-inject, css-extended, scriptlet and script are cosmetic. Block, ignore-previous-rules and every other type string are not; the type `UnknownKindName` keeps the seven known names out of `OtherKind` |
| BlockerEntries.ActionValue | Sources/ContentBlockerConverter/Compiler/Compiler.swift:249-262 | a key other than the four payload names gives no value |
| BlockerEntries.ActionValueIgnoresTrigger | Sources/ContentBlockerConverter/Compiler/Compiler.swift:249-262 | the payload depends on the action alone, so rewriting a trigger never changes it |
| ExceptionDomains.ApplyExceptionDomains | Sources/ContentBlockerConverter/Compiler/Compiler.swift:201-247 | the edited trigger is `WithException`: the loop's effect over the exception domains, against the matching list captured once before the loop |
| ExceptionDomains.LoopEffectSnoc | Sources/ContentBlockerConverter/Compiler/Compiler.swift:220-246 | one more exception domain does one pass of the loop body: a non-applicable domain is skipped; an applicable one filters `ifDomain` if present, else `unlessDomain`; against an absent or empty matching list it is appended to `unlessDomain`, which is created if absent |
| ExceptionDomains.GenericExceptionDisables | Sources/ContentBlockerConverter/Compiler/Compiler.swift:213-217 | an exception with neither list sets the rule's `ifDomain` to `[]` and changes nothing else |
| ExceptionDomains.NarrowingShrinks | Sources/ContentBlockerConverter/Compiler/Compiler.swift:220-238 | against a non-empty matching list, the edited list loses exactly the exception domains the matching list holds, the other list is untouched, no list appears or disappears, and lists only shrink |
| ExceptionDomains.UnlistedDomainsIgnored | Sources/ContentBlockerConverter/Compiler/Compiler.swift:221-227 | exception domains missing from the matching list have no effect |
| ExceptionDomains.NegationAppends | Sources/ContentBlockerConverter/Compiler/Compiler.swift:240-245 | against an absent or empty matching list, `ifDomain` is untouched and the exception domains are appended in order to `unlessDomain`, which is created when there is something to add |
| ExceptionDomains.RemovalPrefersIfDomain | Sources/ContentBlockerConverter/Compiler/Compiler.swift:208-238 | a match made against `unlessDomain` still removes from `ifDomain` when that is present |
| ExceptionDomains.NarrowingExample | Sources/ContentBlockerConverter/Compiler/Compiler.swift:220-238 | an exception on `a.com` narrows a rule for `a.com, b.com` to `b.com` |
| ExceptionDomains.NegationExample | Sources/ContentBlockerConverter/Compiler/Compiler.swift:240-245 | an exception on `x.com` makes an unrestricted rule unless-`x.com` |
| ActionExceptions.ApplyActionExceptions | Sources/ContentBlockerConverter/Compiler/Compiler.swift:299-351 | the bucket is rewritten in place, entry by entry, by the exceptions with its own payload, in list order; the result is the rewritten bucket through the drop and keep filter |
| ActionExceptions.GroupByPayload | Sources/ContentBlockerConverter/Compiler/Compiler.swift:304-318 | a payload is a dictionary key exactly when some exception carries it, and it maps to the exceptions carrying it, in list order; only absent payloads are skipped |
| ActionExceptions.DropDisabled | Sources/ContentBlockerConverter/Compiler/Compiler.swift:336-350 | the loop keeps exactly the surviving entries, in order |
| ActionExceptions.MatchingMembers | Sources/ContentBlockerConverter/Compiler/Compiler.swift:304-318 | an exception is grouped under a value exactly when its payload is that value |
| ActionExceptions.OnlyMatchingExceptionsApply | Sources/ContentBlockerConverter/Compiler/Compiler.swift:320-334 | an entry is rewritten only by the exceptions whose payload equals its own; the others could be removed beforehand |
| ActionExceptions.NoPayloadUntouched | Sources/ContentBlockerConverter/Compiler/Compiler.swift:320-324 | an entry without a payload for the key keeps its trigger, whatever the exceptions |
| ActionExceptions.RewriteKeepsActions | Sources/ContentBlockerConverter/Compiler/Compiler.swift:320-334 | the rewrite changes triggers only: every entry keeps its action and its position |
| ActionExceptions.KeptMembers | Sources/ContentBlockerConverter/Compiler/Compiler.swift:336-350 | the result holds exactly the rewritten entries that survive the filter |
| ActionExceptions.KeptAppend | Sources/ContentBlockerConverter/Compiler/Compiler.swift:336-350 | the filter preserves order: it distributes over concatenation |
| ActionExceptions.DroppedIff | Sources/ContentBlockerConverter/Compiler/Compiler.swift:338-347 | an entry is dropped exactly when it has an empty `ifDomain` and no `unlessDomain`, or an empty `unlessDomain`, no `ifDomain` and a cosmetic action, or both lists non-empty |
| ActionExceptions.DropPrecedence | Sources/ContentBlockerConverter/Compiler/Compiler.swift:340 | Swift's precedence, A or (B and cosmetic), differs from (A or B) and cosmetic only for a non-cosmetic entry with an empty `ifDomain` and no `unlessDomain` |
| ActionExceptions.GenericExceptionDropsEntry | Sources/ContentBlockerConverter/Compiler/Compiler.swift:299-351 | a generic element-hiding entry for `.ad` and the generic exception for `.ad` leave nothing |
| ActionExceptions.GenericExceptionKeepsUnlessEntry | Sources/ContentBlockerConverter/Compiler/Compiler.swift:299-351 | a generic exception does not remove an entry with an `unlessDomain`: the entry gains an empty `ifDomain` and survives |
| Specifichide.ApplySpecifichide | Sources/ContentBlockerConverter/Compiler/Compiler.swift:267-296 | the bucket is rewritten entry by entry with the excluded domains filtered out of every present `ifDomain`; the result is the rewritten bucket without the entries whose `ifDomain` became `[]` |
| Specifichide.WithoutEmptyIfDomain | Sources/ContentBlockerConverter/Compiler/Compiler.swift:285-293 | the order-preserving skip of entries whose `ifDomain` is exactly empty. Its contract only bounds the length: it never lengthens the bucket. What it keeps is stated by `Specifichide.ResultMembers` |
| Specifichide.ResultMembers | Sources/ContentBlockerConverter/Compiler/Compiler.swift:285-293 | the result holds exactly the rewritten entries whose `ifDomain` is not exactly `[]` |
| Specifichide.StripRemovesExcluded | Sources/ContentBlockerConverter/Compiler/Compiler.swift:271-283 | afterwards no present `ifDomain` holds an excluded string, an entry without `ifDomain` is unchanged, and every entry keeps its action and position |
| Specifichide.StripKeepsOthers | Sources/ContentBlockerConverter/Compiler/Compiler.swift:274-280 | the domains that remain in `ifDomain` are exactly the ones not excluded |
| Specifichide.SpecifichideResult | Sources/ContentBlockerConverter/Compiler/Compiler.swift:267-296 | every entry returned has an absent or non-empty `ifDomain`, and that list holds no excluded domain |
| Specifichide.OnlyDomainRemoved | Sources/ContentBlockerConverter/Compiler/Compiler.swift:274-293 | an entry limited to `*only.com` is removed by the excluded domain `*only.com` |
| Specifichide.MatchingIsLiteral | Sources/ContentBlockerConverter/Compiler/Compiler.swift:274-280 | matching is literal: `*only.com` does not remove `only.com` |
| CssCompaction.CreateWideRule | Sources/ContentBlockerConverter/Compiler/Compiler.swift:353-358 | the wide entry has the catch-all cosmetic URL filter, no `ifDomain` and no `unlessDomain`, a css-display-none action and the joined selectors as its only payload; a single selector is carried as it is |
| CssCompaction.WideRuleSelectors | Sources/ContentBlockerConverter/Compiler/Compiler.swift:353-358 | the wide entry's selector starts with the first selector merged and ends with the last |
| CssCompaction.CompactCssRules | Sources/ContentBlockerConverter/Compiler/Compiler.swift:361-393 | the loop with its reset selector accumulator returns `CompactCss`: the wide list with the last partial accumulator flushed, and the two domain buckets in input order |
| CssCompaction.WideFoldRoutes | Sources/ContentBlockerConverter/Compiler/Compiler.swift:368-382 | the wide list receives no entry with a domain list, and the pass-through entries in input order |
| CssCompaction.WideFoldChunks | Sources/ContentBlockerConverter/Compiler/Compiler.swift:366-382 | the loop keeps its invariant: the folded selectors are whole flushed chunks of 250 followed by fewer than 250 pending ones, and each flushed chunk became one wide entry, in order |
| CssCompaction.WideOutputByChunks | Sources/ContentBlockerConverter/Compiler/Compiler.swift:361-393 | the wide output holds the folded selectors cut into chunks of 250 and merged in order, the other generic entries unchanged and in order, and no entry with a domain list |
| CssCompaction.RoutesPartition | Sources/ContentBlockerConverter/Compiler/Compiler.swift:368-382 | every entry takes exactly one of the four branches |
| CssCompaction.OnRouteMembers | Sources/ContentBlockerConverter/Compiler/Compiler.swift:368-382 | the domain-sensitive bucket holds exactly the entries with an `ifDomain`, and the generic-domain-sensitive one those with only an `unlessDomain` |
| CssCompaction.WideEntryCount | Sources/ContentBlockerConverter/Compiler/Compiler.swift:375-386 | k folded selectors make ceil(k / 250) merged wide entries |
| CssCompaction.SixHundredSelectors | Sources/ContentBlockerConverter/Compiler/Compiler.swift:373-386 | 600 foldable entries become three wide entries holding selectors 1-250, 251-500 and 501-600 |
| CssCompaction.CompactCssNothing | Sources/ContentBlockerConverter/Compiler/Compiler.swift:361-393 | an empty bucket compacts to three empty ones |
| DomainCompaction.GroupByDomain | Sources/ContentBlockerConverter/Compiler/Compiler.swift:402-432 | the first loop emits the ungrouped entries in order, and its dictionary maps every domain to the entries keyed by it, in order |
| DomainCompaction.InsertMirrors | Sources/ContentBlockerConverter/Compiler/Compiler.swift:423-431 | one more entry keeps the dictionary in step with the entries read |
| DomainCompaction.CompactDomainCssRules | Sources/ContentBlockerConverter/Compiler/Compiler.swift:399-449 | the result is the ungrouped entries followed by each grouped domain's output, and the visit order it returns visits every grouped domain exactly once |
| DomainCompaction.UngroupedMembers | Sources/ContentBlockerConverter/Compiler/Compiler.swift:403-421 | the entries emitted unchanged by the first loop are exactly those whose deciding list does not hold exactly one domain, or that have neither list |
| DomainCompaction.GroupMembers | Sources/ContentBlockerConverter/Compiler/Compiler.swift:403-431 | a group holds exactly the entries keyed by its domain: `ifDomain` when present, else `unlessDomain`, whatever `useUnlessDomain` is |
| DomainCompaction.EveryEntryPlaced | Sources/ContentBlockerConverter/Compiler/Compiler.swift:403-432 | every input entry is either emitted unchanged or in the non-empty group of its domain |
| DomainCompaction.CompactedMembers | Sources/ContentBlockerConverter/Compiler/Compiler.swift:399-449 | whatever the visit order, the output holds exactly the ungrouped entries, the entry of each single-entry group, and the merged entries of each group of two or more |
| DomainCompaction.CreateDomainWideEntries | Sources/ContentBlockerConverter/Compiler/Compiler.swift:451-478 | the loop over the chunks returns one merged entry per chunk of 250, in order |
| DomainCompaction.DomainWideShape | Sources/ContentBlockerConverter/Compiler/Compiler.swift:451-478 | n entries make ceil(n / 250) merged entries from contiguous chunks of at most 250 that cover the group in order; each is css-display-none on `.*`, scoped to the domain by `ifDomain`, or by `unlessDomain` when asked, with the chunk's present selectors joined by `", "` |
| DomainCompaction.ThreeHundredEntries | Sources/ContentBlockerConverter/Compiler/Compiler.swift:434-478 | a group of 300 entries becomes two merged entries, of its first 250 and its last 50 |
| DomainCompaction.MergedEntryDropsOtherPayloads | Sources/ContentBlockerConverter/Compiler/Compiler.swift:460-472 | merging reads only selectors: a chunk without any selector becomes an entry with the empty selector |
| Compiler.RouteEntry | Sources/ContentBlockerConverter/Compiler/Compiler.swift:87-115 | the if-chain appends the entry to the bucket of its action type and changes no other bucket |
| Compiler.ClassifyRules | Sources/ContentBlockerConverter/Compiler/Compiler.swift:67-116 | the loop reports a cancellation exactly when one is seen at the top of some iteration, and otherwise returns the buckets of `Classify` |
| Compiler.CompileRules | Sources/ContentBlockerConverter/Compiler/Compiler.swift:45-194 | the procedure returns `CompileSpec`: an empty result when any checkpoint sees a cancellation, else the assembled buckets; the two domain compactions visit every grouped domain exactly once |
| Compiler.CompileAdvanced | Sources/ContentBlockerConverter/Compiler/Compiler.swift:151-191 | the advanced part fills the extended, css-inject, script and scriptlet outputs as the source assigns them, or returns an empty result on cancellation |
| Compiler.AddField | Sources/ContentBlockerConverter/Compiler/Compiler.swift:87-115 | an append grows exactly its own bucket by the entry and leaves the specifichide domains alone |
| Compiler.ClassifyByBucket | Sources/ContentBlockerConverter/Compiler/Compiler.swift:67-116 | each bucket holds exactly the entries routed to it, in rule order, and the specifichide domains are collected in rule order |
| Compiler.ClassifyConserves | Sources/ContentBlockerConverter/Compiler/Compiler.swift:67-116 | every rule yields exactly one bucketed entry, one specifichide domain or nothing |
| Compiler.RoutedKinds | Sources/ContentBlockerConverter/Compiler/Compiler.swift:87-98 | an entry in one of the action buckets has that bucket's action type |
| Compiler.SpecifichideRule | Sources/ContentBlockerConverter/Compiler/Compiler.swift:70-85 | a `$specifichide` network rule with a non-empty extracted domain and no path contributes `"*" + domain` and no entry; otherwise it goes through the entry factory |
| Compiler.BucketByActionType | Sources/ContentBlockerConverter/Compiler/Compiler.swift:87-99 | except for exceptions, the bucket depends on the action type alone; only an unknown type is not routed |
| Compiler.ExceptionRouting | Sources/ContentBlockerConverter/Compiler/Compiler.swift:99-115 | exceptions are routed by the rule's scriptlet flag, then its script flag, then a non-empty selector, then a non-empty css payload; the rest are generic ignore-previous entries |
| Compiler.OptimizeDropsWide | Sources/ContentBlockerConverter/Compiler/Compiler.swift:128-161 | with `optimize` both wide outputs are empty |
| Compiler.BasicModeOmitsAdvanced | Sources/ContentBlockerConverter/Compiler/Compiler.swift:151-191 | without advanced blocking the extended-css, css-inject, script and scriptlet outputs are empty |
| Compiler.CompletedCounts | Sources/ContentBlockerConverter/Compiler/Compiler.swift:64-116 | a completed compilation counts every rule and keeps the block and ignore-previous entries in rule order |
| Compiler.SpecifichideApplied | Sources/ContentBlockerConverter/Compiler/Compiler.swift:144-181 | every entry left in the domain-scoped css-display-none, extended-css or css-inject output has an absent or non-empty `ifDomain` that holds no specifichide domain |
| Compiler.ExtendedNotCompacted | Sources/ContentBlockerConverter/Compiler/Compiler.swift:155-163 | the extended-css generic-domain-sensitive output holds exactly the surviving extended-css entries with only an `unlessDomain`, unchanged and not domain-compacted |
| Compiler.PrecedenceUnobservable | Sources/ContentBlockerConverter/Compiler/Compiler.swift:340 | every entry of the five buckets the drop test is applied to is cosmetic, so for any trigger the test decides like (A or B) and cosmetic |
| Compiler.CompactedNothing | Sources/ContentBlockerConverter/Compiler/Compiler.swift:399-449 | compacting nothing yields nothing, whatever the visit order |
| Compiler.RuleAndException | Sources/ContentBlockerConverter/Compiler/Compiler.swift:85-109 | `##.ad` and `#@#.ad` land in the css-display-none bucket and the css-exception bucket |
| Compiler.NoCssSurvivors | Sources/ContentBlockerConverter/Compiler/Compiler.swift:120-140 | when no css-display-none entry survives its exceptions, the three css-display-none outputs are empty |
| Compiler.GenericExceptionCancelsRule | Sources/ContentBlockerConverter/Compiler/Compiler.swift:85-140 | end to end, `##.ad` and its generic exception `#@#.ad` leave every css-display-none output empty |

## Left out

- IDNA encoding (`idnaEncoded`, Rule.swift:60) is the function parameter `idna`. It calls into the Punycode library, and its force-unwrap is assumed to succeed, so the model has no trap there.
- DomainList.Rule.AddDomains requires a non-empty string, because the source traps there. A domain is a byte sequence, and `String(domainsStr[...])` is taken to keep the sliced bytes.
- The last byte of the string is never checked for a value above 127 (Rule.swift:42, 77). The model keeps this. It does no harm to UTF-8 text, whose multi-byte characters always have a lead byte above 127 before their final byte.
- `Progress` cancellation is the oracle `isCancelled` over the named checkpoints. It can be cancelled from another thread, which is not modelled.
- `BlockerEntryFactory.createBlockerEntry`, `NetworkRuleParser.extractDomain` and `URL_FILTER_COSMETIC_RULES` are parameters of `Environment`. `isOptionEnabled(.specifichide)`, `isScript` and `isScriptlet` are fields of `RuleView`. The factory code and the network-rule grammar are not part of this model.
- `CompilationResult.addBlockTypedEntry` and `addIgnorePreviousTypedEntry` are modelled as appends. Their internals, `ErrorsCounter` and `SafariVersion` (floating point) are not part of this model.
- Swift `Dictionary` key order in `compactDomainCssRules` is unspecified. The method returns the order it took as `order`, which is proved to visit every grouped domain exactly once. The model does not fix which such order is taken, so the output order across domains is left open.
- Strings (payloads, domains, `$specifichide` domains and action type names) are `seq<char>` compared code unit by code unit. Swift's `String ==` and `Dictionary<String, _>` compare by canonical equivalence (Compiler.swift:224, 231, 235, 276, 311, 326, 424). So for example a selector `.café` written with U+00E9 and an exception written with `e` followed by U+0301 match in the source but not in the model. Unicode normalisation is not modelled.
- Triggers and actions carry only the fields the core reads. Other fields, JSON serialisation and logging are not modelled.
- The result field spelled `сssInjects` (with a Cyrillic `с`, Compiler.swift:176) is modelled as `cssInjects`.
- `Array.chunked(into:)` is not part of the source. It is defined as contiguous chunks of at most `n` (`Lists.Chunks`).
- `Rule`'s subclasses and the rest of its state are not modelled. `Rule.init` is modelled without its `SafariVersion` parameter.
