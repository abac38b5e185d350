# Detection platform: a verified model of its decisions

The platform watches networks and mail, and much of what it reports rests on deterministic code
between its scanners, its language model and its analysts. This project states that code in Dafny
and proves what it promises. Each module follows one component:

- `EditDistance`, `Lookalike`: how different two domain names are, and whether a host imitates one.
  The rolling-row loop works on arrays and is proved to find the cheapest edit script.
- `Scoring`, `Enrichment`: from phishing indicators to a score, a band and a reported severity.
  Adding evidence never lowers any of them, and the model never talks a severity down.
- `Versions`, `Rules`: version comparison and the rule engine with its content-addressed ids.
- `InjectionIds`: ids of findings about instruction-like text, of which a host has one.
- `VerificationContract`, `Recheck`, `Verification`, `RecheckJob`, `UploadedScans`: whether a
  finding is fixed, by a re-check or an uploaded scan. Findings are objects updated in place; the
  safety rule is proved for one decision, one pass, and the re-check end to end.
- `VerificationRuns`, `RecheckScans`: runs of any length in which passes overlap. A pass reads its
  rows, waits, and commits from what it read; reads, commits, analysts' edits and new findings
  interleave freely. What holds regardless is proved without a condition, and what overlapping can
  break is proved with the exact one.
- `CveLookup`, `CveRuns`: a rate limiter and a bounded cache as an object whose methods are the
  sections that run without giving up control, and every interleaving of concurrent lookups.
- `ScanScope`: CIDR arithmetic behind what may be swept (section 3.1 of RFC 4632).
- `Prioritize`, `AssetRanking`, `Reconcile`: rankings that lose and invent nothing.
- `Dedup`: storing findings without duplicates through a narrowed query.
- `Untrusted`, `NmapBanner`: fencing untrusted text, and splitting service banners.

`Wrappers`, `Contracts`, `Sequences`, `Sorting` and `Text` hold what they share: optional values,
severities, flattening, a stable sort with its laws, and string operations.

What the code takes from its runtime is a parameter: the digest behind an id, the detector for
instruction-like text, Unicode folding and punycode decoding, IP-literal recognition, the list of
two-label public suffixes, name resolution, tool results, the clock, and the model's answers. Every
result holds for all of them. No lemma assumes anything about the digest: an id has three bytes of
it (`cyber.ai.engine/app/agents/vulnerability/candidates.py:37`), some 16.7 million values, so
shared ids are to be expected, and where sharing matters the exact conditions name it, as something
else in the same scan that has the id.

## Where the code and its documentation part

The model follows the code. These promises hold only under a condition, which is proved exact:

- A finding is to be resolved only when coverage proves that it was re-checked. Coverage holds port
  numbers. The re-check's command is clipped to sixty-four ports and scans TCP alone, the coverage
  is neither, so it is honest exactly for TCP findings on targets of at most sixty-four distinct
  valid ports (`Recheck.HonestExactlyForTcpUpToTheClip`). Exactly outside that a finding can be
  resolved although nothing asked for its place (`RecheckJob.FixedUnscannedExactly`): one UDP
  finding is enough (`RecheckJob.UdpFindingIsResolvedOverTcp`), and a single request can go past the
  clip (`RecheckScans.RequestPastTheClip`). An upload merges the ports its protocols were asked for,
  and resolves a finding unasked exactly when its port is asked for under other protocols alone
  (`UploadedScans.UploadFixedUnaskedExactly`). And whether the output holds a record of the port,
  which the tool's documentation calls the only evidence, is not looked at
  (`RecheckJob.FixedWithoutARecord`).
- A fact that still fires is never resolved. Four of the five rule families keep their ids as long
  as rule, host, port and discriminator are the same, whatever the protocol. The fifth, for
  instruction-like text, has one finding per host with the port of the first text, so the id stays
  exactly while that port comes first, or something else in the scan shares it
  (`InjectionIds.InjectionIdIsThereExactly`); when another comes before it, a port that still
  carries the text is resolved (`RecheckJob.TextBehindAnotherPortIsResolved`).
- Two candidates of one id "cannot" occur unless one rule fires twice on one observation, says a
  comment of the rule engine. One service under two protocols is such a case, and so are two keys of
  one digest: a candidate is reported exactly when no earlier one has its id
  (`Rules.ReportedExactlyWhenFirst`, `Rules.SecondProtocolIsLost`).
- A finding's history is append-only, and a closed finding stays closed, as long as no other write
  falls between a pass's read and its commit: rows are written back from the copy that was read,
  with no lock or version. A commit keeps every entry exactly when the history has not moved
  (`VerificationRuns.EntriesAreKeptExactly`, `VerificationRuns.FirstLossExactly`) and overwrites a
  dismissal exactly when it had read the finding open and proves it fixed
  (`VerificationRuns.ClosedIsOverwrittenExactly`). Both happen
  (`VerificationRuns.OverlapLosesAnEntry`, `VerificationRuns.DismissedBecomesResolved`). That only a
  covered, absent finding is resolved holds for every run, of the row as the pass read it.
- Enrichment "may never lower a score" holds exactly for weights that are not negative
  (`Enrichment.SafeExactlyWhenNonNegative`). The type of an indicator does not constrain the weight;
  the shipped rules meet the condition: phrase weights are validated to lie above 0 and at most 1
  (`cyber.ai.engine/app/agents/phishing/knowledge.py:74`), and every other rule sets a positive one.
- A reconciled ranking contains every indicator exactly once for every answer exactly when the
  indicators' ids are distinct (`Reconcile.FullRankingExactlyWhenDistinct`).
- A repeat of a batch is suppressed exactly while each key has a row in the window, and the window
  is judged by when the activity was observed, not when it was stored
  (`Dedup.RepeatInsertsNothingExactlyWhileInWindow`).
- A lookup of a CVE always gives a result with a status, except exactly after a final response whose
  body cannot be summarised, such as `{"containers": {"cna": null}}`, or a rate limit whose header
  parses as a non-number where the event loop refuses to sleep for one (`CveLookup.RaisesExactly`,
  `CveRuns.CrashedExactly`, `CveRuns.NullAuthorityEndsTheLookup`). `asyncio.sleep` refuses from
  Python 3.13; the shipped image has 3.12, where the model takes such a sleep to be over at once.
- What the cap on indicators drops is always the weakest evidence by weight, but not by severity
  floor: it keeps the strongest floor exactly when each dropped indicator is matched by a kept one
  (`Enrichment.CapKeepsFloorExactly`, `Enrichment.CapDropsAFloor`).
- A brand's own label in front of an unrelated domain is flagged exactly when the fold leaves the
  label alone, since it is compared unfolded with folded labels
  (`Lookalike.BrandIsFoundExactlyWhenKept`).
- Forbidden ranges are tested within one address family, so an entry can hold their IPv4-mapped
  forms (section 2.5.5.2 of RFC 4291); it does not exactly when it overlaps none of them
  (`ScanScope.MappedFormsAreAvoidedExactly`, `ScanScope.MappedFormIsAccepted`). The check of a
  single address does not test them, so what it admits depends on the allowlist, exactly
  (`ScanScope.AddressesAreCleanExactly`).

Also: a range covered by two allowlist entries together is refused
(`ScanScope.TwoHalvesAreNotTheWhole`), a full cache evicts even to refresh an entry it holds
(`CveRuns.StoringAgainEvicts`), legitimate domains can imitate each other
(`Lookalike.LegitimateDomainsCanCollide`), the edit distance is not a metric
(`EditDistance.TriangleFails`), and a version component of more than 4300 digits makes the whole
version unreadable, which a comment in `versions.py` takes to be unreachable.

## Model

| member | source | states |
|---|---|---|
| EditDistance.DamerauLevenshtein | cyber.ai.engine/app/agents/phishing/lookalike.py:176-209 | the three-row loop returns the cheapest edit script between the strings: some script (keep, replace, insert, delete, swap neighbours; no part edited twice) costs that much and none costs less |
| EditDistance.FillRow | cyber.ai.engine/app/agents/phishing/lookalike.py:192-207 | one pass of the inner loop turns a fresh row into the next row of the table, given the two rows before it |
| EditDistance.DistIsLowerBound | cyber.ai.engine/app/agents/phishing/lookalike.py:192-209 | no script between two prefixes is cheaper than their table cell |
| EditDistance.DistIsReached | cyber.ai.engine/app/agents/phishing/lookalike.py:192-209 | some script between two prefixes costs exactly their table cell |
| EditDistance.MinimumIsUnique | cyber.ai.engine/app/agents/phishing/lookalike.py:176-209 | being the cheapest cost pins the distance down to one number |
| EditDistance.Symmetric | cyber.ai.engine/app/agents/phishing/lookalike.py:176-209 | the distance does not depend on which string comes first |
| EditDistance.ZeroIffEqual | cyber.ai.engine/app/agents/phishing/lookalike.py:182-183 | the distance is zero exactly for equal strings |
| EditDistance.Bounds | cyber.ai.engine/app/agents/phishing/lookalike.py:176-209 | the distance lies between the length difference and the longer length |
| EditDistance.AppendMovesByOne | cyber.ai.engine/app/agents/phishing/lookalike.py:176-209 | one more character on one side moves the distance by at most one, either way |
| EditDistance.OneInsertion | cyber.ai.engine/app/agents/phishing/lookalike.py:196-200 | one inserted character, anywhere, is at most one edit |
| EditDistance.TriangleFails | cyber.ai.engine/app/agents/phishing/lookalike.py:201-207 | the distance is not a metric: the detour "ca", "ac", "abc" is shorter than the direct way |
| Lookalike.RegistrableIsIdempotent | cyber.ai.engine/app/agents/phishing/lookalike.py:148-173 | taking the registrable domain twice is taking it once, on hosts without white space and brackets, whatever counts as an IP literal |
| Lookalike.DomainsAreTheFixedPoints | cyber.ai.engine/app/agents/phishing/lookalike.py:168-173 | a name under a public suffix is its own registrable domain, and nothing else of two or more labels is |
| Lookalike.RegisteredIgnoresPrefix | cyber.ai.engine/app/agents/phishing/lookalike.py:168-173 | labels in front of a domain do not change which labels are registered |
| Lookalike.SubdomainRegistersToDomain | cyber.ai.engine/app/agents/phishing/lookalike.py:148-173 | any subdomain, cleaned and split, registers to its domain |
| Lookalike.PlainHostDecodesToItself | cyber.ai.engine/app/agents/phishing/lookalike.py:93-108 | splitting, decoding and rejoining a host without encoded labels gives it back |
| Lookalike.OwnSubdomainIsNeverFlagged | cyber.ai.engine/app/agents/phishing/lookalike.py:212-226 | a host under its own domain, without punycode, is never flagged against that domain |
| Lookalike.QuietMeansFarApart | cyber.ai.engine/app/agents/phishing/lookalike.py:250-259 | when two different comparable names are not flagged, every edit script between their folded forms takes more than two edits |
| Lookalike.AccusationHasScript | cyber.ai.engine/app/agents/phishing/lookalike.py:228-257 | a homoglyph, punycode or typosquat accusation comes with a script of at most two edits between the folded names, of none exactly for a homoglyph, and the domains differ |
| Lookalike.FindLookalike | cyber.ai.engine/app/agents/phishing/lookalike.py:262-272 | the result is the least domain, in sort order, that the host imitates, with its technique, and empty exactly when it imitates none |
| Lookalike.OneLetterApartIsFlagged | cyber.ai.engine/app/agents/phishing/lookalike.py:250-257 | comparable names one inserted letter apart are always flagged |
| Lookalike.QuietOnOwnMembersExactly | cyber.ai.engine/app/agents/phishing/lookalike.py:262-272 | a search finds nothing for any member of its own set, written without punycode, if and only if no two members imitate each other |
| Lookalike.LegitimateDomainsCanCollide | cyber.ai.engine/app/agents/phishing/lookalike.py:250-257 | two names under one suffix that differ by one inserted letter, both legitimate, imitate each other |
| Lookalike.BrandInFrontExactly | cyber.ai.engine/app/agents/phishing/lookalike.py:241-248 | a plain host under a domain more than two edits from the brand is flagged if and only if one of its labels folds to the brand's first label as written, and its own domain's first label does not |
| Lookalike.BrandIsFoundExactlyWhenKept | cyber.ai.engine/app/agents/phishing/lookalike.py:241-248 | a host with the brand's own label in front of such a domain is flagged if and only if the fold leaves that label alone, so never for a brand with a digit the fold rewrites |
| Scoring.CategoryContribution | cyber.ai.engine/app/agents/phishing/scoring.py:95-102 | the loop returns the decayed sum of the weights in descending order |
| Scoring.GroupByCategory | cyber.ai.engine/app/agents/phishing/scoring.py:121-123 | the dictionary holds each category's indicators in order, and no empty category |
| Scoring.ComputeWeightedScore | cyber.ai.engine/app/agents/phishing/scoring.py:113-157 | the grouping and the walk over the categories give the specified value and band |
| Scoring.ScoreIgnoresOrder | cyber.ai.engine/app/agents/phishing/scoring.py:175-182 | any reordering of the indicators scores the same |
| Scoring.RawValueIgnoresOrder | cyber.ai.engine/app/agents/phishing/scoring.py:113-147 | any reordering has the same value before rounding |
| Scoring.PermutationKeepsFloor | cyber.ai.engine/app/agents/phishing/scoring.py:160-172 | any reordering has the same strongest floor |
| Scoring.InsertRaises | cyber.ai.engine/app/agents/phishing/scoring.py:97-101 | inserting a non-negative weight into the descending list never lowers the decayed sum, although it pushes every later weight to a smaller factor |
| Scoring.TotalRises | cyber.ai.engine/app/agents/phishing/scoring.py:95-102 | one more non-negative weight never lowers a category's total |
| Scoring.OneMoreNeverLowers | cyber.ai.engine/app/agents/phishing/scoring.py:113-182 | one more indicator of non-negative weight lowers neither value, rounded value, band nor floor |
| Scoring.AppendingNeverLowers | cyber.ai.engine/app/agents/phishing/scoring.py:113-182 | nor do any number of them |
| Scoring.RoundIsNearest | cyber.ai.engine/app/agents/phishing/scoring.py:157 | rounding moves a value by at most half a ten-thousandth |
| Scoring.RoundIsMonotone | cyber.ai.engine/app/agents/phishing/scoring.py:157 | rounding keeps the order of values |
| Scoring.ValueStaysInUnitInterval | cyber.ai.engine/app/agents/phishing/scoring.py:146-157 | with non-negative weights the value, rounded or not, stays in [0, 1] for any number of indicators |
| Scoring.SubtotalIsCapped | cyber.ai.engine/app/agents/phishing/scoring.py:128-146 | the capped contributions never exceed what the present families allow |
| Scoring.BandsNeedFamilies | cyber.ai.engine/app/agents/phishing/scoring.py:57-63 | the aggregate band reaches medium, high, critical only with indicators from at least two, three, four categories, whatever the weights |
| Scoring.ContentAloneIsInfo | cyber.ai.engine/app/agents/phishing/scoring.py:43-63 | any amount of content evidence alone has aggregate band info |
| Scoring.FloorIsMaximum | cyber.ai.engine/app/agents/phishing/scoring.py:160-172 | the strongest floor is claimed by some indicator and exceeded by none |
| Enrichment.Merge | cyber.ai.engine/app/agents/phishing/nodes.py:127-132 | the dictionary loops and the sort give the specified merge, in descending key order |
| Enrichment.MergeAddsOnlyNewIds | cyber.ai.engine/app/agents/phishing/nodes.py:127-132 | merging keeps every existing indicator untouched and adds, for each new id, one of the added indicators and nothing else |
| Enrichment.EnrichmentNeverLowers | cyber.ai.engine/app/agents/phishing/nodes.py:98-132 | for any added indicators of non-negative weight, value, rounded value, band and strongest floor after merging are at least what they were |
| Enrichment.SafeExactlyWhenNonNegative | cyber.ai.engine/app/agents/phishing/nodes.py:98-132 | an indicator can be merged into every deterministic set without lowering the value if and only if its weight is not negative |
| Enrichment.NegativeWeightLowers | cyber.ai.engine/app/agents/phishing/nodes.py:98-132 | a concrete set that a negative weight lowers |
| Enrichment.ModelOnlyRaises | cyber.ai.engine/app/agents/phishing/nodes.py:236-250 | the reported severity is the higher of proposal and floor, with an undercut reported exactly when the proposal is below; without a model, or with an unknown word, it is the floor and no undercut |
| Enrichment.NothingTalksSeverityDown | cyber.ai.engine/app/agents/phishing/nodes.py:98-152 | from any distinct indicators through enrichment, scoring and the model, the reported severity is at least the band and every single floor of the start |
| Enrichment.CapKeepsFloorExactly | cyber.ai.engine/app/agents/phishing/nodes.py:80-84 | the cap keeps the strongest floor if and only if each dropped indicator is matched by a kept one of at least its floor; the sort before it looks at weights alone |
| Enrichment.CapDropsAFloor | cyber.ai.engine/app/agents/phishing/nodes.py:83-84 | a lighter indicator with the stronger floor gives way to a heavier one, for every such pair |
| Enrichment.NothingFoundIsTalkedDown | cyber.ai.engine/app/agents/phishing/nodes.py:72-152 | from everything the rules found, through cap, enrichment and model, the reported severity is at least every floor found, as long as the cap drops none |
| Versions.BelowIsOlder | cyber.ai.engine/app/agents/vulnerability/versions.py:45-63 | the padded tuple comparison is the order by first differing component, with zeros beyond the end |
| Versions.BelowIsStrictWeakOrder | cyber.ai.engine/app/agents/vulnerability/versions.py:53-63 | being below is irreflexive, transitive and splits at any middle version |
| Versions.Trichotomy | cyber.ai.engine/app/agents/vulnerability/versions.py:53-63 | two versions neither of which is below the other have the same components up to trailing zeros |
| Versions.TrailingZerosAreIgnored | cyber.ai.engine/app/agents/vulnerability/versions.py:45-50 | any number of trailing zeros on either side changes no comparison |
| Versions.InRangeIsTheInterval | cyber.ai.engine/app/agents/vulnerability/versions.py:66-89 | when both bounds parse, the range test is the half-open interval of the component order |
| Versions.AdjacentRangesPartition | cyber.ai.engine/app/agents/vulnerability/versions.py:66-89 | consecutive ranges cut their union in two, with nothing lost and nothing shared |
| Versions.ReadsBack | cyber.ai.engine/app/agents/vulnerability/versions.py:21-42 | a printed version in front of a suffix that does not continue the number is matched as exactly its components |
| Versions.PrintThenParse | cyber.ai.engine/app/agents/vulnerability/versions.py:21-42 | printing and parsing gives the version back, behind white space and an optional v and before any such suffix |
| Rules.OutdatedService | cyber.ai.engine/app/agents/vulnerability/rules.py:99-128 | the loop yields the outdated-service candidates that match, in knowledge-base order |
| Rules.RiskyExposed | cyber.ai.engine/app/agents/vulnerability/rules.py:135-165 | likewise for risky exposed services |
| Rules.KnownCves | cyber.ai.engine/app/agents/vulnerability/rules.py:172-203 | likewise for known CVEs, none without a banner |
| Rules.ScannerAssertedCves | cyber.ai.engine/app/agents/vulnerability/rules.py:236-279 | one candidate per asserted CVE id, in order |
| Rules.MarkObservation | cyber.ai.engine/app/agents/vulnerability/rules.py:301-307 | an observation marks its host once if any untrusted field of it reads like an instruction |
| Rules.MarksAreThoseThatStand | cyber.ai.engine/app/agents/vulnerability/rules.py:298-315 | a host is marked once, if and only if an observation of it or the artefact carries instruction-like text, at the port of the first such observation |
| Rules.InjectionCandidates | cyber.ai.engine/app/agents/vulnerability/rules.py:286-346 | one candidate per marked host, for its standing mark, and no others |
| Rules.BuildCandidates | cyber.ai.engine/app/agents/vulnerability/rules.py:353-385 | all families, deduplicated by id and sorted by severity, host, port and rule |
| Rules.DedupeKeepsIds | cyber.ai.engine/app/agents/vulnerability/rules.py:378-383 | deduplication keeps every id, once, and invents no candidate |
| Rules.ReportedExactlyWhenFirst | cyber.ai.engine/app/agents/vulnerability/rules.py:376-385 | of everything the families yield, a scan reports exactly the candidates that share their id with no earlier one |
| Rules.SecondProtocolIsLost | cyber.ai.engine/app/agents/vulnerability/rules.py:378-383 | one rule firing on one service under two protocols gives one id, and the second candidate is lost, whatever the digest |
| Rules.IdsAreThoseThatFire | cyber.ai.engine/app/agents/vulnerability/rules.py:353-385 | the ids of the result are those of the rules that fire and of the standing marks, no more and no fewer, even where digests collide |
| Rules.BannerIsNotInTheId | cyber.ai.engine/app/agents/vulnerability/rules.py:43-56 | with a port, no service, product, version or banner enters what tells two observations apart |
| Rules.FactKeepsItsId | cyber.ai.engine/app/agents/vulnerability/rules.py:43-92 | a rule of the same id that fires on the same host, port and discriminator gives the id given before, whatever else the scan or the knowledge-base entry now reads |
| InjectionIds.KeysTellPlaces | cyber.ai.engine/app/agents/vulnerability/candidates.py:36 | under one rule id and no discriminator, keys are equal only for one host and port, whatever characters the host holds |
| InjectionIds.KeysTellRules | cyber.ai.engine/app/agents/vulnerability/candidates.py:36 | keys differ when one rule id does not begin with the other |
| InjectionIds.StandingMarkIsThere | cyber.ai.engine/app/agents/vulnerability/rules.py:317-345 | the id for the first marked port of a host is always among the ids of the scan |
| InjectionIds.InjectionIdIsThereExactly | cyber.ai.engine/app/agents/vulnerability/rules.py:301-345 | the id for a host and port is in a scan if and only if the first text of the host stands at that port, or only the artefact carries any, or something else in the scan shares the id |
| InjectionIds.SharingIsACollision | cyber.ai.engine/app/agents/vulnerability/candidates.py:36-38 | something else shares the id only where two different keys have one digest, as long as no risky-service entry borrows the rule's name |
| VerificationContract.VerificationReport.CoverageFor | cyber.contracts/cyber_contracts/verification.py:109-114 | the first coverage entry for the host, or none when no entry names it |
| Recheck.ValidPorts | cyber.ai.engine/app/agents/vulnerability/verify.py:45-52 | the ports between 1 and 65535, and only those |
| Recheck.CheckTargets | cyber.ai.engine/app/agents/vulnerability/verify.py:178-186 | the loop over the targets collects each one's coverage and ids in order |
| Recheck.Verify | cyber.ai.engine/app/agents/vulnerability/verify.py:147-200 | the report of a pass: the coverage of the first targets up to the limit and the distinct ids observed on them |
| Recheck.ReportObserves | cyber.ai.engine/app/agents/vulnerability/verify.py:178-193 | an id is in the report exactly when the rules produced it from some parsed target |
| Recheck.CoversNothingExactlyWhenInconclusive | cyber.ai.engine/app/agents/vulnerability/verify.py:66-123 | a check covers no port exactly when the call failed, the output was unreadable, the host did not answer or no port was valid |
| Recheck.HonestExactlyForTcpUpToTheClip | cyber.ai.engine/app/agents/vulnerability/verify.py:102-115 | for findings under any protocol, every covered port was asked for under it exactly when the check was inconclusive, or the findings are TCP's and the target has at most sixty-four distinct valid ports |
| Recheck.UnscannedPort | cyber.ai.engine/app/agents/vulnerability/verify.py:45-52 | past sixty-four there is a port that is claimed and never named in the command |
| Recheck.TargetsPastTheLimitAreNotCovered | cyber.ai.engine/app/agents/vulnerability/verify.py:147-157 | a host only targets past the limit name is in no coverage |
| Recheck.OpenServicesAreObserved | cyber.ai.engine/app/agents/vulnerability/sources.py:91-107 | every open service of a parsed scan becomes an observation |
| Verification.Finding.Record | cyber.backend/app/services/verification.py:200-211 | one decision appends one history entry and sets the status to resolved exactly for a fixed finding; nothing else changes |
| Verification.ApplyVerification | cyber.backend/app/services/verification.py:186-222 | every row ends as its decisions in list order leave it, and each outcome is the decision on the row as it then stood, also for a row listed several times |
| Verification.Counts | cyber.backend/app/services/verification.py:85-89 | the dictionary counts each outcome and names only those that occur |
| Verification.TallyIsComplete | cyber.backend/app/services/verification.py:85-89 | the counts of the four outcomes add up to the decisions |
| Verification.ResolvedExactlyWhenProven | cyber.backend/app/services/verification.py:107-171 | a finding is fixed if and only if it is open, has a candidate id, asset and port, its host's first coverage entry was scanned, reachable and covers the port, and the id was not observed |
| Verification.RepeatsOnlyRecord | cyber.backend/app/services/verification.py:200-211 | deciding a row n times adds n entries, touches no fact, and resolves it exactly when the report proves it fixed |
| Verification.ObservedIsNeverResolved | cyber.backend/app/services/verification.py:159-164 | a finding whose id the report observed keeps its status, whatever is covered |
| Verification.CoverHosts | cyber.backend/app/services/verification.py:246-265 | the loop gives each host of an uploaded scan its coverage |
| Verification.ReportFromScan | cyber.backend/app/services/verification.py:225-288 | the loop gives the specified report for an uploaded scan |
| Verification.UploadProvesExactly | cyber.backend/app/services/verification.py:225-288 | an upload proves a fix exactly when the requested ports hold the port, the first entry of the host is not down and no finding of its batch carries the id |
| UploadedScans.ParseRequestedPorts | cyber.backend/app/services/ingestion/nmap.py:207-242 | the loops give, ascending and once each, exactly the valid ports some element asks for, under whatever protocol; a range wider than the span limit asks for none |
| UploadedScans.FixedByUploadExactly | cyber.backend/app/services/verification.py:225-288 | an upload proves a fix exactly when it asks for the port under some protocol, its first entry for the host is not down and its batch lacks the id |
| UploadedScans.UploadFixedUnaskedExactly | cyber.backend/app/services/ingestion/nmap.py:207-242 | some place on a host can be resolved although the upload never asked for it if and only if the host answered, the id is absent and some port is asked for under other protocols alone |
| UploadedScans.OneProtocolExactly | cyber.backend/app/services/ingestion/nmap.py:207-242 | an upload that asks under one protocol resolves a finding unasked exactly when that finding is not of the protocol |
| RecheckJob.GroupPorts | cyber.backend/app/tasks/verification_tasks.py:44-48 | the dictionary holds, per host, exactly the ports of its findings |
| RecheckJob.Targets | cyber.backend/app/tasks/verification_tasks.py:38-53 | one target per host in host order, with that host's ports ascending |
| RecheckJob.TargetsAreTheFindings | cyber.backend/app/tasks/verification_tasks.py:38-53 | a port is asked for on a host exactly when some finding is there |
| RecheckJob.FixedMeansChecked | cyber.backend/app/services/verification.py:107-171 | a fixed verdict names a target whose scan answered, that holds the port and did not produce the id; if the finding is TCP's and the target has at most sixty-four valid ports the command asked for its place, and if it is not TCP's never |
| RecheckJob.FixedUnscannedExactly | cyber.ai.engine/app/agents/vulnerability/verify.py:45-52 | a place on a target's host can be resolved although no command asked for it if and only if the scan answered, the id was not observed, and the target has more than sixty-four distinct valid ports, or any at all while the finding is not TCP's |
| RecheckJob.UdpFindingIsResolvedOverTcp | cyber.mcp.server/app/server.py:268-299 | whatever rule fires on a service that is not TCP's, the re-check of its one finding scans the port over TCP, finds it closed and resolves the finding |
| RecheckJob.SnmpIsResolvedOverTcp | cyber.ai.engine/app/agents/vulnerability/data/risky_services.json:269-279 | so it does for the shipped rule about SNMP on port 161 |
| RecheckJob.FixedWithoutARecord | cyber.mcp.server/app/server.py:239-244 | output that lists the host as up without a record of any port resolves every finding of the target, under every protocol |
| RecheckJob.StillFiringIsNeverResolved | cyber.ai.engine/app/agents/vulnerability/verify.py:97-103 | for all five rule families, if the fact a finding was made from fires again in any parsed scan of the pass, its id is observed and it keeps its status; for instruction-like text, firing again means that the first text of the host still stands at the port |
| RecheckJob.TextIsResolvedExactly | cyber.ai.engine/app/agents/vulnerability/rules.py:301-320 | a finding about instruction-like text is resolved if and only if its port is covered, no scan of the pass has the first text of its host at that port, and nothing else in the pass shares its id |
| RecheckJob.TextBehindAnotherPortIsResolved | cyber.ai.engine/app/agents/vulnerability/rules.py:301-320 | a port that still carries the text, behind another port with the same text, is resolved if and only if nothing else in the scan shares its id, for every host, text and pair of ports |
| RecheckJob.ChattySharesExactly | cyber.ai.engine/app/agents/vulnerability/candidates.py:36-38 | with no rule in the way, that is whenever the digest tells the two ports' keys apart |
| VerificationRuns.WriteBackAgreesExactly | cyber.backend/app/services/verification.py:200-214 | a commit from the row as read is what deciding the stored row would have been if and only if the history has not moved and the stored row would be decided the same |
| VerificationRuns.EntriesAreKeptExactly | cyber.backend/app/services/verification.py:204-208 | a commit keeps every stored entry and adds one per decision if and only if the history has not moved since the read |
| VerificationRuns.ClosedIsOverwrittenExactly | cyber.backend/app/services/verification.py:210-211 | a commit changes a closed finding if and only if that is a false positive and the row as read was proved fixed |
| VerificationRuns.StepStatus | cyber.backend/app/services/verification.py:107-222 | no event changes a finding's facts; the status changes only by an edit, or to resolved, exactly when a pass proves the row as it read it |
| VerificationRuns.CopyIsTheRowRead | cyber.backend/app/tasks/verification_tasks.py:64-71 | what a pass decides is the stored row at the moment it was read, and was open then |
| VerificationRuns.QuietIsFresh | cyber.backend/app/tasks/verification_tasks.py:64-107 | with no write to the finding between read and commit, the pass decides the row as stored |
| VerificationRuns.StepIsSafe | cyber.backend/app/services/verification.py:186-222 | then the commit adds one entry per decision and resolves an open finding exactly when its report proves it fixed |
| VerificationRuns.DismissedBecomesResolved | cyber.backend/app/tasks/verification_tasks.py:64-107 | a finding dismissed while its re-check waits for the scan is overwritten with resolved, for every finding the report proves fixed |
| VerificationRuns.OverlapLosesAnEntry | cyber.backend/app/tasks/verification_tasks.py:64-107 | two overlapping re-checks of one finding both decide it and leave one entry |
| VerificationRuns.DecidedAsOftenAsNamed | cyber.backend/app/tasks/verification_tasks.py:67-71 | a re-check decides an open, identified finding once per time the request names it |
| VerificationRuns.FactsNeverChange | cyber.backend/app/services/verification.py:200-211 | over any run, however passes overlap, rows stay and their facts stay |
| VerificationRuns.UndisturbedRunIsFresh | cyber.backend/app/tasks/verification_tasks.py:64-107 | if no write falls between any read of the finding and the commit, every pass of the run decides it as stored |
| VerificationRuns.HistoriesOnlyGrow | cyber.backend/app/services/verification.py:204-208 | over such a run the history only grows, at its end, and stands still exactly while no pass decides the finding |
| VerificationRuns.EveryDecisionIsRecorded | cyber.backend/app/services/verification.py:204-208 | and it gains exactly one entry per decision |
| VerificationRuns.FirstLossExactly | cyber.backend/app/services/verification.py:204-208 | the first commit after such a run keeps every entry if and only if no other pass has decided the finding since this one read it |
| VerificationRuns.ClosedStaysClosed | cyber.backend/app/services/verification.py:107-222 | over such a run a closed finding stays as it is until an edit |
| VerificationRuns.ResolvedOnlyByProof | cyber.backend/app/services/verification.py:107-222 | over any run, however passes overlap, a finding that ends resolved without an analyst's edit was proved fixed by one pass's own report, as that pass had read it, when it was open |
| VerificationRuns.PassesNeverReopen | cyber.backend/app/services/verification.py:107-222 | over any run without edits a status stays, or goes from open to resolved |
| VerificationRuns.ResolvedExactlyWhenProvenSince | cyber.backend/app/services/verification.py:107-222 | from any point without edits on, a finding ends resolved if and only if some pass proves it fixed, and otherwise as it was |
| VerificationRuns.DismissalIsLostOnlyToAnEarlierRead | cyber.backend/app/services/verification.py:107-222 | a closed finding is changed only by a pass that read it before it was closed |
| RecheckScans.ResolvedByRecheckWasScanned | cyber.backend/app/tasks/verification_tasks.py:77-107 | over runs whose re-checks are scanned for the findings they read, one resolved by a re-check had its place asked for by the command, or it is not TCP's, or more than sixty-four ports were asked for on its host |
| RecheckScans.OneTargetForAll | cyber.backend/app/tasks/verification_tasks.py:38-53 | findings on the first n ports of a host make one target with exactly those ports |
| RecheckScans.RequestPastTheClip | cyber.backend/app/tasks/verification_tasks.py:34 | sixty-five findings on one host fit in a request of at most two hundred, and one is resolved by a scan never told its port |
| CveLookup.WaitIsBoundedExceptForNaN | cyber.mcp.server/app/tools/cve.py:51-65 | the back-off is positive and at most five seconds for every header except one that parses as a non-number |
| CveLookup.CveLookup.constructor | cyber.mcp.server/app/tools/cve.py:77-95 | an empty cache, no slot claimed, a non-negative interval |
| CveLookup.CveLookup.WaitForSlot | cyber.mcp.server/app/tools/cve.py:97-107 | claims the later of now and the next slot, and moves the next slot one interval on |
| CveLookup.CveLookup.Cached | cyber.mcp.server/app/tools/cve.py:123-130 | a live entry is a hit; an expired one is removed |
| CveLookup.CveLookup.Store | cyber.mcp.server/app/tools/cve.py:132-139 | adds the entry, first evicting one closest to expiry when the cache is full; nothing when caching is off |
| CveLookup.ReadScore | cyber.mcp.server/app/tools/cve.py:202-214 | the loop gives the first usable score, rounded to a tenth, unless a number too big to convert comes first |
| CveLookup.Summarize | cyber.mcp.server/app/tools/cve.py:217-262 | the record's own text and scores come before the authority's, and an authority that is not an object, or a score that overflows, raises |
| CveLookup.RaisesExactly | cyber.mcp.server/app/tools/cve.py:165-197 | a final response raises if and only if it is no error and its body is nested too deep, has an authority that is not an object, or a score too big to convert before any usable one |
| CveLookup.CveLookup.Conclude | cyber.mcp.server/app/tools/cve.py:155-199 | the ending of a final response; its payload is kept only when it is a record or a definite not-found, and nothing is kept when it raises |
| CveRuns.SlotsAreSpaced | cyber.mcp.server/app/tools/cve.py:97-107 | in every reachable state of every interleaving, two granted slots are at least the interval apart and none precedes its claim |
| CveRuns.BurstTakesOneIntervalEach | cyber.mcp.server/app/tools/cve.py:34-42 | simultaneous claims are granted exactly one interval after another |
| CveRuns.AtMostTwoRequests | cyber.mcp.server/app/tools/cve.py:109-121 | a lookup sends at most two requests, none before its slot |
| CveRuns.CrashedExactly | cyber.mcp.server/app/tools/cve.py:141-199 | over every run a lookup ends without a reply if and only if it got a rate limit whose header parses as a non-number, on an event loop that refuses to sleep for one, or a final response whose body cannot be summarised |
| CveRuns.NullAuthorityEndsTheLookup | cyber.mcp.server/app/tools/cve.py:225-241 | a run in which the first reply to a well-formed id, a record whose authority is null, ends the lookup |
| CveRuns.HitIsTheLastKeptAnswer | cyber.mcp.server/app/tools/cve.py:123-139 | the cache never exceeds 512 entries, and a hit is the last answer kept for the id, definite and within its time to live |
| CveRuns.FreshAnswersSurvive | cyber.mcp.server/app/tools/cve.py:132-139 | a live answer is still a hit unless answers for 511 different other ids have been kept since |
| CveRuns.StoringAgainEvicts | cyber.mcp.server/app/tools/cve.py:135-139 | keeping an answer for an id a full cache already holds evicts another entry all the same |
| ScanScope.ContainsIsInterval | cyber.mcp.server/app/tools/targets.py:127-130 | the mask test for membership is the interval from base to broadcast |
| ScanScope.BlocksAreLaminar | cyber.mcp.server/app/tools/targets.py:334-335 | two networks of one version overlap if and only if one contains the other |
| ScanScope.OverlapMeansCommonAddress | cyber.mcp.server/app/tools/targets.py:334-335 | the endpoint test finds a common address exactly when there is one |
| ScanScope.SubnetMeansSubset | cyber.mcp.server/app/tools/targets.py:292-300 | the endpoint comparison is the subset relation on addresses |
| ScanScope.ParseNetworks | cyber.mcp.server/app/tools/targets.py:90-103 | the readable entries, all valid networks, and no others |
| ScanScope.DecideHostname | cyber.mcp.server/app/tools/targets.py:133-207 | a name is allowed exactly when it resolved and every answer is readable and in scope; the address handed on is the first IPv4 one, or the first of all if there is none |
| ScanScope.TouchMeansSharing | cyber.mcp.server/app/tools/targets.py:334-340 | the forbidden test refuses exactly the blocks that share an address with a forbidden range |
| ScanScope.AllowedExactlyWhenContained | cyber.mcp.server/app/tools/targets.py:303-360 | a range is allowed if and only if it parses, avoids every forbidden address, is small enough and lies in one allowlist entry |
| ScanScope.AllowedRangeReachesOnlyScope | cyber.mcp.server/app/tools/targets.py:303-360 | every address of an allowed range is in scope, outside every forbidden range and passes the single-address check; the range has at most 1024 addresses |
| ScanScope.AddressesAreCleanExactly | cyber.mcp.server/app/tools/targets.py:147-157 | the single-address check admits no forbidden address if and only if no allowlist entry overlaps a forbidden block |
| ScanScope.MoreScopeNeverRefuses | cyber.mcp.server/app/tools/targets.py:303-360 | adding allowlist entries never changes an allow |
| ScanScope.TwoHalvesAreNotTheWhole | cyber.mcp.server/app/tools/targets.py:350-358 | a range authorised as its two halves is refused although each address is in scope |
| ScanScope.AcceptedIsBoundedAndClean | cyber.contracts/cyber_contracts/scope.py:47-84 | an accepted scope entry has at most 65536 addresses and shares none with a forbidden range |
| ScanScope.MappedFormsAreAvoidedExactly | cyber.contracts/cyber_contracts/scope.py:75-82 | a block holds no IPv4-mapped form of a forbidden address if and only if it is an IPv4 block or overlaps no forbidden block's mapped form |
| ScanScope.MappedFormIsAccepted | cyber.contracts/cyber_contracts/scope.py:75-84 | the mapped form of the link-local block is accepted |
| ScanScope.AttestedScopeIsSweepable | cyber.contracts/cyber_contracts/scope.py:47-84 | a range inside an attested entry is allowed, or refused for its size alone |
| Prioritize.ScoresAreOutOfOneHundred | cyber.ai.engine/app/agents/vulnerability/prioritize.py:149-199 | no factor exceeds its maximum, the maxima add up to 100, and so no score exceeds 100 |
| Prioritize.PrioritizeCandidates | cyber.ai.engine/app/agents/vulnerability/prioritize.py:202-228 | every candidate once, with its own score and factors, ranks 1 to n, scores never rising, equal scores in input order |
| Prioritize.SortedPositions | cyber.ai.engine/app/agents/vulnerability/prioritize.py:215-220 | each sorted row comes from its own place in the input, each place once |
| AssetRanking.GroupByHost | cyber.ai.engine/app/agents/vulnerability/prioritize.py:266-273 | the dictionary holds, per host, its findings in order, and its keys are the hosts seen |
| AssetRanking.RankAssets | cyber.ai.engine/app/agents/vulnerability/prioritize.py:253-291 | each asset with a finding appears once with its own figures, in a strict order |
| AssetRanking.FiguresAgree | cyber.ai.engine/app/agents/vulnerability/prioritize.py:275-288 | an asset's top score and worst severity are reached and not exceeded by its findings, and its tally counts each severity |
| AssetRanking.TallyCounts | cyber.ai.engine/app/agents/vulnerability/prioritize.py:275-281 | the tally counts each severity, names only those that occur, and adds up |
| AssetRanking.RankingConserves | cyber.ai.engine/app/agents/vulnerability/prioritize.py:253-291 | over the ranking, finding counts and totals add up to the findings with a known candidate and their scores |
| AssetRanking.WorstFindingLeads | cyber.ai.engine/app/agents/vulnerability/prioritize.py:256-260 | an asset with a finding above every finding of another ranks before it |
| Reconcile.ReconcileAnswer | cyber.ai.engine/app/agents/phishing/reconcile.py:51-104 | the loop gives the named, unknown and duplicate ids and the ranking: named first, the rest in rule order |
| Reconcile.AnswerIsAccountedFor | cyber.ai.engine/app/agents/phishing/reconcile.py:71-80 | each entry of the answer is named, unknown or duplicate, once |
| Reconcile.NamedAreTheMentioned | cyber.ai.engine/app/agents/phishing/reconcile.py:71-80 | an id is named exactly when it is known and mentioned |
| Reconcile.NamedInMentionOrder | cyber.ai.engine/app/agents/phishing/reconcile.py:71-80 | named ids stand in the order of their first mentions |
| Reconcile.RankingIsPermutation | cyber.ai.engine/app/agents/phishing/reconcile.py:82-87 | for distinct ids the ranking is a permutation of the indicators, whatever the answer |
| Reconcile.FullRankingExactlyWhenDistinct | cyber.ai.engine/app/agents/phishing/reconcile.py:60-64 | for ids without outer white space, every answer gives a permutation if and only if the ids are distinct |
| Dedup.NarrowingIsExact | cyber.backend/app/crud/crud_finding.py:160-186 | for every key of the batch the narrowed query answers as a scan of the whole window would |
| Dedup.PersistFindings | cyber.backend/app/services/orchestration.py:56-100 | the loop inserts the fresh findings in order, names the titles of the rest, and the two add up to the batch |
| Dedup.FreshAreFirstOccurrences | cyber.backend/app/services/orchestration.py:75-84 | the inserted rows are the first occurrences of the new keys, all of them, in order |
| Dedup.EachKeyOnce | cyber.backend/app/services/orchestration.py:56-100 | afterwards each key of the batch stands once among window and new rows, and other keys stand as before |
| Dedup.RepeatInsertsNothingExactlyWhileInWindow | cyber.backend/app/services/orchestration.py:56-100 | a repeat of the batch inserts nothing if and only if each of its keys has a stored row in the later window, or is new to the window and its first finding lies in the later one |
| Dedup.PromptRepeatIsSuppressed | cyber.backend/app/services/orchestration.py:56-100 | a batch observed within the window and repeated in it is suppressed whole |
| Untrusted.NoMarkerIsLeft | cyber.ai.engine/app/agents/common/untrusted.py:89 | the left-to-right replacement leaves no opening marker anywhere, not even one it made out of its surroundings |
| Untrusted.ReplaceKeepsLength | cyber.ai.engine/app/agents/common/untrusted.py:89 | the replacement keeps the length |
| Untrusted.HarmlessTextIsKept | cyber.ai.engine/app/agents/common/untrusted.py:89 | text without the marker passes through unchanged |
| Untrusted.ExactlyTwoMarkers | cyber.ai.engine/app/agents/common/untrusted.py:63-90 | for every content, and a label without the marker, the wrapped text holds exactly two markers, at stated positions |
| Untrusted.ReadsBackWhatWasWrapped | cyber.ai.engine/app/agents/common/untrusted.py:78-90 | reading between the markers gives back exactly the sanitised, truncated content |
| Untrusted.HarmlessContentIsReadVerbatim | cyber.ai.engine/app/agents/common/untrusted.py:78-90 | content that fits and never spells the marker is read back verbatim |
| NmapBanner.FindGroup | cyber.ai.engine/app/parsers/nmap.py:191-200 | the right-to-left scan finds the shortest balanced suffix exactly when there is one |
| NmapBanner.SplitTrailingParens | cyber.ai.engine/app/parsers/nmap.py:180-200 | the text before that group and the text inside it, trimmed; or the whole text when there is none |
| NmapBanner.SplitIsUnique | cyber.ai.engine/app/parsers/nmap.py:180-200 | the split is determined by the text |
| NmapBanner.SplitRebuilds | cyber.ai.engine/app/parsers/nmap.py:180-200 | body and group, with the parentheses and some white space, are the text |
| NmapBanner.GroupSplitsBack | cyber.ai.engine/app/parsers/nmap.py:180-200 | a body followed by a balanced group in parentheses splits back into the two |
| NmapBanner.SplitNormalBanner | cyber.ai.engine/app/parsers/nmap.py:203-227 | the extra information is the group, and product and version are the body split at the first word that starts with a digit |
| NmapBanner.BannerConservesWords | cyber.ai.engine/app/parsers/nmap.py:218-227 | the words of product and version, in order, are the words of the body, and the version starts at the first that begins with a digit |
| NmapBanner.JoinedWordsReadBack | cyber.ai.engine/app/parsers/nmap.py:218-224 | words joined by single spaces split back into themselves |
| Sorting.SortIsStable | cyber.ai.engine/app/agents/vulnerability/prioritize.py:215-220 | elements with equal keys keep their order: what every sort above relies on |
| Sorting.SortedIsUnique | cyber.ai.engine/app/agents/phishing/scoring.py:97 | under a total order a bag has one sorted arrangement |

## Left out

- HTTP clients, the MCP session, subprocess scanners, DNS, databases, job queues, web endpoints and settings: plumbing around the decisions; what they return is an input.
- Language-model calls, prompts and the mapping of their errors: the answer is an arbitrary input.
- Unicode tables: letters change case and digits are read in ASCII only; white space is the full list. Normalisation, the confusables table and punycode decoding are parameters.
- Scores are exact reals; binary rounding inside a float sum is not modelled, rounding to four places is. The feature vector stored beside a score is not modelled.
- The rules' knowledge data and patterns, the id digest and the detector for instruction-like text: arbitrary inputs. Evidence, titles, remediation text and notes are dropped.
- Reason and detail texts, log lines and the wall-clock stamp of a history entry.
- A target with no valid port leaves the tool to its default sweep; the command is then absent in the model, and the coverage is empty as in the code.
- A CVE record's dates, references and exploitation flag: the payload carries one text and one score. Turning a decoded value into text is taken to succeed.
- An event loop that stops as a whole on a sleep for a non-number, as some timers do: the model knows loops that refuse it and loops that take it to be over at once.
- Whether the scanner examines every port it is asked for: a place counts as scanned when the command asks for it. A finding recorded without a protocol is given the benefit of the doubt.
- The text of a `services` attribute is given part by part: a port, a range, or neither.
- Cache eviction between entries that expire together: the model allows any of them, the code takes the first listed.
- The link-fetch policy, the text clean-up before a single target is checked, and allowlisted local names in `targets.py`: more branches of the same checks.
- Report formats other than the banner text of normal nmap output, and the regular expressions around it: dominated by library parsing.
- How the fence token is derived from a label is a parameter: what is used is that it holds no angle bracket and no line break.
- The order of the severity names inside an asset's tally, which is a dictionary's listing order.
- The rounding of a priority score to two places: its points are whole numbers, so the model's scores are too and the rounding changes nothing.
- One read of a row, one statement that selects rows and one commit are each taken at once; that the database isolates them is assumed, not modelled. A pass that never commits, because its job is killed, is a run in which its commit does not come.
