# lazyit: verified models

Dafny models of the parts of lazyit whose correctness depends on more than one function, with proofs of
what they are for. `dafny verify dfyconfig.toml` checks the whole project.

**The reporting agent** (`agent/`). Each run collects a package list, compares its fingerprint with the one
it remembers and may leave the list out of its report. `SoftwareDelta` is that decision, `InfraReport` what
the server does with a report (the current build and the one from before the contract), `AgentFiles` the two
files the agent keeps, `AgentRun` one run as the ordered effects it has. `DeltaProtocol` puts them together
as a state machine over reports, losses, crashes, file damage, upgrades and rollbacks; `DeltaRefinement`,
`DeltaHistory` and `DeltaSaving` prove what is true of whole histories. `Fingerprint` models the shipped
fingerprint, `FingerprintDetects` what it can tell apart for certain; the protocol results hold for every
fingerprint function with usable results. `PackageSchema` is what the report
schema does to a list, and which packages the fingerprint cannot tell apart. `AgentPolicy`, `HostConfig` and
`ConfigFile` are the server policy, the host's veto and the files and variables the veto is read from; `Globs` is
the match of an exclusion pattern, `Reporting` what the policy leaves of the facts a run collected. `NoProxy` is
the `NO_PROXY` match.

**The Markdown passes and the editor** (`web/`). `Patterns` models the token patterns twice, as sets of texts
and as a scan that never goes back, and proves the two equal. `Scanner` is `splitText` for any such pattern,
`Tokens` the three token kinds, `Walk` the tree walk, `Passes` the three passes, `PassMeaning` which result is the
right one, `AttachmentRefs` the image
pre-pass, `Callouts` the blockquote pass, `PageRender` all of them in the order the page runs them. These are
functions on values (`Hast`); `HastTree` and `CalloutTree` are the same passes on mutable nodes whose
`children` array is replaced in place, proved equal to the functions. `Editor` is the completion of an open
token, `Uploads` the editor's concurrent image uploads, `SessionToken` the `jwt` callback.

**The development bootstrap** (`scripts/`). `EnvLines` is the two edits of an `.env` line list, `DevEnv` what
they do to the lines about one key, `LocalWiring` the composite edits of the API's and the web's file,
`WiringMeaning` what those leave in a file, `EnvText` the same on texts, as loops over arrays of lines.

## What the proofs found

- The environment alone cannot turn the hypervisor collector off: `LAZYIT_COLLECT_HYPERVISOR` is missing from
  the list of keys read from the environment (`HostConfig.EnvironmentVetoReachesIff`).
- Merging the host's exclusion patterns into the server's can push a server pattern over the cap of 32, so that
  with one more exclusion on the host a run reports an interface which the server had excluded, against the claim
  that "adding an exclusion can only ever narrow" (`Reporting.AddingAnExclusionCanWiden`,
  `Reporting.OnePatternCanWiden`). `AgentPolicy.StricterLimitsNarrowFurther` says exactly when no pattern is lost,
  `Reporting.NamesStayExcludedIff` what that means for names.
- An excluded package makes room under the package cap for one behind it, so a narrower policy can report packages
  that the wider one does not; `Reporting.NarrowerSoftwareIff` says exactly when.
- The pattern match takes a `*` in the value for the one in the pattern. It decides every pattern for a value if
  and only if the value holds no `*` (`Globs.LoopIsExactIff`); a match it reports is always right.
- A package's name or version can contain the control characters that the fingerprint separates fields and entries
  with; the schema does not forbid them there, against the comment beside them. Among packages with a listed source
  or none, one has its entry to itself exactly when its name and version hold no field separator and it has a
  version, other than the text that stands for a missing one (`PackageSchema.ListedIsUniqueIff`;
  `PackageSchema.AllowedIsUniqueIff` with the lengths the schema admits). Among packages without separators the
  text that is hashed identifies the inventory (`Fingerprint.TextIdentifiesInventory`).
- A report that was applied and not recorded, whatever it said, lets the next omission leave the server with an
  outdated inventory, or with none, unless it had no list to send or sent the one that is then omitted
  (`DeltaRefinement.LostAckBreaksRefinementIff`).
- A server that does not know a package source stores another list than the agent collected and hashes another
  text (`PackageSchema.TextSurvivesIff`); unless the two hashes happen to be equal, every omission of that list
  draws a resend request (`PackageSchema.OmissionStandsIff`).
- Setting an `.env` key can leave two lines that set it: an indented line is not replaced, and neither is one
  after a commented line. The result has one exactly when no other line set it (`DevEnv.OneLineSetsIff`).
- An unacceptable session secret on an indented line makes every bootstrap run mint a new one
  (`LocalWiring.ApiWiringIdempotentIff`).
- A completion with the caret inside the trigger leaves the end of the trigger behind
  (`Editor.CaretInsideTheTrigger`).
- An image whose file name holds the end of a placeholder, as in `x…](uploading:ab12cd)`, can take another
  upload's replacement; a name is harmless exactly when it does not (`Uploads.HarmlessNameIff`).
- An upload that begins while the caret is inside another one's placeholder makes the result depend on which
  settles first: the outer placeholder is replaced in its place exactly when the inner upload fails before
  (`Uploads.OuterIsFoundIff`, `Uploads.NestedOrders`, `Uploads.NestedOrdersAgreeIff`).
- A read hands out an expired token exactly when it just got one whose lifetime does not outlast the part of a
  second by which its expiry is rounded down (`SessionToken.ExpiredTokenIsReturnedIff`).
- The pre-pass and the post-pass resolve exactly the attachment images when no text held a sentinel, and only
  then (`AttachmentRefs.RoundTripIffFree`).

## Model

| member | source | states |
|---|---|---|
| SoftwareDelta.ReaderRecoversIff | apps/agent/src/software-delta.ts:95-124 | over any run of reports, whatever the agent remembers and the reader holds, the reader recovers every collection from the fields sent, if and only if the first report with anything to say does not leave out a list it lacks |
| SoftwareDelta.TruthfulMemoryRecovers | apps/agent/src/software-delta.ts:100-112 | a remembered fingerprint that describes what the reader holds goes on doing so, through unavailable and disabled runs, and nothing is lost |
| InfraReport.ParseIdempotent | packages/shared/src/schemas/infra.ts:1512-1550 | parsing a parsed report changes nothing more about its list bound and its fingerprint |
| PackageSchema.ParsedListIsStable | packages/shared/src/schemas/infra.ts:1501-1512 | a list that one build has parsed goes unchanged through any build that knows as many sources |
| PackageSchema.ListIsParsedIff | packages/shared/src/schemas/infra.ts:1501-1512 | which lists are accepted, with the bounds on the list, the names and the versions, and what each package is read as |
| PackageSchema.TextSurvivesIff | packages/shared/src/schemas/infra.ts:1508 | for packages without separators, agent and server hash the same text exactly when the server knows every source listed |
| PackageSchema.OmissionStandsIff | apps/agent/src/index.ts:149-186 | after a list has arrived, its omission draws no resend request exactly when the server's reading of it has the agent's fingerprint; with every source known it never does |
| PackageSchema.ShippedAgentsRefine | packages/shared/src/schemas/infra.ts:1657-1675 | with the shipped fingerprint, an agent without memory leaves the server with what sending every list whole would |
| InfraReport.IngestKeepsConsistent | apps/api/src/infra/infra.service.ts:1865-1963 | whatever is reported, to either build, a stored fingerprint stays the fingerprint of the stored list |
| InfraReport.NewServerObeysTheDirective | apps/api/src/infra/infra.service.ts:216-237 | a list replaces, an unavailable or unchanged answer preserves, a disabled one clears, whether or not the write is skipped |
| InfraReport.ResendIffUncorroborated | apps/api/src/infra/infra.service.ts:264-271 | an omission is answered by a resend request exactly when the stored list and fingerprint do not corroborate it |
| InfraReport.ResendIff | apps/api/src/infra/infra.service.ts:216-271 | for every answer: a list and a clearing ask for nothing, any other asks exactly for what the store does not corroborate |
| InfraReport.WriteIsSkippedIff | apps/api/src/infra/infra.service.ts:1865-1963 | for every stored blob, a write is skipped exactly when the compared facts are those stored and the blob already says what the answer comes to, or when a preserving answer meets a stored key that is not a list |
| InfraReport.WrittenBlobIs | apps/api/src/infra/infra.service.ts:1865-1963 | whatever is written carries the facts of the report, and the list that came, the one that was preserved, or none, each with its fingerprint |
| InfraReport.FactsAreThoseReported | apps/api/src/infra/infra.service.ts:1865-1963 | after any report the node has its facts, unless the current build skipped the write; the old build writes all it was sent and no fingerprint |
| InfraReport.SkippedWriteLosesNothing | apps/api/src/infra/infra.service.ts:1865-1963 | a list that arrives and is skipped is the one stored, exactly when the stored fingerprint is that of the stored list |
| InfraReport.AckSays | apps/api/src/infra/infra.service.ts:1498-1515 | only the current build advertises the capability, and the resend flag says what the server decided |
| DeltaProtocol.AlwaysConsistent | apps/agent/src/software-delta.ts:13-26 | the stored fingerprint describes the stored list after every step of every history |
| DeltaProtocol.OnlyRecordedReportsAreRemembered | apps/agent/src/index.ts:217-293 | a rejected, lost or unrecorded report never changes what the agent remembers |
| DeltaProtocol.AdoptedByOneStep | apps/agent/src/index.ts:295-326 | a run whose answer was read, carried a policy the schema accepts and was written out leaves that policy to the next run; damage leaves the default; no other step changes what the next run loads |
| DeltaProtocol.PolicyInForce | apps/agent/src/index.ts:295-326 | after any history the next run starts from what the last such run was served, or from the default if the file was damaged since |
| DeltaProtocol.PolicyStays | apps/agent/src/index.ts:295-326 | while neither happens, from what it started from before |
| DeltaProtocol.TwoReportsHeal | apps/agent/src/software-delta.ts:95-124 | from any memory and any consistent store, two consecutive collected reports, the first recorded and the second applied, leave the server with the second list, on either build and with an unreadable first acknowledgement |
| DeltaProtocol.DivergenceIsAlwaysDetected | apps/agent/src/index.ts:261-278 | when the current build ends up without the list just collected, its answer asks for it |
| DeltaRefinement.DeltaRefinesFullReports | apps/agent/src/software-delta.ts:95-124 | when every applied report is recorded, after every step the store is the one of an agent that always sends the whole list; the invariant is that a remembered fingerprint describes what the server holds |
| DeltaRefinement.FreshAgentsRefine | apps/agent/src/policy.ts:133-168 | an agent with no readable memory starts such a run correctly, whatever the server holds |
| DeltaRefinement.LostAckBreaksRefinementIff | apps/agent/src/index.ts:219-293 | after one report that was applied and not recorded, the next leaves both stores alike if and only if it is no omission, or the unrecorded one had no list to send or sent that very list |
| DeltaRefinement.LostAckBreaksRefinement | apps/agent/src/index.ts:219-249 | which lists the two are left with when an unrecorded list is followed by an omission of another |
| DeltaRefinement.OnlyDisabledEmptiesTheInventory | apps/agent/src/software-delta.ts:13-16 | against the current build only a disabled answer takes a stored list away |
| DeltaHistory.NoOmissionWithoutEvidence | apps/agent/src/index.ts:278-289 | in every history a list is left out only if the last recorded acknowledgement proved the capability and the fingerprint recorded with it is the collected one |
| DeltaHistory.ExposureIsBounded | apps/agent/src/software-delta.ts:18-26 | reports in which an old server loses its list number at most the rollbacks plus the applied reports never recorded |
| DeltaHistory.RollbacksBoundExposure | apps/agent/src/software-delta.ts:58-69 | when every applied report is recorded, rollbacks alone bound that number |
| DeltaHistory.EveryPolicyHasProvenance | apps/agent/src/index.ts:295-326 | with a kill allowed between any two effects, a run starts from the default policy or from one the schema accepted in a strictly earlier acknowledgement |
| DeltaHistory.RunsUseTheLastPolicyServed | apps/agent/src/index.ts:295-326 | the converse: once a run has left a policy, every later run uses it, until another one is left or the file is damaged |
| DeltaSaving.MemoryAfterARun | apps/agent/src/index.ts:261-293 | what a recorded run leaves in memory: its time, the capability its answer proved, and the fingerprint of the list collected, unless that list was asked for again |
| DeltaSaving.LossIsForgetting | apps/agent/src/policy.ts:133-168 | after the state file is lost or damaged nothing is known, and the next list collected is sent whole |
| DeltaSaving.SentAtMostTwice | apps/agent/src/software-delta.ts:95-124 | from any memory and any consistent store, while the current build answers and the list keeps its fingerprint, every report after the second leaves the list out and the server has it |
| DeltaSaving.TooLongIsNeverSettled | packages/shared/src/schemas/infra.ts:1512-1550 | a fingerprint too long for the schema is the one exception: each such omission is asked for again |
| AgentFiles.StateRoundTrip | apps/agent/src/policy.ts:133-172 | what is read is always valid; a written state is read back exactly when it is valid |
| AgentFiles.PolicyRoundTrip | apps/agent/src/policy.ts:103-130 | a policy the schema accepts is written whole and is what the next run loads |
| AgentFiles.OnlyUsablePoliciesAreWritten | apps/agent/src/policy.ts:103-130 | a policy the schema rejects is not written, and what is written is what is loaded |
| AgentFiles.UnusableCacheReadsAsDefault | apps/agent/src/policy.ts:103-118 | whatever is on disk the next run has a policy within the bounds: the one there, or the default |
| AgentFiles.PrivateFile.WritePrivate | apps/agent/src/policy.ts:83-92 | wherever it stops, the next read finds the whole old document or the whole new one |
| AgentRun.Instance.Ingest | apps/api/src/infra/infra.service.ts:1865-1963 | the node and the answer are those of the build that runs |
| AgentRun.Host.Record | apps/agent/src/index.ts:285-326 | the state file is written first, the policy file only by a run that survives and got a usable policy |
| AgentRun.Host.Report | apps/agent/src/index.ts:200-326 | one run, for every way it can be cut short, is one step of the protocol, the policy it leaves included |
| Fingerprint.FingerprintIgnoresOrder | packages/shared/src/schemas/infra.ts:1606-1675 | the order of the list does not matter |
| Fingerprint.TextIdentifiesInventory | packages/shared/src/schemas/infra.ts:1606-1675 | without separators inside fields, two lists give the same text to hash exactly when they hold the same packages as often |
| FingerprintDetects.SameFingerprintIff | packages/shared/src/schemas/infra.ts:1657-1675 | two lists share a fingerprint exactly when they are as long and their texts share all three hashes |
| FingerprintDetects.OneCharacterChangesTheHash | packages/shared/src/schemas/infra.ts:1628-1636 | changing one character anywhere in a text, to one with another code unit, changes its hash under every seed |
| FingerprintDetects.SmallChangesAreNoticed | packages/shared/src/schemas/infra.ts:1638-1675 | so a change that comes to one character of the text always changes the fingerprint, and so does another number of packages |
| PackageSchema.ListedIsUniqueIff | packages/shared/src/schemas/infra.ts:1608-1613 | among packages with a listed source or none, no other has this one's entry exactly when name and version hold no field separator and there is a version, not like an absent one |
| PackageSchema.AllowedIsUniqueIff | packages/shared/src/schemas/infra.ts:1501-1512 | the same among the packages the schema lets through, with its bounds on name and version |
| PackageSchema.MistakenInAList | packages/shared/src/schemas/infra.ts:1657-1675 | a list the schema lets through, with a package in it that can be mistaken, has the fingerprint of a list of other packages that it lets through too |
| PackageSchema.EntrySeparatorCollides | packages/shared/src/schemas/infra.ts:1612-1613 | a version that holds the end of its entry and the beginning of the next makes two lists of other packages collide, all of them let through |
| PackageSchema.SuchPackagesArrive | packages/shared/src/schemas/infra.ts:1501-1512 | three packages, of any listed source, for which this happens within the bounds |
| Fingerprint.FingerprintSurvivesTheSchema | packages/shared/src/schemas/infra.ts:1657-1675 | the report schema accepts every shipped fingerprint unchanged |
| AgentPolicy.UnionKeepsAllIffItFits | packages/shared/src/schemas/agent-policy.ts:448-451 | no pattern of either side is lost exactly when the distinct ones fit under the cap |
| AgentPolicy.CapCanDropAServerExclusion | packages/shared/src/schemas/agent-policy.ts:448-451 | one host pattern on top of a full server list drops the server's last one |
| AgentPolicy.KeptIffEarly | packages/shared/src/schemas/agent-policy.ts:448-451 | a pattern is kept exactly when fewer than 32 distinct ones stand before it, the host's in front; and each is kept once |
| AgentPolicy.ParsePolicyIff | packages/shared/src/schemas/agent-policy.ts:87-251 | a document is accepted exactly when what it reads as is within the bounds: patterns trimmed, a missing hypervisor key read as on |
| AgentPolicy.UnionKeepsTheHosts | packages/shared/src/schemas/agent-policy.ts:448-451 | the host's own patterns come first, so the cap never drops one that fits by itself |
| AgentPolicy.VetoOnlyNarrows | packages/shared/src/schemas/agent-policy.ts:467-492 | the veto keeps all the server's patterns if and only if they survive the union, and a collector exactly when neither side turned it off; `AgentPolicy.VetoIsTheMeet` bounds the other fields from both sides |
| AgentPolicy.VetoIsTheMeet | packages/shared/src/schemas/agent-policy.ts:467-492 | the veto is the widest policy that is no looser than the server's and obeys the host: another is no looser than it exactly when it is both; staleness, sources and revision stay the server's |
| AgentPolicy.DefaultAsksForAll | packages/shared/src/schemas/agent-policy.ts:262-282 | without a policy a host reports every quarter of an hour, counts as dark after three times that, and reports all that any policy could ask for |
| AgentPolicy.VetoKeepsExclusionsIffTheyFit | packages/shared/src/schemas/agent-policy.ts:467-492 | every exclusion of both sides is kept exactly when each list fits |
| AgentPolicy.VetoIdempotent | packages/shared/src/schemas/agent-policy.ts:467-492 | applying the same limits twice is applying them once |
| AgentPolicy.StricterLimitsNarrowFurther | packages/shared/src/schemas/agent-policy.ts:421-492 | stricter limits, longer exclusion lists included, turn nothing on, report no more often and raise no cap; they keep every pattern kept before if and only if, list by list, everything fits under the cap, or what was kept is among the host's own that are kept, or those among what was kept |
| AgentPolicy.SurvivesIff | packages/shared/src/schemas/agent-policy.ts:448-451 | the same for one list, for every server list within the bound |
| AgentPolicy.AddingAPatternCanDropOne | packages/shared/src/schemas/agent-policy.ts:428-429 | with a full server list, one more host pattern drops one of the server's |
| Globs.TwoPointers | packages/shared/src/schemas/agent-policy.ts:110-136 | the two-pointer loop, with its two ways on and its way back to the last `*`, computes the specified walk |
| Globs.GlobMatches | packages/shared/src/schemas/agent-policy.ts:107-137 | and does so on both texts in lower case |
| Globs.MatchesIsRight | packages/shared/src/schemas/agent-policy.ts:100-137 | a match is always what the glob says, and for a value without `*` so is the lack of one: going back only to the last `*` misses nothing |
| Globs.LoopIsExactIff | packages/shared/src/schemas/agent-policy.ts:114-122 | the loop decides every glob for a value exactly when that value holds no `*` |
| Globs.PlainMatchesIff | packages/shared/src/schemas/agent-policy.ts:100-102 | a glob without wildcards matches the one name it spells, in any case |
| Reporting.NarrowerReportsNoMore | apps/agent/src/collect/shared.ts:90-129 | what a narrower policy reports of the interfaces and disks is what it leaves of the wider one's report |
| Reporting.OneMoreNic | apps/agent/src/collect/shared.ts:90-105 | with the collector on, one more interface is reported exactly when no pattern matches its name, in order; with it off none is |
| Reporting.OneMoreDisk | apps/agent/src/collect/shared.ts:108-129 | the same of disks by mountpoint; one without a mountpoint is always reported |
| Reporting.OneMorePackage | apps/agent/src/collect/shared.ts:142-163 | one more package is reported exactly when fewer than the cap were, no pattern matches its name and its source is asked for |
| Reporting.NarrowerSoftwareIff | apps/agent/src/collect/shared.ts:142-163 | a narrower policy never reports more packages, and reports none besides the wider one's exactly when that report holds enough that it keeps |
| Reporting.ExclusionMakesRoom | apps/agent/src/collect/shared.ts:131-141 | with a cap of one, excluding the first of two packages reports the second |
| Reporting.StricterLimitsReportNoMore | packages/shared/src/schemas/agent-policy.ts:421-492 | with stricter limits on the host whose patterns survive, no run reports more interfaces, disks or packages |
| Reporting.NamesStayExcludedIff | packages/shared/src/schemas/agent-policy.ts:448-451 | with more patterns on the host every name that was left out stays out if the patterns survive the cap, and only if where the patterns are plain names |
| Reporting.AddingAnExclusionCanWiden | packages/shared/src/schemas/agent-policy.ts:428-429 | with a full server list of names, one more name on the host makes a run report an interface the server had left out |
| Reporting.OnePatternCanWiden | apps/agent/src/policy.ts:222-246 | so does a configuration of that one name |
| Reporting.AStarKeepsAllOut | packages/shared/src/schemas/agent-policy.ts:448-451 | with `*` on the host every name without a `*` stays left out, whatever patterns are dropped |
| AgentPolicy.VetoKeepsPolicyValid | packages/shared/src/schemas/agent-policy.ts:80-251 | the narrowed policy still passes the schema |
| ConfigFile.ReadConfigFile | apps/agent/src/config.ts:95-120 | every key has the value of the last line for it, and no other key is set |
| ConfigFile.QuotedReadsBack | apps/agent/src/config.ts:95-120 | a value between quotes of either kind on the last line of a file reads back as it is, whatever is in that line |
| ConfigFile.BareReadsBackIff | apps/agent/src/config.ts:95-120 | a bare value on the last line of a file reads back exactly when nothing of it would be trimmed and it is not itself quoted |
| ConfigFile.OtherLinesSayNothing | apps/agent/src/config.ts:95-120 | a last line that is blank, a comment, without `=` or without a key changes nothing of what is read |
| HostConfig.BuildLimitSource | apps/agent/src/config.ts:206-216 | the environment replaces what the file sets, for the file's own keys and the listed ones |
| HostConfig.LocalLimitsFrom | apps/agent/src/policy.ts:222-246 | the loop over the collectors and the three lists gives the limits of the resolved settings |
| HostConfig.ReadSettings | apps/agent/src/config.ts:95-120 | the settings of a file are what its last lines say about each of them |
| HostConfig.NumbersMean | apps/agent/src/policy.ts:181-239 | the interval floor and the package cap come each from its own setting, the environment before the file, and only from a positive integer |
| HostConfig.PatternsMean | apps/agent/src/policy.ts:227-237 | each exclusion list comes from its own setting |
| HostConfig.GlobListIs | apps/agent/src/policy.ts:188-197 | the patterns of a value are those between its commas, trimmed, that the schema accepts |
| HostConfig.PatternsStayInOrder | apps/agent/src/policy.ts:188-197 | in the order they are written in, each as often as it is written |
| HostConfig.VetoesMean | apps/agent/src/policy.ts:174-226 | a collector is vetoed exactly where its own setting reads as one of four words, in any case; none is turned on |
| HostConfig.SettingNamesDiffer | apps/agent/src/config.ts:32-43 | no two settings share a name |
| HostConfig.ConfigOnlyNarrows | apps/agent/src/index.ts:371-373 | no file and no environment makes a run use a collector the server turned off, report more often or raise the package cap; all the server's patterns stay if and only if the host's leave them room |
| HostConfig.EffectivePolicyIsTheMeet | apps/agent/src/index.ts:371-373 | what a run applies is the widest policy that obeys the configured limits, in every field but the patterns |
| HostConfig.StricterConfigNarrowsFurther | apps/agent/src/index.ts:371-373 | of two configurations the stricter one narrows further, with the same exact exception |
| HostConfig.OnePatternCanDropOne | apps/agent/src/policy.ts:222-246 | a configuration of one valid pattern drops a pattern of a full server list |
| HostConfig.CollectorRunsIff | apps/agent/src/policy.ts:174-205 | a collector runs exactly when the server left it on and the resolved value is not a "no" |
| HostConfig.LastLineDecides | apps/agent/src/config.ts:95-120 | for every config text the last line for a collector decides its veto, unless the environment speaks |
| HostConfig.EnvironmentVetoReachesIff | apps/agent/src/config.ts:32-43 | a "no" in the environment alone reaches every collector but the hypervisor one |
| NoProxy.NoProxyMatches | apps/agent/src/net.ts:93-119 | the loop with its early exits finds a bypass exactly when some entry of the list bypasses |
| NoProxy.MoreEntriesBypassMore | apps/agent/src/net.ts:98-119 | two lists with a comma or white space between them bypass exactly what either bypasses |
| NoProxy.OneEntryMeans | apps/agent/src/net.ts:93-119 | a list of one entry bypasses what that entry does, in any case; an empty list and none bypass nothing |
| NoProxy.StarBypassesAll | apps/agent/src/net.ts:93-105 | `*` bypasses every host on every port |
| NoProxy.EndsWithDotIff | apps/agent/src/net.ts:113-116 | ending in a dot and a name is having that name's labels last and more before them |
| NoProxy.EntryMeansLabelSuffix | apps/agent/src/net.ts:80-119 | an entry without a port bypasses exactly the hosts whose labels end in its own, a proper suffix for a leading dot; no part of a label matches |
| NoProxy.EntryWithPortMeans | apps/agent/src/net.ts:106-117 | an entry with a port bypasses what it would without one, on that port only; an empty port is none, and without a name nothing is bypassed |
| NoProxy.FirstSet | apps/agent/src/net.ts:49-84 | of the spellings in file and environment the first that is not blank counts, and a blank one reads as none |
| NoProxy.NetworkMeans | apps/agent/src/net.ts:49-80 | each of the three settings is what its own variable says first: the environment before the file, the lower-case spelling before the other, trimmed, blank ones passed over |
| NoProxy.FileIsIgnoredIff | apps/agent/src/net.ts:63-80 | what the config file says about the network is of no account exactly when the environment has a value for every setting, in either spelling |
| NoProxy.ProxyForUrl | apps/agent/src/net.ts:130-142 | a request goes through its own scheme's proxy, unless its host and port are bypassed |
| Patterns.ScanIsTheOnlyMatch | apps/web/components/markdown-wiki-link.ts:34 | the scan finds a match exactly when the pattern describes the text there, and there is at most one from any position |
| Patterns.ScanInSlice | apps/web/components/markdown-secret-chip.ts:32-33 | cutting a text outside a match neither makes a match nor unmakes one |
| Patterns.NoOverlap | apps/web/components/markdown-attachment-image.ts:43-47 | no token starts inside another |
| Tokens.PatternsAreDeterminate | apps/web/components/markdown-secret-chip.ts:32-33 | in all three patterns a repeated part is followed by a character it cannot take |
| Tokens.LinkCaptures | apps/web/components/markdown-wiki-link.ts:34 | a body without brackets between two pairs of brackets is a wiki link, and is what is captured |
| Tokens.EveryLinkHasBody | apps/web/components/markdown-wiki-link.ts:34 | and nothing else is one |
| Tokens.LinkMeans | apps/web/components/markdown-wiki-link.ts:45-88 | a link goes to the slug of its target, whatever anchor and alias follow, and shows its alias, trimmed, or its trimmed target where the alias is missing or blank; a target with an empty slug makes no link |
| Tokens.EveryBodyHasParts | apps/web/components/markdown-wiki-link.ts:45-50 | every body is a target, an anchor and an alias in that sense |
| Tokens.ChipMatches | apps/web/components/markdown-secret-chip.ts:32-33 | a handle behind the fixed word, white space and two braces on either side, is a chip |
| Tokens.EveryChipHasParts | apps/web/components/markdown-secret-chip.ts:32-33 | and nothing else is one |
| Tokens.ChipMeans | apps/web/components/markdown-secret-chip.ts:52-66 | a chip carries its handle and reads like the text it was written as |
| Tokens.EveryImageHasId | apps/web/components/markdown-attachment-image.ts:43-47 | an attachment token is a non-empty alphanumeric id between the two private characters |
| Tokens.TargetIs | apps/web/components/markdown-wiki-link.ts:45-50 | whatever stands behind `#` or a pipe, the target is what comes before |
| Tokens.LabelIs | apps/web/components/markdown-wiki-link.ts:51-55 | the text shown is what follows the first pipe, trimmed, and the target where that is blank or missing |
| Scanner.SplitText | apps/web/components/markdown-wiki-link.ts:63-90 | the loop with its moving `lastIndex` yields the specified pieces, or nothing when no token can be used |
| Scanner.SplitIsExact | apps/web/components/markdown-wiki-link.ts:63-90 | the pieces lie end to end over the text and mint every usable token once, and nothing else |
| Scanner.TileConserves | apps/web/components/markdown-attachment-image.ts:85-112 | the pieces with each element replaced by the text it consumed give the text back |
| Scanner.SkippedTokenStaysPlain | apps/web/components/markdown-wiki-link.ts:72-75 | an anchor-only or empty token lies whole inside one plain piece |
| Scanner.PlainIsNotReplaced | apps/web/components/markdown-secret-chip.ts:43-70 | no plain piece contains a token that could be used |
| Scanner.ReplacedIffUsable | apps/web/components/markdown-attachment-image.ts:85-112 | a text is replaced exactly when it holds a usable token |
| Walk.VisitIdempotent | apps/web/components/markdown-wiki-link.ts:114-133 | a walk that skips what it mints changes nothing the second time, on every tree |
| Passes.PassIdempotent | apps/web/components/markdown-secret-chip.ts:73-113 | each of the three passes run twice is that pass run once |
| Passes.PassKeepsCode | apps/web/components/markdown-wiki-link.ts:93-99 | every `code` and `pre` element comes out unchanged, all of them and in order |
| Passes.ChipsKeepTheText | apps/web/components/markdown-secret-chip.ts:43-70 | the chips pass leaves the flattened text of the whole tree as it was |
| Passes.RenderIdempotent | apps/web/components/markdown-view.tsx:251-262 | the three passes in order make no work for each other: rendering a rendered tree changes nothing |
| PassMeaning.PassIsExact | apps/web/components/markdown-wiki-link.ts:93-133 | for every page and each pass: a result is the right one if and only if, outside `code`, `pre` and what is already a token, each text is cut at exactly its tokens, each of them is its element, in its place, and nothing else differs; and there is only one |
| PassMeaning.PassLeavesNoToken | apps/web/components/markdown-secret-chip.ts:73-113 | after a pass no text it reads holds a token of its kind |
| PassMeaning.RenderIsExact | apps/web/components/markdown-view.tsx:251-262 | the rendering is the links, then the chips in what they leave, then the images in what those leave |
| PassMeaning.RenderLeavesNoToken | apps/web/components/markdown-view.tsx:251-262 | after all three none of them is left |
| PageRender.PageRenderIdempotent | apps/web/components/markdown-view.tsx:251-262 | the same with the callout pass in front |
| PageRender.PageIsExact | apps/web/components/markdown-view.tsx:251-262 | the page is the callouts first, and the three passes on what they leave |
| AttachmentRefs.StripLeavesNoImage | apps/web/components/markdown-attachment-image.ts:65-82 | after the pre-pass no `img` element is left anywhere |
| AttachmentRefs.RoundTripIffFree | apps/web/components/markdown-attachment-image.ts:65-153 | the two passes turn exactly the attachment images outside `code` and `pre` into their elements, in place, and drop all other images, if and only if no text they read held a sentinel |
| AttachmentRefs.RefIdIff | packages/shared/src/schemas/attachment.ts:73-77 | a source gives an id exactly when it is the prefix and that non-empty alphanumeric id |
| AttachmentRefs.ImageIdIff | apps/web/components/markdown-attachment-image.ts:65-82 | an image is an attachment's exactly when its source is the prefix and such an id |
| HastTree.Visit | apps/web/components/markdown-wiki-link.ts:114-133 | the walk that replaces `children` in place computes the specified tree, in its own nodes and fresh ones |
| HastTree.StripImages | apps/web/components/markdown-attachment-image.ts:65-82 | the pre-pass in place computes the specified tree |
| Callouts.MarkerOfIff | apps/web/components/markdown-callout.ts:35-50 | a text opens with a marker exactly when it opens with `[!`, one of the five names in any case and `]`; the marker takes all the white space after it |
| Callouts.MarkerNames | apps/web/components/markdown-callout.ts:35-50 | the five names, in any case and with nothing else in the brackets |
| Callouts.VisitIdempotent | apps/web/components/markdown-callout.ts:107-115 | on every tree, nested blockquotes included, a second run changes nothing |
| Callouts.PlainQuoteKeepsItsShape | apps/web/components/markdown-callout.ts:67-92 | a blockquote stays one exactly when it has no marker, with its own properties and as many children |
| Callouts.MarkedQuoteBecomes | apps/web/components/markdown-callout.ts:67-92 | a marked quote becomes a callout of that variant with its other properties; its paragraph loses the marker, or goes with it; every other child is visited in its place |
| Callouts.OthersAreVisited | apps/web/components/markdown-callout.ts:107-115 | no other element changes its name or properties |
| Callouts.VisitLeaves | apps/web/components/markdown-callout.ts:50-92 | on every tree the text after the pass is the text before it without the marker at the opening of each marked quote, and with everything else |
| Callouts.OnlyMarkersGo | apps/web/components/markdown-callout.ts:50-92 | each piece taken out is one whole marker, and there are as many as callouts were made |
| CalloutTree.FirstParagraph | apps/web/components/markdown-callout.ts:53-61 | the first element child, if it is a paragraph, wherever it stands among other nodes |
| CalloutTree.TransformBlockquote | apps/web/components/markdown-callout.ts:67-92 | tag, properties, text and child arrays are changed in place into the specified callout |
| CalloutTree.Visit | apps/web/components/markdown-callout.ts:107-115 | the walk in place computes the specified tree and allocates nothing |
| Editor.OpenAtIff | apps/web/components/markdown-wiki-link-autocomplete.tsx:31-42 | for every text and caret, the caret is in a token opened at a place exactly when that is the last trigger before the caret and no line break, bracket or brace of its kind lies between its end and the caret |
| Editor.TypedQueryIsOffered | apps/web/components/markdown-secret-chip-autocomplete.tsx:36-68 | what is typed behind a trigger without those characters is the query, whatever surrounds it, and accepting a choice writes it in place of both |
| Editor.ThirdBracketOpens | apps/web/components/markdown-wiki-link-autocomplete.tsx:31-42 | the exception: with the caret behind two of three brackets the last two open |
| Editor.ReplacesTheTokenIffCaretIsPastTheTrigger | apps/web/components/markdown-wiki-link-autocomplete.tsx:49-61 | only the trigger and the query are replaced, exactly when the caret is not inside the trigger |
| Editor.CaretInsideTheTrigger | apps/web/components/markdown-wiki-link-autocomplete.tsx:49-61 | a caret between the two brackets leaves the second one behind the inserted link |
| Editor.AcceptedChoiceIsReadBack | apps/web/components/markdown-secret-chip-autocomplete.tsx:56-68 | whatever surrounds it, the accepted slug or handle is read back by the scanner as one element at the place it was written |
| Editor.NewCaretIsOutside | apps/web/components/markdown-wiki-link-autocomplete.tsx:31-61 | the new caret is in no open token of its kind |
| Uploads.EditorFormats | apps/web/components/markdown-editor.tsx:323-325 | the placeholders of both languages are of the form the results below are about |
| Uploads.ReplaceSettles | apps/web/components/markdown-editor.tsx:334-346 | replacing the first occurrence of a placeholder hits the one that upload put there |
| Uploads.AnyOrderFinishes | apps/web/components/markdown-editor.tsx:317-348 | once all have settled, in any order, each reference stands where its placeholder was put and nothing of the failed ones is left |
| Uploads.UploadsConverge | apps/web/components/markdown-editor.tsx:317-348 | two orders of completion give the same text |
| Uploads.EditorFollowsDoc | apps/web/components/markdown-editor.tsx:317-348 | the same with uploads that begin while others are under way |
| Uploads.EveryEditorFollows | apps/web/components/markdown-editor.tsx:317-348 | so it is in either language, for every text without the end of a placeholder in it |
| Uploads.HarmlessNameIff | apps/web/components/markdown-editor.tsx:323-337 | a name is harmless beside every other upload if and only if it does not hold the end of a placeholder with a nonce that can be drawn |
| Uploads.InsertCuts | apps/web/components/markdown-editor.tsx:328-333 | the caret cuts the document in two, and in the finished text the reference stands between the two parts |
| Uploads.NameCanTakeTheReplacement | apps/web/components/markdown-editor.tsx:323-337 | a name that holds another upload's placeholder, with any text around it, takes its replacement |
| Uploads.InsertedInsideIsLost | apps/web/components/markdown-editor.tsx:326-337 | while another placeholder stands inside it, a placeholder is in the text no more, and settling its upload changes nothing |
| Uploads.OuterIsFoundIff | apps/web/components/markdown-editor.tsx:326-346 | once the inner upload has settled, the outer placeholder is found in its place exactly when the inner one failed |
| Uploads.NestedOrders | apps/web/components/markdown-editor.tsx:326-346 | the final text for both orders of completion, whether or not the inner upload fails |
| Uploads.NestedOrdersAgreeIff | apps/web/components/markdown-editor.tsx:326-346 | the two orders agree exactly when the inner upload leaves a reference, and not one that repeats the part of the outer placeholder in front of it |
| Uploads.ValueRef.OnStart | apps/web/components/markdown-editor.tsx:328-333 | the placeholder goes in at the caret |
| Uploads.ValueRef.OnSettled | apps/web/components/markdown-editor.tsx:334-346 | the first occurrence of the placeholder becomes the reference, or goes |
| SessionToken.ReadEndsIff | apps/web/auth.ts:481-510 | exactly when a read ends the session |
| SessionToken.ExpiredTokenIsReturnedIff | apps/web/auth.ts:481-510 | in every session, a read hands out a token that is expired at its last clock reading if and only if it just got that token for less than the part of a second its expiry is rounded down by |
| SessionToken.RefreshedExpiry | apps/web/auth.ts:240-246 | a refreshed token is unexpired when issued exactly when its lifetime outlasts the second its expiry is rounded down by |
| SessionToken.OnlyAnExpiredSessionEnds | apps/web/auth.ts:481-510 | a session that is over ended in a read at or after its expiry that could not renew it, with no sign-in since |
| SessionToken.EndedNeedsSignIn | apps/web/auth.ts:481-510 | an ended session stays ended until a sign-in |
| SessionToken.MarkOnlyWhileValid | apps/web/auth.ts:497-504 | the failure mark is newly set only on a token that is still valid, after a refresh was tried |
| SessionToken.QuietAfterRefresh | apps/web/auth.ts:486-488 | after a refresh, nothing is asked of the provider until the new token is within the skew |
| SessionToken.LocalNeverHoldsRefreshToken | apps/web/auth.ts:463-470 | from a local sign-in on there is no refresh token, until a provider is used |
| SessionToken.LocalEndsAtItsExpiry | apps/web/auth.ts:490-494 | a local session ends at the first read that finds it expired, and is unchanged by earlier ones |
| SessionToken.NoExpiryNeverEnds | apps/web/auth.ts:481-483 | without a recorded expiry time does nothing, until an update records one |
| SessionToken.RefreshUsesTheLatestToken | apps/web/auth.ts:242-250 | every refresh uses the most recently issued refresh token |
| SessionToken.HoldsTheLatestAccessToken | apps/web/auth.ts:433-510 | in every session the access token is the one issued last, by a sign-in, a usable update or a granted refresh; a sign-in that carries none leaves the one handed in |
| SessionToken.RecordsTheLatestExpiry | apps/web/auth.ts:433-510 | so is the recorded expiry, which an update may also leave or take away |
| SessionToken.MarkedIffLastRefreshFailed | apps/web/auth.ts:497-508 | the failure mark says that the last refresh asked for was refused, with no sign-in since |
| SessionToken.Cookie.OnRead | apps/web/auth.ts:481-510 | the assignments to the token fields in a read are the specified step |
| SessionToken.Cookie.OnSignIn | apps/web/auth.ts:456-479 | those in a sign-in |
| SessionToken.Cookie.OnUpdate | apps/web/auth.ts:433-453 | those in a client update |
| EnvLines.OneKeyPerLine | scripts/dev-setup.ts:246-277 | a line that an edit of one key may touch is nothing to another key |
| WiringMeaning.ActiveLines | scripts/dev-setup.ts:266-277 | a line sets a key when it is the key and the sign, with white space in front of either, and any value |
| WiringMeaning.EveryActiveLine | scripts/dev-setup.ts:266-277 | and no other line does |
| WiringMeaning.SettableLines | scripts/dev-setup.ts:246-250 | a line can be replaced when it is that without the indent, or behind a comment sign with white space around it |
| WiringMeaning.EverySettableLine | scripts/dev-setup.ts:246-250 | and no other line can |
| DevEnv.SetIdempotent | scripts/dev-setup.ts:246-260 | setting a key twice to a value is setting it once |
| DevEnv.SetKeepsOthers | scripts/dev-setup.ts:246-260 | setting a key leaves every line about another key as it was |
| DevEnv.CommentKeepsOthers | scripts/dev-setup.ts:266-277 | so does commenting a key out |
| DevEnv.CommentedOut | scripts/dev-setup.ts:266-277 | afterwards no line sets the key, and doing it again changes nothing |
| DevEnv.OneLineSetsIff | scripts/dev-setup.ts:246-260 | the result has exactly one line that sets the key if and only if no line other than the replaced one did |
| DevEnv.TwoLinesCanSet | scripts/dev-setup.ts:249 | an indented line is not replaced, so two lines set the key |
| WiringMeaning.SetLeavesTheRest | scripts/dev-setup.ts:246-260 | setting a key changes no line that does not concern it, but for a blank line before a new last one |
| WiringMeaning.CommentLeavesTheRest | scripts/dev-setup.ts:266-277 | commenting a key out changes no other line at all |
| WiringMeaning.CommentKeepsTheValue | scripts/dev-setup.ts:266-277 | a line that is commented out keeps all but its indent behind the sign, and one that does not set the key stays |
| WiringMeaning.ValueOfLine | scripts/dev-setup.ts:318-324 | what a line sets the key to is what stands behind its sign |
| WiringMeaning.ApiIsWired | scripts/dev-setup.ts:330-342 | in every file sign-in is local, sessions are signed with an acceptable secret and no provider is set afterwards |
| WiringMeaning.AcceptableIff | scripts/dev-setup.ts:318-324 | a secret is refused exactly when it is short or has the placeholder in it, in any case |
| WiringMeaning.HexSecretsAreMinted | scripts/dev-setup.ts:318-324 | 64 hexadecimal digits are a secret that is accepted again |
| LocalWiring.SecretOverAllRuns | scripts/dev-setup.ts:318-335 | over any number of runs, the last one signs with the secret the first one resolved, or, when an unacceptable indented one comes first, with its own new one |
| LocalWiring.FileOverAllRuns | scripts/dev-setup.ts:330-342 | unless it is blocked, the API's file after any number of runs is the one the first run left |
| LocalWiring.ShortIndentedSecretBlocks | scripts/dev-setup.ts:318-335 | one indented line with a short secret blocks it |
| LocalWiring.ApiWiringIdempotentIff | scripts/dev-setup.ts:330-342 | a second run over the API's file changes nothing, if and only if no such secret blocks it |
| LocalWiring.WebWiringIdempotent | scripts/dev-setup.ts:344-350 | a second run over the web's file changes nothing |
| LocalWiring.DisabledTogetherIff | scripts/dev-setup.ts:286-295 | the three issuer keys are switched off together, exactly when the issuer is the removed one |
| WiringMeaning.WebIsWired | scripts/dev-setup.ts:344-350 | sign-in is local, and the three issuer keys are off where the issuer was the removed one, or as they were |
| WiringMeaning.FirstIssuerDecides | scripts/dev-setup.ts:279-283 | the first line that sets the issuer decides, by what stands between its quotes; without one nothing is disabled |
| WiringMeaning.RemovedIssuers | scripts/dev-setup.ts:53 | the removed provider is either scheme, either local host and the one port, with nothing or a path behind |
| WiringMeaning.EveryRemovedIssuer | scripts/dev-setup.ts:53 | and nothing else is |
| LocalWiring.OtherKeysAreLeftAlone | scripts/dev-setup.ts:330-350 | every line about any other key stays, in order |
| EnvText.SetEnvKey | scripts/dev-setup.ts:246-260 | on texts, with its search loop and the blank line before what is appended |
| EnvText.CommentOutLines | scripts/dev-setup.ts:266-277 | the array of lines is overwritten in place, and the flag says whether any line changed |
| EnvText.WireApiText | scripts/dev-setup.ts:330-342 | the text, edit after edit, has the lines of the specified wiring |
| EnvText.WireWebText | scripts/dev-setup.ts:344-350 | so has the web's text; the keys it names are those the text set, where they are switched off |
| EnvText.DisableRemovedDevIdp | scripts/dev-setup.ts:286-295 | and the list of keys names, in order, those that some line did set |

## Left out

- Fingerprint: collisions of the 96-bit hash are not excluded beyond `FingerprintDetects.SmallChangesAreNoticed`; the protocol results are stated up to lists with equal fingerprints. A character counts as its code unit, so one outside the basic plane is one unit here and two in the source.
- InfraReport: host facts, containers, identity and adoption of nodes are one opaque value; only the part that decides about the software list is modelled.
- PackageSchema: in the protocol every list is one whose names and versions the schema admits and whose sources both builds know, so that their parse leaves it as it is; an inadmissible one is a report that is never sent.
- AgentRun: HTTP, TLS, timeouts and JSON text are step outcomes, not code; the due gate and its jitter, decommissioning and the other commands are not part of this model.
- AgentFiles.PrivateFile.WritePrivate: file permissions and directory creation are not modelled; a rename is one step.
- HostConfig: the language's own number parsing is a parameter, and lower case is ASCII only.
- Globs: lower case is ASCII only.
- Reporting: the collectors, the container and hypervisor facts and the warnings are not modelled; an interface or a disk is its name or mountpoint and one opaque value.
- Reporting.NamesStayExcludedIff: with wildcards a pattern that is dropped can be covered by another one, so there only one direction is stated.
- ConfigFile: reading a file that cannot be read is the same as a missing file, as in the code; the command line and the token file are not modelled.
- NoProxy: lower case is ASCII only, and a URL comes as its scheme, host and port; the certificate file and blanking the ambient variables are not modelled.
- Editor.AcceptedChoiceIsReadBack: a link shows the slug function of the choice, which is the choice itself for a slug that is already in its final form; the scanner reads the edited text itself; how Markdown cuts a text into text nodes is not modelled.
- Tokens: the slug function is a parameter, so no result depends on what it computes; the requirement that an offered slug has no bracket, `|` or `#` is met by every slug the shared schema accepts.
- Passes: the sanitizer between the pre-pass and the others, and the heading ids, are the identity here.
- Uploads: `$` patterns in a replacement text, and edits the user types while uploads are under way, are not modelled.
- Uploads.EditorFollowsDoc: assumes that no caret is inside a placeholder that is still there, that no name, reference or typed text holds the end of a placeholder, and that no two nonces in use are equal; `Uploads.HarmlessNameIff` and `Uploads.NestedOrders` say what happens otherwise.
- SessionToken: name and e-mail are not modelled; an expiry is a finite number; the three clock readings of a read are given.
- SessionToken.EndedNeedsSignIn: that a token which is nothing reaches no later callback is the session library's part, and is assumed.
- LocalWiring: white space in a pattern never crosses a line, and one run's random secret is a parameter.
- EnvText: reading, seeding and writing the files is not modelled.
- Text positions are characters, not UTF-16 units.
- The React components, pop-overs, hooks and styles, the remaining API modules, database scripts, CORS and security headers are not part of this model; most of their claims are settled by reading one branch.
