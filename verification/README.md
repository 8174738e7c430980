# Verification of workloader's consolidation, protocols and round trips

A Dafny 4.11 model of the parts of workloader whose correctness is not visible from any one
function, and proofs about them. `dafny verify dfyconfig.toml` checks all files.

**CIDR consolidation** (`Bits`, `IpBytes`, `Networks`, `Blocks`, `UnbrokenCovers`,
`Consolidation`, `CspIpList`, `ConsolidationOrder`, `IpListCompare`). Networks are byte slices
with a prefix length, as Go's net package has them; the loops of `cspiplist.go` work on those.
Their meaning is a list of blocks of bit strings (prefixes as in section 3.1 of RFC 4632). A
disjoint list without two sibling blocks is canonical; the canonical cover is shown to be the
unique smallest one, and the greedy loop to reach it for one address family. With both families
in one sorted list a block of one can stand between two siblings of the other, and the code does
not merge across it. `UnbrokenCovers` says what that leaves: among the exact covers whose blocks
reach across no other block's start there is one coarsest, and the loop reaches it for every
list. Map order is arbitrary: all results are for every order of the keys, and
`ConsolidationOrder` shows that the order makes no difference. Networks are taken as parsed;
`Norm` is what `IPNet.String` prints, which reads an IPv4-mapped network as IPv4.

**Auto-deny protocol** (`DenyProtocol`, `DenyProtocolSafety`, `DenyProtocolProgress`,
`DenyOutcome`, `DenyChunks`). Main loop, goroutines, semaphore, wait group, mutex, per-job map
and counter form a transition system with one step per shared access; reading and writing the
slice under the lock are two steps. A query is one step with any of three outcomes. A job is an
(env, service) pair of the two outer loops; apps are positions in the job's list, so nothing
rests on labels being distinct. What the map and the mutex of one job hold is kept under the
job's number, as each pass of the loop makes new ones.

**dag-sync** (`DagPlan`, `DagSync`, `DagLaws`). `DagSync` follows the code step by step on a
`Pan` object and a `Firewall` object; each method is proved against the functions of `DagPlan`,
and `DagLaws` proves convergence and safety of runs. The firewall's reply and the answers to
prompts are parameters. In the model an IP whose last tag goes stays listed without tags; by
the convergence proof non-clean runs never get there for an IP of a workload.

**Printers and parsers** (`Text`, `RuleServices`, `ServiceRows`, `ServiceGroups`,
`ServiceImport`, `IpListCells`). Cells and rows as strings of bytes, printed by the exports and
parsed by the imports, composed and shown to give back what was printed: with the exact
condition where it is within reach of a caller to check.

What the proofs found out about the code:

- `removeSubsetIPs` deletes both of two spellings of an outermost network
  (`CspIpList.TwoSpellingsVanish`); `SurvivorsKeepUnion` gives the exact condition.
- `removeSubsetIPs` cannot tell that one of the 16 networks from ::/80 to ::fffe:0:0/95 lies
  inside another one (`Networks.StraddlerIsMissed`); `CspIpList.KeepsSurvivors` says exactly
  when that matters.
- `compareIPList` looks at FromIP alone, so exclusions and ToIP make no difference
  (`IpListCompare.ExclusionsCompareEqual`, `RangeComparesEqual`); `WhenSameIsRight` gives the
  exact condition.
- dag-sync never adds the href of a registered IP whose workload has two labels of one value
  (`DagLaws.HrefEventually`): `isEqual` finds fewer tags than labels for ever.
- dag-sync sends its differences also without `--update-panos`, unless the firewall is at rest or
  its table empty (`DagLaws.LogOnlyRunSends`), while the flag's help text at line 133 of
  `cmd/dagsync/cmd.go` says the default is to log only. The model follows the code.
- dag-sync's flush (`--clean`) leaves IPs that have tags but no href (`DagLaws.FlushLeaves`);
  its help text at line 138 speaks of all registered IPs.
- A rule service whose name is one or two characters long, the first a digit, makes the rule
  import index out of range, and a name that begins with a space survives only as the first
  text of a cell (`RuleServices.NameReadsBack`, `Text.ReadOfJoin`).
- A port entry with two dashes, such as `80-90-95 tcp`, makes the rule import slice out of range
  (`RuleServices.SecondDash`).
- The rule import tells services apart by keys: a service named like a port's key, such as
  tcp-80-0, passes for that port (`RuleServices.KeyDecides`, `KeptMeansSame`).
- svc-export has no column for a port of a protocol other than TCP and UDP unless it is a
  range, and marks all rows of a service with both kinds as Windows rows
  (`ServiceImport.ReadBackDiffers`); svc-import takes two Windows entries for one exactly when
  they agree but for where a dash of their names belongs (`ServiceImport.WinKeyDecides`).

## Model

| member | source | states |
|---|---|---|
| IpBytes.OrByteBits | cmd/cspiplist/cspiplist.go:53 | or-ing with the inverted mask byte sets a bit exactly where the address has it or the mask lacks it |
| IpBytes.CompareIsLex | cmd/cspiplist/cspiplist.go:126 | `bytes.Compare` is the bitwise lexicographic order, also between 4- and 16-byte addresses |
| IpBytes.MaskBits | cmd/cspiplist/cspiplist.go:163 | the bytes of a CIDR mask spell exactly as many leading ones as its length |
| IpBytes.BaseBits | cmd/cspiplist/cspiplist.go:164-166 | masking keeps the prefix and clears the rest |
| IpBytes.LastBits | cmd/cspiplist/cspiplist.go:52-54 | or-ing with the inverted mask keeps the prefix and sets the rest |
| Networks.LastIPNumber | cmd/cspiplist/cspiplist.go:44-56 | the last address is base + 2^(bits - prefix) - 1 |
| Networks.ContainsIsCovers | cmd/cspiplist/cspiplist.go:90 | the `Contains` test is membership in the block, an IPv4-mapped network or address read as IPv4 |
| Networks.EndpointTestIsInside | cmd/cspiplist/cspiplist.go:89-93 | containing the first and the last address is block inclusion of the networks as printed, in both directions, but for an inner network whose last address alone is IPv4-mapped |
| Networks.StraddlersAre | cmd/cspiplist/cspiplist.go:90 | those networks are the 16 from ::/80 to ::fffe:0:0/95 |
| Networks.StraddlerIsMissed | cmd/cspiplist/cspiplist.go:90 | one of them, ::/80, lies inside ::/0 and does not pass the test |
| Networks.MappedIsNeverContained | cmd/cspiplist/cspiplist.go:90 | why: a 16-byte network outside the IPv4-mapped range, ::/0 included, contains no IPv4-mapped address |
| Networks.CompareIsNumeric | cmd/cspiplist/cspiplist.go:125-127 | on one family the sort order is the order of the numbers the base addresses spell |
| Networks.CanMergeIsMergeable | cmd/cspiplist/cspiplist.go:154-167 | `canMerge` accepts exactly networks of one family and length that agree when one bit shorter, equal networks and two of length 0 included |
| Networks.MergeIsParent | cmd/cspiplist/cspiplist.go:170-179 | `merge` of two that pass, prefix length at least 1, is a valid network: their common parent |
| Networks.MergeOfZeroLength | cmd/cspiplist/cspiplist.go:163-174 | two /0 networks pass `canMerge`, and merging them leaves no mask and no address |
| Blocks.InclusionByEnds | cmd/cspiplist/cspiplist.go:89-93 | inclusion of address sets is decided by the two end points |
| Blocks.NestedOrApart | cmd/cspiplist/cspiplist.go:79-99 | two CIDR blocks are nested or share no address |
| Blocks.BlockIsNumberRange | cmd/cspiplist/cspiplist.go:43-56 | a block is the run of 2^(free bits) numbers from its first to its last address |
| Blocks.ParentOfSiblings | cmd/cspiplist/cspiplist.go:170-179 | the parent of two siblings covers exactly what the two cover |
| Blocks.CoveredBlockInsideMember | cmd/cspiplist/cspiplist.go:110-151 | a block whose addresses are all covered lies inside one single member, or two members are the halves of a block inside it |
| Blocks.CanonicalIsUniqueSmallest | cmd/cspiplist/cspiplist.go:108-151 | a disjoint list without siblings has fewest members of all exact covers by blocks, and no other cover is as small |
| Blocks.CoarserIsSmaller | cmd/cspiplist/cspiplist.go:108-151 | of two exact covers of which one nests in the other the coarser has no more members, and the same ones when it has as many |
| Blocks.CanonicalFormsAgree | cmd/cspiplist/cspiplist.go:108-151 | two consolidated lists cover the same addresses exactly when they have the same members |
| CspIpList.GetLastIP | cmd/cspiplist/cspiplist.go:44-56 | the in-place byte loop computes the last address |
| CspIpList.ParseKeys | cmd/cspiplist/cspiplist.go:63-75 | the networks of the keys that parse, in the order met |
| CspIpList.InsideOther | cmd/cspiplist/cspiplist.go:90 | the short-circuit two-endpoint test is block inclusion of the networks as printed, but for those 16 networks |
| CspIpList.IsSubset | cmd/cspiplist/cspiplist.go:82-95 | the inner loop finds whether the code drops a network |
| CspIpList.RemoveSubsetIPs | cmd/cspiplist/cspiplist.go:59-105 | keeps, as printed and in list order, exactly the networks inside no other one and any of those 16 |
| CspIpList.KeepsSurvivors | cmd/cspiplist/cspiplist.go:79-99 | what is kept is exactly the networks inside no other one if and only if none of those 16 in the list is listed twice or lies inside another network |
| Consolidation.SurvivorsIgnoreOrder | cmd/cspiplist/cspiplist.go:63 | which networks survive does not depend on the order of the list |
| Consolidation.SurvivorsDisjoint | cmd/cspiplist/cspiplist.go:79-99 | what survives is pairwise disjoint |
| Consolidation.SurvivorsNestAll | cmd/cspiplist/cspiplist.go:79-99 | every input block lies inside one survivor, when twins are nested |
| Consolidation.SurvivorsKeepUnion | cmd/cspiplist/cspiplist.go:79-99 | subset removal keeps the covered addresses if and only if no outermost network is listed twice |
| Consolidation.TwinIsLost | cmd/cspiplist/cspiplist.go:84-93 | an outermost network listed twice is deleted by its twin, and its addresses with it |
| CspIpList.TwoSpellingsVanish | cmd/cspiplist/cspiplist.go:63-90 | two spellings of one network consolidate to nothing |
| CspIpList.SortTidies | cmd/cspiplist/cspiplist.go:124-127 | sorting disjoint networks by base address gives strictly increasing, still disjoint blocks |
| Consolidation.MergeGuard | cmd/cspiplist/cspiplist.go:132-136 | every merge of a pass joins two distinct siblings of prefix length at least 1 and keeps order, disjointness and the covered addresses |
| Consolidation.MergeStep | cmd/cspiplist/cspiplist.go:132-136 | replacing two mergeable neighbours by their parent keeps the list sorted, disjoint and covering the same |
| Consolidation.MergedStaysUnbroken | cmd/cspiplist/cspiplist.go:132-141 | merging neighbours of a sorted list takes in no block across the start of another, of whatever family |
| CspIpList.AbsorbFollowers | cmd/cspiplist/cspiplist.go:130-140 | the inner loop absorbs followers into the current block, keeping what a pass keeps |
| CspIpList.MergePass | cmd/cspiplist/cspiplist.go:129-142 | one pass keeps cover, order, disjointness and single-block containment, and is a function of the sorted list |
| CspIpList.PassOfSettled | cmd/cspiplist/cspiplist.go:110-150 | a pass that leaves the length unchanged has changed nothing, and no two neighbours can merge |
| Consolidation.NeighboursSuffice | cmd/cspiplist/cspiplist.go:132-139 | when no sorted neighbours can merge, a block of the other family starts between any two siblings, wherever they stand |
| Consolidation.ApartInOneFamily | cmd/cspiplist/cspiplist.go:132-139 | so a list of one family has no siblings then |
| UnbrokenCovers.UnbrokenNests | cmd/cspiplist/cspiplist.go:108-151 | every exact cover that reaches across no block's start nests in one whose siblings have a block of the other family between them |
| UnbrokenCovers.ApartIsCoarsest | cmd/cspiplist/cspiplist.go:108-151 | so the latter is the one coarsest such cover, for any mix of families: none has fewer blocks and none other as few |
| Consolidation.OtherFamilyBetweenSiblings | cmd/cspiplist/cspiplist.go:125-127 | with two families that fails: 0.0.0.0/1, 4000::/2, 128.0.0.0/1 is a fixpoint holding two siblings |
| CspIpList.MergeConsecutiveRanges | cmd/cspiplist/cspiplist.go:108-151 | for every list, of one family or both: no two neighbours of the sorted result can merge, siblings are left only with a block of the other family between them, and the result is the one coarsest exact cover of the input that reaches across no block's start; canonical for one family |
| CspIpList.ConsolidateNetworks | cmd/cspiplist/cspiplist.go:452-453 | for any mix of families the one coarsest unbroken cover of the survivors of subset removal; exact cover, and single-block containment of all input, each if and only if no outermost network is listed twice; for one family the unique smallest cover |
| ConsolidationOrder.SortIgnoresOrder | cmd/cspiplist/cspiplist.go:125-127 | the sort of disjoint networks has no ties: it undoes any permutation |
| ConsolidationOrder.ConsolidateTwice | cmd/cspiplist/cspiplist.go:63 | two runs on the same keys in any two orders give the same networks, for mixed families and lists with twins too |
| CspIpList.TestIPRanges | cmd/cspiplist/cspiplist.go:560-600 | the self-check passes exactly when each original network lies inside a single consolidated one and none is of those 16 |
| CspIpList.ConsolidateAndTest | cmd/cspiplist/cspiplist.go:452-457 | after the consolidation of an unfiltered list the self-check passes if and only if no outermost network was listed twice and none was of those 16 |
| IpListCompare.CompareIPList | cmd/cspiplist/cspiplist.go:630-676 | the two maps and three loops decide: equal lengths, and each side's keys among the other's |
| IpListCompare.ComparisonDecidesAddresses | cmd/cspiplist/cspiplist.go:647-675 | for any readable list of networks, addresses, ranges and exclusions against a consolidated one: the verdict is "same", and right, if and only if both denote the same addresses and the list is in consolidated form |
| IpListCompare.PlainComparisonDecides | cmd/cspiplist/cspiplist.go:647-675 | for plain include entries: the verdict is "same" if and only if both denote the same addresses and the entries are in consolidated form |
| IpListCompare.WhenSameIsRight | cmd/cspiplist/cspiplist.go:659-666 | a list said to be the same denotes the same addresses if and only if no entry excludes and no range meets a gap in the consolidated networks |
| IpListCompare.RangeComparesEqual | cmd/cspiplist/cspiplist.go:659-666 | a range compares equal to the one address it begins with |
| IpListCompare.SmallestIsCanonical | cmd/cspiplist/cspiplist.go:647-649 | an exact cover as short as the consolidated one is itself consolidated |
| IpListCompare.ExclusionsCompareEqual | cmd/cspiplist/cspiplist.go:659-666 | a list that excludes all the networks compares equal while denoting nothing |
| DenyChunks.ChunkApps | cmd/autodenyrules/autodenyrules.go:122-135 | chunks concatenate back to the input, none empty or above n, all but the last full; none for n <= 0 |
| DenyChunks.ChunkCount | cmd/autodenyrules/autodenyrules.go:126 | there are ceil(len / n) chunks |
| DenyChunks.ChunkingIsUnique | cmd/autodenyrules/autodenyrules.go:122-135 | that description fixes the chunks |
| DenyProtocolSafety.WriteKeepsCells | cmd/autodenyrules/autodenyrules.go:672-674 | the locked append loses no other goroutine's append and adds its app once |
| DenyProtocolSafety.StepKeeps | cmd/autodenyrules/autodenyrules.go:631-698 | every atomic step of the main loop or of a goroutine keeps the invariant |
| DenyProtocolSafety.RunKeeps | cmd/autodenyrules/autodenyrules.go:622-698 | the invariant holds in every state of every interleaving: tokens are started but unreleased goroutines, the wait group the unfinished ones, the lock has one holder, each cell lists exactly the apps appended |
| DenyOutcome.AtMostTwoInFlight | cmd/autodenyrules/autodenyrules.go:649-655 | in every reachable state at most 2 queries are in flight, and the main loop waits only while 2 tokens are held |
| DenyOutcome.QuietAfterBarrier | cmd/autodenyrules/autodenyrules.go:683-687 | past wg.Wait the semaphore is empty, no goroutine can move and the unlocked read is stable |
| DenyProtocolProgress.NoDeadlock | cmd/autodenyrules/autodenyrules.go:649-683 | before the end some step is always enabled |
| DenyProtocolProgress.EveryRunEnds | cmd/autodenyrules/autodenyrules.go:631-698 | no infinite sequence of steps exists |
| DenyOutcome.CounterMeetsTotal | cmd/autodenyrules/autodenyrules.go:606-609 | doneQueries never exceeds totalQueries and equals it at the end |
| DenyOutcome.AnnouncedIsTotal | cmd/autodenyrules/autodenyrules.go:606-609 | the total summed env by env is the total over the (env, service) jobs |
| DenyOutcome.AllQueriesCount | cmd/autodenyrules/autodenyrules.go:606-609 | totalQueries is the number of (job, app, direction) queries |
| DenyOutcome.AttemptsDenyTheSame | cmd/autodenyrules/autodenyrules.go:706-727 | chunking neither drops, repeats nor reorders a denied app |
| DenyOutcome.ExactlyOnce | cmd/autodenyrules/autodenyrules.go:631-727 | at the end of every interleaving a (job, app, direction) is in the attempted rules exactly once if its query returned unused, else not at all |
| DenyOutcome.AttemptsAreSmall | cmd/autodenyrules/autodenyrules.go:18 | every attempt holds 1 to 198 apps of one collected rule |
| DenyOutcome.AttemptsPerRule | cmd/autodenyrules/autodenyrules.go:706-707 | a rule for n apps makes exactly (n + 197) / 198 attempts, all but the last of 198 apps |
| DenyOutcome.RulesNameApps | cmd/autodenyrules/autodenyrules.go:685-697 | every app of a collected rule is one of its job |
| DenyOutcome.CreateRules | cmd/autodenyrules/autodenyrules.go:706-727 | each attempt carries its service, with its env and apps, 2 to 199 labels, as destinations of an inbound and sources of an outbound rule, and the any-address list alone on the other side |
| DagPlan.HrefForm | cmd/dagsync/cmd.go:388 | an href is exactly a tag with /workloads/ anywhere in it, as /orgs/1/workloads/x is |
| DagSync.SplitTags | cmd/dagsync/cmd.go:384-399 | the tag loop collects the plain tags in order and the last href; a tag with /workloads/ in it is never among the labels when hrefs are wanted, and found is set exactly when there is one |
| DagSync.EntryTagsSplit | cmd/dagsync/cmd.go:384-399 | that is all tags that are no href, once each if they come once each, and some href if there is one |
| DagSync.Pan.LoadRegisteredIPs | cmd/dagsync/cmd.go:376-409 | any reply is loaded entry by entry, the last entry of an IP counting, and the counter is the number of entries found |
| DagSync.ListedIsLoaded | cmd/dagsync/cmd.go:376-409 | from a reply that lists the firewall's table the loaded map agrees with the table |
| DagSync.CountIsFound | cmd/dagsync/cmd.go:395-408 | when no IP comes twice the counter is the number of IPs found |
| DagSync.IsEqual | cmd/dagsync/cmd.go:529-558 | what is removed: tags that are no label or come twice; what is added: labels not among the tags; equal when nothing is removed and there are no fewer tags than labels |
| DagSync.CompareIP | cmd/dagsync/cmd.go:680-703 | the loop body for one IP registers and unregisters exactly the planned tags |
| DagSync.AddStale | cmd/dagsync/cmd.go:711-721 | adds exactly the stale IPs to the unregister map |
| DagSync.Pan.Register | cmd/dagsync/cmd.go:471-506 | one request: each entry's labels, and its href unless found or unwanted |
| DagSync.Pan.UnRegister | cmd/dagsync/cmd.go:433-468 | one request: whole IPs for entries without labels or found in a flush, labels of found entries, nothing else |
| DagSync.Pan.DagSync | cmd/dagsync/cmd.go:619-752 | one run sends exactly the planned requests, in order, and leaves the planned table |
| DagLaws.RunAt | cmd/dagsync/cmd.go:678-752 | the tags an updating run leaves on each workload IP |
| DagLaws.RunElsewhere | cmd/dagsync/cmd.go:678-752 | every other IP stays as it was unless it is stale |
| DagLaws.RunSettlesLabels | cmd/dagsync/cmd.go:678-752 | after one updating run every workload IP carries its labels and nothing else but hrefs, and nothing is stale |
| DagLaws.RunSettlesHrefs | cmd/dagsync/cmd.go:696-703 | on settled labels the next run adds the missing hrefs |
| DagLaws.TwoRunsConverge | cmd/dagsync/cmd.go:678-752 | after two updating runs labels and hrefs are settled and the third run sends no request |
| DagLaws.ThirdRunIsQuiet | cmd/dagsync/cmd.go:386-393 | the third run is quiet if and only if hrefs are not wanted or no label value holds the href mark |
| DagLaws.RestsAfterTwo | cmd/dagsync/cmd.go:678-752 | from the second run on the table never changes |
| DagLaws.HrefEventually | cmd/dagsync/cmd.go:548-550 | an IP ends up with its href if and only if it was unknown, had one, or its label values differ from each other |
| DagLaws.WorkloadsStay | cmd/dagsync/cmd.go:440-455 | no request of a non-clean run unregisters a workload IP as a whole, one of its labels, or (hrefs wanted) an href |
| DagLaws.RegistersSomething | cmd/dagsync/cmd.go:682-703 | register entries are for workload IPs, never empty, and hold labels or the href only |
| DagLaws.StrangersStay | cmd/dagsync/cmd.go:711-721 | an IP of no workload is in a request if and only if stale ones are to go and it counts as found; then as a whole |
| DagLaws.WhenRunsSend | cmd/dagsync/cmd.go:656-752 | a non-clean run sends something if and only if labels, hrefs or stale IPs are unsettled and the prompt is not denied (without the update flag: and the table is not empty) |
| DagLaws.FlushLeaves | cmd/dagsync/cmd.go:631-653 | a confirmed flush with the update flag leaves exactly the IPs with tags but no href, any other flush leaves all |
| DagLaws.LogOnlyRunSends | cmd/dagsync/cmd.go:735-752 | without --update-panos a non-clean run sends what the updating one would, if and only if the table is not empty and not at rest |
| Text.SplitOfJoin | cmd/ruleimport/ruleimport.go:674 | splitting undoes joining if and only if there are parts and none holds the separator |
| Text.ReadOfJoin | cmd/ruleimport/ruleimport.go:674-677 | a `;`-joined cell read with `; ` taken for `;` gives the parts back if and only if no part holds `;`, none but the first begins with a space, and they are not one empty part |
| Text.CellParts | cmd/ruleimport/ruleimport.go:674-677 | of any cell the parts between separators are read, each but the first without the one space it may begin with |
| Text.AtoiOfItoa | cmd/svcexport/svcexport.go:127 | parsing a printed number gives the number |
| Text.AtoiDecides | cmd/svcimport/services.go:48 | any text is read as n exactly when it is n printed, after any zeros, after a sign or none, and n fits a 64-bit int |
| RuleServices.ExportServices | cmd/ruleexport/cmd.go:522-559 | the cell is the join of the printed services |
| RuleServices.ParseOfPortText | cmd/ruleimport/service.go:20-35 | a printed port or range is classified as a port entry and parses to itself |
| RuleServices.PrintedReadsBack | cmd/ruleimport/service.go:27-44 | each text an entry prints as parses back to that entry |
| RuleServices.PortShapedMeans | cmd/ruleimport/service.go:23 | a text is taken for a port entry exactly when it is a digit first, one space, and tcp or udp at the end in any case |
| RuleServices.CaseIsIgnored | cmd/ruleimport/service.go:104 | the case of the last three letters makes no difference to what such a text is read as |
| RuleServices.SecondDash | cmd/ruleimport/service.go:110-119 | a text such as 80-90-95 tcp makes the parser slice out of range |
| RuleServices.OtherProtocols | cmd/ruleexport/cmd.go:551-556 | an entry of another protocol is printed with its name, and the import fails on it unless a service bears the whole text as its name |
| RuleServices.NameReadsBack | cmd/ruleimport/service.go:23-47 | a listed service alone in its cell reads back as itself if and only if its name is not empty, holds no `;`, is not like a port entry and is not a digit-first name of one or two characters |
| RuleServices.KeyDecides | cmd/ruleimport/service.go:38-43 | two services share a key if and only if they are the same or clash: equal ports of two protocols other than UDP, or a name that spells a port's key |
| RuleServices.KeptMeansSame | cmd/ruleimport/service.go:75-98 | CSV and rule hold the same services if and only if the keys agree and of any two that clash, one from each side, both are on both sides |
| RuleServices.PortKeyIsGoodName | cmd/ruleimport/service.go:38-43 | any port's key is a name that the parser takes for a name, so such clashes occur |
| RuleServices.CsvEntries | cmd/ruleimport/service.go:20-47 | the CSV map has one entry per key, or the loop stops at the first text that does not parse |
| Seqs.KeysDiffer | cmd/ruleimport/service.go:75-88 | the two loops over the key maps find a difference exactly when the key sets differ |
| RuleServices.ServiceComparison | cmd/ruleimport/service.go:13-98 | no change exactly when all texts parse and both key sets agree, and then the rule's own services; otherwise one new entry per key |
| RuleServices.CellReadsBack | cmd/ruleimport/ruleimport.go:674-677 | the exported cell of a rule splits into the printed texts again if and only if no text but the first begins with a space |
| RuleServices.ExportThenImport | cmd/ruleimport/service.go:13-98 | export and re-import against the same rule: no change, the rule's own services |
| ServiceRows.ExportServices | cmd/svcexport/svcexport.go:105-177 | a header, then the rows of each service, ports before Windows entries |
| ServiceRows.ProcessServices | cmd/svcimport/services.go:14-88 | the entry of a row in both forms, or an error for a bad number |
| ServiceRows.RowMeaning | cmd/svcimport/services.go:14-88 | for any texts: the entry of a row has the ports its column spells without its spaces, 6 or 17 for tcp or udp in any case or else the protocol's number, 0 for an empty column, and no other row has that entry |
| ServiceRows.RowRefused | cmd/svcimport/services.go:14-88 | a row is refused exactly when a column that is not empty spells no number |
| ServiceRows.HandWritten | cmd/svcimport/services.go:19-47 | a row with two ports and spaces around their dash, TCP in capitals and no ICMP columns reads as those ports and protocol 6 |
| ServiceRows.EntryReadsBack | cmd/svcexport/svcexport.go:123-140 | an exported entry has its protocol as tcp, udp or a number, and reads back as itself if and only if it has no port to lose: TCP, UDP, a range, or port 0 |
| ServiceGroups.AddRow | cmd/svcimport/import.go:240-284 | a row is appended to its service or starts one |
| ServiceGroups.GroupRows | cmd/svcimport/import.go:65-286 | the row loop groups all rows by name, and fails exactly when some row is bad |
| ServiceGroups.RowsAreConserved | cmd/svcimport/import.go:228-286 | each row not skipped is on exactly one service's lines, lines are in row order and none invented, with one entry per line; the entries are those of the rows, href and description those of the first |
| ServiceImport.NeedsUpdate | cmd/svcimport/import.go:307-343 | update is flagged exactly when the key sets differ |
| ServiceImport.EntriesAreCompared | cmd/svcimport/import.go:307-339 | that means: exactly when the port entries differ, or the Windows entries with process and service name joined by a dash |
| ServiceImport.DashFreeAreCompared | cmd/svcimport/import.go:307-339 | if no process name holds a dash: exactly when the entries differ |
| ServiceImport.WinKeyDecides | cmd/svcimport/import.go:310 | two Windows entries share a key if and only if they agree but for where a dash of their names belongs |
| ServiceImport.PortKeyDecides | cmd/svcimport/import.go:313 | two port entries share a key if and only if they are the same |
| ServiceImport.DashBlursNames | cmd/svcimport/import.go:310 | so a dash may move between process and service name unnoticed |
| ServiceImport.ImportGroups | cmd/svcimport/import.go:292-346 | which services are new or updated, and when the run ends in an error |
| ServiceImport.LossyKeyIsLost | cmd/svcimport/import.go:313-319 | the key of an entry whose port was lost is no key of any entry read back |
| ServiceImport.KindsApart | cmd/svcimport/import.go:310-319 | a port key never equals a Windows key |
| ServiceImport.ReadBackDiffers | cmd/svcimport/import.go:307-343 | a service read back has other keys if and only if it mixes both kinds or loses a port |
| ServiceImport.ExportThenImport | cmd/svcimport/import.go:228-346 | exporting services and importing the rows: no error, nothing new, and updated exactly the services that mix both kinds or lose a port |
| IpListCells.ExportCells | cmd/iplexport/iplexport.go:79-96 | includes and excludes printed into their cells in order |
| IpListCells.ImportCell | cmd/iplimport/iplimport.go:124-150 | the ranges of one cell, or the row abandoned at the first text that is not valid |
| IpListCells.ImportRow | cmd/iplimport/iplimport.go:121-182 | both cells of a row, includes first |
| IpListCells.ValidityOf | cmd/iplimport/validate.go:8-26 | a text with a slash is accepted exactly as a CIDR, any other exactly if each text between its dashes is an address |
| IpListCells.ValidRange | cmd/iplimport/validate.go:20-25 | a range of two texts is accepted exactly if both are addresses |
| IpListCells.ReadMeaning | cmd/iplimport/iplimport.go:125-149 | any text is read as one address or CIDR, as a range of which a third address is tested and passed over, and without its description when it holds a second `#` |
| IpListCells.CellTexts | cmd/iplimport/iplimport.go:123-124 | the texts of any cell are its parts without spaces; one of spaces alone has an empty text, passed over in the exclude column only |
| IpListCells.ValidUnmarked | cmd/iplimport/validate.go:8-26 | a text that passes the test is not empty and holds no space, `;` or `#` |
| IpListCells.RangeReadsBack | cmd/iplimport/iplimport.go:128-149 | one printed range reads back as itself if and only if it is two addresses, one address or one CIDR, and its description has no space or `#` |
| IpListCells.PartitionKeeps | cmd/iplimport/iplimport.go:121-182 | the includes-then-excludes order loses and adds no range |
| IpListCells.RowReadsBack | cmd/iplimport/iplimport.go:121-182 | the two cells read back as the list, includes first, if and only if every range is of that kind and no description holds `;` |
| IpListCells.ExportThenImport | cmd/iplimport/iplimport.go:121-182 | the same for the two loops composed |

## Left out

- HTTP, JSON, XML, CSV files, flags, prompts and logging: PCE objects, replies of the firewall, query outcomes and answers to prompts are parameters.
- A fatal `LogError` ends a run; the setting that lets workloader go on after one is not modelled.
- Textual IP parsing and printing: a network is (base, prefix length) with host bits cleared, and the IP-list cells take the two address tests as parameters that accept no text with a cell's marks in it.
- CspIpList.ConsolidateNetworks: requires that none of the 16 networks from ::/80 to ::fffe:0:0/95 is listed twice or lies inside another listed network, where the code keeps too much (`CspIpList.KeepsSurvivors`) and the merging starts from overlapping networks.
- IpListCompare.ComparisonDecidesAddresses: a ToIP is a bare address, goes with a bare FromIP of its family and is not below it; an entry that is another spelling of a network never compares equal, and what it denotes is not modelled.
- sort.Slice is an insertion sort here; the networks it sorts are disjoint, so their order is unique.
- Feed parsers, the CSP filter, building the CSV and replacing the IP list after consolidation.
- `--dry-run` of auto-deny-rules, where chunks are logged and no rule is attempted.
- DenyOutcome.ExactlyOnce: speaks of attempts to create a rule; whether the PCE accepts one is not modelled, nor are the rule set's creation and deletion.
- Goroutine panics, the polling ticker and timeouts: a query is one step that ends.
- DagLaws.TwoRunsConverge: for workloads with at least one label, as `workloadIPMap` delivers them; whether an href tag is the workload's present one is not tracked by the code either.
- Firewall paging, HA checks, tag timeouts and persistence; IP keys are taken in the form `net.IP.String` gives.
- RuleServices.ExportThenImport: for the names-only export, TCP or UDP entries, and names that begin with a space only in the first place of the cell.
- DagSync.Pan.DagSync: the firewall's reply lists every IP with all its tags, and no tag of an IP twice, as the tags are a set.
- Whole-rule import: blank label cells are skipped there, so it does not decide whether rules differ.
- ServiceImport.ExportThenImport: for rows with the href column, ports, ICMP codes and types that are not negative; importing by name and importing metadata are left out.
- Change detection of ipl-import: its range keys run together list name and addresses.
- Strings are bytes, and lower case is that of ASCII.
- Easy members: NIC management, usage merging, flow consolidation, the other rule comparators, workload import and export.
