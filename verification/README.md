# rotten-apple: a Dafny model of its decision logic

rotten-apple turns a workstation into a Xen host that agents and controllers run together. This
project models the parts of it that decide something, and proves what they keep. `dafny verify
dfyconfig.toml` checks everything.

**The control plane.** Controllers issue events on a signed hash chain. An agent appends each event to
its log (`Chain.dfy`), asks the manifests' own policies (`Refuse.dfy`), applies it to its desired state
under the lease rules (`Wanted.dfy`), compares that with what the hypervisor reports (`Truth.dfy`,
`Reconcile.dfy`) and has the resulting plan carried out. `LeaseRuns.dfy` is about whole runs of the lease
rules, `Pipeline.dfy` about runs behind the chain, `Compaction.dfy` about what may be dropped from a log,
and `Convergence.dfy` closes the loop with a model of the hypervisor. Statements about whole runs quantify
over every event log. Those of `LeaseRuns.dfy` and `Pipeline.dfy` also quantify over an `Agent`, which is a
TOML parser and an arbitrary further gate, so they hold with and without the policy layer, with these
exceptions. `LeaseRuns.CompactionIsSafe` is about the lease rules alone: behind the policy layer it fails
(`Compaction.SupersededIsNotEnough`), and `Compaction.ReplacedAssignsAreRedundant` and
`Compaction.DropOneIff` say what holds there. `Wanted.EqualStatesStayEqual` is about the lease rules alone too,
and `Refuse.GatedStatesStayEqual` about the policy layer. `LeaseRuns.EpochCanFall` and
`Pipeline.SplitBrainWithoutChain` are single runs of the lease rules alone.

**Calendar and sizing.** `Calendar.dfy` compares the closed-form calendar with one that counts day by
day, using the leap rule of appendix C and the month lengths of section 5.7 of RFC 3339; `Timestamp.dfy`
adds the form of section 5.6. `CpuList.dfy` and `Planner.dfy` model the split of a host between dom0
and the main guest.

**Text.** `GrubPath.dfy`, `GrubMenu.dfy`, `GrubLine.dfy`, `GrubSizing.dfy`, `Dmi.dfy`, `DmiReport.dfy` and `PciAddr.dfy`
relate scanners and parsers
to trees, printers and independent block readers. `Text.dfy`, `Numerals.dfy`, `Ordering.dfy` and
`Division.dfy` hold the string, number and ordered-map operations that the project is built from.

**The cockpit.** `Cockpit.dfy` states what a key or a worker's message does; `CockpitState.dfy` is the
mutable state whose methods refine it; `CockpitRuns.dfy` proves what every session keeps, and
`CockpitKeys.dfy` what single keys and whole key sequences lead to; `Balloon.dfy`
is the arithmetic of the balloon prompt.

## Where the code and its comments differ

The model follows the code.

- A claim on a vacant lease is accepted at any epoch (`crates/agent/src/wanted.rs:113`), although the
  comments at lines 57 and 125-127 ask for a strictly higher one. Claims carry strictly increasing
  epochs exactly in the runs in which every claim on a vacant lease, but the first ever, exceeds the recorded
  epoch (`LeaseRuns.ClaimsRiseIff`); the epoch at least never falls exactly when none of them carries a lower
  one (`LeaseRuns.EpochMonotoneIff`); and one epoch has one lease holder exactly when claims accepted at equal
  epochs come from one controller (`LeaseRuns.OneHolderPerEpochIff`). `LeaseRuns.EpochCanFall` and
  `Pipeline.SplitBrainWithoutChain` are runs that break one or another of them. Behind the chain every run has the
  last two (`Pipeline.EpochMonotoneBehindChain`, `Pipeline.HandoverRaisesEpoch`).
- An entry records the epoch of the event that assigned it, not the lease's
  (`crates/agent/src/wanted.rs:140`). Behind the chain, an entry with an older epoch than the lease's was
  assigned before the current claim, and one assigned since may carry a newer one, because the seated
  controller can raise the chain's epoch without claiming again (`Pipeline.StaleEntriesHaveOlderEpochs`).
- An assignment that does not parse is refused by the policy layer as an unknown manifest; the comment
  at `crates/agent/src/refuse.rs:96-98` says it is permitted and rejected later.
- Withdrawing an unknown manifest is a harmless no-op for the lease rules, but the policy layer refuses
  it (`Refuse.GatedWritesIff`).
- `Local` and `LeaveOrphan` are described at `crates/agent/src/reconcile.rs:24-29` and 65-70. The first
  is never planned and the second does not exist; a domain whose manifest is not wanted is removed even if
  its manifest is anchored to `this-host`.
- The hash chain covers the signed core only (`crates/fabric/src/event.rs:140-151`), so signatures are not
  pinned as lines 17-21 say: `Chain.SignaturesAreNotPinned`.
- The first event may carry epoch 0; the comment at `crates/fabric/src/chain.rs:114` says at least 1.
- The GRUB scanner has one slot for a submenu, so for an entry in nested submenus its answer is not the full path.
  `GrubPath.ScanIsTruePathIff` says exactly when it is right; `GrubMenus.NestedSubmenuIsLost` and
  `GrubMenus.ClosedSubmenuLosesOuter` are configurations for which it is not.
- Node ids compare by their suffix, but a policy that lists a controller's full text without its suffix
  tells equal ids apart (`crates/agent/src/refuse.rs:113-123`): `Refuse.PolicyIgnoresHintsIff`, and for whole
  runs `Refuse.RunsIgnoreHintsIff`. So does an anchor that names a role hint
  (`crates/agent/src/reconcile.rs:139-149`): `Reconcile.AnchorIgnoresHintsIff`.
- On a hybrid CPU with more than four efficiency cores, the further ones are given to nobody
  (`crates/detect/src/planner.rs:110-113`; `Planner.HybridSplitStrandsCores`). The guest's advertised 2 GB
  minimum only holds from 3 GB of host memory on.
- A PCI function prints in decimal and parses in hexadecimal, so addresses with a function above 9 do
  not parse back (`PciAddrs.RoundTripIff`).
- The cockpit recognises dom0 by the text `0` only. That is enough, because both
  `crates/backend-xen/src/backend.rs:329` and `crates/cockpit/src/lib.rs:1403` print handles from a number:
  `CockpitRuns.Dom0TextIff`. Other spellings of zero, which nothing prints, would pass
  (`CockpitRuns.OtherSpellingsPass`).
- The name typed in the instance wizard can never hold `h` or `l`, which move the selection instead; this is part of
  `CockpitRuns.Valid`. With a reported ceiling below 512 MB every preset offered for dom0 fails its own
  final check (`Balloons.PresetsPassIff`).

## Parameters and assumptions

- The TOML parser is a function parameter of everything that needs it, with no assumption. So are the
  hash, of 256 bits, and the signature check; only `Chain.HeadHashPinsHistory` assumes that no two different
  events of the two logs it compares collide, and that none of them hashes to zero.
- The wording of the GRUB snippet's comments and of what follows the command line is a parameter,
  required only to be comment lines before the command line; the command line itself is exact.
- The hypervisor, after `create_guest`, `balloon_to`, `destroy_guest` and `status`: creation leaves a
  paused domain that is in transition, with its ceiling equal to its active size, and drops stale records of
  its manifest; a resize beyond the ceiling fails; ids are not reused within a pass; domains that were in
  transition before a pass have settled after it. New domains may or may not have.
- Machine integers wrap where the source's release build does: `g * 1024` of a memory token, the
  percentage of the balloon prompt, the next sequence number, the 32-bit year.
- What the file system and the screen answer while a key is handled (base images, success of a boot
  mode change) is arbitrary.

## Model

| member | source | states |
|---|---|---|
| NodeIds.RenamePreservesIdentity | crates/fabric/src/node_id.rs:112-129 | two node ids with one hex suffix are the same node, whatever the role hints, and so is the bare suffix |
| Chain.EventLog.constructor | crates/fabric/src/chain.rs:53-67 | a new log is empty and its cached head agrees with that |
| Chain.EventLog.Append | crates/fabric/src/chain.rs:88-154 | the cached head gives the verdict that the whole history gives; an accepted envelope is added at the end, a rejected one changes nothing, and the log stays linked |
| Chain.AcceptedIff | crates/fabric/src/chain.rs:88-145 | an envelope is accepted exactly when it has version 1, is signed under its issuer's trusted key, names the last event's hash (zero at first), and continues the epoch by one or starts a higher one at zero |
| Chain.RejectionReason | crates/fabric/src/chain.rs:88-145 | otherwise the first failing check in the source's order gives the error, with what was expected and what came |
| Chain.SameNodesShareKeys | crates/fabric/src/chain.rs:37-43 | equal node ids have one trusted key, whatever their role hints |
| Chain.LinkedSnoc | crates/fabric/src/chain.rs:88-154 | every accepted envelope keeps the history linked, hash by hash and epoch by epoch |
| Chain.Consecutive | crates/fabric/src/chain.rs:97-145 | the first event has number zero; every other names the one before it and either continues its epoch, issuer and numbering or starts a higher epoch at zero |
| Chain.OneIssuerPerEpoch | crates/fabric/src/chain.rs:104-145 | over any accepted history epochs never fall, one epoch has one issuer, and its events are numbered by distance |
| Chain.SequenceNumbersAreUnique | crates/fabric/src/chain.rs:104-145 | epoch and sequence number identify an accepted event |
| Chain.HeadHashPinsHistory | crates/fabric/src/event.rs:140-151 | two logs with one head hash hold the same events in the same order, unless two different events among them collide or one hashes to zero |
| Chain.SignaturesAreNotPinned | crates/fabric/src/event.rs:17-21 | contrary to the comment, with any other signature on an accepted envelope no hash and no later verdict changes; the envelope itself is accepted exactly when that signature verifies |
| Wanted.WantedState.constructor | crates/agent/src/wanted.rs:96 | the initial state is empty and unleased at epoch 0 |
| Wanted.WantedState.RequireLease | crates/agent/src/wanted.rs:160-169 | succeeds exactly for the holder's identity, with the right error otherwise |
| Wanted.WantedState.ApplyEvent | crates/agent/src/wanted.rs:105-158 | the verdict and the whole new state for every event; a rejected event changes nothing |
| Wanted.RunsAreWellKept | crates/agent/src/wanted.rs:130-143 | in every reachable state each key is its entry's id and the cached parse is the parse of the entry's text |
| Wanted.EqualStatesStayEqual | crates/agent/src/wanted.rs:38-45 | under the lease rules alone, from states equal in the source's sense, logs that differ only in issuers' role hints are accepted alike, event by event, and lead to equal states |
| Wanted.EqualityDeterminesManifests | crates/agent/src/wanted.rs:38-45 | reachable states that are equal in the source's sense hold identical manifests, cached parses included |
| LeaseRuns.HolderIsLatestClaim | crates/agent/src/wanted.rs:112-129 | after every run the holder is the issuer of the latest accepted claim not followed by an accepted release |
| LeaseRuns.ExclusiveWriter | crates/agent/src/wanted.rs:105-169 | a write is accepted exactly when its issuer holds the seat by such a claim, it parses, and the gate lets it pass |
| LeaseRuns.ClaimAcceptedIff | crates/agent/src/wanted.rs:112-121 | a claim is accepted exactly when the gate lets it pass and nobody is seated by a claim at its epoch or above; a heartbeat never is |
| LeaseRuns.RefusalReason | crates/agent/src/wanted.rs:105-169 | which error the lease rules give for each refused event, in terms of the claim that seats the holder |
| LeaseRuns.WritersBetweenHandoversAgree | crates/agent/src/wanted.rs:105-169 | two accepted writes with no accepted claim or release between them come from one controller |
| LeaseRuns.ClaimEpochsIncrease | crates/agent/src/wanted.rs:113-117 | between releases accepted claims carry strictly increasing epochs |
| LeaseRuns.ClaimsRiseIff | crates/agent/src/wanted.rs:112-129 | accepted claims carry strictly increasing epochs over a run, as the comments ask, exactly when every claim on a vacant lease but the first ever exceeds the recorded epoch |
| LeaseRuns.EpochMonotoneIff | crates/agent/src/wanted.rs:112-129 | the recorded epoch never falls over a run exactly when no claim on a vacant lease carries a lower one |
| LeaseRuns.OneHolderPerEpochIff | crates/agent/src/wanted.rs:112-129 | whenever the lease is held at one recorded epoch it is held by one controller, exactly when claims accepted at equal epochs come from one controller |
| LeaseRuns.EpochCanFall | crates/agent/src/wanted.rs:113 | claim at 2, release, claim at 1: all accepted, and the epoch falls |
| LeaseRuns.ReplayAccepted | crates/agent/src/wanted.rs:105-158 | replaying only the accepted events accepts them all and gives the same state |
| LeaseRuns.EntriesAreLastAssigns | crates/agent/src/wanted.rs:130-148 | a manifest is stored exactly when some accepted assignment was not withdrawn since, and the entry is that last assignment's, at its event's epoch |
| LeaseRuns.CompactionIsSafe | crates/agent/src/wanted.rs:130-148 | under the lease rules alone, dropping any set of superseded accepted assignments from a log does not change the final state |
| Compaction.ReplacedAssignsAreRedundant | crates/agent/src/refuse.rs:72-139 | behind the policy layer, the same holds of any set of accepted assignments that a later accepted assignment of the same id replaces |
| Compaction.DropOneIff | crates/agent/src/refuse.rs:72-139 | behind the policy layer, dropping one accepted assignment changes nothing exactly when one of its id is accepted later; or it is withdrawn later and none was stored before it, or the entry stored before admits a later withdrawal by the holder; or it is neither and the same entry was stored before |
| Compaction.SupersededIsNotEnough | crates/agent/src/refuse.rs:92-136 | a superseded assignment whose removal leaves a manifest stored that the full log withdraws |
| Refuse.EntriesAdmitTheirAssigner | crates/agent/src/refuse.rs:72-139 | behind the policy layer, every stored entry's own policy admits the controller that last assigned it and permits assigning |
| Refuse.GateByName | crates/agent/src/refuse.rs:72-155 | for every issuer, event and lookup: an assignment is judged as `assign` by its own manifest, a withdrawal as `unassign` and a resize as `balloon` by the looked-up one; first a missing manifest, then the controller list, then the operation list refuses; the empty lists admit |
| Refuse.GatedWritesIff | crates/agent/src/refuse.rs:72-155 | a withdrawal or resize is accepted exactly when it comes from the holder, for a present manifest whose stored controller list is empty or names that controller and whose operation list is empty or holds `unassign` or `balloon`, respectively |
| Refuse.GateLeavesLeaseErrors | crates/agent/src/refuse.rs:94-110 | an assignment that does not parse is refused as an unknown manifest; in no state does an event that passes the gate make the lease rules report a bad manifest, and one about a manifest is then accepted exactly from the holder |
| Refuse.GatedStatesStayEqual | crates/agent/src/wanted.rs:38-45 | behind the policy layer, equal reachable states accept the events of any further log alike and stay equal |
| Refuse.PolicyIgnoresHintsIff | crates/agent/src/refuse.rs:113-123 | a policy treats all equal node ids alike exactly when it lists the bare suffix of every controller that it lists |
| Refuse.FullTextAloneDoesNot | crates/agent/src/refuse.rs:113-123 | under a policy that lists one full text alone, of two equal node ids one is admitted and the other refused |
| Refuse.HintsDoNotMatter | crates/agent/src/refuse.rs:72-139 | when every manifest that can be assigned lists bare suffixes, logs that differ only in role hints are accepted alike, event by event |
| Refuse.RunsIgnoreHintsIff | crates/agent/src/refuse.rs:72-139 | behind the policy layer, all logs that differ only in role hints lead to equal states exactly when every manifest whose policy permits assigning lists, with every controller, its bare suffix |
| Pipeline.LeaseBehindChain | crates/agent/src/wanted.rs:102-104 | behind the chain the recorded lease epoch never exceeds the chain's |
| Pipeline.EpochMonotoneBehindChain | crates/agent/src/wanted.rs:57-58 | behind the chain the lease epoch is monotone over every run, releases included |
| Pipeline.HandoverRaisesEpoch | crates/agent/src/wanted.rs:125-127 | behind the chain, when the lease is held by one controller and later by another, the recorded lease epoch is strictly higher then |
| Pipeline.OneWriterPerEpoch | crates/agent/src/wanted.rs:160-169 | behind the chain, two writes accepted under one recorded lease epoch come from one controller |
| Pipeline.SplitBrainWithoutChain | crates/agent/src/wanted.rs:112-129 | without the chain they need not: a run in which two controllers write under one epoch |
| Pipeline.StaleEntriesHaveOlderEpochs | crates/agent/src/wanted.rs:33-36 | an entry assigned by another controller than the seated one carries an older epoch than the lease, and one assigned since the seating claim is the seated controller's, at an epoch no older |
| Truths.Truth.Insert | crates/agent/src/truth.rs:57-60 | the domain is filed under its own id and nothing else changes |
| Truths.Truth.FindByManifest | crates/agent/src/truth.rs:62-65 | finds the least domain id that reports the manifest, if any does |
| Reconcile.ConsiderWanted | crates/agent/src/reconcile.rs:125-177 | the decision for one manifest, and the retick flag raised exactly for a domain in transition |
| Reconcile.Reconcile | crates/agent/src/reconcile.rs:86-120 | the two loops build the specified plan and flag |
| Reconcile.PlanIsExact | crates/agent/src/reconcile.rs:86-177 | for every input the plan is in order without repetition and holds exactly the actions called for, each spelled out from the parse, the anchor and the first domain in id order that reports the manifest |
| Reconcile.SortedListsAreEqual | crates/agent/src/reconcile.rs:31-33 | those two properties determine the plan |
| Reconcile.RetickIff | crates/agent/src/reconcile.rs:156-161 | a retick is needed exactly when some parsed, locally anchored manifest has its first domain in transition |
| Reconcile.OneActionEach | crates/agent/src/reconcile.rs:86-120 | at most one action concerns a manifest, and no domain is removed twice |
| Reconcile.TargetsAreTaggedAndDistinct | crates/agent/src/reconcile.rs:101-117 | every resized or removed domain reports a manifest, and no domain is the target of two actions |
| Reconcile.NoBadManifestPlanned | crates/agent/src/reconcile.rs:132-136 | plans of reachable states never report a bad manifest nor the local marker |
| Reconcile.AnchorIgnoresHintsIff | crates/agent/src/reconcile.rs:139-149 | equal node ids are anchored alike exactly when the anchor is absent, is `this-host`, or names no role hint |
| Reconcile.EqualStatesGetEqualPlans | crates/agent/src/wanted.rs:38-45 | reachable states that are equal in the source's sense get equal plans and flags |
| Convergence.UnitsAgree | crates/backend-xen/src/config.rs:193-202 | the size creation gives and the size resizing aims for are the same number of megabytes, without overflow |
| Convergence.RankFalls | crates/agent/src/reconcile.rs:150-176 | a pass strictly decreases the rank of every local manifest whose first live domain fits, whatever the other actions of the pass do, and keeps it fitting |
| Convergence.PassRemovesUnwanted | crates/agent/src/reconcile.rs:101-117 | one pass removes every domain whose manifest is no longer wanted |
| Convergence.WithinZeroIsQuiescent | crates/agent/src/reconcile.rs:86-182 | distance zero is exactly a plan without creation, resize or removal, and no retick |
| Convergence.PassMakesProgress | crates/agent/src/reconcile.rs:86-182 | every pass decreases the distance from quiescence, and quiescence is kept |
| Convergence.Converges | crates/agent/src/reconcile.rs:86-182 | when the first live domain of every local manifest has its wanted size or can be given it, three passes reach quiescence and it stays |
| Convergence.StuckForever | crates/backend-xen/src/backend.rs:181-195 | a live domain off its size and capped below it stays so over every run |
| Convergence.ConvergesIff | crates/agent/src/reconcile.rs:86-182 | with distinct manifest ids, a run converges exactly when no local manifest has a live domain off its size and capped below it |
| Convergence.EveryRunConvergesIff | crates/agent/src/reconcile.rs:86-182 | whatever domains report the same manifest, every run from a state converges exactly when the first live domain of every local manifest fits |
| Convergence.PassExists | crates/backend-xen/src/backend.rs:102-195 | every plan can be carried out, so the statements about passes are not empty |
| Calendar.EraIsFloor | crates/bootstrapper/src/boot_mode.rs:434 | the sign correction makes truncating division the floor, for all day numbers |
| Calendar.CivilCountsDays | crates/bootstrapper/src/boot_mode.rs:432-444 | day 0 is 1970-01-01, every day is a valid date, and the next day is the calendar's day after, over all integers |
| Calendar.NextCounts | crates/bootstrapper/src/boot_mode.rs:430-431 | the naive count of days agrees with the day-by-day calendar |
| Calendar.CountInverts | crates/bootstrapper/src/boot_mode.rs:430-444 | counting the days of a date undoes any day-by-day numbering, the closed form's included |
| Calendar.InvertsCount | crates/bootstrapper/src/boot_mode.rs:430-444 | such a numbering gives back every valid date from its count |
| Calendar.CountsInOrder | crates/bootstrapper/src/boot_mode.rs:430-444 | later days have later dates, and only they |
| Calendar.YearContainsDay | crates/bootstrapper/src/boot_mode.rs:436-438 | the closed form's year is the one whose days contain the given one, for every day of the 400-year era |
| Calendar.DaysToCivilExact | crates/bootstrapper/src/boot_mode.rs:432-444 | in machine arithmetic the function is the calendar for exactly the days whose year fits 32 bits |
| Timestamps.FormatReadsBack | crates/bootstrapper/src/boot_mode.rs:421-428 | until the year 10000 a timestamp has twenty characters and reads back as its seconds |
| Timestamps.ReadsBackIff | crates/bootstrapper/src/boot_mode.rs:421-428 | of all 64-bit values exactly those read back |
| Timestamps.FormatIsMonotone | crates/bootstrapper/src/boot_mode.rs:421-428 | until then, later seconds have lexicographically later timestamps |
| Timestamps.YearPrints | crates/bootstrapper/src/boot_mode.rs:427 | every 32-bit year prints with its sign and all its digits, at least four characters wide, and in four exactly from -999 to 9999 |
| GrubPath.FindXenGrubPath | crates/cockpit/src/lib.rs:1687-1722 | the scanning loop with its early return computes the scan of the lines |
| GrubPath.ScanTree | crates/cockpit/src/lib.rs:1683-1722 | on any flattened tree, nested submenus included, the scan reports the first Xen entry under the submenu it remembers there |
| GrubPath.ScanIsTruePathIff | crates/cockpit/src/lib.rs:1679-1722 | the answer is the entry's full path exactly when the entry is outside all submenus, or in an outermost one with no nested submenu before it |
| GrubPath.FindsTruePath | crates/cockpit/src/lib.rs:1679-1743 | on the text of every configuration without nested submenus it is the full path of the first Xen entry, or none |
| GrubLines.BlockLineReads | crates/cockpit/src/lib.rs:1724-1743 | an id in single quotes, in double quotes or bare is read from any line of its kind, whatever comes before the option and after the id |
| GrubLines.NoIdWithoutOption | crates/cockpit/src/lib.rs:1728 | a line without the option has no id |
| GrubLines.IndentIsIgnored | crates/cockpit/src/lib.rs:1691 | indentation by any white space changes nothing for any line |
| GrubLines.EntryLineReads | crates/cockpit/src/lib.rs:1698-1712 | an indented entry's line is a Xen entry with its id exactly when one of the three phrases stands in it |
| GrubLines.SubmenuLineReads | crates/cockpit/src/lib.rs:1698-1701 | an indented submenu's line opens that submenu |
| GrubLines.PrintedMenuIsFound | crates/cockpit/src/lib.rs:1687-1722 | on the text of a printed menu with its entry indented the answer is `menu>id` |
| GrubMenus.HeaderReads | crates/cockpit/src/lib.rs:1724-1743 | the id of a printed block header reads back |
| GrubMenus.NestedSubmenuIsLost | crates/cockpit/src/lib.rs:1688-1703 | for an entry in a submenu in a submenu the answer leaves out the outer one |
| GrubMenus.ClosedSubmenuLosesOuter | crates/cockpit/src/lib.rs:1715-1719 | for an entry after a closed submenu in a submenu the answer leaves out the submenu that the entry is in |
| GrubSizing.CommandLineParses | crates/bootstrapper/src/lib.rs:206-228 | the generated command line parses to exactly its sizes |
| GrubSizing.LineMeansItsMegabytes | crates/bootstrapper/src/lib.rs:206-228 | a command line with sizes in M or G, each with its own suffix, and with anything after the CPU option parses to the megabytes that the numbers stand for |
| GrubSizing.RefreshWritesItsMegabytes | crates/bootstrapper/src/lib.rs:163-200 | a text whose first such line is of that form is refreshed to the snippet for those megabytes, unless it is that snippet |
| GrubSizing.SnippetParsesBack | crates/bootstrapper/src/lib.rs:235-278 | the generated snippet parses to exactly its sizes, for all of them |
| GrubSizing.RefreshKeepsSizing | crates/bootstrapper/src/lib.rs:163-200 | a refresh keeps the sizing of any text it rewrites, a second one finds no drift, and a text is left alone exactly when it does not parse or is already a snippet |
| CpuLists.ParseCpulist | crates/detect/src/topology.rs:57-74 | the result is strictly increasing and holds exactly the ids that some well-formed chunk covers |
| CpuLists.IncreasingUnique | crates/detect/src/topology.rs:71-73 | that determines the result |
| CpuLists.ChunkOrderIrrelevant | crates/detect/src/topology.rs:57-74 | order, repetition and spacing of chunks do not matter |
| CpuLists.RangeMeans | crates/detect/src/topology.rs:59-67 | a range covers the ids from its first to its last, none when reversed, whatever white space surrounds it |
| CpuLists.NumberMeans | crates/detect/src/topology.rs:68-70 | a single number covers itself |
| CpuLists.GarbageMeansNothing | crates/detect/src/topology.rs:59-70 | a chunk with any other character covers nothing |
| CpuLists.PrintParsesBack | crates/detect/src/topology.rs:57-74 | the canonical range form of any strictly increasing list parses back to it |
| Planner.UniformSplitPartitions | crates/detect/src/planner.rs:118-127 | on a uniform CPU the pins partition all CPUs, one to four to dom0, and the guest has some exactly when there are two |
| Planner.HybridSplitStrandsCores | crates/detect/src/planner.rs:110-117 | on a hybrid CPU the pins are disjoint and cover every core exactly when there are at most four efficiency cores |
| Planner.Dom0CpusOfUniform | crates/detect/src/planner.rs:118-121 | dom0 gets one CPU in eight, at least one and at most four |
| Planner.Dom0CpusOfHybrid | crates/detect/src/planner.rs:110-113 | dom0 gets the first efficiency cores, at most four, and the guest all performance cores |
| Planner.ProbedSplitPartitions | crates/detect/src/planner.rs:109-128 | the partition holds for every CPU list the kernel's format can express |
| Planner.Dom0ShareBounds | crates/detect/src/planner.rs:102-106 | dom0's share is whole steps of 64 MB within its bounds and monotone in the host's memory |
| Planner.Dom0ShareIsThreePercent | crates/detect/src/planner.rs:102-106 | between its bounds the share is the largest whole step within 3 percent of the host |
| Planner.IdleIsHalf | crates/detect/src/planner.rs:78-82 | the guest idles at half and shrinks to an eighth of its memory, but to no less than 2 GB if it has that |
| Planner.MemoryAccounted | crates/detect/src/planner.rs:60-97 | the shares and the reserve add up exactly on hosts of at least 1 GB; minimum, idle and active are ordered |
| Planner.OneMoreMegabyte | crates/detect/src/planner.rs:60-106 | one more megabyte in the host changes the guest's size by +1 or -63 |
| Dmi.ParseDmidecodeType17 | crates/detect/src/host_specs.rs:84-145 | the streaming loop with its field updates computes the specified stream |
| Dmi.BlockwiseParse | crates/detect/src/host_specs.rs:84-145 | the stream equals reading each block on its own from a default slot and keeping those with a size, in order |
| Dmi.ParseDistributes | crates/detect/src/host_specs.rs:84-145 | parsing distributes over joining texts at a slot's header |
| Dmi.ReportedSlotsHaveSizes | crates/detect/src/host_specs.rs:90-95 | every reported slot has a size and comes from one block |
| DmiReports.SizeReads | crates/detect/src/host_specs.rs:103-115 | gigabytes as they are, megabytes divided by 1024; other units and the two words for an empty slot say nothing |
| DmiReports.GivenFieldIsTaken | crates/detect/src/host_specs.rs:99-136 | each key sets its own field to the printed value and no other field |
| DmiReports.SilentLineIsIgnored | crates/detect/src/host_specs.rs:105-130 | lines saying `Unknown` or `No Module Installed` change nothing |
| DmiReports.SlotReadsBack | crates/detect/src/host_specs.rs:84-145 | lines about one slot, in any order and with either key for its speed and either unit for its size, read back as exactly that slot |
| DmiReports.ReportReadsBack | crates/detect/src/host_specs.rs:84-145 | the report of one slot is parsed to that slot exactly when it has a size |
| DmiReports.PrintedSlotDescribes | crates/detect/src/host_specs.rs:84-145 | every tidy slot has such lines |
| PciAddrs.RoundTripIff | crates/backend/src/lib.rs:42-70 | a printed address parses back exactly when its function is at most 9 |
| PciAddrs.ShortFormIsDomainZero | crates/backend/src/lib.rs:50-70 | any three-part text, malformed ones included, parses as with domain 0000 written out |
| PciAddrs.ErrorsIff | crates/backend/src/lib.rs:50-70 | texts of three or four parts that all parse are addresses, and no others; the error is about the number of parts or the first bad one |
| PciAddrs.PartsAreSeparated | crates/backend/src/lib.rs:52-65 | colons and dots separate the parts, either of them anywhere, and nothing else does |
| PciAddrs.UppercaseParses | crates/backend/src/lib.rs:55-58 | upper-case hexadecimal digits mean the same |
| GpuRoles.ComputeRole | crates/detect/src/gpu.rs:235-279 | the scan with its early returns gives the role of the first harmful device, and leases only groups without any |
| GpuRoles.RootOf | crates/detect/src/gpu.rs:281-286 | the root of an address is what precedes its function |
| GpuRoles.LeasableIff | crates/detect/src/gpu.rs:235-286 | a GPU off the display is leasable exactly when its group is listed and holds, besides bridges, only functions of the same card, none of which drives the display |
| GpuRoles.RoleWithoutGroupIff | crates/detect/src/gpu.rs:241-259 | the display's GPU, and GPUs without a listable group, have roles of their own |
| GpuRoles.LeasableIgnoresOrder | crates/detect/src/gpu.rs:253-279 | whether a GPU is leasable depends on the devices in its group, not on directory order |
| GpuRoles.OrderMattersIff | crates/detect/src/gpu.rs:253-279 | the role differs between two orders of the same devices exactly when the display's device, not the GPU itself, and another harmful device share the group |
| GpuRoles.LockReasonDependsOnOrder | crates/detect/src/gpu.rs:262-277 | two devices for which it does |
| GpuRoles.CardIsLeasedWhole | crates/detect/src/gpu.rs:241-286 | the functions of one card are leasable together or not at all, also when one that the group lists drives the display |
| Balloons.PresetsInRange | crates/cockpit/src/lib.rs:2097-2127 | presets are strictly increasing and between floor and ceiling, both included |
| Balloons.StepsAreOffered | crates/cockpit/src/lib.rs:2112-2123 | the quarters of the ceiling and the sizes 256 and 512 MB either side of the current one are offered as far as they are in range |
| Balloons.CurrentIsOffered | crates/cockpit/src/lib.rs:2112-2123 | so is the current size |
| Balloons.PresetsPassIff | crates/cockpit/src/lib.rs:2081-2127 | every preset passes the final check, except all of them for dom0 with a ceiling below its floor |
| Balloons.PercentageResolves | crates/cockpit/src/lib.rs:2061-2073 | a typed percentage up to 100 is taken of the ceiling, or of the current size when none is reported |
| Balloons.ShareIsNearestIff | crates/cockpit/src/lib.rs:2070-2072 | a percentage asks for the nearest megabyte of the ceiling, halves up and never above it, exactly when the 64-bit product does not overflow |
| Balloons.ReportedShareIsNearest | crates/backend-xen/src/backend.rs:252-253 | for a ceiling that the hypervisor reports it cannot overflow |
| Balloons.NearestIsFirstClosest | crates/cockpit/src/lib.rs:2150-2155 | the preselected option is the first of the closest ones |
| Balloons.TypedTextParses | crates/cockpit/src/lib.rs:2363-2385 | text the prompt accepts is always a number below a million |
| CockpitState.State.Apply | crates/cockpit/src/lib.rs:2243-2279 | the whole new state for each worker message |
| CockpitState.State.PressKey | crates/cockpit/src/lib.rs:2292-2541 | the whole new state and the command for each key in every mode |
| CockpitRuns.KeySafe | crates/cockpit/src/lib.rs:2292-2743 | one key keeps every index in bounds and lets only safe commands out |
| CockpitRuns.CommandsAreSafe | crates/cockpit/src/lib.rs:2243-2786 | over every session: no start or stop of `0`, resizes positive, within the captured ceiling and at least 512 MB for `0`, policies with minimum at most maximum and a cooldown, instances from offered sizes |
| CockpitRuns.DestroyIsConfirmed | crates/cockpit/src/lib.rs:2311-2319 | a domain is destroyed only by two keys in a row, asking for it while it is selected and then yes, whatever messages arrive in between |
| CockpitRuns.LifecycleCommandsIff | crates/cockpit/src/lib.rs:2565-2601 | a start leaves exactly for a selected guest that is not up, a shutdown for any selected guest, a destruction on yes to its confirmation; never for `0` |
| CockpitRuns.ResizeKeepsItsTarget | crates/cockpit/src/lib.rs:2341-2406 | a resize reaches the domain selected when its prompt was opened, within the ceiling reported then, however the list changed since |
| CockpitRuns.PolicyKeepsItsTarget | crates/cockpit/src/lib.rs:2407-2460 | a policy reaches the domain selected when its editor was opened, with the option shown for each of its three values, however the list changed since |
| CockpitKeys.TypedResizeIsSent | crates/cockpit/src/lib.rs:2341-2406 | opening the prompt, switching to megabytes, typing a number and enter ask for exactly that size for the selected domain, or for nothing when it is not allowed |
| CockpitKeys.TypedPercentageIsSent | crates/cockpit/src/lib.rs:2341-2406 | the same with a percentage of the ceiling |
| CockpitKeys.PresetIsSent | crates/cockpit/src/lib.rs:2384-2405 | enter sends the preset under the cursor, if it is allowed |
| CockpitKeys.PromptOpensAtCurrent | crates/cockpit/src/lib.rs:2602-2623 | the prompt opens on the current size when that is in range |
| CockpitKeys.ArrowsMoveChoice | crates/cockpit/src/lib.rs:2351-2362 | an arrow or its letter moves the preset by one, stopping at the ends |
| CockpitKeys.BackspaceTakesBack | crates/cockpit/src/lib.rs:2372-2378 | backspace undoes a typed digit |
| CockpitKeys.EditorOpensAtPresent | crates/cockpit/src/lib.rs:2129-2148 | the policy editor opens on the current size, the ceiling and 30 seconds |
| CockpitKeys.EditorOffers | crates/cockpit/src/lib.rs:2129-2148 | fixed sizes, half of the current one and round sizes up to the ceiling are offered, in increasing order |
| CockpitKeys.ArrowsMoveFocusedField | crates/cockpit/src/lib.rs:2417-2436 | an arrow or its letter moves the field in focus by one and no other |
| CockpitKeys.FocusCycles | crates/cockpit/src/lib.rs:2461-2538 | moving the focus forward and back is undone, in the editor and the wizard |
| CockpitKeys.PolicyIsSentIff | crates/cockpit/src/lib.rs:2437-2456 | enter sends the shown policy exactly when its minimum is at most its maximum and it has a cooldown |
| CockpitKeys.NamedInstanceIsCreated | crates/cockpit/src/lib.rs:2626-2652 | opening the wizard, typing a name and enter create that instance on the first base with 4096 MB and 2 CPUs, or nothing without a base or a name |
| CockpitKeys.ChoicesDouble | crates/cockpit/src/lib.rs:2626-2652 | the wizard offers doubling sizes from 512 MB to 16 GB and from 1 to 16 CPUs |
| CockpitKeys.InstanceIsAsShown | crates/cockpit/src/lib.rs:2521-2537 | what leaves the wizard is what it shows, exactly when a name and a base are given |
| CockpitKeys.WizardArrows | crates/cockpit/src/lib.rs:2474-2507 | the base goes round, the other choices stop at their ends, and only the one in focus moves |
| CockpitKeys.OtherCommandsIff | crates/cockpit/src/lib.rs:2321-2328 | promotion, refresh and creation from the manifest leave exactly on their keys |
| CockpitKeys.SideEffectsIff | crates/cockpit/src/lib.rs:2330-2340 | the boot mode changes only on yes to its confirmation; the console and the end of the program come only from their keys |
| CockpitKeys.OverlaysIff | crates/cockpit/src/lib.rs:2543-2743 | which keys open which confirmation or overlay |
| CockpitKeys.EscapeCancels | crates/cockpit/src/lib.rs:2292-2310 | escape leaves every mode without a command, any key leaves an overlay |
| CockpitKeys.ViewKeys | crates/cockpit/src/lib.rs:2699-2713 | emptying the log, and going through the verbosities |
| CockpitKeys.SelectionIsKept | crates/cockpit/src/lib.rs:2259-2268 | a new list keeps a selection that is still in it and otherwise takes the last domain |
| CockpitKeys.LogKeepsLatest | crates/cockpit/src/lib.rs:2281-2286 | the log holds the latest 200 events in order |
| CockpitRuns.Dom0IsNeverStartedOrStopped | crates/cockpit/src/lib.rs:2033-2035 | with handles as the backend prints them, no start or stop reaches domain 0 |
| CockpitRuns.Dom0TextIff | crates/backend-xen/src/backend.rs:329 | among handles printed from a number, the text `0` is exactly what parses to domain 0 |
| CockpitRuns.OtherSpellingsPass | crates/cockpit/src/lib.rs:1615-1617 | another spelling of zero parses to domain 0 but is not recognised as dom0, and is not printed from a number |
| CockpitRuns.StepAndBack | crates/cockpit/src/lib.rs:2772-2779 | a step of the selection undoes the opposite one, at the ends of the list too |
| CockpitRuns.StepsComeHome | crates/cockpit/src/lib.rs:2772-2779 | as many steps as there are domains return to the selection, and every domain is reached on the way |

## Left out

- Balloons.BalloonOptions: the list of presets is computed on values; the source filters and sorts one vector in place.
- GrubPath.FindXenGrubPath: the brace depth is unbounded, so the wrap of a 32-bit counter at two billion braces is not modelled.
- CpuLists.ParseCpulist: a range is expanded whatever its size; running out of memory on a huge one is not modelled.
- Convergence.Converges: does not cover domains that leave the running state on their own, new desired states during the passes, or creation that fails.
- libxl calls, contexts and configuration structures, beyond the units and results listed above.
- TOML and JSON parsing, Ed25519 and SHA-256: parameters.
- The rationale strings, toast and event texts, and refusal messages: only their kind is kept.
- The order of the GPUs in the host's list and reading their attributes from system directories.
- The cockpit's rendering, threads, first-run marker file, autostart timer and console attachment.
- Boot mode changes, systemctl, update-grub and every file copy: effects with constant text.
- The dom0 memory daemon, the orchestrator and the transport: other programs with their own loops.
- The archived Python prototype.
