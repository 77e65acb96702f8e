# nic-autoswitch: the route-reconciliation engine, modelled and proved

The daemon keeps the kernel's policy-routing tables in step with a rule file while network
interfaces come and go. This project models that engine in Dafny as one state machine over an
abstract kernel and proves what the design relies on: what the ledger of active routes says about
the kernel, that polling and replaying mirrors the links, that the kernel forwards as the rule
matcher answers, that retries converge, and that a restart cleans up. Where the code does not keep
such a promise on all inputs, the exact condition under which it does is proved, with a concrete
failing input where one is short.

`dafny verify dfyconfig.toml` checks everything.

## How the model is laid out

- `Net`: addresses and networks as integers (RFC 4632, section 3.1). Networks may have host bits set.
- `Config`, `Matcher`: rules, pattern validation, the single-pass match, the sorted list of all
  matches, and the domain path over one resolver outcome.
- `Kernel`: the two kernel tables, the route manager's calls, and the flushes. Every request may be
  refused: a fault function from the number of requests made so far and the kind of request decides,
  and statements hold for all fault functions. EEXIST on an addition and ENOENT or ENXIO on a
  deletion count as success, as in the code; the errno the kernel gives for an absent entry is a
  parameter.
- `Rules`, `Executor`, `Dispatcher`: the rule operator, the ledger, and the event dispatcher, as
  classes whose methods are proved against functions on their whole state (`View()`).
- `State`, `Netlink`, `Mirror`: the cached interfaces, the snapshot monitor, and the two together.
- `Indices`, `Dns`, `Service`: the interface-to-table allocator, the DNS cache with an explicit
  clock, and the loop that joins the monitor to the dispatcher.
- `LedgerInvariants`, `Extending`, `Draining`: one rule, several applications and several removals
  against an exact ledger. `RuleNames`, `Runs`: configurations by rule name, and runs of events.
- `Tallies`, `Attempts`: counting the requests refused between two states, and what that says.
- `LedgerRuns`, `Soundness`, `Foresight`, `Discipline`, `Homes`, `Reactions`, `DefaultRules`,
  `Refinement`, `Restart`: the results over events and whole runs.

What the kernel holds from before, policy rules and routes, is a value of its own (`Leftovers`).

Hash-map iteration order is a parameter (`order`) or a fixed sequence in the configuration, and
every statement is for all orders. One event is one sequential step.

## The main results

1. **Exact ledger.** Besides what is left over from before, both kernel tables hold exactly what
   `active_routes` determines, one entry for each tracked rule, each route via its rule's interface.
   Over every run of events, reloads, starts and stops, whatever requests the kernel refuses, this
   holds after each step if and only if each step is orderly (`LedgerRuns.ExactIffOrderly`): no
   addition and no removal stops half way to lasting effect, no tracked rule changes its table, every
   tracked rule has an entry of its own that is no leftover, removals go from below, reloads keep
   every tracked rule's place, and a stop finds an empty ledger. For one rule it is stated for every
   fault (`ApplyKeepsExact`, `RemoveKeepsExact`). Without faults the condition is one on the state
   before each step (`Foresight.ExactIsForeseen`, `EventIsForeseen`, `StartupIsForeseen`).
   Inputs on which it fails: a primary and a backup rule for one destination, when the backup's
   interface goes down and the primary's route is deleted instead (`Discipline.BackupDownTakesPrimary`);
   an SSID joined on a second interface (`SecondInterfaceMovesRule`); two rules in one place
   (`SameSlotHidesSecond`); a leftover in a rule's place (`LedgerRuns.LeftoverHidesRule`); a reload that
   changes a tracked rule (`ReloadBreaksLedger`). With one rule per destination, one interface per
   profiled SSID and whole operations it always holds (`Discipline.LedgerIsExact`).
2. **Soundness.** Over every such run every tracked rule has a policy rule and a route of its own
   after each step if and only if each step leaves room (`Soundness.SoundIffRoomy`,
   `SoundFromStartup`); without faults this too is a condition on the state before each step
   (`SoundDownByRoomBelow`, `Foresight.SoundIsForeseen`). With one rule per destination, reloads that
   only add rules and no removal stopped half way it always holds (`TrackedStaysInstalled`). Every route
   in the kernel is an untouched leftover or goes via an interface it was put there for
   (`Homes.HomedOverRuns`).
3. **Kernel against matcher.** In every exact state, whichever tables its rules are in and whatever is
   left over, lowest preference, longest prefix and lowest metric pick the interface of the rule
   `find_direct_match` returns for every address if and only if that is so at each of the finitely
   many boundary addresses (`Refinement.ExactStateRefinesMatcher`), hence at the end of every orderly
   run (`OrderlyRunRefinesMatcher`); the same of the default rules after startup
   (`KernelRefinesMatcher`, `StartupRefinesMatcher`). Giving narrower networks the smaller priority is
   enough (`NarrowerFirstRefines`); a default route of better priority than a host rule breaks it
   (`BroaderFirstDisagrees`), and so does a leftover in a rule's place (`LeftoverDisagrees`) or the same
   rule left over in another table (`StaleTableDisagrees`).
4. **No rule is given up for another's failure.** Whatever the kernel refuses, what default rules, a
   profile, a startup or a removal leave undone is paid for, rule by rule, by attempts refused between
   the two states (`Attempts.AskingTriesAll`, `StartupTriesAll`, `DownTriesAll`).
5. **State mirror** (`Mirror.StateMirrorsLinks`, `Service.DaemonMirrorsLinks`) and **telescoping**
   (`Netlink.EventsTelescope`): diffing and replaying are inverse over any run of polls, refused
   ones included. Over all kinds of events the cached state is what the last event to say so said
   (`State.StatusOverRuns`). The daemon loop is a run of the dispatcher (`Service.DispatchIsRun`).
6. **Restart** (`Restart.CleanSlateIff`, `StartupAfterCleanupIsExact`, `RestartIsForeseen`), **retry
   convergence** (`Executor.ApplyRetryConverges`), **allocator** (`Indices.AllocatorIsInjective`,
   `ReloadKeepsInjective`), **DNS cache** (`Dns.AnswersAreFresh`, `AnswerIsCached`).

## Where the code and its own words differ

- The design notes and the project's own README reserve tables 200-299 for IPv6 (`docs/design.md:368`)
  and derive a table from a rule's priority (`README.md:229`); the code puts both families into the
  table of `table_id_v4` with the interface's index (`src/engine/dispatcher.rs:358`). The model follows the code.
- "Removed interfaces' indices are freed but not reused" (`src/engine/dispatcher.rs:365`) is false.
  For a reload `Indices.ReloadKeepsInjective` is the exact condition and `DropThenReloadCollides` an
  input; for an interface met later `AssignmentCollides` and `DropThenNewCollides` are.
- "Clear all routes" in `stop` (`src/engine/dispatcher.rs:89`) clears the ledger only.
- The cleanup promises a clean slate over "all table IDs that could have been assigned"
  (`src/engine/dispatcher.rs:441-444`). It is clean if and only if every entry found is in one of the
  32 tables from the present base or in 200-231, and no route is IPv6 (`Restart.CleanSlateIff`): the
  flush lists IPv4 routes alone, a base edited between two starts leaves the old tables
  (`OtherBaseLeavesEntries`), and so does an index of 32 or more (`ThirtyThirdInterfaceLeavesEntries`).
- The startup list calls a link up on its Up flag, a snapshot on Up and Running together: the two
  agree exactly when no link is up without running (`Service.StartMirrorsIffAllRun`).
- Removing a route names no metric, so the route taken is a rule's own exactly when no route to the
  same destination in the table has a lower one (`Executor.RemoveTakesOwnRoute`). The failover the
  design notes describe (`docs/design.md:216-218`) rests on two such rules.
- Removals are said to be idempotent (`src/router/manager.rs:35`): a second one succeeds and changes
  nothing exactly when the kernel answers by ENOENT or ENXIO both times and has no other route to
  the destination in the table (`Executor.RepeatedRemoval`).
- The configuration accepts `table_id_start` up to 252 (`src/config/schema.rs:123`), the route
  manager only 100 to 199 (`src/router/manager.rs:132`): a base from 200 on validates and is then
  refused (`Kernel.ValidBaseIsAccepted`).
- A reload that changes a tracked rule leaves its old entries in the kernel
  (`LedgerRuns.ReloadKeepsExact`, `ReloadBreaksLedger`).
- The daemon loop polls and never takes from the monitor's queue, so every event stays in it
  (`Netlink.UnreadQueueGrows`).

## Model

| member | source | states |
|---|---|---|
| Net.ContainsIsInterval | src/engine/matcher.rs:117 | A CIDR contains exactly the addresses from its first one up to the one past its last, host bits or not |
| Net.HostNetworkContainsOnly | src/router/rules.rs:84-94 | The /32 or /128 of an address contains that address and no other |
| Net.SharedAddressNests | src/engine/matcher.rs:117 | Two networks that share an address are nested, the longer prefix inside the shorter |
| Net.SameLengthSameNetwork | src/engine/matcher.rs:117 | Canonical networks of one length that share an address are one network |
| Net.BlockSizes | src/engine/matcher.rs:117 | Each prefix bit halves the block of addresses, from a full-length network's one address up; 32 and 128 bits |
| Config.AcceptedPatterns | src/config/schema.rs:259-284 | A domain pattern is accepted if and only if it has exactly one star and that is its first or last character |
| Config.ProfileForFinds | src/engine/dispatcher.rs:282-287 | The profile found for an SSID is the one entered for it, and none is found exactly when none is entered |
| Matcher.WildcardsAreGlobs | src/engine/matcher.rs:137-160 | An accepted pattern matches exactly the domains got by putting a nonempty string for its star, and the bare star all domains |
| Matcher.WildcardsByParts | src/engine/matcher.rs:137-160 | Of any pattern, accepted or not, a star in front or else at the end stands for a nonempty string, the bare star for any, and other patterns match nothing |
| Matcher.RulesMatchByKind | src/engine/matcher.rs:114-133 | A network matches exactly its interval of addresses, an address itself, a domain the equal name, a pattern the names got by filling in its star; no address rule matches a domain and no domain rule an address |
| Matcher.FindDirectMatch | src/engine/matcher.rs:95-111 | Returns the earliest rule of least priority among those that match, and None exactly when all that match have priority u32::MAX; what a rule matches is stated by Matcher.RulesMatchByKind |
| Matcher.DirectMatchIsUnique | src/engine/matcher.rs:95-111 | That promise determines the answer |
| Matcher.SortIsStable | src/engine/matcher.rs:193 | The sort is by priority, a permutation, and keeps the order within each priority |
| Matcher.FindAllMatchingRules | src/engine/matcher.rs:163-196 | Fails exactly when the resolver does, with its error; else returns the list that Matcher.AllMatchingIsExact, AllMatchingCounts and EarlierMatchesComeFirst determine |
| Matcher.AllMatchingIsExact | src/engine/matcher.rs:163-196 | All matches are sorted and are, as a set, the rules that match the destination or some resolved address |
| Matcher.AllMatchingCounts | src/engine/matcher.rs:163-190 | A rule that matches the destination itself is listed as often as it is configured, one that matches only resolved addresses once, however many |
| Matcher.EarlierMatchesComeFirst | src/engine/matcher.rs:163-193 | Among rules of one priority those that match the domain itself come first, in their order, and then those of the earlier addresses |
| Matcher.FindMatchingRule | src/engine/matcher.rs:68-92 | The direct match if there is one, else the first answer over the resolved addresses; a resolver failure surfaces only without a direct match |
| Matcher.BestMatchByAddress | src/engine/matcher.rs:68-92 | The domain path returns the direct match if there is one, else that of the first resolved address that has one, else none |
| Matcher.BestAgainstAll | src/engine/matcher.rs:68-92 | For one resolver answer the single result is a member of all matches, no better than their head, and None exactly when every member has priority u32::MAX |
| Matcher.SinglePassRefinesSort | src/engine/matcher.rs:95-111 | For an IP destination the single pass returns the head of the stably sorted list, or None when that head is absent or at u32::MAX |
| Kernel.RouteManager.WithConnection | src/router/manager.rs:131-164 | Accepts exactly the bases 100 to 199 when the connection succeeds or the run is dry, and tells the two failures apart |
| Kernel.ValidBaseIsAccepted | src/config/schema.rs:106-131 | Validation takes bases 100 to 252 and the manager 100 to 199; 200 validates and is refused |
| Kernel.AcceptedErrnos | src/router/manager.rs:27-38 | Errno 17 on an addition, 2 and 6 on a deletion, and no other, count as success |
| Kernel.AdditionsByErrno | src/router/manager.rs:207-322 | An addition that is not refused succeeds; one that finds its entry changes nothing, a route keeping its interface |
| Kernel.RuleRemovalsByErrno | src/router/manager.rs:592-642 | A removal in a table above 255 fails without a request; any other that is not refused takes the policy rule, and of an absent one succeeds if and only if the kernel answers 2 or 6, changing nothing |
| Kernel.RouteRemovalsByErrno | src/router/manager.rs:325-383 | The same of routes; the one taken is to the destination in the table and none there has a lower metric |
| Kernel.DryRunsSucceed | src/router/manager.rs:207-383 | In a dry run additions and removals succeed without a request |
| Kernel.RouteManager.AddPolicyRuleTo | src/router/manager.rs:504-589 | The whole new kernel and result, for each answer of the kernel; what it comes to is stated by Kernel.AdditionsByErrno and LedgerInvariants.ApplyKeepsExact |
| Kernel.RouteManager.AddRouteTo | src/router/manager.rs:207-322 | The same for routes; a route of the same destination, table and metric is kept with its own interface, as Discipline.SameSlotHidesSecond and LedgerRuns.LeftoverHidesRule spell out |
| Kernel.RouteManager.RemovePolicyRuleFrom | src/router/manager.rs:592-642 | Takes exactly that policy rule, a table above 255 being refused; errnos as Kernel.RuleRemovalsByErrno states |
| Kernel.RouteManager.RemoveRouteFrom | src/router/manager.rs:325-383 | Takes the lowest-metric route to the destination in the table; errnos as Kernel.RouteRemovalsByErrno states, and which rule's route it is by Executor.RemoveTakesOwnRoute |
| Kernel.RouteManager.FlushTable | src/router/manager.rs:386-427 | Only IPv4 routes of that table are lost, the count is of those lost, and all of them are when no request of this flush is refused |
| Kernel.RouteManager.FlushTablePolicyRules | src/router/manager.rs:430-490 | Only policy rules of that table are lost, the count is of those lost, and both families are emptied when no request of this flush is refused |
| Kernel.RouteManager.FlushTableComplete | src/router/manager.rs:493-497 | Both flushes in turn, the count being the number of entries lost from both tables |
| Rules.DestinationCoversMatches | src/router/rules.rs:81-106 | The destination a rule is installed for covers exactly the addresses the matcher accepts for it |
| Rules.InstallableIff | src/router/rules.rs:114-132 | A rule validates exactly with a name, an interface and, for a pattern, its one star first or last; it can be installed exactly if it names an address or a network besides |
| Rules.ApplyRuleTo | src/router/rules.rs:31-57 | Policy rule first and then the route, stopping at the first failure, domains refused untouched; characterised by Executor.ApplyRetryConverges and ApplyThenRemoveRestores |
| Rules.RemoveRuleFrom | src/router/rules.rs:62-78 | Policy rule first and then the route, stopping at the first failure; characterised by Executor.RemoveRetryConverges and HalfDoneRemovalRetry |
| Executor.RuleExecutor.ApplyOne | src/engine/executor.rs:86-106 | Validates, drives the kernel, and tracks the rule exactly when both kernel changes went through; characterised by LedgerInvariants.ApplyKeepsExact |
| Executor.RuleExecutor.RemoveOne | src/engine/executor.rs:109-119 | Untracks the rule exactly when both kernel changes went through; characterised by LedgerInvariants.RemoveKeepsExact |
| Executor.RuleExecutor.ApplyWifiProfile | src/engine/executor.rs:58-83 | Applies every rule in order whatever fails, and returns how many went through; Attempts.ProfileTally says which, Attempts.CountIsInstallable how many without refusals |
| Executor.ApplyRetryConverges | src/engine/executor.rs:86-106 | After any number of failed attempts a successful one reaches the kernel tables and ledger of one clean call |
| Executor.RemoveRetryConverges | src/engine/executor.rs:109-119 | The same for removals, half-done ones included |
| Executor.HalfDoneRemovalRetry | src/router/manager.rs:33-38 | A half-done removal can be retried with success exactly when the absent policy rule is answered by errno 2 or 6 |
| Executor.ApplyThenRemoveRestores | src/router/rules.rs:31-78 | Without faults, apply then remove restores both kernel tables exactly when the table held neither that policy rule nor a route to the destination at or below its metric |
| Executor.RemoveTakesOwnRoute | src/router/manager.rs:340-365 | Removal takes the rule's own route exactly when no route to the destination in the table has a lower metric |
| Executor.RepeatedRemoval | src/router/manager.rs:33-38 | A second removal succeeds exactly when the absent policy rule, and the absent route unless another one is found, is answered by errno 2 or 6, and changes nothing exactly when no other route is found |
| State.NetworkState.Apply | src/monitor/state.rs:142-206 | The whole new interface map for each kind of event; unknown interfaces change nothing; what all events together make of an interface is stated by State.StatusOverRuns and AddressesOverRuns |
| State.NetworkState.ApplyAddressChange | src/monitor/state.rs:208-225 | The new address list: the old without the removed, then the added ones not yet there |
| State.AddressesOverRuns | src/monitor/state.rs:208-225 | Over any run a known interface's list stays duplicate-free, equals as a set the fold of all changes, and keeps the survivors in order |
| State.StatusOverRuns | src/monitor/state.rs:142-206 | Over any run of all kinds of events no interface is added, a known one is dropped exactly by a Removed event about it, and its up state and SSID are what the last event to say so said: Up, Down or a join, a join or a leave |
| Netlink.NetlinkMonitor.constructor | src/monitor/netlink.rs:45-82 | Starts from the first snapshot, or from an empty one if that failed |
| Netlink.NetlinkMonitor.PollChanges | src/monitor/netlink.rs:88-143 | A failed snapshot changes nothing; a good one yields the diff in the maps' own orders, is stored, and its events are queued: one poll of Netlink.EventsTelescope and QueueConserves |
| Netlink.NetlinkMonitor.PollNext | src/monitor/netlink.rs:248-257 | Takes the oldest queued event, if any; the step of Netlink.QueueConserves |
| Netlink.DiffReplays | src/monitor/netlink.rs:88-143 | Replaying one poll's events on the old up-set gives the new one, in every iteration order |
| Netlink.EventsTelescope | src/monitor/netlink.rs:88-143 | All events of any run of polls, refused ones skipped, turn the first up-set into the last |
| Netlink.OneEventPerChange | src/monitor/netlink.rs:93-136 | A poll emits exactly one event for each changed, new-and-up or removed link and none for any other |
| Netlink.QueueConserves | src/monitor/netlink.rs:138-142 | In every interleaving of a monitor's polls and deliveries the events delivered and then those queued are all events of all polls in order, nothing lost, repeated or reordered |
| Netlink.UnreadQueueGrows | src/daemon/service.rs:305-326 | With polls and no deliveries, as in the daemon loop, the queue holds every event ever emitted |
| Mirror.PollEffect | src/monitor/netlink.rs:93-136 | After one poll a cached link has its new state, and one whose index is gone is dropped even when its name is back under a new index |
| Mirror.StateMirrorsLinks | src/monitor/state.rs:167-191 | After any polls each cached interface has the up state of the latest snapshot entry of its name, and the names kept are those whose link is in every snapshot |
| Dns.DnsResolver.ResolveDomain | src/router/dns.rs:71-123 | A live entry answers; else the upstream does, and only a nonempty answer is stored, stamped when it came; characterised by Dns.LookupAnswers and AnswerIsCached |
| Dns.LookupAnswers | src/router/dns.rs:71-123 | A live entry answers and nothing changes; else the answer is the upstream's list, an error exactly if it failed or is empty; other domains' entries stay, and a failed lookup changes nothing |
| Dns.DnsResolver.PruneCache | src/router/dns.rs:163-171 | Keeps exactly the entries that have not expired |
| Dns.DnsResolver.CacheStats | src/router/dns.rs:174-179 | The number of entries and of expired ones |
| Dns.AnswersAreFresh | src/router/dns.rs:71-123 | In any run with a monotone clock every answer is nonempty and was given upstream for that domain at most ttl seconds before |
| Dns.LiveAnswerIsReused | src/router/dns.rs:72-81 | An answer still live at the end of a run without a clear is the one given for its domain throughout, and the upstream is not asked for it again |
| Dns.AnswerIsCached | src/router/dns.rs:106-120 | Once a miss is answered, every lookup of the domain in the next ttl seconds, in any run without a clear, gets that answer whatever the upstream would say, and the upstream is not asked for it |
| Dns.AnswerExpires | src/router/dns.rs:20-45 | A nanosecond later the upstream is asked again |
| Dns.PruneIsInvisible | src/router/dns.rs:163-171 | A prune put anywhere into a run changes no answer and no upstream lookup |
| Dns.PrunedHasNoExpired | src/router/dns.rs:163-179 | Right after a prune no entry counts as expired and all live ones are kept |
| Indices.BuildNewIndices | src/engine/dispatcher.rs:48-55 | The configured interfaces take 0, 1, 2, ... in map order, those past 254 none |
| Indices.NewIndicesByPosition | src/engine/dispatcher.rs:48-55 | The i-th configured interface has index i, and those from the 256th on have none |
| Indices.RebuildIndices | src/engine/dispatcher.rs:366-382 | Known names keep their index, new ones count up from the old map's size below 255 |
| Indices.ReloadedIndices | src/engine/dispatcher.rs:366-382 | After a reload known names keep their index, others have one from the old count modulo 256 up to 254, and none goes without while there is room |
| Indices.UpdateKeepsDense | src/engine/dispatcher.rs:366-382 | A reload that drops no known interface keeps the indices injective, exactly 0 to len-1, and every old one in place; Indices.ReloadKeepsInjective covers the drops |
| Indices.AllocatorIsInjective | src/engine/dispatcher.rs:346-385 | Over any run of lookups and reloads that never drops an interface and stays within 255, indices are exactly 0 to len-1, never move, and give distinct tables |
| Indices.AssignmentCollides | src/engine/dispatcher.rs:349-356 | A new interface keeps the map injective exactly when the map's size, cut to a byte, is nobody's index |
| Indices.DropThenNewCollides | src/engine/dispatcher.rs:363-382 | One dropped interface and one new one are enough for two interfaces to share a table |
| Indices.ReloadKeepsInjective | src/engine/dispatcher.rs:366-382 | A reload keeps an injective map injective exactly when no name that keeps its index has one of those given to the new names, from the old count cut to a byte up to 254 |
| Indices.DropThenReloadCollides | src/engine/dispatcher.rs:363-382 | A reload that drops an interface and one that adds another are enough for two interfaces to share a table |
| Dispatcher.EventDispatcher.constructor | src/engine/dispatcher.rs:48-65 | The whole initial state |
| Dispatcher.EventDispatcher.Stop | src/engine/dispatcher.rs:84-94 | The ledger is emptied and the kernel is left as it is; characterised by LedgerRuns.StopForgets |
| Dispatcher.EventDispatcher.Update | src/engine/dispatcher.rs:366-385 | The new configuration with rebuilt indices, ledger and kernel untouched; characterised by LedgerRuns.ReloadKeepsExact and Indices.ReloadKeepsInjective |
| Dispatcher.EventDispatcher.SetRouteManager | src/engine/dispatcher.rs:387-391 | Another route manager under the same ledger; its one use is Service.DaemonService.Init |
| Dispatcher.EventDispatcher.GetTableId | src/engine/dispatcher.rs:346-359 | The interface's table, assigning an index at first use; characterised by Indices.AllocatorIsInjective and AssignmentCollides |
| Dispatcher.EventDispatcher.ApplyDefault | src/engine/dispatcher.rs:310-343 | Each default rule not yet tracked is tried once, whatever fails; characterised by Attempts.DefaultsTally |
| Dispatcher.EventDispatcher.ApplyFor | src/engine/dispatcher.rs:277-303 | The profile of the SSID if there is one, else the default rules |
| Dispatcher.EventDispatcher.LoadRules | src/engine/dispatcher.rs:200-212 | The rules by name, default rules first, a later rule of the same name winning; characterised by RuleNames.LaterRuleWins |
| RuleNames.LaterRuleWins | src/engine/dispatcher.rs:200-212 | The table holds the last rule of each name |
| RuleNames.ProfileRuleWins | src/engine/dispatcher.rs:200-212 | A profile's rule hides a default rule of its name |
| Dispatcher.EventDispatcher.InterfaceDown | src/engine/dispatcher.rs:178-230 | Tries to remove each tracked rule via the interface once, in some order, from the table it was tracked in; characterised by Attempts.DownTriesAll |
| Dispatcher.EventDispatcher.Handle | src/engine/dispatcher.rs:97-272 | The whole new state for each event; nothing unless running |
| Dispatcher.EventDispatcher.CleanupStaleTables | src/engine/dispatcher.rs:445-482 | Whatever fails: nothing is lost outside base..base+31 and 200..231, nor any IPv6 route, and a table whose own requests go through is cleaned; a dry run changes nothing; if the requests of this cleanup all go through, those tables hold no policy rule and no IPv4 route and the total is the number of entries removed even where the ranges overlap |
| Dispatcher.EventDispatcher.ApplyInitialState | src/engine/dispatcher.rs:403-437 | Interfaces cached, tables cleaned as CleanupStaleTables promises, then default rules for each interface up and configured, in list order; characterised by Attempts.StartupTriesAll |
| DefaultRules.DefaultsActivate | src/engine/dispatcher.rs:324-336 | Without faults exactly the installable names become active besides, in this table, and active entries stay as they were |
| DefaultRules.DefaultsSettle | src/engine/dispatcher.rs:324-336 | Once all installable rules are active nothing is called and nothing changes |
| DefaultRules.DefaultsInstallOnce | src/engine/dispatcher.rs:305-343 | For any list of interfaces the kernel and ledger are those of the first one alone, and domain rules are never active |
| DefaultRules.StartupInstallsOnce | src/engine/dispatcher.rs:418-434 | Startup leaves the kernel and ledger of one application, for the first interface up and configured |
| Attempts.DefaultsTally | src/engine/dispatcher.rs:324-336 | Whatever is refused: as many default names more are tracked as attempts were granted between the two states, each with its entry in the kernel; no more installable names are missing than attempts refused, and with distinct names exactly as many |
| Attempts.ProfileTally | src/engine/executor.rs:66-75 | Whatever is refused: one attempt for each installable rule of the profile, as many granted as counted, and no more rules untracked or missing in the kernel than attempts refused |
| Attempts.CountIsInstallable | src/engine/executor.rs:64-82 | Without refusals, and in a dry run, the count is the number of installable rules in the profile |
| Attempts.AskingTriesAll | src/engine/dispatcher.rs:277-336 | Both of the event that asks for an interface's rules |
| Attempts.StartupTriesAll | src/engine/dispatcher.rs:430-434 | Whatever is refused at startup: each installable default name missing afterwards was refused once for every interface up and configured |
| Attempts.DownTriesAll | src/engine/dispatcher.rs:214-227 | A Down or Removed event, whatever is refused, where absence is answered by 2 or 6 or every tracked rule is installed: as many rules are gone as removals granted, and as many victims in tables up to 255 still tracked as removals refused |
| Runs.EventMovesSsids | src/engine/dispatcher.rs:233-259 | An event moves the tracked SSIDs and the cached interfaces only in its own way, whatever the rules do |
| Runs.StepTouches | src/engine/dispatcher.rs:72-94 | Only starts and stops move the phase, only reloads the configuration; a reload or a start leaves ledger, kernel, interfaces and SSIDs alone, a stop empties the ledger and leaves the rest |
| Runs.PhaseOverRuns | src/engine/dispatcher.rs:72-94 | Over any run the phase is that of the last start or stop and the configuration that of the last reload |
| Runs.RunAllocates | src/engine/dispatcher.rs:346-385 | Over any run the indices are those of a run of the allocator alone, so the results on Indices hold of the dispatcher |
| Runs.SsidsAgreeOverRuns | src/engine/dispatcher.rs:97-133 | Over every run each cached interface has the SSID tracked for it, though unknown interfaces are tracked on one side only |
| Reactions.ProfileIsApplied | src/engine/dispatcher.rs:277-299 | Without faults an interface whose SSID has a profile gets, in its own table, exactly the profile's installable rules, all in the kernel and the last of each name in the ledger; entries of other names stay, every route keeps its interface, and every new policy rule or route is one of these rules' entries, a route via that rule's interface |
| Reactions.DefaultsAreApplied | src/engine/dispatcher.rs:147-164 | Otherwise a join, a leave, an address change or an Up without SSID activates exactly the missing default names, the first rule of each, in ledger and kernel, in the interface's table; every route keeps its interface, and every new entry is that of a default rule not tracked before |
| Reactions.DownIsCleaned | src/engine/dispatcher.rs:135-230 | From an exact ledger, with deletions succeeding, a Down or Removed event takes exactly the entries via the interface, in tables up to 255, from ledger and policy rules; the routes lose exactly those, and the ledger stays exact, if and only if no route that stays lies below one of them in its destination and table |
| Reactions.DryDownUntracks | src/engine/dispatcher.rs:178-230 | In a dry run a Down or Removed event untracks exactly the rules via the interface, in whatever tables |
| Reactions.FromBelowByPriority | src/engine/dispatcher.rs:178-230 | Without leftovers that condition is: no surviving tracked rule has a better priority than a victim with its destination and table |
| Reactions.DryRunsTouchNothing | src/config/schema.rs:73-75 | Through any events, reloads, starts and stops a dry run leaves the kernel untouched |
| LedgerInvariants.ApplyKeepsExact | src/engine/executor.rs:86-106 | For every fault of the kernel: a successful application keeps the ledger exact if and only if the rule was tracked in the same table already, or untracked with no tracked rule or leftover in its place; a failed one if and only if it did not add a new policy rule and stop |
| LedgerInvariants.RemoveKeepsExact | src/engine/executor.rs:109-119 | For every fault of the kernel: a removal keeps the ledger exact if and only if it does not stop half way, and fails or finds no route below the rule's own in its destination and table |
| Extending.ExtendingKeepsExact | src/engine/executor.rs:66-75 | Several applications, half-done ones included, keep the ledger exact if and only if none leaves a policy rule that no tracked rule has, no tracked rule changes its table, and every tracked rule has an entry of its own that is no leftover |
| Draining.WholeRemovalsKeepRules | src/router/rules.rs:62-78 | Through several removals the tracked rules keep their policy rules if and only if no removal stops half way |
| Draining.DrainingKeepsExact | src/engine/dispatcher.rs:214-227 | Several removals, in any order, failing or half done, keep the ledger exact if and only if every tracked rule keeps its policy rule and every route below one that should go, in its destination and table, should go too |
| Draining.DrainingKeepsInstalled | src/engine/dispatcher.rs:214-227 | They leave every tracked rule installed if and only if every one keeps its policy rule and below each lie at least as many routes to its destination in its table as rules of that group went |
| LedgerRuns.EventKeepsExact | src/engine/dispatcher.rs:97-343 | One event, whatever the kernel refuses, keeps the ledger exact if and only if it leaves no stray policy rule and no tracked rule without one, no tracked rule changes its table, every tracked rule has an entry of its own that is no leftover, and what goes goes from below |
| LedgerRuns.ReloadKeepsExact | src/engine/dispatcher.rs:366-385 | A reload keeps the ledger exact if and only if every tracked name has a rule for the same interface that takes a place tracked before, no two the same |
| LedgerRuns.UnchangedRulesKeepTheirPlaces | src/engine/dispatcher.rs:366-385 | A reload that leaves every tracked rule as it is meets that condition |
| LedgerRuns.ReloadBreaksLedger | src/engine/dispatcher.rs:366-385 | A reload that changes the priority of a tracked rule breaks exactness |
| LedgerRuns.StopForgets | src/engine/dispatcher.rs:84-94 | Stopping keeps the ledger exact if and only if nothing was tracked |
| LedgerRuns.ExactIffOrderly | src/engine/dispatcher.rs:72-385 | Over every run of events, reloads, starts and stops, whatever requests the kernel refuses, the ledger is exact after each step if and only if each step is orderly |
| LedgerRuns.StartupKeepsExact | src/engine/dispatcher.rs:403-437 | Over whatever policy rules and routes are left, and whatever is refused, startup is exact besides them if and only if it leaves no stray policy rule and gives every tracked rule an entry of its own that is none of them |
| LedgerRuns.LeftoverHidesRule | src/router/manager.rs:259-266 | A leftover in a rule's place: the addition is taken for done, the rule is tracked via its own interface, and the kernel keeps routing via the old one |
| Discipline.LedgerIsExact | src/engine/dispatcher.rs:97-343 | Over any leftovers for other destinations, through startup and every run of events, with one rule per name and destination, one interface per profiled SSID and no request refused between the two of a pair, the ledger is exact after every step |
| Discipline.BackupDownTakesPrimary | src/router/manager.rs:340-365 | From an empty kernel through startup, for any two default rules of one destination via two interfaces: the ledger is exact until the interface of the one of worse priority goes down; then the better one's route is deleted, it stays tracked, and the other's route stays |
| Discipline.SecondInterfaceMovesRule | src/engine/dispatcher.rs:277-299 | A profiled SSID joined on wlan0 and then on wlan1 tracks its rule in the second table, leaves the first table's policy rule behind, and the ledger is exact no more |
| Discipline.SameSlotHidesSecond | src/router/manager.rs:259-266 | Of two rules with one destination and priority the second is tracked via its interface and routed via the first one's |
| Soundness.RemoveKeepsInstalled | src/router/rules.rs:62-78 | For every fault of the kernel: a removal leaves every tracked rule installed if and only if it does not stop half way, and fails or takes neither the entry nor the route of another tracked rule |
| Soundness.SoundDownByRoomBelow | src/engine/dispatcher.rs:178-230 | With deletions succeeding, a Down or Removed event leaves every tracked rule installed if and only if, in the state before it, below each rule that stays lie at least as many routes to its destination in its table as rules of that group go |
| Soundness.SoundIffRoomy | src/router/rules.rs:31-57 | Over every run of events, reloads, starts and stops, whatever is refused, every tracked rule has a policy rule and a route of its own after each step if and only if each removal event stops half way nowhere and leaves room, each application gives every tracked rule its own entry, and each reload finds the new rules' entries in the kernel |
| Soundness.SoundFromStartup | src/engine/dispatcher.rs:403-437 | The same from a new engine over whatever is in the kernel, through startup and every run, if startup gives every tracked rule its own entry |
| Soundness.TrackedStaysInstalled | src/router/rules.rs:31-57 | With one rule per destination, reloads that only add rules and no removal refused half way, every run is sound after each step |
| Soundness.FromBelowLeavesRoom | src/engine/dispatcher.rs:214-227 | Removing from below, which keeps an exact ledger exact, also leaves room |
| Homes.SoundRoutesGoHome | src/engine/executor.rs:165-175 | Where no two rules have one destination and priority, the route of an installed tracked rule goes via the interface the ledger names, unless it is an untouched leftover |
| Homes.HomedOverRuns | src/engine/executor.rs:86-119 | Over every run in which reloads only add rules, whatever is refused, every route is an untouched leftover or goes via the interface of a rule with its destination and priority |
| Foresight.EventIsForeseen | src/engine/dispatcher.rs:97-343 | Without faults one event keeps the ledger exact if and only if, in the state before it, no route that stays lies below one that goes, or each rule to apply is tracked in this table or untracked with its place free, no two untracked ones taking one place |
| Foresight.ExactIsForeseen | src/engine/dispatcher.rs:72-385 | Over every run without faults the ledger is exact after each step if and only if each step meets that condition in the state it finds |
| Foresight.StartupIsForeseen | src/engine/dispatcher.rs:403-437 | Startup without faults over any leftovers is exact if and only if no interface qualifies, or in the first one's table no leftover has the place of an installable default rule and no two of them have one place |
| Foresight.SoundEventIsForeseen | src/engine/dispatcher.rs:97-343 | Without faults one event keeps every tracked rule installed if and only if, in the state before it, there is room below each rule that stays, or no rule to apply takes a place that another tracked or applied rule has |
| Foresight.SoundIsForeseen | src/engine/dispatcher.rs:72-385 | Over every run without faults every tracked rule is installed after each step if and only if each step meets that condition in the state it finds |
| Refinement.AgreesIffAligned | src/engine/matcher.rs:95-133 | For rules placed in any tables over any leftover policy rules and routes, at one address kernel and matcher agree if and only if nothing matches and no leftover takes it, or the best rule by priority is below u32::MAX, every policy rule tried first leads to its table, and no matching rule or leftover there comes before it |
| Refinement.ExactStateRefinesMatcher | src/engine/matcher.rs:95-133 | In every exact state, default and profile rules in whatever tables, kernel lookup and matcher on the active rules agree on every address if and only if that holds at the finitely many boundary addresses of rules and leftovers |
| Refinement.OrderlyRunRefinesMatcher | src/engine/matcher.rs:95-133 | The same at the end of every run whose steps are orderly, whatever the kernel refused in it |
| Refinement.CleanStartInstalls | src/engine/dispatcher.rs:310-336 | Applied to a kernel that holds only leftovers the default rules install exactly their own entries besides them, the first rule's route staying where two coincide |
| Refinement.KernelRefinesMatcher | src/router/rules.rs:31-57 | For the default rules, over any leftover policy rules and routes, kernel lookup and matcher agree on every address if and only if the condition holds at the boundary addresses |
| Refinement.StartupRefinesMatcher | src/engine/dispatcher.rs:418-434 | The same for the kernel that the whole startup leaves |
| Refinement.NarrowerFirstRefines | src/engine/matcher.rs:95-133 | If narrower networks always have smaller priorities, all below u32::MAX, no leftover route is in the table and no leftover policy rule leads to one, the kernel picks the matcher's interface for every address and none exactly when it returns None |
| Refinement.BroaderFirstDisagrees | src/engine/matcher.rs:104 | A default route of better priority than a host rule makes kernel and matcher differ at that host |
| Refinement.LeftoverDisagrees | src/router/manager.rs:259-266 | A leftover in a host rule's place makes kernel and matcher differ at that host |
| Refinement.StaleTableDisagrees | src/engine/dispatcher.rs:439-482 | The same host rule left over in another table, policy rule and route, makes kernel and matcher differ at that host |
| Restart.RunKeepsTables | src/engine/dispatcher.rs:346-359 | Whatever fails, reloads or stops, a run of at most 32 indices leaves entries only in the 32 tables from its base |
| Restart.CleanedTables | src/engine/dispatcher.rs:450-475 | The cleanup flushes the tables base to base+31 and 200 to 231 |
| Restart.CleanSlateIff | src/engine/dispatcher.rs:439-482 | A cleanup whose own requests go through leaves exactly the policy rules of other tables and the routes that are IPv6 or in other tables, so the slate is clean if and only if every entry found was in base..base+31 or 200..231 and no route was IPv6 |
| Restart.OtherBaseLeavesEntries | src/engine/dispatcher.rs:441-456 | A run with base 100 and a start with base 150: the policy rule and route of an IPv4 rule in table 100 stay |
| Restart.ThirtyThirdInterfaceLeavesEntries | src/engine/dispatcher.rs:441-456 | With 33 interfaces at base 100 the policy rule and route of an IPv4 rule in table 132 stay |
| Restart.RestartLeavesOnlyIPv6Routes | src/engine/dispatcher.rs:439-482 | With the same base from 100 to 199 and at most 32 indices, whatever failed in the run before, the cleanup leaves exactly that run's IPv6 routes, and touches no table from 253 on |
| Restart.StartupAfterCleanupIsExact | src/engine/dispatcher.rs:403-437 | Over what any such cleanup leaves, the next startup is exact besides it if and only if it leaves no stray policy rule and gives every tracked rule an entry of its own that did not survive the cleanup |
| Restart.RestartIsExact | src/engine/dispatcher.rs:403-437 | With the same base and few indices: if and only if it leaves no stray policy rule, gives every tracked rule its own entry, and no IPv6 rule finds a leftover route in its place |
| Restart.RestartIsForeseen | src/engine/dispatcher.rs:403-482 | Without faults it is exact if and only if no interface qualifies, or in the first one's table no installable default rule has the place of an entry that survived and no two have one place |
| Service.DaemonService.Init | src/daemon/service.rs:148-162 | A connected route manager goes under the dispatcher and a monitor into the slot, or neither when the base is refused or the connection fails; the ledger stays |
| Service.DaemonService.PollNetworkChanges | src/daemon/service.rs:305-326 | The monitor is back in its slot however the poll ends; a refused poll changes neither monitor nor dispatcher; events of a good one are dispatched in order, each with a real walk of the ledger, and stay queued |
| Service.DaemonService.ApplyInitialRoutes | src/daemon/service.rs:220-237 | The monitor is back in its slot on success and failure; without a monitor or a list nothing changes; else the startup over a kernel cleaned as CleanupStaleTables promises |
| Service.DispatchIsRun | src/daemon/service.rs:319-324 | What the loop dispatches is a run of the dispatcher, so the results on runs hold of the loop |
| Service.StartMirrorsIffAllRun | src/monitor/netlink.rs:169-171 | The cache built from the startup list mirrors the first snapshot of the same links if and only if no link is up without running |
| Service.DaemonMirrorsLinks | src/daemon/service.rs:305-326 | If startup list and first snapshot agree, then after any polls, faults and map orders each cached interface is up exactly when its link is |

## Left out

- rtnetlink, D-Bus, tokio and the resolver library: an abstract kernel, a snapshot and a lookup outcome stand for them, and message encodings are not modelled.
- CLI, control socket, systemd notification, signals, logging, the configuration file, its loader and watcher: input, output and library behaviour.
- Panics: the guard puts the monitor back on unwinding too; the model has returned errors only.
- Locks and asynchronous interleaving: the main loop handles one event at a time (`src/daemon/service.rs:252`).
- The NetworkManager monitor, a stub in the source, and events other than the dispatcher's five.
- `MatchBy`, gateways, interface priorities and a profile's own interface: declared but not used by the engine.
- Validation of interfaces and of profiles as a whole, and the spelling of log levels: rules, patterns and the rest of the global section are modelled.
- IPv4-only and IPv6-only resolution, per-interface flushes, `route_exists`, state filters and getters: easy members.
- The kernel's own rules and tables (main, local, default) and entries of other programs: not in the two tables of the model.
- Preference and metric 0, which a kernel may replace by a value of its own, are plain numbers here.
- Policy rules of tables above 255 in a listing: the cleanup never asks for such a table.
- A table listing is assumed to be filtered by table as requested.
- Routes the kernel itself drops when their device goes down or away: a route goes only when it is deleted, so what is said of entries left behind is of a kernel that keeps them, as it keeps policy rules.
- A failed interface lookup before a route is added counts as a refused addition.
- Of several routes to one destination in one table the model kernel deletes the lowest metric when none is named.
- Between policy rules of equal preference whose tables differ `Refinement.KernelPicks` allows each, and agreement asks that all picks be the same.
- LedgerRuns.ExactIffOrderly: rule names are distinct in every configuration, and no dry run, of which `Reactions.DryRunsTouchNothing` speaks. Where requests are refused the condition names what the step did, since which requests fail is not known before.
- Foresight.ExactIsForeseen: without faults, so that the condition can be told from the state before; with faults it is `LedgerRuns.ExactIffOrderly`.
- Foresight.SoundIsForeseen: without faults; with faults it is `Soundness.SoundIffRoomy`.
- Discipline.LedgerIsExact: a sufficient discipline, without reloads and stops in the run; the exact condition for any run is `LedgerRuns.ExactIffOrderly`.
- Soundness.SoundIffRoomy: rule names distinct and no dry run, as above.
- Soundness.TrackedStaysInstalled: a sufficient discipline; the exact condition is `Soundness.SoundIffRoomy`.
- Homes.SoundRoutesGoHome: no two rules with one destination and one priority; `Discipline.SameSlotHidesSecond` shows what such two do.
- Homes.HomedOverRuns: reloads only add rules; one that changes a rule leaves routes for the rule it was.
- Attempts.DownTriesAll: where absence is an error and some tracked rule is not installed, a removal can fail without a refusal; then the count says nothing.
- Attempts.AskingTriesAll: not of dry runs, which make no request and track every installable rule (`DefaultRules.DefaultsActivate`, `Reactions.ProfileIsApplied`).
- Reactions.DownIsCleaned: deletions succeed; `LedgerRuns.EventKeepsExact` covers failing ones.
- Restart.RestartLeavesOnlyIPv6Routes: the same base and at most 32 indices; for any base and any tables it is `Restart.CleanSlateIff`.
- Refinement.KernelRefinesMatcher: valid default rules with distinct names and zero host bits, without faults; profile rules are covered by `Refinement.ExactStateRefinesMatcher`.
- Wrapping of u32 additions: tables are at most 199 + 255, so none occurs; the cast of the interface count to a byte is modelled.
