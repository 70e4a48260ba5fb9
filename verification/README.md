# Verification of the agent's ban enforcement

A Dafny model of the parts of the Obliguard agent that keep a server-requested ban set enforced in
host firewalls that will not store that set as it is, and of the event path beside it. `dafny verify
dfyconfig.toml` checks everything.

The model follows the code's form: firewalls, mailbox, event queue, log watcher and frame reader are
classes whose methods change their fields, loops are loops, and each is proved against functions on
values. A firewall command is a step on an abstract kernel state that may fail; each backend counts the
commands refused although they could be carried out, and the reads that failed (`refusals`), and what
an operation achieves when there are none is part of its contract.

| files | what they model |
|---|---|
| `Numbers`, `Prefixes`, `IntervalSet`, `Chunks` | prefixes as numbers, canonical entries and keys, the planner for interval sets that refuse overlaps |
| `Nftables` | the nftables backend and its kernel sets, with the migration of the pre-interval set |
| `BanSafety`, `BanDelta`, `BanSystem`, `BanPath` | the ban-safety guard, the coalescing mailbox, the whole ban path as a state machine, and the code that takes its steps |
| `WfpFilters`, `WfpBackend`, `WfpRuns`, `Netsh` | the two Windows backends, and the WFP one under concurrent calls |
| `Observer`, `Migration`, `BackendSwitch` | the migration between them under one observer, and the runtime switch |
| `Ipset` | the in-place migration of the ipset to `hash:net` and the chain rebuild around it |
| `EventQueue` | the bounded event queue and its flush loop |
| `WebSocket`, `LogTail`, `PfConf` | RFC 6455 framing, the log tailer, pf.conf patching |

How the main results fit together:

- *The planner.* A kernel set that refuses overlaps can only hold the containment-maximal entries.
  `Laminar` makes containment the only way to overlap; `PlanIntervalSet` is specified by set algebra on
  the requested entries and `Maximal`, not by its steps; history independence, blocking and convergence
  are lemmas about that specification.
- *The ban path.* `BanSystem` is a state machine over the migration at the first call, frames, wake-ups,
  batches held outside the lock, resyncs and the purge. Its safety invariant holds under any
  interleaving and any failure; its meaning lemmas give what is enforced and reported when the flushes
  succeed. `BanPath` proves that the methods, written over the backend class and the mailbox class,
  take exactly these steps.
- *No gap.* `Nftables` and `Ipset` carry an observer that looks at every command and turns true for good
  once something watched is left unenforced. The two Windows backends share one (`Observer`), to which
  both report every change: an entry is missed when neither enforces it. The migrations are proved for
  whatever is being watched; the switches watch what the old backend enforces after its flush, and
  `Serve` carries the result over any sequence of switches and deltas.
- *WFP under concurrency.* `WfpRuns` is a state machine over bans, unbans, flush batches and resyncs: the
  engine reaches what the bans and unbans ask for, and no resync takes an unban back. The methods of
  the backend, run among other calls, take its steps.
- *The queue.* The class refines "the newest n of everything ever pushed"; the flush loop is proved with
  other goroutines pushing between any two of its steps, and its books balance over any number of
  sessions.

Where the code does not give a stronger property one might expect, the exact condition is proved:

- An entry held both in the kernel and in `covered` needs two removals (`SetAlgebra`, `OneRound`), and
  runs lead there (`LiftNeedsTwoRounds`).
- A resync that finds nothing to change does not flush, so it does not repair a `covered` list left
  behind by a refused element (`ResyncHeals`, `ResyncFindsNothing`).
- A batch taken before a resync lands after it (`HeldBatchAfterResync`, `HeldBatchOverrides`).
- A failed backend switch is not retried for the same preference (`SamePreferenceIsNoRetry`).
- The ipset chain rebuild empties both chains before it binds them again, and binds whatever the named
  set holds: after an interrupted migration that can be nothing (`EnsureChain`, `InterruptedRefill`).
- A stale WFP filter whose delete fails hard while the same entry is added costs the entry its filter
  at the next flush (`FlushFate`, `TwoFlushesUnenforce`), and makes a switch to WFP count an entry that
  is not enforced (`SwitchToWfp`).
- After a failed abort the operations reported as done are not in force, then or later (`CommitBatch`);
  those before it are (`Flush`, `SwitchToWfp`).
- Opcodes above 15 lose bits on the wire (`OpcodeFits`), and a frame that announces more bytes than a
  slice can hold is a panic of the reader, not an error (`ReadFrame`).
- A line of at least 2^20 bytes can be lost, depending on when the file is polled (`LongLineIsLost`).
- A frame that cannot be marshalled takes its events and its count of drops along (`Sessions`).
- Unpatching pf.conf normalises carriage returns and the end of the file (`RestoresIff`).

## Model

| member | source | states |
|---|---|---|
| `Prefixes.KeyRoundTrip` | agent/firewall.go:509-549 | The text an accepted entry is reported under parses back to the same prefix, for single addresses, CIDRs and IPv4-mapped IPv6, so string deltas against the report converge. |
| `Prefixes.KeyForm` | agent/firewall.go:543-549 | A reported text has a length exactly when the entry holds more than one address. |
| `Prefixes.EntryMeans` | agent/firewall.go:509-549 | What a text names: nothing exactly when it does not parse, is out of range, or is a mapped network shorter than 96 bits; a single address exactly that address; a network, with its family and length, exactly the addresses that agree with its address above the host bits; a mapped one the IPv4 entry 96 bits shorter, its address less 0xffff times two to the 32. |
| `Prefixes.MaskKeepsOutOfMapped` | agent/firewall.go:509-541 | Masking never moves an IPv6 address into the IPv4-mapped range, the step that makes folding before masking safe. |
| `Prefixes.PrefixIsInterval` | agent/firewall.go:605-615 | The addresses a prefix contains (bit comparison) are exactly an interval of size two to its host bits. |
| `Prefixes.Laminar` | agent/firewall.go:605-615 | Two prefixes share an address if and only if one contains the other. |
| `Prefixes.ContainsIsInclusion` | agent/firewall.go:605-615 | Containment as the code tests it (shorter, and containing the address) is inclusion of the address sets. |
| `Prefixes.StrictCoverIsBroader` | agent/firewall.go:605-615 | A prefix strictly containing another is strictly shorter, so it is never a host entry. |
| `IntervalSet.PlanIntervalSet` | agent/firewall.go:632-716 | From any overlap-free `present` and any `covered`: distinct deletes of present elements, distinct adds of absent ones, a result that is exactly the containment-maximal requested entries with the others covered, and no entry deleted and re-added unless the delta itself removes and adds it. |
| `IntervalSet.SetAlgebra` | agent/firewall.go:610-716 | The planner is plain set algebra (removals, then additions) if and only if every entry held in both parts and removed exactly once is also added. |
| `IntervalSet.CleanIsCanonical` | agent/firewall.go:632-716 | An overlap-free kernel with all covered entries strictly inside it is exactly the maximal elements of the requested entries, and the two parts are disjoint. |
| `IntervalSet.HistoryIndependence` | agent/firewall.go:632-716 | Two histories that reach the same requested entries leave the same kernel elements and the same covered entries. |
| `IntervalSet.MaximalBlocksAll` | agent/firewall.go:632-716 | The kernel elements block an address if and only if some requested entry holds it. |
| `IntervalSet.MaximalIsAntichain` | agent/firewall.go:632-716 | Maximal elements never contain each other: what the kernel set accepts. |
| `IntervalSet.SplitIsClean` | agent/firewall.go:632-716 | The canonical split of any set is overlap-free, hides every covered entry and reports the whole set. |
| `IntervalSet.OneRound` | agent/firewall.go:720-739 | One round of (desired - reported, reported - desired), from any overlap-free kernel and any covered entries, ends on the desired set if and only if the entries the report could not tell apart are desired. |
| `IntervalSet.CleanRound` | agent/firewall.go:720-739 | From a clean state one round ends on the desired set, blocks exactly its addresses and reports exactly it. |
| `IntervalSet.ReportedIsBlocked` | agent/firewall.go:720-739 | Whatever `covered` holds, every address of a reported entry is blocked by the kernel elements. |
| `IntervalSet.ReportWithCovered` | agent/firewall.go:720-739 | Reports the present elements and the covered entries strictly inside a present one, no others. |
| `IntervalSet.PrefixCoveredBy` | agent/firewall.go:605-615 | Finds a network strictly containing the prefix if and only if there is one. |
| `IntervalSet.Remove` | agent/firewall.go:632-660 | The removal loop: entries leave `covered` first, then `present`; the deletes are distinct present elements. |
| `IntervalSet.Land` | agent/firewall.go:632-716 | A network landing on the set retires exactly the elements inside it and covers them. |
| `Chunks.ChunkStrings` | agent/firewall.go:743-753 | The chunks are the consecutive slices of the list, each of the given size except a non-empty last one, and together they are the whole list. |
| `Chunks.PieceOf` | agent/firewall.go:743-753 | Element j of the list is in chunk j / size. |
| `Nftables.NftElementScript` | agent/firewall_nftables.go:218-237 | The kernel accepts the whole script (no delete of an absent element, no overlapping add) and ends on the planned elements; no statement names more than 2000. |
| `Nftables.NftablesFirewall.Apply` | agent/firewall_nftables.go:242-273 | Atomic script, then element by element: only planned elements come or go whatever fails; with no failure the plan is carried out, and an element fails only if a command is refused beyond the script; a plan without deletes never leaves a watched address unblocked. |
| `Nftables.NftablesFirewall.CopyLegacy` | agent/firewall_nftables.go:141-168 | Copying the old set first only adds elements, and when it succeeds the interval sets alone block everything blocked before. |
| `Nftables.NftablesFirewall.MigrateLegacy` | agent/firewall_nftables.go:141-168 | On every path of the migration, no address enforced before is unblocked after any command; when it ends with the old set gone, the interval sets block everything. |
| `Nftables.NftablesFirewall.EnsureTable` | agent/firewall_nftables.go:101-168 | The first call runs the migration once: the elements stay and only planned ones come, the covered entries are the hidden part of elements and old set together, the old set goes only when the plan was carried out, and always when nothing is refused; no command of it leaves unblocked an address that was blocked when it began; a later call does nothing. |
| `Nftables.HostsRetireNothing` | agent/firewall_nftables.go:141-168 | Planning single addresses into a set with nothing covered plans no delete, which is why the copy has no gap. |
| `Nftables.ExecAllKeepsAntichain` | agent/firewall_nftables.go:218-273 | Whatever script is accepted, no two elements of the kernel share an address afterwards. |
| `Nftables.NftablesFirewall.Flush` | agent/firewall_nftables.go:292-318 | The whole new state: buffers emptied on every path, a failed listing changes nothing, otherwise `covered` is the hidden part of the requested set and the kernel its maximal part when no element was refused; a refused element never removes an entry the plan keeps; the pre-interval set loses at most the removed entries, and all of them when nothing was refused. When the kernel refuses nothing and can be read, the flush succeeds with no element failed. |
| `Nftables.NftablesFirewall.GetBannedIPs` | agent/firewall_nftables.go:320-341 | Exactly the present and hidden entries, with the pre-interval elements while that set exists and can be read; nothing when the interval sets cannot be read; everything when nothing fails. |
| `BanSafety.Check` | agent/bansafety.go:193-212 | Accepted exactly when the prefix is at least as long as its floor, shares no address with a reserved range and holds no protected address; otherwise the reason given is true. |
| `BanSafety.Filter` | agent/bansafety.go:147-169 | Exactly the safe canonical entries, each once, in the order of first appearance. |
| `BanSafety.OverlapsMeansSharedAddress` | agent/bansafety.go:193-212 | The overlap test of the guard (network parts at the shorter length) holds if and only if some address is in both. |
| `BanSafety.SafeHoldsNoReservedAddress` | agent/bansafety.go:52-64 | A safe prefix holds no address with the leading bits of a reserved range and no protected address. |
| `BanSafety.SafeMeans` | agent/bansafety.go:52-62 | The guard of the agent accepts a prefix if and only if it is at least as long as the floor of its family, holds no address of the nine reserved ranges (given by their first and last addresses) and none the agent needs. |
| `BanSafety.SafeInside` | agent/bansafety.go:193-212 | Every prefix inside a safe one is safe: what the planner exposes later needs no second check. |
| `BanSafety.Unsafe` | agent/bansafety.go:174-190 | Exactly the parseable entries the guard refuses, in order, every occurrence once: with Filter, a partition. |
| `BanDelta.BanMailbox.QueueBanDelta` | agent/cmd_ws.go:970-986 | The pending operations after a delta: last operation wins, removals of the same delta after its additions. |
| `BanDelta.MergeIsSequential` | agent/cmd_ws.go:961-1013 | Applying the merged batch equals applying the batch queued before and then the delta. |
| `BanDelta.BanMailbox.TakeBanDelta` | agent/cmd_ws.go:998-1013 | Empties the mailbox and returns its operations as two disjoint duplicate-free lists. |
| `BanSystem.StepKeepsInv` | agent/cmd_ws.go:869-1087 | Every step of migration, config frames, worker, resync and purge, under any failure: nothing unsafe is in the mailbox, held or listed for resync; unsafe entries in force or hidden are only those found at start, and only until the purge goes through; hidden ones are single addresses inside an element in force, so every report shows them; pending operations always have a signal, a queuer before its send or a woken worker. |
| `BanSystem.RunKeepsInv` | agent/cmd_ws.go:869-1087 | Over every run from a state of that invariant, whatever the order of events and whatever fails: nothing unsafe on its way, unsafe entries only if found at start and not purged yet, no pending operation stranded. |
| `BanSystem.HiddenIsSafe` | agent/firewall.go:632-716 | What a flush over safe hidden entries hides is safe whatever the kernel held, so exposing it later is safe. |
| `BanSystem.DeltaIsRequested` | agent/firewall_nftables.go:292-318 | The state machine's backend step is the planner's requested set. |
| `BanSystem.StepMeaning` | agent/cmd_ws.go:869-1087 | With successful flushes every step keeps the backend clean and the goal (backend, then held batch, then mailbox), except that a frame overlays its guarded delta, a resync replaces it by its list and the purge keeps its safe part. |
| `BanSystem.RunMeaning` | agent/cmd_ws.go:961-1060 | The goal after a run is the fold of those meanings, for every interleaving. |
| `BanSystem.InternalRunsEnd` | agent/cmd_ws.go:1016-1035 | Without new frames the number of internal steps is bounded. |
| `BanSystem.WorkCanGoOn` | agent/cmd_ws.go:987-1024 | A state with anything pending has an enabled internal step that can succeed: no operation is stranded. |
| `BanSystem.ResyncHeals` | agent/cmd_ws.go:869-908 | From any reachable state: a successful resync leaves a clean state unless it found nothing to change, and it reports its list if and only if nothing had to change or the list holds every entry the report could not tell apart. |
| `BanSystem.ProtectedAddressesStayReachable` | agent/cmd_ws.go:1069-1087 | No run of any events, the migration at the first call included, blocks a protected address, in the interval sets or in the pre-interval set, unless it was blocked at start and the purge has not gone through. |
| `BanSystem.PurgedKernelIsSafe` | agent/cmd_ws.go:1069-1087 | After the purge has gone through, everything in force and everything hidden is safe at every later point of every run. |
| `BanSystem.PurgeCleans` | agent/cmd_ws.go:1069-1087 | A purge that could read everything and had nothing refused leaves only safe entries, in force or hidden: no unsafe entry is ever out of sight of its report. |
| `BanSystem.MigrationKeeps` | agent/firewall_nftables.go:125-168 | The migration of the pre-interval set, skipped, partly refused or complete, keeps every held entry, leaves a clean state and unblocks no address. |
| `BanSystem.DeltasAreEnforced` | agent/cmd_ws.go:961-1060 | End to end: at rest after any interleaving of the migration, frames and worker, the host blocks exactly the addresses of the deltas applied one by one to what was in force at start, and reports exactly that set; without a pre-interval set the kernel holds exactly its maximal part. |
| `BanSystem.QuietMeansEnforced` | agent/cmd_ws.go:1016-1060 | With no work left the host blocks and reports exactly the goal. |
| `BanSystem.ResyncEnforcesItsList` | agent/cmd_ws.go:869-908 | From a clean state, at the moment its lock is released a successful resync has made the reported set its list, and the host blocks exactly the addresses of the list. |
| `BanSystem.HeldBatchAfterResync` | agent/cmd_ws.go:1016-1024 | The run of a resync and of a batch taken before it, from any clean reachable state, everything succeeding: what is held and reported in the end is the list of the resync if and only if the batch bans nothing outside the list and lifts nothing inside it. |
| `BanSystem.LiftNeedsTwoRounds` | agent/firewall.go:632-716 | A run from a start state in which refused commands leave an entry both present and covered, and a later lift whose every command succeeds leaves it in force and reported: the conditions of SetAlgebra, OneRound and ResyncHeals are met by real runs. |
| `BanSystem.ResyncFindsNothing` | agent/cmd_ws.go:869-908 | A run from a start state to an entry both present and covered, and a resync of exactly what is reported: it changes nothing and the entry stays in both parts. |
| `BanSystem.HeldBatchOverrides` | agent/cmd_ws.go:1016-1024 | A run from a start state in which the batch that bans a network was taken before a resync to the empty list: the network is in force and reported at the end. |
| `BanSystem.DeltaRound` | agent/cmd_ws.go:961-1060 | A delta from frame to flush is a run of the state machine that ends in the flushed state. |
| `BanPath.BanPath.FirstCall` | agent/firewall_nftables.go:101-168 | The first backend call of a process, with whatever removals are buffered by then, is the Migrate step; the buffers stay; with nothing refused an old set is migrated completely. |
| `BanPath.BanPath.ApplyBanDeltaLocked` | agent/cmd_ws.go:1039-1060 | Buffering and flushing a delta is one backend step of the state machine, with every kernel a refused element can leave, and the full outcome when nothing is refused or unread. |
| `BanPath.BanPath.TakeBatch` | agent/cmd_ws.go:1016-1022 | Taking the mailbox is the Take step: idle when it was empty, otherwise holding exactly its operations. |
| `BanPath.BanPath.ApplyBanDelta` | agent/cmd_ws.go:1028-1035 | The held batch lands as the Apply step, a successful one when nothing is refused or unread. |
| `BanPath.BanPath.ConfigFrame` | agent/cmd_ws.go:931-994 | The ban list of a config frame, entries that do not parse included, is the Frame step followed by the wake-up. |
| `BanPath.BanPath.CanonicalList` | agent/firewall.go:558-575 | The canonical entries, each once, and the texts that do not parse, each once. |
| `BanPath.BanPath.ResyncFirewall` | agent/cmd_ws.go:869-908 | The resync code is the two resync steps of the state machine, and a successful one when everything could be read and the flush went through with nothing refused, so whenever the kernel refuses nothing. |
| `BanPath.BanPath.PurgeUnsafeBans` | agent/cmd_ws.go:1069-1087 | The purge code is the Purge step, and has gone through whenever everything could be read and the flush went through with nothing refused, so whenever the kernel refuses nothing. |
| `WfpFilters.MatchRoundTrip` | agent/firewall_wfp_windows.go:650-689 | Reading back the condition written for a prefix gives the prefix, in the current form. |
| `WfpFilters.MatchIsExact` | agent/firewall_wfp_windows.go:650-689 | A condition that reads back as a prefix blocks exactly the addresses of that prefix. |
| `WfpFilters.ClassifyWFPRules` | agent/firewall_wfp_windows.go:760-788 | Every own filter is either the current one of its entry or listed as stale, none lost, and the entries found are enforced. |
| `WfpFilters.MirrorBlocks` | agent/firewall_wfp_windows.go:483-571 | Filters that are exactly those of a set of entries block an address if and only if some entry holds it. |
| `WfpFilters.EnforcedBlocks` | agent/firewall_wfp_windows.go:650-711 | An enforced entry blocks every address it holds. |
| `WfpBackend.WfpEngine.RunOps` | agent/firewall_wfp_windows.go:613-644 | The operations reported done are the ones in force; an operation that finds its work already done counts. |
| `WfpBackend.WFPFirewall.NeedFlush` | agent/firewall_wfp_windows.go:878-909 | The length-plus-subset test decides set equality. |
| `WfpBackend.WfpEngine.CommitBatch` | agent/firewall_wfp_windows.go:576-607 | With begin, commit, abort and operations free to fail: a transaction is left open exactly when one was open before or an abort failed; the returned operations are a subsequence of the batch, all in force in order when none is open, and none of them when one is. One refusal in a transaction of its own, whichever it is, loses no operation: the batch is replayed. |
| `WfpBackend.WFPFirewall.Flush` | agent/firewall_wfp_windows.go:483-571 | From any state of engine and books, for any batch split: the operations taken for done are those of a flush to the desired set and the books show them; the filters are what the operations in force make of them, which are all those taken for done as long as no abort failed and those before it otherwise; while they are the same, the fate of every entry counted as applied is decided; it is complete when the engine refuses at most one command; then, from right books, engine, cache and desired set agree. |
| `WfpBackend.FlushFate` | agent/firewall_wfp_windows.go:483-571 | Exactly when an entry counted as applied is enforced after a partial flush: one counted before, if and only if it was and its stale id (if any) was not deleted; one added, if and only if it was, or its id was free or was freed. |
| `WfpBackend.EnforcedAfter` | agent/firewall_wfp_windows.go:576-644 | After any list of operations that took effect, an entry is enforced if and only if it was added after the last delete of its filter, or none was deleted and it was enforced before or added under a free id. |
| `WfpBackend.AllEnforcedIff` | agent/firewall_wfp_windows.go:483-571 | Every entry counted as applied is enforced after a flush if and only if none lost its filter to a stale delete and none was added behind an outdated filter. |
| `WfpBackend.TwoFlushesUnenforce` | agent/firewall_wfp_windows.go:483-571 | Two flushes, from books just read from the engine, after which an entry is counted as applied with no filter and nothing left to do: the delete of its outdated filter fails hard while it is added, and goes through at the next flush. |
| `WfpBackend.FreshFlushTells` | agent/firewall_wfp_windows.go:743-788 | From books just read, after any partial flush an entry counted as applied is enforced if and only if its id is not stale. |
| `WfpBackend.WFPFirewall.Resync` | agent/firewall_wfp_windows.go:878-909 | Whatever the books held, after a successful read they tell the truth, and with nothing refused it succeeds and engine, cache and desired set agree; with other goroutines in between, see `ResyncAmongCalls` and `NoUnbanIsLost`. |
| `WfpBackend.MirrorLog` | agent/firewall_wfp_windows.go:483-571 | The operations of a flush, even a partial one, keep right books a mirror of the engine. |
| `WfpRuns.RunKeepsInv` | agent/firewall_wfp_windows.go:483-571 | Over every interleaving of bans, unbans, flush batches and resyncs, with any operations failing, a flush under way has done to the books it started from exactly what its successful operations do. |
| `WfpRuns.EndIsFlush` | agent/firewall_wfp_windows.go:483-571 | A flush interleaved with any bans and unbans leaves what it would alone: the fate of each entry is decided by the books and the desired set of its snapshot and by what it got through. |
| `WfpRuns.DesiredIsGoal` | agent/firewall_wfp_windows.go:870-877 | The desired set after any run is the fold of its bans and unbans: no flush and no resync changes it. |
| `WfpRuns.FreshIsRead` | agent/firewall_wfp_windows.go:760-788 | Right books are exactly what a read of the engine gives. |
| `WfpRuns.NeedsFlushIff` | agent/firewall_wfp_windows.go:891-909 | With right books the divergence test asks for a flush if and only if the engine does not hold exactly the filters of the desired set. |
| `WfpRuns.AfterRead` | agent/firewall_wfp_windows.go:870-909 | From any reachable state a resync makes the books right; they stay right through any interleaving in which stale filters are deleted when they should, whatever else fails; and between flushes the test tells exactly whether the engine holds what all bans and unbans ask for. |
| `WfpRuns.FlushReaches` | agent/firewall_wfp_windows.go:483-571 | A flush from right books in which nothing fails ends on exactly the set desired at its snapshot, and asks for another one if and only if the calls during it changed that set. |
| `WfpRuns.NoUnbanIsLost` | agent/firewall_wfp_windows.go:870-877 | After any run, a resync anywhere among bans, unbans and flushes, and then one whole flush, the engine holds exactly the filters of the set all calls before that flush ask for, and none of an entry last unbanned. |
| `WfpRuns.LiftRacesResync` | agent/firewall_wfp_windows.go:870-877 | The race itself: an entry is unbanned, a resync reads it as still enforced, asks for a flush and does not take it back; the flush lifts it. |
| `WfpRuns.TwoFlushesRun` | agent/firewall_wfp_windows.go:483-571 | The two flushes of `TwoFlushesUnenforce` as a run: a batch in which the add takes effect and the stale delete does not, then one in which it does; the entry is counted, unenforced, and no flush is asked for. |
| `WfpRuns.FlushAmongCalls` | agent/firewall_wfp_windows.go:483-571 | The flush code, with given calls of other goroutines after its snapshot and after each batch, is a run of this machine: snapshot, batches and end, with exactly those calls at exactly those places; with nothing refused the batches are the consecutive pieces of the op list, committed whole. |
| `WfpRuns.ResyncAmongCalls` | agent/firewall_wfp_windows.go:878-909 | The resync code, with given calls between its read and its flush and during the flush, is a run: the read, those calls, and, exactly when the test asked for one, a flush with the others at their places. |
| `Netsh.WindowsFirewall.Flush` | agent/firewall_netsh.go:165-206 | Whatever fails, every reported entry is listed for both directions; a nil result means the whole cache is, each entry in exactly one group per direction. With nothing refused it is nil, every rule under a name tracked before or after is a tracked one and lists only banned entries; and after the once-only sweep an entry is listed, in each direction, if and only if it is banned. |
| `Netsh.WindowsFirewall.SyncRules` | agent/firewall_netsh.go:296-352 | Each desired rule is in force or its entries are held back from the report; with nothing refused all are in force, no rule has a tracked name that is not the tracked one, and every formerly tracked name that is not wanted any more has no rule. |
| `Netsh.DesiredGroupedRules` | agent/firewall_netsh.go:276-291 | The desired rules are exactly one inbound and one outbound rule per chunk, with distinct names. |
| `Netsh.OneGroup` | agent/firewall_netsh.go:276-291 | Every entry is in exactly one group. |
| `Netsh.NetshHost.ApplyGroupedRule` | agent/firewall_netsh.go:357-376 | Success puts the rule in force, other names keep theirs; it takes three refusals to fail, and with nothing refused no other rule of its name and direction is left. |
| `Netsh.WindowsFirewall.CleanupStaleRules` | agent/firewall_netsh.go:393-421 | No wanted rule goes; when the rules can be listed and nothing is refused only wanted names are left; when they cannot be listed, the numbered rules are gone up to a gap of eight, and with nothing banned the base names too. |
| `Netsh.WindowsFirewall.IsDesiredGroupName` | agent/firewall_netsh.go:425-435 | True exactly for the names of the wanted groups. |
| `Netsh.WindowsFirewall.DeleteNumberedRulesFrom` | agent/firewall_netsh.go:439-455 | No wanted rule goes; with nothing refused exactly the numbers from the start to the first gap of eight, or to the limit, are gone. |
| `Migration.SwitchToWfp` | agent/firewall_wfp_windows.go:958-1074 | Initial flush, then the migration, watched for all that netsh enforces of its list by then (at least what it reports; what was enforced before, with nothing to flush): no command on any path leaves a watched entry enforced by neither backend, unless the switch succeeded with one WFP does not enforce; none at all if no abort failed and at the start every wanted id was free or enforced; failure leaves netsh enforcing what it did after the flush. With nothing refused and within the filter limit it succeeds, and no netsh rule is left if they were those of a flush or are to be flushed. |
| `Migration.SwitchToNetsh` | agent/firewall_wfp_windows.go:958-1119 | Initial flush, then the migration, watched for all of the desired set that WFP enforces by then (at least what it enforced before under ids not stale, whatever part of the flush is in force): no command on any path leaves a watched entry enforced by neither backend; success means the whole set is listed in both directions, failure that WFP enforces what it did after the flush. With nothing refused it succeeds and no WFP filter is left. |
| `Migration.BuildWfp` | agent/firewall_wfp_windows.go:1043-1067 | The two flushes of the building phase go to the wanted set from the books read before each, and the filters are what their operations in force make of those before; when it succeeds without a failed abort, exactly which of the wanted entries are enforced, not only counted. |
| `Migration.BuildNetsh` | agent/firewall_wfp_windows.go:1078-1105 | The building phase succeeds only with every entry listed in both directions. |
| `Migration.MigrateToWfp` | agent/firewall_wfp_windows.go:1043-1074 | Whatever entries are watched while netsh enforces them: no command leaves one enforced by neither backend, unless it succeeds although WFP does not enforce one; which entries a success leaves enforced is decided by the filters before and the operations in force, all those taken for done or those before a failed abort; without one, exactly the entries whose id is not stale (or, if the engine could never be read, was free or enforced); a failure leaves every netsh rule as it was. With nothing refused and within the filter limit it succeeds with exactly the banned set in books and engine, and the netsh rules are cleared. |
| `Migration.MigrateToNetsh` | agent/firewall_wfp_windows.go:1078-1119 | Whatever desired entries are watched while WFP enforces them: no command on any path leaves one enforced by neither backend; success means the whole set is listed in both directions, failure leaves every WFP filter as it was. With nothing refused it succeeds with exactly the banned set listed, and no WFP filter is left. |
| `Migration.FlushSpares` | agent/firewall_wfp_windows.go:483-571 | No flush, whatever part of it is in force, takes the filter of an enforced desired entry whose id is not stale. |
| `Migration.PurgeWfp` | agent/firewall_cleanup_windows.go:37-66 | With nothing refused the engine holds no filter of ours afterwards. |
| `Migration.DeleteGroupedRules` | agent/firewall_netsh.go:455-484 | With nothing refused exactly the base names and the numbers up to the first gap of eight, or to the limit, are gone. |
| `Migration.ApplyPreference` | agent/firewall.go:271-291 | The switch with its migration: nothing when the kind is right; otherwise one observed migration whose outcome decides the backend in use; no entry is added to the banned set and, within the filter limit, none is lost; the observer sees a gap only in a successful switch from netsh to WFP, and only after a failed abort or over an occupied id; a move to netsh ends with the whole set listed. |
| `Migration.Serve` | agent/firewall.go:240-291 | Over any sequence of preferences, bans, unbans and flushes within the filter limit, whatever fails: the outcomes of the migrations decide the backend in use, it is asked for exactly the fold of the bans and unbans, every attempted switch was observed, and the observer saw a gap only if some call was a switch to WFP and an abort failed or an entry banned by then had an occupied id at the start; so none when no abort failed and every id was free or current. With nothing refused, from a start where backend and books agree, every migration succeeds and after a flush exactly the fold of the bans and unbans is in force, all by one backend. |
| `Migration.InForceMeans` | agent/firewall.go:240-291 | An entry is then enforced by WFP or listed by netsh for both directions if and only if it is banned, and no filter or rule of the other entries is left. |
| `BackendSwitch.OneSwitchAtATime` | agent/firewall.go:228-258 | Over every run at most one switching goroutine exists, and no preference is left unapplied without one. |
| `BackendSwitch.LatestWins` | agent/firewall.go:228-291 | At rest the preference in force is the last one requested, and the enforcing backend is the one it selects if and only if the last switch that ran succeeded or was not needed. |
| `BackendSwitch.SwitchingEnds` | agent/firewall.go:240-258 | Without new requests at most six steps, so at most two switches, remain. |
| `BackendSwitch.SwitchableFirewall.RequestPreference` | agent/firewall.go:228-238 | The request section is the Request step, and says whether a goroutine is started. |
| `BackendSwitch.SwitchableFirewall.NextPreference` | agent/firewall.go:240-252 | The check section is the Check step. |
| `BackendSwitch.SwitchableFirewall.ApplyPreference` | agent/firewall.go:271-291 | The switch is the Migrate step; a failed migration keeps the backend. |
| `BackendSwitch.SamePreferenceIsNoRetry` | agent/firewall.go:228-291 | A run in which the migration of a requested preference fails ends at rest with the wrong backend enforcing; any number of further requests for that preference changes nothing, a request for any other one starts a switch. |
| `BackendSwitch.SwitchingGoesOn` | agent/firewall.go:240-258 | While the goroutine runs it has a next step: with SwitchingEnds, a run left alone comes to rest. |
| `Ipset.Host.Rebind` | agent/firewall_iptables.go:48-53 | Rules on the new set are added in both chains before those on the old one go: with a bound set before, every command keeps everything enforced, and the new set is bound after; the sets themselves do not change. |
| `Ipset.Host.MoveBack` | agent/firewall_iptables.go:319-339 | Re-creation with all members, or renaming, under the same guarantee. |
| `Ipset.Host.MigrateIpsetToNet` | agent/firewall_iptables.go:306-339 | From every kernel it ends with the members in a set of the new type under the name, with the old set still there, or with no set of the name; and if everything was enforced, also by a migration an earlier process began, after every command on every path (busy rollback, failed re-creation, rename) a rule in each direction matches a set holding all original members. With nothing refused it succeeds if and only if no rule uses the temporary set and the named one is used by at most one rule of each chain and by no other. |
| `Ipset.Host.EnsureChain` | agent/firewall_iptables.go:56-87 | From every kernel: the chain rebuild leaves a gap, and ends with everything enforced if and only if a set of that name exists by then and held everything at the start (a missing one held nothing); it exists whenever it was of the new type, and whenever nothing is refused. |
| `Ipset.InterruptedRefill` | agent/firewall_iptables.go:288-339 | The restart that loses every ban: interrupted right after the named set was re-created, the next start finds the right type and binds the empty set. |
| `Ipset.StagesFollow` | agent/firewall_iptables.go:306-336 | The stages of the migration up to that interruption are the effects of its commands. |
| `Ipset.StagesMigrate` | agent/firewall_iptables.go:306-336 | Every one of these stages enforces all members. |
| `Ipset.RebuiltEnforces` | agent/firewall_iptables.go:71-79 | The chain rebuild of any kernel enforces a set of entries if and only if the named set holds them. |
| `EventQueue.EventQueue.Push` | agent/eventqueue.go:56-67 | The queue becomes the newest `capacity` events of old contents plus pushed ones, the rest is counted as dropped; a raw line of at most 1024 bytes stays as it is, a longer one loses nothing but what is beyond that and the start of a split rune. |
| `EventQueue.EventQueue.PopBatch` | agent/eventqueue.go:91-108 | Takes exactly the oldest events up to the bound; taken plus left is what was queued. |
| `EventQueue.EventQueue.Requeue` | agent/eventqueue.go:73-88 | The batch goes back in front; without room its oldest events are the first to be dropped and counted. |
| `EventQueue.EventQueue.Advance` | agent/eventqueue.go:130-147 | Releasing the n oldest keeps the others, moves no more than the dead prefix it frees, and keeps every released slot zeroed. |
| `EventQueue.EventQueue.Compact` | agent/eventqueue.go:130-147 | The live part moves to the front and every stale slot is zeroed. |
| `EventQueue.EventQueue.SpaceBound` | agent/eventqueue.go:121-147 | Between operations the slice is never longer than capacity + max(capacity, 64), its dead prefix is zeroed and at most max(live, 64), and compaction has moved at most one element per element released, over any run. |
| `EventQueue.TruncateUTF8` | agent/eventqueue.go:150-159 | A prefix within the bound, cut back by no more than one rune, and whole runes stay whole. |
| `EventQueue.RequeueSuffix` | agent/eventqueue.go:73-88 | Requeueing keeps the queue the newest part of everything ever pushed. |
| `EventQueue.FlushEventQueue` | agent/cmd_ws.go:503-530 | Under any number of pushes between any two steps, failing sends and frames that cannot be marshalled, it ends, pops at most (initial length + 499) events, delivers a push-ordered sequence without repetition whose frames carry exactly those events, keeps the books balanced, and a nil result leaves nothing queued that was queued at its start; it is nil, and nothing is lost, when nothing is refused. |
| `EventQueue.FlushRound` | agent/cmd_ws.go:503-530 | One round sends at most one frame and keeps the books: delivered, reported drops, counted drops and what was lost with a frame make up everything no longer queued; the frame carries exactly the delivered events and all drops counted before; with no send or marshalling refused nothing is lost. |
| `EventQueue.Sessions` | agent/cmd_ws.go:503-530 | Over any run of pushes and flush sessions: what was pushed is what was delivered (in push order, none twice), what is queued and what is missing, and exactly as much is missing as was counted as dropped or lost with a frame. |
| `WebSocket.StreamRoundTrip` | agent/websocket.go:139-222 | For every sequence of opcodes below 16, payloads and mask keys, repeatedly decoding the concatenated frames gives the sequence back and consumes all bytes, across the three length forms (RFC 6455, sections 5.2 and 5.3). |
| `WebSocket.DecodeOne` | agent/websocket.go:139-222 | Decoding a written frame gives its opcode and payload and leaves exactly what followed it. |
| `WebSocket.OpcodeFits` | agent/websocket.go:187-222 | The opcode survives if and only if it is below 16. |
| `WebSocket.TruncatedIsEof` | agent/websocket.go:139-185 | Every proper prefix of a frame is an error, never a shorter message. |
| `WebSocket.WriteFrame` | agent/websocket.go:187-222 | The loop-built bytes are the frame. |
| `WebSocket.MaskedTwice` | agent/websocket.go:176-222 | Masking twice with one key is the identity. |
| `WebSocket.XorDiffers` | agent/websocket.go:180-216 | A bit of the masked byte is set exactly when that bit of byte and key differ. |
| `WebSocket.FrameHeader` | agent/websocket.go:187-213 | A client frame byte by byte: 128 plus the opcode (for opcodes below 128), the mask bit and the length in the shortest of the three forms, most significant byte first, then the key, then as many bytes as the payload has. |
| `WebSocket.FramePayload` | agent/websocket.go:214-219 | Each payload byte of the frame has bit i set exactly when bit i of the payload byte differs from bit i of the key byte at its position modulo four. |
| `WebSocket.FrameRead` | agent/websocket.go:139-185 | The reader takes a byte string for a frame if and only if header, key and announced payload are there and the payload fits a slice; the opcode are the low four bits of the first byte. |
| `WebSocket.NotAnnouncedIsEof` | agent/websocket.go:139-165 | Without a complete header it is no frame. |
| `WebSocket.PayloadBits` | agent/websocket.go:173-183 | The payload read is what was sent when the mask bit is not set, and otherwise each bit of it flipped exactly where the key has one. |
| `WebSocket.ShortestForm` | agent/websocket.go:187-222 | No masked frame that reads as a payload of this length has fewer bytes. |
| `WebSocket.Reader.ReadFrame` | agent/websocket.go:139-185 | The step-by-step reader computes the parse of the unread bytes and consumes exactly them; an error exactly when they end inside the frame, a panic exactly when a complete header and key announce more bytes than a slice can hold. |
| `LogTail.StepKeeps` | agent/logwatcher.go:316-377 | With short lines ahead, what a poll emits plus what is left is what was left before, and short lines stay ahead. |
| `LogTail.RunKeeps` | agent/logwatcher.go:316-377 | Over every schedule whose start offset has only short lines ahead: what was emitted plus what is left is everything after the start. |
| `LogTail.PollScheduleIndependence` | agent/logwatcher.go:316-377 | Every schedule of polls of an append-only file emits exactly the non-empty complete lines after the start offset, once each and in order, if and only if every such line is shorter than `maxPartialLine` (or only carriage returns). |
| `LogTail.LogWatcher.PollOnce` | agent/logwatcher.go:316-377 | The code of one iteration is one step: truncation, last newline, runaway drop, line loop; if the service is disabled between two lines it has read as far but emitted only the lines before, and ends the tailer. |
| `LogTail.LogWatcher.EmitLines` | agent/logwatcher.go:350-376 | The line loop emits the non-empty lines of the stretch in order, carriage returns trimmed, up to the one at which the service turns out to be disabled. |
| `LogTail.OffsetsAdvance` | agent/logwatcher.go:316-346 | Over every schedule on an append-only file no poll moves the offset back: no byte below it is read again. |
| `LogTail.EmitsTheTexts` | agent/logwatcher.go:346-376 | What a reader of a file emits are the texts of its non-empty lines, in order, without newlines and the carriage returns before them. |
| `LogTail.RotationRestarts` | agent/logwatcher.go:316-328 | When a size below the offset shows that the file was rotated or truncated, the polls of the new file read it from its beginning and emit all its complete lines after what was emitted before. |
| `LogTail.LongLineIsLost` | agent/logwatcher.go:338-348 | For any file with a longer line, a schedule that emits all complete lines but that one. |
| `PfConf.PatchIsRight` | agent/firewall_pf.go:314-348 | Whatever the file was, the patched one has an anchor line, a load line, no legacy line and one final newline. |
| `PfConf.PatchAdds` | agent/firewall_pf.go:314-348 | The kept lines come first, as they were up to blank ends; without a reference to the anchor one is added, and if nothing loaded it, the line that loads it from the given file. |
| `PfConf.AgentLines` | agent/firewall_pf.go:267-289 | Which lines are the agent's, and an older agent's, by their trimmed text. |
| `PfConf.TrimSpaceIs` | agent/firewall_pf.go:314-330 | Trimming takes away white space on both sides, and all of it. |
| `PfConf.PatchIsIdempotent` | agent/firewall_pf.go:314-348 | Patching a patched file changes nothing, whatever file the second patch would load. |
| `PfConf.NoChangeIff` | agent/firewall_pf.go:314-348 | No change is reported if and only if the file already has both hooks, no legacy line and a tidy end. |
| `PfConf.UnpatchGivesForeign` | agent/firewall_pf.go:314-367 | Unpatching a patched file gives the joined lines of the original that are not Obliguard's, in order. |
| `PfConf.RestoresIff` | agent/firewall_pf.go:314-367 | Patch then unpatch gives back the same bytes if and only if the file held no Obliguard line, no carriage return, and ended as the agent ends a file. |
| `PfConf.UnpatchedHasNothing` | agent/firewall_pf.go:352-367 | No line of an unpatched file is Obliguard's. |
| `PfConf.ConfJoinIsText` | agent/firewall_pf.go:302-308 | Joining and trimming the text is dropping the blank lines at the end and the blanks of the last line. |
| `PfConf.SplitJoin` | agent/firewall_pf.go:292-308 | Splitting joined lines gives the lines back. |
| `PfConf.JoinSplit` | agent/firewall_pf.go:292-308 | Joining split text gives the text back. |
| `PfConf.PfConfWithAnchor` | agent/firewall_pf.go:314-348 | The loop computes the patched text, and reports a change exactly when the file was not right already. |
| `PfConf.PfConfWithoutAnchor` | agent/firewall_pf.go:352-367 | The loop computes the unpatched text, untouched when no line is Obliguard's. |

## Left out

Weaker than the code or its documentation:

- PfConf.PatchIsIdempotent: the path of the anchor file is taken to hold no line end (it is a constant of the platform table); the same for the other members with `IsLine(anchorFile)`.
- EventQueue.EventQueue.Requeue: the count is a natural number; the guard against a negative one is not modelled.
- Nftables.NftablesFirewall.Apply: no gap-freedom is claimed for the element-by-element retry, which deletes before it adds.
- Netsh.WindowsFirewall.SyncRules: no gap-freedom between groups; entries may shift from one group to another.
- Ipset.Host.MigrateIpsetToNet: entry copies and edits of the agent's own chains are taken to succeed; listing, creating, destroying and renaming sets may fail.
- Migration.SwitchToWfp: resync and reconcile run at the points the code runs them, not interleaved by the background timer; WFP filters cover inbound traffic only, so an entry moved from netsh is enforced in that direction.
- WfpRuns.RunKeepsInv: in this machine aborts succeed; `FlushAmongCalls` and `ResyncAmongCalls` say nothing once one failed (`Flush` and `SwitchToWfp` do).
- Migration.Serve: stated within the filter limit; beyond it `BanIP` refuses and a switch to WFP fails.
- BanPath.BanPath.ResyncFirewall: every kernel element is taken as one its own key names (an IPv4-mapped IPv6 element put there by hand is not).
- BanPath.BanPath.PurgeUnsafeBans: the same.
- WebSocket.Reader.ReadFrame: the allocation limits of the runtime below the int range are not modelled.
- LogTail.LogWatcher.PollOnce: the line parsers are outside, a poll emits lines.

Not modelled:

- Text: `netip` parsing and printing (entries arrive as numbers, and a key is the number it prints), netsh, nft, pf and ipset output scraping, rule names as strings, `ruleID` hashing (injective).
- The order of keys in scripts, lists and reports, which the code sorts: ties and sorts by text are left open.
- Aliasing of the `covered` map, which the code updates in place: `PlanIntervalSet` returns the new one.
- The creation of the nftables table, with its statement-by-statement fallback, and the error `BanIP` returns when it fails.
- The refresh of the protected addresses (DNS, interfaces, gateway): the guard is over a fixed list. The floors are parameters.
- The ban list files of the Windows backends, and the warnings and logs everywhere.
- `canon` of the WFP backend: entries reach it parsed. WFP blocks inbound traffic only, so nothing is stated about outbound.
- Rate limiting, firewalld, ufw, pf tables, the plain iptables rules.
- `parseBanEntries`, firewall rule commands, queued commands, acknowledgements, heartbeats, update status.
- Log rotation by glob and offset pruning, header priming, journald and clog tailing, the log parsers.
- The WebSocket handshake, control frames, and continuation (the reader joins no fragments).
- Server, client, shared types and tools.
