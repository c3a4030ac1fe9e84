# Transfer Lanes in Dafny

Transfer Lanes spreads the files of a source tree over several network egresses. Each run makes temporary
changes to the host, offers every transfer a view of its own files, runs a command per transfer and takes
everything back, whether it ends, fails or crashes, and next to other runs and other programs. This project
models the parts of it that are hard to get right and proves what they promise.

`dafny verify dfyconfig.toml` checks everything. There is one module per component:

| module | models |
|---|---|
| `HostTransaction`, `HostHistory` | the write-ahead transaction: claim, installation with receipts, activation, close, rollback, recovery; every operation may fail before or after its effect and the process may die between any two |
| `EvidenceStore` | the evidence directory: staging, rename, sync, isolation, and what a crash may leave of it |
| `ClaimAllocation`, `ResourceSearch` | reservations of published claims, the circular searches, subnet choice and the allocation of a new claim |
| `IptablesPlane`, `IptablesLayout` | one program in an iptables plane, and any number of them in front of foreign chains |
| `FirewallPrograms` | the compiler from claims to firewall rules and what the rules decide |
| `LeaseDraining` | namespace leases and concurrent Close calls of a session |
| `EgressResolution` | policy rules and FIB tables walked with partly unknown selectors, against the kernel's own walk |
| `SourceAllocation` | the weighted greedy scheduler and its balance |
| `SourceFlattening`, `FileViews` | the captured tree, its lists, and the per-transfer views |
| `RunDirectory` | run roots, their three locks, and recovery by several processes |
| `Handshake` | launch of the supervisor from both sides, and cancellation precedence |
| `Wire`, `FinalEvents` | frames, event codecs, output chunking, the final event and its fallback |
| `Sanitizer`, `PlainOutput` | removal of control functions, and line output |
| `TerminalInput` | keys, mouse sequences and bytes of a terminal |
| `Weights` | exact normalisation of decimal weights |
| `Ipv4`, `Utf8`, `Sorting`, `Wrappers` | addresses and prefixes, section 4 of RFC 3629, what a sort promises, result shapes |

Code that changes state step by step is a class or a method with loops, proved against functions on values;
the theorems are about those functions or about whole runs. Protocols between several processes or threads
(`RunDirectory`, `Handshake`, `LeaseDraining`) are step functions on one state, so that a theorem over every
sequence of steps is a theorem over every interleaving.

## What turned out otherwise

Some promises hold only under a condition, which is proved exactly, with an input on which they fail:

- Recovery does not always clean. A run that died before activation is cleaned if and only if it had added no
  policy rule and no route of it waits for the kernel (`HostTransaction.Host.Cleanup`); otherwise the evidence
  stays. A death between the first two policy rules leads there (`HostHistory.DieBetweenRules`), and no number
  of recoveries leads out (`HostHistory.RecoverInVain`).
- The check for preempting rules does not look at the destination of an inverted rule. An earlier rule takes
  packets of a transfer if and only if the check reports it or it is inverted with such a destination
  (`ResourceSearch.OutboundCheckIsExact`, with an input in `ResourceSearch.InvertedDestinationPreempts`).
- What was allocated is not always publishable: a claim passes the validation of claims if and only if the
  inputs meet `ClaimAllocation.PublishableInputs`. A provider with a trailing plus sign is allocated under
  iptables and refused afterwards (`ClaimAllocation.PlusProviderIsNotPublishable`).
- An iptables program can be recognised again if and only if no provider interface is named `--comment`
  (`FirewallPrograms.ProgramIsWellFormed`), and its forward rules are read as intended if and only if no
  provider is named `-j` (`FirewallPrograms.BuiltProgramMeans`); both names pass the validation of claims.
- Packets that leave the links of a claim are isolated if and only if no provider is named like a link of the
  claim (`FirewallPrograms.IsolatedExactlyWhenApart`, and `FirewallPrograms.BuiltProgramIsolates` for the lines
  that the compiler returns). Packets that arrive need no such condition (`FirewallPrograms.ArrivingIsIsolated`).

## How to read the models

- `HostTransaction`: the host is a set of objects, each at a place and either exactly as claimed or foreign.
  `Covered` is the write-ahead invariant. A process that died does nothing more, so what a method promises at
  its end holds wherever inside it the process died. `Smooth` says that from here on every operation works,
  `Once` that at most one fails, and without effect,
  and `DiesAfter(n)` that the process dies at the operation after `n` more.
- `EvidenceStore`: `visible` is what the running system sees, `durable` is the set of directories a crash may
  find. A crash keeps some prefix of the directory operations made since the last completed sync; the content
  of a file that was not synced is not specified. A process that dies loses nothing: the next one inherits the
  operations that are not synced (`ReplaceProcess`); only a power failure picks one state (`FailPower`).
- `EgressResolution`: `WalkEnds` is the kernel's first-match walk over concrete packets. Unknown selectors of a
  rule are attributes of the packet, so a statement for every packet covers every value of them. A captured
  rule's equality stands for `comparePolicyRules` returning zero, and `SortedFacts` for the order `newSnapshot`
  leaves.
- `IptablesPlane`: a line is a list of arguments. `AllDone` says that no command fails.
- `SourceAllocation`: `picks` names the transfer of each file in processing order; `GreedyPicks` is the rule.
- `PlainOutput`: `Renders` is the definition of line output that knows nothing of buffers.
- `Weights`: real numbers are exact; no rounding takes place in the program either.

## Model

| member | source | states |
|---|---|---|
| `HostTransaction.Host.Open` | internal/hostnetwork/owner.go:117-175 | Whatever fails or dies: nothing that was on the host goes, only objects of the claim come, every run's object stays claimed by evidence, without evidence left the host is as before; success means everything stands exactly as claimed and is activated; on free places one operation failing without effect is undone completely, and a death between the first two policy rules leaves exactly the links, a route, one rule and the claim |
| `HostTransaction.Host.RollbackOpen` | internal/hostnetwork/owner.go:177-199 | Takes away receipted objects and the routes of receipted links only; evidence goes only when every claimed place is empty, and does go when the rest of the operations work and nothing foreign stands there |
| `HostTransaction.Host.PublishAndInstall` | internal/hostnetwork/owner.go:141-175 | The claim is on disk before anything is installed; without it nothing was touched |
| `HostTransaction.Host.UndoFailed` | internal/hostnetwork/owner.go:177-199 | Without evidence left the host is the one before the opening; with the rest of the operations working exactly the receipted objects go, and the evidence with them |
| `HostTransaction.Host.InstallVerified` | internal/hostnetwork/owner.go:149-160 | Receipts name only objects that this run added; after one failure without effect the host is exactly what it was plus the receipts |
| `HostTransaction.Host.InstallLinks` | internal/hostnetwork/host_linux.go:95-112 | Adds links of the claim only, receipts only for links that were not there; complete on free places when nothing fails |
| `HostTransaction.Host.InstallNextLink` | internal/hostnetwork/host_linux.go:95-112 | One link, receipted once it was made |
| `HostTransaction.Host.InstallTransferRouting` | internal/hostnetwork/routing_receipts.go:47-63 | Return route, outbound rule and return rule of one transfer, each receipted after it was added |
| `HostTransaction.Host.InstallRouting` | internal/hostnetwork/routing_receipts.go:37-45 | The routing of all transfers in order, receipts for what was added and nothing else |
| `HostTransaction.Host.InstallFirewall` | internal/hostnetwork/iptables_backend.go:154-189 | Refuses when any rule with the run's owner is there, else adds and receipts rule by rule |
| `HostTransaction.Host.InstallPaths` | internal/hostnetwork/host_linux.go:70-93 | Links and then routing; routing is only ever begun over all links |
| `HostTransaction.Host.Install` | internal/hostnetwork/host_linux.go:70-93 | Links, routing, firewall in this order; the receipts are part of the claim, and routing receipts come only after all links |
| `HostTransaction.Host.Verify` | internal/hostnetwork/host_linux.go:114-130 | Accepts only a complete installation that stands exactly as claimed, return table included |
| `HostTransaction.Host.UndoInstallation` | internal/hostnetwork/host_linux.go:147-156 | With working operations on an exact host takes away precisely the receipted objects and the routes of receipted links |
| `HostTransaction.Host.Rollback` | internal/hostnetwork/host_linux.go:147-161 | Never touches an object without a receipt except a route through a receipted link; reports success only when all claimed places are empty |
| `HostTransaction.Host.RemoveFirewall` | internal/hostnetwork/iptables_backend.go:245-275 | Deletes exactly the permitted firewall rules, and refuses when some rule with the run's owner is not the claimed one |
| `HostTransaction.Host.RollbackRouting` | internal/hostnetwork/routing_receipts.go:84-99 | Deletes receipted routing only, goes on after errors, and leaves none of it when nothing foreign or orphaned is in the way |
| `HostTransaction.Host.RemoveLinks` | internal/hostnetwork/host_linux.go:273-299 | Removes permitted links and with them only the routes through them |
| `HostTransaction.Host.RemoveActivatedRoutingOnce` | internal/hostnetwork/host_linux.go:262-271 | One pass deletes all claimed routing unless a route whose link is gone waits for the kernel; it then reports exactly that |
| `HostTransaction.Host.RemoveActivatedRouting` | internal/hostnetwork/host_linux.go:194-209 | Retries while only waiting routes are left; with a working host and at least one wait all claimed routing goes |
| `HostTransaction.Host.ClearConnections` | internal/hostnetwork/conntrack.go:20-48 | Only traffic records of the claimed addresses go, and success means none is left |
| `HostTransaction.Host.VerifyAbsent` | internal/hostnetwork/host_linux.go:301-312 | Holds exactly when every claimed place is empty, whatever would stand there |
| `HostTransaction.Host.CloseHost` | internal/hostnetwork/host_linux.go:163-175 | Removes objects of the claim only; succeeds only on empty places, and does succeed on an exact host without failures |
| `HostTransaction.Host.RemoveStale` | internal/hostnetwork/host_linux.go:177-192 | Policy rules of a claim that was not activated are never deleted; an activated one is cleaned |
| `HostTransaction.Host.Cleanup` | internal/hostnetwork/host_linux.go:177-192 | Without failures a dead run is cleaned if and only if it was activated, or had no policy rule yet and no route waiting for the kernel |
| `HostTransaction.Host.RemoveEvidence` | internal/hostnetwork/evidence_store_unix.go:125-152 | Activation, claim and directory go in this order, so evidence passes only through claim without activation |
| `HostTransaction.Host.CloseSession` | internal/hostnetwork/session_unix.go:148-169 | Evidence goes only when everything claimed is gone; success takes exactly the claim's objects from the host |
| `HostTransaction.Host.Recover` | internal/hostnetwork/owner.go:202-228 | Clean or evidence kept; without failures the evidence goes if and only if the claim can be cleaned |
| `HostTransaction.Host.Create` | internal/hostnetwork/claim_routing_linux.go:17-27 | A link or route is added only at an empty place |
| `HostTransaction.Host.AddRule` | internal/hostnetwork/claim_routing_linux.go:29-43 | A policy rule is added unless the very same is there |
| `HostTransaction.Host.DeleteExact` | internal/hostnetwork/claim_routing_linux.go:227-248 | Deletes exactly the claimed object or nothing; succeeds only when the place is empty after it |
| `HostTransaction.Host.DeleteReturnRoute` | internal/hostnetwork/claim_routing_linux.go:45-66 | Waits for the kernel exactly when the route is there and its link is gone |
| `HostTransaction.Host.RemoveVeth` | internal/hostnetwork/namespace_linux.go:358-387 | Deletes the link and with it the route through it, never a foreign link |
| `HostTransaction.Host.RollbackTransferRouting` | internal/hostnetwork/routing_receipts.go:84-99 | Receipted rules and route of one transfer, whatever fails between |
| `HostTransaction.Host.RemoveActivatedTransfer` | internal/hostnetwork/host_linux.go:262-271 | Claimed rules and route of one transfer, or a route that waits |
| `HostTransaction.Host.AwaitCascade` | internal/hostnetwork/host_linux.go:211-242 | Only routes without their link go |
| `HostTransaction.Host.ObserveRouting` | internal/hostnetwork/claim_routing_linux.go:282-295 | On an exact host accepts if and only if no route has lost its link |
| `HostTransaction.Host.StaleRouting` | internal/hostnetwork/host_linux.go:177-192 | Routing of an activated run is removed, of another one only looked at |
| `HostTransaction.Host.InstallAndActivate` | internal/hostnetwork/owner.go:149-175 | Activation is published only over a complete, verified installation with unused addresses |
| `HostTransaction.Host.ActivateUnused` | internal/hostnetwork/host_linux.go:132-145 | Activates only while no traffic of the claimed addresses is tracked |
| `HostTransaction.Host.InstallPublished` | internal/hostnetwork/owner.go:149-175 | Installs or rolls back; without evidence left the host is as before |
| `HostTransaction.Host.PublishClaim` | internal/hostnetwork/evidence_store_unix.go:35-59 | Publishes only where there is no evidence of the run |
| `HostTransaction.Host.PublishActivation` | internal/hostnetwork/evidence_store_unix.go:61-89 | Turns this claim's evidence into activated evidence or leaves it |
| `HostTransaction.Host.LoadEvidence` | internal/hostnetwork/evidence_store_unix.go:91-123 | Success means the very evidence on disk |
| `HostTransaction.StillCovered` | internal/hostnetwork/owner.go:117-147 | The write-ahead invariant: adding objects of a claim that is on disk keeps every run's object claimed |
| `HostTransaction.InstalledOnTop` | internal/hostnetwork/host_linux.go:70-130 | A complete installation over free places passes verification |
| `HostTransaction.PartlyInstalled` | internal/hostnetwork/owner.go:149-199 | Whatever part of an installation was made over free places stands exactly and can be undone to the very host before |
| `HostTransaction.UndoneExactly` | internal/hostnetwork/host_linux.go:147-161 | The three removals of a rollback together take away exactly what the receipts allow |
| `HostTransaction.RolledBack` | internal/hostnetwork/owner.go:177-199 | When a rollback left all places empty the host is the one before the opening |
| `HostTransaction.WhatIsLeft` | internal/hostnetwork/host_linux.go:177-192 | Firewall, routing and links gone means nothing of the claim is left, unless rules or waiting routes had stayed |
| `HostHistory.Take` | internal/hostnetwork/owner.go:87-228 | One step of anybody keeps the write-ahead invariant, and foreign objects change only by others' steps |
| `HostHistory.RunHistory` | internal/hostnetwork/owner.go:87-228 | Over every history of openings, closings, recoveries, deaths at any operation, kernel drops and foreign changes: any run's object is claimed by evidence on disk, and foreign objects are exactly what others made of them |
| `HostHistory.StuckBeforeActivation` | internal/hostnetwork/host_linux.go:177-192 | What a run leaves that died between its two policy rules satisfies the invariant and cannot be cleaned |
| `HostHistory.DieBetweenRules` | internal/hostnetwork/owner.go:117-175 | Opening on an empty host and dying between the two policy rules of the transfer ends in exactly that state |
| `HostHistory.RecoverStuck` | internal/hostnetwork/owner.go:202-228 | Recovering such a run fails whatever the host does, and leaves the rule and the evidence |
| `HostHistory.RecoverInVain` | internal/hostnetwork/owner.go:202-228 | After any number of recoveries by any number of processes the rule and the evidence of that run are still there |
| `EvidenceStore.Disk.PublishClaim` | internal/hostnetwork/evidence_store_unix.go:35-59 | The visible evidence stays or becomes this claim; every crash finds a former state or this claim; success makes it durable |
| `EvidenceStore.Disk.PublishActivation` | internal/hostnetwork/evidence_store_unix.go:61-89 | Only next to its own claim; a crash finds the claim with or without the activation |
| `EvidenceStore.Disk.Load` | internal/hostnetwork/evidence_store_unix.go:91-123 | Returns no claim or the exact published one, removes staging only, and leaves the evidence of every crash state alone |
| `EvidenceStore.Disk.RemoveEvidence` | internal/hostnetwork/evidence_store_unix.go:125-152 | Only the expected evidence, through claim without activation to nothing, in what is visible and in what a crash finds |
| `EvidenceStore.Disk.WriteEvidence` | internal/hostnetwork/evidence_store_unix.go:202-227 | Write, sync, rename, sync: every crash state has the published files of before or with the new one whole |
| `EvidenceStore.Disk.Stage` | internal/hostnetwork/evidence_store_unix.go:202-220 | A staged file changes nothing published, now or after a crash |
| `EvidenceStore.Disk.IsolateAndRemove` | internal/hostnetwork/evidence_store_unix.go:276-312 | Removing a staging file under an isolated name leaves the published files alone at every crash |
| `EvidenceStore.Disk.RemoveStaging` | internal/hostnetwork/evidence_store_unix.go:267-274 | After success only published files are visible and durable |
| `EvidenceStore.Disk.UnlinkPublished` | internal/hostnetwork/evidence_store_unix.go:125-152 | Activation first, then claim, each synced, so a crash never finds an activation without its claim |
| `EvidenceStore.Disk.Change` | internal/hostnetwork/evidence_store_unix.go:338-388 | One directory operation adds one state a crash may find |
| `EvidenceStore.Disk.PublishRename` | internal/hostnetwork/evidence_store_unix.go:202-227 | A synced file appears whole under its final name or not at all |
| `EvidenceStore.Disk.Sync` | internal/hostnetwork/evidence_store_unix.go:202-227 | Success leaves only the visible state to find |
| `EvidenceStore.PublishedShapes` | internal/hostnetwork/evidence_store_unix.go:160-191 | Without staging a directory holds the claim or the claim and its activation, and each removal leads to an accepted one |
| `EvidenceStore.RunStore` | internal/hostnetwork/evidence_store_unix.go:35-227 | Any sequence of publications, activations, loads, removals, processes dying and being replaced without a sync, and power failures that lose unsynced operations: every directory a crash may find is accepted, whole, and shows nothing or a claim that was published |
| `EvidenceStore.ReplaceProcess` | internal/hostnetwork/evidence_store_unix.go:91-123 | The next process inherits what is visible together with everything that is not yet synced |
| `EvidenceStore.FailPower` | internal/hostnetwork/evidence_store_unix.go:91-123 | After a power failure the directory is one of those a crash may find, any of them, and nothing is left unsynced |
| `ClaimAllocation.Reservations.Reserve` | internal/hostnetwork/published_claims.go:175-210 | A resource is reserved exactly when nobody has it |
| `ClaimAllocation.Reservations.AddTransfer` | internal/hostnetwork/published_claims.go:150-173 | Reserves a transfer exactly when its resources are different and all free |
| `ClaimAllocation.Reservations.Add` | internal/hostnetwork/published_claims.go:118-140 | Accepts a claim if and only if its resources are different ones and none is taken |
| `ClaimAllocation.Reservations.ReserveEach` | internal/hostnetwork/published_claims.go:118-173 | Accepts a list if and only if its resources are different and free |
| `ClaimAllocation.ReserveAll` | internal/hostnetwork/published_claims.go:100-116 | Accepts only disjoint, observed claims; a conflict means they are not disjoint |
| `ClaimAllocation.MergeEach` | internal/hostnetwork/published_claims.go:100-116 | Each claim merges into what the former ones made, refused exactly when a chain contradicts it |
| `ClaimAllocation.MergeNatChain` | internal/hostnetwork/published_claims.go:230-262 | Accepts if and only if the host shows exactly the expected chain once, or nothing of it when the program is absent; adds what is missing |
| `ClaimAllocation.MergeTransfers` | internal/hostnetwork/published_claims.go:264-273 | Adds links, priorities, both addresses and the subnet of each transfer, and nothing is forgotten |
| `ClaimAllocation.MergeClaim` | internal/hostnetwork/published_claims.go:212-228 | The inventory shows everything the claim reserves; refused exactly when its chain contradicts the host |
| `ClaimAllocation.MergePublished` | internal/hostnetwork/published_claims.go:100-116 | Accepted if and only if the claims are disjoint, observed, and each expected chain agrees with the host as merged so far; the result is exactly the host with every claim taken |
| `ClaimAllocation.OrderedSelections` | internal/hostnetwork/allocation.go:326-344 | Accepts exactly selections that are numbered 1 to n with usable facts, and only reorders them |
| `ClaimAllocation.NextNatPriority` | internal/hostnetwork/allocation.go:225-240 | The greatest priority before every active chain and before source NAT; none exactly when that reaches connection tracking |
| `ClaimAllocation.AllocatePriorities` | internal/hostnetwork/allocation.go:192-201 | The first two unused priorities in circular order; none exactly when there are no two |
| `ClaimAllocation.AllocateTransfer` | internal/hostnetwork/allocation.go:184-210 | Takes the first two unused priorities, the first acceptable subnet for that very pair and unused links, or is refused for what is missing with exactly these choices |
| `ClaimAllocation.AppendTransfers` | internal/hostnetwork/allocation.go:173-212 | All transfers of a claim reserve different things; refused with a reason if and only if after the forced placement of the transfers before it one transfer cannot be placed for that reason |
| `ClaimAllocation.PlacementIsDecided` | internal/hostnetwork/allocation.go:173-212 | The search leaves nothing open: a complete placement and a refusal exclude each other, and no two reasons apply to the same inputs |
| `ClaimAllocation.AllocateIdentity` | internal/hostnetwork/allocation.go:133-171 | First unused return table and protocol, no collision of firewall identity; refused for a reason if and only if that reason holds of the inventory |
| `ClaimAllocation.AllocateBackend` | internal/hostnetwork/allocation.go:150-168 | Backend data that follow the inventory; refused for a reason if and only if that reason holds of the inventory |
| `ClaimAllocation.AllocateNetwork` | internal/hostnetwork/allocation.go:120-131 | A claim that takes nothing taken, with every transfer where the circular searches put it; refused for a reason if and only if that reason holds of the inputs; the claim passes the validation of published claims if and only if the inputs are publishable: forward chains valid and in order, link names different, no provider with a plus sign under iptables |
| `ClaimAllocation.PlusProviderIsNotPublishable` | internal/hostnetwork/evidence.go:224-279 | Inputs that are allocated without a refusal and still cannot be published: a provider with a trailing plus sign under iptables |
| `ClaimAllocation.OpenOne` | internal/hostnetwork/owner.go:117-147 | Adds one claim disjoint from all published ones, or nothing; each refusal, by merging, by allocation or by validation, happens exactly when its stated condition on the inputs holds, and it is never a conflict among published claims |
| `ClaimAllocation.RunActions` | internal/hostnetwork/published_claims.go:100-173 | After any serialised openings and endings published claims are pairwise disjoint and no conflict was ever reported |
| `ClaimAllocation.OpeningKeepsDisjoint` | internal/hostnetwork/published_claims.go:100-140 | A claim of free resources is disjoint from the claims whose resources are taken |
| `ClaimAllocation.EndingKeepsDisjoint` | internal/hostnetwork/published_claims.go:100-140 | Taking a run away keeps the others disjoint and frees nothing of theirs |
| `ResourceSearch.NormalizedStart` | internal/hostnetwork/allocation.go:475-481 | Any start, negative included, becomes the Euclidean remainder although the source's division truncates |
| `ResourceSearch.EveryValueIsACandidate` | internal/hostnetwork/allocation.go:442-473 | The circular order visits every value of the range |
| `ResourceSearch.Search` | internal/hostnetwork/allocation.go:442-473 | First free value in circular order; fails only when none is free |
| `ResourceSearch.NextInRange` | internal/hostnetwork/allocation.go:442-473 | First unused number of an inclusive range; fails exactly when all are used |
| `ResourceSearch.SubnetsOverlap` | internal/hostnetwork/allocation.go:426-440 | Two /30 of the range overlap exactly when they are the same |
| `ResourceSearch.NoSharedAddress` | internal/hostnetwork/allocation.go:426-433 | Prefixes that do not overlap share no address |
| `ResourceSearch.SubnetAddresses` | internal/hostnetwork/allocation.go:414-440 | A /30 holds exactly its four addresses |
| `ResourceSearch.OutboundPreemption` | internal/hostnetwork/allocation.go:306-324 | A packet leaving an accepted transfer meets an earlier matching rule if and only if that rule is inverted with a destination that does not hold the packet's |
| `ResourceSearch.OutboundCheckIsExact` | internal/hostnetwork/allocation.go:306-324 | An earlier rule takes some packet of the transfer if and only if the check reports it or it is inverted with a destination smaller than the whole address space |
| `ResourceSearch.InvertedDestinationPreempts` | internal/hostnetwork/allocation.go:306-324 | A concrete earlier inverted rule with a destination passes the check and matches the packet |
| `ResourceSearch.ReturnIsNotPreempted` | internal/hostnetwork/allocation.go:273-304 | A returning packet from a remote address meets no earlier matching rule |
| `ResourceSearch.NextTemporarySubnet` | internal/hostnetwork/allocation.go:242-262 | The first acceptable /30 in circular order; none exactly when no index is acceptable |
| `IptablesPlane.ObserveTable` | internal/hostnetwork/iptables.go:156-190 | Succeeds if and only if every line with the owner prefix is one of the program's rules, once; returns their owners |
| `IptablesPlane.ObserveProgram` | internal/hostnetwork/iptables.go:130-154 | The same over both tables, partial presence allowed |
| `IptablesPlane.BuildInstallMutations` | internal/hostnetwork/iptables.go:99-118 | Insertions of the filter rules, then of the nat rules, last rule first |
| `IptablesPlane.RulePlane.InsertExactly` | internal/hostnetwork/iptables_backend.go:160-189 | One insertion is accepted only when the readback shows exactly one rule more, and receipts never name an absent rule |
| `IptablesPlane.RulePlane.Install` | internal/hostnetwork/iptables_backend.go:154-189 | Success puts the whole program in front of the old chains; at every outcome the old chains follow some insertions; without failing commands it succeeds exactly on planes without the owner |
| `IptablesPlane.RulePlane.DeleteExactly` | internal/hostnetwork/iptables_backend.go:255-275 | One deletion takes exactly the named rule and is accepted only when one less is read back |
| `IptablesPlane.RulePlane.Remove` | internal/hostnetwork/iptables_backend.go:245-275 | Takes away exactly the present rules, with receipts the receipted ones, at any outcome some of those and nothing else; without failing commands only an unreadable plane refuses |
| `IptablesPlane.RulePlane.InsertEach` | internal/hostnetwork/iptables_backend.go:160-189 | The insertions one after the other, each confirmed before the next |
| `IptablesPlane.RulePlane.RemoveEach` | internal/hostnetwork/iptables_backend.go:255-275 | The deletions one after the other, each confirmed before the next |
| `IptablesPlane.DeleteFirstIsExact` | internal/hostnetwork/iptables.go:310-323 | Deleting by rule text takes exactly the rule of that owner |
| `IptablesPlane.ForeignLinesStay` | internal/hostnetwork/iptables.go:310-323 | Removal keeps every foreign line in its place |
| `IptablesPlane.OwnedLinesAreInTheChain` | internal/hostnetwork/iptables.go:120-190 | A table is readable if and only if its chain is and no owned line is elsewhere |
| `IptablesLayout.RunOperations` | internal/hostnetwork/iptables_backend.go:154-275 | After any completed installations and removals each chain is the installed programs, newest first and in one order in filter and nat, followed by exactly the original chain |
| `IptablesLayout.RunOne` | internal/hostnetwork/iptables_backend.go:154-275 | One completed operation moves the layout to the next |
| `IptablesLayout.InstallKeepsLayout` | internal/hostnetwork/iptables.go:87-118 | An installed program stands in front of the layout |
| `IptablesLayout.RemoveKeepsLayout` | internal/hostnetwork/iptables.go:310-323 | Removing one program leaves the others in order and the original chain untouched |
| `IptablesLayout.LeadingProgramOrder` | internal/hostnetwork/iptables.go:268-298 | The greedy matcher accepts a chain if and only if it starts with some ordering of the complete programs, and returns the only such ordering |
| `IptablesLayout.Classify` | internal/hostnetwork/iptables.go:229-261 | Each published program is whole, absent, or refused exactly when it is neither |
| `IptablesLayout.CommonOrder` | internal/hostnetwork/iptables.go:229-261 | Filter and nat show the same leading order, or no order fits |
| `IptablesLayout.ObservePublished` | internal/hostnetwork/iptables.go:229-261 | Succeeds if and only if every program is whole or absent and the whole ones lead both chains in one order |
| `IptablesLayout.LaidOutIsPublished` | internal/hostnetwork/iptables.go:229-298 | A layout that operations made is observed as published in its own order |
| `FirewallPrograms.BuildProgram` | internal/hostnetwork/iptables.go:43-83 | The rules of all transfers in order |
| `FirewallPrograms.BuildNftProgram` | internal/hostnetwork/nft.go:123-160 | The nftables rules of all transfers in order |
| `FirewallPrograms.DecimalIsInjective` | internal/hostnetwork/iptables.go:43-83 | Different transfer numbers print differently |
| `FirewallPrograms.OwnersDifferBySuffix` | internal/hostnetwork/iptables.go:43-83 | Owners are equal only for the same transfer and role |
| `FirewallPrograms.RunsAreApart` | internal/hostnetwork/iptables.go:43-83 | Owner prefixes of different runs never continue each other |
| `FirewallPrograms.ProgramIsWellFormed` | internal/hostnetwork/iptables.go:43-83 | The compiled program can be told apart and recognised again if and only if no provider interface is named like the comment option |
| `FirewallPrograms.CommentProviderHidesOwner` | internal/hostnetwork/iptables.go:192-199 | With such a provider the first rule reads back another owner |
| `FirewallPrograms.TransferMeans` | internal/hostnetwork/iptables.go:43-71 | The four forward rules of a transfer mean what is intended if and only if its provider is not named like the jump option |
| `FirewallPrograms.JumpProviderBreaksRule` | internal/hostnetwork/iptables.go:73-83 | With such a provider the first rule cannot be read at all |
| `FirewallPrograms.BuiltProgramMeans` | internal/hostnetwork/iptables.go:43-83 | The filter lines of the built program are read back, in order, as the intended rules of all transfers if and only if no provider is named like the jump option |
| `FirewallPrograms.NftProgramMeans` | internal/hostnetwork/nft.go:123-160 | The expressions of the forward chain, in order, are the intended rules of all transfers |
| `FirewallPrograms.NftTransferVerdict` | internal/hostnetwork/nft.go:123-160 | First-match verdict of one transfer's nftables rules |
| `FirewallPrograms.IptablesTransferVerdict` | internal/hostnetwork/iptables.go:43-71 | The same verdict for iptables when no name ends in a plus sign |
| `FirewallPrograms.BackEndsAgree` | internal/hostnetwork/nft.go:123-160 | For the programs the two compilers build, the rules read back from the iptables program and the chain of the nftables program give every packet the same forward verdict |
| `FirewallPrograms.StrangersPass` | internal/hostnetwork/iptables.go:43-71 | Packets that touch no claimed link match nothing |
| `FirewallPrograms.LeavingIsIsolated` | internal/hostnetwork/iptables.go:43-71 | With names apart, a packet from a transfer's link passes if and only if it goes to that transfer's provider from its subnet |
| `FirewallPrograms.ArrivingIsIsolated` | internal/hostnetwork/iptables.go:43-71 | A packet to a transfer's link from outside passes if and only if it is established return traffic from the provider to the subnet, whatever the providers are named |
| `FirewallPrograms.SharedNameBreaksIsolation` | internal/hostnetwork/iptables.go:43-71 | Every provider that is named like a link of the claim gives a packet that is decided against isolation |
| `FirewallPrograms.IsolatedExactlyWhenApart` | internal/hostnetwork/iptables.go:43-71 | Every packet leaving any link gets the verdict of its own transfer if and only if no provider is named like a link of the claim |
| `FirewallPrograms.BuiltProgramIsolates` | internal/hostnetwork/iptables.go:43-83 | The same for the lines of the program that the compiler returns |
| `LeaseDraining.Session.OpenNamespace` | internal/hostnetwork/session_unix.go:53-69 | Lends exactly when closing has not begun and the transfer is known |
| `LeaseDraining.Session.ReleaseLease` | internal/hostnetwork/session_unix.go:83-94 | Counts one lease less and closes the channel with the last one |
| `LeaseDraining.Session.BeginClose` | internal/hostnetwork/session_unix.go:117-133 | Closing begins once |
| `LeaseDraining.Session.FinishClose` | internal/hostnetwork/session_unix.go:135-146 | The session ends and its root is closed once |
| `LeaseDraining.EveryReachableStateFits` | internal/hostnetwork/session_unix.go:53-146 | The count equals the leases out, and the channel is closed exactly when closing has begun and none is out, under every interleaving |
| `LeaseDraining.NothingBorrowedWhileRemoving` | internal/hostnetwork/session_unix.go:98-115 | During removal no borrowed descriptor is open and only one Close call removes |
| `LeaseDraining.RemovedOnce` | internal/hostnetwork/session_unix.go:98-146 | Removal succeeds at most once, channel, namespace files and root close at most once, and a Close that succeeds means it happened |
| `LeaseDraining.WaitingEndsWithTheLastLease` | internal/hostnetwork/session_unix.go:117-133 | A waiting Close can go on if and only if every lease is back |
| `LeaseDraining.NoLeaseAfterClosing` | internal/hostnetwork/session_unix.go:53-69 | Once closing has begun no lease is granted |
| `EgressResolution.MatchIsSound` | internal/networkcatalog/resolve.go:137-194 | A certain match or mismatch holds of every packet from the source, whatever its unknown attributes, inverted rules included |
| `EgressResolution.MatchIsExact` | internal/networkcatalog/resolve.go:137-174 | "May match" always has a packet that matches and one that does not |
| `EgressResolution.DefaultRoutes` | internal/networkcatalog/resolve.go:288-296 | Exactly the default routes of the table, in metric order |
| `EgressResolution.EqualMetricRoutes` | internal/networkcatalog/resolve.go:298-304 | The leading routes of the first metric, all of them |
| `EgressResolution.BestAreFirst` | internal/networkcatalog/resolve.go:274-304 | These are exactly the routes the kernel may choose |
| `EgressResolution.EquivalentRoutes` | internal/networkcatalog/resolve.go:306-315 | Holds if and only if all routes do the same |
| `EgressResolution.LookupTable` | internal/networkcatalog/resolve.go:274-286 | Falls through, is ambiguous, or applies a route that all best default routes equal |
| `EgressResolution.ApplyRule` | internal/networkcatalog/resolve.go:215-238 | What a matching rule does in terms of the facts alone |
| `EgressResolution.RuleStepIsUnique` | internal/networkcatalog/resolve.go:215-238 | A matching rule has one answer, and goes on exactly when the kernel goes past it |
| `EgressResolution.EqualPriorityEnd` | internal/networkcatalog/resolve.go:129-135 | The rules of one priority, all of them |
| `EgressResolution.EquivalentRules` | internal/networkcatalog/resolve.go:205-213 | Holds if and only if all rules are equal |
| `EgressResolution.ExamineGroup` | internal/networkcatalog/resolve.go:98-112 | The applicable rules of one priority, or a rule that cannot be decided |
| `EgressResolution.ResolveGroup` | internal/networkcatalog/resolve.go:97-123 | Finishes with the answer of the deciding rule, or all rules so far certainly let local output pass |
| `EgressResolution.ResolveRules` | internal/networkcatalog/resolve.go:95-127 | The answer is the deciding rule's whenever there is one; a definite answer never comes without one |
| `EgressResolution.FindLocalAddress` | internal/networkcatalog/resolve.go:48-72 | The one local address fact, not local exactly when there is none, conflicting exactly when two facts disagree |
| `EgressResolution.ResolveOne` | internal/networkcatalog/resolve.go:29-46 | A runnable answer is where every packet goes in every kernel order, over a usable link and gateway |
| `EgressResolution.DecidedWalk` | internal/networkcatalog/resolve.go:95-127 | With a deciding rule the kernel's first-match walk ends in exactly one way for every packet, every order of equal priorities and every order of equal metrics |
| `EgressResolution.ResolvedAnswerIsSound` | internal/networkcatalog/resolve.go:95-127 | Every definite answer is what every packet without a more specific route meets |
| `EgressResolution.AnswerIgnoresOrder` | internal/networkcatalog/snapshot.go:36-155 | Links, addresses, rules and routes in any order of capture give the same runnable answer |
| `SourceAllocation.NewTransferWeights` | internal/sourcefiles/allocation.go:46-61 | Returns a valid arrangement of the weights, or an error only when no arrangement is valid |
| `SourceAllocation.RejectionIsJustified` | internal/sourcefiles/allocation.go:46-61 | A defect of one arrangement is a defect of all |
| `SourceAllocation.CompareLoad` | internal/sourcefiles/allocation.go:142-152 | The two-word products order loads exactly by bytes per weight |
| `SourceAllocation.MinimumLoad` | internal/sourcefiles/allocation.go:132-140 | The first transfer among those with least load per weight |
| `SourceAllocation.AllocateFiles` | internal/sourcefiles/allocation.go:100-122 | Every file in turn goes to the least loaded transfer; stops only when the next file overflows that transfer |
| `SourceAllocation.OrderHoldsEveryFileOnce` | internal/sourcefiles/allocation.go:100-111 | The processing order is a largest-first arrangement of all files |
| `SourceAllocation.AllocateEmptyDirectories` | internal/sourcefiles/allocation.go:124-130 | Round robin over the transfers |
| `SourceAllocation.ValidateTransferAllocation` | internal/sourcefiles/allocation.go:154-187 | Accepts exactly complete assignments whose totals are the sizes of the owned files |
| `SourceAllocation.AllocateTransferItems` | internal/sourcefiles/allocation.go:64-98 | The greedy assignment, always valid; fails only without items, without weights, or when the source exceeds 64 bits |
| `SourceAllocation.GreedyPicksAreUnique` | internal/sourcefiles/allocation.go:110-140 | The greedy rule leaves nothing open |
| `SourceAllocation.LoadsAreConserved` | internal/sourcefiles/allocation.go:110-121 | Loads add up to the sizes whatever the assignment |
| `SourceAllocation.GreedyIsBalanced` | internal/sourcefiles/allocation.go:110-140 | Without its last file a transfer holds at most its weighted share of what the other files add up to |
| `SourceAllocation.LastIsSmallest` | internal/sourcefiles/allocation.go:100-122 | The last file of a transfer is its smallest |
| `SourceAllocation.EqualWeightsNearOptimal` | internal/sourcefiles/allocation.go:100-140 | With equal weights the largest load is at most one and a half times that of any other assignment |
| `SourceAllocation.AllocationConservesBytes` | internal/sourcefiles/allocation.go:64-98 | Totals add up to the size of the source |
| `SourceAllocation.AllocationIsBalanced` | internal/sourcefiles/allocation.go:64-140 | The balance bound for the assignment returned |
| `SourceAllocation.AllocationIsUnique` | internal/sourcefiles/allocation.go:64-122 | Files and weights alone decide who owns what |
| `SourceAllocation.AllocationIsNearOptimal` | internal/sourcefiles/allocation.go:64-140 | The bound against every other assignment of the same files |
| `SourceAllocation.OwnersAreSelected` | internal/sourcefiles/allocation.go:64-98 | Every file and every empty directory is owned by a selected transfer, numbered 1 to 35 |
| `SourceFlattening.FlattenTree` | internal/sourcefiles/tree.go:300-354 | For every proper tree the lists hold each file and each empty directory exactly once, in path order; none for a root that is not the empty path |
| `SourceFlattening.ListsAreUnique` | internal/sourcefiles/tree.go:341-342 | There is one such pair of lists, so the unstable sort is harmless |
| `SourceFlattening.WalkMethod` | internal/sourcefiles/tree.go:304-340 | The recursive loop equals the walk function |
| `SourceFlattening.SiblingsApart` | internal/sourcefiles/tree.go:117-136 | Siblings of different names have no path below both |
| `SourceFlattening.WalkIsComplete` | internal/sourcefiles/tree.go:300-354 | In a proper tree no path is met twice and the lists hold everything in walk order |
| `SourceFlattening.ListsAreLeaves` | internal/sourcefiles/tree.go:300-354 | The lists name exactly the files and empty directories |
| `SourceFlattening.ListedOnce` | internal/sourcefiles/tree.go:300-354 | Each of them once |
| `SourceFlattening.OwnerOfEntry` | internal/sourcefiles/allocation.go:206-224 | Looking a path up gives the owner of its list entry |
| `SourceFlattening.ViewsFollowAllocation` | internal/fileviews/view_tree.go:27-90 | From the lists and their owners to the views: a transfer's view shows exactly the leaves that are its own |
| `SourceFlattening.AllocationIsShown` | internal/sourcefiles/allocation.go:64-98 | Whatever the allocator returns, the views build and show each leaf to the one selected transfer that owns it and to no other |
| `SourceFlattening.PrepareViews` | internal/fileviews/view_tree.go:27-40 | Flattening, allocation and views together: for every proper tree and accepted weights each leaf is shown to its owner alone, unless there is nothing to transfer, no weight, or more than 64 bits of bytes |
| `FileViews.BuildViewDirectory` | internal/fileviews/view_tree.go:42-64 | The loop over children equals the view function |
| `FileViews.BuildViewEntry` | internal/fileviews/view_tree.go:66-90 | One entry's view, none when a leaf has no owner |
| `FileViews.BuildNeedsOwners` | internal/fileviews/view_tree.go:42-90 | Building fails if and only if some leaf has no owner |
| `FileViews.VisibleMeansOwned` | internal/fileviews/view_tree.go:111-120 | The mask bit of a transfer is set if and only if the transfer owns a leaf below |
| `FileViews.ChildrenShowOwned` | internal/fileviews/view_tree.go:101-109 | Walking visible children reaches exactly the transfer's leaves |
| `FileViews.EntryShowsOwned` | internal/fileviews/view_tree.go:66-120 | The same for one entry |
| `FileViews.ViewsPartition` | internal/fileviews/view_tree.go:27-120 | Views of different transfers share no leaf, each shows its own, together they show all |
| `FileViews.VisibleChildren` | internal/fileviews/view_tree.go:101-109 | The listing is the visible children in order |
| `FileViews.Child` | internal/fileviews/view_tree.go:92-99 | Lookup finds exactly the listed child of the name |
| `FileViews.ViewNamesDiffer` | internal/fileviews/view_tree.go:42-64 | Children of one directory have different names in the view |
| `FileViews.EntryNameOfJoin` | internal/fileviews/view_tree.go:122-132 | The entry name is what was joined to the parent |
| `RunDirectory.StepKeepsInvariant` | internal/rundirectory/claim_unix.go:29-99 | Every step of every process keeps locks, names and phases consistent, a directory check and the unlink or rename after it being separate steps |
| `RunDirectory.EveryReachableStateFits` | internal/rundirectory/owner.go:69-161 | The invariant over all interleavings of creations, leases, recoveries and completions, each able to die anywhere |
| `RunDirectory.CallbackIsExclusive` | internal/rundirectory/owner.go:144-161 | While a recovery callback runs nobody holds a live or retained lease on its root, and nobody else has its locks |
| `RunDirectory.OneCallbackPerRun` | internal/rundirectory/owner.go:144-161 | A run has at most one callback at a time |
| `RunDirectory.RemovalSparesCreations` | internal/rundirectory/cleanup_unix.go:18-79 | Between the check of a temporary entry and its removal nothing turns it into a live run: removal never hits a creation in progress, a live run or network evidence |
| `RunDirectory.IsolationIsSafe` | internal/rundirectory/cleanup_unix.go:81-157 | When a root is renamed for final removal it still holds exactly its two lock files, as when it was checked, its renamer holds both locks, and nobody lives in it |
| `RunDirectory.EvidenceStaysPublished` | internal/rundirectory/cleanup_unix.go:159-182 | Network evidence is only ever inside a published root with both lock files |
| `RunDirectory.RetainedIsKept` | internal/rundirectory/lease_unix.go:88-121 | A lease given to process containment is released only by its completion or by death |
| `Handshake.EveryReachableStateFits` | internal/runsupervisor/launch.go:68-112 | The invariant over all interleavings of parent and child with failing writes, cancellations and death |
| `Handshake.WorkNeedsCommit` | internal/runsupervisor/session.go:39-119 | Work starts only after commit was written, commit only after accepted was read, which was sent |
| `Handshake.FailedLaunchNeverWorks` | internal/runsupervisor/launch.go:182-252 | A launch that failed before writing commit never lets work start, whatever follows |
| `Handshake.SourceIsReleasedOnce` | internal/runsupervisor/session.go:75-91 | Each side closes its source descriptor once or hands it to the work once |
| `Handshake.FinalIsLast` | internal/runsupervisor/event_sender.go:79-99 | At most one final, as the last event, although output may come at any time after the work was started |
| `Handshake.NothingAfterFinal` | internal/runsupervisor/event_sender.go:79-99 | Once a final was sent no later step sends anything, late output included |
| `Handshake.SessionCancellation.Record` | internal/runsupervisor/cancellation.go:23-37 | Nothing recorded after freezing counts |
| `Handshake.SessionCancellation.Freeze` | internal/runsupervisor/cancellation.go:39-44 | The decision over the whole history: last internal failure, else first other than the lifeline, else the lifeline |
| `Handshake.OneMoreRecord` | internal/runsupervisor/cancellation.go:23-37 | How one record changes the decision |
| `Wire.BigEndianRoundTrip` | internal/runsupervisor/frame.go:53-81 | Numbers that fit their width are read back |
| `Wire.FrameRoundTrip` | internal/runsupervisor/frame.go:53-81 | A frame is read back and nothing after it is consumed |
| `Wire.ReadOnlyFrames` | internal/runsupervisor/frame.go:65-81 | Only what is written as a frame is read as one |
| `Wire.StreamRoundTrip` | internal/runsupervisor/frame.go:42-81 | A stream of frames is read back frame by frame |
| `Wire.OutputRoundTrip` | internal/runsupervisor/events.go:115-136 | Encoded output decodes to itself and fits one event frame |
| `Wire.StatusRoundTrip` | internal/runsupervisor/events.go:138-172 | Every valid status decodes to itself, negative exit codes included |
| `Wire.EventPipe.SendLocked` | internal/runsupervisor/event_sender.go:79-99 | One atomic frame or none; nothing after a final |
| `Wire.EventPipe.Send` | internal/runsupervisor/event_sender.go:38-46 | Refuses kinds and sizes the pipe does not carry |
| `Wire.EventPipe.SendOutput` | internal/runsupervisor/event_sender.go:48-70 | The frames carry exactly the contents in order, a prefix of them when a write fails |
| `FinalEvents.ToValidIsValid` | internal/runsupervisor/final.go:263-268 | Repaired text is valid, and valid text is unchanged |
| `FinalEvents.CutAt` | internal/runsupervisor/final.go:270-279 | The last place at or before the limit that leaves valid text |
| `FinalEvents.TruncateDiagnostic` | internal/runsupervisor/final.go:270-279 | The loop finds that place |
| `FinalEvents.TruncateKeepsMost` | internal/runsupervisor/final.go:270-279 | Truncation loses less than one character of room |
| `FinalEvents.NormalizedIsShortAndValid` | internal/runsupervisor/final.go:263-268 | At most 1024 valid bytes, short valid text unchanged |
| `FinalEvents.JoinIsShortAndValid` | internal/runsupervisor/final.go:240-261 | A joined diagnostic is at most 1024 valid bytes for any two inputs |
| `FinalEvents.JoinKeepsBoth` | internal/runsupervisor/final.go:240-261 | Each part is kept whole or to more than 507 bytes |
| `FinalEvents.OrderedIsValid` | internal/runsupervisor/final.go:152-192 | Ordering keeps a final valid and puts each transfer at its place |
| `FinalEvents.PayloadRoundTrip` | internal/runsupervisor/final.go:51-150 | Every valid ordered final survives its payload |
| `FinalEvents.FinalRoundTrip` | internal/runsupervisor/final.go:51-150 | Decoding an encoded final gives the normalised ordered final |
| `FinalEvents.FinalFitsOneFrame` | internal/runsupervisor/final.go:51-94 | Every encodable final fits one pipe-atomic frame |
| `FinalEvents.FallbackIsEncodable` | internal/runsupervisor/final.go:207-238 | The fallback of any final whatsoever is encodable |
| `FinalEvents.FallbackKeepsResults` | internal/runsupervisor/final.go:207-238 | Of every valid result list the fallback keeps all results, in order |
| `FinalEvents.FirstValidResults` | internal/runsupervisor/final.go:214-226 | The first valid result of each transfer |
| `FinalEvents.LeadingResults` | internal/runsupervisor/final.go:226-238 | The results from transfer 1 on without a gap |
| `FinalEvents.FinalEncodingFallback` | internal/runsupervisor/final.go:207-238 | The loops build that fallback |
| `Sanitizer.TerminalSanitizer.Accept` | internal/plainoutput/sanitizer.go:42-50 | One byte is one step of the machine, and what it shows fits the 8-byte chunk |
| `Sanitizer.TerminalSanitizer.Finish` | internal/plainoutput/sanitizer.go:52-60 | An unfinished character becomes one replacement character |
| `Sanitizer.SanitizedChunk.Append` | internal/plainoutput/sanitizer.go:23-29 | Copies what fits into the fixed chunk |
| `Sanitizer.TerminalSanitizer.ConsumeText` | internal/plainoutput/sanitizer.go:62-110 | Text bytes follow the machine's text step |
| `Sanitizer.TerminalSanitizer.ConsumeC1` | internal/plainoutput/sanitizer.go:112-125 | C1 characters open the sequences they stand for |
| `Sanitizer.TerminalSanitizer.ConsumeSequence` | internal/plainoutput/sanitizer.go:127-144 | Bytes inside a sequence follow the machine and show nothing |
| `Sanitizer.TerminalSanitizer.ConsumeEscape` | internal/plainoutput/sanitizer.go:146-169 | The byte after an escape |
| `Sanitizer.TerminalSanitizer.ConsumeEscapeIntermediate` | internal/plainoutput/sanitizer.go:171-183 | Intermediate and final bytes |
| `Sanitizer.TerminalSanitizer.ConsumeCSI` | internal/plainoutput/sanitizer.go:185-197 | Control sequences to their final byte |
| `Sanitizer.TerminalSanitizer.ConsumeRawC1` | internal/plainoutput/sanitizer.go:199-203 | C1 bytes inside sequences |
| `Sanitizer.TerminalSanitizer.ConsumeControlString` | internal/plainoutput/sanitizer.go:205-234 | Strings to their terminator, characters inside them kept apart from terminators |
| `Sanitizer.TerminalSanitizer.ConsumeStringEscape` | internal/plainoutput/sanitizer.go:236-248 | An escape inside a string |
| `Sanitizer.SanitizedIsClean` | internal/plainoutput/sanitizer.go:42-276 | Whatever the bytes, the output is valid UTF-8 without ESC and C1 characters |
| `Sanitizer.CleanHasNoControl` | internal/plainoutput/sanitizer.go:62-125 | Clean text has no ESC byte and no two-byte C1 character |
| `Sanitizer.RunInPieces` | internal/plainoutput/sanitizer.go:42-60 | Any chunking gives the same output |
| `Sanitizer.UnchangedExactlyWhenClean` | internal/plainoutput/sanitizer.go:42-276 | A stream is unchanged if and only if it is clean already |
| `Sanitizer.SanitizeIsIdempotent` | internal/plainoutput/sanitizer.go:42-276 | Sanitizing twice changes nothing |
| `Sanitizer.ControlFunctionIsConsumed` | internal/plainoutput/sanitizer.go:112-248 | Control sequences and strings of sections 5.4 and 5.6 of ECMA-48 are consumed in 7-bit, 8-bit and UTF-8 spelling |
| `Sanitizer.EscapeSequenceIsConsumed` | internal/plainoutput/sanitizer.go:146-183 | So are escape sequences with intermediate bytes |
| `Sanitizer.ExactlyTheTextIsVisible` | internal/plainoutput/sanitizer.go:42-276 | Of text mixed with control functions exactly the text is shown |
| `PlainOutput.StreamRendersItsLines` | internal/plainoutput/output.go:163-305 | Without carriage returns the payloads are exactly the logical lines of the visible text, cut only where a line is too long, with no blank line after a split segment |
| `PlainOutput.WriteStream` | internal/plainoutput/output.go:153-305 | The same for any bytes accepted and flushed; no payload is longer than 64 KiB, carriage returns or not |
| `PlainOutput.OutputStream.Write` | internal/plainoutput/output.go:307-322 | One payload or none |
| `PlainOutput.OutputStream.AcceptCharacter` | internal/plainoutput/output.go:163-198 | One character moves the line as the line model says |
| `PlainOutput.OutputStream.AcceptSanitized` | internal/plainoutput/output.go:163-182 | The characters of a chunk in order |
| `PlainOutput.OutputStream.AcceptByte` | internal/plainoutput/output.go:153-161 | One raw byte through the sanitizer |
| `PlainOutput.OutputStream.AcceptCarriageReturnWithoutLine` | internal/plainoutput/output.go:246-262 | A carriage return on an empty line |
| `PlainOutput.OutputStream.Accept` | internal/plainoutput/output.go:153-161 | Bytes in any state extend the output by bounded payloads and put the visible characters in order |
| `PlainOutput.OutputStream.Flush` | internal/plainoutput/output.go:284-297 | The unfinished line is written, an empty one not |
| `PlainOutput.OutputStream.AppendVisibleBytes` | internal/plainoutput/output.go:204-215 | A character is never torn and never makes a line too long |
| `PlainOutput.OutputStream.WriteBufferedSegment` | internal/plainoutput/output.go:217-226 | A segment is written whole and the line goes on |
| `PlainOutput.OutputStream.FinishLine` | internal/plainoutput/output.go:264-282 | A line ends with its text, or silently after a split segment |
| `PlainOutput.OutputStream.ProgressUpdate` | internal/plainoutput/output.go:228-244 | A carriage return shows at most one payload and never two within a second on one line |
| `TerminalInput.NothingIsLost` | internal/terminal/input.go:35-127 | Raw bytes of all events and the pending bytes are the input, and what is pending is an incomplete escape |
| `TerminalInput.ChunksDoNotMatter` | internal/terminal/input.go:35-113 | Any split of the input gives the same events up to joining byte events, and the same pending bytes |
| `TerminalInput.CsiSequenceEnd` | internal/terminal/input.go:120-127 | The first final byte of a control sequence |
| `TerminalInput.DecodeOne` | internal/terminal/input.go:75-113 | The first event is a non-empty start of the input |
| `TerminalInput.Decoder.Decode` | internal/terminal/input.go:35-56 | Events of pending and new bytes; the deadline starts anew exactly when an event was completed |
| `TerminalInput.Decoder.Expire` | internal/terminal/input.go:58-66 | At the deadline the pending bytes are passed on, never before |
| `TerminalInput.DecodeChunks` | internal/terminal/input.go:35-56 | Feeding chunks one by one equals decoding the whole |
| `Weights.NormalizeNetworkWeights` | internal/cli/validate.go:171-202 | All zero when some text is invalid; else each entry of the least vector, zero exactly when it does not fit in 64 bits |
| `Weights.ParseNetworkSelections` | internal/cli/validate.go:112-141 | From the option texts to the weights: all zero when some text is invalid, else each entry of the least vector that fits |
| `Weights.AnyInvalid` | internal/cli/validate.go:172-177 | Finds an invalid text if there is one |
| `Weights.LargestScale` | internal/cli/validate.go:178-183 | The largest number of decimals |
| `Weights.ScaleAll` | internal/cli/validate.go:184-194 | All numbers in one unit, and their common divisor |
| `Weights.DivideAll` | internal/cli/validate.go:195-200 | Each quotient, zero when it does not fit in 64 bits |
| `Weights.NormalizedIsLeast` | internal/cli/validate.go:171-202 | The ratios of the decimal numbers are exact, and every other positive vector with them is a whole multiple |
| `Weights.NormalizedIsPrimitive` | internal/cli/validate.go:171-202 | No number above one divides all weights |
| `Weights.CommonFactorIsIgnored` | internal/cli/validate.go:171-202 | Numbers that differ by one factor give the same weights |
| `Weights.PointZeroIsIgnored` | internal/cli/validate.go:147-157 | A point and a zero after whole digits change neither validity nor value |
| `Weights.TrailingZeroIsIgnored` | internal/cli/validate.go:147-157 | A zero after the last decimal changes neither validity nor value |
| `Weights.TrailingZeroChangesNoWeight` | internal/cli/validate.go:112-141 | A zero after the last decimal of one option text changes no weight of any transfer |
| `Weights.EveryAnswerIsAMultiple` | internal/cli/validate.go:178-197 | A vector in the ratios of the scaled numbers is a multiple of their quotients by the divisor |
| `Weights.SameRatiosSameLeast` | internal/cli/validate.go:178-197 | Vectors in the same ratios have one least vector |
| `Weights.CommonIsCombination` | internal/cli/validate.go:184-192 | The accumulated divisor divides every value and is a combination of them, so it is the greatest |
| `Sorting.SortedArrangementIsUnique` | internal/sourcefiles/tree.go:341-342 | Two arrangements sorted by a total order are the same |

## Left out

- Netlink, nftables and iptables processes, FUSE, pty, mount, namespace and lock system calls: abstract operations with stated effects.
- JSON, SHA-256, HMAC, base64 and random tokens: run identities, owner tokens and link names are parameters; different runs are assumed to have different identities of one length, as their encoding gives.
- Descriptor identity, ownership and permission checks: assumed to pass.
- Time: timeouts, polling intervals and signal delivery are free choices; only the progress clock and the escape deadline are numbers.
- The DNS forwarder, throughput measurement, presenters, help texts and option parsing other than weights: plumbing and user interface.
- Child process input and output, reaping, raw log files, mount topology, symlink walking and source scanning: the model starts from a captured tree.
- Variants for other systems than Linux.
- HostTransaction.Host.InstallFirewall: the firewall is one ordered list of rules owned by the run, as in the iptables back end; the nftables transaction, which installs or removes a table at once, is a special case without partial states.
- HostTransaction.Host.RemoveActivatedRouting: rules of other programs that refer to the return table are not modelled, so a route is never refused because its table is in use elsewhere.
- HostHistory.RunHistory: other programs act between the operations of one locked transaction only as the kernel dropping a dead run's objects and as changes between transactions, not in the middle of one; the host lock excludes other runs, and the README of the program asks controllers to leave its links alone.
- HostTransaction.Host.Open: allocation and the reading of other claims are in ClaimAllocation, the files of the evidence in EvidenceStore; here publishing and loading evidence are single operations.
- EvidenceStore.RunStore: a power failure is assumed to keep a prefix of the operations made since the last sync; a filesystem that reorders them is not modelled.
- ClaimAllocation.AllocateNetwork: derived link names are a parameter, and so are the starts taken from the owner token.
- FirewallPrograms.BackEndsAgree: only the verdicts of the program's own forward chain are compared; the meaning of the source NAT rules, the rules added to foreign nftables forward chains and the choice of nftables hooks are not modelled, and whether a printed subnet covers an address is a parameter.
- IptablesPlane.RulePlane.Install: rules are argument lists; quoting and parsing of the saved text are not modelled.
- EgressResolution.ResolveOne: the reason is a constructor, not a text, and its diagnostics are left out; the lookups of single facts by name and the listing of default candidates are not modelled.
- SourceAllocation.EqualWeightsNearOptimal: no bound against other assignments is claimed for unequal weights, where the source promises none.
- FileViews.ViewsPartition: the 64-bit mask is the set of its bit positions; file contents and attributes are left out.
- RunDirectory.EveryReachableStateFits: creation tokens do not collide; syncs are steps that may fail, and what a power failure does to the authority directory is not modelled.
- RunDirectory.CallbackIsExclusive: that recovery makes progress is not claimed.
- Handshake.EveryReachableStateFits: frames on a pipe are whole or absent, which frame sizes guarantee; the exit status and the text of diagnostics of a failed launch are not modelled.
- Handshake.SessionCancellation.Record: the diagnostic is bounded before it is recorded, which is not part of this model.
- LeaseDraining.NothingBorrowedWhileRemoving: that borrowers' processes have ended before Close is the caller's duty and not modelled.
- Sanitizer.ControlFunctionIsConsumed: no claim about which malformed sequences are consumed, beyond clean output for every stream.
- PlainOutput.WriteStream: with carriage returns only the size and number of progress payloads are stated; line prefixes, colours and the refusal of all writes after one failed are left out.
- TerminalInput.ChunksDoNotMatter: without timeouts; the coordinates and buttons inside a mouse sequence are not decoded.
- Weights.NormalizeNetworkWeights: the library's greatest common divisor is the algorithm of Euclid.
