# WireGuard Portal: a verified model of the Go backend

WireGuard Portal runs on several nodes that share one database. Each node drives its own kernel
device, collects peer statistics and announces changes to the others. This project models that
protocol and the algorithms under it, and proves what they keep.

| file | what it models |
|---|---|
| `Bits.dfy`, `Cidr.dfy`, `Allocation.dfy` | address arithmetic down to the byte loop, and the searches for free peer addresses and interface networks |
| `Domain.dfy` | peers, statuses, the projection of a row onto a device peer, and the test that decides whether an update is announced |
| `PeerStore.dfy`, `SqlRepo.dfy` | the peer, address and status tables: each transaction as a function, and the repository methods with their retries and chunks |
| `Cluster.dfy`, `Collector.dfy`, `Roaming.dfy`, `Expiry.dfy`, `Renewal.dfy` | any number of statistics collectors over the shared tables, the collector object, roaming peers, expiry renewal over time, and the two together |
| `Lease.dfy`, `LeaseTable.dfy` | the lease table statement by statement, and the three lock operations |
| `Device.dfy`, `Reconcilers.dfy` | the kernel device, the local controller and the three full reconcilers |
| `Convergence.dfy`, `PeerManager.dfy` | event-driven synchronisation of remote nodes, and the operations that feed it |
| `Debounce.dfy`, `Backoff.dfy` | the debouncer and the per-URL retry state of the fanout |
| `Routes.dfy` | the route-rule synchroniser of one address family |
| `Encryption.dfy` | the encrypted column codec |

Transactions and single SQL statements are atomic steps that commit or leave no trace. A step relation
quantifies over every interleaving. Objects that the program changes in place are classes; each method
is proved against a function of the old state, and the laws are lemmas about that function. A ghost
`run` result names the protocol steps a method took. Where a promised property is false, the exact
condition under which it holds is proved (names ending in `Exact` or `Exactly`, or an "if and only if"
in the table), next to a concrete run or value that violates it.

What the proofs found about the code:

- A peer that roams to another node and back within two minutes ends up listed as offline, and stays so
  while it is active: its first node still caches it and only refreshes the row, and only a claim
  connects one (`Roaming.RoamBackGoesOffline`, `Roaming.StaysOffline`). A claim whose transaction fails
  for good, or an empty node name, has the same effect (`Roaming.DroppedClaimStaysOffline`). No event
  renews the expiry of such a peer, so the cleanup removes it (`Renewal.OfflineNeverRenewed`).
- A removal event that arrives after its key was created again leaves a connected row without a node
  that watches it (`Cluster.ReusedKeyLeavesGhost`); so does a failed disconnect transaction, because
  the peer leaves the cache anyway (`Cluster.FailedDisconnectExact`).
- `UpdatePeer` decides whether to announce by comparing with the row it loaded, not with the one it
  overwrites; a concurrent update can be undone without any other node being told
  (`Convergence.OverwrittenUpdateDiverges`). When the row was deleted in between, the update creates
  it anew and no other node ever gets the peer back (`Convergence.DeletedUpdateDiverges`).
- A cleanup that fails after some chunks committed announces none of the deleted peers
  (`SqlRepository.SqlRepo.FindAndDeleteExpiredPeersWithLock`, `Convergence.UnannouncedExpiryExact`).
- Creation accepts a row whose public key is not its identifier. The other nodes then get a bare peer
  without networks (`Convergence.OtherKeyStaysBare`). The next update of such a row, be it a mere TTL
  renewal, deletes the old identifier and saves the new one without announcing it
  (`PeerManager.Manager.UpdatePeer`, `Convergence.DeletedUpdateDiverges`); with a public key that is
  no key the peer is deleted and the save then fails.
- Any two callers of a lease with one node name, which the sync endpoint takes from a request header,
  can come to hold it together (`Lease.ExclusionExactly`). So can any two callers whatever their names,
  when a row is inserted between reading and deleting an expired one (`Lease.StatementsExactly`).
- The full sync compares a peer's allowed-IPs text, not its projection, and so can leave other
  networks on the device than the other two reconcilers (`Reconcilers.StaleNetworksSurvive`).
- Expiry renewal must hold TTL for the staleness of the event's copy plus the gap between events, not
  the gap alone, also when a backlog makes the copies older than the gap (`Expiry.SafeExactly`).
- A late timer reset of the debouncer orphans an armed timer, so two can be armed
  (`Debounce.LateResetArmsTwo`); no wake-up is lost by it.
- The comments in fanout.go announce delays of 1 s, 2 s and 4 s. The code waits 2 s and 4 s and then
  gives a URL up for good (`Backoff.ContactedExactly`, `Backoff.SilentForever`).
- The "exhausted" errors of the two address searches cannot be reached: the program panics on the
  first address past the end of the family, and a full subnet makes the peer search leave it silently
  (`Allocation.StaysInSubnet`).
- `DeleteInterface` leaves status and address rows of the interface's peers behind
  (`PeerStore.DeleteInterfaceOrphans`).

## Model

| member | source | states |
|---|---|---|
| Cidrs.BroadcastAddr | internal/domain/ip.go:100-133 | For every prefix of either family the byte-array loop gives network + 2^h - 1 with h host bits and the same length; a length past the family's width gives no address |
| Cidrs.SetHostBits | internal/domain/ip.go:113-116 | The loop turns the tail of the sixteen-byte form into ones and leaves every earlier bit as it was |
| Cidrs.OneBitSet | internal/domain/ip.go:113-116 | Or-ing a shifted bit into one byte changes exactly that bit of the whole bit string |
| Cidrs.As16Mapped | internal/domain/ip.go:106-111 | The sixteen-byte form of an IPv4 address has ten zero bytes, two of ones and then its own four |
| Cidrs.NetworkValue | internal/domain/ip.go:135-142 | The network address is the number rounded down to a multiple of 2^h |
| Cidrs.BroadcastBits | internal/domain/ip.go:100-133 | Setting all host bits is adding 2^h - 1 to the network |
| Cidrs.ContainsIsRange | internal/domain/ip.go:196-201 | A prefix contains an address if and only if the families agree and the address lies between network and broadcast |
| Cidrs.NextSubnetValue | internal/domain/ip.go:172-180 | The next subnet is network + 2^h with the same length and no host bits; it is missing if and only if the block ends the family |
| Allocation.GetUsedIpsPerSubnet | internal/adapters/database.go:991-1045 | Every interface and peer address is filed, in order, under the first subnet that contains it |
| Allocation.FiledUnderMembers | internal/adapters/database.go:1023-1044 | An address is in a subnet's list if and only if it was read and that subnet is its first container |
| Allocation.FreshPeerIp | internal/app/wireguard/wireguard_peers.go:825-850 | The search stops, at the least unused address above the network's own, as a single address (/32 or /128), or because every higher address of the family is used |
| Allocation.GetFreshPeerIpConfig | internal/app/wireguard/wireguard_peers.go:813-857 | One such address per network in order; none at all only if some network's family is used up above it |
| Allocation.StaysInSubnet | internal/app/wireguard/wireguard_peers.go:828-850 | The found address lies in its subnet if and only if some address up to the broadcast address was unused |
| Allocation.SuggestionsAreFresh | internal/app/wireguard/wireguard_peers.go:813-857 | For disjoint networks, suggestions inside their subnets collide with no peer or interface address and differ from each other |
| Allocation.GetFreshInterfaceIpConfig | internal/app/wireguard/wireguard_interfaces.go:758-816 | The joint loop ends with the result of two independent searches; IPv6 stays at its first network when disabled |
| Allocation.StartNetValue | internal/domain/ip.go:144-152 | The search for a network starts with that of the configured address, or, when that is a single address, with the next one |
| Allocation.SearchDetermined | internal/app/wireguard/wireguard_interfaces.go:783-808 | Such a search has a single result, so success and exhaustion exclude each other |
| Allocation.NthSubnetValue | internal/domain/ip.go:172-180 | The k-th visited network is start + k * 2^h, of the same length |
| Domain.AddressLoop | internal/app/wireguard/wireguard_peers.go:560-567 | The index loop reports no difference if and only if the two lists agree from its index on |
| Domain.SilentUpdates | internal/app/wireguard/wireguard_peers.go:478-571 | An update is silent if and only if it changes nothing but user, interface, private key, expiry, its lock, the mark of automatic creation and the creation and update stamps |
| Domain.SuppressedEventsAreHarmless | internal/domain/peer.go:323-393 | A silent update projects to the same physical peer, extras included, in both force modes and for every controller |
| Domain.ProjectionReadsBack | internal/domain/peer.go:264-321 | Reading a projected peer back gives the row's key, preshared key, endpoint and keepalive again, and what the controller's extras carry: disabled, name, notes, addresses, name servers |
| Domain.ConnectedExactly | internal/domain/statistics.go:31-40 | Connected is pingable, or a handshake at most 120 seconds old, and nothing else of the row changes |
| PeerStore.Settle | internal/adapters/database.go:1388-1430 | A row connected at another node keeps connected, pingable and owner; otherwise the callback decides all three, except that a disconnected row has no owner; everything else is the callback's |
| PeerStore.NoOrphansEver | internal/adapters/database.go:786-952 | Over every sequence of saves, deletions, updates, claims, batches and status deletions, each status and address row belongs to an existing peer |
| PeerStore.MirrorsEver | internal/adapters/database.go:913-952 | Over every such sequence the address table holds exactly the addresses of the stored rows |
| PeerStore.CreationStampsSurvive | internal/adapters/database.go:888-932 | A first save stamps creator and time, and makes an enabled row without expiry and a blank status; a later save changes only who saved it last, and when |
| PeerStore.NoResurrection | internal/adapters/database.go:1371-1386 | No transaction but a save brings a deleted peer or its status back |
| PeerStore.DeleteInterfaceOrphans | internal/adapters/database.go:639-663 | Deleting an interface keeps the tables free of orphans if and only if its peers had no status and no address rows |
| PeerStore.OthersCannotDisturb | internal/adapters/database.go:1388-1439 | One transaction by anybody but the owner, a claimer or a deleter leaves connected, pingable and owner alone |
| PeerStore.RoamingSafety | internal/adapters/database.go:1370-1448 | So does every run of such transactions, with arbitrary callbacks |
| SqlRepository.SqlRepo.SavePeer | internal/adapters/database.go:786-932 | Row, stamps and status after a save, or the untouched tables when the callback fails; the saved peer has exactly the saved addresses, every other peer those it had; metrics are removed exactly when an existing status was reset for a new identifier |
| SqlRepository.SqlRepo.DeletePeer | internal/adapters/database.go:933-952 | The peer leaves all three tables, the addresses of every other peer stay, and its metrics are removed once |
| SqlRepository.SqlRepo.DeletePeerStatus | internal/adapters/database.go:1715-1728 | Exactly the status row goes, and the metrics are removed once |
| SqlRepository.SqlRepo.GetOrCreatePeerStatus | internal/adapters/database.go:1635-1684 | A missing row is created, blank, for an existing peer only |
| SqlRepository.SqlRepo.UpdatePeerStatus | internal/adapters/database.go:1344-1448 | Succeeds if and only if one of ten attempts commits and the callback accepts; then the tables change as one update, otherwise not at all |
| SqlRepository.SqlRepo.ClaimPeerStatus | internal/adapters/database.go:1469-1543 | The same for a claim; an empty owner is refused |
| SqlRepository.SqlRepo.BatchUpdatePeerStatuses | internal/adapters/database.go:1545-1633 | Five attempts; on success every listed unowned row of an existing peer, old or new, holds its callback's value and every other row its old one; on failure nothing changes |
| SqlRepository.SqlRepo.GetExpiredPeers | internal/adapters/database.go:1864-1878 | Identifier and interface of each peer whose expiry is set and past, once, and of no other |
| SqlRepository.SqlRepo.DeletePeersByIDs | internal/adapters/database.go:1884-1983 | Success removes all listed peers from three tables; an error leaves exactly the first whole chunks of 200 removed; the addresses of all others stay; count and metric callbacks cover exactly those removed |
| SqlRepository.SqlRepo.FindAndDeleteExpiredPeersWithLock | internal/adapters/database.go:1988-2036 | Only the master deletes, only expired peers; what it returns covers all it deleted if and only if it succeeded or deleted nothing |
| Cluster.FilterActivePeers | internal/app/wireguard/statistics.go:605-625 | Exactly the peers with a handshake within two minutes |
| Cluster.ConnectedRowsHaveSources | internal/adapters/database.go:1388-1524 | A connected row after a transaction was connected at the same owner before, or was just claimed by it |
| Cluster.DisconnectReleases | internal/app/wireguard/statistics.go:547-600 | After its own age-out a node owns the connection no longer |
| Cluster.ClaimConnects | internal/app/wireguard/statistics.go:445-484 | A claim on a fresh handshake connects the row to the claimer, whoever owned it |
| Roaming.ShownConnected | internal/app/wireguard/statistics.go:378-384 | An active peer is shown connected after its write if and only if the collector had not cached it or its row was connected already |
| Roaming.OnlyClaimsConnect | internal/app/wireguard/statistics.go:445-520 | No other step of any node, API call or cleanup brings a peer online |
| Roaming.RoamBackGoesOffline | internal/app/wireguard/statistics.go:378-400 | A run in which a peer roams away and back within two minutes and is listed offline while active |
| Roaming.StaysOffline | internal/app/wireguard/statistics.go:484-520 | From any state and over every run of any nodes, interfaces, API calls and cleanups, an offline peer that no collector claims stays offline, however often it is seen active |
| Roaming.DroppedClaimStaysOffline | internal/app/wireguard/statistics.go:521-524 | After a claim that fails for good the peer counts as known to the node all the same, and stays offline until somebody claims it |
| Roaming.WatchedForever | internal/app/wireguard/statistics.go:378-384 | Any number of cycles that see the peer active can follow without the node ever claiming it |
| Renewal.RowRefinesExpiry | internal/app/wireguard/wireguard.go:515-572 | With collectors, delayed events, handlers, API and cleanup interleaved, a row with its own key is what the timed model computes from its handled events, if nothing else saves or deletes it |
| Renewal.TimelyNotReturned | internal/adapters/database.go:1864-1878 | If moreover its events are handled in time, the query for expired peers does not return it |
| Renewal.TimelyExactly | internal/app/wireguard/wireguard.go:515-572 | With a clock that never runs backwards, in time means exactly: each event handled at most age after its copy was read, and at most gap after the one before |
| Renewal.LockedRowStays | internal/app/wireguard/wireguard.go:533-537 | A locked row keeps its expiry, and all but its stamps, through every such run |
| Renewal.RenewIsUpdate | internal/app/wireguard/wireguard_peers.go:574-667 | The renewal of these runs changes the rows as the update operation does, re-identification included |
| Renewal.OnlineIsQueued | internal/app/wireguard/statistics.go:539-545 | The write of an active peer that leaves it online queues an event with the copy just read, which says connected if and only if the row was offline before |
| Renewal.RefreshPublishesNothing | internal/app/wireguard/statistics.go:539-545 | A write for an offline peer that is no claim publishes nothing |
| Renewal.OfflineNeverRenewed | internal/app/wireguard/statistics.go:484-545 | In every such run an offline, unclaimed peer with no event waiting is never renewed: the query returns it exactly when its expiry, as it was, is past, even if it is active |
| Cluster.StepKeepsInv | internal/app/wireguard/statistics.go:341-421 | A collector, API or cleanup step keeps "no orphans, and every connected row names a node that knows the peer" if and only if it is not a removal event listing a peer connected at the handling node |
| Cluster.NoGhostOnline | internal/app/wireguard/statistics.go:341-600 | In every state of any number of nodes reached without such a removal event, a connected row has an owner, and an owner between interfaces has the peer in its active cache |
| Cluster.GhostFreeExactly | internal/app/wireguard/statistics.go:341-600 | A run from the empty start is free of ghosts throughout if and only if it handles no such removal event |
| Cluster.RemovalEventExact | internal/app/wireguard/statistics.go:904-921 | Handling a removal event leaves no ghost if and only if no listed peer is connected at this node again |
| Cluster.CleanupRemoves | internal/adapters/database.go:1988-2036 | The cleanup takes rows and statuses of the listed peers only, and queues their removal event last |
| Cluster.FailedDisconnectExact | internal/app/wireguard/statistics.go:389-400 | Dropping a peer after a failed disconnect leaves no ghost if and only if the node did not own it or still knows it elsewhere |
| Cluster.ReusedKeyLeavesGhost | internal/app/wireguard/statistics.go:904-921 | A run in which a reused key and a late removal event leave a ghost |
| Collector.StatisticsCollector.UpdatePeerFromWireGuard | internal/app/wireguard/statistics.go:423-545 | Which transaction is issued, what the row then holds of the kernel's counters, handshake and endpoint (a claim starts a session, a refresh keeps it), and which event: only a change of state carries "connected", a steady connected peer sends "offline" |
| Collector.StatisticsCollector.MarkPeerDisconnected | internal/app/wireguard/statistics.go:547-600 | The disconnect transaction for an existing peer: no handshake afterwards, counters zero if it was connected or pingable and kept otherwise, offline and unowned unless another node owns it |
| Collector.StatisticsCollector.CollectInterface | internal/app/wireguard/statistics.go:355-412 | A cycle over one interface is a run of cluster steps and ends with exactly the active peers cached |
| Collector.StatisticsCollector.HandlePeersExpiredRemovedLocal | internal/app/wireguard/statistics.go:904-921 | The listed peers leave the cache of every interface, nothing else changes |
| Expiry.NeverExpired | internal/app/wireguard/wireguard.go:515-572 | If copy age plus event gap is within TTL and the gap within an hour, the expiry of an unlocked peer is not past at any moment of any run |
| Expiry.NeverRenewed | internal/app/wireguard/wireguard.go:517-537 | A locked row, and any row when expired peers are kept or the TTL does not parse, stays as it is through every run of events |
| Expiry.ExpiryStaysExactly | internal/app/wireguard/wireguard.go:539-567 | For any other row an event leaves the expiry as it was if and only if it says offline and the expiry is more than an hour away, or it was at a full TTL already |
| Expiry.SafeExactly | internal/app/wireguard/wireguard.go:546-553 | That condition is exact for all non-negative durations: with delete_expired_peers on and an unlocked peer, the promise holds for all runs if and only if all events fall on one moment (gap 0), or age + gap <= TTL and gap <= 1 h + 1 ns |
| Expiry.StaleCopyExpires | internal/app/wireguard/statistics.go:431-433 | If age plus gap exceeds TTL, a backlog of events with one old copy lets a connected peer expire, however old the copy |
| Expiry.LongGapExpires | internal/app/wireguard/statistics.go:539-545 | A longer gap lets a connected peer expire through the one-hour rule, since steady peers send "offline" |
| Lease.StepExact | internal/adapters/database.go:2044-2127 | A statement keeps mutual exclusion and truthful rows if and only if it deletes no other session's live row |
| Lease.MutualExclusion | internal/adapters/database.go:2044-2127 | With distinct names and expired rows deleted as soon as found, at every moment at most one session holds a live lease on a key and the row names it |
| Lease.AcquireFree | internal/adapters/database.go:2047-2066 | An undisturbed caller gets a free or expired key, for its duration from its own clock reading |
| Lease.SharedNameBreaksExclusion | internal/adapters/database.go:2091-2093 | Any two callers of one name and key can both come to hold a live lease: the first, expired, releases the second's |
| Lease.ExclusionExactly | internal/adapters/database.go:2044-2127 | From every start, with expired rows deleted as soon as found, all runs keep exclusion and truthful rows if and only if no two callers of a key share a name |
| Lease.LateDeleteBreaksExclusion | internal/adapters/database.go:2069-2076 | An insert between look-up and deletion of an expired row can end in two live leases, for any two callers of a key |
| Lease.StatementsExactly | internal/adapters/database.go:2044-2127 | Statement by statement, all runs keep exclusion and truthful rows if and only if no two callers ask for the same key |
| LeaseTable.SqlLocks.AcquireLock | internal/adapters/database.go:2044-2085 | When its statements succeed, acquired if and only if the key was free or expired; otherwise the live holder is named; under faults it is still a run of the statement steps |
| LeaseTable.SqlLocks.ReleaseLock | internal/adapters/database.go:2088-2108 | Deletes the caller's own unexpired row and nothing else |
| LeaseTable.SqlLocks.CleanupExpiredLocks | internal/adapters/database.go:2112-2127 | A row remains if and only if it has not expired by the clock |
| Device.ConfiguredIsSaved | internal/adapters/wgcontroller/local.go:493-527 | Configuring through nil-means-unchanged settings gives the row's networks, the row's settings where set and the old ones elsewhere; under another public key it reaches that peer, or nothing |
| Device.SavedKeys | internal/adapters/wgcontroller/local.go:401-434 | Whatever its public key, saving a row adds or removes its own identifier and no other |
| Device.OwnKeyExact | internal/adapters/wgcontroller/local.go:510-519 | An enabled row new to the device gets its networks if and only if its public key is its identifier or it has none; otherwise it stays bare |
| Device.ProjectionIsGranted | internal/domain/peer.go:330-368 | A row projects to exactly the networks it is granted: the extra ones, and the allowed-IPs text for a server or when it is set and not overridden, otherwise its single addresses |
| Device.KeylessRow | internal/domain/crypto.go:29-32 | A public key that is no key reads as the key of zeros, whose peer is configured if there is one |
| Device.LocalController.SavePeer | internal/adapters/wgcontroller/local.go:401-434 | The device after a save of any row: disabled rows removed, invalid identifiers refused without change, and an enabled row with its own key left with exactly the networks it is granted |
| Device.LocalController.GetOrCreatePeer | internal/adapters/wgcontroller/local.go:436-491 | An existing peer is left alone, a missing one added blank, no other peer changes, and what is read back is that entry |
| Device.LocalController.DeletePeer | internal/adapters/wgcontroller/local.go:529-558 | Exactly that peer goes |
| Device.LocalController.HandlePeerInterfaceUpdatedEvent | internal/app/wireguard/wireguard.go:637-733 | For any rows, removing and saving row by row equals saving all rows over the device restricted to the database |
| Device.LocalController.RestorePeers | internal/app/wireguard/wireguard_interfaces.go:342-382 | Succeeds if and only if all identifiers are keys; then all rows are saved and foreign peers removed |
| Device.LocalController.SyncAllPeersFromDB | internal/app/wireguard/wireguard_sync.go:46-100 | Keeps only enabled rows and saves, in some order, exactly those missing or listed with other networks or endpoint, or having a preshared key or keepalive |
| Reconcilers.SavedPresence | internal/app/wireguard/wireguard.go:706-729 | After saving a list of any rows, a row is present if and only if enabled |
| Reconcilers.SavedRow | internal/app/wireguard/wireguard.go:706-729 | If the rows have their own keys, also with its settings over the old ones and its networks minus those later rows claim |
| Reconcilers.NetworksExact | internal/adapters/wgcontroller/local.go:510-519 | Of rows with their own keys, every enabled one has exactly its networks if and only if no network is claimed by two |
| Reconcilers.EventEqualsRestore | internal/app/wireguard/wireguard_interfaces.go:342-382 | For rows with their own keys, event handler and restore phase leave the same table, entry by entry, from any starting device |
| Reconcilers.SamePeers | internal/app/wireguard/wireguard_sync.go:46-100 | For rows with any keys, all three reconcilers leave exactly the enabled rows on the device, from any starting device |
| Reconcilers.Idempotent | internal/app/wireguard/wireguard.go:637-733 | For rows with their own keys, a second run changes nothing, settings included, even when networks overlap |
| Reconcilers.OrderFree | internal/app/wireguard/wireguard.go:706-729 | With own keys and disjoint networks the order of the rows does not matter |
| Reconcilers.FullSyncNetworks | internal/app/wireguard/wireguard_sync.go:84-90 | With own keys and disjoint networks the full sync gives every row its networks if and only if each skipped row already held them, apart from networks the saved rows take back |
| Reconcilers.StaleNetworksSurvive | internal/app/wireguard/controller_manager.go:172-201 | A forced-mode row whose allowed-IPs text equals the listing keeps a default route that the event handler removes |
| Convergence.StepKeepsInv | internal/app/wireguard/wireguard.go:973-1048 | Every step keeps, for presence and, with own keys and disjoint networks, for networks: each peer matches its row on each node, or something on its way will make the node look again; a write that announces nothing must leave the projection of a stored row as it is, and removed rows must be announced |
| Convergence.ReceivedKeepsPending | internal/app/api/v1/handlers/endpoint_peer.go:504-547 | The endpoint's dropping of non-deletion events for missing rows never loses track of a peer |
| Convergence.ForwardsExactly | internal/app/api/v1/handlers/endpoint_peer.go:504-547 | The endpoint passes an event on if and only if the row exists or the event is a deletion |
| Convergence.PresenceConverges | internal/app/wireguard/wireguard_peers.go:650-706 | For every run of such writes of rows whose identifier is a key, whatever their public key, and any reordering of events, at quiescence every device holds exactly the enabled rows |
| Convergence.NetworksConverge | internal/app/wireguard/wireguard_peers.go:373-380 | If moreover, in every state of the run, enabled rows have their public key as identifier and claim no network twice, also with exactly their networks |
| Convergence.NeverForgotten | internal/app/wireguard/wireguard.go:973-1048 | Under all these conditions, at every moment a peer not up to date on a node has an event pending for it |
| Convergence.DrainBound | internal/app/fanout/fanout.go:366-481 | Once writers stop, every schedule of deliveries, reads and writes is bounded by the outstanding work |
| Convergence.Drain | internal/app/fanout/fanout.go:366-481 | From any state the network steps can be run to quiescence |
| Convergence.SilentUpdateExact | internal/app/wireguard/wireguard_peers.go:650-664 | A suppressed update keeps a quiet cluster converged if and only if the overwritten row projects to the same, or, when the row is gone, the row created anew is disabled |
| Convergence.OverwrittenUpdateDiverges | internal/app/wireguard/wireguard_peers.go:574-664 | A run after which a silent expiry renewal from an older copy leaves every other node diverged for good |
| Convergence.DeletedUpdateDiverges | internal/app/wireguard/wireguard_peers.go:574-664 | A run after which a silent renewal brings a deleted row back, under its old or a new identifier, that no other node gets |
| Convergence.OtherKeyStaysBare | internal/app/api/v1/models/models_peer.go:155-165 | After the announced creation of an enabled row with another public key every schedule ends with a bare peer on every other node |
| Convergence.UnannouncedExpiryExact | internal/adapters/database.go:2010-2036 | Removing rows without announcing them keeps a quiet cluster converged if and only if none was enabled |
| PeerManager.HandlePeerSyncedLocalEvent | internal/app/wireguard/wireguard.go:973-1048 | For any row the handler leaves the peer present exactly as the row says, if and only if an enabled row's identifier is a key; with its own key also with exactly the networks the row is granted |
| PeerManager.Manager.CreatePeer | internal/app/wireguard/wireguard_peers.go:260-383 | A new identifier that is a key is saved and announced; a taken, empty or invalid one is refused without change |
| PeerManager.Manager.UpdatePeer | internal/app/wireguard/wireguard_peers.go:574-667 | Run undisturbed on any stored rows, the new rows, events and steps of an update, re-identification and failure included; the steps are announced or harmless if and only if the peer is not re-identified silently |
| PeerManager.SilentReidentification | internal/app/wireguard/wireguard_peers.go:600-664 | Only a row stored with another public key than its identifier is re-identified silently |
| PeerManager.LegalTakes | internal/app/wireguard/wireguard_peers.go:574-664 | A legal run of the convergence model is one of the steps an operation takes |
| PeerManager.Manager.DeletePeer | internal/app/wireguard/wireguard_peers.go:670-713 | An existing row with a valid identifier goes and is announced; otherwise an error without change |
| PeerManager.Manager.HandlePeerStateChangeEvent | internal/app/wireguard/wireguard.go:515-572 | Nothing happens for a locked copy, when expired peers are kept or the TTL does not parse; otherwise the rows after a renewal, for any copy and key; a renewal of an up-to-date copy announces nothing, except that a row with another public key is announced as deleted |
| PeerManager.UpdateIsFaithful | internal/app/wireguard/wireguard_peers.go:650-664 | An update that compares with the row it overwrites is announced or projects to the same |
| Debounce.RunKeepsInv | internal/app/fanout/fanout.go:554-596 | Over every interleaving: unserved bumps have a wake-up ahead, and tokens, callbacks and timers never outnumber bumps |
| Debounce.NoLostWakeUp | internal/app/fanout/fanout.go:568-596 | A bump not yet seen always has an armed timer, a running callback, a bump in progress or a token; the consumer wakes at most once per bump |
| Debounce.BumpsAreServed | internal/app/fanout/fanout.go:294-303 | Once bumps stop, every schedule is finite and one that cannot continue has served every bump |
| Debounce.TokenAfterDrain | internal/app/fanout/fanout.go:583-590 | A token found after a bump drained the channel was sent after the drain |
| Debounce.DrainsExactly | internal/app/fanout/fanout.go:583-590 | A bump drains if and only if it finds its timer stopped; nothing but a drain and the consumer takes a token |
| Debounce.LateResetExact | internal/app/fanout/fanout.go:592-596 | A step loses track of an armed timer if and only if it is a reset after the timer was armed again |
| Debounce.OneTimer | internal/app/fanout/fanout.go:568-590 | Without such a reset at most one timer is armed |
| Debounce.LateResetArmsTwo | internal/app/fanout/fanout.go:568-596 | A run that arms two timers |
| Backoff.Fanout.HostCanRetry | internal/app/fanout/fanout.go:312-336 | The shift and comparison decide as the streak rules say |
| Backoff.Fanout.MarkHostFailed | internal/app/fanout/fanout.go:340-353 | Counts one failure more for this URL only |
| Backoff.Fanout.ClearHostFailed | internal/app/fanout/fanout.go:356-360 | Forgets this URL only |
| Backoff.Fanout.Deliver | internal/app/fanout/fanout.go:406-468 | One attempt: whether the URL is contacted, its new state, and that no other URL changes |
| Backoff.StateIsStreak | internal/app/fanout/fanout.go:340-360 | The stored state is the number of failures since the last success and the end of the last one |
| Backoff.StreakMembers | internal/app/fanout/fanout.go:340-360 | The streak lists exactly the requests since the last success |
| Backoff.ContactedExactly | internal/app/fanout/fanout.go:312-336 | A URL is contacted if and only if it has no failures, or one 2 s ago, or two the last 4 s ago |
| Backoff.StreakSpacing | internal/app/fanout/fanout.go:406-468 | At most three requests without success, at least 2 s and 4 s apart |
| Backoff.SilentForever | internal/app/fanout/fanout.go:321-324 | After three failures in a row no later request is ever sent |
| Backoff.AtMostThreeUnanswered | internal/app/fanout/fanout.go:406-468 | A host that never answers receives at most three requests in any history |
| Routes.NearestFreeIsNear | internal/app/route/routes.go:368-404 | The priority search ends within one probe more than there are used priorities |
| Routes.RuleTable.FreePriority | internal/app/route/routes.go:368-404 | The search ends at the first free priority in its direction |
| Routes.RuleTable.SetFwMarkRules | internal/app/route/routes.go:213-249 | Every wanted pair is served, at most one rule is added per pair, only for unserved pairs and at the highest free priorities from 32700 down |
| Routes.RuleTable.SetMainRule | internal/app/route/routes.go:268-317 | A suppress rule is added if and only if one is needed, missing and not ignored |
| Routes.RuleTable.CleanupMainRule | internal/app/route/routes.go:319-366 | Only suppress rules go, down to one or none |
| Routes.RuleTable.RemoveFwMarkRules | internal/app/route/routes.go:251-266 | Exactly the rules of that mark and table go |
| Routes.RuleTable.SyncRouteRules | internal/app/route/routes.go:192-211 | Some intermediate rule sets connect the old rules to the new ones through the three passes, whatever order the kernel lists rules in; the lemmas below draw the consequences |
| Routes.OtherRulesStay | internal/app/route/routes.go:192-211 | Rules of others survive; anything new is a suppress rule or serves a pair nothing served |
| Routes.PairsAreServed | internal/app/route/routes.go:213-249 | Every wanted pair is served afterwards, unless only a suppress rule stood in for it |
| Routes.AddedRulesSelect | internal/app/route/routes.go:231-242 | Every added rule sends exactly the packets without a wanted pair's mark into its table, or is a suppress rule and selects all packets |
| Routes.SuppressRulesExact | internal/app/route/routes.go:268-366 | The number of suppress rules for every input: one if a default route qualifies, none without default routes, at most the one present otherwise |
| Routes.OneSuppressRule | internal/app/route/routes.go:268-366 | With a default route in a table of its own, exactly one main-table rule suppresses default routes |
| Routes.NoSuppressRule | internal/app/route/routes.go:319-366 | Without default routes there is none |
| Routes.NoSuppressAdded | internal/app/route/routes.go:268-292 | No suppress rule is added unless a pair with a mark and a table of its own has a default route |
| Routes.SecondSyncIdle | internal/app/route/routes.go:192-211 | A second synchronisation changes nothing, unless a suppress rule had stood in for a wanted pair |
| Encryption.TrimEncKey | internal/app/gorm_encryption.go:194-203 | Every passphrase gives 32 bytes that start with it, or with its first 32, and end in characters 0 |
| Encryption.UnPadPad | internal/app/gorm_encryption.go:182-192 | Padding is undone for every length |
| Encryption.PadUnPadExact | internal/app/gorm_encryption.go:188-192 | What unpadding accepts pads back to itself if and only if it was well padded |
| Encryption.CbcInverse | internal/app/gorm_encryption.go:122-180 | Decryption undoes encryption for every block permutation, key, start value and number of blocks |
| Encryption.DecryptEncrypt | internal/app/gorm_encryption.go:122-180 | Every non-empty text encrypts, and decrypts to itself under the same passphrase |
| Encryption.FirstBlock | internal/app/gorm_encryption.go:122-148 | The first block is chained with the first 16 bytes of the key |
| Encryption.OutcomesExactly | internal/app/gorm_encryption.go:122-180 | Exactly when encryption fails, and when decryption fails or panics |
| Encryption.Field.Scan | internal/app/gorm_encryption.go:42-78 | Writes the field unless reading fails |
| Encryption.RoundTrip | internal/app/gorm_encryption.go:42-119 | Scan after Value gives the text back, for every text and passphrase, encrypted or not |
| Encryption.StoredWithPrefix | internal/app/gorm_encryption.go:81-119 | Under a passphrase non-empty text is stored behind WG_ENC_, empty and missing text as they are |
| Encryption.StoredApart | internal/app/gorm_encryption.go:81-119 | Different texts are stored differently |
| Encryption.OldColumnsExact | internal/app/gorm_encryption.go:64-67 | A column written before encryption was switched on reads back if and only if it lacks the prefix |
| Encryption.LostPassphrase | internal/app/gorm_encryption.go:59-62 | Without the passphrase an encrypted column never reads back as its text |

## Left out

- SqlRepository.SqlRepo.GetExpiredPeers: the order of the rows is not specified.
- Cluster.NoGhostOnline: holds for runs without harmful removal events, which is shown to be exact; ping mode, lost status transactions and node restarts are not steps of the run; a failed disconnect is treated by Cluster.FailedDisconnectExact.
- Convergence.NeverForgotten: own keys are assumed at every state for networks, since creation does not establish them; Convergence.OtherKeyStaysBare shows what happens otherwise.
- Convergence.PresenceConverges: assumes, of each write in the run, that one which announces nothing leaves the projection of a stored row as it is, and that removed rows are announced; what happens otherwise is Convergence.SilentUpdateExact and Convergence.UnannouncedExpiryExact. Every request reaches its node and nodes do not restart; the node that made a change is not a remote node of the model, and its own deletion handler, which does not re-read the row, is not modelled.
- Convergence.NetworksConverge: preshared key, endpoint and keepalive are not part of it, because an empty value leaves the device setting as it was.
- Device.LocalController.SavePeer: one device stands for all, configuration calls succeed, and a key has one text.
- Device.LocalController.SyncAllPeersFromDB: the save of the unchanged row to the database and the orphan cleanup before the sync are not part of the method.
- PeerManager.Manager.CreatePeer: runs as an administrator, and the retries with another address after a uniqueness conflict are not modelled.
- PeerManager.Manager.UpdatePeer: runs as an administrator over stored rows whose identifier is a key; permission checks and the overwriting of user-editable fields are not modelled.
- Reconcilers.EventEqualsRestore: rows with another public key are covered for presence only (Reconcilers.SamePeers).
- Renewal.RowRefinesExpiry: no other save or deletion of the watched row, which would start it anew; saves by the handler succeed.
- Lease.MutualExclusion: holds under the two stated conditions, which Lease.ExclusionExactly and Lease.StatementsExactly show to be needed; all clocks agree.
- Backoff.Fanout.Deliver: calls for one URL follow each other.
- Routes.RuleTable.SyncRouteRules: one address family; netlink calls succeed, and priorities are unbounded integers.
- Encryption.RoundTrip: base64 and the AES block function are parameters with stated laws.
- Address text is not parsed or printed; an IPv6 address that embeds an IPv4 one has no separate form, and unparsable allowed networks are dropped.
- `GetNextPeerIPForSubnet`, which filters by the subnet's own text and so gives no allocation guarantee.
- `getFreshListenPort` and `getNewInterfaceName`, linear searches like the ones modelled.
- Route entries of interfaces, as opposed to rules.
- The Mikrotik controller, apart from the extras of the projection.
- HTTP, sessions, authentication, mail, metrics registry, logging, jitter and the web frontend.
