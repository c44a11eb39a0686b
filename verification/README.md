# A model of lbmanager

lbmanager runs one process on each load-balancer host. All of them watch the wanted LVS services in
etcd and write one keepalived configuration file for each; the elected leader also hands out virtual
addresses (VIPs) from a subnet, writes address and port back into the records, and gives addresses back
when records go. This project models that system in Dafny and proves what it keeps.

| file | models |
|---|---|
| NetIP.dfy | `net.IP` byte slices, printed addresses, and NextIP / PrevIP on big-endian values |
| Ranges.dfy | CIDR masks bit by bit, `validateRangeIP`, `networkRange`, `NewIPAllocator` |
| Allocator.dfy | the etcd directory of a subnet (class `Store`) and the next-fit search (class `IPAllocator`) |
| Ipam.dfy, IpamRuns.dfy | `RequireIP` / `ReleaseIP` with the cache (class `IPAM`), and every run of them |
| Records.dfy | LVS records, `Validate`, JSON field trees, address groups, the rendered file |
| Reconciler.dfy | the event handler (class `LVSImpl`): add pass, delete pass, allocation, write-back, Recover |
| Steps.dfy | what one event may change, and the event as a map from snapshots to records |
| Takeover.dfy | no leaked addresses after a leader takeover |
| DiskVips.dfy | no two files with one VIP |
| Convergence.dfy | the write-back loop ends |
| Agreement.dfy | leader and follower end with the same files |
| ReloadProtocol.dfy | the reload flag between the handler and the reload thread, step by step |
| Election.dfy | compare-and-swap clients of the election record (classes `Register`, `ETCDLock`) |

How it is built. Code that updates state is a class whose methods are proved equal to pure step
functions (`ReserveStep`, `Search`, `RequireStep`, `ConfigStep`, `EventStep`, `Put`), faults included.
What the source promises is then proved about those functions over whole runs. The virtual address of a
record is a `Text`: every string is what `String` prints for one address, another spelling that
`ParseIP` reads, or a word. etcd is a map and a cursor; a store operation of the allocator fails either
before it is applied or after, with its answer lost; a file operation that fails changes nothing. The order in which a listing meets several entries of one id is
left open, as are Go's map orders.

What the proofs found in the code:

- A subnet whose own address leaves no host after it (10.0.0.254/24) gives start > end
  (`Ranges.NoRoomAfterLastHost`); the allocator then refuses every explicit request and gives out the
  broadcast address (`Allocator.IPAllocator.Get`). `Ranges.RangeIsRing` says exactly when the range is in order.
- `RequireIP` ignores a failed release of the old address; an id then holds two
  (`IpamRuns.UniqueExactly`, `IpamRuns.FailedReleaseLeavesTwo`).
- A failed write of the cursor can leave an address whose id the cache does not know
  (`IpamRuns.StrandedEscapesCache`), and so can the release of one of two (`IpamRuns.ReleaseOfOneUncovers`);
  `IpamRuns.CoversExactly` says exactly which calls do.
- The store's `Recover` compares a full key with `last_reserved_ip`, so the skip never happens and the
  cursor's text becomes a cached id (`Allocator.Store.Recover`); no service id looks like that.
- A release that fails in the delete pass leaks its address for good (`Takeover.FailedReleaseLeaks`);
  `Takeover.EventLeaksExactly` says exactly which events leak.
- A standby never refreshes its cache, so at a takeover it can miss held addresses
  (`Takeover.StandbyMisses`); which ones is `Takeover.StandbyTakesOver`.
- A snapshot is listed while the event before it still writes back, so records are written a second time,
  and a value written meanwhile by someone else is overwritten (`Convergence.StaleWritesAgain`).
- A file that cannot be read or written once stays wrong until its record changes
  (`Agreement.FailedWriteIsNeverRetried`); `Agreement.EventFilesExactly` says which events do that.
- A record with an IPv6 address gets no port: the leader writes its file and followers do not
  (`Agreement.PortZeroSplits`).
- After a takeover a record that parses to its own recovered stub is never configured
  (`Takeover.TakeoverReconfiguresExactly`, `Takeover.BareRecordIsPassedOver`).
- A failed explicit request gives the old address away while its file stays on disk, and another record
  can then get it (`DiskVips.ConfigOwnsExactly`, `DiskVips.BadAskSharesVIP`).
- A written-back record is refused by the next read when port base plus last octet exceeds 65535
  (`Records.CompletedReadsBack`, `Convergence.OverflowIsRefused`).
- An election `Get` that cannot decode the record reports an error and still lets its client update
  (`Election.GetStillUpdatesExactly`).

## Model

| member | source | states |
|---|---|---|
| NetIP.EqualIsSameText | pkg/ipam/backend/allocator/allocator.go:196-198 | `cur.Equal(endIP)` on 4- and 16-byte slices holds exactly when both print as the same key |
| NetIP.ParsePrint | pkg/ipam/backend/etcd/backend.go:95-104 | a key that was printed from an address reads back as that address |
| NetIP.ParseIPExactly | pkg/ipam/ipam.go:78 | exactly the texts of addresses parse, in any spelling, to the address they spell |
| NetIP.BytesShape | pkg/ipam/ip/cidr.go:41-43 | the shortest big-endian bytes of n have value n and no leading zero |
| NetIP.NextIPExact | pkg/ipam/ip/cidr.go:23-26 | NextIP adds one; the length is kept exactly when the sum still needs all bytes and fits them |
| NetIP.PrevIPExact | pkg/ipam/ip/cidr.go:28-31 | PrevIP takes one off, and makes one of zero |
| NetIP.NextPrev | pkg/ipam/ip/cidr.go:23-43 | with a non-zero first byte and not all ones, NextIP is the successor of the same length and PrevIP undoes it |
| Ranges.PartsAreDivMod | pkg/ipam/backend/allocator/allocator.go:226-229 | the host part and network part used below are remainder and quotient by 2^h |
| Ranges.BroadcastValue | pkg/ipam/backend/allocator/allocator.go:226-229 | the byte loop `ip OR NOT mask` computes network + 2^h - 1, for every mask length and address length |
| Ranges.MaskedValue | pkg/conf/conf.go:189-197 | masking byte by byte clears exactly the host part of the big-endian value |
| Ranges.HostBitsOf | pkg/conf/conf.go:189-197 | the host bits of a block are what its mask leaves of its own length, and at most the whole address |
| Ranges.ContainsIsBlock | pkg/conf/conf.go:189-197 | an address is in a CIDR block exactly when family and network part agree |
| Ranges.NestedOrDisjoint | pkg/conf/conf.go:67-77 | any two configured CIDR blocks are nested or disjoint |
| Ranges.NotBelow | pkg/ipam/backend/allocator/allocator.go:106-112 | the early-exit byte loop decides the order of the big-endian values |
| Ranges.ValidateRangeIP | pkg/ipam/backend/allocator/allocator.go:85-132 | accepts exactly addresses inside the subnet and between the given bounds of the same family |
| Ranges.LastByteIsOdd | pkg/ipam/backend/allocator/allocator.go:231-234 | with two host bits or more `end[3]--` never borrows |
| Ranges.NetworkRange | pkg/ipam/backend/allocator/allocator.go:213-237 | for any mask, the configured address and the last host of the block; only a /32 whose last octet is zero borrows; nothing when families differ |
| Ranges.NewIPAllocator | pkg/ipam/backend/allocator/allocator.go:39-73 | refuses exactly the blocks with less than two host bits, mixed families, or a configured bound outside the block; start is the configured first address or the one after the subnet's own, end the configured last address or the last host |
| Ranges.RangeIsRing | pkg/ipam/backend/allocator/allocator.go:52-58 | start <= end, in one length, exactly when the host part leaves room and the first octet of start is not zero |
| Ranges.NoRoomAfterLastHost | pkg/ipam/backend/allocator/allocator.go:52-58 | 10.0.0.254/24 is accepted and its range starts on the broadcast address, after its end |
| Ranges.RefusedRangeIsEmpty | pkg/ipam/backend/allocator/allocator.go:85-132 | a range out of order starts past its end and has no members |
| Ranges.RangeInsideBlock | pkg/ipam/backend/allocator/allocator.go:144-156 | every address between start and end is inside the subnet, so the range test is the bounds test |
| Ranges.NetworkFormRange | pkg/ipam/backend/allocator/allocator.go:52-58 | for a network-form IPv4 subnet the range is network + 1 to network + 2^h - 2 |
| Ranges.RangeIsHostAddresses | pkg/ipam/backend/allocator/allocator.go:211-237 | that range is exactly the host addresses: neither the network address nor the directed broadcast (RFC 1122, section 3.2.1.3) |
| Allocator.AtPos | pkg/ipam/backend/allocator/allocator.go:30-37 | ring positions and addresses of the range correspond, and the addresses are canonical |
| Allocator.NextIsSuccessor | pkg/ipam/backend/allocator/allocator.go:239-245 | nextIP is the next ring position, end wrapping to start |
| Allocator.IterateIsModular | pkg/ipam/backend/allocator/allocator.go:239-245 | k steps from start land at k modulo the range size |
| Allocator.Store.Reserve | pkg/ipam/backend/etcd/backend.go:49-67 | checks, writes holder, then cursor; each can fail, before it is applied or with its answer lost, and leaves what was written until then |
| Allocator.ReserveExactly | pkg/ipam/backend/etcd/backend.go:49-67 | fault by fault: what is held afterwards, where the cursor is, and what is reported |
| Allocator.Store.LastReservedIP | pkg/ipam/backend/etcd/backend.go:69-76 | the address the cursor text parses to, if it can be read |
| Allocator.Store.Exist | pkg/kvstore/kvstore.go:73-85 | returns an address the id holds, and none exactly when it holds none |
| Allocator.Store.ReleaseByID | pkg/ipam/backend/etcd/backend.go:82-93 | removes the one entry found for the id and nothing else, also when the answer of the delete is lost |
| Allocator.Store.Recover | pkg/ipam/backend/etcd/backend.go:106-119 | yields every holder id, and the cursor text as one more id |
| Allocator.IPAllocator.InRange | pkg/ipam/backend/allocator/allocator.go:153-156 | the range check with the allocator's bounds is membership of the range, which is empty when out of order |
| Allocator.IPAllocator.GetSearchRange | pkg/ipam/backend/allocator/allocator.go:247-273 | the search starts after the cursor and ends on it, or covers start to end when there is no usable cursor |
| Allocator.IPAllocator.Get | pkg/ipam/backend/allocator/allocator.go:134-201 | ends within one turn of the ring, probes no address twice, and leaves store and result as the step function says under any store faults; a range out of order refuses every explicit request, and its search grants the first free address from the start upwards, past the block |
| Allocator.SearchIsNextFit | pkg/ipam/backend/allocator/allocator.go:175-200 | without store errors grants the cyclically first free address after the cursor, moves the cursor there, and fails exactly when the whole range is held |
| Allocator.UnusableCursorGrantsLowest | pkg/ipam/backend/allocator/allocator.go:247-273 | with no cursor, one that cannot be read or is no address, or one outside the range, the search grants the lowest free address of the range |
| Allocator.UsableCursorGrantsNearest | pkg/ipam/backend/allocator/allocator.go:247-273 | with a cursor in the range it grants the free address that comes first after it in ring order |
| Allocator.ExplicitExactly | pkg/ipam/backend/allocator/allocator.go:143-173 | an explicit request is out of range, taken or granted exactly when it should be |
| Allocator.ProbesCover | pkg/ipam/backend/allocator/allocator.go:175-200 | every address of the range is reached by some probe |
| Ipam.IPAM.constructor | pkg/ipam/ipam.go:36-58 | the cache starts as what the store recovers |
| Ipam.IPAM.RequireIP | pkg/ipam/ipam.go:60-86 | returns the held address unless another is asked for; else releases first, then allocates, then caches; under any store faults |
| Ipam.IPAM.ReleaseIP | pkg/ipam/ipam.go:88-100 | a successful release drops the entry and the cache key, a failed one changes nothing |
| Ipam.IPAM.GetKeys | pkg/ipam/ipam.go:102-110 | lists exactly the cached ids |
| Ipam.GetGives | pkg/ipam/backend/allocator/allocator.go:134-201 | whatever fails, an allocation adds at most one entry, for the asker, at an address of the range that was free |
| Ipam.GetExactly | pkg/ipam/backend/allocator/allocator.go:134-201 | which one reservation an allocation reaches, told from the store, the request and the faults before it, decides store and result; without one nothing is written |
| IpamRuns.StepTouchesOwnEntries | pkg/ipam/backend/etcd/backend.go:49-67 | whatever fails, a call changes no entry of another id, so Reserve never overwrites a holder |
| IpamRuns.UniqueExactly | pkg/ipam/ipam.go:70-78 | a call keeps one address for each id exactly when it does not lose its inner release and then reach a free address to write; both can be told before the call |
| IpamRuns.RunKeepsUnique | pkg/ipam/ipam.go:60-100 | in every run whose inner releases succeed each id holds at most one address, whatever else fails |
| IpamRuns.FailedReleaseLeavesTwo | pkg/ipam/ipam.go:71-78 | after a failed inner release the id holds the old and the new address |
| IpamRuns.GrantIsHeld | pkg/ipam/ipam.go:60-86 | an address that RequireIP returns is held by the asker |
| IpamRuns.RequireIsSticky | pkg/ipam/ipam.go:70-76 | over every run RequireIP(name, "") returns the same address until that name is released or asks for another |
| IpamRuns.StrandedIsReturnedNext | pkg/ipam/backend/etcd/backend.go:58-66 | an address written by a call that reports an error is what the next RequireIP(name, "") returns |
| IpamRuns.InitCovers | pkg/ipam/ipam.go:53-57 | after Init every holder is a cache key |
| IpamRuns.CoversExactly | pkg/ipam/ipam.go:60-100 | whatever fails and however many addresses an id holds, a call keeps every holder a cache key exactly when it neither strands an address (an id neither holding nor cached reaches a free address, and the write's answer or the cursor write fails) nor releases one of two |
| IpamRuns.RunCoversExactly | pkg/ipam/ipam.go:60-110 | over every run, whatever fails, the cache covers the store throughout exactly when no call does either |
| IpamRuns.InitThenRunCovers | pkg/ipam/ipam.go:36-100 | the same from Init on |
| IpamRuns.CalmNeverUncovers | pkg/ipam/ipam.go:60-100 | runs without store errors do neither, failed explicit requests included |
| IpamRuns.ReleaseOfOneUncovers | pkg/ipam/ipam.go:88-99 | for an id with two addresses one release drops the cache key while the other stays held |
| IpamRuns.StrandedEscapesCache | pkg/ipam/ipam.go:78-85 | for an id that holds nothing and is not cached, a failed cursor write leaves a holder the cache does not know |
| IpamRuns.RingIsFair | pkg/ipam/backend/allocator/allocator.go:175-201 | between two grants of one address by the search every other address of the range was held at some moment |
| Records.GetLAddrGroupName | pkg/conf/conf.go:189-197 | returns a group containing the address, none exactly when no group does, and the only one when groups are disjoint |
| Records.AmbiguousExactly | pkg/conf/conf.go:189-197 | some address has two possible groups exactly when two groups overlap |
| Records.Validate | pkg/lbm/types.go:202-258 | in any map order, an accepted record has a valid head, valid servers all inside one group, and filled weights; with disjoint groups such records are exactly the accepted ones |
| Records.ValidatedExactly | pkg/lbm/types.go:202-296 | field by field: which records are accepted (protocol and check pairs, algorithm and limits, positive monitor values, port, VIP, servers in one group), and that only weights change, from 0 to 100 |
| Records.ValidatedIsValid | pkg/lbm/types.go:202-258 | validation is idempotent |
| Records.AcceptedServersShareBlock | pkg/lbm/types.go:237-257 | an accepted record's servers all lie in the block whose group is written for the first server, and in no other |
| Records.PrintParseNormalizes | pkg/lbm/types.go:171-200 | printing and parsing over the defaults gives the normal form, which is stable and valid |
| Records.UnmarshalReads | pkg/lbm/types.go:171-192 | a stored value gives each field it has, and the default of a new record for each it lacks |
| Records.MarshalPrints | pkg/lbm/types.go:194-200 | a printed record omits zero fields and an empty server list, and nothing else |
| Records.CompletedReadsBack | pkg/lbm/lvs.go:85-102 | a completed record reads back as its normal form exactly when its port is in range, and is refused otherwise |
| Records.NormRendersSame | pkg/lbm/tmpl.go:17-18 | the round trip changes the file exactly for records with servers under an HTTP monitor with status code 0 |
| Records.SameFileSameEffect | pkg/lbm/tmpl.go:3-63 | two records give the same file exactly when their settings after defaults and the used monitor fields agree |
| Records.FileShows | pkg/lbm/tmpl.go:3-63 | slot by slot: address, port, interval, defaults of algorithm and kind, protocol, options when set, group when named, and each server's address, port, weight and check |
| Records.LAddrShows | pkg/lbm/lvs.go:160-162 | the group slot is a group that contains the first server, and absent without servers or group |
| Records.FileReadsBack | pkg/lbm/tmpl.go:3-63 | a record read back from a file has the same effect and renders to the same file |
| Reconciler.LVSImpl.Parse | pkg/lbm/lvs.go:48-63 | a record only for bytes that unmarshal over the defaults and validate |
| Reconciler.AcceptExactly | pkg/lbm/lbm.go:100-112 | a record is taken from a snapshot exactly when its value parses to it, it is of this cluster, and its key ends in its name |
| Reconciler.LVSImpl.Render | pkg/lbm/lbm.go:51-88 | writes only when the content differs; reports a change exactly when the file changed |
| Reconciler.RenderReports | pkg/lbm/lbm.go:51-88 | a change is reported exactly when the disk changed, then only in this file; without faults the file has the content |
| Reconciler.LVSImpl.RenderTemplate | pkg/lbm/lvs.go:154-167 | renders with the group of the first server |
| Reconciler.LVSImpl.AllocVIP | pkg/lbm/lvs.go:69-104 | asks for the address, completes the shared record, writes back exactly when VIP or port changed; no rollback on failure |
| Reconciler.CompletedExactly | pkg/lbm/lvs.go:85-93 | completion sets the address, and for an IPv4 address a port that was zero to the port base plus the last octet |
| Reconciler.FailedWriteBackKeepsAddress | pkg/lbm/lvs.go:79-103 | when the write-back fails the grant stays in Elem and in the address store, the stored record stays as it was and no file is rendered |
| Reconciler.LVSImpl.ConfigService | pkg/lbm/lvs.go:118-132 | leader allocates, follower requires VIP and port, then the file is rendered |
| Reconciler.FollowerConfigExactly | pkg/lbm/lvs.go:106-132 | a follower leaves a record without VIP or port alone and, without file faults, writes every other one out |
| Reconciler.LVSImpl.DeleteService | pkg/lbm/lvs.go:134-152 | leader releases the id, the file is removed, a change is reported exactly when it was |
| Reconciler.LVSImpl.HandlerAddOrUpdate | pkg/lbm/lbm.go:98-131 | absorbs the snapshot, then configures what was new or different, in order |
| Reconciler.LVSImpl.TakeGone | pkg/lbm/lbm.go:133-148 | drops exactly the entries whose key left the snapshot and returns their names, in any map order |
| Reconciler.LVSImpl.HandlerDelete | pkg/lbm/lbm.go:133-156 | the delete pass releases and removes for those names, with one result for every order |
| Reconciler.LVSImpl.HandlerEvent | pkg/lbm/lbm.go:158-166 | add pass, delete pass, then a reload request exactly when a file changed |
| Reconciler.LVSImpl.Recover | pkg/lbm/lvs.go:169-181 | a stub entry for every cached id with the prefix |
| Reconciler.StubReads | pkg/lbm/lvs.go:173-176 | a stub is what a stored value with only that name and the cluster reads as |
| Reconciler.LVSImpl.Run | pkg/lbm/lbm.go:217-226 | a role change recovers first and then takes the role |
| Reconciler.PurgeAdds | pkg/lbm/lbm.go:149-155 | deleting services one after another is deleting the set of them |
| Steps.AbsorbIsUnion | pkg/lbm/lbm.go:98-122 | the first loop is Elem overlaid with the accepted records |
| Steps.AbsorbCollects | pkg/lbm/lbm.go:114-120 | it collects exactly the accepted keys that are new or differ, each once |
| Steps.ConfigAllFrame | pkg/lbm/lbm.go:124-130 | the second loop touches only entries, files, addresses and records of the collected keys |
| Steps.ConfigAllWrites | pkg/lbm/lvs.go:95-102 | one event writes each record back at most once |
| Steps.EventRefinesMap | pkg/lbm/lbm.go:98-166 | the new Elem is a one-line map of old Elem and snapshot; only a leader completes VIP and port |
| Steps.EventIsUnordered | pkg/lbm/lbm.go:98-166 | snapshot order decides neither the keys nor the records before completion |
| Steps.DeletePassSparesKept | pkg/lbm/lbm.go:133-156 | the delete pass leaves file, address and cache entry of every kept record |
| Steps.DeleteExactly | pkg/lbm/lbm.go:133-156 | name by name: which entries, files, addresses and cache keys the delete pass removes, and that it reports a change exactly when a file went |
| Takeover.StripExactly | pkg/lbm/lvs.go:174 | removing every stick gives the name back exactly when the name does not contain it |
| Takeover.RecoverCoversExactly | pkg/lbm/lvs.go:169-181 | after Recover every held id has an entry exactly when each was cached or already known |
| Takeover.InitThenRecoverCovers | pkg/lbm/lvs.go:169-181 | a covering cache is enough |
| Takeover.DeleteLeaksExactly | pkg/lbm/lvs.go:134-140 | the delete pass frees every address whose record left, and keeps every held id known, exactly when no release fails for a held id whose record left |
| Takeover.EventLeaksExactly | pkg/lbm/lbm.go:158-166 | the same for a whole event, told from the store before it |
| Takeover.NoLeakAfterTakeover | pkg/lbm/lvs.go:134-181 | after Recover and after each of any leader events every held id has an entry exactly when each id was cached or known at the takeover and no event meets such a release; then each such address is free |
| Takeover.FailedReleaseLeaks | pkg/lbm/lvs.go:134-140 | one such release leaves the address held with no entry to retry from |
| Takeover.TakeoverReconfiguresExactly | pkg/lbm/lvs.go:169-181 | after Recover a cached record is configured again exactly when it does not parse to its stub |
| Takeover.BareRecordIsPassedOver | pkg/lbm/lbm.go:114-117 | a record with name and cluster only parses to its stub, and the first event after the takeover collects nothing |
| Takeover.StandbyKnows | pkg/lbm/lbm.go:98-166 | a standby knows exactly the keys some snapshot brought and none dropped since; its cache stays as started |
| Takeover.StandbyTakesOver | pkg/ipam/ipam.go:53-57 | the held ids a recovering standby does not know are exactly those that got their address after its start and whose key its snapshots did not keep |
| Takeover.StandbyMisses | pkg/lbm/lvs.go:169-181 | a record that came and went while its address stayed held is missed at the takeover |
| DiskVips.RequireOutcome | pkg/ipam/ipam.go:70-82 | a good ask fails only when a search finds the range full; a bad ask fails and leaves the id without address |
| DiskVips.ConfigOwnsExactly | pkg/lbm/lvs.go:118-132 | one configuration keeps each file's VIP held by its own id exactly when the ask is good or there is no file |
| DiskVips.BadAskSharesVIP | pkg/lbm/lvs.go:69-104 | a record that asks for an address of another id gives its own away and keeps its file; the next record that asks for it gets it, and two files share a VIP |
| DiskVips.EventOwns | pkg/lbm/lbm.go:158-166 | an event with good asks keeps every file owned |
| DiskVips.FilesNeverShareVIP | pkg/lbm/lvs.go:69-167 | over leader runs with good asks and no errors no two files share a VIP |
| Convergence.WrittenReadsBack | pkg/lbm/lvs.go:85-102 | the record allocVIP writes is accepted again exactly when its port is in range |
| Convergence.OverflowIsRefused | pkg/lbm/lvs.go:86-92 | with port base 65500 and address 10.0.0.200 the completed record has port 65700 and is refused by the next read |
| Convergence.AllocSettles | pkg/lbm/lvs.go:69-104 | after configuring a record from a recent snapshot, reading its key again writes nothing; what the snapshot showed from before its write-back stays stored as it is |
| Convergence.EventWritesExactly | pkg/lbm/lvs.go:69-104 | an event writes back exactly the collected records whose ask is grantable when their turn comes and which need an address, its printed form, or a port, in the order of collection |
| Convergence.StaleWritesAgain | pkg/lbm/lvs.go:95-102 | a stale snapshot of a record without address is written back again, over whatever the store holds by then |
| Convergence.EventStabilizes | pkg/lbm/lbm.go:158-166 | an event on a snapshot whose values are current or from before a write-back settles every record and writes each at most once |
| Convergence.ListedIsRecent | pkg/lbm/lbm.go:192-204 | a snapshot listed while an event runs shows each record before or after its write-back |
| Convergence.RecentEventKeepsStore | pkg/lbm/lbm.go:158-166 | on a settled store an event on such a snapshot changes no stored record and no held address |
| Convergence.StableEventIsReadOnly | pkg/lbm/lbm.go:158-166 | on a settled store an event on a current snapshot writes no record and allocates nothing |
| Convergence.QuietEventDoesNothing | pkg/lbm/lbm.go:114-117 | every later event leaves the whole state and asks for no reload |
| Convergence.WriteBackConverges | pkg/lbm/lvs.go:69-132 | from any leader state, each snapshot listed at any moments while the event before it runs: at most one write for each record, then an event that changes no stored value and no held address, then a read-only one, then nothing |
| Agreement.HeldAfterErrorExactly | pkg/ipam/ipam.go:60-82 | when RequireIP reports an error its id holds the address asked for exactly when it was not looked up and held it, or the answer to its reservation got lost |
| Agreement.ConfigRendersExactly | pkg/lbm/lvs.go:118-132 | a configuration leaves its record without the file it is due exactly when it misses: the file cannot be read or written, or a leader's allocation or write-back fails for a record that is due all the same |
| Agreement.EventFilesExactly | pkg/lbm/lbm.go:158-166 | whatever fails, an event keeps every due record on disk exactly when no collected record is missed at its turn, for both roles |
| Agreement.FollowerFilesExactly | pkg/lbm/lbm.go:158-166 | for a follower: exactly when each collected record with VIP and port is on disk already or can be read and written |
| Agreement.RunFilesExactly | pkg/lbm/lbm.go:158-166 | the same over every run, after each event |
| Agreement.CalmEventNeverMisses | pkg/lbm/lbm.go:158-166 | an event without errors misses nothing |
| Agreement.FailedWriteIsNeverRetried | pkg/lbm/lbm.go:114-120 | after one failed write the same snapshot, now without errors, changes nothing and the file stays missing |
| Agreement.TakeoverKeepsFiles | pkg/lbm/lvs.go:169-181 | becoming leader and recovering keeps the files |
| Agreement.FileAfterExactly | pkg/lbm/lbm.go:98-131 | after an error-free event a due file is right exactly when its record was news or the file was right before |
| Agreement.LeaderFollowerAgree | pkg/lbm/lvs.go:106-167 | whatever snapshots and failures each saw, after a final snapshot leader and follower hold the rendering of every record exactly when neither had a wrong file for a record it knew; so in particular when no event of either missed a file |
| Agreement.PortZeroSplits | pkg/lbm/lvs.go:86-92 | a record with an IPv6 address gets no port; the leader renders it and the follower refuses it |
| Agreement.QuietAgreement | pkg/lbm/lvs.go:106-132 | once the leader is quiet, a follower agrees on the granted records with a port and never writes the others |
| Agreement.LoopEndsInAgreement | pkg/lbm/lvs.go:69-167 | end to end: the loop ends and leader and follower hold the same file for every granted record with a port |
| ReloadProtocol.AddTasksWrite | pkg/lbm/lbm.go:124-130 | the add pass does one file operation for each collected key, in order: the file of that service with its record as the pass leaves it, or none; a follower skips exactly incomplete records |
| ReloadProtocol.DeletePassIsTasks | pkg/lbm/lbm.go:149-155 | removing the names one after another, in any order, is the delete pass |
| ReloadProtocol.EventIsTasks | pkg/lbm/lbm.go:98-166 | an event is those writes and then a removal for each name that left, in any order, with needReload set exactly when one changed a file |
| ReloadProtocol.StepKeepsInv | pkg/keepalived/keepalived.go:65-85 | each step of either thread keeps the invariant |
| ReloadProtocol.ReloadIsNeverLost | pkg/keepalived/keepalived.go:39-85 | in every interleaving the files are loaded, or the flag is set, or the handler is about to set it; at rest with a clear flag they are loaded; no HUP without a request |
| ReloadProtocol.OneRoundCatchesUp | pkg/keepalived/keepalived.go:65-85 | one undisturbed round with a successful HUP loads the files and clears the flag |
| Election.Register.AtomicPut | pkg/kvstore/kvstore.go:107-109 | writes the given bytes, only over the previous pair or only when absent, and returns a pair only on success |
| Election.ETCDLock.Get | pkg/leader/etcdlock.go:26-44 | keeps what it read, even when the bytes are no record |
| Election.ETCDLock.Create | pkg/leader/etcdlock.go:46-54 | succeeds only when the key is absent and keeps the written pair |
| Election.ETCDLock.Update | pkg/leader/etcdlock.go:56-67 | refused without a pair, else a compare-and-swap on it; a failure drops the pair |
| Election.AppliedWriteStores | pkg/leader/etcdlock.go:46-67 | when a create or update is applied, and that it then leaves the written bytes under a new version |
| Election.GetReportsLastWrite | pkg/leader/etcdlock.go:26-67 | over every run a Get that goes through reports the holder of the last applied write |
| Election.WritesFormOneChain | pkg/leader/etcdlock.go:46-67 | for any clients and interleaving the applied writes form one chain of growing versions |
| Election.NoTwoWritesFromOneVersion | pkg/leader/etcdlock.go:56-67 | no two writes succeed from the same version |
| Election.UpdateSucceedsExactly | pkg/leader/etcdlock.go:56-67 | over every interleaving, an update is applied exactly when nobody's write was applied since its client's last call and the store takes it, and stands on that call's version |
| Election.KeptIsLastSeen | pkg/leader/etcdlock.go:19-24 | what a client builds on is what its own last call read or wrote |
| Election.LoserCannotUpdate | pkg/leader/etcdlock.go:56-60 | a client without a pair cannot update until it reads the key or creates it |
| Election.FailedWriteBarsUpdates | pkg/leader/etcdlock.go:52-66 | after a write its client saw fail, no update of that client changes anything until it reads the key or creates it |
| Election.GetStillUpdatesExactly | pkg/leader/etcdlock.go:26-44 | after a Get the client can update exactly when the read went through and found the key; of the Gets that report an error, exactly when they could not decode it |

## Left out

- Allocator.IPAllocator.Get: the gateway branch is not modelled; the gateway is nil in every call of this repository. In a range out of order the walk is modelled where it meets a free address before the addresses of its length run out; beyond that the code can walk for ever.
- Allocator.IPAllocator.constructor: builds the range without configured bounds, which nothing in the repository sets; Ranges.NewIPAllocator has them.
- Ipam.IPAM.RequireIP: asks for a range in order; Allocator.IPAllocator.Get covers the other ranges.
- Allocator.Store.List: the order of address entries is left open; etcd sorts them. Entries that are no printed addresses are excluded by `Pool.Valid`, because only Reserve writes the directory.
- Reconciler.LVSImpl.AllocVIP: records are values keyed in Elem, so writing `elem[key]` stands for changing the object shared with Elem. With a key twice in one snapshot, which etcd never lists, the aliasing would differ. The contract needs one address for each id and inner releases that succeed; Ipam and IpamRuns cover the other runs.
- Reconciler.LVSImpl.ConfigService: needs inner releases that succeed, as AllocVIP does, and disjoint address groups, as RenderTemplate does.
- Reconciler.LVSImpl.HandlerAddOrUpdate: needs inner releases that succeed, as AllocVIP does, and disjoint address groups, as RenderTemplate does.
- Reconciler.LVSImpl.DeleteService: needs one address for each id, as AllocVIP does; with two, one call gives back only one of them.
- Reconciler.LVSImpl.HandlerDelete: needs one address for each id, as AllocVIP does.
- Reconciler.LVSImpl.RenderTemplate: needs disjoint address groups, which the code does not check; with overlapping groups the group it writes depends on the map order (Records.AmbiguousExactly).
- Steps.EventRefinesMap: here, and in every result about events (Takeover, DiskVips, Convergence, Agreement), the group of an address is one fixed choice. With disjoint groups it is the only one; with overlapping groups the code can choose differently at each read, which is not modelled.
- Reconciler.LVSImpl.HandlerEvent: needs inner releases that succeed, as AllocVIP does, and disjoint address groups, as RenderTemplate does. A release or a write-back by the handler that fails is one that was not applied; answers lost after the write are modelled inside RequireIP only.
- Takeover.NoLeakAfterTakeover: names contain no `l4-`, because Recover removes every occurrence.
- Convergence.WriteBackConverges: nobody else changes records between its four snapshots, and the store operations of the first three events succeed; files may fail.
- DiskVips.FilesNeverShareVIP: good asks are an assumption on the run; ConfigOwnsExactly says what a bad one does.
- ReloadProtocol.ReloadIsNeverLost: a successful HUP is taken to load the files at that moment, and a failed write to leave its file as it was.
- Election.WritesFormOneChain: the key is never deleted and carries no time limit, as in this code; the elector of client-go is not part of this model.
- Two simultaneous leaders: the store's lock does nothing, so allocation assumes one writer.
- Text: spelling of addresses, JSON text and template text are not characters here; the file is the slots of the template.
- The watch, Run and Change goroutines, leases, sleeps and process start-up; only Recover, a role, then events.
- The l7 (nginx) implementation, statistics, shell and deployment scripts.
- The limits in the LVS options: a valid algorithm returns before they are checked, so no bound is claimed.
