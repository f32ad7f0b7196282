# Virtual-memory simulator: address-translation core

A Dafny model of the engine behind a teaching simulator of paged virtual
memory. Each request carries a 32-bit virtual address. The address is split
10/10/12 into a directory index, a table index and a byte offset, following
"32-Bit Paging", Intel SDM Vol. 3A section 4.3.

Serving a request goes like this:

- The manager probes a 16-entry TLB. The TLB is an access-ordered LRU map, so
  a hit also promotes the entry.
- On a miss it walks the page directory and the page table to the entry.
- A valid entry is a page-table hit, which refreshes the TLB.
- An invalid entry is a page fault. The fault loads the page into the lowest
  free frame of 32. If every frame is occupied, the configured policy (FIFO,
  LRU or Optimal) picks a victim frame. The entry named by the victim page's
  id is invalidated and dropped from the TLB, and the request is loaded in
  its place.
- A write marks the resolved entry dirty.

The manager counts requests and faults. It records how the last request was
served and what the last eviction was. Loading a new trace resets all of this
state.

Modules:

- `AddressCodec`: the address layout.
- `Pages`: page-table entries and frames.
- `PageTables` and `PageDirectories`: the two levels of tables.
- `Tlb`: the TLB.
- `Replacement`: the three policies.
- `MemoryManagement`: the manager.

The state is modelled as follows:

- **Manager.** The manager is a class, and its counters and diagnostics are
  fields.
- **Directory and tables.** The directory owns 1024 tables, and each table
  owns an array of 1024 entries.
- **Ghost map.** A ghost map `ptes` from (directory, table) coordinates to
  entries mirrors the arrays. Invariants and contracts are stated over that
  map.
- **Entries.** An entry is a value. Its Java setters become record updates
  written back into the slot that holds it.
- **Frames.** A frame holds the coordinate of the entry it shares with the
  page table. So a policy reading through a frame sees the entry's current
  fields, as it does through the shared Java object.
- **Wall clock.** `LocalDateTime.now()` becomes a logical clock that ticks
  once per request.

The model keeps several behaviours of the code exactly as written:

- **Page ids.** A page's id is its table index, not its VPN. The victim entry
  that an eviction invalidates is the one at directory `id >>> 10` (always 0)
  and table `id & 0x3FF`. The VPN it removes from the TLB is `id`.
  `VictimCoord` states this, and the eviction contracts use it.
- **FIFO queue.** A reset leaves the FIFO queue as it is.
- **Dirty bits.** An eviction never clears a dirty bit; only a reset does.
- **TLB-hit stamp.** A TLB hit stamps the page held by the frame the TLB
  names.

## Model

| member | source | states |
|---|---|---|
| AddressCodec.Offset | src/main/java/ro/tuc/virtualmemorysimulator/BusinessLogic/MemoryManager.java:276-278 | the offset is below the page size 4096 |
| AddressCodec.DirectoryIndex | src/main/java/ro/tuc/virtualmemorysimulator/BusinessLogic/MemoryManager.java:268-270 | the directory index names the 4 MiB region that holds the address, and equals the high ten bits of its VPN |
| AddressCodec.TableIndex | src/main/java/ro/tuc/virtualmemorysimulator/BusinessLogic/MemoryManager.java:272-274 | the table index names the 4 KiB page that holds the address inside its 4 MiB region |
| AddressCodec.ComputeVpn | src/main/java/ro/tuc/virtualmemorysimulator/BusinessLogic/MemoryManager.java:258-262 | the VPN is the address divided by 4096, a 20-bit value whose high ten bits are the directory index and whose low ten bits are the table index |
| AddressCodec.DivideTwice | src/main/java/ro/tuc/virtualmemorysimulator/BusinessLogic/MemoryManager.java:268-274 | shifting by 22 equals shifting by 12 and then by 10, and already fits ten bits, so the mask is harmless |
| AddressCodec.Reconstruct | src/main/java/ro/tuc/virtualmemorysimulator/BusinessLogic/MemoryManager.java:117-121 | directory, table and offset rebuild the unsigned address, and so do VPN and offset |
| Pages.NewPage | src/main/java/ro/tuc/virtualmemorysimulator/Model/Page.java:12-18 | a new entry has the given id and the current stamp, and is invalid, unmapped (frame -1) and clean |
| Pages.Cleared | src/main/java/ro/tuc/virtualmemorysimulator/Model/PageTable.java:39-47 | a reset entry is invalid, unmapped and clean, and keeps its id and stamp; resetting it again changes nothing |
| Pages.VpnCoord | src/main/java/ro/tuc/virtualmemorysimulator/BusinessLogic/MemoryManager.java:237-238 | the coordinate a VPN names recombines to that VPN |
| Pages.Frame.constructor | src/main/java/ro/tuc/virtualmemorysimulator/Model/Frame.java:7-10 | a new frame has the given id, holds no page and is free |
| Pages.Frame.SetCurrentPage | src/main/java/ro/tuc/virtualmemorysimulator/Model/Frame.java:20-26 | only the held page changes, the id being a constant; afterwards `isFree` holds exactly when the page set is null |
| PageTables.PageTable.constructor | src/main/java/ro/tuc/virtualmemorysimulator/Model/PageTable.java:9-14 | 1024 fresh entries, entry i being a new page with id i (the table index) |
| PageTables.PageTable.GetEntry | src/main/java/ro/tuc/virtualmemorysimulator/Model/PageTable.java:16-19 | the stored entry inside [0, 1024), None (the Java null) outside |
| PageTables.PageTable.SetEntry | src/main/java/ro/tuc/virtualmemorysimulator/Model/PageTable.java:21-24 | inside [0, 1024) only slot i is replaced; outside, the table is unchanged |
| PageTables.PageTable.HasAnyValidEntry | src/main/java/ro/tuc/virtualmemorysimulator/Model/PageTable.java:30-37 | true exactly when some entry is valid |
| PageTables.PageTable.Reset | src/main/java/ro/tuc/virtualmemorysimulator/Model/PageTable.java:39-47 | every entry becomes its cleared form, keeping id and stamp |
| PageDirectories.PageDirectory.constructor | src/main/java/ro/tuc/virtualmemorysimulator/Model/PageDirectory.java:9-14 | 1024 distinct tables with distinct entry arrays; every coordinate holds a new page whose id is its table index |
| PageDirectories.PageDirectory.Pte | src/main/java/ro/tuc/virtualmemorysimulator/Model/PageDirectory.java:16-20 | `getTable(dir).getEntry(tab)` is the entry the ghost map records at that coordinate |
| PageDirectories.PageDirectory.SetPte | src/main/java/ro/tuc/virtualmemorysimulator/Model/Page.java:28-54 | a setter on the shared entry changes that entry only, and the directory stays consistent with its map |
| PageDirectories.PageDirectory.GetTable | src/main/java/ro/tuc/virtualmemorysimulator/Model/PageDirectory.java:16-20 | the stored table inside [0, 1024), null outside |
| PageDirectories.PageDirectory.SetTable | src/main/java/ro/tuc/virtualmemorysimulator/Model/PageDirectory.java:22-26 | inside [0, 1024) only slot i is replaced; outside, nothing changes. The directory invariant is not claimed afterwards, since the new table is not mirrored in the entry map; the manager never calls it |
| Tlb.Find | src/main/java/ro/tuc/virtualmemorysimulator/Model/TLB.java:19-21 | absent exactly when no entry has the key; otherwise the returned frame is cached under the key |
| Tlb.FindEntry | src/main/java/ro/tuc/virtualmemorysimulator/Model/TLB.java:19-21 | in a map with distinct keys, any cached entry is what a lookup of its key returns |
| Tlb.Without | src/main/java/ro/tuc/virtualmemorysimulator/Model/TLB.java:31-33 | removal never grows the TLB |
| Tlb.WithoutMembers | src/main/java/ro/tuc/virtualmemorysimulator/Model/TLB.java:31-33 | removal keeps exactly the entries with other keys |
| Tlb.WithoutAbsent | src/main/java/ro/tuc/virtualmemorysimulator/Model/TLB.java:31-33 | removing an absent key is a no-op |
| Tlb.WithoutAt | src/main/java/ro/tuc/virtualmemorysimulator/Model/TLB.java:31-33 | removing a present key cuts out that one entry; the others keep their order |
| Tlb.WithoutDistinct | src/main/java/ro/tuc/virtualmemorysimulator/Model/TLB.java:31-33 | removal keeps the keys distinct |
| Tlb.TailDistinct | src/main/java/ro/tuc/virtualmemorysimulator/Model/TLB.java:11-16 | dropping the eldest entry leaves a map without its key |
| Tlb.AppendDistinct | src/main/java/ro/tuc/virtualmemorysimulator/Model/TLB.java:23-25 | appending an entry with a new key keeps the keys distinct |
| Tlb.ReplaceKey | src/main/java/ro/tuc/virtualmemorysimulator/Model/TLB.java:23-25 | overwrite-and-promote keeps keys distinct, and shrinks the rest by one exactly when the key was present |
| Tlb.Touch | src/main/java/ro/tuc/virtualmemorysimulator/Model/TLB.java:19-21 | a hit makes the key's own mapping the most recent entry, adds no entry, and keeps every entry with another key |
| Tlb.Put | src/main/java/ro/tuc/virtualmemorysimulator/Model/TLB.java:10-25 | the new mapping becomes the most recent entry, and the TLB never grows beyond 16 entries or beyond its size before the call, whichever is larger |
| Tlb.PutMembers | src/main/java/ro/tuc/virtualmemorysimulator/Model/TLB.java:23-25 | `put` adds no mapping of its own: every entry afterwards was there before or is the new mapping |
| Tlb.TouchMovesToEnd | src/main/java/ro/tuc/virtualmemorysimulator/Model/TLB.java:19-21 | a hit cuts the entry from its position and appends it, keeping keys distinct |
| Tlb.SameEntriesSameFind | src/main/java/ro/tuc/virtualmemorysimulator/Model/TLB.java:19-21 | two maps with the same entries in any order answer every lookup alike |
| Tlb.TouchKeepsMappings | src/main/java/ro/tuc/virtualmemorysimulator/Model/TLB.java:10-21 | a hit only reorders: same size, same entries, every lookup unchanged, and the hit key is now the most recent |
| Tlb.PutSpec | src/main/java/ro/tuc/virtualmemorysimulator/Model/TLB.java:23-25 | after `put`, keys stay distinct, size stays within 16, the new mapping is the newest entry and the lookup result, and no other entry appears |
| Tlb.PutEvictsEldest | src/main/java/ro/tuc/virtualmemorysimulator/Model/TLB.java:10-17 | an entry with another key is lost only if it was the eldest and a new key met a full TLB; in that case exactly the eldest goes |
| Tlb.PutAll | src/main/java/ro/tuc/virtualmemorysimulator/Model/TLB.java:23-25 | a run of puts holds only entries of the start state or of the run, never grows beyond 16 or the start size, and ends on the last mapping put |
| Tlb.WithoutSuffix | src/main/java/ro/tuc/virtualmemorysimulator/Model/TLB.java:31-33 | removing a key that is absent from the newest part leaves that part in place |
| Tlb.SuffixOfConcat | src/main/java/ro/tuc/virtualmemorysimulator/Model/TLB.java:23-25 | a proof step of `KeepsLastInserted`, not a model of `put`: the newest m elements of a concatenation come from its second part when that part is long enough |
| Tlb.PutKeepsSuffix | src/main/java/ro/tuc/virtualmemorysimulator/Model/TLB.java:23-25 | inserting a key absent from the newest part keeps that part, now followed by the new entry, at the newest end, up to 16 |
| Tlb.RemovalKeepsSuffix | src/main/java/ro/tuc/virtualmemorysimulator/Model/TLB.java:23-25 | a proof step of `PutKeepsSuffix`: before the eldest is dropped, `put` keeps a newest part that lacks the key and appends the new entry after it |
| Tlb.LastKeyIsNew | src/main/java/ro/tuc/virtualmemorysimulator/Model/TLB.java:23-25 | among inserts with distinct keys, the last key is not among the ones before it |
| Tlb.SuffixOfExtension | src/main/java/ro/tuc/virtualmemorysimulator/Model/TLB.java:23-25 | a proof step of `KeepsLastInserted`, not a model of `put`: a kept newest part extended by the last insert is a newest part of the whole insert sequence |
| Tlb.SuffixStep | src/main/java/ro/tuc/virtualmemorysimulator/Model/TLB.java:23-25 | one more insert of a new key lengthens the kept newest part by that entry |
| Tlb.InsertStep | src/main/java/ro/tuc/virtualmemorysimulator/Model/TLB.java:23-25 | one more insert of a new key keeps the TLB a map of at most 16 whose newest entries are the latest inserts |
| Tlb.KeepsLastInserted | src/main/java/ro/tuc/virtualmemorysimulator/Model/TLB.java:10-25 | after k inserts of distinct keys, the newest min(k, 16) entries are the last ones inserted, in order |
| Tlb.HoldsLastSixteen | src/main/java/ro/tuc/virtualmemorysimulator/Model/TLB.java:10-25 | after 16 or more inserts of distinct keys and no lookups, the TLB holds exactly the last 16, oldest first |
| Tlb.TLB.constructor | src/main/java/ro/tuc/virtualmemorysimulator/Model/TLB.java:10-17 | a new TLB is empty |
| Tlb.TLB.Lookup | src/main/java/ro/tuc/virtualmemorysimulator/Model/TLB.java:19-21 | returns the cached frame or None; a miss changes nothing, a hit promotes the entry; the TLB stays a map of at most 16 |
| Tlb.TLB.Update | src/main/java/ro/tuc/virtualmemorysimulator/Model/TLB.java:23-25 | the TLB becomes the `put` of the mapping and stays a map of at most 16 |
| Tlb.TLB.Clear | src/main/java/ro/tuc/virtualmemorysimulator/Model/TLB.java:27-29 | the TLB becomes empty |
| Tlb.TLB.Remove | src/main/java/ro/tuc/virtualmemorysimulator/Model/TLB.java:31-33 | the TLB loses the key's entry only and stays a map |
| Replacement.Rotate | src/main/java/ro/tuc/virtualmemorysimulator/BusinessLogic/FIFOAlgorithm.java:17-21 | the front element goes to the back; the rest moves forward in order; the length is kept |
| Replacement.RotateKeepsFrames | src/main/java/ro/tuc/virtualmemorysimulator/BusinessLogic/FIFOAlgorithm.java:18-19 | a rotation keeps the multiset of queued frames |
| Replacement.RotateNShape | src/main/java/ro/tuc/virtualmemorysimulator/BusinessLogic/FIFOAlgorithm.java:17-21 | k rotations, with k at most the queue length, move the first k frames behind the rest |
| Replacement.VictimsShape | src/main/java/ro/tuc/virtualmemorysimulator/BusinessLogic/FIFOAlgorithm.java:17-21 | k successive replacements return the first k queued frames, front to back |
| Replacement.FullCycle | src/main/java/ro/tuc/virtualmemorysimulator/BusinessLogic/FIFOAlgorithm.java:17-21 | \|q\| replacements return every queued frame once, in order, and restore the queue |
| Replacement.FifoQueue.constructor | src/main/java/ro/tuc/virtualmemorysimulator/BusinessLogic/FIFOAlgorithm.java:12-14 | the queue starts empty |
| Replacement.FifoQueue.ReplacePage | src/main/java/ro/tuc/virtualmemorysimulator/BusinessLogic/FIFOAlgorithm.java:17-21 | on a non-empty queue, the victim is the front, and the queue becomes its rotation |
| Replacement.FifoQueue.AddFrame | src/main/java/ro/tuc/virtualmemorysimulator/BusinessLogic/FIFOAlgorithm.java:24-26 | the frame is appended at the back and nothing else changes |
| Replacement.LruChoiceUnique | src/main/java/ro/tuc/virtualmemorysimulator/BusinessLogic/LRUAlgorithm.java:12-25 | the LRU selection rule (frame 0 if no stamp is before now; else the least stamp, lowest index on ties) names one frame |
| Replacement.LruScanChoice | src/main/java/ro/tuc/virtualmemorysimulator/BusinessLogic/LRUAlgorithm.java:16-23 | from any point of the scan that satisfies its invariant, the scan ends on the LRU choice |
| Replacement.LruPick | src/main/java/ro/tuc/virtualmemorysimulator/BusinessLogic/LRUAlgorithm.java:12-25 | the frame LRU evicts is the LRU choice: 0 if no occupied frame is older than now; otherwise an occupied frame with the least stamp, the lowest such index; always a frame index when frames exist |
| Replacement.LruReplace | src/main/java/ro/tuc/virtualmemorysimulator/BusinessLogic/LRUAlgorithm.java:12-25 | the loop returns the frame the strict-oldest scan specifies, and reads only |
| Replacement.NextUse | src/main/java/ro/tuc/virtualmemorysimulator/BusinessLogic/OptimalAlgorithm.java:19-28 | the first position strictly after `from` that references the id, or the trace length if there is none |
| Replacement.OptimalChoiceUnique | src/main/java/ro/tuc/virtualmemorysimulator/BusinessLogic/OptimalAlgorithm.java:10-35 | the Optimal selection rule names one frame |
| Replacement.OptimalScanChoice | src/main/java/ro/tuc/virtualmemorysimulator/BusinessLogic/OptimalAlgorithm.java:14-33 | from any point of the scan that satisfies its invariant, the scan ends on the Optimal choice |
| Replacement.OptimalPick | src/main/java/ro/tuc/virtualmemorysimulator/BusinessLogic/OptimalAlgorithm.java:10-35 | the frame Optimal evicts is the lowest frame never referenced again; else the frame referenced farthest ahead, the lowest index on ties; a frame index when frames exist |
| Replacement.OptimalReplace | src/main/java/ro/tuc/virtualmemorysimulator/BusinessLogic/OptimalAlgorithm.java:10-35 | the nested loops with break and early return compute the Optimal scan, reading only positions after the current index |
| Replacement.ReplacePage | src/main/java/ro/tuc/virtualmemorysimulator/BusinessLogic/MemoryManager.java:183 | dispatch by policy: FIFO rotates its queue and returns the front; LRU and Optimal return their picks and change nothing |
| MemoryManagement.WellFormedUpdate | src/main/java/ro/tuc/virtualmemorysimulator/BusinessLogic/MemoryManager.java:221-223 | writing an entry that is well formed keeps every entry well formed (id = table index, valid exactly when mapped, stamp not in the future) |
| MemoryManagement.WellFormedLater | src/main/java/ro/tuc/virtualmemorysimulator/BusinessLogic/MemoryManager.java:251-256 | entries well formed at one tick stay well formed at any later tick |
| MemoryManagement.VpnsPointwise | src/main/java/ro/tuc/virtualmemorysimulator/BusinessLogic/MemoryManager.java:55-59 | the VPN trace is as long as the address trace, and slot k is the 20-bit VPN of address k |
| MemoryManagement.VictimCoord | src/main/java/ro/tuc/virtualmemorysimulator/BusinessLogic/MemoryManager.java:235-238 | the entry reached from a victim id recombines to the id's low 20 bits; for a page id (below 1024) it is the entry at directory 0, table id |
| MemoryManagement.ClearedBelowStep | src/main/java/ro/tuc/virtualmemorysimulator/BusinessLogic/MemoryManager.java:293-298 | resetting table n after tables 0..n-1 leaves tables 0..n reset |
| MemoryManagement.WellFormedCleared | src/main/java/ro/tuc/virtualmemorysimulator/Model/PageTable.java:39-47 | resetting a table keeps every entry well formed |
| MemoryManagement.CoherentAfterTlbHit | src/main/java/ro/tuc/virtualmemorysimulator/BusinessLogic/MemoryManager.java:124-139 | if every TLB entry agrees with a valid page-table entry, it still does after a TLB hit (promotion, dirty bit, stamp) |
| MemoryManagement.CoherentAfterTableHit | src/main/java/ro/tuc/virtualmemorysimulator/BusinessLogic/MemoryManager.java:155-159 | the same agreement survives a page-table hit that caches the entry's frame |
| MemoryManagement.CoherentAfterLoad | src/main/java/ro/tuc/virtualmemorysimulator/BusinessLogic/MemoryManager.java:209-233 | the agreement survives a fault loading into a free frame |
| MemoryManagement.CoherentAfterEviction | src/main/java/ro/tuc/virtualmemorysimulator/BusinessLogic/MemoryManager.java:183-198 | the agreement survives an eviction: the entry invalidated and the VPN dropped from the TLB name the same page, whichever page the frame held |
| MemoryManagement.FaultRate | src/main/java/ro/tuc/virtualmemorysimulator/BusinessLogic/MemoryManager.java:79-86 | 0 with no requests; otherwise rate × requests = 100 × faults; within [0, 100] when faults ≤ requests |
| MemoryManagement.MemoryManager.FramePage | src/main/java/ro/tuc/virtualmemorysimulator/BusinessLogic/MemoryManager.java:186 | reading a frame's page gives none for an empty frame, otherwise the current entry it shares with the table |
| MemoryManagement.MemoryManager.constructor | src/main/java/ro/tuc/virtualmemorysimulator/BusinessLogic/MemoryManager.java:38-51 | 32 empty frames with ids 0..31, an empty TLB, fresh tables, zero counters, no diagnostics, and the invariant established; the directory, its entry arrays, the TLB and the frames are new objects owned by this manager; the empty TLB agrees with the table |
| MemoryManagement.MemoryManager.GetFaultRate | src/main/java/ro/tuc/virtualmemorysimulator/BusinessLogic/MemoryManager.java:79-86 | the fault rate of the counters, with the guarantees of FaultRate |
| MemoryManagement.MemoryManager.FindFreeFrame | src/main/java/ro/tuc/virtualmemorysimulator/BusinessLogic/MemoryManager.java:201-207 | the lowest empty frame, whose id is its index; -1 exactly when every frame is occupied |
| MemoryManagement.MemoryManager.UpdateLastUsedPage | src/main/java/ro/tuc/virtualmemorysimulator/BusinessLogic/MemoryManager.java:251-256 | only the entry held by the frame, if any, gets the current stamp |
| MemoryManagement.MemoryManager.InvalidateVictimMapping | src/main/java/ro/tuc/virtualmemorysimulator/BusinessLogic/MemoryManager.java:235-249 | a negative id changes nothing; otherwise the entry the id names becomes invalid with frame -1 (dirty bit and stamp kept), and the id is removed from the TLB |
| MemoryManagement.MemoryManager.MapEntry | src/main/java/ro/tuc/virtualmemorysimulator/BusinessLogic/MemoryManager.java:221-223 | the entry becomes valid, mapped to the frame and stamped now; no other entry changes |
| MemoryManagement.MemoryManager.CacheTranslation | src/main/java/ro/tuc/virtualmemorysimulator/BusinessLogic/MemoryManager.java:228 | the TLB gets the `put` of vpn → frame, and a lookup of vpn now yields the frame |
| MemoryManagement.MemoryManager.OccupyFrame | src/main/java/ro/tuc/virtualmemorysimulator/BusinessLogic/MemoryManager.java:225-232 | the frame holds the entry and no other frame changes; FIFO appends the frame on a load but not on an eviction |
| MemoryManagement.MemoryManager.LoadPageIntoFrame | src/main/java/ro/tuc/virtualmemorysimulator/BusinessLogic/MemoryManager.java:209-233 | the entry is valid, mapped and stamped, and nothing else in the table changes; the frame holds it; the TLB maps vpn → frame; FIFO queues the frame on a load only |
| MemoryManagement.MemoryManager.ChooseVictim | src/main/java/ro/tuc/virtualmemorysimulator/BusinessLogic/MemoryManager.java:183 | with every frame occupied, the victim is a frame index: the FIFO front (rotating the queue), the LRU choice at the current tick, or the Optimal choice after the current index |
| MemoryManagement.MemoryManager.ReplaceInFrame | src/main/java/ro/tuc/virtualmemorysimulator/BusinessLogic/MemoryManager.java:195-198 | first the victim mapping is dropped from the table and the TLB, then the request is loaded into the frame; the FIFO queue is kept |
| MemoryManagement.MemoryManager.EvictInto | src/main/java/ro/tuc/virtualmemorysimulator/BusinessLogic/MemoryManager.java:183-198 | the policy's frame, the victim id (the table index of the page it held), the victim unmapping and the new mapping, all in terms of the state before the call |
| MemoryManagement.MemoryManager.ServeFault | src/main/java/ro/tuc/virtualmemorysimulator/BusinessLogic/MemoryManager.java:177-198 | with a free frame: the lowest one is used, no victim, FIFO appends it; with none: the policy's victim, unmapped, then reloaded; in both cases the whole new table and TLB are given |
| MemoryManagement.MemoryManager.RecordFault | src/main/java/ro/tuc/virtualmemorysimulator/BusinessLogic/MemoryManager.java:173-193 | the fault is counted; the evicted frame and victim id are recorded on an eviction and null on a load |
| MemoryManagement.MemoryManager.HandlePageFault | src/main/java/ro/tuc/virtualmemorysimulator/BusinessLogic/MemoryManager.java:172-199 | one more fault; the request's entry is valid, mapped to f and stamped now; only frame f changes, and it holds the entry; the TLB maps vpn → f. With a free frame: f is the lowest free frame, FIFO appends it, and the diagnostics are null. With none: every frame was occupied; f is the policy's choice (the FIFO front, with the queue rotated; the LRU pick at the current tick; the Optimal pick after the current index); the diagnostics record f and the victim id, the table index of the page f held. Given a TLB that agrees with the table, an entry that is invalid and a VPN naming it, every cached VPN still names a valid entry mapped to the cached frame afterwards |
| MemoryManagement.MemoryManager.MarkDirty | src/main/java/ro/tuc/virtualmemorysimulator/BusinessLogic/MemoryManager.java:167-169 | a write sets the entry's dirty bit, a read changes nothing; the bit is never cleared |
| MemoryManagement.MemoryManager.ProbeTlb | src/main/java/ro/tuc/virtualmemorysimulator/BusinessLogic/MemoryManager.java:124 | the lookup result; a hit is a real frame and promotes the entry, a miss leaves the TLB alone |
| MemoryManagement.MemoryManager.ServeTlbHit | src/main/java/ro/tuc/virtualmemorysimulator/BusinessLogic/MemoryManager.java:125-139 | the request's entry is dirtied on a write; the page held by the frame the TLB named is stamped; nothing else changes |
| MemoryManagement.MemoryManager.ServeTableHit | src/main/java/ro/tuc/virtualmemorysimulator/BusinessLogic/MemoryManager.java:155-159 | the TLB caches the entry's own frame, the page in that frame is stamped, and the entry is dirtied on a write |
| MemoryManagement.MemoryManager.BeginRequest | src/main/java/ro/tuc/virtualmemorysimulator/BusinessLogic/MemoryManager.java:114-115 | one more request, one tick later, classified; the other counters and diagnostics are kept |
| MemoryManagement.MemoryManager.TlbHitRequest | src/main/java/ro/tuc/virtualmemorysimulator/BusinessLogic/MemoryManager.java:124-139 | a TLB-hit request: counted and classified as a TLB hit, one tick later; the entry is dirtied on a write and the page in the named frame is stamped; frames, FIFO queue, fault count and diagnostics are kept |
| MemoryManagement.MemoryManager.TableHitRequest | src/main/java/ro/tuc/virtualmemorysimulator/BusinessLogic/MemoryManager.java:155-159 | a page-table-hit request: counted and classified; the TLB gets the `put` of the entry's own frame; that page is stamped and dirtied on a write; frames, FIFO queue, fault count and diagnostics are kept |
| MemoryManagement.MemoryManager.FaultRequest | src/main/java/ro/tuc/virtualmemorysimulator/BusinessLogic/MemoryManager.java:161-169 | a faulting request: counted as a request and a fault; the entry is loaded valid, stamped and dirtied on a write; only frame f changes; the free-frame and eviction cases carry the frame choice and diagnostics of HandlePageFault. Given a TLB that agrees with the table, an invalid entry and a VPN naming it, every cached VPN still names a valid entry mapped to the cached frame afterwards |
| MemoryManagement.MemoryManager.ProcessVirtualAddress | src/main/java/ro/tuc/virtualmemorysimulator/BusinessLogic/MemoryManager.java:113-170 | one more request, with exactly one classification: TLB hit iff the VPN was cached, fault iff it was not and the entry was invalid. Only a fault counts a fault, changes a frame, the FIFO queue or the eviction record. A write dirties the entry on every path. Both hit paths give the new TLB. After a fault the entry is valid, stamped, held by its frame and cached; only that frame changed; it was the lowest free frame or, with every frame occupied, the policy's choice, with the matching diagnostics. The invariant is kept. Given a TLB that agrees with the table, every cached VPN still names a valid entry mapped to the cached frame afterwards |
| MemoryManagement.MemoryManager.ResetStats | src/main/java/ro/tuc/virtualmemorysimulator/BusinessLogic/MemoryManager.java:281-287 | counters are zero and every diagnostic is null; the clock and traces are kept |
| MemoryManagement.MemoryManager.ClearTlb | src/main/java/ro/tuc/virtualmemorysimulator/BusinessLogic/MemoryManager.java:283 | the TLB is empty |
| MemoryManagement.MemoryManager.ClearFrames | src/main/java/ro/tuc/virtualmemorysimulator/BusinessLogic/MemoryManager.java:289-291 | every frame is free |
| MemoryManagement.MemoryManager.ResetTable | src/main/java/ro/tuc/virtualmemorysimulator/BusinessLogic/MemoryManager.java:294-297 | the entries of that table are cleared and all others are kept |
| MemoryManagement.MemoryManager.ResetTables | src/main/java/ro/tuc/virtualmemorysimulator/BusinessLogic/MemoryManager.java:293-298 | every entry of every table is cleared, keeping id and stamp |
| MemoryManagement.MemoryManager.ResetStatsAndStateForNewRun | src/main/java/ro/tuc/virtualmemorysimulator/BusinessLogic/MemoryManager.java:280-299 | zero counters, empty TLB, null diagnostics, free frames, every entry invalid/-1/clean with its stamp kept; the FIFO queue, clock and traces are kept; the emptied TLB agrees with the table |
| MemoryManagement.MemoryManager.ComputeVpnTrace | src/main/java/ro/tuc/virtualmemorysimulator/BusinessLogic/MemoryManager.java:55-59 | the VPN trace lines up with the addresses, slot by slot |
| MemoryManagement.MemoryManager.SetAddressTrace | src/main/java/ro/tuc/virtualmemorysimulator/BusinessLogic/MemoryManager.java:53-61 | the new address trace and its VPN trace are stored, followed by the full reset, after which the TLB agrees with the table |
| MemoryManagement.MemoryManager.Step | src/main/java/ro/tuc/virtualmemorysimulator/BusinessLogic/MemoryManager.java:63-69 | true exactly for an index inside the trace. Outside it no state changes: manager fields, TLB, table, frames and FIFO queue. Inside it the request is the address at that index, with every guarantee of ProcessVirtualAddress stated for that address and with the index as the Optimal position. Given a TLB that agrees with the table, every cached VPN still names a valid entry mapped to the cached frame afterwards |
| MemoryManagement.MemoryManager.ClearLastEvictedFrame | src/main/java/ro/tuc/virtualmemorysimulator/BusinessLogic/MemoryManager.java:108-111 | the evicted frame and victim id become null; nothing else changes |
| MemoryManagement.MemoryManager.ClearLastAccessType | src/main/java/ro/tuc/virtualmemorysimulator/BusinessLogic/MemoryManager.java:313-315 | the access type becomes null; nothing else changes |

## Left out

- **User interface and launcher.** The JavaFX user interface (`SimulatorController`) and the launcher (`App`) are not part of this model. That includes random trace generation, trace parsing, and the preview lookup the interface makes.
- **The `Algorithm` interface.** It has no behaviour. It is the `Policy` datatype, and the `instanceof FIFOAlgorithm` test becomes the `Fifo?` discriminator.
- **Getters and constants.** Trivial getters and constant getters are not modelled: `getName`, `getAlgorithmName`, `getNumFrames`, `getMaxEntries`, `size()`, `getLastAccessType`, `computeVpnPublic` and the Page/Frame getters. The constants themselves are `ENTRIES` (1024), `MAX_ENTRIES` (16) and `NUM_FRAMES` (32). A table's and the directory's fixed size of 1024 is part of `Valid`/`Shape`.
- **Wall clock.** `LocalDateTime.now()` is replaced by a logical clock that advances once per request. So LRU's "now" is the current tick, and every stamp written during a request is that tick.
- **Fault rate.** `getFaultRate` is stated over `real`, not IEEE `double`.
- **Integer widths.** `totalRequests` and `totalFaults` are unbounded naturals; Java `int` overflow after 2^31 requests is not modelled. A Java `int` address is taken as its unsigned 32-bit value, on which `>>>` and the masks are divisions and remainders.
- **Dead branches.** Every table is allocated in the constructor and no code replaces one. So the null-table and null-entry branches of `processVirtualAddress`, `loadPageIntoFrame` and `invalidateVictimMapping` are never taken, and are not modelled. For the same reason, `setTable` is modelled but never called by the manager.
- **Unreachable branch in `handlePageFault`.** The `victimPage == null` branch (victim id -1) cannot happen: a victim is sought only when every frame is occupied. `InvalidateVictimMapping` still handles a negative id as the code does.
- **Page objects.** Page objects are values plus a coordinate, not heap objects. A frame refers to its entry by (directory, table) position, which is the only aliasing the code creates.
- **Resetting `lastAccessType` to null at request start.** This write is not a separate state. It is overwritten before the request returns, so the model sets the final classification once.
- **ProcessVirtualAddress contract.** It states the counters, the classification, the request's own entry, the TLB on the hit paths, the frames, the FIFO queue and the frame choice with its diagnostics. It does not give the whole new page table. That table, for each path, is stated on `ServeTlbHit`, `ServeTableHit` and `ServeFault` (with `MarkDirty`). `Step` inherits the same limit.
- **HandlePageFault contract.** It states the loaded entry, the frames, the FIFO queue, the TLB mapping, the frame choice and the diagnostics, but not the whole table. `ServeFault` states the whole table and TLB for both the load and the eviction.
- **Frame/entry agreement.** "The page a frame holds is valid and mapped to that frame" is not claimed, because the code does not keep it. An eviction invalidates the entry at directory 0 with the victim's table index, not the victim's own entry. So outside directory 0 the evicted page stays valid and still names the reused frame.
- **FIFO queue across resets.** The queue is not reset on a new trace, as in the code, so after a reset it can hold duplicate frame indices. No property assumes it is duplicate-free; only that it names real frames and covers every occupied frame.
