# memflow-kvm kernel module: a Dafny model

This project models the kernel side of memflow-kvm, the Linux module that
lets a memflow process read a KVM guest's memory. The model covers both
variants of the module:

- the current module, `memflow-kmod/vmtools.c`;
- the older prototype, `vmtools.c` at the repository root;
- the record types and ioctl contracts of `mabi.h`.

**What the model covers:**

- **VM handles.** `open_vm` walks the hypervisor's VM list. It takes and
  gives back a reference on every instance it passes over. It hands the
  first instance whose monitor pid matches (pid 0 matches any instance) to
  `open_kvm`. That function turns the reference into a descriptor, or gives
  it back when no descriptor can be made. Closing the descriptor drops the
  reference. The VM list is a sequence of (pid, reference count) pairs.
- **Slot snapshot.** `get_sorted_memslots` keeps the memory slots whose page
  count is neither 0 nor all-ones. It converts page numbers to byte
  addresses and sorts the records by guest base. The prototype's version
  scans a fixed array, stops at the caller's capacity, and fails on an
  overflow check.
- **VM info query.** `MEMFLOW_VM_INFO` clamps the caller's count and takes
  the snapshot under both VM locks. Locks are modelled as traces of
  acquire/release operations, replayed to check pairing.
- **Remap engine.** `MEMFLOW_MAP_VM` runs in four steps:
  1. `do_map_vm` validates the target process, takes the snapshot, and
     takes the target's mmap lock.
  2. `find_unique_vmas` collects one record per backing area, deduplicated
     by start address.
  3. `remap_vmas` maps each area into the caller and translates the slots'
     host addresses. When a mapping fails, it compacts the area's slots away
     and swap-removes the record.
  4. On success the descriptor is installed. Resource ownership (data,
     reserved descriptor, file) is a trace as well.

`find_vma` is modelled on an ordered list of areas: it returns the first
area that ends above the address. `mmap_vma` is modelled over the outcomes
of its allocation, its file creation and its `vm_mmap` call; the remap
engine sees it as an oracle from areas to returned addresses, and an error
is a value in the top 4095 of the 64-bit range.
Process lookup, user copies, the allocator, and descriptor and file creation
are boolean or integer parameters. All 64-bit arithmetic wraps explicitly.

The model follows the code as written; in particular:

- A zero count makes both queries fail (`memflow-kmod/vmtools.c:152-153`,
  `:486-487`).
- A VM without live slots makes `MEMFLOW_MAP_VM` fail, exactly as when
  every region fails to map (`MapVm.EmptyVmNotMapped`,
  `MapVm.EmptyLikeAllFailed`).
- The map request takes the target's mmap lock while both VM locks are
  held, then drops the VM locks in acquisition order (`:497-512`).
- The snapshot is not bounded by the caller's count (see Findings).
- `vmalloc(0)` is taken to return NULL (`Kernel.VmallocSucceeds`), so a
  zero-byte buffer fails the query that asks for it
  (`VmInfoQuery.NoSlotsNoInfo`).

Each gap the code leaves is modelled as written and shown with a witness.
Next to it is a corrected definition with the intended property proved; the
corrected ioctl dispatch (`MapVm.IoctlFixed`) uses these corrected
definitions.

## Model

| member | source | states |
|---|---|---|
| Kernel.Add64 | memflow-kmod/vmtools.c:400 | slot translation adds modulo 2^64: exact below 2^64, wrapped above |
| Kernel.Sub64 | memflow-kmod/vmtools.c:395 | the offset `retaddr - start` wraps modulo 2^64 and adding it back to the start gives the returned address |
| Kernel.GfnToGpa | memflow-kmod/vmtools.c:118-120 | the page-to-byte shift yields a page-aligned value, equal to pages × 4096 when no bit is shifted out |
| Kernel.U32ToInt | vmtools.c:146 | the caller's 32-bit count passed as a signed int is unchanged below 2^31, and above that it is the negative value x - 2^32 |
| Kernel.ErrValueIsNegatedErrno | memflow-kmod/vmtools.c:391-392 | an address counts as an error exactly when it is a negated errno between 1 and 4095, taken modulo 2^64 |
| Locks.Replay | memflow-kmod/vmtools.c:149-150 | replaying a valid trace leaves a lock held exactly when its start state plus acquisitions minus releases is 1 |
| Abi.MemslotCompare | memflow-kmod/vmtools.c:98-107 | the comparison is negative, zero or positive exactly when the left guest base is below, equal to or above the right |
| Abi.CompareAntisymmetric | vmtools.c:86-95 | swapping the arguments negates the comparison, as the kernel sort requires |
| Abi.SortByBase | memflow-kmod/vmtools.c:125 | the sorted table is a permutation of the input, non-decreasing under the comparison |
| Abi.SortSortedIsIdentity | memflow-kmod/vmtools.c:125 | a table already ordered by base is left unchanged |
| Abi.SortIdempotent | vmtools.c:119 | sorting a sorted snapshot again changes nothing |
| Memslots.ToMemslot | memflow-kmod/vmtools.c:117-121 | a live slot becomes {base = base_gfn << 12, host_base = userspace_addr, map_size = npages << 12} |
| Memslots.LiveMemslotsExactly | memflow-kmod/vmtools.c:115-123 | every slot with npages neither 0 nor all-ones is emitted, and every emitted record comes from such a slot |
| Memslots.AllLiveAllReported | memflow-kmod/vmtools.c:115-123 | when every slot is live, the snapshot has one record per slot |
| Memslots.GetSortedMemslots | memflow-kmod/vmtools.c:109-130 | the loop returns a count equal to the number of live slots and a sorted permutation of their records; the capacity argument has no effect |
| Memslots.GetSortedMemslotsBounded | memflow-kmod/vmtools.c:109-130 | corrected scan: it stops at the capacity and returns min(live, capacity) records, sorted, a permutation of the first live ones |
| VmInfoQuery.GetVmInfo | memflow-kmod/vmtools.c:132-190 | a failed copy-in takes no lock; a zero count fails; otherwise both locks are taken and released on every path; the query overruns its buffer exactly when live slots exceed the clamped count; on success the pid, a count not above the request and a sorted permutation of the live slots are reported |
| VmInfoQuery.OverrunNeedsSmallRequest | memflow-kmod/vmtools.c:161-170 | the buffer overrun needs a request below the number of live slots; room for every live slot is safe |
| VmInfoQuery.NoSlotsNoInfo | memflow-kmod/vmtools.c:152-168 | a VM with no memory slots gets no info, as written or corrected: the count is clamped to zero and a zero-byte `vmalloc` fails |
| VmInfoQuery.GetVmInfoFixed | memflow-kmod/vmtools.c:132-190 | with the scan bounded by the clamped count the query never overruns and keeps the lock pairing; it succeeds exactly when copy-in, a nonzero count, the allocation and the info copy work and the slot copy works or there is nothing to copy; on success it reports exactly min(request, live) sorted records, a permutation of the first live ones |
| VmInfoQuery.CapacityTwoOfFive | memflow-kmod/vmtools.c:161-170 | five live slots and a request for two: as written, five records are written into a two-record buffer; corrected, exactly two are returned |
| LegacyVm.GetSortedMemslots | vmtools.c:97-122 | the prototype's scan returns -1 exactly when the overflow check fires; otherwise at most 512 records, at most the capacity, at most used_slots + 1, sorted, a permutation of the first slots with pages, and equal to `Scan` |
| LegacyVm.GetSortedMemslotsFixed | vmtools.c:103-116 | with the check made strict, -1 is returned exactly when more than used_slots records are due; otherwise exactly the emit count of records, at most used_slots, sorted, a permutation of the first slots with pages |
| LegacyVm.OverflowCheckAdmitsOneExtra | vmtools.c:105-109 | used_slots = 1 with two slots with pages: the check lets both through |
| LegacyVm.Scan | vmtools.c:97-122 | the snapshot fails exactly on overflow, else yields the emit count of sorted records, a permutation of the first slots with pages in the window |
| LegacyVm.GetVmInfo | vmtools.c:124-166 | the prototype's query never overruns (its buffer holds the full request), always pairs its locks, fails on a zero count or an overflow, succeeds exactly when copy-in, a nonzero count, the allocation and the info copy work, nothing overflows, and the slot copy works or there is nothing to copy (a zero-byte copy cannot fail), and on success reports the pid, a count not above the request, and a sorted permutation of the first slots with pages (at most 512) |
| LegacyVm.GetVmMapInfo | vmtools.c:168-174 | the map-info request fails whether or not the VM is mapped |
| LegacyVm.Mmap | vmtools.c:188-191 | mapping the prototype's descriptor always fails with -1 |
| LegacyVm.Ioctl | vmtools.c:176-186 | only the info request can succeed; every other command returns -1 |
| LegacyHandle.OpenKvm | vmtools.c:28-54 | a failed allocation or descriptor returns -1 and gives back the reference with no record left; a descriptor keeps the reference and the record |
| LegacyHandle.OpenVm | vmtools.c:56-77 | the prototype's walk succeeds exactly when some instance matches and both allocation and descriptor succeed; the first match gains one reference, every other count is restored |
| LegacyHandle.Release | vmtools.c:79-84 | the prototype's close drops exactly one reference and frees no private record |
| LegacyHandle.ReleaseFixed | vmtools.c:79-84 | the corrected close drops one reference and frees the record |
| LegacyHandle.OpenCloseLeaksPrivate | vmtools.c:33-38 | open then close restores every reference count but leaves the record allocated; the corrected close does not |
| Registry.FirstMatch | mabi.h:50-58 | the lookup returns the first instance whose pid matches (pid 0 matches any), and none exactly when no instance matches |
| Registry.Put | memflow-kmod/vmtools.c:83 | putting a reference undoes getting one |
| Registry.PutAt | memflow-kmod/vmtools.c:93-94 | releasing a handle's reference decrements that instance's count only |
| KmodHandle.OpenKvm | memflow-kmod/vmtools.c:50-66 | a descriptor keeps the reference; a failure returns -1 and gives it back |
| KmodHandle.OpenVm | memflow-kmod/vmtools.c:68-89 | the walk succeeds exactly when some instance matches and a descriptor is made; the first match gains one reference, passed-over instances end unchanged, and nothing changes on failure |
| KmodHandle.Release | memflow-kmod/vmtools.c:91-96 | closing returns 0 and drops exactly one reference of that instance |
| AddressSpace.FindVmaIndex | memflow-kmod/vmtools.c:435 | the lookup finds the first area ending above the address, and NULL exactly when every area ends at or below it |
| AddressSpace.FindVma | memflow-kmod/vmtools.c:384 | the area found is the first in address order that ends above the address; NULL exactly when no area does |
| AddressSpace.FindVmaIsFirst | memflow-kmod/vmtools.c:384 | the area found sits at an index before which every area ends at or below the address |
| AddressSpace.FindVmaOfStart | memflow-kmod/vmtools.c:384 | in a sorted, disjoint address space, looking up an area's start finds that area |
| AddressSpace.FindVmaContains | memflow-kmod/vmtools.c:435-445 | the area found contains the address exactly when some area does |
| AddressSpace.MmapVma | memflow-kmod/vmtools.c:335-369 | a failed private allocation or file yields -1, an error value; otherwise `vm_mmap`'s result for the area's request is returned |
| SlotTable.OutsideExactly | memflow-kmod/vmtools.c:411-419 | removal keeps exactly the slots whose host address lies outside the area |
| SlotTable.OutsideSubMultiset | memflow-kmod/vmtools.c:411-419 | removal keeps a sub-multiset of the table |
| SlotTable.OutsideSubGuests | memflow-kmod/vmtools.c:411-419 | removal keeps a sub-multiset of the table's guest ranges |
| SlotTable.OutsideSorted | memflow-kmod/vmtools.c:411-419 | removal preserves relative order, so a table sorted by base stays sorted |
| SlotTable.ShiftLeft | memflow-kmod/vmtools.c:414-417 | the inner loop deletes exactly element o, moving the rest down one place |
| SlotTable.RemoveAt | memflow-kmod/vmtools.c:412-418 | one step of the backward walk extends the compacted suffix by slot o |
| SlotTable.RemoveSlotsInRange | memflow-kmod/vmtools.c:409-419 | the removal loop computes the ordered sub-table outside the area: the same membership, a sub-multiset, sortedness kept |
| SlotTable.ShiftInKeepsGuests | memflow-kmod/vmtools.c:397-402 | translation changes host addresses only: guest ranges, and so order by base, are kept |
| SlotTable.ShiftSlotsInRange | memflow-kmod/vmtools.c:397-402 | every slot inside the record's range moves by the offset modulo 2^64; every other slot is unchanged |
| SlotTable.SwapRemove | memflow-kmod/vmtools.c:421-423 | the last record takes the place of record i, the length drops by one and the multiset loses exactly record i |
| UniqueVmas.AddUnique | memflow-kmod/vmtools.c:437-445 | a record is appended only if no record has its start, so starts stay distinct |
| UniqueVmas.DedupFaults | memflow-kmod/vmtools.c:433-438 | the walk dereferences NULL exactly when some slot's lookup fails (unless failures are skipped) |
| UniqueVmas.DedupCovers | memflow-kmod/vmtools.c:433-449 | the collected starts are distinct, no more records than slots, and every found area's start is among them |
| UniqueVmas.DedupProvenance | memflow-kmod/vmtools.c:433-449 | every collected record is the lookup result of some slot |
| UniqueVmas.DedupWalk | memflow-kmod/vmtools.c:433-449 | the nested loop with its linear search computes the deduplicated walk |
| UniqueVmas.UniqueRegions | memflow-kmod/vmtools.c:427-450 | the deduplication as written faults exactly when some slot's lookup is NULL; otherwise the starts are distinct, there are no more records than slots, and every slot's area is represented |
| UniqueVmas.FindUniqueVmas | memflow-kmod/vmtools.c:427-450 | as written: faults exactly when some slot's lookup is NULL; otherwise distinct starts, no more records than slots, every slot's area represented, every record some slot's area |
| UniqueVmas.FindUniqueVmasChecked | memflow-kmod/vmtools.c:427-450 | with NULL and containment checks: never faults, distinct starts, and every record contains some slot's host address |
| UniqueVmas.NullLookupFaults | memflow-kmod/vmtools.c:435-438 | a slot above every area makes the walk as written dereference NULL |
| UniqueVmas.HoleRecordsForeignArea | memflow-kmod/vmtools.c:435-445 | a slot in a hole below an area gets that area recorded although the area does not contain it |
| Remap.StepCases | memflow-kmod/vmtools.c:384-392 | one step of the loop (`StepOf`): a record's area is gone exactly when every area ends at or below its start; otherwise the area is the first one ending above the start, and the step fails exactly when mapping it yields an error value |
| Remap.StepOfMmapVma | memflow-kmod/vmtools.c:335-369 | with areas mapped by `mmap_vma`, a record whose area gets no private record or no file fails; otherwise it fails exactly when `vm_mmap` returns an error for the area's request, and maps at the address `vm_mmap` returned |
| Remap.StepFacts | memflow-kmod/vmtools.c:382-423 | one iteration of the loop (`RemapFrom`) continues from a table that keeps the records already passed, has no more slots, adds no guest range and stays sorted |
| Remap.RemapKeepsPassed | memflow-kmod/vmtools.c:381-424 | the loop (`RemapFrom`) never revisits a record it has passed: the records before the index come out unchanged |
| Remap.RecordStartMisplaced | memflow-kmod/vmtools.c:404-405 | slots at the record's start land on the returned address, but the rewritten start equals it only when the old start was 0 |
| Remap.MovedNonEmpty | memflow-kmod/vmtools.c:381-424 | some rewritten record exists exactly when some region maps |
| Remap.SwapRemoveKeepsMoved | memflow-kmod/vmtools.c:421-423 | swap-removing a record that does not map, with its index revisited, loses no other record |
| Remap.RewriteKeepsMoved | memflow-kmod/vmtools.c:404-407 | a record that maps is rewritten in place and the walk moves on |
| Remap.RemapRecords | memflow-kmod/vmtools.c:381-424 | the records left are exactly the rewritten records of the regions that map, as a multiset |
| Remap.RemapSlotsShrink | memflow-kmod/vmtools.c:381-424 | the slot table never grows |
| Remap.RemapSlotsGuests | memflow-kmod/vmtools.c:381-424 | the slot table keeps no guest range it did not have |
| Remap.RemapSlotsSorted | memflow-kmod/vmtools.c:381-424 | the slot table stays sorted by guest base |
| Remap.RemapOne | memflow-kmod/vmtools.c:382-423 | one iteration shrinks the unvisited part of the record list and preserves the loop's final outcome |
| Remap.RemapVmas | memflow-kmod/vmtools.c:372-425 | the loop terminates with the state machine's table: counts never grow, the records are the rewritten mapped ones, some remain exactly when some region maps, guest ranges come from the input, sortedness kept |
| Remap.RemapOutcome | memflow-kmod/vmtools.c:372-425 | the same facts about the state-machine form of the loop |
| Remap.RemapKeepsMapped | memflow-kmod/vmtools.c:525-526 | the request's "no record left" test fires exactly when no region maps |
| Remap.RecordsFoundAgain | memflow-kmod/vmtools.c:384-387 | while the target's areas are unchanged, every collected record is found again, so the NULL branch is not taken |
| Remap.RecordStartWitness | memflow-kmod/vmtools.c:404 | area [0x1000, 0x3000) mapped at 0x7000: its slot moves to 0x7000 but the record becomes [0x8000, 0x9000) |
| Remap.DoubleShiftWitness | memflow-kmod/vmtools.c:397-401 | a slot translated into a later record's old range is translated a second time |
| Remap.NoVmaLeavesSlotUntranslated | memflow-kmod/vmtools.c:386-387 | a record whose area is gone is dropped while its slot stays untranslated |
| RemapFixed.OffsetNoWrap | memflow-kmod/vmtools.c:395-400 | when the new range fits below 2^64, the modular translation equals the plain one |
| RemapFixed.Relocated | memflow-kmod/vmtools.c:404-405 | a mapped record's new range starts at the returned address and keeps its length |
| RemapFixed.RelocatedAsRequested | memflow-kmod/vmtools.c:357-359 | a usable record spanning its area moves to the address `vm_mmap` returned for that area's request, with the length the request asked for |
| RemapFixed.MoveEntries | memflow-kmod/vmtools.c:397-402 | each untranslated slot in the region's old range is translated once; each slot stays untouched or translated by exactly one region |
| RemapFixed.MapOne | memflow-kmod/vmtools.c:381-407 | one corrected iteration keeps the translated-iff-covered and accounting invariants |
| RemapFixed.MapRegions | memflow-kmod/vmtools.c:381-424 | a slot is translated exactly when a usable region covers it, every mapped region is the relocation of an input record, and every usable record is mapped once |
| RemapFixed.KeptProvenance | memflow-kmod/vmtools.c:409-419 | each kept slot is a translated entry paired with its original |
| RemapFixed.KeptComplete | memflow-kmod/vmtools.c:409-419 | every translated slot is kept |
| RemapFixed.KeptSubMultiset | memflow-kmod/vmtools.c:409-419 | the kept originals are a sub-multiset of the table |
| RemapFixed.KeptSorted | memflow-kmod/vmtools.c:409-419 | keeping a subsequence of a sorted table keeps it sorted |
| RemapFixed.CollectMoved | memflow-kmod/vmtools.c:409-419 | the compaction keeps the translated slots with their originals, in table order |
| RemapFixed.RemapVmasFixed | memflow-kmod/vmtools.c:372-425 | every output slot comes from one input slot, keeps its guest range, and lies inside a mapped region's new range at its old offset; exactly the covered slots survive; every mapped region is a usable input record relocated; sortedness kept |
| MapVm.MapLocksFacts | memflow-kmod/vmtools.c:497-512 | up to the remap only the mmap lock stays held; the whole trace releases everything |
| MapVm.ResourceFacts | memflow-kmod/vmtools.c:541-553 | every failure path gives back the data, the reserved descriptor and the file it took; success leaves them to the installed descriptor |
| MapVm.DoMapVm | memflow-kmod/vmtools.c:452-554 | a bad target or failed allocation returns -1 before any lock or resource is taken; failures pair locks and give back the data, descriptor and file; the snapshot overruns the data's array exactly when live slots exceed its capacity; success returns the reserved descriptor |
| MapVm.MapVmCrashes | memflow-kmod/vmtools.c:515 | the request crashes exactly when it reaches the region walk and some slot's host address has no area at or above it |
| MapVm.MapVmReports | mabi.h:38-46 | after a successful map, slot_count is the number of mapped slots, sorted by base, guest ranges drawn from the live slots, with at least one region mapped |
| MapVm.SortedGuests | memflow-kmod/vmtools.c:125 | sorting keeps the guest ranges of the table |
| MapVm.EmptyVmNotMapped | memflow-kmod/vmtools.c:525-526 | a VM without live slots is never mapped; the request fails after unwinding |
| MapVm.EmptyLikeAllFailed | memflow-kmod/vmtools.c:523-526 | an empty VM and a VM whose every mapping fails give identical replies |
| MapVm.AllMapKeepsSlots | memflow-kmod/vmtools.c:397-402 | when every region maps, no slot is removed |
| MapVm.MapVmIgnoresCapacity | memflow-kmod/vmtools.c:486-506 | with every slot backed and every mapping working, the reply reports every live slot whatever count the caller gave |
| MapVm.BackedFound | memflow-kmod/vmtools.c:433-449 | when every slot lies in an area the walk does not fault and, for a non-empty snapshot, collects a record |
| MapVm.FoundAllMap | memflow-kmod/vmtools.c:384-392 | when no mapping fails every collected record maps |
| MapVm.DoMapVmFixed | memflow-kmod/vmtools.c:452-554 | the corrected request never crashes or overruns, pairs locks and resources, reports no more slots than requested, sorted, each inside a reported region, with guest ranges taken from the live slots; it succeeds only if some reported slot lies in an area that maps, and, in a well-formed address space with the file and both copies working, whenever one does |
| MapVm.MappedRelease | memflow-kmod/vmtools.c:568-572 | closing the mapped-VM descriptor frees the data and returns 0 |
| MapVm.CloseReleasesPublished | memflow-kmod/vmtools.c:568-572 | closing a successful request's descriptor gives back the descriptor, the file and, through the release handler, the data |
| MapVm.MapThenCloseBalanced | memflow-kmod/vmtools.c:535-572 | a successful map followed by the close of its descriptor leaves nothing outstanding |
| MapVm.Ioctl | memflow-kmod/vmtools.c:556-566 | the info request returns exactly `GetVmInfo`'s reply and the map request exactly `DoMapVm`'s; every other command, the prototype's map-info request included, fails |
| MapVm.IoctlFixed | memflow-kmod/vmtools.c:556-566 | the corrected dispatch never overruns or crashes, pairs locks, never reports more slots than requested, and answers the info request with `GetVmInfoFixed`'s reply |

## Left out

- Mappings a failed request leaves in the caller. When the reply copy fails (`memflow-kmod/vmtools.c:530-533`), `remap_vmas` has already created mappings in the caller through `vm_mmap`. The unwind at `:541-553` drops only the file, the descriptor and the data, and those mappings stay. The caller's address space is not modelled, so the resource traces cover only the data, the descriptor and the file.
- Page pinning and PFN remapping (`memflow_vm_mem_mmap`, `memflow_vm_mem_release`, `memflow_vm_mem_get_unmapped_area`) are kernel memory management. The mapping of an area is an oracle that returns an address or an error value.
- Concurrency. Locks are replayed as acquire/release traces for pairing only. Interleavings with other threads, the VM-list mutex held across `open_vm`, and what the mmap lock protects are not modelled.
- User copies, `vmalloc`, descriptor reservation, `anon_inode_getfile`/`getfd`, `fd_install` and `fput` are oracle flags or integers. The user buffers themselves are not modelled. So the prototype copying the slot array to the address of the struct's `slots` field (`vmtools.c:154`), rather than through it, is not represented.
- The `== -1` branch after the snapshot in `do_map_vm` (`memflow-kmod/vmtools.c:500-504`) is not modelled. The current `get_sorted_memslots` never returns -1, so that branch is dead.
- Overrun outcomes (`InfoOverrun`, `Overrun`) stop the model at the out-of-bounds write. Memory corruption has no defined result. A real kernel never has more live slots than `KVM_MEM_SLOTS_NUM`, so the `do_map_vm` array overrun cannot happen there; the model does not bound the slot storage.
- `KVM_MEM_SLOTS_NUM` is taken as 512 and `PAGE_SHIFT` as 12. The kernel-version branches are not modelled.
- Abi.SortByBase: the kernel's `sort` is a heapsort, modelled as an insertion sort. The contract fixes the result up to the order of slots with equal guest bases, which the kernel does not fix either.
- MapVm.DoMapVm: slot translations and record rewrites are stated in `Remap`. Its own contract does not repeat them.
- Module bootstrap (`main.c`, `memflow-kmod/main.c`, kallsyms resolution, the `MEMFLOW_OPEN_VM` device ioctl) is outside the core. So are the Rust crates and `umode_test.c`.
- The 32-bit counters (`slot_count`, `mapped_vma_count`) never approach 2^31 because they are bounded by the slot array. Their truncation is not modelled, apart from the prototype passing the caller's `__u32` count as an `int` (`Kernel.U32ToInt`).

## Findings

| source | as written | input that shows it | evidently intended | confidence | as-written member | corrected member |
|---|---|---|---|---|---|---|
| memflow-kmod/vmtools.c:161-170 | the snapshot writes every live slot into a buffer sized for the clamped count | five live slots, `slot_count` 2: five records written into a two-record buffer | stop the scan at the clamped count, as the prototype's scan does | not executed | VmInfoQuery.GetVmInfo, VmInfoQuery.CapacityTwoOfFive | VmInfoQuery.GetVmInfoFixed |
| memflow-kmod/vmtools.c:486-506 | the caller's count is tested for zero and clamped, then ignored by the snapshot | `slot_count` 1, two live backed slots, every mapping succeeds: `slot_count` 2 is reported and two records are copied to a one-record array | report at most the caller's count | not executed | MapVm.DoMapVm, MapVm.MapVmIgnoresCapacity | MapVm.DoMapVmFixed |
| memflow-kmod/vmtools.c:435-438 | the `find_vma` result is dereferenced without a NULL check | a slot at host address 0x9000, the target's only area [0x1000, 0x2000) | skip slots with no area | not executed | UniqueVmas.FindUniqueVmas, UniqueVmas.NullLookupFaults | UniqueVmas.FindUniqueVmasChecked |
| memflow-kmod/vmtools.c:435-445 | the area found is recorded without checking that it contains the slot's address | a slot at 0x1000, the only area [0x4000, 0x5000): that area is recorded | record only areas containing the address | not executed | UniqueVmas.UniqueRegions, UniqueVmas.HoleRecordsForeignArea | UniqueVmas.FindUniqueVmasChecked |
| memflow-kmod/vmtools.c:404 | the record's start has the returned address added to it, while its end is moved by the offset | area [0x1000, 0x3000) mapped at 0x7000: the slot moves to 0x7000, the record becomes [0x8000, 0x9000) | start += offset, so the record becomes [0x7000, 0x9000) | not executed | Remap.RemapVmas, Remap.RecordStartWitness | RemapFixed.RemapVmasFixed |
| memflow-kmod/vmtools.c:397-401 | a slot already translated can fall in a later record's old range and be translated again | areas at 0x1000 and 0x5000 mapped at 0x5000 and 0x9000: both slots end at 0x9000 | translate each slot once, by the area that held it | not executed | Remap.RemapVmas, Remap.DoubleShiftWitness | RemapFixed.RemapVmasFixed |
| memflow-kmod/vmtools.c:386-387 | a record whose area is gone is dropped but its slots stay, untranslated | the target has no area for record [0x9000, 0xA000): slot 0x9000 is reported as if mapped | drop the record's slots too | not executed; unreachable while the mmap lock is held (Remap.RecordsFoundAgain) | Remap.RemapVmas, Remap.NoVmaLeavesSlotUntranslated | RemapFixed.RemapVmasFixed |
| vmtools.c:106 | the overflow check fires only after `used_slots` + 1 records | `used_slots` 1, two slots with pages, capacity 10: two records emitted | at most `used_slots` records | not executed | LegacyVm.GetSortedMemslots, LegacyVm.OverflowCheckAdmitsOneExtra | LegacyVm.GetSortedMemslotsFixed |
| vmtools.c:79-84 | the private record allocated by `open_kvm` is never freed on close | any successful open followed by a close | free the record on close | not executed | LegacyHandle.Release, LegacyHandle.OpenCloseLeaksPrivate | LegacyHandle.ReleaseFixed |
