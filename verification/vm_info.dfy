/** The MEMFLOW_VM_INFO query of the current module (`get_vm_info` in
    memflow-kmod/vmtools.c). The caller's `slot_count` is the capacity of its
    slot buffer; the kernel buffer is sized by that count clamped to the
    number of memory slots, and the snapshot is taken under both VM locks.
    User copies and the allocator are oracle flags. */
module VmInfoQuery {
  import opened Kernel
  import opened Locks
  import opened Abi
  import opened Memslots

  /** The VM instance as the query sees it. */
  datatype KvmVm = KvmVm(userspacePid: int, memslots: seq<KvmSlot>)

  /** Whether each user copy succeeds: the struct in, the struct out, and
      the slot array out. */
  datatype UserCopies = UserCopies(copyInOk: bool, copyInfoOk: bool, copySlotsOk: bool)

  /** `sizeof(vm_memslot_t)`. */
  const MemslotBytes: nat := 24

  /** Outcome of a query. `InfoOverrun` is the case where the snapshot writes
      more records than the kernel buffer holds: memory corruption, whose
      return value the model does not predict. */
  datatype InfoReply =
    | InfoFailed(locks: seq<LockOp>)
    | InfoOk(info: VmInfo, slots: seq<Memslot>, locks: seq<LockOp>)
    | InfoOverrun(capacity: nat, written: nat, locks: seq<LockOp>)
  {
    /** The ioctl's return value where one is defined. */
    function Ret(): int
      requires !InfoOverrun?
    {
      if InfoOk? then 0 else -1
    }
  }

  /** The buffer size the query allocates, in records: the request clamped
      to the number of memory slots walked. */
  function ClampedCount(vm: KvmVm, requested: u32): nat {
    Min(requested, |vm.memslots|)
  }

  /** `get_vm_info` as written. */
  function GetVmInfo(vm: KvmVm, requested: u32, allocOk: bool, io: UserCopies): (r: InfoReply)
    ensures Paired(r.locks)
    ensures !io.copyInOk ==> r == InfoFailed([])
    ensures io.copyInOk ==> r.locks == VmLocksNested
    ensures io.copyInOk && requested == 0 ==> r.InfoFailed?
    ensures r.InfoOverrun? <==>
      && io.copyInOk && requested != 0
      && VmallocSucceeds(MemslotBytes * ClampedCount(vm, requested), allocOk)
      && LiveCount(vm.memslots) > ClampedCount(vm, requested)
    ensures r.InfoOverrun? ==> r.written == LiveCount(vm.memslots) > r.capacity == ClampedCount(vm, requested)
    ensures r.InfoOk? <==>
      && io.copyInOk && requested != 0
      && VmallocSucceeds(MemslotBytes * ClampedCount(vm, requested), allocOk)
      && LiveCount(vm.memslots) <= ClampedCount(vm, requested)
      && io.copyInfoOk && (LiveCount(vm.memslots) == 0 || io.copySlotsOk)
    ensures r.InfoOk? ==>
      && r.info.userspacePid == vm.userspacePid
      && r.info.slotCount == |r.slots| <= requested
      && SortedByBase(r.slots)
      && multiset(r.slots) == multiset(LiveMemslots(vm.memslots))
  {
    if !io.copyInOk then InfoFailed([])
    else if requested == 0 then InfoFailed(VmLocksNested)
    else
      var clamped := ClampedCount(vm, requested);
      if !VmallocSucceeds(MemslotBytes * clamped, allocOk) then InfoFailed(VmLocksNested)
      else
        var slots := Snapshot(vm.memslots);
        if |slots| > clamped then InfoOverrun(clamped, |slots|, VmLocksNested)
        else if !io.copyInfoOk then InfoFailed(VmLocksNested)
        else if |slots| != 0 && !io.copySlotsOk then InfoFailed(VmLocksNested)
        else InfoOk(VmInfo(vm.userspacePid, |slots|), slots, VmLocksNested)
  }

  /** A query only overruns its buffer when the caller asked for fewer
      slots than the VM has live ones: a caller that provides room for every
      live slot is safe. */
  lemma OverrunNeedsSmallRequest(vm: KvmVm, requested: u32, allocOk: bool, io: UserCopies)
    ensures GetVmInfo(vm, requested, allocOk, io).InfoOverrun? ==> requested < LiveCount(vm.memslots)
    ensures requested >= LiveCount(vm.memslots) ==> !GetVmInfo(vm, requested, allocOk, io).InfoOverrun?
  {
  }

  /** A VM without memory slots: the count is clamped to zero and
      `vmalloc(0)` returns NULL, so the query fails whatever the caller
      asked for, as written and corrected alike. */
  lemma NoSlotsNoInfo(vm: KvmVm, requested: u32, allocOk: bool, io: UserCopies)
    requires |vm.memslots| == 0
    ensures GetVmInfo(vm, requested, allocOk, io).InfoFailed?
    ensures GetVmInfoFixed(vm, requested, allocOk, io).InfoFailed?
  {
  }

  /** The query with the capacity honoured: the snapshot stops at the
      clamped count, as the older prototype's scan does. */
  function GetVmInfoFixed(vm: KvmVm, requested: u32, allocOk: bool, io: UserCopies): (r: InfoReply)
    ensures Paired(r.locks)
    ensures !r.InfoOverrun?
    ensures io.copyInOk && requested == 0 ==> r.InfoFailed?
    ensures r.InfoOk? ==>
      && r.info.userspacePid == vm.userspacePid
      && r.info.slotCount == |r.slots| == Min(requested, LiveCount(vm.memslots))
      && SortedByBase(r.slots)
      && multiset(r.slots) == multiset(LiveMemslots(vm.memslots)[..|r.slots|])
    ensures r.InfoOk? <==>
      && io.copyInOk && requested != 0
      && VmallocSucceeds(MemslotBytes * ClampedCount(vm, requested), allocOk)
      && io.copyInfoOk && (Min(requested, LiveCount(vm.memslots)) == 0 || io.copySlotsOk)
  {
    if !io.copyInOk then InfoFailed([])
    else if requested == 0 then InfoFailed(VmLocksNested)
    else
      var clamped := ClampedCount(vm, requested);
      if !VmallocSucceeds(MemslotBytes * clamped, allocOk) then InfoFailed(VmLocksNested)
      else
        var live := LiveMemslots(vm.memslots);
        var slots := SortByBase(live[..Min(|live|, clamped)]);
        if !io.copyInfoOk then InfoFailed(VmLocksNested)
        else if |slots| != 0 && !io.copySlotsOk then InfoFailed(VmLocksNested)
        else InfoOk(VmInfo(vm.userspacePid, |slots|), slots, VmLocksNested)
  }

  /** A VM with five live one-page slots, asked for two: the query as written
      writes five records into a two-record buffer; the corrected one returns
      exactly two. */
  lemma CapacityTwoOfFive()
    ensures
      var vm := KvmVm(42, [KvmSlot(1, 1, 0x10000), KvmSlot(2, 1, 0x20000), KvmSlot(3, 1, 0x30000),
                           KvmSlot(4, 1, 0x40000), KvmSlot(5, 1, 0x50000)]);
      var io := UserCopies(true, true, true);
      && GetVmInfo(vm, 2, true, io) == InfoOverrun(2, 5, VmLocksNested)
      && GetVmInfoFixed(vm, 2, true, io).InfoOk?
      && |GetVmInfoFixed(vm, 2, true, io).slots| == 2
  {
    var s := [KvmSlot(1, 1, 0x10000), KvmSlot(2, 1, 0x20000), KvmSlot(3, 1, 0x30000),
              KvmSlot(4, 1, 0x40000), KvmSlot(5, 1, 0x50000)];
    AllLiveAllReported(s);
  }
}
