/** The slot snapshot, VM info query and descriptor operations of the older
    prototype (vmtools.c at the repository root). Its snapshot scans the
    fixed array of `KvmMemSlotsNum` slots, stops once the caller's capacity
    is reached, and fails when it meets a live slot after the VM's own
    `used_slots` count has been exceeded. Mapping is not implemented there:
    its map-info request and its mmap handler always fail. */
module LegacyVm {
  import opened Kernel
  import opened Locks
  import opened Abi
  import opened Memslots
  import opened VmInfoQuery

  /** The instance as the prototype sees it: the slot array and its
      `used_slots` count. */
  datatype LegacyKvm = LegacyKvm(userspacePid: int, memslots: seq<KvmSlot>, usedSlots: int)

  /** The prototype reports every slot with a nonzero page count; it does
      not know the "unmapped" sentinel. */
  predicate HasPages(s: KvmSlot) {
    s.npages != 0
  }

  /** The slots with pages, converted, in array order. */
  function PagedMemslots(s: seq<KvmSlot>): (r: seq<Memslot>)
    ensures |r| <= |s|
    decreases |s|
  {
    if |s| == 0 then []
    else
      var last := s[|s| - 1];
      PagedMemslots(s[..|s| - 1]) + (if HasPages(last) then [ToMemslot(last)] else [])
  }

  /** One more slot of the scan adds its record exactly when it has
      pages. */
  lemma PagedSnoc(w: seq<KvmSlot>, i: nat)
    requires i < |w|
    ensures PagedMemslots(w[..i + 1]) == PagedMemslots(w[..i]) + (if HasPages(w[i]) then [ToMemslot(w[i])] else [])
  {
    assert w[..i + 1][..i] == w[..i];
  }

  lemma {:induction false} PagedPrefix(s: seq<KvmSlot>, n: nat)
    requires n <= |s|
    ensures |PagedMemslots(s[..n])| <= |PagedMemslots(s)|
    ensures PagedMemslots(s[..n]) == PagedMemslots(s)[..|PagedMemslots(s[..n])|]
    decreases |s| - n
  {
    if n < |s| {
      PagedPrefix(s, n + 1);
      assert s[..n + 1][..n] == s[..n];
    } else {
      assert s[..n] == s;
    }
  }

  /** The part of the storage the scan may visit: at most `KvmMemSlotsNum`
      entries. */
  function Window(s: seq<KvmSlot>): (w: seq<KvmSlot>)
    ensures |w| <= KvmMemSlotsNum && |w| <= |s| && w == s[..|w|]
  {
    s[..Min(|s|, KvmMemSlotsNum)]
  }

  /** How many records an unchecked scan would emit: the slots with pages in
      the window, cut at the capacity. */
  function EmitCount(vm: LegacyKvm, maxSlots: int): nat {
    Min(|PagedMemslots(Window(vm.memslots))|, if maxSlots < 0 then 0 else maxSlots)
  }

  /** A scan that met a slot with pages at index `i` while below capacity
      would emit at least one record more than it had before. */
  lemma EmitCountBeyond(vm: LegacyKvm, maxSlots: int, i: nat)
    requires i < |Window(vm.memslots)| && HasPages(Window(vm.memslots)[i])
    requires |PagedMemslots(Window(vm.memslots)[..i])| < maxSlots
    ensures EmitCount(vm, maxSlots) >= |PagedMemslots(Window(vm.memslots)[..i])| + 1
  {
    var w := Window(vm.memslots);
    PagedPrefix(w, i + 1);
    assert w[..i + 1][..i] == w[..i];
  }

  /** A scan that stopped at index `i`, at the end of the window or at the
      capacity, has emitted exactly `EmitCount` records, the first ones in
      array order. */
  lemma EmitCountAtStop(vm: LegacyKvm, maxSlots: int, i: nat)
    requires i <= |Window(vm.memslots)|
    requires |PagedMemslots(Window(vm.memslots)[..i])| <= (if maxSlots < 0 then 0 else maxSlots)
    requires i == |Window(vm.memslots)| || |PagedMemslots(Window(vm.memslots)[..i])| >= maxSlots
    ensures EmitCount(vm, maxSlots) == |PagedMemslots(Window(vm.memslots)[..i])|
    ensures PagedMemslots(Window(vm.memslots)[..i])
         == PagedMemslots(Window(vm.memslots))[..EmitCount(vm, maxSlots)]
  {
    var w := Window(vm.memslots);
    PagedPrefix(w, i);
    if i == |w| {
      assert w[..i] == w;
    }
  }

  /** When the per-slot overflow check fires. The check compares the count
      already emitted with `used_slots` each time a slot with pages is met;
      the count only grows, so the check fires exactly when the last
      emission would start above `used_slots`. */
  predicate Overflows(vm: LegacyKvm, maxSlots: int) {
    EmitCount(vm, maxSlots) > 0 && EmitCount(vm, maxSlots) - 1 > vm.usedSlots
  }

  /** Legacy `get_sorted_memslots`. */
  method GetSortedMemslots(vm: LegacyKvm, maxSlots: int) returns (ret: int, out: seq<Memslot>)
    ensures ret == -1 <==> Overflows(vm, maxSlots)
    ensures ret != -1 ==> ret == |out| == EmitCount(vm, maxSlots)
    ensures ret != -1 ==> |out| <= KvmMemSlotsNum && (maxSlots >= 0 ==> |out| <= maxSlots)
    ensures ret != -1 ==> |out| == 0 || |out| - 1 <= vm.usedSlots
    ensures ret != -1 ==> SortedByBase(out)
    ensures ret != -1 ==> multiset(out) == multiset(PagedMemslots(Window(vm.memslots))[..ret])
    ensures ret != -1 ==> Scan(vm, maxSlots) == Some(out)
  {
    var w := Window(vm.memslots);
    var buf: seq<Memslot> := [];
    var i := 0;
    while i < KvmMemSlotsNum && i < |vm.memslots| && |buf| < maxSlots
      invariant 0 <= i <= |w|
      invariant buf == PagedMemslots(w[..i])
      invariant |buf| <= (if maxSlots < 0 then 0 else maxSlots)
      invariant |buf| == 0 || |buf| - 1 <= vm.usedSlots
    {
      assert w[i] == vm.memslots[i];
      PagedSnoc(w, i);
      if HasPages(vm.memslots[i]) {
        if |buf| > vm.usedSlots {
          EmitCountBeyond(vm, maxSlots, i);
          return -1, [];
        }
        buf := buf + [ToMemslot(vm.memslots[i])];
      }
      i := i + 1;
    }
    EmitCountAtStop(vm, maxSlots, i);
    ret := |buf|;
    out := SortByBase(buf);
  }

  /** The scan with the bound the overflow check evidently means: no more
      records than `used_slots`. */
  method GetSortedMemslotsFixed(vm: LegacyKvm, maxSlots: int) returns (ret: int, out: seq<Memslot>)
    ensures ret != -1 ==> ret == |out| <= |PagedMemslots(Window(vm.memslots))| && |out| <= KvmMemSlotsNum
    ensures ret != -1 ==> |out| == 0 || |out| <= vm.usedSlots
    ensures ret != -1 ==> SortedByBase(out)
    ensures ret != -1 ==> multiset(out) == multiset(PagedMemslots(Window(vm.memslots))[..ret])
    ensures ret == -1 <==> EmitCount(vm, maxSlots) > 0 && EmitCount(vm, maxSlots) > vm.usedSlots
    ensures ret != -1 ==> ret == EmitCount(vm, maxSlots)
  {
    var w := Window(vm.memslots);
    var buf: seq<Memslot> := [];
    var i := 0;
    while i < KvmMemSlotsNum && i < |vm.memslots| && |buf| < maxSlots
      invariant 0 <= i <= |w|
      invariant buf == PagedMemslots(w[..i])
      invariant |buf| <= (if maxSlots < 0 then 0 else maxSlots)
      invariant |buf| == 0 || |buf| <= vm.usedSlots
    {
      assert w[i] == vm.memslots[i];
      PagedSnoc(w, i);
      if HasPages(vm.memslots[i]) {
        if |buf| >= vm.usedSlots {
          EmitCountBeyond(vm, maxSlots, i);
          return -1, [];
        }
        buf := buf + [ToMemslot(vm.memslots[i])];
      }
      i := i + 1;
    }
    EmitCountAtStop(vm, maxSlots, i);
    ret := |buf|;
    out := SortByBase(buf);
  }

  /** With `used_slots` = 1 and two slots with pages, the check as written
      lets both through, one more than the VM accounts for. */
  lemma OverflowCheckAdmitsOneExtra()
    ensures
      var vm := LegacyKvm(7, [KvmSlot(0, 1, 0x1000), KvmSlot(1, 1, 0x2000)], 1);
      !Overflows(vm, 10) && EmitCount(vm, 10) == 2 > vm.usedSlots
  {
    var s := [KvmSlot(0, 1, 0x1000), KvmSlot(1, 1, 0x2000)];
    assert Window(s) == s;
    assert s[..1] == [KvmSlot(0, 1, 0x1000)];
  }

  /** The snapshot as the prototype's query uses it: the first
      `EmitCount` slots with pages, sorted; the scan loop above computes
      the same value. */
  function Scan(vm: LegacyKvm, maxSlots: int): (r: Option<seq<Memslot>>)
    ensures r.None? <==> Overflows(vm, maxSlots)
    ensures r.Some? ==> |r.value| == EmitCount(vm, maxSlots) && SortedByBase(r.value)
    ensures r.Some? ==> multiset(r.value) == multiset(PagedMemslots(Window(vm.memslots))[..EmitCount(vm, maxSlots)])
  {
    if Overflows(vm, maxSlots) then None
    else Some(SortByBase(PagedMemslots(Window(vm.memslots))[..EmitCount(vm, maxSlots)]))
  }

  /** Legacy `get_vm_info`: no zero check and no clamp; the buffer holds the
      caller's full count, so the capacity-bounded scan always fits, and a
      count of zero fails because `vmalloc(0)` does. The caller's count is
      passed to the scan as a signed `int`. The slot array is copied out
      without a count test, but a copy of zero bytes cannot fail. */
  function GetVmInfo(vm: LegacyKvm, requested: u32, allocOk: bool, io: UserCopies): (r: InfoReply)
    ensures !r.InfoOverrun?
    ensures Paired(r.locks)
    ensures !io.copyInOk ==> r == InfoFailed([])
    ensures requested == 0 ==> r.InfoFailed?
    ensures io.copyInOk && allocOk && requested != 0 && Overflows(vm, U32ToInt(requested)) ==> r.InfoFailed?
    ensures r.InfoOk? ==>
      && r.info.userspacePid == vm.userspacePid
      && r.info.slotCount == |r.slots| <= requested
      && |r.slots| <= KvmMemSlotsNum
      && SortedByBase(r.slots)
      && |r.slots| == EmitCount(vm, U32ToInt(requested))
      && multiset(r.slots) == multiset(PagedMemslots(Window(vm.memslots))[..EmitCount(vm, U32ToInt(requested))])
    ensures r.InfoOk? <==>
      (&& io.copyInOk && allocOk && requested != 0 && !Overflows(vm, U32ToInt(requested))
       && io.copyInfoOk && (EmitCount(vm, U32ToInt(requested)) == 0 || io.copySlotsOk))
  {
    assert VmallocSucceeds(MemslotBytes * requested, allocOk) <==> requested != 0 && allocOk;
    if !io.copyInOk then InfoFailed([])
    else if !VmallocSucceeds(MemslotBytes * requested, allocOk) then InfoFailed(VmLocksNested)
    else
      var scan := Scan(vm, U32ToInt(requested));
      if scan.None? then InfoFailed(VmLocksNested)
      else if !io.copyInfoOk || (|scan.value| != 0 && !io.copySlotsOk) then InfoFailed(VmLocksNested)
      else InfoOk(VmInfo(vm.userspacePid, |scan.value|), scan.value, VmLocksNested)
  }

  /** Legacy `get_vm_map_info`: mapping is not implemented, so the request
      fails whether or not the instance is marked as mapped. */
  function GetVmMapInfo(): (r: int)
    ensures r == -1
  {
    -1
  }

  /** Legacy `memflow_vm_mmap`: mapping the descriptor is refused. */
  function Mmap(): (r: int)
    ensures r == -1
  {
    -1
  }

  /** Legacy `memflow_vm_ioctl`: only the info request can succeed. */
  function Ioctl(vm: LegacyKvm, cmd: IoctlCmd, requested: u32, allocOk: bool, io: UserCopies): (r: int)
    ensures cmd != MemflowVmInfo ==> r == -1
    ensures cmd == MemflowVmInfo ==> r == GetVmInfo(vm, requested, allocOk, io).Ret()
    ensures r == 0 ==> cmd == MemflowVmInfo && GetVmInfo(vm, requested, allocOk, io).InfoOk?
  {
    match cmd
    case MemflowVmInfo => GetVmInfo(vm, requested, allocOk, io).Ret()
    case MemflowVmMapInfo => GetVmMapInfo()
    case _ => -1
  }
}
