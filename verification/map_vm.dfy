/** MEMFLOW_MAP_VM of the current module (`do_map_vm` in
    memflow-kmod/vmtools.c), its ioctl dispatch and the release of the
    mapped-VM descriptor. The request checks the target process, allocates
    the mapped-VM data, reads the caller's `vm_map_info_t`, reserves a
    descriptor, takes the slot snapshot under both VM locks, takes the
    target's mmap lock for writing before dropping the VM locks, collects
    the region records, wraps the data in a file, remaps, and on success
    installs the descriptor. Process lookup, user copies, the allocator,
    descriptor and file creation are oracle values; the mapping itself is
    the oracle of `AddressSpace`. */
module MapVm {
  import opened Kernel
  import opened Locks
  import opened Abi
  import opened Memslots
  import opened VmInfoQuery
  import opened AddressSpace
  import opened UniqueVmas
  import opened SlotTable
  import opened Remap
  import opened RemapFixed

  /** The target process as `do_map_vm` finds it: whether the VM's
      userspace pid names a task, whether that task is the caller, whether
      it has an address space, whether that address space is the caller's,
      and the areas of that address space. */
  datatype Target = Target(found: bool, isCaller: bool, hasMm: bool, sharesCallerMm: bool, mm: Mm)

  /** The target checks: another process, with an address space of its
      own. */
  predicate Acceptable(t: Target) {
    t.found && !t.isCaller && t.hasMm && !t.sharesCallerMm
  }

  /** The oracle outcomes of the request's kernel calls: the data
      allocation, the copy of the request in, the reserved descriptor
      (negative on failure), the file wrapping the data, and the two copies
      out. */
  datatype MapEnv = MapEnv(allocOk: bool, copyInOk: bool, fd: int, fileOk: bool,
                           copyInfoOk: bool, copySlotsOk: bool)

  /** Resources the request takes: the mapped-VM data, the reserved
      descriptor and the file that owns the data. */
  datatype Res = PrivateData | ReservedFd | MapFile

  datatype ResOp = Take(res: Res) | Drop(res: Res)

  /** The resources outstanding after `ops`, starting from `held`; None when
      a resource is taken twice or dropped while not held. */
  function Outstanding(held: set<Res>, ops: seq<ResOp>): Option<set<Res>>
    decreases |ops|
  {
    if |ops| == 0 then Some(held)
    else match ops[0]
      case Take(x) => if x in held then None else Outstanding(held + {x}, ops[1..])
      case Drop(x) => if x !in held then None else Outstanding(held - {x}, ops[1..])
  }

  lemma {:induction false} OutstandingAppend(held: set<Res>, a: seq<ResOp>, b: seq<ResOp>)
    ensures Outstanding(held, a + b) ==
      (match Outstanding(held, a) case None => None case Some(h) => Outstanding(h, b))
    decreases |a|
  {
    if |a| == 0 {
      assert a + b == b;
    } else {
      assert (a + b)[0] == a[0];
      assert (a + b)[1..] == a[1..] + b;
      match a[0]
      case Take(x) =>
        if x !in held {
          OutstandingAppend(held + {x}, a[1..], b);
        }
      case Drop(x) =>
        if x in held {
          OutstandingAppend(held - {x}, a[1..], b);
        }
    }
  }

  /** Everything taken is given back. */
  predicate Balanced(ops: seq<ResOp>) {
    Outstanding({}, ops) == Some({})
  }

  /** The locks up to the remap: both VM locks for the snapshot, the mmap
      lock taken while they are held, then the VM locks dropped. */
  const LocksUntilRemap: seq<LockOp> :=
    [Acquire(VmLock), Acquire(SlotsLock), Acquire(MmapLock), Release(VmLock), Release(SlotsLock)]

  /** The whole lock trace of a request that reaches the snapshot. */
  const MapLocks: seq<LockOp> := LocksUntilRemap + [Release(MmapLock)]

  /** The lock trace up to the remap leaves only the mmap lock held, and
      the whole trace releases everything. */
  lemma MapLocksFacts()
    ensures Replay({}, LocksUntilRemap) == Some({MmapLock})
    ensures Paired(MapLocks)
  {
    var t := LocksUntilRemap;
    var h1: set<Lock> := {VmLock};
    var h2: set<Lock> := {VmLock, SlotsLock};
    var h3: set<Lock> := {VmLock, SlotsLock, MmapLock};
    var h4: set<Lock> := {SlotsLock, MmapLock};
    var h5: set<Lock> := {MmapLock};
    assert {} + {VmLock} == h1 && h1 + {SlotsLock} == h2 && h2 + {MmapLock} == h3;
    assert h3 - {VmLock} == h4 && h4 - {SlotsLock} == h5;
    assert t[5..] == [];
    assert Replay(h5, t[5..]) == Some(h5);
    assert t[4..][1..] == t[5..];
    assert Replay(h4, t[4..]) == Some(h5);
    assert t[3..][1..] == t[4..];
    assert Replay(h3, t[3..]) == Some(h5);
    assert t[2..][1..] == t[3..];
    assert Replay(h2, t[2..]) == Some(h5);
    assert t[1..][1..] == t[2..];
    assert Replay(h1, t[1..]) == Some(h5);
    ReplayAppend({}, t, [Release(MmapLock)]);
    assert Replay(h5, [Release(MmapLock)]) == Replay(h5 - {MmapLock}, []);
    assert h5 - {MmapLock} == {};
  }

  /** Data allocated, then freed because the request is unusable. */
  const AllocOnly: seq<ResOp> := [Take(PrivateData), Drop(PrivateData)]

  /** Data allocated and a descriptor reserved. */
  const Reserved: seq<ResOp> := [Take(PrivateData), Take(ReservedFd)]

  /** No file could be made: the descriptor is put back, the data freed. */
  const NoFile: seq<ResOp> := Reserved + [Drop(ReservedFd), Drop(PrivateData)]

  /** The file owns the data. */
  const Published: seq<ResOp> := Reserved + [Take(MapFile)]

  /** A failure after the file exists: dropping the file frees the data
      through its release handler, then the descriptor is put back. */
  const Unwound: seq<ResOp> := Published + [Drop(MapFile), Drop(PrivateData), Drop(ReservedFd)]

  /** What each resource trace leaves outstanding: every failure gives
      everything back, a published request leaves the data, the descriptor
      and the file to the descriptor's owner. */
  lemma ResourceFacts()
    ensures Balanced(AllocOnly)
    ensures Outstanding({}, Reserved) == Some({PrivateData, ReservedFd})
    ensures Balanced(NoFile)
    ensures Outstanding({}, Published) == Some({PrivateData, ReservedFd, MapFile})
    ensures Balanced(Unwound)
  {
    var pd: set<Res> := {PrivateData};
    var pr: set<Res> := {PrivateData, ReservedFd};
    var prm: set<Res> := {PrivateData, ReservedFd, MapFile};
    assert {} + {PrivateData} == pd && pd + {ReservedFd} == pr && pr + {MapFile} == prm;
    assert pd - {PrivateData} == {} && pr - {ReservedFd} == pd && prm - {MapFile} == pr;
    assert AllocOnly[1..][1..] == [];
    assert Outstanding(pd, AllocOnly[1..]) == Some({});
    assert Reserved[1..][1..] == [];
    assert Outstanding(pd, Reserved[1..]) == Some(pr);
    var undo: seq<ResOp> := [Drop(ReservedFd), Drop(PrivateData)];
    assert undo[1..][1..] == [];
    assert Outstanding(pr, undo) == Some({});
    OutstandingAppend({}, Reserved, undo);
    OutstandingAppend({}, Reserved, [Take(MapFile)]);
    assert Outstanding(pr, [Take(MapFile)]) == Outstanding(prm, []);
    var unwind: seq<ResOp> := [Drop(MapFile), Drop(PrivateData), Drop(ReservedFd)];
    assert unwind[1..][1..][1..] == [];
    assert Outstanding(prm, unwind) == Some({}) by {
      assert Outstanding(prm, unwind) == Outstanding(pr, unwind[1..]);
      assert pr - {PrivateData} == {ReservedFd};
      assert Outstanding(pr, unwind[1..]) == Outstanding({ReservedFd}, unwind[1..][1..]);
      assert {ReservedFd} - {ReservedFd} == {};
    }
    OutstandingAppend({}, Published, unwind);
  }

  /** What a request leads to. `Overrun` is the snapshot writing more
      records than the data's fixed slot array holds, and `Crashed` the
      dereference of a NULL `find_vma` result; neither has a defined return
      value. */
  datatype MapReply =
    | Failed(locks: seq<LockOp>, res: seq<ResOp>)
    | Overrun(capacity: nat, written: nat)
    | Crashed(locks: seq<LockOp>, res: seq<ResOp>)
    | Mapped(fd: int, info: VmMapInfo, slots: seq<Memslot>, recs: seq<VmaMap>,
             locks: seq<LockOp>, res: seq<ResOp>)
  {
    /** The ioctl's return value where one is defined. */
    function Ret(): int
      requires Failed? || Mapped?
    {
      if Mapped? then fd else -1
    }
  }

  /** The requests that get as far as the snapshot. */
  predicate ReachesSnapshot(target: Target, requested: u32, env: MapEnv) {
    Acceptable(target) && env.allocOk && env.copyInOk && requested != 0 && env.fd >= 0
  }

  /** `do_map_vm` as written: the snapshot ignores the caller's count, the
      region walk dereferences a failed lookup, and the remap is the one of
      `Remap`. */
  function DoMapVm(vm: KvmVm, target: Target, requested: u32, env: MapEnv, mmap: MmapOracle): (r: MapReply)
    ensures !Acceptable(target) || !env.allocOk ==> r == Failed([], [])
    ensures r.Failed? ==> Paired(r.locks) && Balanced(r.res)
    ensures r.Mapped? ==> Paired(r.locks) && Outstanding({}, r.res) == Some({PrivateData, ReservedFd, MapFile})
    ensures r.Crashed? ==>
      Replay({}, r.locks) == Some({MmapLock}) && Outstanding({}, r.res) == Some({PrivateData, ReservedFd})
    ensures !r.Failed? ==> ReachesSnapshot(target, requested, env)
    ensures r.Overrun? <==> ReachesSnapshot(target, requested, env) && LiveCount(vm.memslots) > KvmMemSlotsNum
    ensures r.Mapped? ==> r.fd == env.fd >= 0 && r.Ret() == r.fd
  {
    MapLocksFacts();
    ResourceFacts();
    if !Acceptable(target) || !env.allocOk then Failed([], [])
    else if !env.copyInOk || requested == 0 || env.fd < 0 then Failed([], AllocOnly)
    else
      var snap := Snapshot(vm.memslots);
      if |snap| > KvmMemSlotsNum then Overrun(KvmMemSlotsNum, |snap|)
      else match UniqueRegions(target.mm, snap)
        case None => Crashed(LocksUntilRemap, Reserved)
        case Some(recs0) =>
          if !env.fileOk then Failed(MapLocks, NoFile)
          else
            RemapSlotsShrink(Table(snap, recs0), 0, target.mm, mmap);
            var t := RemapFrom(Table(snap, recs0), 0, target.mm, mmap);
            if |t.recs| == 0 || !env.copyInfoOk || (|t.slots| != 0 && !env.copySlotsOk) then
              Failed(MapLocks, Unwound)
            else Mapped(env.fd, VmMapInfo(|t.slots|), t.slots, t.recs, MapLocks, Published)
  }

  /** The request crashes exactly when it reaches the region walk and some
      reported slot's host address has no area at or above it. */
  lemma MapVmCrashes(vm: KvmVm, target: Target, requested: u32, env: MapEnv, mmap: MmapOracle)
    ensures DoMapVm(vm, target, requested, env, mmap).Crashed? <==>
      && ReachesSnapshot(target, requested, env)
      && LiveCount(vm.memslots) <= KvmMemSlotsNum
      && exists i :: 0 <= i < |Snapshot(vm.memslots)| && FindVma(target.mm, Snapshot(vm.memslots)[i].hostBase).None?
  {
    var snap := Snapshot(vm.memslots);
    var look: Lookup := s => FoundRecord(target.mm, s);
    DedupFaults(look, false, snap);
  }

  /** A successful request reports a sorted table of slots whose guest
      ranges all come from the VM's live slots, no more than it has, and at
      least one region that mapped. */
  lemma MapVmReports(vm: KvmVm, target: Target, requested: u32, env: MapEnv, mmap: MmapOracle)
    requires DoMapVm(vm, target, requested, env, mmap).Mapped?
    ensures
      var r := DoMapVm(vm, target, requested, env, mmap);
      && r.info.slotCount == |r.slots| <= LiveCount(vm.memslots)
      && SortedByBase(r.slots)
      && multiset(Guests(r.slots)) <= multiset(Guests(LiveMemslots(vm.memslots)))
      && |r.recs| > 0
      && AnyMaps(target.mm, mmap, UniqueRegions(target.mm, Snapshot(vm.memslots)).value)
  {
    var snap := Snapshot(vm.memslots);
    var recs0 := UniqueRegions(target.mm, snap).value;
    var t := RemapFrom(Table(snap, recs0), 0, target.mm, mmap);
    RemapOutcome(snap, recs0, target.mm, mmap);
    assert |t.recs| > 0;
    assert AnyMaps(target.mm, mmap, recs0);
    SortedGuests(LiveMemslots(vm.memslots));
  }

  /** Sorting keeps the multiset of guest ranges. */
  lemma SortedGuests(s: seq<Memslot>)
    ensures multiset(Guests(SortByBase(s))) == multiset(Guests(s))
  {
    MultisetGuests(SortByBase(s), s);
  }

  /** Two tables with the same slots have the same guest ranges. */
  lemma {:induction false} MultisetGuests(a: seq<Memslot>, b: seq<Memslot>)
    requires multiset(a) == multiset(b)
    ensures multiset(Guests(a)) == multiset(Guests(b))
    decreases |a|
  {
    if |a| > 0 {
      assert a[0] in multiset(b);
      var k :| 0 <= k < |b| && b[k] == a[0];
      TailMatches(a, b, k);
      MultisetGuests(a[1..], b[..k] + b[k + 1..]);
      GuestsCons(a[0], a[1..]);
      RemoveOneGuests(b, k);
      assert a == [a[0]] + a[1..];
    } else {
      assert |b| == |multiset(b)| == 0;
    }
  }

  /** Matching the head of `a` with slot `k` of `b` leaves equal
      multisets behind. */
  lemma TailMatches(a: seq<Memslot>, b: seq<Memslot>, k: nat)
    requires multiset(a) == multiset(b) && |a| > 0 && k < |b| && b[k] == a[0]
    ensures multiset(a[1..]) == multiset(b[..k] + b[k + 1..])
  {
    RemoveOne(b, k);
    assert a == [a[0]] + a[1..];
    assert multiset(a) == multiset{a[0]} + multiset(a[1..]);
    assert multiset(a[1..]) == multiset(a) - multiset{a[0]} == multiset(b) - multiset{b[k]};
  }

  /** Taking slot `k` out of a table takes one copy of it out of the
      table's multiset. */
  lemma RemoveOne(b: seq<Memslot>, k: nat)
    requires k < |b|
    ensures multiset(b) == multiset{b[k]} + multiset(b[..k] + b[k + 1..])
  {
    assert b == b[..k] + [b[k]] + b[k + 1..];
  }

  /** ... and its guest range out of the table's guest ranges. */
  lemma RemoveOneGuests(b: seq<Memslot>, k: nat)
    requires k < |b|
    ensures multiset(Guests(b)) == multiset{GuestOf(b[k])} + multiset(Guests(b[..k] + b[k + 1..]))
  {
    var l, u := b[..k], b[k + 1..];
    assert b == (l + [b[k]]) + u;
    GuestsConcat(l + [b[k]], u);
    GuestsConcat(l, [b[k]]);
    GuestsConcat(l, u);
    assert Guests([b[k]]) == [GuestOf(b[k])];
  }

  lemma GuestsConcat(x: seq<Memslot>, y: seq<Memslot>)
    ensures Guests(x + y) == Guests(x) + Guests(y)
  {
  }

  /** A VM without live slots is never mapped: no record is collected, so
      the request ends as if every region had failed. */
  lemma EmptyVmNotMapped(vm: KvmVm, target: Target, requested: u32, env: MapEnv, mmap: MmapOracle)
    requires LiveCount(vm.memslots) == 0
    ensures !DoMapVm(vm, target, requested, env, mmap).Mapped?
    ensures ReachesSnapshot(target, requested, env) && env.fileOk ==>
      DoMapVm(vm, target, requested, env, mmap) == Failed(MapLocks, Unwound)
  {
    assert Snapshot(vm.memslots) == [];
  }

  /** The caller cannot tell an empty VM from one whose every mapping
      failed: both get the same failure with the same side effects. */
  lemma EmptyLikeAllFailed(empty: KvmVm, vm: KvmVm, target: Target, requested: u32, env: MapEnv, mmap: MmapOracle)
    requires LiveCount(empty.memslots) == 0 && LiveCount(vm.memslots) <= KvmMemSlotsNum
    requires ReachesSnapshot(target, requested, env) && env.fileOk
    requires forall i :: 0 <= i < |Snapshot(vm.memslots)| ==> FindVma(target.mm, Snapshot(vm.memslots)[i].hostBase).Some?
    requires forall k :: 0 <= k < |target.mm| ==> IsErrValue(mmap(target.mm[k]))
    ensures DoMapVm(empty, target, requested, env, mmap) == DoMapVm(vm, target, requested, env, mmap)
  {
    EmptyVmNotMapped(empty, target, requested, env, mmap);
    var snap := Snapshot(vm.memslots);
    MapVmCrashes(vm, target, requested, env, mmap);
    var recs0 := UniqueRegions(target.mm, snap).value;
    forall k | 0 <= k < |recs0|
      ensures !StepOf(target.mm, mmap, recs0[k]).MapOk?
    {
      var v := FindVma(target.mm, recs0[k].start);
      if v.Some? {
        var j :| 0 <= j < |target.mm| && target.mm[j] == v.value;
      }
    }
    RemapOutcome(snap, recs0, target.mm, mmap);
  }

  /** Every address of the slot lies in some area of the target. */
  predicate Backed(mm: Mm, s: Memslot) {
    exists k :: 0 <= k < |mm| && Contains(mm[k], s.hostBase)
  }

  /** With no mapping failing, the loop keeps every slot. */
  lemma {:induction false} AllMapKeepsSlots(t: Table, i: nat, mm: Mm, mmap: MmapOracle)
    requires i <= |t.recs|
    requires forall k :: i <= k < |t.recs| ==> StepOf(mm, mmap, t.recs[k]).MapOk?
    ensures |RemapFrom(t, i, mm, mmap).slots| == |t.slots|
    decreases |t.recs| - i
  {
    if i < |t.recs| {
      var rec := t.recs[i];
      var ret := StepOf(mm, mmap, rec).ret;
      var t' := Table(ShiftIn(t.slots, rec.start, rec.end, Sub64(ret, rec.start)), t.recs[i := MovedRecord(rec, ret)]);
      assert forall k :: i + 1 <= k < |t.recs| ==> t'.recs[k] == t.recs[k];
      AllMapKeepsSlots(t', i + 1, mm, mmap);
    }
  }

  /** The caller's count is only tested for zero: when every slot is backed
      and every mapping succeeds, the request reports every live slot of the
      VM, however few the caller made room for. */
  lemma MapVmIgnoresCapacity(vm: KvmVm, target: Target, requested: u32, env: MapEnv, mmap: MmapOracle)
    requires ReachesSnapshot(target, requested, env)
    requires env.fileOk && env.copyInfoOk && env.copySlotsOk
    requires 0 < LiveCount(vm.memslots) <= KvmMemSlotsNum
    requires WellFormedMm(target.mm)
    requires forall i :: 0 <= i < |Snapshot(vm.memslots)| ==> Backed(target.mm, Snapshot(vm.memslots)[i])
    requires forall k :: 0 <= k < |target.mm| ==> !IsErrValue(mmap(target.mm[k]))
    ensures DoMapVm(vm, target, requested, env, mmap).Mapped?
    ensures DoMapVm(vm, target, requested, env, mmap).info.slotCount == LiveCount(vm.memslots)
  {
    AllBackedAllKept(target.mm, Snapshot(vm.memslots), mmap);
    MappedWhen(vm, target, requested, env, mmap);
  }

  /** Every slot backed and every mapping successful: the walk does not
      fault, and the loop keeps every slot and at least one record. */
  lemma AllBackedAllKept(mm: Mm, snap: seq<Memslot>, mmap: MmapOracle)
    requires WellFormedMm(mm) && |snap| > 0
    requires forall i :: 0 <= i < |snap| ==> Backed(mm, snap[i])
    requires forall k :: 0 <= k < |mm| ==> !IsErrValue(mmap(mm[k]))
    ensures UniqueRegions(mm, snap).Some?
    ensures |RemapFrom(Table(snap, UniqueRegions(mm, snap).value), 0, mm, mmap).recs| > 0
    ensures |RemapFrom(Table(snap, UniqueRegions(mm, snap).value), 0, mm, mmap).slots| == |snap|
  {
    BackedFound(mm, snap);
    var recs0 := UniqueRegions(mm, snap).value;
    FoundAllMap(mm, snap, mmap);
    AllMapKeepsSlots(Table(snap, recs0), 0, mm, mmap);
    assert StepOf(mm, mmap, recs0[0]).MapOk?;
    RemapKeepsMapped(snap, recs0, mm, mmap);
  }

  /** The path to a successful request: the walk does not fault, the file
      exists, some region maps and both copies out succeed. */
  lemma MappedWhen(vm: KvmVm, target: Target, requested: u32, env: MapEnv, mmap: MmapOracle)
    requires ReachesSnapshot(target, requested, env) && LiveCount(vm.memslots) <= KvmMemSlotsNum
    requires env.fileOk && env.copyInfoOk && env.copySlotsOk
    requires UniqueRegions(target.mm, Snapshot(vm.memslots)).Some?
    requires |RemapFrom(Table(Snapshot(vm.memslots), UniqueRegions(target.mm, Snapshot(vm.memslots)).value), 0, target.mm, mmap).recs| > 0
    ensures DoMapVm(vm, target, requested, env, mmap).Mapped?
    ensures DoMapVm(vm, target, requested, env, mmap).info.slotCount == |DoMapVm(vm, target, requested, env, mmap).slots|
    ensures DoMapVm(vm, target, requested, env, mmap).slots ==
      RemapFrom(Table(Snapshot(vm.memslots), UniqueRegions(target.mm, Snapshot(vm.memslots)).value), 0, target.mm, mmap).slots
  {
  }

  /** With every slot backed, the region walk does not fault and, for a
      non-empty snapshot, collects at least one record. */
  lemma BackedFound(mm: Mm, snap: seq<Memslot>)
    requires WellFormedMm(mm)
    requires forall i :: 0 <= i < |snap| ==> Backed(mm, snap[i])
    ensures UniqueRegions(mm, snap).Some?
    ensures |snap| > 0 ==> |UniqueRegions(mm, snap).value| > 0
  {
    forall i | 0 <= i < |snap|
      ensures FindVma(mm, snap[i].hostBase).Some?
    {
      FindVmaContains(mm, snap[i].hostBase);
    }
    var look: Lookup := s => FoundRecord(mm, s);
    DedupFaults(look, false, snap);
    if |snap| > 0 {
      DedupCovers(look, false, snap);
      assert FoundRecord(mm, snap[0]).value.start in Starts(UniqueRegions(mm, snap).value);
    }
  }

  /** With no mapping failing, every collected record maps. */
  lemma FoundAllMap(mm: Mm, snap: seq<Memslot>, mmap: MmapOracle)
    requires WellFormedMm(mm) && UniqueRegions(mm, snap).Some?
    requires forall k :: 0 <= k < |mm| ==> !IsErrValue(mmap(mm[k]))
    ensures forall k :: 0 <= k < |UniqueRegions(mm, snap).value| ==>
      StepOf(mm, mmap, UniqueRegions(mm, snap).value[k]).MapOk?
  {
    var recs0 := UniqueRegions(mm, snap).value;
    RecordsFoundAgain(mm, snap, mmap);
    forall k | 0 <= k < |recs0|
      ensures StepOf(mm, mmap, recs0[k]).MapOk?
    {
      var v := FindVma(mm, recs0[k].start).value;
      var j :| 0 <= j < |mm| && mm[j] == v;
    }
  }

  /** The request with the corrections: the snapshot stops at the caller's
      count (clamped to the slot array), the region walk skips slots whose
      address is not inside an area, and the remap is the one of
      `RemapFixed`. It cannot crash or overrun, reports no more slots than
      the caller made room for, and every slot it reports lies inside a
      region it reports, at the offset the slot had in the original area. */
  method DoMapVmFixed(vm: KvmVm, target: Target, requested: u32, env: MapEnv, mmap: MmapOracle)
    returns (r: MapReply)
    ensures r.Failed? || r.Mapped?
    ensures !Acceptable(target) || !env.allocOk ==> r == Failed([], [])
    ensures r.Failed? ==> Paired(r.locks) && Balanced(r.res)
    ensures r.Mapped? ==> Paired(r.locks) && Outstanding({}, r.res) == Some({PrivateData, ReservedFd, MapFile})
    ensures r.Mapped? ==> ReachesSnapshot(target, requested, env) && r.fd == env.fd
    ensures r.Mapped? ==> r.info.slotCount == |r.slots| <= requested && |r.slots| <= KvmMemSlotsNum
    ensures r.Mapped? ==> SortedByBase(r.slots) && |r.recs| > 0
    ensures r.Mapped? ==> forall a :: 0 <= a < |r.slots| ==> InsideSome(r.recs, r.slots[a])
    ensures r.Mapped? ==> multiset(Guests(r.slots)) <= multiset(Guests(LiveMemslots(vm.memslots)))
    ensures r.Mapped? ==> env.fileOk && env.copyInfoOk && SomeSlotMaps(vm, target, requested, mmap)
    ensures (&& ReachesSnapshot(target, requested, env) && env.fileOk && env.copyInfoOk && env.copySlotsOk
             && WellFormedMm(target.mm) && SomeSlotMaps(vm, target, requested, mmap)) ==> r.Mapped?
  {
    MapLocksFacts();
    ResourceFacts();
    if !Acceptable(target) || !env.allocOk {
      return Failed([], []);
    }
    if !env.copyInOk || requested == 0 || env.fd < 0 {
      return Failed([], AllocOnly);
    }
    var snap, count := GetSortedMemslotsBounded(vm.memslots, Min(requested, KvmMemSlotsNum));
    assert count == BoundedCount(vm, requested);
    var recs0 := FindUniqueVmasChecked(snap, target.mm);
    if !env.fileOk {
      return Failed(MapLocks, NoFile);
    }
    var slots, origins, mapped := RemapVmasFixed(snap, recs0, target.mm, mmap);
    if env.copyInfoOk && env.copySlotsOk && WellFormedMm(target.mm) && SomeSlotMaps(vm, target, requested, mmap) {
      var i := SomeSlotInSnapshot(vm, target, requested, mmap, snap);
      UsableRecordCollected(target.mm, mmap, snap, recs0, i);
    }
    if |mapped| == 0 || !env.copyInfoOk || (|slots| != 0 && !env.copySlotsOk) {
      return Failed(MapLocks, Unwound);
    }
    var recs := NewRanges(mapped);
    InsideNewRanges(slots, origins, mapped);
    var j :| 0 <= j < |recs0| && recs0[j] == mapped[0].orig;
    var i := CollectedFromSomeSlot(target.mm, mmap, snap, recs0, j);
    SnapshotSlotMaps(vm, target, requested, mmap, snap, i);
    KeptGuests(vm, snap, slots, origins, count);
    r := Mapped(env.fd, VmMapInfo(|slots|), slots, recs, MapLocks, Published);
  }

  /** How many live slots the corrected snapshot reports: the caller's
      count, clamped to the slot array and to the live slots. */
  function BoundedCount(vm: KvmVm, requested: u32): (n: nat)
    ensures n <= LiveCount(vm.memslots) && n <= requested && n <= KvmMemSlotsNum
  {
    Min(LiveCount(vm.memslots), Min(requested, KvmMemSlotsNum))
  }

  /** The slot's host address lies inside an area whose record is
      usable. */
  predicate MapsUsably(mm: Mm, mmap: MmapOracle, s: Memslot) {
    ContainingRecord(mm, s).Some? && Usable(mm, mmap, ContainingRecord(mm, s).value)
  }

  /** The corrected request has something to map: one of the live slots its
      snapshot reports lies inside an area that maps usably. */
  predicate SomeSlotMaps(vm: KvmVm, target: Target, requested: u32, mmap: MmapOracle) {
    exists k :: 0 <= k < BoundedCount(vm, requested) && MapsUsably(target.mm, mmap, LiveMemslots(vm.memslots)[k])
  }

  /** A slot of the snapshot that maps usably witnesses `SomeSlotMaps`. */
  lemma SnapshotSlotMaps(vm: KvmVm, target: Target, requested: u32, mmap: MmapOracle, snap: seq<Memslot>, i: nat)
    requires multiset(snap) == multiset(LiveMemslots(vm.memslots)[..BoundedCount(vm, requested)])
    requires i < |snap| && MapsUsably(target.mm, mmap, snap[i])
    ensures SomeSlotMaps(vm, target, requested, mmap)
  {
    var live, n := LiveMemslots(vm.memslots), BoundedCount(vm, requested);
    assert snap[i] in multiset(live[..n]);
    var k :| 0 <= k < n && live[..n][k] == snap[i];
    assert live[k] == snap[i];
  }

  /** ... and `SomeSlotMaps` names a slot of the snapshot that maps
      usably. */
  lemma SomeSlotInSnapshot(vm: KvmVm, target: Target, requested: u32, mmap: MmapOracle, snap: seq<Memslot>)
    returns (i: nat)
    requires multiset(snap) == multiset(LiveMemslots(vm.memslots)[..BoundedCount(vm, requested)])
    requires SomeSlotMaps(vm, target, requested, mmap)
    ensures i < |snap| && MapsUsably(target.mm, mmap, snap[i])
  {
    var live, n := LiveMemslots(vm.memslots), BoundedCount(vm, requested);
    var k :| 0 <= k < n && MapsUsably(target.mm, mmap, live[k]);
    assert live[..n][k] == live[k];
    assert live[k] in multiset(snap);
    i :| 0 <= i < |snap| && snap[i] == live[k];
  }

  /** In a well-formed address space, two containing records with the same
      start are the same record. */
  lemma SameStartSameRecord(mm: Mm, s1: Memslot, s2: Memslot)
    requires WellFormedMm(mm)
    requires ContainingRecord(mm, s1).Some? && ContainingRecord(mm, s2).Some?
    requires ContainingRecord(mm, s1).value.start == ContainingRecord(mm, s2).value.start
    ensures ContainingRecord(mm, s1) == ContainingRecord(mm, s2)
  {
    var a := FindVmaIndex(mm, s1.hostBase).value;
    var b := FindVmaIndex(mm, s2.hostBase).value;
    assert mm[a].start < mm[a].end && mm[b].start < mm[b].end;
  }

  /** A snapshot slot that maps usably has its record collected, so some
      collected record is usable. */
  lemma UsableRecordCollected(mm: Mm, mmap: MmapOracle, snap: seq<Memslot>, recs0: seq<VmaMap>, i: nat)
    requires WellFormedMm(mm) && i < |snap| && MapsUsably(mm, mmap, snap[i])
    requires forall i :: 0 <= i < |snap| && ContainingRecord(mm, snap[i]).Some? ==>
      ContainingRecord(mm, snap[i]).value.start in Starts(recs0)
    requires forall k :: 0 <= k < |recs0| ==>
      exists i :: 0 <= i < |snap| && ContainingRecord(mm, snap[i]) == Some(recs0[k])
    ensures UsableCount(mm, mmap, recs0) > 0
  {
    var c := ContainingRecord(mm, snap[i]).value;
    assert c.start in Starts(recs0);
    var j :| 0 <= j < |recs0| && Starts(recs0)[j] == c.start;
    var i' :| 0 <= i' < |snap| && ContainingRecord(mm, snap[i']) == Some(recs0[j]);
    SameStartSameRecord(mm, snap[i], snap[i']);
    UsableCountPositive(mm, mmap, recs0, j);
  }

  /** A usable collected record is the containing record of some snapshot
      slot, which therefore maps usably. */
  lemma CollectedFromSomeSlot(mm: Mm, mmap: MmapOracle, snap: seq<Memslot>, recs0: seq<VmaMap>, j: nat)
    returns (i: nat)
    requires j < |recs0| && Usable(mm, mmap, recs0[j])
    requires forall k :: 0 <= k < |recs0| ==>
      exists i :: 0 <= i < |snap| && ContainingRecord(mm, snap[i]) == Some(recs0[k])
    ensures i < |snap| && MapsUsably(mm, mmap, snap[i])
  {
    i :| 0 <= i < |snap| && ContainingRecord(mm, snap[i]) == Some(recs0[j]);
  }

  /** The kept slots of the corrected request have the guest ranges of
      their origins, which come from the bounded snapshot, so no guest range
      appears that the VM's live slots do not have. */
  lemma KeptGuests(vm: KvmVm, snap: seq<Memslot>, slots: seq<Memslot>, origins: seq<Memslot>, count: nat)
    requires count <= LiveCount(vm.memslots)
    requires multiset(snap) == multiset(LiveMemslots(vm.memslots)[..count])
    requires |slots| == |origins| && multiset(origins) <= multiset(snap)
    requires forall a :: 0 <= a < |slots| ==> GuestOf(slots[a]) == GuestOf(origins[a])
    ensures multiset(Guests(slots)) <= multiset(Guests(LiveMemslots(vm.memslots)))
  {
    var live := LiveMemslots(vm.memslots);
    assert Guests(slots) == Guests(origins);
    assert live == live[..count] + live[count..];
    assert multiset(live) == multiset(live[..count]) + multiset(live[count..]);
    SubMultisetGuests(origins, live);
  }

  /** A sub-multiset of slots has a sub-multiset of guest ranges. */
  lemma {:induction false} SubMultisetGuests(a: seq<Memslot>, b: seq<Memslot>)
    requires multiset(a) <= multiset(b)
    ensures multiset(Guests(a)) <= multiset(Guests(b))
    decreases |a|
  {
    if |a| > 0 {
      assert a[0] in multiset(b);
      var k :| 0 <= k < |b| && b[k] == a[0];
      var rest := b[..k] + b[k + 1..];
      RemoveOne(b, k);
      assert a == [a[0]] + a[1..];
      assert multiset(a[1..]) <= multiset(rest) by {
        assert multiset(a) == multiset{a[0]} + multiset(a[1..]);
        forall x | x in multiset(a[1..])
          ensures multiset(a[1..])[x] <= multiset(rest)[x]
        {
          assert multiset(a)[x] <= multiset(b)[x];
        }
      }
      SubMultisetGuests(a[1..], rest);
      GuestsCons(a[0], a[1..]);
      RemoveOneGuests(b, k);
    }
  }

  /** The slot's host address lies inside one of the records. */
  predicate InsideSome(recs: seq<VmaMap>, s: Memslot) {
    exists j :: 0 <= j < |recs| && recs[j].start <= s.hostBase < recs[j].end
  }

  /** A slot translated through a mapped region lies inside that region's
      new range. */
  lemma InsideNewRanges(slots: seq<Memslot>, origins: seq<Memslot>, mapped: seq<Remapped>)
    requires |slots| == |origins|
    requires forall a :: 0 <= a < |slots| ==>
      && GuestOf(slots[a]) == GuestOf(origins[a])
      && exists j :: 0 <= j < |mapped| && TranslatedBy(origins[a], slots[a], mapped[j])
    ensures forall a :: 0 <= a < |slots| ==> InsideSome(NewRanges(mapped), slots[a])
  {
    var recs := NewRanges(mapped);
    forall a | 0 <= a < |slots|
      ensures InsideSome(recs, slots[a])
    {
      var j :| 0 <= j < |mapped| && TranslatedBy(origins[a], slots[a], mapped[j]);
      assert recs[j] == mapped[j].now;
    }
  }

  /** The new ranges of the mapped regions, in order. */
  function NewRanges(mapped: seq<Remapped>): (r: seq<VmaMap>)
    ensures |r| == |mapped|
    ensures forall j :: 0 <= j < |mapped| ==> r[j] == mapped[j].now
  {
    seq(|mapped|, j requires 0 <= j < |mapped| => mapped[j].now)
  }

  /** `memflow_vm_mapped_release`: closing the mapped-VM descriptor frees
      the data and returns 0. */
  function MappedRelease(): (r: (int, seq<ResOp>))
    ensures r.0 == 0 && Drop(PrivateData) in r.1
  {
    (0, [Drop(PrivateData)])
  }

  /** Closing the descriptor of a successful request: the descriptor and
      the file go, and the file's release handler frees the data. */
  function CloseMapped(): seq<ResOp> {
    [Drop(ReservedFd), Drop(MapFile)] + MappedRelease().1
  }

  /** Closing gives back exactly what a successful request leaves
      outstanding. */
  lemma CloseReleasesPublished()
    ensures Outstanding({PrivateData, ReservedFd, MapFile}, CloseMapped()) == Some({})
  {
    var prm: set<Res> := {PrivateData, ReservedFd, MapFile};
    var close := CloseMapped();
    assert close[1..][1..][1..] == [];
    assert prm - {ReservedFd} == {PrivateData, MapFile};
    assert {PrivateData, MapFile} - {MapFile} == {PrivateData};
    assert {PrivateData} - {PrivateData} == {};
  }

  /** A successful request followed by the close of its descriptor leaves
      nothing outstanding. */
  lemma MapThenCloseBalanced(vm: KvmVm, target: Target, requested: u32, env: MapEnv, mmap: MmapOracle)
    requires DoMapVm(vm, target, requested, env, mmap).Mapped?
    ensures Balanced(DoMapVm(vm, target, requested, env, mmap).res + CloseMapped())
  {
    var r := DoMapVm(vm, target, requested, env, mmap);
    CloseReleasesPublished();
    OutstandingAppend({}, r.res, CloseMapped());
  }

  /** What the VM handle's ioctl leads to. */
  datatype IoctlReply = InfoDone(info: InfoReply) | MapDone(reply: MapReply) | NoSuchCommand

  /** `memflow_vm_ioctl` of the current module: the info and map requests
      go to their handlers, every other command, the older prototype's
      map-info request included, fails with -1. */
  function Ioctl(vm: KvmVm, target: Target, cmd: IoctlCmd, requested: u32, allocOk: bool, io: UserCopies,
                 env: MapEnv, mmap: MmapOracle): (r: IoctlReply)
    ensures r.NoSuchCommand? <==> cmd != MemflowVmInfo && cmd != MemflowMapVm
    ensures cmd == MemflowVmMapInfo ==> r.NoSuchCommand?
    ensures r.InfoDone? ==> cmd == MemflowVmInfo && Paired(r.info.locks)
    ensures r.MapDone? ==> cmd == MemflowMapVm && (r.reply.Failed? || r.reply.Mapped? ==> Paired(r.reply.locks))
    ensures cmd == MemflowVmInfo ==> r == InfoDone(GetVmInfo(vm, requested, allocOk, io))
    ensures cmd == MemflowMapVm ==> r == MapDone(DoMapVm(vm, target, requested, env, mmap))
  {
    match cmd
    case MemflowVmInfo => InfoDone(GetVmInfo(vm, requested, allocOk, io))
    case MemflowMapVm => MapDone(DoMapVm(vm, target, requested, env, mmap))
    case _ => NoSuchCommand
  }

  /** The ioctl dispatch over the corrected query and the corrected map
      request: no command overruns a buffer or dereferences NULL, and a
      successful command reports no more slots than the caller made room
      for. */
  method IoctlFixed(vm: KvmVm, target: Target, cmd: IoctlCmd, requested: u32, allocOk: bool, io: UserCopies,
                    env: MapEnv, mmap: MmapOracle) returns (r: IoctlReply)
    ensures r.NoSuchCommand? <==> cmd != MemflowVmInfo && cmd != MemflowMapVm
    ensures r.InfoDone? ==> cmd == MemflowVmInfo && !r.info.InfoOverrun? && Paired(r.info.locks)
    ensures r.InfoDone? && r.info.InfoOk? ==> |r.info.slots| <= requested
    ensures r.MapDone? ==> cmd == MemflowMapVm && (r.reply.Failed? || r.reply.Mapped?) && Paired(r.reply.locks)
    ensures r.MapDone? && r.reply.Mapped? ==> |r.reply.slots| <= requested
    ensures cmd == MemflowVmInfo ==> r == InfoDone(GetVmInfoFixed(vm, requested, allocOk, io))
  {
    match cmd
    case MemflowVmInfo =>
      r := InfoDone(GetVmInfoFixed(vm, requested, allocOk, io));
    case MemflowMapVm =>
      var reply := DoMapVmFixed(vm, target, requested, env, mmap);
      r := MapDone(reply);
    case _ =>
      r := NoSuchCommand;
  }
}
