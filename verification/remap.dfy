/** `remap_vmas`: each region record is looked up again in the target's
    address space and mapped into the caller with `mmap_vma`. On success the
    host addresses of the slots in the record's range are moved by the
    offset between the new and the old address; on failure the slots of the
    area are removed and the record is dropped by swap-remove, its index
    visited again. The loop is modelled twice: as a state machine over the
    table (`RemapFrom`), which the properties are proved about, and as the
    loop itself (`RemapVmas`), proved to compute the same table. */
module Remap {
  import opened Kernel
  import opened Abi
  import opened AddressSpace
  import opened UniqueVmas
  import opened SlotTable

  /** The mapped-VM data the loop rewrites: the slot table and the region
      records. */
  datatype Table = Table(slots: seq<Memslot>, recs: seq<VmaMap>)

  /** What happens to one record: its area is gone, its mapping failed, or
      it was mapped at `ret`. */
  datatype Step = NoVma | MapFailed(vma: Vma) | MapOk(vma: Vma, ret: u64)

  function StepOf(mm: Mm, mmap: MmapOracle, rec: VmaMap): Step {
    match FindVma(mm, rec.start)
    case None => NoVma
    case Some(v) => if IsErrValue(mmap(v)) then MapFailed(v) else MapOk(v, mmap(v))
  }

  /** What a step means for the record: its area is gone exactly when every
      area of the target ends at or below the record's start; otherwise
      the area is the first one ending above the start, and the step fails
      exactly when mapping that area yields an error value. */
  lemma StepCases(mm: Mm, mmap: MmapOracle, rec: VmaMap)
    ensures StepOf(mm, mmap, rec).NoVma? <==> forall j :: 0 <= j < |mm| ==> mm[j].end <= rec.start
    ensures !StepOf(mm, mmap, rec).NoVma? ==>
      var v := StepOf(mm, mmap, rec).vma;
      && v in mm && rec.start < v.end
      && (exists k :: 0 <= k < |mm| && mm[k] == v && forall j :: 0 <= j < k ==> mm[j].end <= rec.start)
      && (StepOf(mm, mmap, rec).MapFailed? <==> IsErrValue(mmap(v)))
    ensures StepOf(mm, mmap, rec).MapOk? ==> StepOf(mm, mmap, rec).ret == mmap(StepOf(mm, mmap, rec).vma)
  {
  }

  /** With every area mapped by `mmap_vma`: a record whose area gets no
      private record or no wrapper file fails; otherwise it fails exactly
      when `vm_mmap` returns an error value for the area's request, and it
      maps at the address `vm_mmap` returned. */
  lemma StepOfMmapVma(mm: Mm, env: MmapEnv, rec: VmaMap)
    ensures
      var s := StepOf(mm, OracleOf(env), rec);
      !s.NoVma? ==>
        && (!env.privateOk(s.vma) || !env.fileOk(s.vma) ==> s.MapFailed?)
        && (env.privateOk(s.vma) && env.fileOk(s.vma) ==>
              (s.MapFailed? <==> IsErrValue(env.vmMmap(MmapRequestFor(s.vma)))))
        && (s.MapOk? ==> s.ret == env.vmMmap(MmapRequestFor(s.vma)))
  {
  }

  /** The record after a successful mapping, as written: the end moves by
      the offset, but the start has the new address added to it. */
  function MovedRecord(rec: VmaMap, ret: u64): VmaMap {
    VmaMap(Add64(rec.start, ret), Add64(rec.end, Sub64(ret, rec.start)))
  }

  /** A slot at the start of a record lands on the new address, but the
      rewritten record starts there only if the old start was 0: for every
      other record, the slots and the record disagree. */
  lemma RecordStartMisplaced(rec: VmaMap, ret: u64)
    ensures Add64(rec.start, Sub64(ret, rec.start)) == ret
    ensures MovedRecord(rec, ret).start == ret <==> rec.start == 0
  {
  }

  /** The loop of `remap_vmas` from index `i` on, as a state machine. */
  function RemapFrom(t: Table, i: nat, mm: Mm, mmap: MmapOracle): Table
    requires i <= |t.recs|
    decreases |t.recs| - i
  {
    if i == |t.recs| then t
    else
      var rec := t.recs[i];
      match StepOf(mm, mmap, rec)
      case NoVma =>
        RemapFrom(Table(t.slots, SwapRemove(t.recs, i)), i, mm, mmap)
      case MapFailed(v) =>
        RemapFrom(Table(Outside(t.slots, v.start, v.end), SwapRemove(t.recs, i)), i, mm, mmap)
      case MapOk(_, ret) =>
        var offset := Sub64(ret, rec.start);
        RemapFrom(Table(ShiftIn(t.slots, rec.start, rec.end, offset), t.recs[i := MovedRecord(rec, ret)]),
                  i + 1, mm, mmap)
  }

  /** The loop never revisits a record it has passed: the records before
      index `i` come out as they went in. */
  lemma {:induction false} RemapKeepsPassed(t: Table, i: nat, mm: Mm, mmap: MmapOracle)
    requires i <= |t.recs|
    ensures i <= |RemapFrom(t, i, mm, mmap).recs|
    ensures RemapFrom(t, i, mm, mmap).recs[..i] == t.recs[..i]
    decreases |t.recs| - i
  {
    if i < |t.recs| {
      var t', j := StepFacts(t, i, mm, mmap);
      RemapKeepsPassed(t', j, mm, mmap);
      assert RemapFrom(t', j, mm, mmap).recs[..i] == RemapFrom(t', j, mm, mmap).recs[..j][..i];
      assert t'.recs[..j][..i] == t'.recs[..i];
    } else {
      assert RemapFrom(t, i, mm, mmap) == t;
    }
  }

  /** One step of the state machine: the table and index the loop
      continues from keep the records already passed, never add a slot,
      keep no guest range the table did not have, and keep the table
      sorted. */
  lemma StepFacts(t: Table, i: nat, mm: Mm, mmap: MmapOracle) returns (t': Table, j: nat)
    requires i < |t.recs|
    ensures i <= j <= |t'.recs| && |t'.recs| - j < |t.recs| - i
    ensures RemapFrom(t, i, mm, mmap) == RemapFrom(t', j, mm, mmap)
    ensures t'.recs[..i] == t.recs[..i]
    ensures |t'.slots| <= |t.slots|
    ensures multiset(Guests(t'.slots)) <= multiset(Guests(t.slots))
    ensures SortedByBase(t.slots) ==> SortedByBase(t'.slots)
  {
    var rec := t.recs[i];
    match StepOf(mm, mmap, rec) {
      case NoVma =>
        t', j := Table(t.slots, SwapRemove(t.recs, i)), i;
      case MapFailed(v) =>
        OutsideSubGuests(t.slots, v.start, v.end);
        OutsideFacts(t.slots, v.start, v.end);
        t', j := Table(Outside(t.slots, v.start, v.end), SwapRemove(t.recs, i)), i;
      case MapOk(_, ret) =>
        ShiftInKeepsGuests(t.slots, rec.start, rec.end, Sub64(ret, rec.start));
        t', j := Table(ShiftIn(t.slots, rec.start, rec.end, Sub64(ret, rec.start)), t.recs[i := MovedRecord(rec, ret)]), i + 1;
    }
  }

  /** The rewritten records of the regions that map, in order. */
  function Moved(mm: Mm, mmap: MmapOracle, recs: seq<VmaMap>): (r: seq<VmaMap>)
    ensures |r| <= |recs|
    decreases |recs|
  {
    if |recs| == 0 then []
    else
      (match StepOf(mm, mmap, recs[0])
       case MapOk(_, ret) => [MovedRecord(recs[0], ret)]
       case _ => [])
      + Moved(mm, mmap, recs[1..])
  }

  lemma {:induction false} MovedAppend(mm: Mm, mmap: MmapOracle, a: seq<VmaMap>, b: seq<VmaMap>)
    ensures Moved(mm, mmap, a + b) == Moved(mm, mmap, a) + Moved(mm, mmap, b)
    decreases |a|
  {
    if |a| == 0 {
      assert a + b == b;
    } else {
      assert (a + b)[0] == a[0];
      assert (a + b)[1..] == a[1..] + b;
      MovedAppend(mm, mmap, a[1..], b);
    }
  }

  /** Some region among `recs` maps. */
  predicate AnyMaps(mm: Mm, mmap: MmapOracle, recs: seq<VmaMap>) {
    exists k :: 0 <= k < |recs| && StepOf(mm, mmap, recs[k]).MapOk?
  }

  lemma AnyMapsCons(mm: Mm, mmap: MmapOracle, recs: seq<VmaMap>)
    requires |recs| > 0
    ensures AnyMaps(mm, mmap, recs) <==> StepOf(mm, mmap, recs[0]).MapOk? || AnyMaps(mm, mmap, recs[1..])
  {
    if AnyMaps(mm, mmap, recs) {
      var k :| 0 <= k < |recs| && StepOf(mm, mmap, recs[k]).MapOk?;
      if k > 0 {
        assert recs[1..][k - 1] == recs[k];
      }
    }
    if AnyMaps(mm, mmap, recs[1..]) {
      var k :| 0 <= k < |recs[1..]| && StepOf(mm, mmap, recs[1..][k]).MapOk?;
      assert recs[k + 1] == recs[1..][k];
    }
  }

  /** Some record survives exactly when some region maps. */
  lemma {:induction false} MovedNonEmpty(mm: Mm, mmap: MmapOracle, recs: seq<VmaMap>)
    ensures |Moved(mm, mmap, recs)| > 0 <==> AnyMaps(mm, mmap, recs)
    decreases |recs|
  {
    if |recs| > 0 {
      MovedNonEmpty(mm, mmap, recs[1..]);
      AnyMapsCons(mm, mmap, recs);
    }
  }

  /** A record that does not map contributes nothing. */
  lemma MovedSkipsHead(mm: Mm, mmap: MmapOracle, recs: seq<VmaMap>, i: nat)
    requires i < |recs| && !StepOf(mm, mmap, recs[i]).MapOk?
    ensures Moved(mm, mmap, recs[i..]) == Moved(mm, mmap, recs[i + 1..])
  {
    assert recs[i..][0] == recs[i] && recs[i..][1..] == recs[i + 1..];
  }

  /** Moving the last record to the front does not change which rewritten
      records there are. */
  lemma MovedRotate(mm: Mm, mmap: MmapOracle, mid: seq<VmaMap>, last: VmaMap)
    ensures multiset(Moved(mm, mmap, [last] + mid)) == multiset(Moved(mm, mmap, mid + [last]))
  {
    MovedAppend(mm, mmap, [last], mid);
    MovedAppend(mm, mmap, mid, [last]);
  }

  /** The accounting of one swap-remove: a record that does not map leaves
      the records before it and the rewritten records after it as they
      were. */
  lemma SwapRemoveKeepsMoved(mm: Mm, mmap: MmapOracle, recs: seq<VmaMap>, i: nat)
    requires i < |recs| && !StepOf(mm, mmap, recs[i]).MapOk?
    ensures multiset(SwapRemove(recs, i)[..i]) + multiset(Moved(mm, mmap, SwapRemove(recs, i)[i..]))
         == multiset(recs[..i]) + multiset(Moved(mm, mmap, recs[i..]))
  {
    var n := |recs|;
    var r := SwapRemove(recs, i);
    MovedSkipsHead(mm, mmap, recs, i);
    if i < n - 1 {
      var mid := recs[i + 1..n - 1];
      var last := recs[n - 1];
      assert r[i..] == [last] + mid;
      assert recs[i + 1..] == mid + [last];
      MovedRotate(mm, mmap, mid, last);
    } else {
      assert r[i..] == [] && recs[i + 1..] == [];
    }
  }

  /** The accounting of one successful mapping: the record moves from the
      part still to visit to the part visited. */
  lemma RewriteKeepsMoved(mm: Mm, mmap: MmapOracle, recs: seq<VmaMap>, i: nat, ret: u64)
    requires i < |recs| && StepOf(mm, mmap, recs[i]).MapOk? && StepOf(mm, mmap, recs[i]).ret == ret
    ensures
      var r := recs[i := MovedRecord(recs[i], ret)];
      multiset(r[..i + 1]) + multiset(Moved(mm, mmap, r[i + 1..]))
        == multiset(recs[..i]) + multiset(Moved(mm, mmap, recs[i..]))
  {
    var r := recs[i := MovedRecord(recs[i], ret)];
    assert recs[i..] == [recs[i]] + recs[i + 1..];
    MovedAppend(mm, mmap, [recs[i]], recs[i + 1..]);
    assert Moved(mm, mmap, [recs[i]]) == [MovedRecord(recs[i], ret)];
    assert r[..i + 1] == recs[..i] + [MovedRecord(recs[i], ret)];
    assert r[i + 1..] == recs[i + 1..];
  }

  /** One iteration keeps the record accounting: the visited records plus
      the rewritten records still to come are the same before and after. */
  lemma RecordsStep(t: Table, i: nat, mm: Mm, mmap: MmapOracle) returns (t': Table, j: nat)
    requires i < |t.recs|
    ensures i <= j <= |t'.recs| && |t'.recs| - j < |t.recs| - i
    ensures RemapFrom(t, i, mm, mmap) == RemapFrom(t', j, mm, mmap)
    ensures multiset(t'.recs[..j]) + multiset(Moved(mm, mmap, t'.recs[j..]))
         == multiset(t.recs[..i]) + multiset(Moved(mm, mmap, t.recs[i..]))
  {
    var rec := t.recs[i];
    match StepOf(mm, mmap, rec) {
      case NoVma =>
        SwapRemoveKeepsMoved(mm, mmap, t.recs, i);
        t', j := Table(t.slots, SwapRemove(t.recs, i)), i;
      case MapFailed(v) =>
        SwapRemoveKeepsMoved(mm, mmap, t.recs, i);
        t', j := Table(Outside(t.slots, v.start, v.end), SwapRemove(t.recs, i)), i;
      case MapOk(_, ret) =>
        RewriteKeepsMoved(mm, mmap, t.recs, i, ret);
        t', j := Table(ShiftIn(t.slots, rec.start, rec.end, Sub64(ret, rec.start)), t.recs[i := MovedRecord(rec, ret)]), i + 1;
    }
  }

  /** The records the loop leaves are those before `i` plus the rewritten
      records of the regions from `i` on that map: a failed or vanished
      region's record is removed and no other is lost or duplicated. */
  lemma {:induction false} RemapRecords(t: Table, i: nat, mm: Mm, mmap: MmapOracle)
    requires i <= |t.recs|
    ensures multiset(RemapFrom(t, i, mm, mmap).recs)
         == multiset(t.recs[..i]) + multiset(Moved(mm, mmap, t.recs[i..]))
    decreases |t.recs| - i
  {
    if i < |t.recs| {
      var t', j := RecordsStep(t, i, mm, mmap);
      RemapRecords(t', j, mm, mmap);
    } else {
      assert t.recs[..i] == t.recs && t.recs[i..] == [];
    }
  }

  /** The slot table never grows. */
  lemma {:induction false} RemapSlotsShrink(t: Table, i: nat, mm: Mm, mmap: MmapOracle)
    requires i <= |t.recs|
    ensures |RemapFrom(t, i, mm, mmap).slots| <= |t.slots|
    decreases |t.recs| - i
  {
    if i < |t.recs| {
      var t', j := StepFacts(t, i, mm, mmap);
      RemapSlotsShrink(t', j, mm, mmap);
    }
  }

  /** The slot table keeps no guest range it did not have. */
  lemma {:induction false} RemapSlotsGuests(t: Table, i: nat, mm: Mm, mmap: MmapOracle)
    requires i <= |t.recs|
    ensures multiset(Guests(RemapFrom(t, i, mm, mmap).slots)) <= multiset(Guests(t.slots))
    decreases |t.recs| - i
  {
    if i < |t.recs| {
      var t', j := StepFacts(t, i, mm, mmap);
      RemapSlotsGuests(t', j, mm, mmap);
    }
  }

  /** The slot table stays sorted by guest base. */
  lemma {:induction false} RemapSlotsSorted(t: Table, i: nat, mm: Mm, mmap: MmapOracle)
    requires i <= |t.recs| && SortedByBase(t.slots)
    ensures SortedByBase(RemapFrom(t, i, mm, mmap).slots)
    decreases |t.recs| - i
  {
    if i < |t.recs| {
      var t', j := StepFacts(t, i, mm, mmap);
      RemapSlotsSorted(t', j, mm, mmap);
    }
  }

  /** One iteration of `remap_vmas` on record `i`: the lookup, the mapping,
      and either the translation of the record's slots or the removal of the
      area's slots and of the record. */
  method RemapOne(slots: seq<Memslot>, recs: seq<VmaMap>, i: nat, mm: Mm, mmap: MmapOracle)
    returns (slots': seq<Memslot>, recs': seq<VmaMap>, i': nat)
    requires i < |recs|
    ensures i' <= |recs'| && |recs'| - i' < |recs| - i
    ensures RemapFrom(Table(slots', recs'), i', mm, mmap) == RemapFrom(Table(slots, recs), i, mm, mmap)
  {
    var rec := recs[i];
    var vma := FindVma(mm, rec.start);
    if vma.None? {
      assert StepOf(mm, mmap, rec) == NoVma;
      return slots, SwapRemove(recs, i), i;
    }
    var ret := mmap(vma.value);
    if IsErrValue(ret) {
      assert StepOf(mm, mmap, rec) == MapFailed(vma.value);
      slots' := RemoveSlotsInRange(slots, vma.value.start, vma.value.end);
      return slots', SwapRemove(recs, i), i;
    }
    assert StepOf(mm, mmap, rec) == MapOk(vma.value, ret);
    var offset := Sub64(ret, rec.start);
    slots' := ShiftSlotsInRange(slots, rec.start, rec.end, offset);
    assert slots' == ShiftIn(slots, rec.start, rec.end, offset);
    recs' := recs[i := VmaMap(Add64(rec.start, ret), Add64(rec.end, offset))];
    i' := i + 1;
  }

  /** `remap_vmas` as written. */
  method RemapVmas(slots0: seq<Memslot>, recs0: seq<VmaMap>, mm: Mm, mmap: MmapOracle)
    returns (slots: seq<Memslot>, recs: seq<VmaMap>)
    ensures Table(slots, recs) == RemapFrom(Table(slots0, recs0), 0, mm, mmap)
    ensures |slots| <= |slots0| && |recs| <= |recs0|
    ensures multiset(recs) == multiset(Moved(mm, mmap, recs0))
    ensures |recs| > 0 <==> exists k :: 0 <= k < |recs0| && StepOf(mm, mmap, recs0[k]).MapOk?
    ensures multiset(Guests(slots)) <= multiset(Guests(slots0))
    ensures SortedByBase(slots0) ==> SortedByBase(slots)
  {
    slots, recs := slots0, recs0;
    var i := 0;
    while i < |recs|
      invariant 0 <= i <= |recs|
      invariant RemapFrom(Table(slots, recs), i, mm, mmap) == RemapFrom(Table(slots0, recs0), 0, mm, mmap)
      decreases |recs| - i
    {
      slots, recs, i := RemapOne(slots, recs, i, mm, mmap);
    }
    RemapOutcome(slots0, recs0, mm, mmap);
  }

  /** What the whole loop leaves, from its state-machine form. */
  lemma RemapOutcome(slots0: seq<Memslot>, recs0: seq<VmaMap>, mm: Mm, mmap: MmapOracle)
    ensures
      var t := RemapFrom(Table(slots0, recs0), 0, mm, mmap);
      && |t.slots| <= |slots0| && |t.recs| <= |recs0|
      && multiset(t.recs) == multiset(Moved(mm, mmap, recs0))
      && (|t.recs| > 0 <==> exists k :: 0 <= k < |recs0| && StepOf(mm, mmap, recs0[k]).MapOk?)
      && multiset(Guests(t.slots)) <= multiset(Guests(slots0))
      && (SortedByBase(slots0) ==> SortedByBase(t.slots))
  {
    var t0 := Table(slots0, recs0);
    var t := RemapFrom(t0, 0, mm, mmap);
    RemapRecords(t0, 0, mm, mmap);
    RemapSlotsShrink(t0, 0, mm, mmap);
    RemapSlotsGuests(t0, 0, mm, mmap);
    if SortedByBase(slots0) {
      RemapSlotsSorted(t0, 0, mm, mmap);
    }
    MovedNonEmpty(mm, mmap, recs0);
    assert recs0[..0] == [] && recs0[0..] == recs0;
    assert |multiset(t.recs)| == |t.recs|;
    assert |multiset(Moved(mm, mmap, recs0))| == |Moved(mm, mmap, recs0)|;
  }

  /** The loop ends with some record left exactly when some record maps. */
  lemma RemapKeepsMapped(slots0: seq<Memslot>, recs0: seq<VmaMap>, mm: Mm, mmap: MmapOracle)
    ensures |RemapFrom(Table(slots0, recs0), 0, mm, mmap).recs| > 0 <==> AnyMaps(mm, mmap, recs0)
  {
    var t0 := Table(slots0, recs0);
    var t := RemapFrom(t0, 0, mm, mmap);
    RemapRecords(t0, 0, mm, mmap);
    MovedNonEmpty(mm, mmap, recs0);
    assert recs0[..0] == [] && recs0[0..] == recs0;
    assert |multiset(t.recs)| == |t.recs|;
    assert |multiset(Moved(mm, mmap, recs0))| == |Moved(mm, mmap, recs0)|;
  }

  /** Records built from a well-formed address space are found again: the
      loop's NULL branch cannot be taken while the target's address space is
      unchanged. */
  lemma RecordsFoundAgain(mm: Mm, slots: seq<Memslot>, mmap: MmapOracle)
    requires WellFormedMm(mm) && UniqueRegions(mm, slots).Some?
    ensures forall k :: 0 <= k < |UniqueRegions(mm, slots).value| ==>
      !StepOf(mm, mmap, UniqueRegions(mm, slots).value[k]).NoVma?
  {
    var look: Lookup := s => FoundRecord(mm, s);
    var p := UniqueRegions(mm, slots).value;
    DedupProvenance(look, false, slots);
    forall k | 0 <= k < |p|
      ensures !StepOf(mm, mmap, p[k]).NoVma?
    {
      var i :| 0 <= i < |slots| && look(slots[i]) == Some(p[k]);
      FoundRecordFoundAgain(mm, mmap, slots[i]);
    }
  }

  /** The record of a slot's area starts where the area does, so looking
      up its start finds the area again. */
  lemma FoundRecordFoundAgain(mm: Mm, mmap: MmapOracle, s: Memslot)
    requires WellFormedMm(mm) && FoundRecord(mm, s).Some?
    ensures !StepOf(mm, mmap, FoundRecord(mm, s).value).NoVma?
  {
    var v := FindVma(mm, s.hostBase).value;
    var j :| 0 <= j < |mm| && mm[j] == v;
    FindVmaOfStart(mm, j);
  }

  /** One slot and one record at 0x1000, mapped at 0x7000: the slot moves to
      0x7000, the record to `[0x8000, 0x9000)`, which no longer contains
      it. */
  lemma RecordStartWitness()
    ensures
      var mm := [Vma(0x1000, 0x3000, true)];
      var mmap: MmapOracle := v => 0x7000;
      RemapFrom(Table([Memslot(0, 0x1000, 0x2000)], [VmaMap(0x1000, 0x3000)]), 0, mm, mmap)
        == Table([Memslot(0, 0x7000, 0x2000)], [VmaMap(0x8000, 0x9000)])
  {
    var mm := [Vma(0x1000, 0x3000, true)];
    var mmap: MmapOracle := v => 0x7000;
    assert FindVma(mm, 0x1000) == Some(mm[0]);
    var s := ShiftIn([Memslot(0, 0x1000, 0x2000)], 0x1000, 0x3000, 0x6000);
    assert s == [Memslot(0, 0x7000, 0x2000)];
  }

  /** Two regions, A at 0x1000 and B at 0x5000, each backing one slot, are
      mapped at 0x5000 and 0x9000. A's slot, moved to 0x5000, lies in B's old
      range and is moved a second time: both slots end at 0x9000. */
  lemma DoubleShiftWitness()
    ensures
      var mm := [Vma(0x1000, 0x2000, true), Vma(0x5000, 0x6000, true)];
      var mmap: MmapOracle := (v: Vma) => if v.start == 0x1000 then 0x5000 else 0x9000;
      var slots := [Memslot(0, 0x1000, 0x1000), Memslot(0x1000, 0x5000, 0x1000)];
      var recs := [VmaMap(0x1000, 0x2000), VmaMap(0x5000, 0x6000)];
      RemapFrom(Table(slots, recs), 0, mm, mmap).slots
        == [Memslot(0, 0x9000, 0x1000), Memslot(0x1000, 0x9000, 0x1000)]
  {
    var mm := [Vma(0x1000, 0x2000, true), Vma(0x5000, 0x6000, true)];
    var mmap: MmapOracle := (v: Vma) => if v.start == 0x1000 then 0x5000 else 0x9000;
    var slots := [Memslot(0, 0x1000, 0x1000), Memslot(0x1000, 0x5000, 0x1000)];
    var recs := [VmaMap(0x1000, 0x2000), VmaMap(0x5000, 0x6000)];
    assert FindVma(mm, 0x1000) == Some(mm[0]);
    assert FindVma(mm, 0x5000) == Some(mm[1]);
    var s1 := ShiftIn(slots, 0x1000, 0x2000, 0x4000);
    assert s1 == [Memslot(0, 0x5000, 0x1000), Memslot(0x1000, 0x5000, 0x1000)];
    var r1 := recs[0 := MovedRecord(recs[0], 0x5000)];
    assert r1[1] == VmaMap(0x5000, 0x6000);
    var s2 := ShiftIn(s1, 0x5000, 0x6000, 0x4000);
    assert s2 == [Memslot(0, 0x9000, 0x1000), Memslot(0x1000, 0x9000, 0x1000)];
  }

  /** A record whose area is gone is dropped, but the slot it covered stays
      in the table with its old, untranslated host address. */
  lemma NoVmaLeavesSlotUntranslated()
    ensures
      var mmap: MmapOracle := v => 0x7000;
      RemapFrom(Table([Memslot(0, 0x9000, 0x1000)], [VmaMap(0x9000, 0xA000)]), 0, [], mmap)
        == Table([Memslot(0, 0x9000, 0x1000)], [])
  {
  }
}
