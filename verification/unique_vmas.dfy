/** `find_unique_vmas`: one region record per distinct backing area of the
    snapshot's host addresses, found with `find_vma` in the target's address
    space and deduplicated by start address. */
module UniqueVmas {
  import opened Kernel
  import opened Abi
  import opened AddressSpace

  /** `struct vm_vma_map`: a region record. */
  datatype VmaMap = VmaMap(start: u64, end: u64)

  function RecordOf(v: Vma): VmaMap {
    VmaMap(v.start, v.end)
  }

  /** The start addresses of the records, in order. */
  function Starts(recs: seq<VmaMap>): (r: seq<u64>)
    ensures |r| == |recs|
    ensures forall k :: 0 <= k < |recs| ==> r[k] == recs[k].start
  {
    seq(|recs|, k requires 0 <= k < |recs| => recs[k].start)
  }

  predicate DistinctStarts(recs: seq<VmaMap>) {
    forall i, j :: 0 <= i < j < |recs| ==> recs[i].start != recs[j].start
  }

  /** The record the lookup of one slot's host address would produce; None
      where `find_vma` returns NULL. */
  function FoundRecord(mm: Mm, s: Memslot): Option<VmaMap> {
    match FindVma(mm, s.hostBase)
    case None => None
    case Some(v) => Some(RecordOf(v))
  }

  /** The record a lookup that also checks containment produces: None when
      `find_vma` returns NULL or an area above a hole. */
  function ContainingRecord(mm: Mm, s: Memslot): Option<VmaMap> {
    match FindVma(mm, s.hostBase)
    case None => None
    case Some(v) => if Contains(v, s.hostBase) then Some(RecordOf(v)) else None
  }

  /** A slot-to-record lookup. */
  type Lookup = Memslot -> Option<VmaMap>

  /** Adds `rec` unless a record with its start is present. */
  function AddUnique(p: seq<VmaMap>, rec: VmaMap): (r: seq<VmaMap>)
    ensures DistinctStarts(p) ==> DistinctStarts(r)
    ensures rec.start in Starts(r) && |r| <= |p| + 1
    ensures r == p || r == p + [rec]
    ensures Starts(p) <= Starts(r)
  {
    if rec.start in Starts(p) then p
    else
      assert Starts(p + [rec]) == Starts(p) + [rec.start];
      p + [rec]
  }

  /** Reference definition of the walk: the slots are visited in order and
      each adds the record its lookup yields unless one with that start is
      already present. A failed lookup is a fault (None) unless `skip` is
      set, in which case the slot is passed over. */
  function Dedup(look: Lookup, skip: bool, slots: seq<Memslot>): Option<seq<VmaMap>>
    decreases |slots|
  {
    if |slots| == 0 then Some([])
    else match Dedup(look, skip, slots[..|slots| - 1])
      case None => None
      case Some(p) =>
        match look(slots[|slots| - 1])
        case None => if skip then Some(p) else None
        case Some(rec) => Some(AddUnique(p, rec))
  }

  /** The walk faults exactly when it does not skip and some lookup
      fails. */
  lemma {:induction false} DedupFaults(look: Lookup, skip: bool, slots: seq<Memslot>)
    ensures Dedup(look, skip, slots).None? <==>
      !skip && exists i :: 0 <= i < |slots| && look(slots[i]).None?
    decreases |slots|
  {
    if |slots| > 0 {
      var init := slots[..|slots| - 1];
      DedupFaults(look, skip, init);
      assert forall i :: 0 <= i < |init| ==> init[i] == slots[i];
      if !skip && Dedup(look, skip, init).Some? && look(slots[|slots| - 1]).Some? {
        forall i | 0 <= i < |slots|
          ensures look(slots[i]).Some?
        {
          if i < |init| {
            assert slots[i] == init[i];
          }
        }
      }
    }
  }

  /** Distinct starts, no more records than slots, and every successful
      lookup represented by its start. */
  lemma {:induction false} DedupCovers(look: Lookup, skip: bool, slots: seq<Memslot>)
    requires Dedup(look, skip, slots).Some?
    ensures DistinctStarts(Dedup(look, skip, slots).value)
    ensures |Dedup(look, skip, slots).value| <= |slots|
    ensures forall i :: 0 <= i < |slots| && look(slots[i]).Some? ==>
      look(slots[i]).value.start in Starts(Dedup(look, skip, slots).value)
    decreases |slots|
  {
    if |slots| > 0 {
      var init := slots[..|slots| - 1];
      DedupCovers(look, skip, init);
      var p := Dedup(look, skip, init).value;
      var r := Dedup(look, skip, slots).value;
      assert Starts(p) <= Starts(r);
      assert forall x :: x in Starts(p) ==> x in Starts(r);
      forall i | 0 <= i < |slots| && look(slots[i]).Some?
        ensures look(slots[i]).value.start in Starts(r)
      {
        if i < |init| {
          assert slots[i] == init[i];
        }
      }
    }
  }

  /** Every record is the lookup result of some slot. */
  lemma {:induction false} DedupProvenance(look: Lookup, skip: bool, slots: seq<Memslot>)
    requires Dedup(look, skip, slots).Some?
    ensures forall k :: 0 <= k < |Dedup(look, skip, slots).value| ==>
      exists i :: 0 <= i < |slots| && look(slots[i]) == Some(Dedup(look, skip, slots).value[k])
    decreases |slots|
  {
    if |slots| > 0 {
      var init := slots[..|slots| - 1];
      DedupProvenance(look, skip, init);
      var p := Dedup(look, skip, init).value;
      var r := Dedup(look, skip, slots).value;
      forall k | 0 <= k < |r|
        ensures exists i :: 0 <= i < |slots| && look(slots[i]) == Some(r[k])
      {
        if k < |p| {
          assert r[k] == p[k];
          var i :| 0 <= i < |init| && look(init[i]) == Some(p[k]);
          assert slots[i] == init[i];
        } else {
          assert look(slots[|slots| - 1]) == Some(r[k]);
        }
      }
    }
  }

  /** The loop of `find_unique_vmas` over a lookup: for each slot, a linear
      search of the records so far for the start, then an append. */
  method DedupWalk(look: Lookup, skip: bool, slots: seq<Memslot>) returns (r: Option<seq<VmaMap>>)
    ensures r == Dedup(look, skip, slots)
  {
    var recs: seq<VmaMap> := [];
    var i := 0;
    while i < |slots|
      invariant 0 <= i <= |slots|
      invariant Dedup(look, skip, slots[..i]) == Some(recs)
    {
      assert slots[..i + 1][..i] == slots[..i];
      var rec := look(slots[i]);
      if rec.None? {
        if !skip {
          DedupFaults(look, skip, slots);
          assert slots[..i + 1][i] == slots[i];
          DedupFaults(look, skip, slots[..i + 1]);
          return None;
        }
      } else {
        var found := false;
        var o := 0;
        while o < |recs|
          invariant 0 <= o <= |recs|
          invariant found <==> rec.value.start in Starts(recs)[..o]
        {
          assert Starts(recs)[..o + 1] == Starts(recs)[..o] + [recs[o].start];
          if recs[o].start == rec.value.start {
            found := true;
          }
          o := o + 1;
        }
        assert Starts(recs)[..o] == Starts(recs);
        if !found {
          recs := recs + [rec.value];
        }
      }
      i := i + 1;
    }
    assert slots[..i] == slots;
    r := Some(recs);
  }

  /** The deduplication as written: `find_vma` of each slot's host address,
      used without a NULL check and recorded whether or not the area
      contains the address. */
  function UniqueRegions(mm: Mm, slots: seq<Memslot>): (r: Option<seq<VmaMap>>)
    ensures r.None? <==> exists i :: 0 <= i < |slots| && FoundRecord(mm, slots[i]).None?
    ensures r.Some? ==> DistinctStarts(r.value) && |r.value| <= |slots|
    ensures r.Some? ==> forall i :: 0 <= i < |slots| ==>
      FoundRecord(mm, slots[i]).Some? && FoundRecord(mm, slots[i]).value.start in Starts(r.value)
  {
    var look: Lookup := s => FoundRecord(mm, s);
    DedupFaults(look, false, slots);
    var r := Dedup(look, false, slots);
    if r.Some? then DedupCovers(look, false, slots); r else r
  }

  /** `find_unique_vmas` as written. None is the NULL dereference of a failed
      lookup; otherwise the starts are pairwise distinct, there are no more
      records than slots, every slot's area is represented by its start, and
      every record is the area of some slot. */
  method FindUniqueVmas(slots: seq<Memslot>, mm: Mm) returns (r: Option<seq<VmaMap>>)
    ensures r == UniqueRegions(mm, slots)
    ensures r.None? <==> exists i :: 0 <= i < |slots| && FindVma(mm, slots[i].hostBase).None?
    ensures r.Some? ==> DistinctStarts(r.value) && |r.value| <= |slots|
    ensures r.Some? ==> forall i :: 0 <= i < |slots| ==>
      FoundRecord(mm, slots[i]).Some? && FoundRecord(mm, slots[i]).value.start in Starts(r.value)
    ensures r.Some? ==> forall k :: 0 <= k < |r.value| ==>
      exists i :: 0 <= i < |slots| && FoundRecord(mm, slots[i]) == Some(r.value[k])
  {
    var look: Lookup := s => FoundRecord(mm, s);
    r := DedupWalk(look, false, slots);
    DedupFaults(look, false, slots);
    if r.Some? {
      DedupCovers(look, false, slots);
      DedupProvenance(look, false, slots);
    }
  }

  /** The deduplication with the checks the remap needs: a slot whose lookup
      fails or lands on an area that does not contain its host address adds
      no record, so every record contains some slot's host address. */
  method FindUniqueVmasChecked(slots: seq<Memslot>, mm: Mm) returns (recs: seq<VmaMap>)
    ensures DistinctStarts(recs) && |recs| <= |slots|
    ensures forall i :: 0 <= i < |slots| && ContainingRecord(mm, slots[i]).Some? ==>
      ContainingRecord(mm, slots[i]).value.start in Starts(recs)
    ensures forall k :: 0 <= k < |recs| ==>
      exists i :: 0 <= i < |slots| && ContainingRecord(mm, slots[i]) == Some(recs[k])
    ensures forall k :: 0 <= k < |recs| ==>
      exists i :: 0 <= i < |slots| && recs[k].start <= slots[i].hostBase < recs[k].end
  {
    var look: Lookup := s => ContainingRecord(mm, s);
    var r := DedupWalk(look, true, slots);
    DedupFaults(look, true, slots);
    recs := r.value;
    DedupCovers(look, true, slots);
    DedupProvenance(look, true, slots);
    forall k | 0 <= k < |recs|
      ensures exists i :: 0 <= i < |slots| && recs[k].start <= slots[i].hostBase < recs[k].end
    {
      var j :| 0 <= j < |slots| && look(slots[j]) == Some(recs[k]);
      assert recs[k].start <= slots[j].hostBase < recs[k].end;
    }
  }

  /** A lookup that returns NULL: the target has no area at or above the
      slot's host address. The walk as written dereferences it. */
  lemma NullLookupFaults()
    ensures
      var slots := [Memslot(0, 0x9000, 0x1000)];
      var mm := [Vma(0x1000, 0x2000, true)];
      UniqueRegions(mm, slots).None?
  {
    var slots := [Memslot(0, 0x9000, 0x1000)];
    assert slots[..0] == [];
  }

  /** A host address in a hole below an area: the walk as written records
      the area above the hole, which does not contain the slot's address;
      the containment check rejects it. */
  lemma HoleRecordsForeignArea()
    ensures
      var slots := [Memslot(0, 0x1000, 0x1000)];
      var mm := [Vma(0x4000, 0x5000, true)];
      && UniqueRegions(mm, slots) == Some([VmaMap(0x4000, 0x5000)])
      && ContainingRecord(mm, Memslot(0, 0x1000, 0x1000)).None?
  {
    var slots := [Memslot(0, 0x1000, 0x1000)];
    var mm := [Vma(0x4000, 0x5000, true)];
    assert FindVma(mm, 0x1000) == Some(Vma(0x4000, 0x5000, true));
    assert FoundRecord(mm, slots[0]) == Some(VmaMap(0x4000, 0x5000));
    assert slots[..0] == [];
    assert Starts([]) == [];
    assert AddUnique([], VmaMap(0x4000, 0x5000)) == [VmaMap(0x4000, 0x5000)];
  }
}
