/** The remap loop with the behaviour the mapped-VM layout calls for: every
    reported slot is translated exactly once, by the region that covers its
    original host address, and lies inside that region's new mapping; a
    rewritten record starts at the address the mapping returned; slots whose
    region is gone or failed to map are dropped rather than left
    untranslated. Records are visited in order and never swapped; a mapping
    whose new range would wrap past 2^64 counts as failed. */
module RemapFixed {
  import opened Kernel
  import opened Abi
  import opened AddressSpace
  import opened UniqueVmas
  import opened SlotTable
  import opened Remap

  /** A region and where it now lives in the caller. */
  datatype Remapped = Remapped(orig: VmaMap, now: VmaMap)

  /** `after` is `before` translated through `m`: inside the old range
      before, inside the new one after, at the same distance from the
      start. */
  predicate TranslatedBy(before: Memslot, after: Memslot, m: Remapped) {
    && m.orig.start <= before.hostBase < m.orig.end
    && m.now.start <= after.hostBase < m.now.end
    && after.hostBase - m.now.start == before.hostBase - m.orig.start
  }

  /** A record that maps, is non-empty, and whose new range fits below
      2^64. */
  predicate Usable(mm: Mm, mmap: MmapOracle, rec: VmaMap) {
    && StepOf(mm, mmap, rec).MapOk?
    && rec.start < rec.end
    && StepOf(mm, mmap, rec).ret + (rec.end - rec.start) < TwoTo64
  }

  /** Where a usable record lives after mapping: at the returned address,
      with its length. */
  function Relocated(mm: Mm, mmap: MmapOracle, rec: VmaMap): (m: Remapped)
    requires Usable(mm, mmap, rec)
    ensures m.orig == rec && m.now.start == mmap(FindVma(mm, rec.start).value)
    ensures m.now.start < m.now.end && m.now.end - m.now.start == rec.end - rec.start
  {
    var ret := StepOf(mm, mmap, rec).ret;
    Remapped(rec, VmaMap(ret, ret + (rec.end - rec.start)))
  }

  /** A usable record that spans exactly its area is moved to where
      `vm_mmap` placed that area's request, and keeps the length the
      request asked for. */
  lemma RelocatedAsRequested(mm: Mm, env: MmapEnv, rec: VmaMap)
    requires Usable(mm, OracleOf(env), rec)
    requires FindVma(mm, rec.start).Some? && rec == RecordOf(FindVma(mm, rec.start).value)
    ensures
      var v := FindVma(mm, rec.start).value;
      var m := Relocated(mm, OracleOf(env), rec);
      && env.privateOk(v) && env.fileOk(v)
      && m.now.start == env.vmMmap(MmapRequestFor(v))
      && m.now.end - m.now.start == MmapRequestFor(v).length
  {
  }

  /** Some record among `recs` that satisfies `ok` covers the slot's host
      address. */
  predicate CoveredBy(ok: VmaMap -> bool, recs: seq<VmaMap>, s: Memslot) {
    exists j :: 0 <= j < |recs| && ok(recs[j]) && InRange(s, recs[j].start, recs[j].end)
  }

  function UsableIn(mm: Mm, mmap: MmapOracle): VmaMap -> bool {
    rec => Usable(mm, mmap, rec)
  }

  /** Some usable record among `recs` covers the slot's host address. */
  predicate Covered(mm: Mm, mmap: MmapOracle, recs: seq<VmaMap>, s: Memslot) {
    CoveredBy(UsableIn(mm, mmap), recs, s)
  }

  lemma CoveredSnoc(ok: VmaMap -> bool, recs: seq<VmaMap>, i: nat, s: Memslot)
    requires i < |recs|
    ensures CoveredBy(ok, recs[..i + 1], s) <==>
      CoveredBy(ok, recs[..i], s) || (ok(recs[i]) && InRange(s, recs[i].start, recs[i].end))
  {
    var a, b := recs[..i], recs[..i + 1];
    if CoveredBy(ok, b, s) {
      var j :| 0 <= j < |b| && ok(b[j]) && InRange(s, b[j].start, b[j].end);
      if j < i {
        assert a[j] == b[j];
      }
    }
    if CoveredBy(ok, a, s) {
      var j :| 0 <= j < |a| && ok(a[j]) && InRange(s, a[j].start, a[j].end);
      assert b[j] == a[j];
    }
    if ok(recs[i]) && InRange(s, recs[i].start, recs[i].end) {
      assert b[i] == recs[i];
    }
  }

  /** The source's modular offset arithmetic agrees with plain arithmetic
      as long as the new range does not wrap. */
  lemma OffsetNoWrap(h: u64, lo: u64, ret: u64, len: nat)
    requires lo <= h < lo + len && ret + len < TwoTo64
    ensures Add64(h, Sub64(ret, lo)) == h - lo + ret
  {
  }

  /** A slot of the table together with whether it has been translated. */
  datatype Entry = Entry(slot: Memslot, moved: bool)

  /** An entry is either untouched, or translated through one of the
      mapped regions with its guest range kept. */
  predicate Accounted(e: Entry, orig: Memslot, mapped: seq<Remapped>) {
    if e.moved then
      && GuestOf(e.slot) == GuestOf(orig)
      && exists j :: 0 <= j < |mapped| && TranslatedBy(orig, e.slot, mapped[j])
    else e.slot == orig
  }

  lemma AccountedGrows(e: Entry, orig: Memslot, mapped: seq<Remapped>, m: Remapped)
    requires Accounted(e, orig, mapped)
    ensures Accounted(e, orig, mapped + [m])
  {
    if e.moved {
      var j :| 0 <= j < |mapped| && TranslatedBy(orig, e.slot, mapped[j]);
      assert (mapped + [m])[j] == mapped[j];
    }
  }

  /** Translates the not yet translated slots in `m`'s old range. */
  method MoveEntries(entries: seq<Entry>, slots0: seq<Memslot>, mapped: seq<Remapped>, m: Remapped)
    returns (r: seq<Entry>)
    requires |entries| == |slots0|
    requires m.orig.start < m.orig.end && m.now.start + (m.orig.end - m.orig.start) == m.now.end
    requires forall k :: 0 <= k < |entries| ==> Accounted(entries[k], slots0[k], mapped)
    ensures |r| == |slots0|
    ensures forall k :: 0 <= k < |r| ==>
      (r[k].moved <==> entries[k].moved || InRange(slots0[k], m.orig.start, m.orig.end))
    ensures forall k :: 0 <= k < |r| ==> Accounted(r[k], slots0[k], mapped + [m])
  {
    r := entries;
    var k := 0;
    while k < |r|
      invariant 0 <= k <= |r| == |entries|
      invariant forall j :: k <= j < |r| ==> r[j] == entries[j]
      invariant forall j :: 0 <= j < k ==>
        (r[j].moved <==> entries[j].moved || InRange(slots0[j], m.orig.start, m.orig.end))
      invariant forall j :: 0 <= j < k ==> Accounted(r[j], slots0[j], mapped + [m])
    {
      if !r[k].moved && InRange(r[k].slot, m.orig.start, m.orig.end) {
        var h := r[k].slot.hostBase;
        OffsetNoWrap(h, m.orig.start, m.now.start, m.orig.end - m.orig.start);
        var e := Entry(r[k].slot.(hostBase := Add64(h, Sub64(m.now.start, m.orig.start))), true);
        assert (mapped + [m])[|mapped|] == m;
        assert TranslatedBy(slots0[k], e.slot, m);
        r := r[k := e];
      } else {
        AccountedGrows(r[k], slots0[k], mapped, m);
      }
      k := k + 1;
    }
  }

  /** The entries translated so far are exactly the slots some record of
      `recs` covers. */
  predicate CoverState(entries: seq<Entry>, slots0: seq<Memslot>, mm: Mm, mmap: MmapOracle, recs: seq<VmaMap>) {
    && |entries| == |slots0|
    && forall k :: 0 <= k < |slots0| ==> (entries[k].moved <==> Covered(mm, mmap, recs, slots0[k]))
  }

  predicate AccountState(entries: seq<Entry>, slots0: seq<Memslot>, mapped: seq<Remapped>) {
    && |entries| == |slots0|
    && forall k :: 0 <= k < |slots0| ==> Accounted(entries[k], slots0[k], mapped)
  }

  /** Every mapped region is the relocation of a usable input record. */
  predicate MappedFrom(mapped: seq<Remapped>, recs0: seq<VmaMap>, mm: Mm, mmap: MmapOracle) {
    forall j :: 0 <= j < |mapped| ==>
      mapped[j].orig in recs0 && Usable(mm, mmap, mapped[j].orig) && mapped[j] == Relocated(mm, mmap, mapped[j].orig)
  }

  /** How many of the records are usable. */
  function UsableCount(mm: Mm, mmap: MmapOracle, recs: seq<VmaMap>): nat
    decreases |recs|
  {
    if |recs| == 0 then 0
    else UsableCount(mm, mmap, recs[..|recs| - 1]) + (if Usable(mm, mmap, recs[|recs| - 1]) then 1 else 0)
  }

  /** A usable record among `recs` makes the count positive. */
  lemma {:induction false} UsableCountPositive(mm: Mm, mmap: MmapOracle, recs: seq<VmaMap>, j: nat)
    requires j < |recs| && Usable(mm, mmap, recs[j])
    ensures UsableCount(mm, mmap, recs) > 0
    decreases |recs|
  {
    if j < |recs| - 1 {
      UsableCountPositive(mm, mmap, recs[..|recs| - 1], j);
    }
  }

  /** One iteration of the main loop: record `i` maps or is passed over. */
  method MapOne(slots0: seq<Memslot>, recs0: seq<VmaMap>, i: nat, mm: Mm, mmap: MmapOracle,
                entries: seq<Entry>, mapped: seq<Remapped>)
    returns (entries': seq<Entry>, mapped': seq<Remapped>)
    requires i < |recs0| && |mapped| <= i
    requires CoverState(entries, slots0, mm, mmap, recs0[..i])
    requires AccountState(entries, slots0, mapped)
    requires MappedFrom(mapped, recs0, mm, mmap)
    ensures |mapped'| <= i + 1
    ensures |mapped'| == |mapped| + (if Usable(mm, mmap, recs0[i]) then 1 else 0)
    ensures CoverState(entries', slots0, mm, mmap, recs0[..i + 1])
    ensures AccountState(entries', slots0, mapped')
    ensures MappedFrom(mapped', recs0, mm, mmap)
  {
    var rec := recs0[i];
    forall k | 0 <= k < |slots0|
      ensures Covered(mm, mmap, recs0[..i + 1], slots0[k]) <==>
        Covered(mm, mmap, recs0[..i], slots0[k]) || (Usable(mm, mmap, rec) && InRange(slots0[k], rec.start, rec.end))
    {
      CoveredSnoc(UsableIn(mm, mmap), recs0, i, slots0[k]);
    }
    if Usable(mm, mmap, rec) {
      var m := Relocated(mm, mmap, rec);
      entries' := MoveEntries(entries, slots0, mapped, m);
      mapped' := mapped + [m];
    } else {
      entries', mapped' := entries, mapped;
    }
  }

  /** The main loop: every usable record, in order, translates the slots of
      its old range that no earlier record translated. */
  method MapRegions(slots0: seq<Memslot>, recs0: seq<VmaMap>, mm: Mm, mmap: MmapOracle)
    returns (entries: seq<Entry>, mapped: seq<Remapped>)
    ensures |entries| == |slots0| && |mapped| <= |recs0|
    ensures |mapped| == UsableCount(mm, mmap, recs0)
    ensures forall k :: 0 <= k < |slots0| ==> (entries[k].moved <==> Covered(mm, mmap, recs0, slots0[k]))
    ensures forall k :: 0 <= k < |slots0| ==> Accounted(entries[k], slots0[k], mapped)
    ensures forall j :: 0 <= j < |mapped| ==>
      mapped[j].orig in recs0 && Usable(mm, mmap, mapped[j].orig) && mapped[j] == Relocated(mm, mmap, mapped[j].orig)
  {
    entries := seq(|slots0|, k requires 0 <= k < |slots0| => Entry(slots0[k], false));
    mapped := [];
    var i := 0;
    while i < |recs0|
      invariant 0 <= i <= |recs0| && |mapped| <= i
      invariant CoverState(entries, slots0, mm, mmap, recs0[..i])
      invariant AccountState(entries, slots0, mapped)
      invariant MappedFrom(mapped, recs0, mm, mmap)
      invariant |mapped| == UsableCount(mm, mmap, recs0[..i])
    {
      entries, mapped := MapOne(slots0, recs0, i, mm, mmap, entries, mapped);
      assert recs0[..i + 1][..i] == recs0[..i];
      i := i + 1;
    }
    assert recs0[..i] == recs0;
  }

  /** The translated slots and the slots they came from, in table order. */
  function Kept(entries: seq<Entry>, slots0: seq<Memslot>): (r: (seq<Memslot>, seq<Memslot>))
    requires |entries| == |slots0|
    ensures |r.0| == |r.1| <= |slots0|
    decreases |entries|
  {
    if |entries| == 0 then ([], [])
    else
      var n := |entries| - 1;
      var p := Kept(entries[..n], slots0[..n]);
      if entries[n].moved then (p.0 + [entries[n].slot], p.1 + [slots0[n]]) else p
  }

  /** Every kept pair is a translated entry and its original slot. */
  lemma {:induction false} KeptProvenance(entries: seq<Entry>, slots0: seq<Memslot>)
    requires |entries| == |slots0|
    ensures forall a :: 0 <= a < |Kept(entries, slots0).0| ==>
      exists k :: 0 <= k < |slots0| && entries[k].moved
        && Kept(entries, slots0).0[a] == entries[k].slot && Kept(entries, slots0).1[a] == slots0[k]
    decreases |entries|
  {
    if |entries| > 0 {
      var n := |entries| - 1;
      var e, s := entries[..n], slots0[..n];
      KeptProvenance(e, s);
      var p := Kept(e, s);
      var r := Kept(entries, slots0);
      assert r == if entries[n].moved then (p.0 + [entries[n].slot], p.1 + [slots0[n]]) else p;
      forall a | 0 <= a < |r.0|
        ensures exists k :: 0 <= k < |slots0| && entries[k].moved && r.0[a] == entries[k].slot && r.1[a] == slots0[k]
      {
        if a < |p.0| {
          var k :| 0 <= k < n && e[k].moved && p.0[a] == e[k].slot && p.1[a] == s[k];
          assert e[k] == entries[k] && s[k] == slots0[k];
          assert r.0[a] == p.0[a] && r.1[a] == p.1[a];
        } else {
          assert r.0[a] == entries[n].slot && r.1[a] == slots0[n];
        }
      }
    } else {
      assert Kept(entries, slots0) == ([], []);
    }
  }

  /** Every translated entry's original slot is kept. */
  lemma {:induction false} KeptComplete(entries: seq<Entry>, slots0: seq<Memslot>)
    requires |entries| == |slots0|
    ensures forall k :: 0 <= k < |slots0| && entries[k].moved ==> slots0[k] in Kept(entries, slots0).1
    decreases |entries|
  {
    if |entries| > 0 {
      var n := |entries| - 1;
      var e, s := entries[..n], slots0[..n];
      KeptComplete(e, s);
      forall k | 0 <= k < |slots0| && entries[k].moved
        ensures slots0[k] in Kept(entries, slots0).1
      {
        if k < n {
          assert e[k] == entries[k] && s[k] == slots0[k];
        }
      }
    }
  }

  /** The kept originals form a sub-multiset of the table. */
  lemma {:induction false} KeptSubMultiset(entries: seq<Entry>, slots0: seq<Memslot>)
    requires |entries| == |slots0|
    ensures multiset(Kept(entries, slots0).1) <= multiset(slots0)
    decreases |entries|
  {
    if |entries| > 0 {
      var n := |entries| - 1;
      KeptSubMultiset(entries[..n], slots0[..n]);
      assert slots0 == slots0[..n] + [slots0[n]];
    }
  }

  /** A bound on the guest bases of the table bounds the kept slots. */
  lemma {:induction false} KeptBasesBelow(entries: seq<Entry>, slots0: seq<Memslot>, b: int)
    requires |entries| == |slots0|
    requires forall k :: 0 <= k < |slots0| ==> entries[k].slot.base == slots0[k].base <= b
    ensures forall a :: 0 <= a < |Kept(entries, slots0).0| ==> Kept(entries, slots0).0[a].base <= b
    decreases |entries|
  {
    if |entries| > 0 {
      var n := |entries| - 1;
      var e, s := entries[..n], slots0[..n];
      assert forall k :: 0 <= k < n ==> e[k] == entries[k] && s[k] == slots0[k];
      KeptBasesBelow(e, s, b);
    }
  }

  /** When translation keeps guest bases, keeping a subsequence keeps the
      table sorted by guest base. */
  lemma {:induction false} KeptSorted(entries: seq<Entry>, slots0: seq<Memslot>)
    requires |entries| == |slots0| && SortedByBase(slots0)
    requires forall k :: 0 <= k < |slots0| ==> entries[k].slot.base == slots0[k].base
    ensures SortedByBase(Kept(entries, slots0).0)
    decreases |entries|
  {
    if |entries| > 0 {
      var n := |entries| - 1;
      var e, s := entries[..n], slots0[..n];
      assert forall k :: 0 <= k < n ==> e[k] == entries[k] && s[k] == slots0[k];
      assert SortedByBase(s) by {
        forall i, j | 0 <= i < j < |s|
          ensures MemslotCompare(s[i], s[j]) <= 0
        {
          assert s[i] == slots0[i] && s[j] == slots0[j];
        }
      }
      KeptSorted(e, s);
      var p := Kept(e, s).0;
      if entries[n].moved {
        forall k | 0 <= k < n
          ensures s[k].base <= slots0[n].base
        {
          assert MemslotCompare(slots0[k], slots0[n]) <= 0;
        }
        KeptBasesBelow(e, s, slots0[n].base);
        var r := p + [entries[n].slot];
        forall i, j | 0 <= i < j < |r|
          ensures MemslotCompare(r[i], r[j]) <= 0
        {
          assert r[i] == p[i];
          if j < |p| {
            assert r[j] == p[j];
          }
        }
      }
    }
  }

  /** Keeps the translated slots, each with the slot it came from, in table
      order. */
  method CollectMoved(entries: seq<Entry>, slots0: seq<Memslot>) returns (slots: seq<Memslot>, origins: seq<Memslot>)
    requires |entries| == |slots0|
    ensures (slots, origins) == Kept(entries, slots0)
  {
    slots, origins := [], [];
    var k := 0;
    while k < |entries|
      invariant 0 <= k <= |entries|
      invariant (slots, origins) == Kept(entries[..k], slots0[..k])
    {
      assert entries[..k + 1][..k] == entries[..k];
      assert slots0[..k + 1][..k] == slots0[..k];
      if entries[k].moved {
        slots := slots + [entries[k].slot];
        origins := origins + [slots0[k]];
      }
      k := k + 1;
    }
    assert entries[..k] == entries && slots0[..k] == slots0;
  }

  /** The corrected remap. Every output slot comes from an input slot with
      the same guest range, and lies inside the new mapping of a region whose
      old range held it, at the same distance from the start; every input
      slot some usable region covers is reported; every record starts where
      its mapping was placed and keeps its length. */
  method RemapVmasFixed(slots0: seq<Memslot>, recs0: seq<VmaMap>, mm: Mm, mmap: MmapOracle)
    returns (slots: seq<Memslot>, origins: seq<Memslot>, mapped: seq<Remapped>)
    ensures |slots| == |origins| <= |slots0| && |mapped| <= |recs0|
    ensures |mapped| == UsableCount(mm, mmap, recs0)
    ensures multiset(origins) <= multiset(slots0)
    ensures forall a :: 0 <= a < |slots| ==>
      && GuestOf(slots[a]) == GuestOf(origins[a])
      && exists j :: 0 <= j < |mapped| && TranslatedBy(origins[a], slots[a], mapped[j])
    ensures forall k :: 0 <= k < |slots0| && Covered(mm, mmap, recs0, slots0[k]) ==> slots0[k] in origins
    ensures forall a :: 0 <= a < |origins| ==> Covered(mm, mmap, recs0, origins[a])
    ensures forall j :: 0 <= j < |mapped| ==>
      mapped[j].orig in recs0 && Usable(mm, mmap, mapped[j].orig) && mapped[j] == Relocated(mm, mmap, mapped[j].orig)
    ensures SortedByBase(slots0) ==> SortedByBase(slots)
  {
    var entries;
    entries, mapped := MapRegions(slots0, recs0, mm, mmap);
    forall k | 0 <= k < |slots0|
      ensures entries[k].slot.base == slots0[k].base
    {
      assert Accounted(entries[k], slots0[k], mapped);
      if entries[k].moved {
        assert GuestOf(entries[k].slot) == GuestOf(slots0[k]);
      }
    }
    slots, origins := CollectMoved(entries, slots0);
    KeptProvenance(entries, slots0);
    KeptComplete(entries, slots0);
    KeptSubMultiset(entries, slots0);
    if SortedByBase(slots0) {
      KeptSorted(entries, slots0);
    }
    forall a | 0 <= a < |slots|
      ensures GuestOf(slots[a]) == GuestOf(origins[a])
      ensures exists j :: 0 <= j < |mapped| && TranslatedBy(origins[a], slots[a], mapped[j])
    {
      var k :| 0 <= k < |slots0| && entries[k].moved && slots[a] == entries[k].slot && origins[a] == slots0[k];
      assert Accounted(entries[k], slots0[k], mapped);
    }
    forall a | 0 <= a < |origins|
      ensures Covered(mm, mmap, recs0, origins[a])
    {
      var k :| 0 <= k < |slots0| && entries[k].moved && slots[a] == entries[k].slot && origins[a] == slots0[k];
    }
  }
}
