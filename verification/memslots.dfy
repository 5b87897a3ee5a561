/** The slot snapshot of the current module (`get_sorted_memslots` in
    memflow-kmod/vmtools.c): walk the VM's memory slots, keep the ones that
    are neither empty nor marked unmapped, convert page numbers to byte
    addresses and sort by guest base. */
module Memslots {
  import opened Kernel
  import opened Abi

  /** One `struct kvm_memory_slot`, reduced to the fields the snapshot
      reads. */
  datatype KvmSlot = KvmSlot(baseGfn: u64, npages: u64, userspaceAddr: u64)

  /** A slot the snapshot reports: `npages` is neither 0 nor `-1`. */
  predicate IsLive(s: KvmSlot) {
    s.npages != 0 && s.npages != AllOnes
  }

  /** The record written for a live slot. */
  function ToMemslot(s: KvmSlot): (m: Memslot)
    ensures m.base == GfnToGpa(s.baseGfn) && m.hostBase == s.userspaceAddr
    ensures m.mapSize == GfnToGpa(s.npages)
    ensures s.npages < 0x10_0000_0000_0000 ==> m.mapSize == s.npages * PageSize
  {
    Memslot(GfnToGpa(s.baseGfn), s.userspaceAddr, GfnToGpa(s.npages))
  }

  /** The live slots, converted, in storage order. */
  function LiveMemslots(s: seq<KvmSlot>): (r: seq<Memslot>)
    ensures |r| <= |s|
    decreases |s|
  {
    if |s| == 0 then []
    else
      var last := s[|s| - 1];
      LiveMemslots(s[..|s| - 1]) + (if IsLive(last) then [ToMemslot(last)] else [])
  }

  /** The snapshot emits exactly the live slots: every live slot's record is
      present, and every record present comes from a live slot. */
  lemma {:induction false} LiveMemslotsExactly(s: seq<KvmSlot>)
    ensures forall i :: 0 <= i < |s| && IsLive(s[i]) ==> ToMemslot(s[i]) in LiveMemslots(s)
    ensures forall x :: x in LiveMemslots(s) ==>
      exists i :: 0 <= i < |s| && IsLive(s[i]) && x == ToMemslot(s[i])
    decreases |s|
  {
    if |s| > 0 {
      var init := s[..|s| - 1];
      LiveMemslotsExactly(init);
      assert forall i :: 0 <= i < |init| ==> init[i] == s[i];
    }
  }

  /** Number of slots the snapshot reports. */
  function LiveCount(s: seq<KvmSlot>): nat {
    |LiveMemslots(s)|
  }

  /** When no slot is empty or unmapped, every slot is reported. */
  lemma {:induction false} AllLiveAllReported(s: seq<KvmSlot>)
    requires forall i :: 0 <= i < |s| ==> IsLive(s[i])
    ensures LiveCount(s) == |s|
    decreases |s|
  {
    if |s| > 0 {
      AllLiveAllReported(s[..|s| - 1]);
    }
  }

  /** The whole snapshot as the current module computes it. */
  function Snapshot(s: seq<KvmSlot>): seq<Memslot> {
    SortByBase(LiveMemslots(s))
  }

  /** The live slots of a prefix of the storage are a prefix of the live
      slots of the whole storage. */
  lemma {:induction false} LivePrefix(s: seq<KvmSlot>, n: nat)
    requires n <= |s|
    ensures |LiveMemslots(s[..n])| <= |LiveMemslots(s)|
    ensures LiveMemslots(s[..n]) == LiveMemslots(s)[..|LiveMemslots(s[..n])|]
    decreases |s| - n
  {
    if n < |s| {
      LivePrefix(s, n + 1);
      assert s[..n + 1][..n] == s[..n];
    } else {
      assert s[..n] == s;
    }
  }

  /** `get_sorted_memslots`, current version. `maxSlots` is accepted but
      never consulted: every live slot is written, however many there are. */
  method GetSortedMemslots(slots: seq<KvmSlot>, maxSlots: int) returns (out: seq<Memslot>, count: int)
    ensures count == |out| == LiveCount(slots)
    ensures SortedByBase(out)
    ensures multiset(out) == multiset(LiveMemslots(slots))
    ensures out == Snapshot(slots)
  {
    out := [];
    var i := 0;
    while i < |slots|
      invariant 0 <= i <= |slots|
      invariant out == LiveMemslots(slots[..i])
    {
      assert slots[..i + 1][..i] == slots[..i];
      if IsLive(slots[i]) {
        out := out + [ToMemslot(slots[i])];
      }
      i := i + 1;
    }
    assert slots[..i] == slots;
    count := |out|;
    out := SortByBase(out);
  }

  /** The snapshot the capacity argument calls for: the scan stops once
      `maxSlots` entries are written, as the older prototype's scan does. */
  method GetSortedMemslotsBounded(slots: seq<KvmSlot>, maxSlots: int) returns (out: seq<Memslot>, count: int)
    ensures count == |out| == Min(LiveCount(slots), if maxSlots < 0 then 0 else maxSlots)
    ensures SortedByBase(out)
    ensures multiset(out) == multiset(LiveMemslots(slots)[..count])
  {
    var buf: seq<Memslot> := [];
    var i := 0;
    while i < |slots| && |buf| < maxSlots
      invariant 0 <= i <= |slots|
      invariant buf == LiveMemslots(slots[..i])
      invariant |buf| <= (if maxSlots < 0 then 0 else maxSlots)
    {
      assert slots[..i + 1][..i] == slots[..i];
      if IsLive(slots[i]) {
        buf := buf + [ToMemslot(slots[i])];
      }
      i := i + 1;
    }
    var all := LiveMemslots(slots);
    LivePrefix(slots, i);
    assert buf == all[..|buf|];
    if i == |slots| {
      assert slots[..i] == slots;
    }
    assert |buf| == Min(|all|, if maxSlots < 0 then 0 else maxSlots);
    count := |buf|;
    out := SortByBase(buf);
  }
}
