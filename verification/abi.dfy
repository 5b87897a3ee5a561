/** The records exchanged with the caller (`vm_memslot`, `vm_info`,
    `vm_map_info`), the slot ordering used by the snapshot, and the sort
    that establishes it. */
module Abi {
  import opened Kernel

  /** `vm_memslot`: guest physical base, host virtual base and size, all
      unsigned 64-bit. */
  datatype Memslot = Memslot(base: u64, hostBase: u64, mapSize: u64)

  /** The caller-visible part of `vm_info` after MEMFLOW_VM_INFO. */
  datatype VmInfo = VmInfo(userspacePid: int, slotCount: u32)

  /** The caller-visible part of `vm_map_info` after MEMFLOW_MAP_VM. */
  datatype VmMapInfo = VmMapInfo(slotCount: u32)

  /** The requests a VM descriptor accepts. `MemflowVmMapInfo` is the
      request the older prototype dispatches on; it has no definition in the
      current ABI header. */
  datatype IoctlCmd = MemflowVmInfo | MemflowMapVm | MemflowVmMapInfo | OtherCmd(nr: int)

  /** The guest side of a slot: what remapping must never change. */
  datatype GuestRange = GuestRange(base: u64, size: u64)

  function GuestOf(s: Memslot): GuestRange {
    GuestRange(s.base, s.mapSize)
  }

  function Guests(s: seq<Memslot>): (g: seq<GuestRange>)
    ensures |g| == |s|
    ensures forall k :: 0 <= k < |s| ==> g[k] == GuestOf(s[k])
  {
    seq(|s|, k requires 0 <= k < |s| => GuestOf(s[k]))
  }

  /** `memslot_compare`: the three-way comparison of guest bases. */
  function MemslotCompare(l: Memslot, r: Memslot): (c: int)
    ensures c < 0 <==> l.base < r.base
    ensures c == 0 <==> l.base == r.base
    ensures c > 0 <==> l.base > r.base
  {
    if l.base < r.base then -1
    else if l.base > r.base then 1
    else 0
  }

  /** Non-decreasing by guest base, i.e. ordered under `memslot_compare`. */
  predicate SortedByBase(s: seq<Memslot>) {
    forall i, j :: 0 <= i < j < |s| ==> MemslotCompare(s[i], s[j]) <= 0
  }

  /** Inserts `x` before the first element it does not compare above. */
  function InsertByBase(x: Memslot, s: seq<Memslot>): (r: seq<Memslot>)
    requires SortedByBase(s)
    ensures SortedByBase(r)
    ensures multiset(r) == multiset(s) + multiset{x}
    ensures |r| == |s| + 1
  {
    if |s| == 0 then [x]
    else if MemslotCompare(x, s[0]) <= 0 then [x] + s
    else
      var tail := InsertByBase(x, s[1..]);
      assert s == [s[0]] + s[1..];
      ConsSorted(s[0], x, s[1..], tail);
      [s[0]] + tail
  }

  lemma ConsSorted(h: Memslot, x: Memslot, rest: seq<Memslot>, tail: seq<Memslot>)
    requires SortedByBase([h] + rest) && SortedByBase(tail)
    requires h.base < x.base
    requires multiset(tail) == multiset(rest) + multiset{x}
    ensures SortedByBase([h] + tail)
  {
    forall y | y in tail
      ensures h.base <= y.base
    {
      assert y in multiset(tail);
      if y != x {
        assert y in multiset(rest);
        var k :| 0 <= k < |rest| && rest[k] == y;
        assert ([h] + rest)[0] == h && ([h] + rest)[k + 1] == y;
        assert MemslotCompare(h, y) <= 0;
      }
    }
    var t := [h] + tail;
    forall i, j | 0 <= i < j < |t|
      ensures MemslotCompare(t[i], t[j]) <= 0
    {
      if i == 0 {
        assert t[j] == tail[j - 1];
        assert t[j] in tail;
      } else {
        assert t[i] == tail[i - 1] && t[j] == tail[j - 1];
      }
    }
  }

  /** `memslot_compare` is antisymmetric, as `sort` requires of it. */
  lemma CompareAntisymmetric(l: Memslot, r: Memslot)
    ensures MemslotCompare(l, r) == -MemslotCompare(r, l)
  {
  }

  /** The kernel's `sort(..., memslot_compare, ...)` on the snapshot. The
      kernel uses heapsort, which is not stable; only the order of slots with
      equal bases can differ, and the contract below does not fix it. */
  function SortByBase(s: seq<Memslot>): (r: seq<Memslot>)
    ensures SortedByBase(r)
    ensures multiset(r) == multiset(s)
    ensures |r| == |s|
  {
    if |s| == 0 then []
    else
      assert s == [s[0]] + s[1..];
      InsertByBase(s[0], SortByBase(s[1..]))
  }

  /** A sorted sequence is left unchanged by the sort, so sorting twice is
      sorting once. */
  lemma {:induction false} SortSortedIsIdentity(s: seq<Memslot>)
    requires SortedByBase(s)
    ensures SortByBase(s) == s
  {
    if |s| > 0 {
      assert SortedByBase(s[1..]);
      SortSortedIsIdentity(s[1..]);
      assert s == [s[0]] + s[1..];
    }
  }

  lemma SortIdempotent(s: seq<Memslot>)
    ensures SortByBase(SortByBase(s)) == SortByBase(s)
  {
    SortSortedIsIdentity(SortByBase(s));
  }
}
