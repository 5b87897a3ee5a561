/** The target process's address space as the remap engine reads it: an
    ordered list of virtual memory areas, the kernel's `find_vma` lookup on
    it, and the request `mmap_vma` issues to map one area into the caller.
    The mapping itself (page pinning and PFN remapping) is an oracle that
    returns either an address or an error value. */
module AddressSpace {
  import opened Kernel

  /** One `vm_area_struct`: `[start, end)` and whether it allows writes. */
  datatype Vma = Vma(start: u64, end: u64, writable: bool)

  /** The areas of one address space in list order. */
  type Mm = seq<Vma>

  /** What the kernel guarantees of a process's areas: each is non-empty
      and they are sorted and disjoint. */
  predicate WellFormedMm(mm: Mm) {
    && (forall k :: 0 <= k < |mm| ==> mm[k].start < mm[k].end)
    && (forall j, k :: 0 <= j < k < |mm| ==> mm[j].end <= mm[k].start)
  }

  predicate Contains(v: Vma, addr: u64) {
    v.start <= addr < v.end
  }

  /** Index of the area `find_vma` returns: the first one that ends above
      `addr`. The area need not contain `addr`, which may lie in a hole
      below it. */
  function FindVmaIndex(mm: Mm, addr: u64): (r: Option<nat>)
    ensures r.Some? ==> r.value < |mm| && addr < mm[r.value].end
    ensures r.Some? ==> forall j :: 0 <= j < r.value ==> mm[j].end <= addr
    ensures r.None? <==> forall j :: 0 <= j < |mm| ==> mm[j].end <= addr
  {
    if |mm| == 0 then None
    else if addr < mm[0].end then Some(0)
    else match FindVmaIndex(mm[1..], addr)
      case None => None
      case Some(k) => Some(k + 1)
  }

  /** `find_vma(mm, addr)`; None stands for NULL. */
  function FindVma(mm: Mm, addr: u64): (r: Option<Vma>)
    ensures r.Some? ==> r.value in mm && addr < r.value.end
    ensures r.Some? <==> FindVmaIndex(mm, addr).Some?
    ensures r.Some? ==> r.value == mm[FindVmaIndex(mm, addr).value]
    ensures r.None? <==> forall j :: 0 <= j < |mm| ==> mm[j].end <= addr
  {
    match FindVmaIndex(mm, addr)
    case None => None
    case Some(k) => Some(mm[k])
  }

  /** The area `find_vma` returns is the first one, in address order, that
      ends above `addr`. */
  lemma FindVmaIsFirst(mm: Mm, addr: u64)
    ensures FindVma(mm, addr).Some? ==>
      exists k :: 0 <= k < |mm| && mm[k] == FindVma(mm, addr).value && forall j :: 0 <= j < k ==> mm[j].end <= addr
  {
    if FindVma(mm, addr).Some? {
      var k := FindVmaIndex(mm, addr).value;
      assert mm[k] == FindVma(mm, addr).value;
    }
  }

  /** In a well-formed address space, looking up the start of an area
      finds that area. */
  lemma FindVmaOfStart(mm: Mm, k: nat)
    requires WellFormedMm(mm) && k < |mm|
    ensures FindVma(mm, mm[k].start) == Some(mm[k])
  {
    var r := FindVmaIndex(mm, mm[k].start);
    assert r.Some? by {
      assert mm[k].start < mm[k].end;
    }
  }

  /** In a well-formed address space, `find_vma` returns an area that
      contains `addr` exactly when some area does. */
  lemma FindVmaContains(mm: Mm, addr: u64)
    requires WellFormedMm(mm)
    ensures (FindVma(mm, addr).Some? && Contains(FindVma(mm, addr).value, addr))
        <==> exists k :: 0 <= k < |mm| && Contains(mm[k], addr)
  {
    if k :| 0 <= k < |mm| && Contains(mm[k], addr) {
      var r := FindVmaIndex(mm, addr);
      assert r.Some?;
    }
  }

  /** Protection bits of the new mapping. */
  datatype Prot = Prot(read: bool, write: bool)

  /** The `vm_mmap` request `mmap_vma` makes for an area: its length, read
      access always, write access only if the area allows writes, a shared
      mapping at file offset 0. */
  datatype MmapRequest = MmapRequest(length: u64, prot: Prot, shared: bool, offset: u64)

  function MmapRequestFor(v: Vma): (q: MmapRequest)
    ensures q.prot.read && (q.prot.write <==> v.writable)
    ensures q.shared && q.offset == 0
    ensures v.start <= v.end ==> q.length == v.end - v.start
  {
    MmapRequest(Sub64(v.end, v.start), Prot(true, v.writable), true, 0)
  }

  /** The outcomes of the kernel calls inside `mmap_vma`, per area: whether
      its private record is allocated, whether its wrapper file is created,
      and what `vm_mmap` returns for a request (an address or an error
      value). */
  datatype MmapEnv = MmapEnv(privateOk: Vma -> bool, fileOk: Vma -> bool, vmMmap: MmapRequest -> u64)

  /** `mmap_vma`: -1 when its private record or wrapper file cannot be
      created, otherwise whatever `vm_mmap` returns for the area's
      request. */
  function MmapVma(v: Vma, env: MmapEnv): (ret: u64)
    ensures !env.privateOk(v) || !env.fileOk(v) ==> ret == AllOnes && IsErrValue(ret)
    ensures env.privateOk(v) && env.fileOk(v) ==> ret == env.vmMmap(MmapRequestFor(v))
  {
    if !env.privateOk(v) || !env.fileOk(v) then AllOnes else env.vmMmap(MmapRequestFor(v))
  }

  /** The address the mapping yields for each area, as seen by the remap
      engine. */
  type MmapOracle = Vma -> u64

  /** The oracle of an engine that maps every area with `mmap_vma`. */
  function OracleOf(env: MmapEnv): MmapOracle {
    v => MmapVma(v, env)
  }
}
