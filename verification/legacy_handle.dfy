/** VM handles of the older prototype (vmtools.c at the repository root).
    Here `open_kvm` first allocates a private record that points at the
    instance, then creates the descriptor; `memflow_vm_release` drops the
    instance reference through that record. Allocation success and the
    descriptor number are parameters. */
module LegacyHandle {
  import opened Kernel
  import opened Registry

  /** Outcome of the legacy `open_kvm`: the return value, the instance, and
      whether a private record is left allocated for the descriptor. */
  datatype Opened = Opened(ret: int, kvm: Kvm, privateLive: bool)

  /** Outcome of closing a handle: return value, instances, and whether the
      handle's private record was freed. */
  datatype Closed = Closed(ret: int, vms: seq<Kvm>, privateFreed: bool)

  /** Legacy `open_kvm`: a failed allocation drops the reference; a failed
      descriptor frees the record and drops the reference. */
  function OpenKvm(kvm: Kvm, allocOk: bool, getfd: int): (r: Opened)
    requires kvm.refcount > 0
    ensures r.ret >= 0 <==> allocOk && getfd >= 0
    ensures r.ret >= 0 ==> r.ret == getfd && r.kvm == kvm && r.privateLive
    ensures r.ret < 0 ==> r.ret == -1 && Get(r.kvm) == kvm && !r.privateLive
  {
    if !allocOk then Opened(-1, Put(kvm), false)
    else if getfd < 0 then Opened(-1, Put(kvm), false)
    else Opened(getfd, kvm, true)
  }

  /** Legacy `open_vm`: the same first-match walk as the current module,
      with the legacy `open_kvm`. */
  method OpenVm(vms: seq<Kvm>, targetPid: int, allocOk: bool, getfd: int)
    returns (ret: int, vms': seq<Kvm>, privateLive: bool)
    ensures |vms'| == |vms|
    ensures ret >= 0 <==> FirstMatch(vms, targetPid).Some? && allocOk && getfd >= 0
    ensures ret >= 0 ==> ret == getfd && privateLive
    ensures ret < 0 ==> ret == -1 && vms' == vms && !privateLive
    ensures ret >= 0 ==>
      var k := FirstMatch(vms, targetPid).value;
      vms'[k].refcount == vms[k].refcount + 1 && PutAt(vms', k) == vms
  {
    ret, vms', privateLive := -1, vms, false;
    var i := 0;
    while i < |vms'|
      invariant 0 <= i <= |vms'| == |vms|
      invariant ret == -1 && vms' == vms && !privateLive
      invariant forall j :: 0 <= j < i ==> !Matches(targetPid, vms[j])
    {
      vms' := vms'[i := Get(vms'[i])];
      if Matches(targetPid, vms'[i]) {
        var o := OpenKvm(vms'[i], allocOk, getfd);
        ret, privateLive := o.ret, o.privateLive;
        vms' := vms'[i := o.kvm];
        assert FirstMatch(vms, targetPid) == Some(i);
        return;
      }
      vms' := vms'[i := Put(vms'[i])];
      assert vms'[i] == vms[i];
      i := i + 1;
    }
  }

  /** Legacy `memflow_vm_release`, as written: the instance reference is
      dropped once, but the private record allocated by `open_kvm` is never
      freed. */
  function Release(vms: seq<Kvm>, index: nat): (r: Closed)
    requires index < |vms| && vms[index].refcount > 0
    ensures r.ret == 0 && !r.privateFreed
    ensures |r.vms| == |vms| && r.vms[index].refcount == vms[index].refcount - 1
    ensures forall j :: 0 <= j < |vms| && j != index ==> r.vms[j] == vms[j]
  {
    Closed(0, PutAt(vms, index), false)
  }

  /** The release the open path calls for: drop the reference and free the
      private record. */
  function ReleaseFixed(vms: seq<Kvm>, index: nat): (r: Closed)
    requires index < |vms| && vms[index].refcount > 0
    ensures r.ret == 0 && r.privateFreed
    ensures |r.vms| == |vms| && r.vms[index].refcount == vms[index].refcount - 1
    ensures forall j :: 0 <= j < |vms| && j != index ==> r.vms[j] == vms[j]
  {
    Closed(0, PutAt(vms, index), true)
  }

  /** A successful open followed by a close restores every reference count
      but leaves the open's private record allocated; the corrected release
      leaves nothing behind. */
  lemma OpenCloseLeaksPrivate(vms: seq<Kvm>, targetPid: int, getfd: int)
    requires FirstMatch(vms, targetPid).Some? && getfd >= 0
    ensures
      var k := FirstMatch(vms, targetPid).value;
      var o := OpenKvm(Get(vms[k]), true, getfd);
      var held := vms[k := o.kvm];
      && o.privateLive
      && Release(held, k).vms == vms && !Release(held, k).privateFreed
      && ReleaseFixed(held, k).vms == vms && ReleaseFixed(held, k).privateFreed
  {
    var k := FirstMatch(vms, targetPid).value;
    var o := OpenKvm(Get(vms[k]), true, getfd);
    assert PutAt(vms[k := o.kvm], k) == vms;
  }
}
