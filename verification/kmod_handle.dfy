/** VM handles of the current module (memflow-kmod/vmtools.c): `open_vm`
    walks the VM list under the list lock, `open_kvm` turns the matching
    instance into a file descriptor, and `memflow_vm_release` drops the
    handle's reference when that descriptor is closed. The descriptor
    number `anon_inode_getfd` would return is a parameter (negative means
    failure); the list lock is held for the whole walk and is not modelled. */
module KmodHandle {
  import opened Kernel
  import opened Registry

  datatype Opened = Opened(ret: int, kvm: Kvm)

  /** `open_kvm`: called holding one reference on `kvm`; the reference is
      kept by the new descriptor, or given back when no descriptor can be
      created. */
  function OpenKvm(kvm: Kvm, getfd: int): (r: Opened)
    requires kvm.refcount > 0
    ensures r.ret >= 0 <==> getfd >= 0
    ensures r.ret >= 0 ==> r.ret == getfd && r.kvm == kvm
    ensures r.ret < 0 ==> r.ret == -1 && Get(r.kvm) == kvm
  {
    if getfd < 0 then Opened(-1, Put(kvm)) else Opened(getfd, kvm)
  }

  /** `open_vm`: every instance visited is referenced while it is looked
      at; a non-matching one is released again, and the first matching one
      is handed to `open_kvm` and ends the walk. */
  method OpenVm(vms: seq<Kvm>, targetPid: int, getfd: int) returns (ret: int, vms': seq<Kvm>)
    ensures |vms'| == |vms|
    ensures ret >= 0 <==> FirstMatch(vms, targetPid).Some? && getfd >= 0
    ensures ret >= 0 ==> ret == getfd
    ensures ret < 0 ==> ret == -1 && vms' == vms
    ensures ret >= 0 ==>
      var k := FirstMatch(vms, targetPid).value;
      vms'[k].refcount == vms[k].refcount + 1 && PutAt(vms', k) == vms
  {
    ret := -1;
    vms' := vms;
    var i := 0;
    while i < |vms'|
      invariant 0 <= i <= |vms'| == |vms|
      invariant ret == -1 && vms' == vms
      invariant forall j :: 0 <= j < i ==> !Matches(targetPid, vms[j])
    {
      vms' := vms'[i := Get(vms'[i])];
      if Matches(targetPid, vms'[i]) {
        var o := OpenKvm(vms'[i], getfd);
        ret := o.ret;
        vms' := vms'[i := o.kvm];
        assert FirstMatch(vms, targetPid) == Some(i);
        return;
      }
      vms' := vms'[i := Put(vms'[i])];
      assert vms'[i] == vms[i];
      i := i + 1;
    }
  }

  /** `memflow_vm_release`: closing the descriptor of a handle on instance
      `index` drops exactly the one reference the handle holds. */
  function Release(vms: seq<Kvm>, index: nat): (r: (int, seq<Kvm>))
    requires index < |vms| && vms[index].refcount > 0
    ensures r.0 == 0
    ensures |r.1| == |vms| && r.1[index].refcount == vms[index].refcount - 1
    ensures forall j :: 0 <= j < |vms| && j != index ==> r.1[j] == vms[j]
  {
    (0, PutAt(vms, index))
  }
}
