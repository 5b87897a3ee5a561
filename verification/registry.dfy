/** The hypervisor's VM list as this module sees it: an ordered sequence of
    VM instances, each with the pid of its monitor process and a reference
    count. Lookup matches by pid, with pid 0 matching any instance. */
module Registry {
  import opened Kernel

  /** One `struct kvm`: `userspace_pid` and the `users_count` reference
      count taken by `kvm_get_kvm` and dropped by `kvm_put_kvm`. */
  datatype Kvm = Kvm(userspacePid: int, refcount: nat)

  predicate Matches(targetPid: int, kvm: Kvm) {
    targetPid == 0 || targetPid == kvm.userspacePid
  }

  /** Index of the first instance in list order that matches `targetPid`. */
  function FirstMatch(vms: seq<Kvm>, targetPid: int): (r: Option<nat>)
    ensures r.Some? ==> r.value < |vms| && Matches(targetPid, vms[r.value])
    ensures r.Some? ==> forall j :: 0 <= j < r.value ==> !Matches(targetPid, vms[j])
    ensures r.None? <==> forall j :: 0 <= j < |vms| ==> !Matches(targetPid, vms[j])
  {
    if |vms| == 0 then None
    else if Matches(targetPid, vms[0]) then Some(0)
    else match FirstMatch(vms[1..], targetPid)
      case None => None
      case Some(k) => Some(k + 1)
  }

  /** `kvm_get_kvm`. */
  function Get(kvm: Kvm): (r: Kvm)
    ensures r.userspacePid == kvm.userspacePid && r.refcount == kvm.refcount + 1
  {
    kvm.(refcount := kvm.refcount + 1)
  }

  /** `kvm_put_kvm`; only a holder of a reference may drop one. */
  function Put(kvm: Kvm): (r: Kvm)
    requires kvm.refcount > 0
    ensures r.userspacePid == kvm.userspacePid && r.refcount == kvm.refcount - 1
    ensures Get(r) == kvm
  {
    kvm.(refcount := kvm.refcount - 1)
  }

  /** Dropping the reference a handle holds on instance `index`. */
  function PutAt(vms: seq<Kvm>, index: nat): (r: seq<Kvm>)
    requires index < |vms| && vms[index].refcount > 0
    ensures |r| == |vms|
    ensures r[index].refcount == vms[index].refcount - 1
    ensures forall j :: 0 <= j < |vms| && j != index ==> r[j] == vms[j]
  {
    vms[index := Put(vms[index])]
  }
}
