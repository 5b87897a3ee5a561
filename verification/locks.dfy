/** Lock pairing. A lock trace is the sequence of acquire/release operations
    a call performs; the model checks that no lock is taken twice or released
    while not held, that the VM slots lock is only taken under the VM lock,
    and that nothing is held at the end. */
module Locks {
  import opened Kernel

  /** `kvm->lock`, `kvm->slots_lock` and the target's `mmap_lock`. */
  datatype Lock = VmLock | SlotsLock | MmapLock

  datatype LockOp = Acquire(lock: Lock) | Release(lock: Lock)

  /** The set of locks held after replaying `trace` from `held`, or None
      when the trace misuses a lock. */
  function Replay(held: set<Lock>, trace: seq<LockOp>): (r: Option<set<Lock>>)
    ensures r.Some? ==> forall l :: l in r.value <==> Indicator(l, held) + Net(l, trace) == 1
    decreases |trace|
  {
    if |trace| == 0 then Some(held)
    else match trace[0]
      case Acquire(l) =>
        if l in held || (l == SlotsLock && VmLock !in held) then None
        else Replay(held + {l}, trace[1..])
      case Release(l) =>
        if l !in held then None
        else Replay(held - {l}, trace[1..])
  }

  /** 1 if `l` is held, else 0. */
  function Indicator(l: Lock, held: set<Lock>): int {
    if l in held then 1 else 0
  }

  /** Acquisitions of `l` in `trace` minus its releases. */
  function Net(l: Lock, trace: seq<LockOp>): int
    decreases |trace|
  {
    if |trace| == 0 then 0
    else
      (match trace[0]
       case Acquire(m) => if m == l then 1 else 0
       case Release(m) => if m == l then -1 else 0)
      + Net(l, trace[1..])
  }

  /** Every lock taken is released exactly once, in the VM-lock-first order. */
  predicate Paired(trace: seq<LockOp>) {
    Replay({}, trace) == Some({})
  }

  /** The trace of a call that takes both VM locks and drops them again,
      releasing the slots lock first. */
  const VmLocksNested: seq<LockOp> :=
    [Acquire(VmLock), Acquire(SlotsLock), Release(SlotsLock), Release(VmLock)]

  lemma {:induction false} ReplayAppend(held: set<Lock>, a: seq<LockOp>, b: seq<LockOp>)
    ensures Replay(held, a + b) ==
      (match Replay(held, a) case None => None case Some(h) => Replay(h, b))
    decreases |a|
  {
    if |a| == 0 {
      assert a + b == b;
    } else {
      assert (a + b)[0] == a[0];
      assert (a + b)[1..] == a[1..] + b;
      match a[0]
      case Acquire(l) =>
        if !(l in held || (l == SlotsLock && VmLock !in held)) {
          ReplayAppend(held + {l}, a[1..], b);
        }
      case Release(l) =>
        if l in held {
          ReplayAppend(held - {l}, a[1..], b);
        }
    }
  }

  /** Two well-paired traces run one after the other are well paired. */
  lemma PairedConcat(a: seq<LockOp>, b: seq<LockOp>)
    requires Paired(a) && Paired(b)
    ensures Paired(a + b)
  {
    ReplayAppend({}, a, b);
  }
}
