/** Machine words, kernel constants and small kernel-API facts shared by the
    whole model: unsigned 64- and 32-bit integers with explicit wrap-around,
    the page shift, the slot-table capacity, the error-pointer encoding and
    the allocation rule of vmalloc. */
module Kernel {

  const TwoTo32: int := 0x1_0000_0000
  const TwoTo64: int := 0x1_0000_0000_0000_0000

  /** C `__u32`. */
  type u32 = x: int | 0 <= x < 0x1_0000_0000

  /** C `unsigned long` / `__aligned_u64` on a 64-bit kernel. */
  type u64 = x: int | 0 <= x < 0x1_0000_0000_0000_0000

  /** `PAGE_SHIFT` (4 KiB pages). */
  const PageShift: nat := 12
  const PageSize: nat := 4096

  /** `KVM_MEM_SLOTS_NUM`: the number of entries of the fixed slot and
      region arrays of the mapped-VM data. Its value depends on the kernel
      version; only its role as a bound matters here. */
  const KvmMemSlotsNum: nat := 512

  /** `MAX_ERRNO`: the top 4095 values of an `unsigned long` encode errors. */
  const MaxErrno: nat := 4095

  /** `(unsigned long)-1`, the "unmapped" page-count sentinel. */
  const AllOnes: u64 := 0xFFFF_FFFF_FFFF_FFFF

  datatype Option<+T> = None | Some(value: T)

  /** Unsigned 64-bit addition, wrapping modulo 2^64. */
  function Add64(a: u64, b: u64): (r: u64)
    ensures a + b < TwoTo64 ==> r == a + b
    ensures a + b >= TwoTo64 ==> r == a + b - TwoTo64
  {
    (a + b) % TwoTo64
  }

  /** Unsigned 64-bit subtraction, wrapping modulo 2^64. */
  function Sub64(a: u64, b: u64): (r: u64)
    ensures Add64(b, r) == a
    ensures b <= a ==> r == a - b
    ensures a < b ==> r == a - b + TwoTo64
  {
    (a - b) % TwoTo64
  }

  /** `gfn_to_gpa`, also used on page counts: a left shift by `PageShift`
      in 64 bits, so the high bits of the page number are lost. */
  function GfnToGpa(gfn: u64): (r: u64)
    ensures r % PageSize == 0
    ensures gfn * PageSize < TwoTo64 ==> r == gfn * PageSize
  {
    (gfn * PageSize) % TwoTo64
  }

  /** `IS_ERR` / `IS_ERR_VALUE` on an address returned by the mmap path. */
  predicate IsErrValue(x: u64) {
    x >= TwoTo64 - MaxErrno
  }

  /** The error values are exactly the negated errnos 1..MAX_ERRNO, taken
      modulo 2^64. */
  lemma ErrValueIsNegatedErrno(x: u64)
    ensures IsErrValue(x) <==> exists e: u64 :: 1 <= e <= MaxErrno && Sub64(0, e) == x
  {
    if IsErrValue(x) {
      assert Sub64(0, TwoTo64 - x) == x;
    }
  }

  /** Whether `vmalloc(size)` returns a buffer: never for a zero size, and
      otherwise as the allocator (an oracle flag) decides. */
  function VmallocSucceeds(size: nat, allocatorOk: bool): (b: bool)
    ensures size == 0 ==> !b
    ensures b <==> size > 0 && allocatorOk
  {
    size > 0 && allocatorOk
  }

  /** Conversion of a `__u32` user value to the `int` parameter it is
      passed as (two's complement reinterpretation). */
  function U32ToInt(x: u32): (r: int)
    ensures -0x8000_0000 <= r < 0x8000_0000
    ensures x < 0x8000_0000 <==> r == x
    ensures x >= 0x8000_0000 ==> r == x - TwoTo32 < 0
  {
    if x < 0x8000_0000 then x else x - TwoTo32
  }

  function Min(a: int, b: int): (r: int)
    ensures r <= a && r <= b
    ensures r == a || r == b
  {
    if a <= b then a else b
  }
}
