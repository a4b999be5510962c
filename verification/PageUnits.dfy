/** Pages of 4 KiB, and how the allocators count them. */
module PageUnits {
  import opened Intervals

  const PAGE: nat := 4096

  /** The pages in `size` bytes, as `allocpgs` rounds them: the least number of pages that hold them. */
  function PageCount(size: nat): (n: nat)
    ensures size <= 0x1000 * n < size + 0x1000
  {
    (size + (PAGE - 1)) / PAGE
  }

  /** The pages that `allocpgs(addr, size)` goes through. */
  ghost function Pages(addr: nat, size: nat): set<nat>
  {
    Interval(addr / PAGE, PageCount(size))
  }
}
