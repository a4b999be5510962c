/** What the kernel heap promises (module/heap/main.c), on the sequence of bins in address order. */
module HeapSpec {
  import opened PageUnits

  const BIN_START: nat := 0xE100_0000

  datatype Bin = Bin(addr: nat, size: nat, taken: bool) {
    function End(): nat { addr + size }
  }

  function RoundUp16(s: nat): (r: nat)
    ensures s <= r < s + 16 && r % 16 == 0
  {
    (s + 15) / 16 * 16
  }

  /** The bins cover `from..to` without gap or overlap, none of them empty, all in units of 16 bytes. */
  ghost predicate Tiles(v: seq<Bin>, from: nat, to: nat)
  {
    && (if v == [] then from == to else v[0].addr == from && v[|v| - 1].End() == to)
    && (forall k :: 0 <= k < |v| ==> v[k].size > 0 && v[k].addr % 16 == 0 && v[k].size % 16 == 0)
    && forall i, j :: 0 <= i < j < |v| && j == i + 1 ==> v[j].addr == v[i].End()
  }

  ghost predicate Tiled(v: seq<Bin>)
  {
    |v| > 0 && Tiles(v, BIN_START, HeapEnd(v))
  }

  /** No two neighbours are both free. */
  ghost predicate Coalesced(v: seq<Bin>)
  {
    forall i, j :: 0 <= i < j < |v| && j == i + 1 ==> v[i].taken || v[j].taken
  }

  ghost predicate HeapInv(v: seq<Bin>)
  {
    Tiled(v) && Coalesced(v)
  }

  function HeapEnd(v: seq<Bin>): nat
    requires |v| > 0
  {
    v[|v| - 1].End()
  }

  /** The bins that are handed out. */
  ghost function Live(v: seq<Bin>): set<Bin>
  {
    set b | b in v && b.taken
  }

  /** Whether a bin can serve a request of `r` bytes aligned to `a`; `kalloc` asks for alignment 1. */
  predicate Fits(b: Bin, r: nat, a: nat)
    requires a > 0
  {
    !b.taken && b.size >= r && b.addr % a == 0
  }

  ghost predicate NoFit(v: seq<Bin>, r: nat, a: nat)
    requires a > 0
  {
    forall k :: 0 <= k < |v| ==> !Fits(v[k], r, a)
  }

  /** The first of the smallest bins that fit. */
  ghost predicate BestFit(v: seq<Bin>, r: nat, a: nat, k: nat)
    requires a > 0
  {
    && k < |v| && Fits(v[k], r, a)
    && (forall j :: 0 <= j < |v| && Fits(v[j], r, a) ==> v[k].size <= v[j].size)
    && forall j :: 0 <= j < k && Fits(v[j], r, a) ==> v[k].size < v[j].size
  }

  /** A bin cut to `r` bytes and taken; what remains follows as a free bin. */
  function Cut(b: Bin, r: nat): seq<Bin>
    requires r <= b.size
  {
    [Bin(b.addr, r, true)] + if b.size == r then [] else [Bin(b.addr + r, b.size - r, false)]
  }

  function Carve(v: seq<Bin>, k: nat, r: nat): seq<Bin>
    requires k < |v| && r <= v[k].size
  {
    v[..k] + Cut(v[k], r) + v[k + 1..]
  }

  /** Growth happens at the end of the taken bins: over a free last bin, or behind a taken one. */
  function Base(v: seq<Bin>): seq<Bin>
    requires |v| > 0
  {
    if v[|v| - 1].taken then v else v[..|v| - 1]
  }

  function Top(v: seq<Bin>): nat
    requires |v| > 0
  {
    if v[|v| - 1].taken then HeapEnd(v) else v[|v| - 1].addr
  }

  /** Growth of `kalloc`. */
  function Grow(v: seq<Bin>, r: nat): seq<Bin>
    requires |v| > 0
  {
    Base(v) + [Bin(Top(v), r, true)]
  }

  /** The padding before an aligned bin. A free last bin is kept as padding even where none is needed. */
  function Pad(v: seq<Bin>, a: nat): nat
    requires |v| > 0 && a > 0
  {
    if v[|v| - 1].taken && Top(v) % a == 0 then 0 else a - Top(v) % a
  }

  /** Growth of `kalloc_a`, with `pad` free bytes in front of the new bin. */
  function GrowPadded(v: seq<Bin>, r: nat, pad: nat): seq<Bin>
    requires |v| > 0
  {
    Base(v) + (if pad == 0 then [] else [Bin(Top(v), pad, false)]) + [Bin(Top(v) + pad, r, true)]
  }

  /** The outcome of an allocation of `r` rounded bytes: the heap after it and the address handed out. */
  ghost predicate Allocated(v: seq<Bin>, v': seq<Bin>, r: nat, a: nat, p: nat)
    requires |v| > 0 && a > 0 && r > 0
  {
    if NoFit(v, r, a) then
      && v' == (if a == 1 then Grow(v, r) else GrowPadded(v, r, Pad(v, a)))
      && p == v'[|v'| - 1].addr
    else
      exists k: nat :: BestFit(v, r, a, k) && v' == Carve(v, k, r) && p == v[k].addr
  }

  /** The maximal run of free bins around bin `k`. */
  function RunStart(v: seq<Bin>, k: nat): (lo: nat)
    requires k < |v|
    ensures lo <= k
    ensures forall j :: lo <= j < k ==> !v[j].taken
    ensures lo > 0 ==> v[lo - 1].taken
  {
    if k > 0 && !v[k - 1].taken then RunStart(v, k - 1) else k
  }

  function RunEnd(v: seq<Bin>, k: nat): (hi: nat)
    requires k < |v|
    ensures k < hi <= |v|
    ensures forall j :: k < j < hi ==> !v[j].taken
    ensures hi < |v| ==> v[hi].taken
    decreases |v| - k
  {
    if k + 1 < |v| && !v[k + 1].taken then RunEnd(v, k + 1) else k + 1
  }

  /** The bins `lo..hi` replaced by one free bin. */
  function Absorb(v: seq<Bin>, lo: nat, hi: nat): seq<Bin>
    requires lo < hi <= |v| && v[lo].addr <= v[hi - 1].End()
  {
    v[..lo] + [Bin(v[lo].addr, v[hi - 1].End() - v[lo].addr, false)] + v[hi..]
  }

  ghost predicate HasAddr(v: seq<Bin>, p: nat)
  {
    exists k :: 0 <= k < |v| && v[k].addr == p
  }

  /** The outcome of `kfree(p)`. */
  ghost predicate Freed(v: seq<Bin>, v': seq<Bin>, p: nat)
  {
    if HasAddr(v, p) then
      exists k: nat :: k < |v| && v[k].addr == p && FreedAt(v, v', k)
    else
      v' == v
  }

  ghost predicate FreedAt(v: seq<Bin>, v': seq<Bin>, k: nat)
    requires k < |v|
  {
    var lo, hi := RunStart(v, k), RunEnd(v, k);
    v[lo].addr <= v[hi - 1].End() && v' == Absorb(v, lo, hi)
  }

  datatype Call = Kalloc(size: nat) | KallocA(size: nat, align: nat) | Kfree(addr: nat)

  /** One call on the heap, with its answer. `kalloc_a` divides by the alignment, so that may not be zero. */
  ghost predicate Step(v: seq<Bin>, c: Call, v': seq<Bin>, ret: nat)
    requires |v| > 0
  {
    match c
    case Kalloc(s) =>
      if s == 0 then v' == v && ret == 0 else Allocated(v, v', RoundUp16(s), 1, ret)
    case KallocA(s, a) =>
      a > 0 && if s == 0 || a % 16 != 0 then v' == v && ret == 0 else Allocated(v, v', RoundUp16(s), a, ret)
    case Kfree(p) =>
      Freed(v, v', p)
  }

  /** The pages one call asks the pager for. */
  ghost predicate Requests(v: seq<Bin>, c: Call, pages: set<nat>)
    requires |v| > 0
  {
    match c
    case Kalloc(s) =>
      if s == 0 then pages == {}
      else AllocationRequests(v, RoundUp16(s), 1, pages)
    case KallocA(s, a) =>
      a > 0 && if s == 0 || a % 16 != 0 then pages == {} else AllocationRequests(v, RoundUp16(s), a, pages)
    case Kfree(p) => pages == {}
  }

  ghost predicate AllocationRequests(v: seq<Bin>, r: nat, a: nat, pages: set<nat>)
    requires |v| > 0 && a > 0
  {
    if !NoFit(v, r, a) then
      exists k: nat :: BestFit(v, r, a, k) && pages == SplitRequests(v[k], r)
    else if a == 1 then
      pages == if v[|v| - 1].taken then Pages(Top(v), r + PAGE) else Pages(Top(v), r + 1)
    else
      pages == PadRequests(v, Pad(v, a)) + Pages(Top(v) + Pad(v, a), r + PAGE)
  }

  ghost function SplitRequests(b: Bin, r: nat): set<nat>
    requires r <= b.size
  {
    if b.size == r then {} else Pages(b.addr + r, b.size - r + PAGE)
  }

  ghost function PadRequests(v: seq<Bin>, pad: nat): set<nat>
    requires |v| > 0
  {
    if !v[|v| - 1].taken then Pages(Top(v), pad) else if pad == 0 then {} else Pages(Top(v), pad + PAGE)
  }
}
