/** Which bytes of the heap have memory behind them. */
module HeapBacking {
  import opened PageUnits
  import opened HeapSpec
  import opened HeapLaws

  /** Every byte of `from..to` lies in a mapped page. */
  ghost predicate Covered(from: nat, to: nat, pages: set<nat>)
  {
    forall x: nat {:trigger x / PAGE} :: from <= x < to ==> x / PAGE in pages
  }

  /** The bins tile the bytes from BIN_START on, so all of their bytes are mapped when these are. */
  ghost predicate Backed(v: seq<Bin>, pages: set<nat>)
    requires |v| > 0
  {
    Covered(BIN_START, HeapEnd(v), pages)
  }

  /** A request of `asked` bytes at `addr` covers `size` bytes exactly when they end by the last page it counts. */
  lemma RequestCovers(addr: nat, size: nat, asked: nat)
    requires size > 0
    ensures Covered(addr, addr + size, Pages(addr, asked)) <==> addr % PAGE + size <= PAGE * PageCount(asked)
  {
    var n := PageCount(asked);
    if addr % PAGE + size <= PAGE * n {
      forall x: nat | addr <= x < addr + size
        ensures x / PAGE in Pages(addr, asked)
      {
        assert x < PAGE * (addr / PAGE + n);
      }
    } else {
      var x := addr + size - 1;
      assert x / PAGE !in Pages(addr, asked) by {
        assert x >= PAGE * (addr / PAGE + n);
      }
    }
  }

  /** The page of slack in `add_bin` covers every byte of the new bin, whatever its page offset. */
  lemma SlackCovers(addr: nat, size: nat)
    ensures Covered(addr, addr + size, Pages(addr, size + PAGE))
  {
    if size > 0 {
      RequestCovers(addr, size, size + PAGE);
    }
  }

  lemma PadEnd(addr: nat, pad: nat, x: nat)
    requires addr <= x < addr + pad
    ensures x / PAGE < addr / PAGE + PageCount(pad) || x / PAGE == (addr + pad) / PAGE
  {
  }

  /** Padding in front of a new bin is mapped without slack: where its request stops short, that of the bin starts. */
  lemma PadAndBinCovered(addr: nat, pad: nat, size: nat)
    requires size > 0
    ensures Covered(addr, addr + pad + size, Pages(addr, pad) + Pages(addr + pad, size + PAGE))
  {
    SlackCovers(addr + pad, size);
    forall x: nat | addr <= x < addr + pad
      ensures x / PAGE in Pages(addr, pad) + Pages(addr + pad, size + PAGE)
    {
      PadEnd(addr, pad, x);
    }
  }

  /** The growth of a free last bin by `kalloc` asks for one byte more than the bin. At an unaligned address the bin
      can end in the page after those, which then has to be mapped already. */
  ghost predicate GrowthCovered(v: seq<Bin>, c: Call, pages: set<nat>)
    requires |v| > 0
  {
    c.Kalloc? && c.size > 0 && NoFit(v, RoundUp16(c.size), 1) && !v[|v| - 1].taken ==>
      GrowthFits(Top(v), RoundUp16(c.size), pages)
  }

  ghost predicate GrowthFits(top: nat, r: nat, pages: set<nat>)
  {
    top % PAGE + r <= PAGE * PageCount(r + 1) || top / PAGE + PageCount(r + 1) in pages
  }

  lemma FitsIff(top: nat, r: nat, pages: set<nat>)
    requires r > 0
    ensures Covered(top, top + r, pages + Pages(top, r + 1)) <==>
            Covered(top, top + r, Pages(top, r + 1)) || top / PAGE + PageCount(r + 1) in pages
  {
    var n := PageCount(r + 1);
    RequestCovers(top, r, r + 1);
    if top % PAGE + r > PAGE * n {
      var x := PAGE * (top / PAGE + n);
      assert top <= x < top + r && x / PAGE == top / PAGE + n;
      if x / PAGE in pages {
        forall y: nat | top <= y < top + r
          ensures y / PAGE in pages + Pages(top, r + 1)
        {
          assert y / PAGE <= x / PAGE;
        }
      }
    }
  }

  /** Every byte of the heap stays mapped when a free last bin grows exactly under the condition above. */
  lemma GrowthBackedIff(v: seq<Bin>, r: nat, pages: set<nat>)
    requires |v| > 0 && HeapInv(v) && Backed(v, pages) && !v[|v| - 1].taken && r > 0
    ensures Backed(Grow(v, r), pages + Pages(Top(v), r + 1)) <==> GrowthFits(Top(v), r, pages)
  {
    hide HeapInv, Pages;
    BaseBacked(v, pages);
    RequestCovers(Top(v), r, r + 1);
    FitsIff(Top(v), r, pages);
    var all := pages + Pages(Top(v), r + 1);
    if Covered(Top(v), Top(v) + r, all) {
      CoveredChain(BIN_START, Top(v), Top(v) + r, pages, all);
      assert pages + all == all;
    }
  }

  lemma CoveredChain(from: nat, mid: nat, to: nat, p: set<nat>, q: set<nat>)
    requires Covered(from, mid, p) && Covered(mid, to, q)
    ensures Covered(from, to, p + q)
  {
  }

  lemma BaseBacked(v: seq<Bin>, pages: set<nat>)
    requires HeapInv(v) && Backed(v, pages)
    ensures BIN_START <= Top(v) && Covered(BIN_START, Top(v), pages)
  {
    BaseLaw(v);
    TilesBounds(v, BIN_START, HeapEnd(v), v[|v| - 1]);
  }

  /** An allocation keeps all bytes mapped, but for the growth of a free last bin. */
  lemma AllocationKeepsBacked(v: seq<Bin>, v': seq<Bin>, r: nat, a: nat, p: nat, pages: set<nat>, more: set<nat>)
    requires |v| > 0 && HeapInv(v) && Backed(v, pages) && r > 0 && a > 0
    requires Allocated(v, v', r, a, p) && AllocationRequests(v, r, a, more)
    ensures |v'| > 0
    ensures Backed(v', pages + more) <==>
            (a == 1 && NoFit(v, r, a) && !v[|v| - 1].taken ==> GrowthFits(Top(v), r, pages))
  {
    hide HeapInv, Covered, Pages, SplitRequests, NoFit, Pad, GrowthFits;
    BaseBacked(v, pages);
    if !NoFit(v, r, a) {
      var k: nat :| BestFit(v, r, a, k) && v' == Carve(v, k, r);
      FitOfBest(v, r, a, k);
      CarveKeepsEnd(v, k, r);
      CoveredMore(BIN_START, HeapEnd(v), pages, more);
    } else if a != 1 {
      PaddedGrowthCovered(v, r, a);
      CoveredChain(BIN_START, Top(v), Top(v) + Pad(v, a) + r, pages, more);
    } else if v[|v| - 1].taken {
      SlackCovers(Top(v), r);
      CoveredChain(BIN_START, Top(v), Top(v) + r, pages, more);
    } else {
      GrowthBackedIff(v, r, pages);
    }
  }

  lemma CoveredMore(from: nat, to: nat, p: set<nat>, q: set<nat>)
    requires Covered(from, to, p)
    ensures Covered(from, to, p + q)
  {
  }

  lemma SameEnd(v: seq<Bin>, v': seq<Bin>, pages: set<nat>)
    requires |v| > 0 && |v'| > 0 && HeapEnd(v) == HeapEnd(v') && Backed(v, pages)
    ensures Backed(v', pages)
  {
  }

  lemma PaddedGrowthCovered(v: seq<Bin>, r: nat, a: nat)
    requires |v| > 0 && r > 0 && a > 0
    ensures var pad := Pad(v, a);
            Covered(Top(v), Top(v) + pad + r, PadRequests(v, pad) + Pages(Top(v) + pad, r + PAGE))
  {
    hide Covered, Pages, Pad;
    var top, pad := Top(v), Pad(v, a);
    if !v[|v| - 1].taken {
      PadAndBinCovered(top, pad, r);
    } else {
      SlackCovers(top + pad, r);
      SlackCovers(top, pad);
      if pad > 0 {
        CoveredChain(top, top + pad, top + pad + r, Pages(top, pad + PAGE), Pages(top + pad, r + PAGE));
      } else {
        assert PadRequests(v, pad) + Pages(top + pad, r + PAGE) == Pages(top + pad, r + PAGE);
      }
    }
  }

  /** A call keeps all bytes of all bins mapped if and only if a last bin that grows fits the pages it asks for, or
      ends in one that is mapped. */
  lemma StepBackedIff(v: seq<Bin>, c: Call, v': seq<Bin>, ret: nat, pages: set<nat>, more: set<nat>)
    requires |v| > 0 && HeapInv(v) && Step(v, c, v', ret)
    requires Backed(v, pages) && Requests(v, c, more)
    ensures |v'| > 0 && (Backed(v', pages + more) <==> GrowthCovered(v, c, pages))
  {
    hide HeapInv, Backed, Allocated, AllocationRequests, Freed, RoundUp16, NoFit, GrowthFits;
    match c
    case Kalloc(s) =>
      if s != 0 {
        AllocationKeepsBacked(v, v', RoundUp16(s), 1, ret, pages, more);
      } else {
        assert pages + more == pages;
      }
    case KallocA(s, a) =>
      if s != 0 && a % 16 == 0 {
        AllocationKeepsBacked(v, v', RoundUp16(s), a, ret, pages, more);
      } else {
        assert pages + more == pages;
      }
    case Kfree(p) =>
      FreeKeepsEnd(v, v', p);
      assert pages + more == pages;
      SameEnd(v, v', pages);
  }

  /** A run in which every call asks for the pages `more[i]`; `mapped[i]` are the pages mapped before call `i`. */
  ghost predicate PagedRun(states: seq<seq<Bin>>, calls: seq<Call>, rets: seq<nat>, mapped: seq<set<nat>>,
                           more: seq<set<nat>>)
  {
    && Run(states, calls, rets)
    && |mapped| == |states| && |more| == |calls|
    && forall i :: 0 <= i < |calls| ==>
         Requests(states[i], calls[i], more[i]) && mapped[i + 1] == mapped[i] + more[i]
  }

  ghost predicate BackedUpTo(states: seq<seq<Bin>>, mapped: seq<set<nat>>, n: nat)
    requires n <= |states| && n <= |mapped|
  {
    forall i :: 0 <= i < n ==> |states[i]| > 0 && Backed(states[i], mapped[i])
  }

  /** Over any run from a backed heap every byte of every bin stays mapped, if and only if each growth of a last bin is
      covered where it happens. */
  lemma {:induction false} RunBackedIff(states: seq<seq<Bin>>, calls: seq<Call>, rets: seq<nat>, mapped: seq<set<nat>>,
                                        more: seq<set<nat>>, n: nat)
    requires PagedRun(states, calls, rets, mapped, more) && 0 < n <= |states|
    requires HeapInv(states[0]) && Backed(states[0], mapped[0])
    ensures BackedUpTo(states, mapped, n) <==>
            forall i :: 0 <= i < n - 1 ==> |states[i]| > 0 && GrowthCovered(states[i], calls[i], mapped[i])
  {
    hide HeapInv, Backed, Requests, Step, GrowthCovered;
    RunKeepsHeapInv(states, calls, rets, n - 1);
    if n > 1 {
      var j := n - 2;
      RunBackedIff(states, calls, rets, mapped, more, n - 1);
      RunKeepsHeapInv(states, calls, rets, j);
      InvParts(states[j]);
      assert BackedUpTo(states, mapped, n) <==>
             BackedUpTo(states, mapped, n - 1) && |states[j + 1]| > 0 && Backed(states[j + 1], mapped[j + 1]);
      assert Requests(states[j], calls[j], more[j]) && mapped[j + 1] == mapped[j] + more[j];
      if BackedUpTo(states, mapped, n - 1) {
        StepBackedIff(states[j], calls[j], states[j + 1], rets[j], mapped[j], more[j]);
      }
    }
  }

  const FRESH := [Bin(BIN_START, 0x1000, false)]
  const SPLIT := [Bin(BIN_START, 4080, true), Bin(BIN_START + 4080, 16, false)]
  const GROWN := [Bin(BIN_START, 4080, true), Bin(BIN_START + 4080, 8176, true)]

  lemma FirstRequestSplits()
    ensures HeapInv(FRESH) && Step(FRESH, Kalloc(4080), SPLIT, BIN_START)
    ensures Requests(FRESH, Kalloc(4080), Pages(BIN_START + 4080, 16 + PAGE))
  {
    hide Pages;
    assert Fits(FRESH[0], 4080, 1);
    assert BestFit(FRESH, 4080, 1, 0);
    assert SPLIT == Carve(FRESH, 0, 4080);
    assert SplitRequests(FRESH[0], 4080) == Pages(BIN_START + 4080, 16 + PAGE);
  }

  lemma SecondRequestGrows()
    ensures Step(SPLIT, Kalloc(8176), GROWN, BIN_START + 4080)
    ensures Requests(SPLIT, Kalloc(8176), Pages(BIN_START + 4080, 8177))
  {
    hide Pages;
    assert NoFit(SPLIT, 8176, 1);
    assert GROWN == Grow(SPLIT, 8176);
  }

  /** Without the condition on growth the promise fails: on a fresh heap, `kalloc(4080)` and then `kalloc(8176)`
      leave the third page of the heap unmapped. */
  lemma TailGrowthLeavesAPageUnbacked() returns (more1: set<nat>, more2: set<nat>)
    ensures HeapInv(FRESH) && Backed(FRESH, Pages(BIN_START, 1))
    ensures Step(FRESH, Kalloc(4080), SPLIT, BIN_START) && Requests(FRESH, Kalloc(4080), more1)
    ensures Step(SPLIT, Kalloc(8176), GROWN, BIN_START + 4080) && Requests(SPLIT, Kalloc(8176), more2)
    ensures !Backed(GROWN, Pages(BIN_START, 1) + more1 + more2)
  {
    hide Step, Requests, HeapInv;
    FirstRequestSplits();
    SecondRequestGrows();
    more1, more2 := Pages(BIN_START + 4080, 16 + PAGE), Pages(BIN_START + 4080, 8177);
    RequestCovers(BIN_START, 0x1000, 1);
    assert (BIN_START + 8192) / PAGE !in Pages(BIN_START, 1) + more1 + more2;
  }
}
