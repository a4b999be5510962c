/** The bytes of the heap on the page map: what the heap asks for is what `allocpgs` maps. */
module HeapPages {
  import opened PageUnits
  import opened AddressSpace
  import opened PageAccounting
  import opened HeapSpec
  import opened HeapLaws
  import opened HeapBacking

  /** Every byte of every bin lies in a page that has an entry. */
  ghost predicate HeapMapped(v: seq<Bin>, mem: Memory, d: nat)
    requires |v| > 0 && d < |mem|
  {
    forall x: nat {:trigger x / PAGE} :: BIN_START <= x < HeapEnd(v) ==>
      x / PAGE < WINDOW * TABLES && PageEntry(mem, d, x / PAGE) != 0
  }

  ghost function MappedPages(mem: Memory, d: nat): set<nat>
    requires d < |mem|
  {
    set p: nat | p < WINDOW * TABLES && PageEntry(mem, d, p) != 0
  }

  /** What happens to the page map in one call: the pages it asks for come to have entries, no entry is lost, and all
      other pages read as before. */
  ghost predicate Served(mem: Memory, mem': Memory, d: nat, pages: set<nat>)
  {
    && d < |mem| && d < |mem'|
    && KeepsMappings(mem, mem', {d}) && PagesMapped(mem', d, pages) && KeepsOtherPages(mem, mem', {d}, pages)
  }

  /** One request, as `allocpgs` leaves the maps of all directories. */
  lemma AllocPagesServes(mem: Memory, mem': Memory, dirs: set<nat>, d: nat, addr: nat, size: nat)
    requires (forall x :: x in dirs ==> x < |mem| && x < |mem'|) && d in dirs
    requires addr / PAGE + PageCount(size) <= WINDOW * TABLES
    requires KeepsMappings(mem, mem', dirs) && KeepsOtherPages(mem, mem', dirs, Pages(addr, size))
    requires AllMapped(mem', d, addr / PAGE, PageCount(size))
    ensures Served(mem, mem', d, Pages(addr, size))
  {
    hide Pte, PageEntry;
    RangeMapped(mem', d, addr, size);
  }

  /** A call that makes two requests, one for its padding. */
  lemma ServedTwice(mem: Memory, mem1: Memory, mem2: Memory, d: nat, p: set<nat>, q: set<nat>)
    requires Served(mem, mem1, d, p) && Served(mem1, mem2, d, q)
    ensures Served(mem, mem2, d, p + q)
  {
    hide Pte;
    forall x | x in p
      ensures PageEntry(mem2, d, x) != 0
    {
      assert PageEntry(mem1, d, x) != 0;
    }
  }

  /** An aligned request that no bin fits makes a request for the padding and one for the bin; together they are what
      the call asks for. */
  lemma PaddedGrowthServed(v: seq<Bin>, s: nat, a: nat, mem: Memory, mem1: Memory, mem2: Memory, d: nat)
    requires |v| > 0 && s > 0 && a > 0 && a % 16 == 0 && NoFit(v, RoundUp16(s), a)
    requires Served(mem, mem1, d, PadRequests(v, Pad(v, a)))
    requires Served(mem1, mem2, d, Pages(Top(v) + Pad(v, a), RoundUp16(s) + PAGE))
    ensures exists pages :: Requests(v, KallocA(s, a), pages) && Served(mem, mem2, d, pages)
  {
    hide Served, NoFit, Pages, PadRequests, Pad, RoundUp16;
    var p, q := PadRequests(v, Pad(v, a)), Pages(Top(v) + Pad(v, a), RoundUp16(s) + PAGE);
    ServedTwice(mem, mem1, mem2, d, p, q);
    assert Requests(v, KallocA(s, a), p + q);
  }

  lemma MappedIsBacked(v: seq<Bin>, mem: Memory, d: nat)
    requires |v| > 0 && d < |mem|
    ensures HeapMapped(v, mem, d) <==> Backed(v, MappedPages(mem, d))
  {
    hide PageEntry;
  }

  lemma ServedPages(mem: Memory, mem': Memory, d: nat, pages: set<nat>)
    requires Served(mem, mem', d, pages)
    ensures MappedPages(mem', d) == MappedPages(mem, d) + pages
  {
    hide Pte;
    forall p | p in MappedPages(mem, d)
      ensures p in MappedPages(mem', d)
    {
      assert Pte(mem, d, p / TABLES, p % TABLES) != 0;
    }
    forall p | p in MappedPages(mem', d)
      ensures p in MappedPages(mem, d) + pages
    {
      assert p !in pages ==> PageEntry(mem', d, p) == PageEntry(mem, d, p);
    }
  }

  /** A call leaves every byte of the heap on a mapped page if and only if a last bin that grows fits its request, or
      the page in which it ends had an entry. */
  lemma StepMappedIff(v: seq<Bin>, c: Call, v': seq<Bin>, ret: nat, mem: Memory, mem': Memory, d: nat, pages: set<nat>)
    requires |v| > 0 && HeapInv(v) && Step(v, c, v', ret) && Requests(v, c, pages)
    requires Served(mem, mem', d, pages) && d < |mem| && HeapMapped(v, mem, d)
    ensures |v'| > 0 && d < |mem'|
    ensures HeapMapped(v', mem', d) <==> GrowthCovered(v, c, MappedPages(mem, d))
  {
    hide HeapInv, Step, Requests, HeapMapped, GrowthCovered, MappedPages, KeepsMappings, PagesMapped, KeepsOtherPages;
    MappedIsBacked(v, mem, d);
    ServedPages(mem, mem', d, pages);
    StepBackedIff(v, c, v', ret, MappedPages(mem, d), pages);
    MappedIsBacked(v', mem', d);
  }

  /** A run of calls, each served by the pager: `before[i]` and `after[i]` are the memory around call `i`. Between
      the calls others may map pages, but nobody takes one away. */
  ghost predicate ServedRun(states: seq<seq<Bin>>, calls: seq<Call>, rets: seq<nat>, before: seq<Memory>,
                            after: seq<Memory>, d: nat, more: seq<set<nat>>)
  {
    && Run(states, calls, rets)
    && |before| == |after| == |more| == |calls|
    && (forall i :: 0 <= i < |calls| ==>
          Requests(states[i], calls[i], more[i]) && Served(before[i], after[i], d, more[i]))
    && (forall i :: 0 <= i < |calls| ==> d < |before[i]| && d < |after[i]|)
    && forall i, j :: 0 <= i < j < |calls| && j == i + 1 ==> KeepsMappings(after[i], before[j], {d})
  }

  /** After each of the first `n` calls every byte of every bin lies on a mapped page. */
  ghost predicate MappedAfter(states: seq<seq<Bin>>, after: seq<Memory>, d: nat, n: nat)
    requires n < |states| && n <= |after| && forall i :: 0 <= i < |after| ==> d < |after[i]|
  {
    forall i, j :: 0 <= i < n && j == i + 1 ==> |states[j]| > 0 && HeapMapped(states[j], after[i], d)
  }

  lemma MappedStays(v: seq<Bin>, mem: Memory, mem': Memory, d: nat)
    requires |v| > 0 && d < |mem| && d < |mem'| && HeapMapped(v, mem, d) && KeepsMappings(mem, mem', {d})
    ensures HeapMapped(v, mem', d)
  {
    hide Pte;
    forall x: nat | BIN_START <= x < HeapEnd(v)
      ensures x / PAGE < WINDOW * TABLES && PageEntry(mem', d, x / PAGE) != 0
    {
      assert PageEntry(mem, d, x / PAGE) != 0;
      assert Pte(mem, d, x / PAGE / TABLES, x / PAGE % TABLES) != 0;
    }
  }

  /** Over every run every byte of every bin is on a mapped page after every call, if and only if each growth of a
      last bin is covered by the map it finds. */
  lemma {:induction false} RunMappedIff(states: seq<seq<Bin>>, calls: seq<Call>, rets: seq<nat>, before: seq<Memory>,
                                        after: seq<Memory>, d: nat, more: seq<set<nat>>, n: nat)
    requires ServedRun(states, calls, rets, before, after, d, more) && n <= |calls|
    requires HeapInv(states[0]) && |states[0]| > 0 && (n > 0 ==> HeapMapped(states[0], before[0], d))
    ensures MappedAfter(states, after, d, n) <==>
            forall i :: 0 <= i < n ==> |states[i]| > 0 && GrowthCovered(states[i], calls[i], MappedPages(before[i], d))
  {
    hide HeapInv, HeapMapped, Requests, Served, Step, GrowthCovered, MappedPages, KeepsMappings;
    if n > 0 {
      var j := n - 1;
      RunMappedIff(states, calls, rets, before, after, d, more, j);
      RunKeepsHeapInv(states, calls, rets, j);
      InvParts(states[j]);
      assert MappedAfter(states, after, d, n) <==>
             MappedAfter(states, after, d, j) && |states[n]| > 0 && HeapMapped(states[n], after[j], d);
      if MappedAfter(states, after, d, j) {
        if j > 0 {
          var i := j - 1;
          assert KeepsMappings(after[i], before[j], {d});
          MappedStays(states[j], after[i], before[j], d);
        }
        StepMappedIff(states[j], calls[j], states[n], rets[j], before[j], after[j], d, more[j]);
      }
    }
  }
}
