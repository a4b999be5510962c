/** How many frames the allocation of a range of pages takes. Pages are numbered across tables. */
module PageAccounting {
  import opened Intervals
  import opened PageUnits
  import opened AddressSpace
  import opened AddressSpaceLaws

  function PageEntry(mem: Memory, d: nat, vp: nat): nat
    requires d < |mem| && vp < TABLES * TABLES
  {
    Pte(mem, d, vp / TABLES, vp % TABLES)
  }

  /** The pages of the set that have no entry. */
  ghost function Unmapped(mem: Memory, d: nat, pages: set<nat>): set<nat>
    requires d < |mem|
  {
    set p | p in pages && p < WINDOW * TABLES && PageEntry(mem, d, p) == 0
  }

  /** The directory slots that the pages are in. */
  ghost function Slots(pages: set<nat>): set<nat>
  {
    set p | p in pages :: p / TABLES
  }

  /** Those of them without a table. */
  ghost function Tableless(mem: Memory, d: nat, pages: set<nat>): set<nat>
    requires d < |mem|
  {
    set i | i in Slots(pages) && i < WINDOW && !HasTable(mem, d, i)
  }

  /** The frames it takes to map all pages of the set: one for each page without an entry and one for each missing
      table. */
  ghost function NeedOf(mem: Memory, d: nat, pages: set<nat>): nat
    requires d < |mem|
  {
    |Unmapped(mem, d, pages)| + |Tableless(mem, d, pages)|
  }

  /** The same for `n` pages from `vp` on. */
  ghost function Need(mem: Memory, d: nat, vp: nat, n: nat): nat
    requires d < |mem|
  {
    NeedOf(mem, d, Interval(vp, n))
  }

  lemma AllocTables(s: Space, s': Space, d: nat, i: nat, j: nat, flags: nat)
    requires Inv(s) && d in s.dirs && i < WINDOW && j < TABLES && flags < PAGE && Present(flags)
    requires d < |s.mem| && AllocStep(s, s', d, i, j, flags) && d < |s'.mem|
    ensures forall i': nat :: i' < TABLES ==> HasTable(s'.mem, d, i') == (HasTable(s.mem, d, i') || i' == i)
    ensures |s'.taken| ==
            |s.taken| + (if Pte(s.mem, d, i, j) == 0 then 1 else 0) + (if HasTable(s.mem, d, i) then 0 else 1)
  {
    hide FrameOf, FlagsOf, Present, Entry, PagesOwned, FreeFramesZero;
    if Pte(s.mem, d, i, j) == 0 {
      if HasTable(s.mem, d, i) {
        TableFrame(s, d, i);
        assert s'.mem[d] == s.mem[d];
      } else {
        var f: nat, t: nat :| Free(s, f) && Free(s, t) && f != t && AddedBoth(s, s', d, i, j, f, t, flags);
        EntryParts(t, flags);
      }
    }
  }

  lemma UnmappedStep(m: Memory, m': Memory, d: nat, p: nat, pages: set<nat>)
    requires d < |m| && d < |m'| && p in pages && p < WINDOW * TABLES && PageEntry(m', d, p) != 0
    requires forall q: nat :: q < WINDOW * TABLES && q != p ==> PageEntry(m', d, q) == PageEntry(m, d, q)
    ensures |Unmapped(m, d, pages)| == |Unmapped(m', d, pages)| + if PageEntry(m, d, p) == 0 then 1 else 0
  {
    hide PageEntry;
    var u, u' := Unmapped(m, d, pages), Unmapped(m', d, pages);
    assert u == if PageEntry(m, d, p) == 0 then u' + {p} else u';
  }

  lemma TablelessStep(m: Memory, m': Memory, d: nat, p: nat, pages: set<nat>)
    requires d < |m| && d < |m'| && p in pages && p < WINDOW * TABLES
    requires forall i: nat :: i < TABLES ==> HasTable(m', d, i) == (HasTable(m, d, i) || i == p / TABLES)
    ensures |Tableless(m, d, pages)| == |Tableless(m', d, pages)| + if HasTable(m, d, p / TABLES) then 0 else 1
  {
    hide HasTable;
    var t, t' := Tableless(m, d, pages), Tableless(m', d, pages);
    assert t == if HasTable(m, d, p / TABLES) then t' else t' + {p / TABLES};
  }

  lemma OtherPage(p: nat, q: nat)
    requires p != q
    ensures p / TABLES != q / TABLES || p % TABLES != q % TABLES
  {
  }

  /** One page of a set: what is needed shrinks by what is taken. */
  lemma NeedOfStep(s: Space, s': Space, d: nat, p: nat, pages: set<nat>, flags: nat)
    requires Inv(s) && d in s.dirs && d < |s.mem| && p in pages && p < WINDOW * TABLES
    requires flags < PAGE && Present(flags) && AllocStep(s, s', d, p / TABLES, p % TABLES, flags)
    ensures d < |s'.mem| && PageEntry(s'.mem, d, p) != 0
    ensures |s'.taken| + NeedOf(s'.mem, d, pages) == |s.taken| + NeedOf(s.mem, d, pages)
  {
    hide Inv, AllocStep, Pte, HasTable, Unmapped, Tableless, Present;
    AllocLaw(s, s', d, p / TABLES, p % TABLES, flags);
    AllocTables(s, s', d, p / TABLES, p % TABLES, flags);
    forall q: nat | q < WINDOW * TABLES && q != p
      ensures PageEntry(s'.mem, d, q) == PageEntry(s.mem, d, q)
    {
      OtherPage(p, q);
    }
    UnmappedStep(s.mem, s'.mem, d, p, pages);
    TablelessStep(s.mem, s'.mem, d, p, pages);
  }

  lemma EntryHasTable(mem: Memory, d: nat, p: nat)
    requires d < |mem| && p < WINDOW * TABLES && PageEntry(mem, d, p) != 0
    ensures HasTable(mem, d, p / TABLES)
  {
  }

  /** A page that is mapped needs nothing. */
  lemma NeedOfRest(mem: Memory, d: nat, p: nat, pages: set<nat>)
    requires d < |mem| && p < WINDOW * TABLES && PageEntry(mem, d, p) != 0
    ensures NeedOf(mem, d, pages) == NeedOf(mem, d, pages - {p})
  {
    hide PageEntry, HasTable;
    EntryHasTable(mem, d, p);
    assert Unmapped(mem, d, pages) == Unmapped(mem, d, pages - {p});
    assert Tableless(mem, d, pages) == Tableless(mem, d, pages - {p}) by {
      forall i | i in Slots(pages) && i != p / TABLES
        ensures i in Slots(pages - {p})
      {
        var q :| q in pages && q / TABLES == i;
        assert q in pages - {p};
      }
    }
  }

  /** One page of a range: what is needed for the rest shrinks by what is taken. */
  lemma NeedStep(s: Space, s': Space, d: nat, vp: nat, n: nat, flags: nat)
    requires Inv(s) && d in s.dirs && d < |s.mem| && 0 < n && vp + n <= WINDOW * TABLES
    requires flags < PAGE && Present(flags) && AllocStep(s, s', d, vp / TABLES, vp % TABLES, flags)
    ensures d < |s'.mem|
    ensures |s'.taken| + Need(s'.mem, d, vp + 1, n - 1) == |s.taken| + Need(s.mem, d, vp, n)
  {
    hide Inv, AllocStep, NeedOf, PageEntry, Present;
    NeedOfStep(s, s', d, vp, Interval(vp, n), flags);
    NeedOfRest(s'.mem, d, vp, Interval(vp, n));
    assert Interval(vp, n) - {vp} == Interval(vp + 1, n - 1);
  }

  /** Without unmapped pages nothing is needed. */
  lemma NeedOfMapped(mem: Memory, d: nat, vp: nat, n: nat)
    requires d < |mem| && vp + n <= WINDOW * TABLES
    requires forall p: nat :: vp <= p < vp + n ==> PageEntry(mem, d, p) != 0
    ensures Need(mem, d, vp, n) == 0
  {
    hide PageEntry, HasTable;
    forall p | p in Interval(vp, n)
      ensures HasTable(mem, d, p / TABLES)
    {
      EntryHasTable(mem, d, p);
    }
    assert Unmapped(mem, d, Interval(vp, n)) == {} && Tableless(mem, d, Interval(vp, n)) == {};
  }

  ghost predicate AllMapped(mem: Memory, d: nat, vp: nat, n: nat)
    requires d < |mem| && vp + n <= WINDOW * TABLES
  {
    forall p: nat :: vp <= p < vp + n ==> PageEntry(mem, d, p) != 0
  }

  /** Every page that had an entry still has the same. */
  ghost predicate KeepsMappings(m: Memory, m': Memory, dirs: set<nat>)
    requires forall d :: d in dirs ==> d < |m| && d < |m'|
  {
    forall d, i: nat, j: nat :: d in dirs && i < WINDOW && j < TABLES && Pte(m, d, i, j) != 0 ==>
      Pte(m', d, i, j) == Pte(m, d, i, j)
  }

  /** The pages of a set that are mapped. */
  ghost predicate PagesMapped(mem: Memory, d: nat, pages: set<nat>)
    requires d < |mem|
  {
    forall p :: p in pages ==> p < WINDOW * TABLES && PageEntry(mem, d, p) != 0
  }

  /** The frames that `allocpgs` has to find free: what it takes, and one more where the last page is mapped, because
      it asks for a frame before it looks. */
  ghost function Demand(mem: Memory, d: nat, vp: nat, n: nat): nat
    requires d < |mem| && vp + n <= WINDOW * TABLES
  {
    Need(mem, d, vp, n) + if n > 0 && PageEntry(mem, d, vp + n - 1) != 0 then 1 else 0
  }

  lemma DemandPositive(mem: Memory, d: nat, vp: nat, n: nat)
    requires d < |mem| && 0 < n && vp + n <= WINDOW * TABLES
    ensures Demand(mem, d, vp, n) > 0
    ensures !HasTable(mem, d, vp / TABLES) ==> Demand(mem, d, vp, n) >= 2
  {
    hide PageEntry, HasTable, NeedOf;
    NeedOfPage(mem, d, vp, Interval(vp, n));
    NeedOfPage(mem, d, vp + n - 1, Interval(vp, n));
  }

  /** One page of a range, with a frame to be had for it: what was enough for the whole is enough for the rest. */
  lemma DemandStep(s: Space, s': Space, d: nat, vp: nat, n: nat, flags: nat)
    requires Inv(s) && d in s.dirs && d < |s.mem| && 0 < n && vp + n <= WINDOW * TABLES
    requires flags < PAGE && Present(flags) && AllocStep(s, s', d, vp / TABLES, vp % TABLES, flags)
    requires |s.taken| < |s.mem| && (HasTable(s.mem, d, vp / TABLES) || |s.taken| + 1 != |s.mem|)
    ensures d < |s'.mem| == |s.mem|
    ensures |s'.mem| - |s'.taken| >= Demand(s'.mem, d, vp + 1, n - 1) <==>
            |s.mem| - |s.taken| >= Demand(s.mem, d, vp, n)
  {
    hide Inv, AllocStep, Pte, HasTable, Unmapped, Tableless, Present;
    NeedStep(s, s', d, vp, n, flags);
    AllocLaw(s, s', d, vp / TABLES, vp % TABLES, flags);
    if n > 1 {
      var last := vp + n - 1;
      assert last / TABLES != vp / TABLES || last % TABLES != vp % TABLES;
      assert PageEntry(s'.mem, d, last) == PageEntry(s.mem, d, last);
    } else {
      NeedOfOne(s.mem, d, vp);
      NeedOfNone(s'.mem, d, vp + 1);
    }
  }

  lemma DemandOfNone(mem: Memory, d: nat, vp: nat)
    requires d < |mem| && vp <= WINDOW * TABLES
    ensures Demand(mem, d, vp, 0) == 0
  {
  }

  /** Where all pages are mapped one free frame is asked for, and none is taken. */
  lemma DemandOfMapped(mem: Memory, d: nat, vp: nat, n: nat)
    requires d < |mem| && vp + n <= WINDOW * TABLES && AllMapped(mem, d, vp, n)
    ensures Need(mem, d, vp, n) == 0 && Demand(mem, d, vp, n) == if n == 0 then 0 else 1
  {
    hide PageEntry, Unmapped, Tableless;
    NeedOfMapped(mem, d, vp, n);
  }

  lemma RangeMapped(mem: Memory, d: nat, addr: nat, size: nat)
    requires d < |mem| && addr / PAGE + PageCount(size) <= WINDOW * TABLES
    ensures AllMapped(mem, d, addr / PAGE, PageCount(size)) <==> PagesMapped(mem, d, Pages(addr, size))
  {
    hide PageEntry;
  }

  lemma NeedOfOne(mem: Memory, d: nat, vp: nat)
    requires d < |mem| && vp < WINDOW * TABLES
    ensures Need(mem, d, vp, 1) ==
            (if PageEntry(mem, d, vp) == 0 then 1 else 0) + if HasTable(mem, d, vp / TABLES) then 0 else 1
  {
    assert Interval(vp, 1) == {vp} && Slots({vp}) == {vp / TABLES};
    assert Unmapped(mem, d, {vp}) == if PageEntry(mem, d, vp) == 0 then {vp} else {};
    assert Tableless(mem, d, {vp}) == if HasTable(mem, d, vp / TABLES) then {} else {vp / TABLES};
  }

  lemma NeedOfNone(mem: Memory, d: nat, vp: nat)
    requires d < |mem| && vp <= WINDOW * TABLES
    ensures Need(mem, d, vp, 0) == 0
  {
    assert Unmapped(mem, d, Interval(vp, 0)) == {} && Tableless(mem, d, Interval(vp, 0)) == {};
  }

  /** A page without an entry needs a frame, and two without a table. */
  lemma NeedOfPage(mem: Memory, d: nat, p: nat, pages: set<nat>)
    requires d < |mem| && p in pages && p < WINDOW * TABLES
    ensures PageEntry(mem, d, p) == 0 ==> NeedOf(mem, d, pages) >= if HasTable(mem, d, p / TABLES) then 1 else 2
    ensures !HasTable(mem, d, p / TABLES) ==> PageEntry(mem, d, p) == 0
  {
    if PageEntry(mem, d, p) == 0 {
      assert p in Unmapped(mem, d, pages);
      if !HasTable(mem, d, p / TABLES) {
        assert p / TABLES in Tableless(mem, d, pages);
      }
    }
  }

  /** The pages outside of the set read as before, in all directories. */
  ghost predicate KeepsOtherPages(m: Memory, m': Memory, dirs: set<nat>, pages: set<nat>)
    requires forall d :: d in dirs ==> d < |m| && d < |m'|
  {
    forall d, p: nat :: d in dirs && p < WINDOW * TABLES && p !in pages ==> PageEntry(m', d, p) == PageEntry(m, d, p)
  }

  /** The frames taken and those still needed are together what was needed at the start. */
  ghost predicate RangeCounted(s0: Space, s: Space, d: nat, vp: nat, n: nat, i: nat, had: nat, free: nat)
    requires d < |s0.mem| && d < |s.mem| && i <= n && vp + n <= WINDOW * TABLES
  {
    && (had >= Demand(s0.mem, d, vp, n) <==> free >= Demand(s.mem, d, vp + i, n - i))
    && |s.taken| + Need(s.mem, d, vp + i, n - i) == |s0.taken| + Need(s0.mem, d, vp, n)
  }

  lemma CountedStep(s0: Space, s: Space, s': Space, d: nat, vp: nat, n: nat, i: nat, had: nat, free: nat, free': nat,
                    flags: nat)
    requires Inv(s) && d in s.dirs && d < |s0.mem| && d < |s.mem| && i < n && vp + n <= WINDOW * TABLES
    requires RangeCounted(s0, s, d, vp, n, i, had, free)
    requires free == |s.mem| - |s.taken| && free' == |s'.mem| - |s'.taken|
    requires flags < PAGE && Present(flags) && AllocStep(s, s', d, (vp + i) / TABLES, (vp + i) % TABLES, flags)
    requires free > 0 && (HasTable(s.mem, d, (vp + i) / TABLES) || free != 1)
    ensures d < |s'.mem| && RangeCounted(s0, s', d, vp, n, i + 1, had, free')
  {
    hide Inv, AllocStep, Demand, Need, Present, HasTable;
    DemandStep(s, s', d, vp + i, n - i, flags);
    NeedStep(s, s', d, vp + i, n - i, flags);
  }

  /** allocpgs after `i` of its `n` pages, from `s0` to `s`, with `had` frames free at the start and `free` now. */
  ghost predicate RangeDone(s0: Space, s: Space, d: nat, vp: nat, n: nat, i: nat, had: nat, free: nat,
                            flags: nat)
    requires d < |s0.mem| && d < |s.mem| && i <= n && vp + n <= WINDOW * TABLES
  {
    && (forall d' :: d' in s.dirs ==> d' < |s0.mem|) && s.dirs == s0.dirs && |s.mem| == |s0.mem|
    && RangeCounted(s0, s, d, vp, n, i, had, free)
    && AllMapped(s.mem, d, vp, i)
    && KeepsMappings(s0.mem, s.mem, s0.dirs) && KeepsOtherPages(s0.mem, s.mem, s0.dirs, Interval(vp, i))
    && s0.taken <= s.taken && EnteredWith(s0, s, d, flags)
    && (AllMapped(s0.mem, d, vp, n) ==> s == s0)
  }

  lemma RangeStart(s: Space, d: nat, vp: nat, n: nat, had: nat, flags: nat)
    requires d < |s.mem| && vp + n <= WINDOW * TABLES && forall d' :: d' in s.dirs ==> d' < |s.mem|
    ensures RangeDone(s, s, d, vp, n, 0, had, had, flags)
  {
    hide Demand, Need, Pte, PageEntry;
  }

  lemma RangeStep(s0: Space, s: Space, s': Space, d: nat, vp: nat, n: nat, i: nat, had: nat, free: nat, free': nat,
                  flags: nat)
    requires Inv(s) && d in s.dirs && d < |s0.mem| && d < |s.mem| && i < n && vp + n <= WINDOW * TABLES
    requires RangeDone(s0, s, d, vp, n, i, had, free, flags)
    requires free == |s.mem| - |s.taken| && free' == |s'.mem| - |s'.taken|
    requires flags < PAGE && Present(flags) && AllocStep(s, s', d, (vp + i) / TABLES, (vp + i) % TABLES, flags)
    requires free > 0 && (HasTable(s.mem, d, (vp + i) / TABLES) || free != 1)
    ensures d < |s'.mem| && RangeDone(s0, s', d, vp, n, i + 1, had, free', flags)
  {
    hide Inv, AllocStep, Demand, Need, AllMapped, KeepsMappings, KeepsOtherPages, Present, Entry, HasTable,
      EnteredWith, RangeCounted;
    assert vp + i - vp == i;
    DirsExist(s);
    CountedStep(s0, s, s', d, vp, n, i, had, free, free', flags);
    MappedStep(s, s', d, vp, vp + i, flags);
    KeptStep(s0.mem, s, s', d, vp + i, flags);
    OthersStep(s0.mem, s, s', d, vp, i, flags);
    EnteredNext(s0, s, s', d, (vp + i) / TABLES, (vp + i) % TABLES, flags);
    if AllMapped(s0.mem, d, vp, n) {
      NoStep(s, s', d, vp, n, vp + i, flags);
    }
  }

  /** Too few frames for the next page. */
  lemma RangeShort(s0: Space, s: Space, d: nat, vp: nat, n: nat, i: nat, had: nat, free: nat, flags: nat)
    requires d < |s0.mem| && d < |s.mem| && i < n && vp + n <= WINDOW * TABLES
    requires RangeDone(s0, s, d, vp, n, i, had, free, flags)
    ensures free == 0 || (free == 1 && !HasTable(s.mem, d, (vp + i) / TABLES)) ==> had < Demand(s0.mem, d, vp, n)
    ensures free == 1 && AllMapped(s0.mem, d, vp, n) ==> HasTable(s.mem, d, (vp + i) / TABLES)
    ensures free == 0 && AllMapped(s0.mem, d, vp, n) ==> had == 0
  {
    hide Demand, Need, KeepsMappings, KeepsOtherPages, HasTable, Pte, EnteredWith;
    DemandPositive(s.mem, d, vp + i, n - i);
    if AllMapped(s0.mem, d, vp, n) {
      DemandOfMapped(s0.mem, d, vp, n);
      DemandOfMapped(s.mem, d, vp + i, n - i);
    }
  }

  lemma RangeEnd(s0: Space, s: Space, d: nat, vp: nat, n: nat, had: nat, free: nat, flags: nat)
    requires d < |s0.mem| && d < |s.mem| && vp + n <= WINDOW * TABLES && RangeDone(s0, s, d, vp, n, n, had, free, flags)
    ensures had >= Demand(s0.mem, d, vp, n) && AllMapped(s.mem, d, vp, n)
    ensures |s.taken| == |s0.taken| + Need(s0.mem, d, vp, n)
    ensures AllMapped(s0.mem, d, vp, n) && n > 0 ==> had > 0
  {
    hide AllMapped, KeepsMappings, KeepsOtherPages, EnteredWith;
    if AllMapped(s0.mem, d, vp, n) {
      DemandOfMapped(s0.mem, d, vp, n);
    }
    NeedOfNone(s.mem, d, vp + n);
    DemandOfNone(s.mem, d, vp + n);
  }

  lemma RangeKeeps(s0: Space, s: Space, d: nat, vp: nat, n: nat, i: nat, had: nat, free: nat, flags: nat)
    requires d < |s0.mem| && d < |s.mem| && i <= n && vp + n <= WINDOW * TABLES
             && RangeDone(s0, s, d, vp, n, i, had, free, flags)
    ensures |s.mem| == |s0.mem| && s.dirs == s0.dirs && forall d' :: d' in s.dirs ==> d' < |s0.mem|
    ensures KeepsMappings(s0.mem, s.mem, s0.dirs) && KeepsOtherPages(s0.mem, s.mem, s0.dirs, Interval(vp, n))
    ensures EnteredWith(s0, s, d, flags)
  {
    hide PageEntry, Demand, Need, KeepsMappings, EnteredWith;
  }

  lemma RangeMappedAll(s0: Space, s: Space, d: nat, vp: nat, n: nat, i: nat, had: nat, free: nat, flags: nat)
    requires d < |s0.mem| && d < |s.mem| && i <= n && vp + n <= WINDOW * TABLES
             && RangeDone(s0, s, d, vp, n, i, had, free, flags)
    ensures AllMapped(s0.mem, d, vp, n) ==> s == s0
  {
  }

  /** One page more: what was entered before it stays, and was free at the start. */
  lemma EnteredNext(s0: Space, s: Space, s': Space, d: nat, i: nat, j: nat, flags: nat)
    requires Inv(s) && d in s.dirs && d < |s0.mem| && d < |s.mem| == |s0.mem| && i < WINDOW && j < TABLES
    requires s0.taken <= s.taken && EnteredWith(s0, s, d, flags) && flags < PAGE && Present(flags)
    requires AllocStep(s, s', d, i, j, flags)
    ensures d < |s'.mem| && s0.taken <= s'.taken && EnteredWith(s0, s', d, flags)
  {
    hide Inv, AllocStep, Pte, Present, NewEntry;
    AllocLaw(s, s', d, i, j, flags);
    AllocEnters(s, s', d, i, j, flags);
    forall k: nat, l: nat | k < WINDOW && l < TABLES && Pte(s'.mem, d, k, l) != Pte(s0.mem, d, k, l)
      ensures Pte(s0.mem, d, k, l) == 0 && NewEntry(s0, s', Pte(s'.mem, d, k, l), flags)
    {
      NewEntryStays(s0, s, s', Pte(s.mem, d, k, l), Pte(s'.mem, d, k, l), flags);
    }
    forall k: nat | k < TABLES && s'.mem[d][k] != s0.mem[d][k]
      ensures !HasTable(s0.mem, d, k) && NewEntry(s0, s', s'.mem[d][k], flags)
    {
      NewEntryStays(s0, s, s', s.mem[d][k], s'.mem[d][k], flags);
    }
  }

  lemma NewEntryStays(s0: Space, s: Space, s': Space, e: nat, e': nat, flags: nat)
    requires |s.mem| == |s0.mem| && s0.taken <= s.taken <= s'.taken && Present(flags)
    ensures NewEntry(s0, s, e, flags) ==> NewEntry(s0, s', e, flags) && e != 0 && Present(e)
    ensures NewEntry(s, s', e', flags) ==> NewEntry(s0, s', e', flags)
  {
    hide Present;
    if e % 0x1000 == flags {
      FlagsPresent(e, flags);
    }
  }

  lemma FlagsPresent(e: nat, flags: nat)
    requires e % 0x1000 == flags && Present(flags)
    ensures e != 0 && Present(e)
  {
  }

  lemma DirsExist(s: Space)
    requires Inv(s)
    ensures forall d :: d in s.dirs ==> d < |s.mem|
  {
  }

  lemma OthersStep(m: Memory, s: Space, s': Space, d: nat, vp: nat, i: nat, flags: nat)
    requires Inv(s) && d in s.dirs && d < |s.mem| == |m| && vp + i < WINDOW * TABLES && flags < PAGE && Present(flags)
    requires AllocStep(s, s', d, (vp + i) / TABLES, (vp + i) % TABLES, flags)
    requires (forall x :: x in s.dirs ==> x < |m|) && KeepsOtherPages(m, s.mem, s.dirs, Interval(vp, i))
    ensures |s'.mem| == |s.mem| && s'.dirs == s.dirs && KeepsOtherPages(m, s'.mem, s.dirs, Interval(vp, i + 1))
  {
    hide Inv, AllocStep, Pte, Present;
    AllocLaw(s, s', d, (vp + i) / TABLES, (vp + i) % TABLES, flags);
    forall x, p: nat | x in s.dirs && p < WINDOW * TABLES && p !in Interval(vp, i + 1)
      ensures PageEntry(s'.mem, x, p) == PageEntry(m, x, p)
    {
      assert p !in Interval(vp, i) && p != vp + i;
      assert p / TABLES != (vp + i) / TABLES || p % TABLES != (vp + i) % TABLES;
    }
  }

  lemma MappedStep(s: Space, s': Space, d: nat, vp: nat, p: nat, flags: nat)
    requires Inv(s) && d in s.dirs && d < |s.mem| && vp <= p < WINDOW * TABLES && flags < PAGE && Present(flags)
    requires AllocStep(s, s', d, p / TABLES, p % TABLES, flags)
    requires AllMapped(s.mem, d, vp, p - vp)
    ensures d < |s'.mem| && AllMapped(s'.mem, d, vp, p - vp + 1)
  {
    hide Inv, AllocStep, Pte, Present;
    AllocLaw(s, s', d, p / TABLES, p % TABLES, flags);
    forall q: nat | vp <= q < p + 1
      ensures PageEntry(s'.mem, d, q) != 0
    {
      if q < p {
        assert PageEntry(s.mem, d, q) != 0;
      }
    }
  }

  lemma KeptStep(m: Memory, s: Space, s': Space, d: nat, p: nat, flags: nat)
    requires Inv(s) && d in s.dirs && d < |s.mem| == |m| && p < WINDOW * TABLES && flags < PAGE && Present(flags)
    requires AllocStep(s, s', d, p / TABLES, p % TABLES, flags)
    requires (forall x :: x in s.dirs ==> x < |m|) && KeepsMappings(m, s.mem, s.dirs)
    ensures |s'.mem| == |s.mem| && s'.dirs == s.dirs && KeepsMappings(m, s'.mem, s.dirs)
  {
    hide Inv, AllocStep, Pte, Present;
    AllocLaw(s, s', d, p / TABLES, p % TABLES, flags);
  }

  /** Where all pages of the range are mapped, none of them changes anything. */
  lemma NoStep(s: Space, s': Space, d: nat, vp: nat, n: nat, p: nat, flags: nat)
    requires d < |s.mem| && vp <= p < vp + n <= WINDOW * TABLES && AllMapped(s.mem, d, vp, n)
    requires AllocStep(s, s', d, p / TABLES, p % TABLES, flags)
    ensures s' == s
  {
    assert PageEntry(s.mem, d, p) != 0;
  }
}
