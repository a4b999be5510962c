/** The second-stage pager (module/paging/main.c) over physical memory and the frame allocator.
    Addresses are page numbers: a virtual page `vp` has directory index `vp / 1024` and table index `vp % 1024`. */
module Pager {
  import opened FrameBitmap
  import opened Intervals
  import opened PageUnits
  import opened AddressSpace
  import opened AddressSpaceLaws
  import opened PageAccounting
  import opened Translation
  import opened TableClone
  import opened KernelGrowth
  import AddressSpaceRuns

  ghost predicate Sound(s: Space, d: nat, tables: map<nat, seq<nat>>)
  {
    FramesOk(s) && TablesOwned(s) && d in s.dirs && PointersOk(s.mem, s.dirs, tables)
  }

  class PageManager {
    var mem: Memory
    var tables: map<nat, seq<nat>>
    var currentDirectory: nat
    const pmm: FrameAllocator
    ghost var dirs: set<nat>
    ghost var role: map<nat, Role>

    ghost function S(): Space
      reads this, pmm
    {
      Space(mem, dirs, pmm.Taken(), role)
    }

    /** The frame allocator works, frame 0 is not its to give, and there is a directory. */
    ghost predicate Machine()
      reads this, pmm, pmm.bitmap
    {
      pmm.Valid() && |mem| == pmm.pagesTotal && 0 in pmm.Taken() && currentDirectory < |mem|
    }

    /** What remapping needs and keeps, whatever the pages map. */
    ghost predicate Structured()
      reads this, pmm, pmm.bitmap
    {
      Machine() && Sound(S(), currentDirectory, tables)
    }

    ghost predicate Valid()
      reads this, pmm, pmm.bitmap
    {
      Structured() && Inv(S())
    }

    /** The number of frames that are still free. */
    ghost function FreeCount(): nat
      requires Machine()
      reads this, pmm, pmm.bitmap
    {
      SubsetSize(pmm.Taken(), Range(pmm.pagesTotal));
      |mem| - |pmm.Taken()|
    }

    /** paging_init: takes over the boot directory and drops its identity mapping, the table in slot 0. */
    constructor (pmm: FrameAllocator, mem: Memory, directory: nat, pointers: seq<nat>, ghost role: map<nat, Role>)
      requires pmm.Valid() && |mem| == pmm.pagesTotal && directory < |mem|
      requires Inv(Space(mem, {directory}, pmm.Taken(), role))
               && PointersOk(mem, {directory}, map[directory := pointers])
      ensures Valid() && this.pmm == pmm && currentDirectory == directory && dirs == {directory}
      ensures this.mem == WriteWord(mem, directory, 0, 0)
    {
      this.pmm := pmm;
      this.mem := WriteWord(mem, directory, 0, 0);
      var cleared: seq<nat> := pointers[0 := 0];
      this.tables := map[directory := cleared];
      this.currentDirectory := directory;
      this.dirs := {directory};
      this.role := role;
      DropTableLaw(Space(mem, {directory}, pmm.Taken(), role), directory, 0);
    }

    method Load(vp: nat, j: nat) returns (w: nat)
      requires Mapped(mem, currentDirectory, vp) && j < TABLES
      ensures w == mem[Translate(mem, currentDirectory, vp)][j]
    {
      w := mem[Translate(mem, currentDirectory, vp)][j];
    }

    method StoreWord(vp: nat, j: nat, w: nat)
      requires Mapped(mem, currentDirectory, vp) && j < TABLES
      modifies this`mem
      ensures mem == WriteWord(old(mem), Translate(old(mem), currentDirectory, vp), j, w)
    {
      mem := WriteWord(mem, Translate(mem, currentDirectory, vp), j, w);
    }

    /** `memset(page, 0, 0x1000)` */
    method ClearPage(vp: nat)
      requires Mapped(mem, currentDirectory, vp)
      modifies this`mem
      ensures mem == old(mem)[Translate(old(mem), currentDirectory, vp) := Zero()]
    {
      mem := mem[Translate(mem, currentDirectory, vp) := Zero()];
    }

    /** `memcpy(to, from, 0x1000)` */
    method CopyPage(to: nat, from: nat)
      requires Mapped(mem, currentDirectory, to) && Mapped(mem, currentDirectory, from)
      modifies this`mem
      ensures mem == old(mem)[Translate(old(mem), currentDirectory, to) :=
                              old(mem)[Translate(old(mem), currentDirectory, from)]]
    {
      mem := mem[Translate(mem, currentDirectory, to) := mem[Translate(mem, currentDirectory, from)]];
    }

    /** getpg: frame 0 is taken, so null means that no frame is free. */
    method GetBlock() returns (ptr: nat)
      requires Machine()
      modifies pmm`lastFree, pmm`pagesFree, pmm`pagesTaken, pmm`bits, pmm.bitmap
      ensures Machine()
      ensures ptr == 0 <==> old(FreeCount()) == 0
      ensures ptr == 0 ==> pmm.Taken() == old(pmm.Taken())
      ensures ptr != 0 ==>
                && ptr / PAGE < |mem| && ptr / PAGE !in old(pmm.Taken())
                && pmm.Taken() == old(pmm.Taken()) + {ptr / PAGE}
    {
      SubsetSize(pmm.Taken(), Range(pmm.pagesTotal));
      ptr := pmm.GetPage();
    }

    /** The frame that getpg gives. Its callers take null for a frame: where none is free, that is frame 0. */
    method GetFrame() returns (f: nat)
      requires Structured()
      modifies pmm`lastFree, pmm`pagesFree, pmm`pagesTaken, pmm`bits, pmm.bitmap
      ensures Structured() && f < |mem| && f !in role && pmm.Taken() == old(pmm.Taken()) + {f}
      ensures f == 0 <==> old(FreeCount()) == 0
      ensures f != 0 ==> Free(old(S()), f)
      ensures FreeCount() == if f == 0 then old(FreeCount()) else old(FreeCount()) - 1
    {
      hide TablesOwned, PointersOk;
      ghost var s := S();
      var ptr := GetBlock();
      f := ptr / PAGE;
      TakenGrows(s, f);
      assert pmm.Taken() == s.taken + {f};
    }

    /** The table part of remappg: a slot without a table gets a zeroed one. Without a free frame that is frame 0,
        which no directory may have for a table. */
    method NewTable(dindex: nat, flags: nat) returns (ghost t: nat)
      requires Structured() && dindex < WINDOW && !HasTable(mem, currentDirectory, dindex)
      requires flags < PAGE && Present(flags)
      modifies this, pmm`lastFree, pmm`pagesFree, pmm`pagesTaken, pmm`bits, pmm.bitmap
      ensures Machine() && currentDirectory == old(currentDirectory) && tables.Keys == old(tables.Keys)
      ensures t == 0 <==> old(FreeCount()) == 0
      ensures t < |mem| && mem == WriteWord(old(mem), currentDirectory, dindex, Entry(t, flags))[t := Zero()]
      ensures dirs == old(dirs) && pmm.Taken() == old(pmm.Taken()) + {t}
      ensures role == if t == 0 then old(role) else old(role)[t := TableRole(currentDirectory, dindex)]
      ensures t != 0 ==>
                && Structured() && Free(old(S()), t)
                && S() == AddTable(old(S()), currentDirectory, dindex, t, flags)
      ensures HasTable(mem, currentDirectory, dindex) && Table(mem, currentDirectory, dindex) == t
      ensures currentDirectory in tables && |tables[currentDirectory]| == TABLES
      ensures tables[currentDirectory][dindex] == WindowPage(dindex)
              && Mapped(mem, currentDirectory, WindowPage(dindex))
      ensures Translate(mem, currentDirectory, WindowPage(dindex)) == t
    {
      hide Entry, FrameOf, Present, Sound, Mapped, Translate;
      ghost var s, d := S(), currentDirectory;
      SoundParts(s, d, tables);
      var tblPhys := GetFrame();
      t := tblPhys;
      EntryParts(t, flags);
      if t != 0 {
        AddTableSound(s, d, dindex, t, flags, tables);
      }
      mem := WriteWord(mem, currentDirectory, dindex, Entry(tblPhys, flags));
      var pointers: seq<nat> := tables[currentDirectory][dindex := WindowPage(dindex)];
      tables := tables[currentDirectory := pointers];
      if t != 0 {
        role := role[t := TableRole(d, dindex)];
      }
      WindowShowsTable(mem, d, dindex);
      ClearPage(tables[currentDirectory][dindex]);
      WindowShowsTable(mem, d, dindex);
      assert t != 0 ==> S() == AddTable(s, d, dindex, t, flags);
    }

    /** remappg: puts `phys` into the entry of page `vp` and answers the entry that was there. In the page maps only
        that page changes. Where the table is missing and no frame is free, frame 0 becomes the table. */
    method Remap(phys: nat, vp: nat, flags: nat) returns (ret: nat, ghost t: nat)
      requires Structured() && vp < WINDOW * TABLES
      requires !HasTable(mem, currentDirectory, vp / TABLES) ==> flags < PAGE && Present(flags)
      modifies this, pmm`lastFree, pmm`pagesFree, pmm`pagesTaken, pmm`bits, pmm.bitmap
      ensures Machine() && currentDirectory == old(currentDirectory) && tables.Keys == old(tables.Keys)
              && dirs == old(dirs)
      ensures ret == old(Pte(mem, currentDirectory, vp / TABLES, vp % TABLES))
      ensures Rewritten(old(mem), mem, dirs, currentDirectory, vp / TABLES, vp % TABLES, Entry(phys, flags % PAGE))
      ensures old(HasTable(mem, currentDirectory, vp / TABLES)) ==> tables == old(tables)
      ensures Wrote(old(S()), S(), currentDirectory, vp / TABLES, vp % TABLES, t, phys, flags)
      ensures t == 0 <==> old(!HasTable(mem, currentDirectory, vp / TABLES) && FreeCount() == 0)
      ensures Structured() <==> t != 0
    {
      hide Entry, FrameOf, Present, Rewritten, Sound;
      ghost var s0, i, j := S(), vp / TABLES, vp % TABLES;
      var dindex := vp / TABLES;
      var tindex := vp % TABLES;
      SoundParts(s0, currentDirectory, tables);
      PointerOf(s0, currentDirectory, dindex, tables);
      SoundFrames(s0, currentDirectory, tables);
      var tbl := tables[currentDirectory][dindex];
      if !HasTable(mem, currentDirectory, dindex) {
        t := NewTable(dindex, flags);
        tbl := tables[currentDirectory][dindex];
        RewrittenInNewTable(s0, currentDirectory, i, j, t, flags, Entry(phys, flags % PAGE));
      } else {
        t := Table(mem, currentDirectory, dindex);
        TableFrame(s0, currentDirectory, dindex);
        RewrittenInTable(s0, currentDirectory, i, j, Entry(phys, flags % PAGE));
        WindowShowsTable(mem, currentDirectory, dindex);
      }
      ghost var s := S();
      ret := Load(tbl, tindex);
      StoreWord(tbl, tindex, Entry(phys, flags % PAGE));
      if t == 0 {
        FrameZeroUnsound(S(), currentDirectory, i, tables);
      } else {
        WriteKeepsSound(s, t, j, Entry(phys, flags % PAGE), currentDirectory, tables);
      }
    }

    /** mappg: like remappg, but leaves a page that has an entry alone. */
    method Map(phys: nat, vp: nat, flags: nat) returns (ret: nat, ghost t: nat)
      requires Structured() && vp < WINDOW * TABLES
      requires !HasTable(mem, currentDirectory, vp / TABLES) ==> flags < PAGE && Present(flags)
      modifies this, pmm`lastFree, pmm`pagesFree, pmm`pagesTaken, pmm`bits, pmm.bitmap
      ensures Machine() && currentDirectory == old(currentDirectory) && tables.Keys == old(tables.Keys)
              && dirs == old(dirs)
      ensures ret == old(Pte(mem, currentDirectory, vp / TABLES, vp % TABLES))
      ensures ret != 0 ==> S() == old(S()) && tables == old(tables)
      ensures ret == 0 ==>
                && Rewritten(old(mem), mem, dirs, currentDirectory, vp / TABLES, vp % TABLES, Entry(phys, flags % PAGE))
                && Wrote(old(S()), S(), currentDirectory, vp / TABLES, vp % TABLES, t, phys, flags)
      ensures ret == 0 && t == 0 <==> old(!HasTable(mem, currentDirectory, vp / TABLES) && FreeCount() == 0)
      ensures Structured() <==> ret != 0 || t != 0
    {
      hide Entry, FrameOf, Present, Rewritten, Sound, Wrote;
      var dindex := vp / TABLES;
      var tindex := vp % TABLES;
      SoundParts(S(), currentDirectory, tables);
      PointerOf(S(), currentDirectory, dindex, tables);
      SoundFrames(S(), currentDirectory, tables);
      var tbl := tables[currentDirectory][dindex];
      t := 0;
      if !HasTable(mem, currentDirectory, dindex) {
        ret, t := Remap(phys, vp, flags);
        return;
      }
      TableFrame(S(), currentDirectory, dindex);
      WindowShowsTable(mem, currentDirectory, dindex);
      ret := Load(tbl, tindex);
      if ret == 0 {
        ret, t := Remap(phys, vp, flags);
      }
    }

    /** allocpg: false stands for the null pointer. A page that is mapped still costs a free frame for a moment. With
        a single free frame and the table missing, the frame goes to the page and frame 0 becomes the table. */
    method AllocPage(vp: nat, flags: nat) returns (ok: bool)
      requires Machine() && (Structured() || FreeCount() == 0) && vp < WINDOW * TABLES && flags < PAGE && Present(flags)
      modifies this, pmm`lastFree, pmm`pagesFree, pmm`pagesTaken, pmm`bits, pmm.bitmap
      ensures Machine() && currentDirectory == old(currentDirectory) && tables.Keys == old(tables.Keys)
              && dirs == old(dirs)
      ensures ok == (old(FreeCount()) > 0)
      ensures !ok ==> S() == old(S()) && tables == old(tables)
      ensures AllocOutcome(old(S()), S(), currentDirectory, vp / TABLES, vp % TABLES, flags)
      ensures ok ==> (AllocStep(old(S()), S(), currentDirectory, vp / TABLES, vp % TABLES, flags) <==>
                      old(HasTable(mem, currentDirectory, vp / TABLES) || FreeCount() != 1))
      ensures ok ==> (Structured() <==> old(HasTable(mem, currentDirectory, vp / TABLES) || FreeCount() != 1))
      ensures old(Valid()) ==> (Valid() <==> Structured())
      ensures ok && !Structured() ==>
                && FreeCount() == 0 && HasTable(mem, currentDirectory, vp / TABLES)
                && Table(mem, currentDirectory, vp / TABLES) == 0
                && mem[currentDirectory][vp / TABLES] == flags && NewEntry(old(S()), S(), mem[0][vp % TABLES], flags)
    {
      hide Entry, FrameOf, Present, FramesOk, TablesOwned, PagesOwned, OwnersExist, Pte, HasTable, Wrote, Rewritten,
        AllocStep, PointersOk, LastFrameTaken, NewEntry;
      ghost var s, i, j := S(), vp / TABLES, vp % TABLES;
      var block := GetBlock();
      if block == 0 {
        return false;
      }
      TakenGrows(s, block / PAGE);
      var prev;
      ghost var t;
      prev, t := Map(block / PAGE, vp, flags);
      if prev != 0 {
        GiveBack(block, s);
        MappedStays(s, currentDirectory, i, j, flags);
      } else if t == 0 {
        LastFrame(s, S(), currentDirectory, i, j, block / PAGE, flags);
      } else {
        ghost var f, r := block / PAGE, PageRole(currentDirectory, i, t, j);
        AllocIsStep(s, S(), currentDirectory, i, j, f, t, flags);
        Own(f, r);
      }
      return true;
    }

    /** allocpgs. It succeeds, with every frame in order, exactly where the frames it has to find are free. */
    method AllocPages(addr: nat, size: nat, flags: nat) returns (ok: bool)
      requires Valid() && flags < PAGE && Present(flags)
      requires addr / PAGE + PageCount(size) <= WINDOW * TABLES
      modifies this, pmm`lastFree, pmm`pagesFree, pmm`pagesTaken, pmm`bits, pmm.bitmap
      ensures Machine() && currentDirectory == old(currentDirectory) && |mem| == |old(mem)| && dirs == old(dirs)
      ensures ok && Valid() <==> old(FreeCount() >= Demand(mem, currentDirectory, addr / PAGE, PageCount(size)))
      ensures ok && Valid() ==>
                && AllMapped(mem, currentDirectory, addr / PAGE, PageCount(size))
                && PagesMapped(mem, currentDirectory, Pages(addr, size))
                && |pmm.Taken()| == |old(pmm.Taken())| + old(Need(mem, currentDirectory, addr / PAGE, PageCount(size)))
      ensures Valid() ==> KeepsMappings(old(mem), mem, dirs) && KeepsOtherPages(old(mem), mem, dirs, Pages(addr, size))
      ensures Valid() ==> currentDirectory < |mem| && EnteredWith(old(S()), S(), currentDirectory, flags)
      ensures !Valid() ==> FreeCount() == 0
      ensures old(AllMapped(mem, currentDirectory, addr / PAGE, PageCount(size))) ==>
                S() == old(S()) && (ok <==> PageCount(size) == 0 || old(FreeCount()) > 0)
    {
      hide Inv, Sound, Present, Demand, Need, AllocStep, KeepsMappings, KeepsOtherPages, AllMapped, PagesMapped,
        RangeDone, EnteredWith;
      var pgsize := (size + (PAGE - 1)) / PAGE;
      var req := addr;
      ghost var s, vp, d, had := S(), addr / PAGE, currentDirectory, FreeCount();
      Facts();
      RangeStart(s, d, vp, pgsize, had, flags);
      for i := 0 to pgsize
        invariant Machine() && req / PAGE == vp + i && currentDirectory == d && |mem| == |s.mem| && dirs == s.dirs
        invariant Valid() ==> RangeDone(s, S(), d, vp, pgsize, i, had, FreeCount(), flags)
        invariant !Valid() ==>
                    && had < Demand(s.mem, d, vp, pgsize) && FreeCount() == 0
                    && !AllMapped(s.mem, d, vp, pgsize)
      {
        var ret := NextPage(s, req / PAGE, flags, vp, pgsize, i, had);
        if !ret {
          if Valid() {
            RangeKeeps(s, S(), d, vp, pgsize, i, had, FreeCount(), flags);
            RangeMappedAll(s, S(), d, vp, pgsize, i, had, FreeCount(), flags);
          }
          return false;
        }
        req := req + PAGE;
      }
      if Valid() {
        RangeEnd(s, S(), d, vp, pgsize, had, FreeCount(), flags);
        RangeKeeps(s, S(), d, vp, pgsize, pgsize, had, FreeCount(), flags);
        RangeMappedAll(s, S(), d, vp, pgsize, pgsize, had, FreeCount(), flags);
        RangeMapped(mem, d, addr, size);
      }
      ok := true;
    }

    /** One pass of the loop of allocpgs, `i` pages into its range. */
    method NextPage(ghost s: Space, page: nat, flags: nat, ghost vp: nat, ghost n: nat, ghost i: nat, ghost had: nat)
      returns (ret: bool)
      requires Machine() && (Valid() || FreeCount() == 0) && flags < PAGE && Present(flags)
      requires i < n && vp + n <= WINDOW * TABLES && page == vp + i && currentDirectory < |s.mem|
      requires Valid() ==> RangeDone(s, S(), currentDirectory, vp, n, i, had, FreeCount(), flags)
      requires !Valid() ==> had < Demand(s.mem, currentDirectory, vp, n) && !AllMapped(s.mem, currentDirectory, vp, n)
      modifies this, pmm`lastFree, pmm`pagesFree, pmm`pagesTaken, pmm`bits, pmm.bitmap
      ensures Machine() && currentDirectory == old(currentDirectory) && |mem| == |old(mem)| && dirs == old(dirs)
      ensures !ret ==> S() == old(S()) && Valid() == old(Valid()) && had < Demand(s.mem, currentDirectory, vp, n)
      ensures !ret && Valid() && AllMapped(s.mem, currentDirectory, vp, n) ==> had == 0
      ensures ret && Valid() ==> RangeDone(s, S(), currentDirectory, vp, n, i + 1, had, FreeCount(), flags)
      ensures !Valid() ==>
                && had < Demand(s.mem, currentDirectory, vp, n) && FreeCount() == 0
                && !AllMapped(s.mem, currentDirectory, vp, n)
      ensures ret ==> old(Valid())
      ensures !ret ==> FreeCount() == 0
    {
      hide Inv, Sound, Present, Demand, Need, AllocStep, KeepsMappings, KeepsOtherPages, AllMapped, RangeDone,
        AllocOutcome, HasTable, Table, EnteredWith;
      ghost var a, d := S(), currentDirectory;
      if Valid() {
        SoundParts(a, d, tables);
        RangeShort(s, a, d, vp, n, i, had, FreeCount(), flags);
      }
      ret := AllocPage(page, flags);
      if ret && Valid() {
        RangeStep(s, a, S(), d, vp, n, i, had, FreeFrames(a), FreeCount(), flags);
      }
    }

    /** freepg tests the old entry the wrong way around. A page that was mapped keeps its frame taken, with no page
        that uses it; for one that was not, frame 0 is given back, which the next getpg can answer like the null
        pointer. */
    method FreePg(vp: nat)
      requires Valid() && vp < WINDOW * TABLES && HasTable(mem, currentDirectory, vp / TABLES)
      modifies this, pmm`lastFree, pmm`pagesFree, pmm`pagesTaken, pmm`bits, pmm.bitmap
      ensures currentDirectory == old(currentDirectory) && dirs == old(dirs) && role == old(role)
      ensures currentDirectory < |mem| && Pte(mem, currentDirectory, vp / TABLES, vp % TABLES) == 0
      ensures pmm.Taken() == if old(Pte(mem, currentDirectory, vp / TABLES, vp % TABLES)) == 0 then
              old(pmm.Taken()) - {0}
                             else old(pmm.Taken())
      ensures Valid() <==> old(Pte(mem, currentDirectory, vp / TABLES, vp % TABLES)) != 0
    {
      ghost var s := S();
      var ret, t := Remap(0, vp, 0);
      EraseLaw(s, t, vp % TABLES);
      if ret == 0 {
        pmm.FreePage(FrameOf(ret) * PAGE);
      }
    }

    /** swpdir */
    method SwapDirectory(dir: nat) returns (orig: nat)
      requires Valid() && dir in dirs
      modifies this`currentDirectory
      ensures Valid() && orig == old(currentDirectory) && currentDirectory == dir && S() == old(S())
    {
      orig := currentDirectory;
      currentDirectory := dir;
    }

    /** One mapped entry in the loop of clonetbl: a frame is mapped at `bv`, filled from page `sv`, taken away again,
        and entered at `i` in the table reached through page `nv`. Without a free one, that is frame 0. */
    method ClonePage(i: nat, e: nat, sv: nat, nv: nat, bv: nat) returns (ghost f: nat)
      requires Structured() && i < TABLES && Present(e) && CopyReady(S(), currentDirectory, sv, nv, bv)
      modifies this, pmm`lastFree, pmm`pagesFree, pmm`pagesTaken, pmm`bits, pmm.bitmap
      ensures Structured() && tables == old(tables) && currentDirectory == old(currentDirectory)
      ensures f < |mem| && f !in role && (f == 0 <==> old(FreeCount()) == 0) && (f != 0 ==> Free(old(S()), f))
      ensures FreeCount() == if f == 0 then old(FreeCount()) else old(FreeCount()) - 1
      ensures Mapped(old(mem), currentDirectory, sv) && Mapped(old(mem), currentDirectory, nv)
      ensures var s, d := old(S()), currentDirectory;
        S() == s.(taken := s.taken + {f},
                  mem := WriteWord(CopyMem3(s, d, sv, f), Translate(s.mem, d, nv), i, Entry(f, FlagsOf(e))))
    {
      hide Entry, FrameOf, FlagsOf, Present, Sound, CopyReady, Mapped, HasEntry, WriteWord, HasTable, Translate,
        Rewritten, Pte, Wrote, CopyMem2;
      ghost var s, d := S(), currentDirectory;
      OwnedIsTaken(s, d, tables);
      EntryOfParts(e);
      var block := GetFrame();
      f := block;
      CopySteps(s, d, sv, nv, bv, f, FlagsOf(e));
      ReadyFacts(s, d, sv, nv, bv);
      var oldmappg := FillFrame(s, block, FlagsOf(e), sv, nv, bv);
      EntryOfParts(oldmappg);
      PteOfTable(mem, d, bv);
      ghost var s2, old0, k, p := S(), oldmappg, 0, Translate(s.mem, d, nv);
      oldmappg, k := Remap(FrameOf(oldmappg), bv, FlagsOf(oldmappg));
      ghost var s3 := S();
      WroteInTable(s2, s3, d, bv / TABLES, bv % TABLES, k, FrameOf(old0), FlagsOf(old0));
      WriteIsUpdate(mem, p, i, oldmappg);
      StoreWord(nv, i, oldmappg);
      WriteUnowned(s3, p, mem[p], d, tables);
    }

    /** The buffer page is mapped to `f` and filled. It answers the entry that was there. */
    method FillFrame(ghost s: Space, f: nat, flags: nat, sv: nat, ghost nv: nat, bv: nat) returns (oldmappg: nat)
      requires Structured() && CopyReady(s, currentDirectory, sv, nv, bv) && flags < PAGE && Present(flags)
      requires mem == s.mem && role == s.role && f < |mem| && f !in role
      modifies this, pmm`lastFree, pmm`pagesFree, pmm`pagesTaken, pmm`bits, pmm.bitmap
      ensures Structured() && tables == old(tables) && currentDirectory == old(currentDirectory)
      ensures HasEntry(s.mem, currentDirectory, bv) && Mapped(s.mem, currentDirectory, sv)
      ensures S() == old(S()).(mem := CopyMem2(s, currentDirectory, sv, bv, f, flags))
      ensures oldmappg == s.mem[Table(s.mem, currentDirectory, bv / TABLES)][bv % TABLES]
    {
      hide Entry, FrameOf, FlagsOf, Present, Sound, CopyReady, Mapped, HasEntry, WriteWord, HasTable, Translate,
        Rewritten, Pte, Wrote;
      ghost var d, s0, k := currentDirectory, S(), 0;
      CopySteps(s, d, sv, nv, bv, f, flags);
      ReadyFacts(s, d, sv, nv, bv);
      PteOfTable(s.mem, d, bv);
      oldmappg, k := Remap(f, bv, flags);
      ghost var s1 := S();
      WroteInTable(s0, s1, d, bv / TABLES, bv % TABLES, k, f, flags);
      CopyPage(bv, sv);
      WriteUnowned(s1, f, mem[f], d, tables);
    }

    /** clonetbl: copies table `index` of the current directory into the table of directory `n` in the same slot.
        `nv` and `bv` are the two pages that `kalloc_a` hands out: one to see the new table through, one as a buffer. */
    method CloneTable(n: nat, index: nat, nv: nat, bv: nat)
      requires Structured() && n < |mem| && index < USER_TABLES
      requires CloneReady(S(), currentDirectory, index, Table(mem, n, index), nv, bv)
      requires Table(mem, currentDirectory, index) < |mem|
      modifies this, pmm`lastFree, pmm`pagesFree, pmm`pagesTaken, pmm`bits, pmm.bitmap
      ensures Structured() && tables == old(tables) && currentDirectory == old(currentDirectory)
      ensures Kept(old(S()), S(), {}) && Table(old(mem), n, index) !in role
      ensures var src := old(mem)[Table(old(mem), currentDirectory, index)];
        && FreeCount() == Left(old(FreeCount()), |WordsLeft(src, 0)|)
        && (old(FreeCount()) >= |WordsLeft(src, 0)| ==>
              Cloning(old(S()), S(), Table(old(mem), currentDirectory, index), Table(old(mem), n, index), n, index,
                  TABLES))
        && (old(FreeCount()) < |WordsLeft(src, 0)| && Table(old(mem), n, index) != 0 ==>
              exists j: nat :: SpoiledWord(src, mem[Table(old(mem), n, index)], j))
    {
      hide Entry, FrameOf, FlagsOf, Present, Sound, CloneReady, Mapped, Cloning, WriteWord, Translate, WordsLeft,
        CopyReady, Kept, Rewritten, SpoiledWord, Pte;
      ghost var s, d, p := S(), currentDirectory, Table(mem, n, index);
      ReadyParts(s, d, index, p, nv, bv);
      ghost var t, k := Table(mem, d, index), 0;
      var paddr := Table(mem, n, index);
      PointerOfTable(s, d, index, tables);
      PteOfTable(s.mem, d, nv);
      var oldmaptbl;
      oldmaptbl, k := Remap(paddr, nv, 3);
      ghost var s1 := NewTableShown(s, d, p, nv);
      CloningStart(s1, t, p, n, index);
      KeptSelf(s1);
      var tbl := tables[currentDirectory][index];
      for i := 0 to TABLES
        invariant Structured() && currentDirectory == d && tables == old(tables) && p !in role
        invariant Kept(s1, S(), {})
        invariant |WordsLeft(s.mem[t], 0)| >= |WordsLeft(s.mem[t], i)|
        invariant FreeCount() == Left(old(FreeCount()), |WordsLeft(s.mem[t], 0)| - |WordsLeft(s.mem[t], i)|)
        invariant old(FreeCount()) >= |WordsLeft(s.mem[t], 0)| - |WordsLeft(s.mem[t], i)| ==>
                  Cloning(s1, S(), t, p, n, index, i)
        invariant old(FreeCount()) < |WordsLeft(s.mem[t], 0)| - |WordsLeft(s.mem[t], i)| && p != 0 ==>
                    exists j: nat :: j < i && SpoiledWord(s.mem[t], mem[p], j)
      {
        ghost var before := mem;
        CloneWord(s, tbl, p, n, index, i, nv, bv);
        SpoiledWordStays(s.mem[t], before[p], mem[p], p, i);
      }
      EntryOfParts(oldmaptbl);
      KeptRestored(s, S(), d, index, p, nv, bv);
      if old(FreeCount()) >= |WordsLeft(s.mem[t], 0)| - |WordsLeft(s.mem[t], TABLES)| {
        CloneRestored(s, S(), d, index, p, nv, bv, n, TABLES);
      }
      PteOfTable(mem, d, nv);
      WriteElsewhere(mem, Table(mem, d, nv / TABLES), nv % TABLES, oldmaptbl, p);
      oldmaptbl, k := Remap(FrameOf(oldmaptbl), nv, FlagsOf(oldmaptbl));
      WordsEnd(s.mem[t]);
    }

    /** One pass of clonetbl's loop over the entries. */
    method CloneWord(ghost s: Space, tbl: nat, ghost p: nat, ghost n: nat, index: nat, i: nat, nv: nat, bv: nat)
      requires Structured() && i < TABLES && index < USER_TABLES && tbl == WindowPage(index)
      requires CloneReady(s, currentDirectory, index, p, nv, bv) && currentDirectory < |s.mem| && nv < WINDOW * TABLES
      requires Table(s.mem, currentDirectory, index) < |s.mem| && Table(s.mem, currentDirectory, nv / TABLES) < |s.mem|
      requires Kept(NewTableShown(s, currentDirectory, p, nv), S(), {}) && p !in role && p < |mem|
      modifies this, pmm`lastFree, pmm`pagesFree, pmm`pagesTaken, pmm`bits, pmm.bitmap
      ensures Structured() && currentDirectory == old(currentDirectory) && tables == old(tables) && p !in role
      ensures Kept(NewTableShown(s, currentDirectory, p, nv), S(), {}) && p < |mem|
      ensures var t := Table(s.mem, currentDirectory, index); var src := s.mem[t];
        var s1 := NewTableShown(s, currentDirectory, p, nv);
        && |WordsLeft(src, i)| == |WordsLeft(src, i + 1)| + (if src[i] == 0 then 0 else 1)
        && FreeCount() == Left(old(FreeCount()), |WordsLeft(src, i)| - |WordsLeft(src, i + 1)|)
        && (old(Cloning(s1, S(), t, p, n, index, i)) && (src[i] != 0 ==> old(FreeCount()) > 0) ==>
              Cloning(s1, S(), t, p, n, index, i + 1))
        && (src[i] != 0 && old(FreeCount()) == 0 && p != 0 ==> SpoiledWord(src, mem[p], i))
      ensures p != 0 ==> forall j: nat :: j < TABLES && j != i ==> mem[p][j] == old(mem)[p][j]
    {
      hide Entry, FrameOf, FlagsOf, Present, Sound, CloneReady, Mapped, Cloning, Translate, WordsLeft, CopyReady, Kept;
      ghost var d, s' := currentDirectory, S();
      ghost var t, s1 := Table(s.mem, d, index), NewTableShown(s, d, p, nv);
      ReadyParts(s, d, index, p, nv, bv);
      ReadyForWord(s, s', d, index, p, nv, bv, i);
      WordsStep(s.mem[t], i);
      var e := Load(tbl, i);
      if e == 0 {
        if Cloning(s1, s', t, p, n, index, i) {
          CloningSkip(s1, s', t, p, n, index, i);
        }
      } else {
        WordFacts(s, d, index, p, nv, bv, i);
        OwnedIsTaken(s', d, tables);
        KeptTaken(s1, s');
        EntryOfParts(e);
        ghost var f := ClonePage(i, e, index * TABLES + i, nv, bv);
        ghost var b := S();
        if f != 0 {
          OwnPage(f, UserPage(n, index, i));
        }
        WordDone(s1, s', b, S(), t, p, n, index, i, f);
      }
    }

    /** clonedir of the current directory. `newdir` is the first page of the block that `kalloc_a` gives for the new
        directory; `scratch` are the two pages that it gives for each table, and `asked` the kernel pages that it
        asks for on the way to them. `path` is how the kernel grows by those; what comes out is a copy of the grown
        space. The code looks at none of the frames it gets: where they run out the copy has frame 0 in it. It has
        not ended where a kernel table would have to be frame 0. The answer is the new directory's frame. */
    method CloneDirectory(newdir: nat, scratch: seq<(nat, nat)>, asked: seq<seq<nat>>)
      returns (n: nat, ended: bool, ghost path: seq<Space>)
      requires Valid()
      requires Mapped(mem, currentDirectory, newdir) && newdir / TABLES < WINDOW
      requires Base(S(), currentDirectory, Translate(mem, currentDirectory, newdir))
      requires |scratch| == |asked| == USER_TABLES
      requires forall i :: 0 <= i < USER_TABLES ==>
                 ScratchAsked(mem, currentDirectory, scratch[i].0, scratch[i].1, asked[i]) && KernelPages(asked[i])
      modifies this, pmm`lastFree, pmm`pagesFree, pmm`pagesTaken, pmm`bits, pmm.bitmap
      ensures Machine() && currentDirectory == old(currentDirectory)
              && n == old(Translate(mem, currentDirectory, newdir))
      ensures Grown(path, currentDirectory) && path[0] == old(S()) && Inv(Last(path))
              && currentDirectory < |Last(path).mem|
      ensures var pages := AskedPages(old(mem)[currentDirectory], asked, USER_TABLES);
              && ended && CloneStep(Last(path), S(), currentDirectory, n)
              && PagesMapped(Last(path).mem, currentDirectory, pages)
              <==>
              old(FreeCount()) >= CloneNeed(old(mem), currentDirectory, 0) + NeedOf(old(mem), currentDirectory, pages)
      ensures var pages := AskedPages(old(mem)[currentDirectory], asked, USER_TABLES);
              var need := CloneNeed(old(mem), currentDirectory, 0) + NeedOf(old(mem), currentDirectory, pages);
              old(FreeCount()) >= need ==> Structured() && FreeCount() == old(FreeCount()) - need
      ensures ended ==>
                && dirs == old(dirs) + {n} && n < |mem| && mem[n][1023] == 0x1000 * n + 3
                && n in tables && |tables[n]| == 1024 && tables[n][1023] == newdir
                && (forall k: nat :: k < 1023 ==>
                      tables[n][k] == if old(mem)[currentDirectory][k] % 2 == 1 then 0xFFC00 + k else 0)
                && (forall k: nat :: USER_TABLES <= k < WINDOW ==> mem[n][k] == old(mem)[currentDirectory][k])
                && (forall f :: f in Last(path).role && f != n ==>
                      f in role && role[f] == Last(path).role[f] && f < |mem| == |Last(path).mem|
                          && mem[f] == Last(path).mem[f])
                && AddressSpaceRuns.CloneOutcome(Last(path), S(), currentDirectory, n)
                && (CloneStep(Last(path), S(), currentDirectory, n) <==>
                      FreeFrames(Last(path)) >= CloneNeed(Last(path).mem, currentDirectory, 0))
                && (Valid() <==> CloneStep(Last(path), S(), currentDirectory, n)
                                 && CleanCopy(Last(path), S(), currentDirectory, n))
                && (!CloneStep(Last(path), S(), currentDirectory, n) ==>
                      exists k: nat :: Spoiled(Last(path), mem, currentDirectory, n, k))
    {
      hide Inv, Sound, Mapped, Translate, Base, DirCloning, CloneStep, FrameOf, FlagsOf, Present, Entry, Grown, Grew,
        Copying, CloneNeed, Kept, Spoiled, TablesEntered, CleanCopy, FramesOk, NeedOf, PagesMapped, AskedPages,
        ScratchAsked, KernelPages, PointersSet;
      ghost var s, d := S(), currentDirectory;
      ghost var pages := AskedPages(mem[d], asked, USER_TABLES);
      n := Translate(mem, currentDirectory, newdir);
      BaseParts(s, d, n);
      var pointers := CopyKernelSlots(newdir, n);
      CopyingStart(s, S(), d, n, pages);
      ended, pointers, path := CloneSlots(s, n, newdir, scratch, asked, pointers, pages);
      GrewPath(s, path, d, n, pages, {});
      if !ended {
        return;
      }
      CopyingEnd(s, path, S(), d, n, pages, pages);
      CopyEnds(s, path, S(), d, n, pages);
      PointersAre(s.mem, d, pointers);
      FinishDirectory(s, path, n, newdir, pointers, pages);
    }

    /** The loop of clonedir over the private tables. */
    method CloneSlots(ghost s: Space, n: nat, newdir: nat, scratch: seq<(nat, nat)>, asked: seq<seq<nat>>,
                      cleared: seq<nat>, ghost pages: set<nat>)
      returns (ended: bool, pointers: seq<nat>, ghost path: seq<Space>)
      requires Structured() && Copying(s, [s], S(), currentDirectory, n, 0, pages, {})
               && |scratch| == |asked| == USER_TABLES
      requires Mapped(s.mem, currentDirectory, newdir) && Translate(s.mem, currentDirectory, newdir) == n
      requires newdir / TABLES < WINDOW && currentDirectory < |s.mem| && n < |mem|
      requires pages == AskedPages(s.mem[currentDirectory], asked, USER_TABLES)
      requires forall i :: 0 <= i < USER_TABLES ==>
                 ScratchAsked(s.mem, currentDirectory, scratch[i].0, scratch[i].1, asked[i]) && KernelPages(asked[i])
      requires forall k: nat :: USER_TABLES <= k < WINDOW ==> mem[n][k] == s.mem[currentDirectory][k]
      requires PointersSet(s.mem, currentDirectory, cleared, 0)
      modifies this, pmm`lastFree, pmm`pagesFree, pmm`pagesTaken, pmm`bits, pmm.bitmap
      ensures Machine() && currentDirectory == old(currentDirectory) && |path| > 0 && n < |mem|
      ensures Grew(s, path, currentDirectory, n, pages, {})
      ensures ended ==>
                && Structured() && Copying(s, path, S(), currentDirectory, n, USER_TABLES, pages, pages)
                && PointersSet(s.mem, currentDirectory, pointers, USER_TABLES)
                && forall k: nat :: USER_TABLES <= k < WINDOW ==> mem[n][k] == s.mem[currentDirectory][k]
      ensures !ended ==> !Enough(s, currentDirectory, pages)
    {
      hide Inv, Sound, Mapped, Translate, Base, FrameOf, FlagsOf, Present, Entry, Grew, Copying, Enough, ScratchAsked,
        KernelPages, PagesMapped;
      ghost var d := currentDirectory;
      ghost var done := {};
      pointers, path := cleared, [s];
      for i := 0 to USER_TABLES
        invariant Structured() && currentDirectory == d && n < |mem| && |path| > 0
        invariant Copying(s, path, S(), d, n, i, pages, done) && PointersSet(s.mem, d, pointers, i)
        invariant done == AskedPages(s.mem[d], asked, i)
        invariant forall k: nat :: USER_TABLES <= k < WINDOW ==> mem[n][k] == s.mem[d][k]
      {
        AskedPagesIn(s.mem[d], asked, i + 1, USER_TABLES);
        var was := pointers;
        ended, pointers, path := CloneSlot(s, path, n, newdir, i, scratch[i].0, scratch[i].1, asked[i], pointers, pages,
            done);
        if !ended {
          return;
        }
        PointersNext(s.mem, d, was, pointers, i);
        done := AskedPages(s.mem[d], asked, i + 1);
      }
      ended := true;
      CopyingGrew(s, path, S(), d, n, USER_TABLES, pages, done);
    }

    /** The start of clonedir: the new directory is zeroed and gets the kernel's slots. */
    method CopyKernelSlots(newdir: nat, ghost n: nat) returns (pointers: seq<nat>)
      requires Structured() && Mapped(mem, currentDirectory, newdir) && newdir / TABLES < WINDOW
      requires Base(S(), currentDirectory, n) && n == Translate(mem, currentDirectory, newdir)
      modifies this`mem
      ensures Structured() && DirCloning(old(S()), S(), currentDirectory, n, 0) && Kept(old(S()), S(), {n})
      ensures FreeCount() == old(FreeCount()) && n < |mem|
      ensures PointersSet(old(mem), currentDirectory, pointers, 0)
      ensures forall k: nat :: USER_TABLES <= k < WINDOW ==> mem[n][k] == old(mem)[currentDirectory][k]
    {
      hide Mapped, Translate, Base, FrameOf, FlagsOf, Present, Entry, Sound;
      ghost var s, d := S(), currentDirectory;
      BaseParts(s, d, n);
      pointers := seq(TABLES, i => 0);
      ClearPage(newdir);
      WriteUnowned(s, n, mem[n], d, tables);
      NewDirStays(s, mem, d, n, newdir);
      for i := USER_TABLES to WINDOW
        invariant Structured() && |mem| == |s.mem| && mem == s.mem[n := mem[n]]
        invariant forall k: nat :: USER_TABLES <= k < i ==> mem[n][k] == s.mem[d][k]
        invariant forall k: nat :: k < USER_TABLES ==> mem[n][k] == 0
        invariant |pointers| == TABLES
        invariant forall k: nat :: USER_TABLES <= k < i ==>
                  pointers[k] == if HasTable(s.mem, d, k) then WindowPage(k) else 0
        invariant forall k: nat :: k < USER_TABLES ==> pointers[k] == 0
      {
        PointerOf(s, d, i, tables);
        NewDirStays(s, mem, d, n, newdir);
        pointers := pointers[i := tables[currentDirectory][i]];
        ghost var s' := S();
        StoreWord(newdir, i, mem[currentDirectory][i]);
        WriteUnowned(s', n, mem[n], d, tables);
      }
      DirCloningStart(s, d, n, mem[n]);
    }

    /** One pass of clonedir's loop over the private tables. */
    method CloneSlot(ghost s0: Space, ghost path: seq<Space>, n: nat, newdir: nat, i: nat, nv: nat, bv: nat,
                     ask: seq<nat>, pointers: seq<nat>, ghost pages: set<nat>, ghost done: set<nat>)
      returns (ended: bool, pointers': seq<nat>, ghost path': seq<Space>)
      requires Structured() && i < USER_TABLES && Copying(s0, path, S(), currentDirectory, n, i, pages, done)
               && n < |mem|
      requires Mapped(s0.mem, currentDirectory, newdir) && Translate(s0.mem, currentDirectory, newdir) == n
      requires newdir / TABLES < WINDOW && currentDirectory < |s0.mem| && |pointers| == TABLES
      requires ScratchAsked(s0.mem, currentDirectory, nv, bv, ask) && KernelPages(ask)
      requires HasTable(s0.mem, currentDirectory, i) ==> Elements(ask) <= pages
      modifies this, pmm`lastFree, pmm`pagesFree, pmm`pagesTaken, pmm`bits, pmm.bitmap
      ensures Machine() && currentDirectory == old(currentDirectory) && n < |mem|
      ensures |path'| > 0 && Grew(s0, path', currentDirectory, n, pages, {})
      ensures ended ==>
                && Structured()
                && Copying(s0, path', S(), currentDirectory, n, i + 1, pages,
                           done + if HasTable(s0.mem, currentDirectory, i) then Elements(ask) else {})
                && pointers' == (if HasTable(s0.mem, currentDirectory, i) then pointers[i := WindowPage(i)]
                    else pointers)
                && n < |old(mem)| && forall k: nat :: k < TABLES && k != i ==> mem[n][k] == old(mem)[n][k]
      ensures !ended ==> !Enough(s0, currentDirectory, pages)
    {
      hide Mapped, Translate, Base, FrameOf, FlagsOf, Present, Entry, Sound, ScratchPages, Grew, Copying, Enough,
        ScratchAsked, KernelPages, Elements, Kept, Table, TableEntered;
      ghost var d, s' := currentDirectory, S();
      SlotParts(s0, path, s', d, n, i, pages, done);
      ghost var g := Last(path);
      CopyingGrew(s0, path, s', d, n, i, pages, done);
      GrewSlot(s0, path, d, n, pages, done, i);
      GrewMapped(s0, path, d, n, pages, done, newdir);
      KeptFrames(g, s', n);
      NewDirStays(g, mem, d, n, newdir);
      BaseParts(g, d, n);
      KeptOwner(g, s', n);
      PointerOf(s', d, i, tables);
      path' := path;
      if tables[currentDirectory][i] == 0 {
        CopyingSkip(s0, path, s', d, n, i, pages, done);
        assert done + {} == done;
        return true, pointers, path;
      }
      TableOfBase(g, d, n, i);
      OwnedIsTaken(s', d, tables);
      var tblPhys := EnterTable(newdir, n, i);
      pointers' := pointers[i := WindowPage(i)];
      var lost;
      ghost var s2;
      lost, path', s2 := ServeRequests(s0, path, s', n, i, tblPhys, ask, pages, done);
      if lost {
        return false, pointers', path';
      }
      ghost var done' := done + Elements(ask);
      NoScratch(s0, path', s2, S(), d, n, i, tblPhys, pages, done', nv, bv, ask);
      CopyingGrew(s0, path', s2, d, n, i, pages, done');
      if !HasTable(mem, currentDirectory, nv / TABLES) || !HasTable(mem, currentDirectory, bv / TABLES) {
        return false, pointers', path';
      }
      CopySlotTable(s0, path', s2, n, i, tblPhys, nv, bv, pages, done');
      ended := true;
    }

    /** The rest of a pass, once the pages it works through are there. */
    method CopySlotTable(ghost s0: Space, ghost path: seq<Space>, ghost s: Space, n: nat, i: nat, f: nat, nv: nat,
                         bv: nat, ghost pages: set<nat>, ghost done: set<nat>)
      requires Structured() && InSlot(s0, path, s, S(), currentDirectory, n, i, f, pages, done) && n < |mem|
      requires ScratchPages(Last(path).mem, currentDirectory, nv, bv)
      modifies this, pmm`lastFree, pmm`pagesFree, pmm`pagesTaken, pmm`bits, pmm.bitmap
      ensures Structured() && currentDirectory == old(currentDirectory) && tables == old(tables)
      ensures Copying(s0, path, S(), currentDirectory, n, i + 1, pages, done)
      ensures n < |mem| && n < |old(mem)| && forall k: nat :: k < TABLES && k != i ==> mem[n][k] == old(mem)[n][k]
    {
      hide Base, FrameOf, FlagsOf, Present, Entry, Sound, ScratchPages, Copying, Kept, TablesEntered, DirCloning,
        Cloning, WordsLeft, CloneReady, SpoiledWord, Table;
      ghost var d, a := currentDirectory, S();
      SlotParts(s0, path, s, d, n, i, pages, done);
      ghost var g := Last(path);
      BaseParts(g, d, n);
      KeptOwner(g, s, n);
      OwnedIsTaken(a, d, tables);
      TableIsReady(g, s, d, n, i, f, nv, bv);
      CloneTable(n, i, nv, bv);
      ghost var b := S();
      OwnedIsTaken(b, d, tables);
      KeptTaken(a, b);
      if f != 0 {
        OwnPage(f, UserTable(n, i));
      }
      SlotDone(g, s, b, S(), d, n, i, f, nv, bv);
      CopyingStep(s0, path, s, a, S(), d, n, i, f, pages, done);
    }

    /** The kernel pages that `kalloc_a` asks for while slot `i` is copied. A table that would have to be frame 0
        ends it. */
    method ServeRequests(ghost s0: Space, ghost path: seq<Space>, ghost s: Space, ghost n: nat, ghost i: nat,
                         ghost f: nat, ask: seq<nat>, ghost pages: set<nat>, ghost done: set<nat>)
      returns (lost: bool, ghost path': seq<Space>, ghost s': Space)
      requires Structured() && InSlot(s0, path, s, S(), currentDirectory, n, i, f, pages, done) && n < |mem|
      requires KernelPages(ask) && Elements(ask) <= pages && currentDirectory < |s0.mem|
      modifies this, pmm`lastFree, pmm`pagesFree, pmm`pagesTaken, pmm`bits, pmm.bitmap
      ensures Machine() && currentDirectory == old(currentDirectory) && n < |mem| && n < |old(mem)|
      ensures |path'| > 0 && Grew(s0, path', currentDirectory, n, pages, {})
      ensures lost ==> !Enough(s0, currentDirectory, pages)
      ensures !lost ==>
                && Structured() && InSlot(s0, path', s', S(), currentDirectory, n, i, f, pages, done + Elements(ask))
                && mem[n] == old(mem)[n]
    {
      hide Sound, InSlot, Enough, Grew, Elements;
      ghost var d := currentDirectory;
      lost, path', s' := false, path, s;
      ElementsAll(ask);
      assert done + {} == done;
      SlotGrew(s0, path, s, S(), d, n, i, f, pages, done);
      for j := 0 to |ask|
        invariant Structured() && currentDirectory == d && n < |mem| && mem[n] == old(mem)[n]
        invariant InSlot(s0, path', s', S(), d, n, i, f, pages, done + Elements(ask[..j]))
        invariant |path'| > 0 && Grew(s0, path', d, n, pages, {})
      {
        ElementsMore(ask, j);
        assert ask[j] in ask;
        ghost var had := done + Elements(ask[..j]);
        lost, path', s' := ServeRequest(s0, path', s', n, i, f, ask[j], pages, had);
        if lost {
          return;
        }
        assert had + {ask[j]} == done + Elements(ask[..j + 1]);
        SlotGrew(s0, path', s', S(), d, n, i, f, pages, done + Elements(ask[..j + 1]));
      }
    }

    method ServeRequest(ghost s0: Space, ghost path: seq<Space>, ghost s: Space, ghost n: nat, ghost i: nat,
                        ghost f: nat, p: nat, ghost pages: set<nat>, ghost done: set<nat>)
      returns (lost: bool, ghost path': seq<Space>, ghost s': Space)
      requires Structured() && InSlot(s0, path, s, S(), currentDirectory, n, i, f, pages, done) && n < |mem|
      requires USER_TABLES * TABLES <= p < WINDOW * TABLES && p in pages && currentDirectory < |s0.mem|
      modifies this, pmm`lastFree, pmm`pagesFree, pmm`pagesTaken, pmm`bits, pmm.bitmap
      ensures Machine() && currentDirectory == old(currentDirectory) && n < |mem| && n < |old(mem)|
      ensures lost ==> path' == path && !Enough(s0, currentDirectory, pages)
      ensures !lost ==>
                && Structured() && InSlot(s0, path', s', S(), currentDirectory, n, i, f, pages, done + {p})
                && mem[n] == old(mem)[n]
    {
      hide Sound, InSlot, Enough, AllocStep, AllocOutcome;
      ghost var a, d := S(), currentDirectory;
      PresentAndWritable();
      var ok := AllocPage(p, 3);
      lost := HasTable(mem, currentDirectory, p / TABLES) && Table(mem, currentDirectory, p / TABLES) == 0;
      path', s' := path, s;
      ghost var free: nat := FreeCount();
      if lost {
        FrameZeroUnsound(S(), d, p / TABLES, tables);
        LostInSlot(s0, path, s, a, d, n, i, f, pages, done, p);
      } else {
        path', s' := ServedInSlot(s0, path, s, a, S(), d, n, i, f, pages, done, p);
      }
    }

    /** A frame for the new table, entered with the flags of the old one. */
    method EnterTable(newdir: nat, ghost n: nat, i: nat) returns (f: nat)
      requires Structured() && i < TABLES
      requires Mapped(mem, currentDirectory, newdir) && Translate(mem, currentDirectory, newdir) == n && n !in dirs
      modifies this`mem, pmm`lastFree, pmm`pagesFree, pmm`pagesTaken, pmm`bits, pmm.bitmap
      ensures Structured() && f < |mem| && f !in role && (f == 0 <==> old(FreeCount()) == 0)
              && (f != 0 ==> Free(old(S()), f))
      ensures FreeCount() == if f == 0 then old(FreeCount()) else old(FreeCount()) - 1
      ensures S() == TableEntered(old(S()), n, i, f, FlagsOf(old(mem)[currentDirectory][i])) && f in pmm.Taken()
      ensures |mem| == |old(mem)| && forall k: nat :: k < TABLES && k != i ==> mem[n][k] == old(mem)[n][k]
    {
      hide Mapped, Translate, FlagsOf, Entry, Sound;
      f := GetFrame();
      ghost var s1 := S();
      StoreWord(newdir, i, Entry(f, FlagsOf(mem[currentDirectory][i])));
      WriteUnowned(s1, n, mem[n], currentDirectory, tables);
    }

    /** The end of clonedir: the new directory maps itself. */
    method FinishDirectory(ghost s0: Space, ghost path: seq<Space>, n: nat, newdir: nat, pointers: seq<nat>,
                           ghost pages: set<nat>)
      requires Structured() && Copying(s0, path, S(), currentDirectory, n, USER_TABLES, pages, pages)
      requires Mapped(s0.mem, currentDirectory, newdir) && Translate(s0.mem, currentDirectory, newdir) == n
      requires newdir / TABLES < WINDOW && n < |mem|
      requires currentDirectory < |s0.mem| && PointersSet(s0.mem, currentDirectory, pointers, USER_TABLES)
      requires forall k: nat :: USER_TABLES <= k < WINDOW ==> mem[n][k] == s0.mem[currentDirectory][k]
      modifies this
      ensures Machine() && currentDirectory == old(currentDirectory) && n < |old(mem)| && S() == Finished(old(S()), n)
      ensures |path| > 0 && currentDirectory < |Last(path).mem| && n < |mem| && mem[n][1023] == 0x1000 * n + 3
      ensures tables == old(tables)[n := pointers[WINDOW := newdir]]
      ensures old(DirCloning(Last(path), S(), currentDirectory, n, USER_TABLES)) ==>
                && Structured() && CloneStep(Last(path), S(), currentDirectory, n)
                && (Valid() <==> CleanCopy(Last(path), S(), currentDirectory, n))
    {
      hide Mapped, Translate, Base, FrameOf, FlagsOf, Present, Entry, DirCloning, CloneStep, FramesOk, TablesOwned,
        PagesOwned, OwnersExist, Kept, CleanCopy, Copying, Grew;
      ghost var d, s' := currentDirectory, S();
      SlotParts(s0, path, s', d, n, USER_TABLES, pages, pages);
      ghost var g := Last(path);
      GrewMapped(s0, path, d, n, pages, pages, newdir);
      KeptFrames(g, s', n);
      NewDirStays(g, mem, d, n, newdir);
      BaseParts(g, d, n);
      OwnedIsTaken(s', d, tables);
      StoreWord(newdir, WINDOW, Entry(n, 3));
      var all: seq<nat> := pointers[WINDOW := newdir];
      tables := tables[n := all];
      dirs := dirs + {n};
      EntryLayout(n, 3);
      assert S() == Finished(s', n);
      if DirCloning(g, s', d, n, USER_TABLES) {
        DirCloningEnd(g, s', d, n, USER_TABLES);
        CloneLaw(g, S(), d, n);
        forall k: nat | k < USER_TABLES
          ensures HasTable(g.mem, d, k) == HasTable(s0.mem, d, k)
        {
          GrewSlot(s0, path, d, n, pages, pages, k);
        }
        PointersOfCopy(g, s0.mem, s', S(), d, n, old(tables), all);
      }
    }

    /** A frame in use gets its owner. */
    ghost method OwnPage(f: nat, r: Role)
      requires Structured() && f in pmm.Taken() && f < |mem| && f !in role && f != 0
      modifies this`role
      ensures Structured() && role == old(role)[f := r]
    {
      role := role[f := r];
    }

    lemma Facts()
      requires Structured()
      ensures currentDirectory in dirs && |mem| == pmm.pagesTotal && currentDirectory < |mem| && 0 in pmm.Taken()
      ensures forall d :: d in dirs ==> d < |mem|
    {
    }

    /** The release of a block that turned out not to be needed. */
    method GiveBack(block: nat, ghost s: Space)
      requires Structured() && FramesOk(s) && TablesOwned(s) && block / PAGE !in s.taken
      requires block / PAGE < |mem| && S() == s.(taken := s.taken + {block / PAGE})
      modifies pmm`pagesFree, pmm`pagesTaken, pmm`bits, pmm.bitmap
      ensures Structured() && S() == s
    {
      hide TablesOwned, PointersOk;
      pmm.FreePage(block);
      assert pmm.Taken() == s.taken;
    }

    /** Frame `f` gets its owner. */
    ghost method Own(f: nat, r: Role)
      requires Structured() && var s := S().(role := role[f := r]); FramesOk(s) && TablesOwned(s)
      modifies this`role
      ensures Structured() && role == old(role)[f := r]
    {
      hide FramesOk, TablesOwned, PointersOk;
      role := role[f := r];
    }
  }

  lemma SoundParts(s: Space, d: nat, tables: map<nat, seq<nat>>)
    requires Sound(s, d, tables)
    ensures d in s.dirs && d < |s.mem| && s.mem[d][WINDOW] == Entry(d, 3) && d in s.taken && d != 0
    ensures d in tables && |tables[d]| == TABLES
  {
  }

  lemma WriteIsUpdate(mem: Memory, k: nat, j: nat, w: nat)
    requires k < |mem| && j < TABLES
    ensures WriteWord(mem, k, j, w) == mem[k := WriteWord(mem, k, j, w)[k]]
  {
  }

  lemma WriteElsewhere(mem: Memory, k: nat, j: nat, w: nat, p: nat)
    requires k < |mem| && j < TABLES && p < |mem| && p != k
    ensures WriteWord(mem, k, j, w)[p] == mem[p]
  {
  }

  lemma SoundFrames(s: Space, d: nat, tables: map<nat, seq<nat>>)
    requires Sound(s, d, tables)
    ensures FramesOk(s) && TablesOwned(s)
  {
  }

  lemma WriteKeepsSound(s: Space, t: nat, j: nat, w: nat, d: nat, tables: map<nat, seq<nat>>)
    requires Sound(s, d, tables) && t in s.role && !s.role[t].KernelPage? && t < |s.mem| && j < TABLES
    ensures Sound(s.(mem := WriteWord(s.mem, t, j, w)), d, tables)
  {
    hide Present, FrameOf, Entry;
    WriteKeepsTables(s, t, j, w);
  }

  /** Frame 0 is nobody's, so no directory has it for a table. */
  lemma FrameZeroUnsound(s: Space, d: nat, i: nat, tables: map<nat, seq<nat>>)
    requires d < |s.mem| && i < WINDOW && HasTable(s.mem, d, i) && Table(s.mem, d, i) == 0
    ensures !Sound(s, d, tables)
    ensures d in s.dirs ==> !Inv(s)
  {
  }

  /** The new table keeps the directories and their pointers in order. */
  lemma AddTableSound(s: Space, d: nat, i: nat, t: nat, flags: nat, tables: map<nat, seq<nat>>)
    requires Sound(s, d, tables) && i < WINDOW && d < |s.mem| && !HasTable(s.mem, d, i)
    requires Free(s, t) && flags < PAGE && Present(flags) && d in tables && |tables[d]| == TABLES
    ensures var pointers: seq<nat> := tables[d][i := WindowPage(i)];
      Sound(AddTable(s, d, i, t, flags), d, tables[d := pointers])
  {
    hide Entry, FrameOf, Present;
    EntryParts(t, flags);
    AddTableKeepsFrames(s, d, i, t, flags);
  }

  lemma OwnedIsTaken(s: Space, d: nat, tables: map<nat, seq<nat>>)
    requires Sound(s, d, tables)
    ensures forall f :: f in s.role ==> f in s.taken
  {
  }

  lemma PointerOf(s: Space, d: nat, i: nat, tables: map<nat, seq<nat>>)
    requires Sound(s, d, tables) && i < WINDOW && d < |s.mem|
    ensures d in tables && |tables[d]| == TABLES && tables[d][i] == if HasTable(s.mem, d, i) then WindowPage(i) else 0
  {
  }

  lemma PointersOfCopy(s: Space, m0: Memory, s': Space, c: Space, d: nat, n: nat, tables: map<nat, seq<nat>>,
                       pointers: seq<nat>)
    requires Sound(s', d, tables) && d < |s.mem| && d < |m0| && CloneStep(s, c, d, n) && n < |s'.mem|
    requires c == Finished(s', n) && n !in s'.dirs && PointersSet(m0, d, pointers, USER_TABLES)
    requires forall k: nat :: k < USER_TABLES ==> HasTable(s.mem, d, k) == HasTable(m0, d, k)
    requires forall k: nat :: USER_TABLES <= k < WINDOW ==> s'.mem[n][k] == m0[d][k]
    ensures forall d' :: d' in c.dirs ==> d' < |c.mem|
    ensures PointersOk(c.mem, c.dirs, tables[n := pointers])
  {
    hide FrameOf, FlagsOf, Present, Entry, CloneStep;
    var tables' := tables[n := pointers];
    forall d' | d' in c.dirs
      ensures d' in tables' && |tables'[d']| == TABLES
      ensures forall i: nat {:trigger tables'[d'][i]} :: i < WINDOW ==>
                tables'[d'][i] == if HasTable(c.mem, d', i) then WindowPage(i) else 0
    {
      if d' == n {
        forall i: nat | i < WINDOW
          ensures HasTable(c.mem, n, i) == HasTable(m0, d, i)
        {
          if i < USER_TABLES {
            SameSlots(s, c, d, n, i);
          }
        }
      } else {
        assert d' in s'.dirs;
      }
    }
  }

  /** The pointer for slot `i` is set. */
  lemma PointersNext(mem: Memory, d: nat, was: seq<nat>, pointers: seq<nat>, i: nat)
    requires d < |mem| && i < USER_TABLES && PointersSet(mem, d, was, i)
    requires pointers == if HasTable(mem, d, i) then was[i := WindowPage(i)] else was
    ensures PointersSet(mem, d, pointers, i + 1)
  {
    hide HasTable;
  }

  lemma PointersAre(mem: Memory, d: nat, pointers: seq<nat>)
    requires d < |mem| && PointersSet(mem, d, pointers, USER_TABLES)
    ensures |pointers| == 1024
    ensures forall k: nat :: k < 1023 ==> pointers[k] == if mem[d][k] % 2 == 1 then 0xFFC00 + k else 0
  {
  }

  /** What clonedir leaves in either case. */
  lemma CopyEnds(s0: Space, path: seq<Space>, s: Space, d: nat, n: nat, pages: set<nat>)
    requires Copying(s0, path, s, d, n, USER_TABLES, pages, pages) && n < |s.mem|
    ensures d < |s0.mem| == |Last(path).mem|
    ensures var c := Finished(s, n);
            && c.dirs == Last(path).dirs + {n} && |c.mem| == |Last(path).mem|
            && forall f :: f in Last(path).role && f != n ==>
                 f in c.role && c.role[f] == Last(path).role[f] && f < |c.mem| && c.mem[f] == Last(path).mem[f]
    ensures FreeFrames(Last(path)) < CloneNeed(Last(path).mem, d, 0) ==>
              var c := Finished(s, n);
              && AddressSpaceRuns.CloneShort(Last(path), c, d, n) && !CloneStep(Last(path), c, d, n) && !Inv(c)
              && exists k: nat :: Spoiled(Last(path), c.mem, d, n, k)
  {
    hide Copying, Base, CloneNeed, Spoiled, TablesEntered, CloneStep, Inv, FramesOk, TablesOwned, Kept;
    SlotParts(s0, path, s, d, n, USER_TABLES, pages, pages);
    CopyingEnd(s0, path, s, d, n, pages, pages);
    var g := Last(path);
    BaseParts(g, d, n);
    KeptOwner(g, s, n);
    KeptToTheEnd(g, s, n);
    if FreeFrames(g) < CloneNeed(g.mem, d, 0) {
      SpoiledToTheEnd(g, s, d, n);
    }
  }

  /** What the new directory does not own is as before. */
  lemma KeptToTheEnd(s: Space, s': Space, n: nat)
    requires Kept(s, s', {n}) && n < |s'.mem| && FramesOk(s)
    ensures var c := Finished(s', n);
            && c.dirs == s.dirs + {n} && |c.mem| == |s.mem|
            && forall f :: f in s.role ==>
                 f in c.role && c.role[f] == s.role[f] && f < |c.mem| && (f != n ==> c.mem[f] == s.mem[f])
  {
    forall f | f in s.role
      ensures f in s'.role && s'.role[f] == s.role[f] && (f != n ==> s'.mem[f] == s.mem[f])
    {
      assert Owned(s', f, s.role[f]);
    }
  }

  lemma TableOfBase(s: Space, d: nat, n: nat, i: nat)
    requires Base(s, d, n) && i < WINDOW && HasTable(s.mem, d, i)
    ensures Table(s.mem, d, i) < |s.mem|
  {
    TableFrame(s, d, i);
  }

  lemma PointerOfTable(s: Space, d: nat, i: nat, tables: map<nat, seq<nat>>)
    requires Sound(s, d, tables) && i < WINDOW && d < |s.mem| && HasTable(s.mem, d, i)
    ensures d in tables && |tables[d]| == TABLES && tables[d][i] == WindowPage(i)
  {
  }

  /** Frames without an owner can be written without the directories noticing. */
  lemma WriteUnowned(s: Space, f: nat, page: Page, cur: nat, tables: map<nat, seq<nat>>)
    requires Sound(s, cur, tables) && f < |s.mem| && (f !in s.role || f !in s.dirs)
    ensures Sound(s.(mem := s.mem[f := page]), cur, tables)
  {
    hide Present, FrameOf, Entry;
    var s' := s.(mem := s.mem[f := page]);
    forall d, i: nat | d in s'.dirs && i < WINDOW && HasTable(s'.mem, d, i)
      ensures Owned(s', Table(s'.mem, d, i), TableRole(d, i))
    {
      assert HasTable(s.mem, d, i);
    }
  }

  lemma InvParts(s: Space)
    requires Inv(s)
    ensures FramesOk(s) && TablesOwned(s)
  {
  }

  lemma TakenGrows(s: Space, f: nat)
    requires FramesOk(s) && TablesOwned(s)
    ensures var s' := s.(taken := s.taken + {f}); FramesOk(s') && TablesOwned(s')
  {
  }

  /** Entry `j` of table `i` is written, in the table frame `t`: the one there was, a new one filled with zeros, or
      frame 0 in its place, which then has no owner. */
  ghost predicate Wrote(s: Space, s': Space, d: nat, i: nat, j: nat, t: nat, phys: nat, flags: nat)
    requires d < |s.mem| && i < WINDOW && j < TABLES
  {
    if HasTable(s.mem, d, i) then
      && t == Table(s.mem, d, i) && t < |s.mem|
      && s' == s.(mem := WriteWord(s.mem, t, j, Entry(phys, flags % PAGE)))
    else
      && t < |s.mem| && (t == 0 || Free(s, t))
      && var s1 := if t == 0 then s.(mem := WriteWord(s.mem, d, i, Entry(0, flags))[0 := Zero()])
          else AddTable(s, d, i, t, flags);
         s' == s1.(mem := WriteWord(s1.mem, t, j, Entry(phys, flags % PAGE)))
  }

  lemma WroteInTable(s: Space, s': Space, d: nat, i: nat, j: nat, t: nat, phys: nat, flags: nat)
    requires d < |s.mem| && i < WINDOW && j < TABLES && HasTable(s.mem, d, i) && flags < PAGE
    requires Wrote(s, s', d, i, j, t, phys, flags)
    ensures t == Table(s.mem, d, i) < |s.mem| && s' == s.(mem := WriteWord(s.mem, t, j, Entry(phys, flags)))
  {
  }

  /** The state that mappg and the new owner leave is one of the outcomes of an allocation. */
  lemma AllocIsStep(s: Space, s': Space, d: nat, i: nat, j: nat, f: nat, t: nat, flags: nat)
    requires FramesOk(s) && TablesOwned(s) && d in s.dirs && d < |s.mem| && i < WINDOW && j < TABLES
    requires flags < PAGE && Present(flags) && t != 0
    requires Pte(s.mem, d, i, j) == 0 && Free(s, f) && Wrote(s.(taken := s.taken + {f}), s', d, i, j, t, f, flags)
    ensures var r := s'.(role := s'.role[f := PageRole(d, i, t, j)]);
            AllocStep(s, r, d, i, j, flags) && FramesOk(r) && TablesOwned(r) && (Inv(s) ==> Inv(r))
  {
    hide Entry, FrameOf, Present, Pte;
    var r := s'.(role := s'.role[f := PageRole(d, i, t, j)]);
    if !HasTable(s.mem, d, i) {
      EntryParts(t, flags);
      assert s.taken + {f} + {t} == s.taken + {t} + {f};
      assert AddedBoth(s, r, d, i, j, f, t, flags);
    } else {
      assert r == AddPage(s, d, i, j, f, flags);
    }
    AllocKeepsTables(s, r, d, i, j, flags);
    if Inv(s) {
      AllocLaw(s, r, d, i, j, flags);
    }
  }

  lemma MappedStays(s: Space, d: nat, i: nat, j: nat, flags: nat)
    requires d < |s.mem| && i < TABLES && j < TABLES && Pte(s.mem, d, i, j) != 0
    ensures AllocStep(s, s, d, i, j, flags) && HasTable(s.mem, d, i)
  {
  }

  /** One free frame is not enough for a page and its table. */
  lemma LastFrame(s: Space, s': Space, d: nat, i: nat, j: nat, f: nat, flags: nat)
    requires FramesOk(s) && d in s.dirs && d < |s.mem| && i < WINDOW && j < TABLES && flags < PAGE && Present(flags)
    requires s.taken <= Range(|s.mem|) && |s.mem| == |s.taken| + 1 && !HasTable(s.mem, d, i)
    requires Free(s, f) && Wrote(s.(taken := s.taken + {f}), s', d, i, j, 0, f, flags)
    ensures !AllocStep(s, s', d, i, j, flags) && s' == LastFrameTaken(s, d, i, j, f, flags)
    ensures |s'.taken| == |s'.mem| && HasTable(s'.mem, d, i) && Table(s'.mem, d, i) == 0
    ensures s'.mem[d][i] == flags && NewEntry(s, s', s'.mem[0][j], flags)
  {
    hide Entry, FrameOf, Present, FlagsOf, AddedBoth, NewEntry;
    EntryParts(0, flags);
    EntryLayout(0, flags);
    EntryIsNew(s, s', f, flags);
    forall g: nat, t: nat | Free(s, g) && Free(s, t)
      ensures g == t
    {
      if g != t {
        SubsetSize(s.taken + {g, t}, Range(|s.mem|));
      }
    }
  }

  /** Without an entry of a table all frames keep their owners. */
  lemma EraseLaw(s: Space, t: nat, j: nat)
    requires Inv(s) && t in s.role && !s.role[t].KernelPage? && t < |s.mem| && j < TABLES
    ensures Inv(s.(mem := WriteWord(s.mem, t, j, 0)))
  {
    var s' := s.(mem := WriteWord(s.mem, t, j, 0));
    WriteKeepsTables(s, t, j, 0);
    forall f, k: nat | f in s'.role && k < TABLES
      ensures WordOwned(s', f, k)
    {
      assert WordOwned(s, f, k);
    }
  }

  /** Writing a word of a table changes no directory and no table's owner. */
  lemma WriteKeepsTables(s: Space, t: nat, j: nat, w: nat)
    requires FramesOk(s) && TablesOwned(s) && t in s.role && !s.role[t].KernelPage? && t < |s.mem| && j < TABLES
    ensures var s' := s.(mem := WriteWord(s.mem, t, j, w));
      && FramesOk(s') && TablesOwned(s')
      && forall d, i: nat :: d in s.dirs && d < |s.mem| && i < TABLES ==> s'.mem[d][i] == s.mem[d][i]
  {
    hide Present, FrameOf, Entry;
    var s' := s.(mem := WriteWord(s.mem, t, j, w));
    forall d, i: nat | d in s'.dirs && i < WINDOW && HasTable(s'.mem, d, i)
      ensures Owned(s', Table(s'.mem, d, i), TableRole(d, i))
    {
      assert HasTable(s.mem, d, i);
    }
  }
}
