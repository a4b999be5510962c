/** The processor's view of a directory: translation of virtual pages, and the pages clonetbl works through. */
module Translation {
  import opened PageUnits
  import opened AddressSpace

  /** Whether the processor can translate page `vp` under directory `d`, and to which frame. */
  ghost predicate Mapped(mem: Memory, d: nat, vp: nat)
  {
    && d < |mem| && vp < TABLES * TABLES && HasTable(mem, d, vp / TABLES)
    && Table(mem, d, vp / TABLES) < |mem|
    && Present(mem[Table(mem, d, vp / TABLES)][vp % TABLES])
    && FrameOf(mem[Table(mem, d, vp / TABLES)][vp % TABLES]) < |mem|
  }

  /** Whether page `vp` lies in a table that is there, so that its entry can be replaced whatever it is. */
  ghost predicate HasEntry(mem: Memory, d: nat, vp: nat)
  {
    && d < |mem| && vp < WINDOW * TABLES && HasTable(mem, d, vp / TABLES)
    && Table(mem, d, vp / TABLES) < |mem|
  }

  function Translate(mem: Memory, d: nat, vp: nat): (f: nat)
    requires Mapped(mem, d, vp)
    ensures f < |mem|
  {
    FrameOf(mem[Table(mem, d, vp / TABLES)][vp % TABLES])
  }

  /** The walk: the upper ten bits of the page number choose the directory's entry, the lower ten that of the table; bit
      0 of each says that it is there, and its upper 20 bits are the frame. */
  lemma TranslateIsWalk(mem: Memory, d: nat, vp: nat)
    requires d < |mem| && vp < 0x10_0000
    ensures var t := mem[d][vp / 1024] / 0x1000;
            var e := if mem[d][vp / 1024] % 2 == 1 && t < |mem| then mem[t][vp % 1024] else 0;
            && Pte(mem, d, vp / 1024, vp % 1024) == e
            && (Mapped(mem, d, vp) <==> e % 2 == 1 && e / 0x1000 < |mem|)
            && (Mapped(mem, d, vp) ==> Translate(mem, d, vp) == e / 0x1000)
  {
  }

  /** The page through which the table of slot `i` is reached. */
  function WindowPage(i: nat): nat { WINDOW * TABLES + i }

  /** The directory maps itself, so its window shows its tables. */
  lemma WindowShowsTable(mem: Memory, d: nat, i: nat)
    requires d < |mem| && mem[d][WINDOW] == Entry(d, 3) && i < WINDOW
    requires HasTable(mem, d, i) && Table(mem, d, i) < |mem|
    ensures Mapped(mem, d, WindowPage(i)) && Translate(mem, d, WindowPage(i)) == Table(mem, d, i)
  {
    EntryParts(d, 3);
    assert WindowPage(i) / TABLES == WINDOW && WindowPage(i) % TABLES == i;
  }

  /** A table entered with `flags` can be cleared through the window exactly when those have the present bit; without
      it the write faults. */
  lemma NewTableReachableIff(mem: Memory, d: nat, i: nat, t: nat, flags: nat)
    requires d < |mem| && mem[d][WINDOW] == Entry(d, 3) && i < WINDOW && t < |mem| && flags < PAGE
    ensures Mapped(WriteWord(mem, d, i, Entry(t, flags)), d, WindowPage(i)) <==> Present(flags)
  {
    hide Entry, FrameOf, Present;
    EntryParts(t, flags);
    EntryParts(d, 3);
    PresentAndWritable();
    assert WindowPage(i) / TABLES == WINDOW && WindowPage(i) % TABLES == i;
  }

  lemma PteOfTable(mem: Memory, d: nat, vp: nat)
    requires d < |mem| && vp < WINDOW * TABLES && HasTable(mem, d, vp / TABLES) && Table(mem, d, vp / TABLES) < |mem|
    ensures Pte(mem, d, vp / TABLES, vp % TABLES) == mem[Table(mem, d, vp / TABLES)][vp % TABLES]
  {
  }

  /** `tables[i]` is the window page of the table, or null where there is none. */
  ghost predicate PointersOk(mem: Memory, dirs: set<nat>, tables: map<nat, seq<nat>>)
    requires forall d :: d in dirs ==> d < |mem|
  {
    forall d :: d in dirs ==>
      && d in tables && |tables[d]| == TABLES
      && forall i: nat {:trigger tables[d][i]} :: i < WINDOW ==>
           tables[d][i] == if HasTable(mem, d, i) then WindowPage(i) else 0
  }

  /** The pages used in copying one page are mapped as clonetbl arranges it: `nv` shows the new table, which no
      directory uses yet, and `bv` is a scratch page of the kernel, mapped or not. */
  ghost predicate CopyReady(s: Space, d: nat, sv: nat, nv: nat, bv: nat)
  {
    && Mapped(s.mem, d, sv) && Mapped(s.mem, d, nv) && HasEntry(s.mem, d, bv)
    && nv != bv && nv < WINDOW * TABLES
    && var p, from := Translate(s.mem, d, nv), Translate(s.mem, d, sv);
       var k1, k2, t := Table(s.mem, d, nv / TABLES), Table(s.mem, d, bv / TABLES), Table(s.mem, d, sv / TABLES);
       && {d, from, k1, k2, t} <= s.role.Keys && p !in s.role && p in s.taken
       && k2 !in {d, from, t} && k1 !in {d, from}
  }

  lemma ReadyFacts(s: Space, d: nat, sv: nat, nv: nat, bv: nat)
    requires CopyReady(s, d, sv, nv, bv)
    ensures Mapped(s.mem, d, sv) && Mapped(s.mem, d, nv) && HasEntry(s.mem, d, bv)
    ensures d < |s.mem| && bv < WINDOW * TABLES && HasTable(s.mem, d, bv / TABLES)
            && Table(s.mem, d, bv / TABLES) < |s.mem|
    ensures Translate(s.mem, d, nv) in s.taken && Translate(s.mem, d, nv) !in s.role
  {
  }

  // Memory in the course of copying a page: with the fresh frame mapped, filled, and unmapped again

  ghost function CopyMem1(s: Space, d: nat, bv: nat, f: nat, flags: nat): Memory
    requires HasEntry(s.mem, d, bv)
  {
    WriteWord(s.mem, Table(s.mem, d, bv / TABLES), bv % TABLES, Entry(f, flags))
  }

  ghost function CopyMem2(s: Space, d: nat, sv: nat, bv: nat, f: nat, flags: nat): Memory
    requires HasEntry(s.mem, d, bv) && Mapped(s.mem, d, sv) && f < |s.mem|
  {
    CopyMem1(s, d, bv, f, flags)[f := s.mem[Translate(s.mem, d, sv)]]
  }

  ghost function CopyMem3(s: Space, d: nat, sv: nat, f: nat): Memory
    requires Mapped(s.mem, d, sv) && f < |s.mem|
  {
    s.mem[f := s.mem[Translate(s.mem, d, sv)]]
  }

  /** The frame `f` is one without an owner: a free one, or frame 0 in place of it. */
  lemma CopySteps(s: Space, d: nat, sv: nat, nv: nat, bv: nat, f: nat, flags: nat)
    requires CopyReady(s, d, sv, nv, bv) && f < |s.mem| && f !in s.role && flags < PAGE && Present(flags)
    ensures Mapped(s.mem, d, sv) && Mapped(s.mem, d, nv) && HasEntry(s.mem, d, bv)
    ensures var m1 := CopyMem1(s, d, bv, f, flags);
      && Mapped(m1, d, bv) && Translate(m1, d, bv) == f
      && Mapped(m1, d, sv) && Translate(m1, d, sv) == Translate(s.mem, d, sv)
      && m1[Translate(s.mem, d, sv)] == s.mem[Translate(s.mem, d, sv)]
    ensures var m2 := CopyMem2(s, d, sv, bv, f, flags);
      var k2 := Table(s.mem, d, bv / TABLES);
      && d < |m2| && HasTable(m2, d, bv / TABLES) && Table(m2, d, bv / TABLES) == k2
      && m2[k2][bv % TABLES] == Entry(f, flags)
      && WriteWord(m2, k2, bv % TABLES, s.mem[k2][bv % TABLES]) == CopyMem3(s, d, sv, f)
    ensures var m3 := CopyMem3(s, d, sv, f);
      && Mapped(m3, d, nv) && Translate(m3, d, nv) == Translate(s.mem, d, nv)
  {
    hide Entry, FrameOf, FlagsOf, Present;
    EntryParts(f, flags);
    var k2 := Table(s.mem, d, bv / TABLES);
    assert s.mem[k2][bv % TABLES := Entry(f, flags)][bv % TABLES := s.mem[k2][bv % TABLES]] == s.mem[k2];
  }
}
