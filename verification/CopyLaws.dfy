/** What clonedir promises of the space it was called on, whatever kernel pages were mapped in the course of it. */
module CopyLaws {
  import opened PageUnits
  import opened AddressSpace
  import opened AddressSpaceLaws
  import opened PageAccounting
  import opened TableClone
  import opened KernelGrowth

  /** Kernel growth leaves the private tables of all directories, and what their pages hold, as they are. */
  ghost predicate KeepsPrivate(s: Space, g: Space)
  {
    && (forall x, i: nat, j: nat :: x in s.dirs && x < |s.mem| && x < |g.mem| && i < USER_TABLES && j < TABLES ==>
          Pte(g.mem, x, i, j) == Pte(s.mem, x, i, j))
    && forall f :: f in s.role && s.role[f].UserPage? && f < |s.mem| && f < |g.mem| ==>
         f in g.role && g.role[f] == s.role[f] && g.mem[f] == s.mem[f]
  }

  lemma AllocKeepsPrivate(s: Space, g: Space, d: nat, i: nat, j: nat, flags: nat)
    requires Inv(s) && d in s.dirs && d < |s.mem| && USER_TABLES <= i < WINDOW && j < TABLES
    requires flags < PAGE && Present(flags) && AllocStep(s, g, d, i, j, flags)
    ensures KeepsPrivate(s, g)
  {
    hide Inv, Pte, Entry, FrameOf, FlagsOf, Present, AllocStep;
    AllocLaw(s, g, d, i, j, flags);
    OwnersTaken(s);
    forall f | f in s.role && s.role[f].UserPage? && f < |s.mem|
      ensures f in g.role && g.role[f] == s.role[f] && f < |g.mem| && g.mem[f] == s.mem[f]
    {
      AllocKeepsFrames(s, g, d, i, j, flags, f);
      AllocKeepsRoles(s, g, d, i, j, flags);
    }
  }

  lemma OwnersTaken(s: Space)
    requires Inv(s)
    ensures forall f :: f in s.role ==> f in s.taken
  {
  }

  /** Over all of the growth every page keeps its entry, only kernel pages and tables are added, present and writable
      and in frames that were free, and ownership is kept. */
  lemma {:induction false} GrownLaw(path: seq<Space>, d: nat)
    requires Grown(path, d) && Inv(path[0]) && d in path[0].dirs && d < |path[0].mem|
    ensures var s, g := path[0], Last(path);
      && Inv(g) && g.dirs == s.dirs && |g.mem| == |s.mem| && s.taken <= g.taken
      && EnteredWith(s, g, d, 3) && KeepsPrivate(s, g)
    decreases |path|
  {
    hide Inv, Entry, FrameOf, FlagsOf, Present, AllocStep, EnteredWith, KeepsPrivate;
    var s, g := path[0], Last(path);
    if |path| == 1 {
      NothingEntered(s, d);
    } else {
      var before := path[..|path| - 1];
      GrownLaw(before, d);
      var b := Last(before);
      assert Grows(path[|path| - 2], path[|path| - 1], d);
      var p: nat :| GrowthStep(b, g, d, p);
      PresentAndWritable();
      AllocLaw(b, g, d, p / TABLES, p % TABLES, 3);
      AllocKeepsPrivate(b, g, d, p / TABLES, p % TABLES, 3);
      EnteredNext(s, b, g, d, p / TABLES, p % TABLES, 3);
      PrivateKept(s, b, g);
    }
  }

  lemma NothingEntered(s: Space, d: nat)
    requires d < |s.mem|
    ensures EnteredWith(s, s, d, 3) && KeepsPrivate(s, s)
  {
  }

  lemma PrivateKept(s: Space, b: Space, g: Space)
    requires |s.mem| == |b.mem| == |g.mem| && b.dirs == s.dirs && KeepsPrivate(s, b) && KeepsPrivate(b, g)
    ensures KeepsPrivate(s, g)
  {
    hide Pte;
    forall f | f in s.role && s.role[f].UserPage? && f < |s.mem|
      ensures f in g.role && g.role[f] == s.role[f] && g.mem[f] == s.mem[f]
    {
      assert b.mem[f] == s.mem[f];
    }
    forall x, i: nat, j: nat | x in s.dirs && x < |s.mem| && i < USER_TABLES && j < TABLES
      ensures Pte(g.mem, x, i, j) == Pte(s.mem, x, i, j)
    {
      assert Pte(b.mem, x, i, j) == Pte(s.mem, x, i, j);
    }
  }

  /** From the call of clonedir to its end: a private page of the parent is in the child with the same flags and the
      same contents, on a frame that was free when the copy began, and is in the parent what it was. */
  lemma PageCopiedFromStart(path: seq<Space>, s': Space, d: nat, n: nat, i: nat, j: nat)
    requires Grown(path, d) && Inv(path[0]) && d in path[0].dirs && d < |path[0].mem|
    requires d < |Last(path).mem| && CloneStep(Last(path), s', d, n) && i < USER_TABLES && j < TABLES
    requires Pte(path[0].mem, d, i, j) != 0
    ensures d < |s'.mem| && n < |s'.mem| && |s'.mem| == |path[0].mem|
    ensures var s := path[0];
      var e, e' := Pte(s.mem, d, i, j), Pte(s'.mem, n, i, j);
      && e' % 0x1000 == e % 0x1000 && e' / 0x1000 !in s.taken && e' / 0x1000 in s'.taken
      && e / 0x1000 < |s.mem| && e' / 0x1000 < |s.mem|
      && s'.mem[e' / 0x1000] == s.mem[e / 0x1000]
      && Pte(s'.mem, d, i, j) == e && s'.mem[e / 0x1000] == s.mem[e / 0x1000]
  {
    hide Inv, Pte, Entry, Present, CloneStep, EnteredWith;
    GrownLaw(path, d);
    var s, g := path[0], Last(path);
    CopiedPage(g, s', d, n, i, j);
    PrivatePage(s, d, i, j);
    CloneTakes(g, s', d, n);
  }

  lemma PrivatePage(s: Space, d: nat, i: nat, j: nat)
    requires Inv(s) && d in s.dirs && d < |s.mem| && i < USER_TABLES && j < TABLES && Pte(s.mem, d, i, j) != 0
    ensures FrameOf(Pte(s.mem, d, i, j)) < |s.mem|
    ensures Owned(s, FrameOf(Pte(s.mem, d, i, j)), UserPage(d, i, j))
  {
    hide FrameOf, Pte, Inv;
    PageFrame(s, d, i, j);
  }

  lemma CloneTakes(s: Space, s': Space, d: nat, n: nat)
    requires d < |s.mem| && CloneStep(s, s', d, n)
    ensures |s'.mem| == |s.mem| && forall f :: Fresh(s, s', f) ==> f in s'.taken
  {
    hide TableCopied, FreshOwners, KernelSlotsFrom;
  }

  /** A private slot of the child is empty where the parent's is; otherwise it has the parent's flags and a table in a
      frame that was free. The child maps itself, and has a kernel slot as the parent or empty. */
  lemma CopiedSlot(s: Space, s': Space, d: nat, n: nat, i: nat)
    requires Inv(s) && d in s.dirs && d < |s.mem| && CloneStep(s, s', d, n) && i < TABLES
    ensures n < |s'.mem| == |s.mem| && n !in s.dirs && s'.dirs == s.dirs + {n}
    ensures var e, e' := s.mem[d][i], s'.mem[n][i];
      if i < 864 then
        if e % 2 == 0 then e' == 0
        else e' % 0x1000 == e % 0x1000 && e' / 0x1000 < |s.mem| && e' / 0x1000 !in s.taken && e' / 0x1000 in s'.taken
      else if i < 1023 then e' == e || e' % 2 == 0
      else e' == 0x1000 * n + 3
  {
    hide PageCopied, FreshOwners, Inv;
    EntryLayout(n, 3);
    CloneTakes(s, s', d, n);
    if i < USER_TABLES {
      assert s'.mem[n][i] == s'.mem[n][i] && TableCopied(s, s', d, n, i);
    }
  }

  // The frames that a copy takes

  ghost function PrivateTables(mem: Memory, d: nat, i: nat): set<nat>
    requires d < |mem|
  {
    set k: nat | i <= k < USER_TABLES && HasTable(mem, d, k)
  }

  ghost function PrivatePages(mem: Memory, d: nat, i: nat): set<(nat, nat)>
    requires d < |mem|
  {
    set k: nat, j: nat | i <= k < USER_TABLES && j < TABLES && Pte(mem, d, k, j) != 0 :: (k, j)
  }

  ghost function InSlotPages(i: nat, js: set<nat>): set<(nat, nat)>
  {
    set j | j in js :: (i, j)
  }

  lemma {:induction false} SlotSize(i: nat, js: set<nat>)
    ensures |InSlotPages(i, js)| == |js|
    decreases |js|
  {
    if js != {} {
      var j :| j in js;
      SlotSize(i, js - {j});
      assert InSlotPages(i, js) == InSlotPages(i, js - {j}) + {(i, j)};
    } else {
      assert InSlotPages(i, js) == {};
    }
  }

  /** What a copy needs is one frame for each private table, and one for each private page. */
  lemma {:induction false} CloneNeedCounts(mem: Memory, d: nat, i: nat)
    requires d < |mem| && i <= USER_TABLES
    requires forall k: nat :: k < USER_TABLES && HasTable(mem, d, k) ==> Table(mem, d, k) < |mem|
    ensures CloneNeed(mem, d, i) == |PrivateTables(mem, d, i)| + |PrivatePages(mem, d, i)|
    decreases USER_TABLES - i
  {
    hide HasTable, Pte, Table, WordsLeft, PrivateTables, PrivatePages, InSlotPages;
    if i == USER_TABLES {
      NoneLeft(mem, d);
    } else {
      CloneNeedCounts(mem, d, i + 1);
      TablesStep(mem, d, i);
      PagesStep(mem, d, i);
    }
  }

  lemma NoneLeft(mem: Memory, d: nat)
    requires d < |mem|
    ensures PrivateTables(mem, d, USER_TABLES) == {} && PrivatePages(mem, d, USER_TABLES) == {}
  {
    hide HasTable, Pte;
  }

  lemma TablesStep(mem: Memory, d: nat, i: nat)
    requires d < |mem| && i < USER_TABLES
    ensures |PrivateTables(mem, d, i)| == |PrivateTables(mem, d, i + 1)| + if HasTable(mem, d, i) then 1 else 0
  {
    hide HasTable;
    var rest := PrivateTables(mem, d, i + 1);
    assert PrivateTables(mem, d, i) == if HasTable(mem, d, i) then rest + {i} else rest;
  }

  lemma PagesStep(mem: Memory, d: nat, i: nat)
    requires d < |mem| && i < USER_TABLES && (HasTable(mem, d, i) ==> Table(mem, d, i) < |mem|)
    ensures |PrivatePages(mem, d, i)| == |PrivatePages(mem, d, i + 1)|
              + if HasTable(mem, d, i) then |WordsLeft(mem[Table(mem, d, i)], 0)| else 0
  {
    hide HasTable, Pte, Table, WordsLeft;
    var rest := PrivatePages(mem, d, i + 1);
    SlotPages(mem, d, i);
    if HasTable(mem, d, i) {
      var js := WordsLeft(mem[Table(mem, d, i)], 0);
      SlotSize(i, js);
      assert PrivatePages(mem, d, i) == rest + InSlotPages(i, js);
      assert rest !! InSlotPages(i, js);
    } else {
      assert PrivatePages(mem, d, i) == rest;
    }
  }

  lemma SlotPages(mem: Memory, d: nat, i: nat)
    requires d < |mem| && i < USER_TABLES && (HasTable(mem, d, i) ==> Table(mem, d, i) < |mem|)
    ensures forall j: nat :: j < TABLES ==>
              (Pte(mem, d, i, j) != 0 <==> HasTable(mem, d, i) && j in WordsLeft(mem[Table(mem, d, i)], 0))
    ensures HasTable(mem, d, i) ==> forall j :: j in WordsLeft(mem[Table(mem, d, i)], 0) ==> j < TABLES
  {
    hide HasTable, Table, WordsLeft;
    if HasTable(mem, d, i) {
      NonzeroWords(mem[Table(mem, d, i)]);
    }
  }

  lemma NonzeroWords(src: Page)
    ensures forall j: nat :: j < TABLES ==> (src[j] != 0 <==> j in WordsLeft(src, 0))
    ensures forall j :: j in WordsLeft(src, 0) ==> j < TABLES
  {
  }
}
