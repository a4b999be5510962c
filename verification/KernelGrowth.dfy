/** Kernel pages that are mapped in the course of a copy: `kalloc_a` asks for them between the tables. Growth and
    copying commute, so what comes out is a copy of the grown space. */
module KernelGrowth {
  import opened AddressSpace
  import opened AddressSpaceLaws
  import opened PageAccounting
  import opened Translation
  import opened TableClone

  /** Page `p` of the kernel's range is mapped, present and writable, unless it is already. */
  ghost predicate GrowthStep(s: Space, s': Space, d: nat, p: nat)
    requires d < |s.mem|
  {
    USER_TABLES * TABLES <= p < WINDOW * TABLES && AllocStep(s, s', d, p / TABLES, p % TABLES, 3)
  }

  ghost predicate Grows(s: Space, s': Space, d: nat)
  {
    d < |s.mem| && exists p: nat :: GrowthStep(s, s', d, p)
  }

  /** The spaces in the course of kernel growth. */
  ghost predicate Grown(path: seq<Space>, d: nat)
  {
    |path| > 0 && forall k, m :: 0 <= k < m < |path| && m == k + 1 ==> Grows(path[k], path[m], d)
  }

  function Last(path: seq<Space>): Space
    requires |path| > 0
  {
    path[|path| - 1]
  }

  lemma GrownMore(path: seq<Space>, s: Space, d: nat, p: nat)
    requires Grown(path, d) && d < |Last(path).mem| && GrowthStep(Last(path), s, d, p)
    ensures Grown(path + [s], d) && Last(path + [s]) == s && (path + [s])[0] == path[0]
  {
    assert Grows(Last(path), s, d);
  }

  /** What growth writes is the directory, a kernel table, or a free frame. */
  ghost predicate Writable(s: Space, s': Space, d: nat, x: nat)
  {
    x == d || (x in s.role && s.role[x].KernelTable?) || (x < |s.mem| && x !in s'.taken)
  }

  /** The same change on both sides of a copy: the frames `x` are written alike, and those of `added` are taken. */
  ghost predicate SameChange(s: Space, b: Space, s': Space, b': Space, d: nat, x: set<nat>, added: map<nat, Role>)
  {
    && |b.mem| == |s.mem| && |b'.mem| == |s'.mem| && b.dirs == s.dirs && b'.dirs == s'.dirs
    && (forall g :: g in x ==> Writable(s, s', d, g))
    && (forall g: nat {:trigger b.mem[g]} :: g < |s.mem| && g !in x ==> b.mem[g] == s.mem[g])
    && (forall g: nat {:trigger b'.mem[g]} :: g < |s'.mem| && g !in x ==> b'.mem[g] == s'.mem[g])
    && (forall g: nat {:trigger b'.mem[g]} :: g in x && g < |b.mem| && g < |b'.mem| ==> b'.mem[g] == b.mem[g])
    && (forall g :: g in added ==> g < |s.mem| && g !in s'.taken)
    && b.taken == s.taken + added.Keys && b'.taken == s'.taken + added.Keys
    && b.role == s.role + added && b'.role == s'.role + added
  }

  /** The private slots, and all tables that are there, stay. */
  ghost predicate DirGrows(p: Page, p': Page)
  {
    forall k: nat {:trigger p'[k]} :: k < WINDOW && (k < USER_TABLES || Present(p[k])) ==> p'[k] == p[k]
  }

  lemma ChangedTable(s: Space, b: Space, s': Space, b': Space, d: nat, n: nat, i: nat, k: nat, x: set<nat>,
                     added: map<nat, Role>)
    requires Base(s, d, n) && DirCloning(s, s', d, n, i) && k < i && k < USER_TABLES
    requires SameChange(s, b, s', b', d, x, added) && d < |b.mem| && DirGrows(s.mem[d], b.mem[d])
    requires forall g :: g in s'.role ==> g in s'.taken
    requires n < |s'.mem| && b'.mem[n] == s'.mem[n]
    ensures TableCopied(b, b', d, n, k)
  {
    hide FrameOf, FlagsOf, Present, FreshOwners, KernelSlotsFrom;
    assert s'.mem[n][k] == s'.mem[n][k] && TableCopied(s, s', d, n, k);
    assert b.mem[d][k] == s.mem[d][k];
    if HasTable(s.mem, d, k) {
      TableFrame(s, d, k);
      var t, t' := Table(s.mem, d, k), Table(s'.mem, n, k);
      assert t !in x && t' !in x;
      forall j: nat | j < TABLES
        ensures PageCopied(b, b', t, t', n, k, j)
      {
        assert s'.mem[t'][j] == s'.mem[t'][j] && PageCopied(s, s', t, t', n, k, j);
        assert b.mem[t][j] == s.mem[t][j];
        if s.mem[t][j] != 0 {
          OwnedWord(s, t, j);
          assert FrameOf(s.mem[t][j]) !in x && FrameOf(s'.mem[t'][j]) !in x;
        }
      }
      TableCopiedFrom(b, b', d, n, k, t');
    }
  }

  lemma ChangedOwners(s: Space, b: Space, s': Space, b': Space, d: nat, n: nat, i: nat, x: set<nat>,
                      added: map<nat, Role>)
    requires Base(s, d, n) && DirCloning(s, s', d, n, i) && i <= USER_TABLES
    requires SameChange(s, b, s', b', d, x, added) && d < |b.mem| && DirGrows(s.mem[d], b.mem[d])
    requires forall g :: g in s'.role ==> g in s'.taken
    requires n < |s'.mem| && b'.mem[n] == s'.mem[n]
    ensures FreshOwners(b, b', d, n)
  {
    hide FrameOf, FlagsOf, Present, TableCopied, KernelSlotsFrom, PagesOwned, OwnersExist;
    forall u: nat, j: nat | u < USER_TABLES && j < TABLES
      ensures Pte(b.mem, d, u, j) == Pte(s.mem, d, u, j)
    {
      assert b.mem[d][u] == s.mem[d][u];
      if HasTable(s.mem, d, u) {
        TableFrame(s, d, u);
        assert Table(s.mem, d, u) !in x;
      }
    }
    forall g | g in b'.role && g !in b.role
      ensures Fresh(b, b', g)
    {
      assert Fresh(s, s', g);
    }
  }

  /** Growth on both sides leaves a copy of the grown space. */
  lemma ChangedCopy(s: Space, b: Space, s': Space, b': Space, d: nat, n: nat, i: nat, x: set<nat>,
                    added: map<nat, Role>)
    requires Base(s, d, n) && DirCloning(s, s', d, n, i) && i <= USER_TABLES
    requires SameChange(s, b, s', b', d, x, added) && d < |b.mem| && DirGrows(s.mem[d], b.mem[d])
    requires forall g :: g in s'.role ==> g in s'.taken
    requires n !in x
    ensures DirCloning(b, b', d, n, i)
  {
    hide FrameOf, FlagsOf, TableCopied, FreshOwners, TablesOwned, PagesOwned, OwnersExist;
    assert n < |s'.mem| && b'.mem[n] == s'.mem[n];
    forall k: nat | k < i && k < USER_TABLES
      ensures TableCopied(b, b', d, n, k)
    {
      ChangedTable(s, b, s', b', d, n, i, k, x, added);
    }
    ChangedOwners(s, b, s', b', d, n, i, x, added);
    forall g | g in b.role
      ensures Owned(b', g, b.role[g])
    {
      if g in s.role {
        assert Owned(s', g, s.role[g]);
      }
    }
    forall g: nat | g < |b.mem| && g != n && (g in b.taken || g !in b'.taken)
      ensures b'.mem[g] == b.mem[g]
    {
      if g !in x {
        assert s'.mem[g] == s.mem[g];
      }
    }
    forall g | g in b'.taken
      ensures g in b.taken || Fresh(b, b', g)
    {
      assert g in s'.taken ==> g in s.taken || Fresh(s, s', g);
    }
  }

  /** What the copy shows of the kernel's tables is what the original has. */
  lemma SameKernel(s: Space, s': Space, d: nat, n: nat, i: nat, k: nat, j: nat)
    requires Base(s, d, n) && DirCloning(s, s', d, n, i) && USER_TABLES <= k < WINDOW && j < TABLES
    ensures d < |s.mem| == |s'.mem| && d in s.taken && n in s.taken && s'.mem[d] == s.mem[d]
    ensures n < |s.mem| && d != n && s.taken <= s'.taken
    ensures Pte(s'.mem, d, k, j) == Pte(s.mem, d, k, j)
    ensures HasTable(s.mem, d, k) ==>
              var t := Table(s.mem, d, k);
              && t < |s.mem| && t in s.role && s.role[t] == KernelTable(k) && t != n && t in s.taken
                  && s'.mem[t] == s.mem[t]
  {
    hide FrameOf, Present, TableCopied, FreshOwners, KernelSlotsFrom, PagesOwned;
    if HasTable(s.mem, d, k) {
      TableFrame(s, d, k);
    }
  }

  lemma PageOnBothSides(s: Space, s': Space, d: nat, n: nat, i: nat, k: nat, j: nat, f: nat)
    requires Base(s, d, n) && DirCloning(s, s', d, n, i) && USER_TABLES <= k < WINDOW && j < TABLES && Free(s', f)
    requires d < |s.mem| && d < |s'.mem| && HasTable(s.mem, d, k)
    ensures var t := Table(s.mem, d, k);
            && t < |s.mem| && Table(s'.mem, d, k) == t < |s'.mem|
            && SameChange(s, AddPage(s, d, k, j, f, 3), s', AddPage(s', d, k, j, f, 3), d, {t},
                map[f := KernelPage(t, j)])
            && DirGrows(s.mem[d], AddPage(s, d, k, j, f, 3).mem[d]) && t != n
  {
    hide DirCloning, Base, FrameOf, Present;
    SameKernel(s, s', d, n, i, k, j);
    BaseParts(s, d, n);
  }

  /** A page and its table in one. */
  lemma BothAdded(s: Space, d: nat, k: nat, j: nat, f: nat, t: nat)
    requires d < |s.mem| && t < |s.mem| && d != t && USER_TABLES <= k < TABLES && j < TABLES
    ensures var a := AddTable(s, d, k, t, 3);
            && Table(a.mem, d, k) == t
            && AddPage(a, d, k, j, f, 3) ==
               Space(s.mem[d := s.mem[d][k := Entry(t, 3)]][t := Zero()[j := Entry(f, 3)]], s.dirs, s.taken + {t} + {f},
                     s.role[t := KernelTable(k)][f := KernelPage(t, j)])
  {
    hide FrameOf, Entry;
    EntryParts(t, 3);
  }

  ghost function Written(s: Space, d: nat, dir: Page, t: nat, table: Page, f: nat, r: Role, r': Role): Space
    requires d < |s.mem| && t < |s.mem|
  {
    Space(s.mem[d := dir][t := table], s.dirs, s.taken + {t} + {f}, s.role[t := r][f := r'])
  }

  lemma WrittenBoth(s: Space, s': Space, d: nat, dir: Page, t: nat, table: Page, f: nat, r: Role, r': Role)
    requires d < |s.mem| == |s'.mem| && Free(s', t) && Free(s', f) && t != f
    ensures SameChange(s, Written(s, d, dir, t, table, f, r, r'), s', Written(s', d, dir, t, table, f, r, r'), d,
            {d, t},
                       map[t := r, f := r'])
  {
  }

  lemma TableOnBothSides(s: Space, s': Space, d: nat, n: nat, i: nat, k: nat, j: nat, f: nat, t: nat)
    requires Base(s, d, n) && DirCloning(s, s', d, n, i) && USER_TABLES <= k < WINDOW && j < TABLES && Free(s', f)
             && Free(s', t)
    requires d < |s.mem| && d < |s'.mem| && !HasTable(s.mem, d, k) && f != t
    ensures t < |s.mem|
    ensures var a, a' := AddTable(s, d, k, t, 3), AddTable(s', d, k, t, 3);
            && Table(a.mem, d, k) == Table(a'.mem, d, k) == t
            && SameChange(s, AddPage(a, d, k, j, f, 3), s', AddPage(a', d, k, j, f, 3), d, {d, t},
                          map[t := KernelTable(k), f := KernelPage(t, j)])
            && DirGrows(s.mem[d], AddPage(a, d, k, j, f, 3).mem[d]) && t != n && d != n
  {
    hide DirCloning, Base, FrameOf, Present, Entry, AddTable, AddPage, Table, FramesOk, TablesOwned, Inv, SameChange;
    SameKernel(s, s', d, n, i, k, j);
    BothAdded(s, d, k, j, f, t);
    BothAdded(s', d, k, j, f, t);
    WrittenBoth(s, s', d, s.mem[d][k := Entry(t, 3)], t, Zero()[j := Entry(f, 3)], f, KernelTable(k), KernelPage(t, j));
  }

  lemma ChangeTakes(s: Space, b: Space, s': Space, b': Space, d: nat, x: set<nat>, added: map<nat, Role>)
    requires SameChange(s, b, s', b', d, x, added) && s.taken <= s'.taken
    ensures FreeFrames(s) - FreeFrames(b) == FreeFrames(s') - FreeFrames(b')
  {
    assert |b.taken| == |s.taken| + |added.Keys|;
    assert |b'.taken| == |s'.taken| + |added.Keys|;
  }

  /** A page mapped during a copy could have been mapped before it. */
  lemma GrowthUnderCopy(s: Space, s': Space, b': Space, d: nat, n: nat, i: nat, p: nat) returns (b: Space)
    requires Base(s, d, n) && DirCloning(s, s', d, n, i) && i <= USER_TABLES && d < |s.mem| && d < |s'.mem|
    requires GrowthStep(s', b', d, p)
    requires forall g :: g in s'.role ==> g in s'.taken
    ensures GrowthStep(s, b, d, p) && Base(b, d, n) && DirCloning(b, b', d, n, i) && |b.mem| == |s.mem| == |b'.mem|
    ensures DirGrows(s.mem[d], b.mem[d]) && n < |s'.mem| == |b'.mem| && b'.mem[n] == s'.mem[n]
    ensures FreeFrames(s) - FreeFrames(b) == FreeFrames(s') - FreeFrames(b')
    ensures forall g :: g in s'.role ==> g in b'.role && b'.role[g] == s'.role[g]
    ensures forall g :: g in b'.role ==> g in b'.taken
  {
    hide DirCloning, Base, FrameOf, Present, Entry, SameChange, DirGrows, Pte, AddPage, AddTable;
    AllocKeepsRoles(s', b', d, p / TABLES, p % TABLES, 3);
    var k, j := p / TABLES, p % TABLES;
    SameKernel(s, s', d, n, i, k, j);
    BaseParts(s, d, n);
    if Pte(s'.mem, d, k, j) != 0 {
      b := s;
      SameGrows(s.mem[d]);
      return;
    }
    if HasTable(s.mem, d, k) {
      var f: nat :| Free(s', f) && b' == AddPage(s', d, k, j, f, 3);
      b := AddPage(s, d, k, j, f, 3);
      PageOnBothSides(s, s', d, n, i, k, j, f);
      ChangedBoth(s, b, s', b', d, n, i, {Table(s.mem, d, k)}, map[f := KernelPage(Table(s.mem, d, k), j)]);
    } else {
      var f: nat, t: nat :| Free(s', f) && Free(s', t) && f != t && AddedBoth(s', b', d, k, j, f, t, 3);
      TableOnBothSides(s, s', d, n, i, k, j, f, t);
      b := AddPage(AddTable(s, d, k, t, 3), d, k, j, f, 3);
      assert AddedBoth(s, b, d, k, j, f, t, 3);
      ChangedBoth(s, b, s', b', d, n, i, {d, t}, map[t := KernelTable(k), f := KernelPage(t, j)]);
    }
    GrownBase(s, b, d, n, p);
  }

  lemma SameGrows(p: Page)
    ensures DirGrows(p, p)
  {
  }

  lemma ChangedBoth(s: Space, b: Space, s': Space, b': Space, d: nat, n: nat, i: nat, x: set<nat>,
                    added: map<nat, Role>)
    requires Base(s, d, n) && DirCloning(s, s', d, n, i) && i <= USER_TABLES
    requires SameChange(s, b, s', b', d, x, added) && d < |s.mem| && d < |b.mem| && DirGrows(s.mem[d], b.mem[d])
    requires forall g :: g in s'.role ==> g in s'.taken
    requires n !in x && s.taken <= s'.taken && n < |s'.mem|
    ensures DirCloning(b, b', d, n, i) && |b.mem| == |s.mem| && |b'.mem| == |s'.mem| && b'.mem[n] == s'.mem[n]
    ensures FreeFrames(s) - FreeFrames(b) == FreeFrames(s') - FreeFrames(b')
  {
    hide DirCloning, DirGrows, Base;
    ChangedCopy(s, b, s', b', d, n, i, x, added);
    ChangeTakes(s, b, s', b', d, x, added);
  }

  lemma GrownBase(s: Space, b: Space, d: nat, n: nat, p: nat)
    requires Base(s, d, n) && d < |s.mem| && GrowthStep(s, b, d, p)
    ensures Base(b, d, n)
  {
    hide Inv, Pte, Entry, FrameOf, Present;
    PresentAndWritable();
    AllocLaw(s, b, d, p / TABLES, p % TABLES, 3);
    BaseParts(s, d, n);
    AllocKeepsRoles(s, b, d, p / TABLES, p % TABLES, 3);
  }

  lemma AllocKeepsRoles(s: Space, s': Space, d: nat, i: nat, j: nat, flags: nat)
    requires d < |s.mem| && i < TABLES && j < TABLES && AllocStep(s, s', d, i, j, flags)
    requires forall g :: g in s.role ==> g in s.taken
    ensures forall g :: g in s.role ==> g in s'.role && s'.role[g] == s.role[g]
    ensures forall g :: g in s'.role ==> g in s'.taken
  {
    hide Pte, Entry, FrameOf, Present;
  }

  // The new table's frame is taken and entered before `kalloc_a` is called for it

  lemma EnteredPage(s: Space, d: nat, n: nat, i: nat, f: nat, flags: nat, k: nat, j: nat, g: nat)
    requires d < |s.mem| && n < |s.mem| && d != n && i < TABLES && k < TABLES && j < TABLES
    requires Table(s.mem, d, k) < |s.mem| && Table(s.mem, d, k) != n
    ensures var a := TableEntered(s, n, i, f, flags);
            && Table(a.mem, d, k) == Table(s.mem, d, k) && |a.mem| == |s.mem|
            && AddPage(a, d, k, j, g, 3) == TableEntered(AddPage(s, d, k, j, g, 3), n, i, f, flags)
            && AddPage(a, d, k, j, g, 3).mem[n] == a.mem[n]
  {
    hide Entry, FrameOf;
    assert s.taken + {f} + {g} == s.taken + {g} + {f};
  }

  lemma EnteredTable(s: Space, d: nat, n: nat, i: nat, f: nat, flags: nat, k: nat, t: nat)
    requires d < |s.mem| && n < |s.mem| && t < |s.mem| && d != n && t != n && i < TABLES && k < TABLES
    ensures var a := TableEntered(s, n, i, f, flags);
            && AddTable(a, d, k, t, 3) == TableEntered(AddTable(s, d, k, t, 3), n, i, f, flags)
            && AddTable(a, d, k, t, 3).mem[n] == a.mem[n]
    ensures Table(AddTable(s, d, k, t, 3).mem, d, k) == if d == t then 0 else t
  {
    hide Entry, FrameOf;
    EntryParts(t, 3);
    assert s.taken + {f} + {t} == s.taken + {t} + {f};
    assert FrameOf(0) == 0 by { ZeroFrame(); }
  }

  lemma ZeroFrame()
    ensures FrameOf(0) == 0
  {
  }

  lemma TakenByPage(s: Space, d: nat, k: nat, j: nat, g: nat)
    requires d < |s.mem| && k < TABLES && j < TABLES && Table(s.mem, d, k) < |s.mem| && Free(s, g)
    ensures FreeFrames(AddPage(s, d, k, j, g, 3)) == FreeFrames(s) - 1
    ensures AddPage(s, d, k, j, g, 3).taken == s.taken + {g}
  {
  }

  lemma TakenByTable(s: Space, d: nat, k: nat, t: nat)
    requires d < |s.mem| && k < TABLES && Free(s, t)
    ensures FreeFrames(AddTable(s, d, k, t, 3)) == FreeFrames(s) - 1
    ensures AddTable(s, d, k, t, 3).taken == s.taken + {t}
    ensures forall g: nat :: Free(s, g) && g != t ==> Free(AddTable(s, d, k, t, 3), g)
  {
  }

  lemma GrowthAfterEntered(s: Space, a': Space, d: nat, n: nat, i: nat, f: nat, flags: nat, p: nat) returns (b: Space)
    requires d < |s.mem| && n < |s.mem| && d != n && i < TABLES && n in s.taken && d in s.taken
    requires p < WINDOW * TABLES && (HasTable(s.mem, d, p / TABLES) ==> Table(s.mem, d, p / TABLES) != n)
    requires GrowthStep(TableEntered(s, n, i, f, flags), a', d, p)
    ensures GrowthStep(s, b, d, p) && n < |b.mem| == |s.mem| && a' == TableEntered(b, n, i, f, flags)
    ensures s.taken <= b.taken && (f !in s.taken ==> f !in b.taken)
    ensures FreeFrames(TableEntered(s, n, i, f, flags)) - FreeFrames(a') == FreeFrames(s) - FreeFrames(b)
    ensures a'.mem[n] == TableEntered(s, n, i, f, flags).mem[n]
  {
    hide Entry, FrameOf, Present, AddTable, AddPage;
    var a, k, j := TableEntered(s, n, i, f, flags), p / TABLES, p % TABLES;
    assert a.mem[d] == s.mem[d];
    assert Pte(a.mem, d, k, j) == Pte(s.mem, d, k, j);
    if Pte(s.mem, d, k, j) != 0 {
      b := s;
    } else if HasTable(s.mem, d, k) {
      var g: nat :| Free(a, g) && a' == AddPage(a, d, k, j, g, 3);
      EnteredPage(s, d, n, i, f, flags, k, j, g);
      b := AddPage(s, d, k, j, g, 3);
      TakenByPage(s, d, k, j, g);
      TakenByPage(a, d, k, j, g);
    } else {
      var g: nat, t: nat :| Free(a, g) && Free(a, t) && g != t && AddedBoth(a, a', d, k, j, g, t, 3);
      var s1 := AddTable(s, d, k, t, 3);
      EnteredTable(s, d, n, i, f, flags, k, t);
      EnteredPage(s1, d, n, i, f, flags, k, j, g);
      b := AddPage(s1, d, k, j, g, 3);
      assert AddedBoth(s, b, d, k, j, g, t, 3);
      TakenByTable(s, d, k, t);
      TakenByTable(a, d, k, t);
      TakenByPage(s1, d, k, j, g);
      TakenByPage(AddTable(a, d, k, t, 3), d, k, j, g);
    }
  }

  // Accounts of a copy in the course of which kernel pages are mapped

  /** There are frames for the copy, and for the pages of `pages` that the kernel is asked for on the way. */
  ghost predicate Enough(s: Space, d: nat, pages: set<nat>)
    requires d < |s.mem|
  {
    FreeFrames(s) >= CloneNeed(s.mem, d, 0) + NeedOf(s.mem, d, pages)
  }

  /** From `s0` the kernel has grown along `path`; `asked` are the pages it was asked for so far, of those in
      `pages`. */
  ghost predicate Grew(s0: Space, path: seq<Space>, d: nat, n: nat, pages: set<nat>, asked: set<nat>)
  {
    && Grown(path, d) && path[0] == s0 && d < |s0.mem| == |Last(path).mem| && Base(Last(path), d, n)
    && Last(path).dirs == s0.dirs
    && DirGrows(s0.mem[d], Last(path).mem[d]) && KeepsMappings(s0.mem, Last(path).mem, {d})
    && CloneNeed(Last(path).mem, d, 0) == CloneNeed(s0.mem, d, 0)
    && FreeFrames(Last(path)) - NeedOf(Last(path).mem, d, pages) == FreeFrames(s0) - NeedOf(s0.mem, d, pages)
    && (Enough(s0, d, pages) ==> PagesMapped(Last(path).mem, d, asked))
  }

  lemma GrewStart(s: Space, d: nat, n: nat, pages: set<nat>)
    requires Base(s, d, n)
    ensures Grew(s, [s], d, n, pages, {}) && Last([s]) == s
  {
    hide Base, Pte;
    BaseParts(s, d, n);
  }

  lemma {:induction false} SameCloneNeed(m: Memory, m': Memory, d: nat, i: nat)
    requires d < |m| && d < |m'| && forall k: nat :: i <= k < USER_TABLES ==> SlotNeed(m', d, k) == SlotNeed(m, d, k)
    ensures CloneNeed(m', d, i) == CloneNeed(m, d, i)
    decreases USER_TABLES - i
  {
    hide SlotNeed;
    if i < USER_TABLES {
      SameCloneNeed(m, m', d, i + 1);
    }
  }

  /** Growth leaves the private tables alone. */
  lemma GrowthKeepsSlot(s: Space, s': Space, d: nat, n: nat, p: nat, k: nat)
    requires Base(s, d, n) && d < |s.mem| && GrowthStep(s, s', d, p) && k < USER_TABLES
    ensures d < |s'.mem| && SlotNeed(s'.mem, d, k) == SlotNeed(s.mem, d, k) && s'.mem[d][k] == s.mem[d][k]
    ensures HasTable(s.mem, d, k) ==>
              Table(s.mem, d, k) < |s.mem| == |s'.mem| && s'.mem[Table(s.mem, d, k)] == s.mem[Table(s.mem, d, k)]
  {
    hide WordsLeft, FrameOf, Present, PagesOwned, OwnersExist, AddTable, Pte;
    var i, j := p / TABLES, p % TABLES;
    if HasTable(s.mem, d, k) {
      TableFrame(s, d, k);
    }
    if Pte(s.mem, d, i, j) == 0 {
      if HasTable(s.mem, d, i) {
        TableFrame(s, d, i);
      } else {
        var f: nat, t: nat :| Free(s, f) && Free(s, t) && f != t && AddedBoth(s, s', d, i, j, f, t, 3);
        BothAdded(s, d, i, j, f, t);
      }
    }
  }

  lemma GrewMore(s0: Space, path: seq<Space>, b: Space, d: nat, n: nat, pages: set<nat>, asked: set<nat>, p: nat)
    requires Grew(s0, path, d, n, pages, asked) && d < |Last(path).mem| && GrowthStep(Last(path), b, d, p) && p in pages
    requires Base(b, d, n) && DirGrows(Last(path).mem[d], b.mem[d])
    ensures Grew(s0, path + [b], d, n, pages, asked + {p}) && Last(path + [b]) == b
  {
    hide Grows, Base, GrowthStep, NeedOf, SlotNeed, CloneNeed, Pte, Present, Inv;
    var g := Last(path);
    GrownMore(path, b, d, p);
    GrowthOfPages(g, b, d, n, pages, asked, p);
    forall k: nat | 0 <= k < USER_TABLES
      ensures SlotNeed(b.mem, d, k) == SlotNeed(g.mem, d, k)
    {
      GrowthKeepsSlot(g, b, d, n, p, k);
    }
    SameCloneNeed(g.mem, b.mem, d, 0);
  }

  lemma GrowthOfPages(g: Space, b: Space, d: nat, n: nat, pages: set<nat>, asked: set<nat>, p: nat)
    requires Base(g, d, n) && d < |g.mem| && GrowthStep(g, b, d, p) && p in pages
    ensures d < |b.mem| == |g.mem| && b.dirs == g.dirs && KeepsMappings(g.mem, b.mem, {d})
    ensures FreeFrames(b) - NeedOf(b.mem, d, pages) == FreeFrames(g) - NeedOf(g.mem, d, pages)
    ensures PagesMapped(g.mem, d, asked) ==> PagesMapped(b.mem, d, asked + {p})
  {
    hide NeedOf, Pte, Present, Inv, AllocStep;
    PresentAndWritable();
    AllocLaw(g, b, d, p / TABLES, p % TABLES, 3);
    NeedOfStep(g, b, d, p, pages, 3);
    if PagesMapped(g.mem, d, asked) {
      forall q | q in asked + {p}
        ensures q < WINDOW * TABLES && PageEntry(b.mem, d, q) != 0
      {
        assert q in asked ==> PageEntry(g.mem, d, q) != 0;
      }
    }
  }

  /** A page that cannot be served shows that there were not frames enough. */
  lemma GrewUnserved(s0: Space, path: seq<Space>, d: nat, n: nat, pages: set<nat>, asked: set<nat>, p: nat)
    requires Grew(s0, path, d, n, pages, asked) && p < WINDOW * TABLES && d < |s0.mem| && d < |Last(path).mem|
    requires PageEntry(Last(path).mem, d, p) != 0 || !Enough(s0, d, pages)
    ensures Grew(s0, path, d, n, pages, asked + {p})
  {
    hide Grows, Base, Enough, Pte, PageEntry;
  }

  /** clonedir of `s0` with `i` private slots done, from the grown space at the end of `path` to `s`. */
  ghost predicate Copying(s0: Space, path: seq<Space>, s: Space, d: nat, n: nat, i: nat, pages: set<nat>,
                          asked: set<nat>)
  {
    && Grew(s0, path, d, n, pages, asked) && d < |Last(path).mem|
    && Kept(Last(path), s, {n}) && TablesEntered(Last(path), s, d, n, i)
    && 0 <= FreeFrames(s) <= FreeFrames(Last(path))
    && Progress(Last(path), s, d, n, i, FreeFrames(Last(path)), FreeFrames(s))
  }

  /** With frames enough from the start, there are enough for what is still to come. */
  lemma EnoughLeft(s0: Space, path: seq<Space>, s: Space, d: nat, n: nat, i: nat, pages: set<nat>, asked: set<nat>)
    requires Copying(s0, path, s, d, n, i, pages, asked) && d < |s0.mem| && d < |Last(path).mem| && i < USER_TABLES
    requires Enough(s0, d, pages)
    ensures FreeFrames(s) >= NeedOf(Last(path).mem, d, pages) + SlotNeed(Last(path).mem, d, i)
    ensures FreeFrames(s) > 0 || SlotNeed(Last(path).mem, d, i) == 0
    ensures DirCloning(Last(path), s, d, n, i)
  {
    hide Grows, Base, NeedOf, SlotNeed, CloneNeed, Kept, TablesEntered, DirCloning, Spoiled, DirGrows, KeepsMappings,
      PagesMapped;
    NeedFrom(Last(path).mem, d, i);
  }

  lemma CopyGoesOn(s0: Space, path: seq<Space>, s: Space, d: nat, n: nat, i: nat, pages: set<nat>, asked: set<nat>)
    requires Copying(s0, path, s, d, n, i, pages, asked) && FreeFrames(s) > 0
    ensures DirCloning(Last(path), s, d, n, i) && Base(Last(path), d, n)
  {
    hide Grows, Base, NeedOf, SlotNeed, CloneNeed, Kept, TablesEntered, DirCloning, Spoiled, DirGrows, KeepsMappings,
      PagesMapped;
  }

  /** The same within slot `i`: from `s` to `a` the frame `f` has been taken for the new table, or is frame 0. */
  ghost predicate InSlot(s0: Space, path: seq<Space>, s: Space, a: Space, d: nat, n: nat, i: nat, f: nat,
                         pages: set<nat>, asked: set<nat>)
  {
    && Copying(s0, path, s, d, n, i, pages, asked) && n < |s.mem| && n in s.taken && i < USER_TABLES
    && HasTable(Last(path).mem, d, i) && Table(Last(path).mem, d, i) < |Last(path).mem|
    && a == TableEntered(s, n, i, f, FlagsOf(Last(path).mem[d][i]))
    && f !in s.role && 0 in s.taken && (if f == 0 then FreeFrames(s) == 0 else Free(s, f))
    && forall g :: g in s.role ==> g in s.taken
  }

  lemma FramesInSlot(s0: Space, path: seq<Space>, s: Space, a: Space, d: nat, n: nat, i: nat, f: nat, pages: set<nat>,
                     asked: set<nat>)
    requires InSlot(s0, path, s, a, d, n, i, f, pages, asked)
    ensures FreeFrames(a) == if f == 0 then 0 else FreeFrames(s) - 1
    ensures f == 0 ==> a.taken == s.taken
  {
    hide Copying, FlagsOf, Present, FrameOf;
  }

  lemma SlotParts(s0: Space, path: seq<Space>, s: Space, d: nat, n: nat, i: nat, pages: set<nat>, asked: set<nat>)
    requires Copying(s0, path, s, d, n, i, pages, asked)
    ensures |path| > 0 && d < |s0.mem| == |Last(path).mem| == |s.mem| && Base(Last(path), d, n)
            && Kept(Last(path), s, {n})
    ensures Grew(s0, path, d, n, pages, asked) && TablesEntered(Last(path), s, d, n, i) && path[0] == s0
  {
    hide Grows, Base, NeedOf, CloneNeed, TablesEntered, Progress, DirGrows, KeepsMappings, PagesMapped;
  }

  /** Where no frame is left for the page, or none for its table, there were not frames enough. */
  lemma ShortInSlot(s0: Space, path: seq<Space>, s: Space, a: Space, d: nat, n: nat, i: nat, f: nat, pages: set<nat>,
                    asked: set<nat>, p: nat)
    requires InSlot(s0, path, s, a, d, n, i, f, pages, asked) && p in pages && p < WINDOW * TABLES
    requires d < |s0.mem| && d < |Last(path).mem| && PageEntry(Last(path).mem, d, p) == 0
    requires FreeFrames(a) <= if HasTable(Last(path).mem, d, p / TABLES) then 0 else 1
    ensures !Enough(s0, d, pages)
  {
    hide Copying, Enough, NeedOf, PageEntry, HasTable, FlagsOf, Free, WordsLeft, Grown;
    if Enough(s0, d, pages) {
      SlotParts(s0, path, s, d, n, i, pages, asked);
      EnoughLeft(s0, path, s, d, n, i, pages, asked);
      NeedOfPage(Last(path).mem, d, p, pages);
      FramesInSlot(s0, path, s, a, d, n, i, f, pages, asked);
    }
  }

  lemma EnteredStays(g: Space, s: Space, b: Space, s': Space, d: nat, n: nat, i: nat)
    requires d < |g.mem| && d < |b.mem| && TablesEntered(g, s, d, n, i) && n < |s'.mem| && s'.mem[n] == s.mem[n]
    requires DirGrows(g.mem[d], b.mem[d]) && forall x :: x in s.role ==> x in s'.role && s'.role[x] == s.role[x]
    ensures TablesEntered(b, s', d, n, i)
  {
    hide FrameOf, Present;
    forall k: nat | k < i && k < USER_TABLES && HasTable(b.mem, d, k)
      ensures HasTable(s'.mem, n, k) && (Table(s'.mem, n, k) == 0 || Owned(s', Table(s'.mem, n, k), UserTable(n, k)))
    {
      assert b.mem[d][k] == g.mem[d][k] && s.mem[n][k] == s.mem[n][k];
    }
  }

  /** Growth on both sides keeps the accounts of the copy. */
  lemma CopyingGrown(s0: Space, path: seq<Space>, s: Space, b: Space, s': Space, d: nat, n: nat, i: nat,
                     pages: set<nat>, asked: set<nat>, p: nat)
    requires Copying(s0, path, s, d, n, i, pages, asked) && d < |Last(path).mem| && p in pages && i <= USER_TABLES
    requires GrowthStep(Last(path), b, d, p) && Base(b, d, n) && DirCloning(b, s', d, n, i)
             && DirGrows(Last(path).mem[d], b.mem[d])
    requires FreeFrames(Last(path)) - FreeFrames(b) == FreeFrames(s) - FreeFrames(s') && FreeFrames(s') >= 0
             && FreeFrames(s) > 0
    requires n < |s.mem| == |s'.mem| && s'.mem[n] == s.mem[n]
    requires forall x :: x in s.role ==> x in s'.role && s'.role[x] == s.role[x]
    ensures Copying(s0, path + [b], s', d, n, i, pages, asked + {p})
  {
    hide Grown, Base, GrowthStep, NeedOf, SlotNeed, CloneNeed, DirCloning, TablesEntered, DirGrows, Grew, Spoiled;
    SlotParts(s0, path, s, d, n, i, pages, asked);
    var g := Last(path);
    GrewMore(s0, path, b, d, n, pages, asked, p);
    DirKept(b, s', d, n, i);
    EnteredStays(g, s, b, s', d, n, i);
    forall k: nat | k < USER_TABLES
      ensures SlotNeed(b.mem, d, k) == SlotNeed(g.mem, d, k)
    {
      GrowthKeepsSlot(g, b, d, n, p, k);
    }
    SameCloneNeed(g.mem, b.mem, d, 0);
    SameCloneNeed(g.mem, b.mem, d, i);
  }

  /** A page that has its entry, or cannot be served, changes nothing. */
  lemma NotServed(s0: Space, path: seq<Space>, s: Space, a: Space, d: nat, n: nat, i: nat, f: nat, pages: set<nat>,
                  asked: set<nat>, p: nat)
    requires InSlot(s0, path, s, a, d, n, i, f, pages, asked) && p in pages && p < WINDOW * TABLES && FreeFrames(a) <= 0
    ensures InSlot(s0, path, s, a, d, n, i, f, pages, asked + {p})
  {
    hide Grew, Kept, Base, TablesEntered, Progress, PageEntry, Enough, Present, FrameOf, FlagsOf, NeedOf, TableEntered;
    SlotParts(s0, path, s, d, n, i, pages, asked);
    if PageEntry(Last(path).mem, d, p) == 0 {
      ShortInSlot(s0, path, s, a, d, n, i, f, pages, asked, p);
    }
    GrewUnserved(s0, path, d, n, pages, asked, p);
  }

  lemma EnteredKernel(g: Space, s: Space, d: nat, n: nat, i: nat, f: nat, flags: nat, p: nat)
    requires d < |g.mem| && d < |s.mem| && s.mem[d] == g.mem[d] && n < |s.mem| && d != n && i < TABLES
             && p < WINDOW * TABLES
    ensures var a := TableEntered(s, n, i, f, flags);
            && |a.mem| == |s.mem|
            && HasTable(a.mem, d, p / TABLES) == HasTable(s.mem, d, p / TABLES) == HasTable(g.mem, d, p / TABLES)
            && Table(s.mem, d, p / TABLES) == Table(g.mem, d, p / TABLES)
  {
  }

  /** A page that is asked for within slot `i`. */
  lemma ServedInSlot(s0: Space, path: seq<Space>, s: Space, a: Space, a': Space, d: nat, n: nat, i: nat, f: nat,
                     pages: set<nat>, asked: set<nat>, p: nat) returns (path': seq<Space>, s': Space)
    requires InSlot(s0, path, s, a, d, n, i, f, pages, asked) && p in pages && d < |a.mem|
    requires USER_TABLES * TABLES <= p < WINDOW * TABLES && AllocOutcome(a, a', d, p / TABLES, p % TABLES, 3)
    requires FreeFrames(a') >= 0 && (FreeFrames(a) == 1 ==> HasTable(a.mem, d, p / TABLES))
    ensures InSlot(s0, path', s', a', d, n, i, f, pages, asked + {p})
    ensures n < |a.mem| == |a'.mem| && a'.mem[n] == a.mem[n]
  {
    hide Copying, FlagsOf, Present, FrameOf, Enough, Pte, Base, Kept, Grew, TablesEntered, DirCloning, NeedOf,
      AllocStep, DirGrows, SlotNeed, HasTable, Table, FreeFrames, TableEntered;
    SlotParts(s0, path, s, d, n, i, pages, asked);
    FramesInSlot(s0, path, s, a, d, n, i, f, pages, asked);
    if FreeFrames(a) <= 0 {
      path', s' := path, s;
      NotServed(s0, path, s, a, d, n, i, f, pages, asked, p);
      assert |a.mem| == |s.mem| by { EnteredSize(s, n, i, f, FlagsOf(Last(path).mem[d][i])); }
    } else {
      var g, flags := Last(path), FlagsOf(Last(path).mem[d][i]);
      CopyGoesOn(s0, path, s, d, n, i, pages, asked);
      SameKernel(g, s, d, n, i, p / TABLES, p % TABLES);
      EnteredKernel(g, s, d, n, i, f, flags, p);
      s' := GrowthAfterEntered(s, a', d, n, i, f, flags, p);
      var b := GrowthUnderCopy(g, s, s', d, n, i, p);
      FreeAfter(s, s', n, i, f, flags);
      CopyingGrown(s0, path, s, b, s', d, n, i, pages, asked, p);
      GrowthKeepsSlot(g, b, d, n, p, i);
      SameSlotEntry(g.mem, b.mem, d, i);
      path' := path + [b];
      assert Last(path') == b;
    }
  }

  lemma EnteredSize(s: Space, n: nat, i: nat, f: nat, flags: nat)
    requires n < |s.mem| && i < TABLES
    ensures |TableEntered(s, n, i, f, flags).mem| == |s.mem|
  {
  }

  lemma FreeAfter(s: Space, s': Space, n: nat, i: nat, f: nat, flags: nat)
    requires n < |s'.mem| && i < TABLES && f !in s'.taken && FreeFrames(TableEntered(s', n, i, f, flags)) >= 0
    ensures FreeFrames(s') > 0 && |TableEntered(s', n, i, f, flags).mem| == |s'.mem|
  {
    hide Entry;
  }

  lemma SameSlotEntry(m: Memory, m': Memory, d: nat, i: nat)
    requires d < |m| && d < |m'| && i < TABLES && m'[d][i] == m[d][i]
    ensures HasTable(m', d, i) == HasTable(m, d, i) && Table(m', d, i) == Table(m, d, i)
  {
  }

  // From slot to slot

  lemma CopyingStart(s0: Space, s: Space, d: nat, n: nat, pages: set<nat>)
    requires Base(s0, d, n) && DirCloning(s0, s, d, n, 0) && FreeFrames(s) == FreeFrames(s0) >= 0
    ensures Copying(s0, [s0], s, d, n, 0, pages, {}) && Last([s0]) == s0
  {
    hide Base, DirCloning, NeedOf, Spoiled, Grew;
    GrewStart(s0, d, n, pages);
    DirKept(s0, s, d, n, 0);
    BaseParts(s0, d, n);
    KeptOwner(s0, s, n);
    NothingEntered(s0, s, d, n);
    ProgressStart(s0, s, d, n, FreeFrames(s0));
  }

  /** A slot without a table is passed over. */
  lemma CopyingSkip(s0: Space, path: seq<Space>, s: Space, d: nat, n: nat, i: nat, pages: set<nat>, asked: set<nat>)
    requires Copying(s0, path, s, d, n, i, pages, asked) && i < USER_TABLES
    requires d < |Last(path).mem| && !HasTable(Last(path).mem, d, i)
    ensures Copying(s0, path, s, d, n, i + 1, pages, asked)
  {
    hide Grew, Base, DirCloning, TablesEntered, Spoiled, CloneNeed, Kept, HasTable;
    SlotParts(s0, path, s, d, n, i, pages, asked);
    var g := Last(path);
    BaseParts(g, d, n);
    KeptOwner(g, s, n);
    KeptItself(s, n);
    EnteredStep(g, s, s, d, n, i);
    NoNeed(g.mem, d, i);
    if DirCloning(g, s, d, n, i) {
      DirCloningSkip(g, s, d, n, i);
    }
    ProgressStep(g, s, s, d, n, i, FreeFrames(g), FreeFrames(s), FreeFrames(s));
  }

  /** A slot whose table is copied, into frame `f`. */
  lemma CopyingStep(s0: Space, path: seq<Space>, s: Space, a: Space, c: Space, d: nat, n: nat, i: nat, f: nat,
                    pages: set<nat>, asked: set<nat>)
    requires InSlot(s0, path, s, a, d, n, i, f, pages, asked) && d < |Last(path).mem| && n < |s.mem| && n < |c.mem|
    requires Kept(s, c, {n}) && TablesEntered(Last(path), c, d, n, i + 1)
    requires forall k: nat :: k < TABLES && k != i ==> c.mem[n][k] == s.mem[n][k]
    requires var words := |WordsLeft(Last(path).mem[Table(Last(path).mem, d, i)], 0)|;
      && FreeFrames(a) >= 0 && FreeFrames(c) == Left(FreeFrames(a), words)
      && (f != 0 && DirCloning(Last(path), s, d, n, i) && FreeFrames(a) >= words ==>
          DirCloning(Last(path), c, d, n, i + 1))
      && (f == 0 || FreeFrames(a) < words ==> Spoiled(Last(path), c.mem, d, n, i))
    ensures Copying(s0, path, c, d, n, i + 1, pages, asked)
  {
    hide Grew, Base, DirCloning, TablesEntered, Spoiled, CloneNeed, Kept, HasTable, Table, WordsLeft, FlagsOf,
      TableEntered;
    SlotParts(s0, path, s, d, n, i, pages, asked);
    FramesInSlot(s0, path, s, a, d, n, i, f, pages, asked);
    var g := Last(path);
    BaseParts(g, d, n);
    KeptOwner(g, s, n);
    KeptTwice(g, s, c, {n});
    SomeNeed(g.mem, d, i);
    ProgressStep(g, s, c, d, n, i, FreeFrames(g), FreeFrames(s), FreeFrames(c));
  }

  /** When all slots are done: a copy of the grown space, if that had frames enough. */
  lemma CopyingEnd(s0: Space, path: seq<Space>, s: Space, d: nat, n: nat, pages: set<nat>, asked: set<nat>)
    requires Copying(s0, path, s, d, n, USER_TABLES, pages, asked) && d < |s0.mem| && d < |Last(path).mem|
    ensures FreeFrames(Last(path)) >= CloneNeed(Last(path).mem, d, 0) ==> DirCloning(Last(path), s, d, n, USER_TABLES)
    ensures FreeFrames(Last(path)) < CloneNeed(Last(path).mem, d, 0) ==>
              exists k: nat :: k < USER_TABLES && Spoiled(Last(path), s.mem, d, n, k)
    ensures Enough(s0, d, pages) ==>
              FreeFrames(Last(path)) >= CloneNeed(Last(path).mem, d, 0) && PagesMapped(Last(path).mem, d, asked)
    ensures FreeFrames(Last(path)) >= CloneNeed(Last(path).mem, d, 0) && PagesMapped(Last(path).mem, d, pages) ==>
              Enough(s0, d, pages)
    ensures FreeFrames(Last(path)) >= CloneNeed(Last(path).mem, d, 0) && PagesMapped(Last(path).mem, d, pages) ==>
              FreeFrames(s) == FreeFrames(s0) - CloneNeed(s0.mem, d, 0) - NeedOf(s0.mem, d, pages)
  {
    hide Grows, Base, DirCloning, TablesEntered, Spoiled, CloneNeed, Kept, NeedOf, DirGrows, KeepsMappings;
    ProgressEnd(Last(path), s, d, n, FreeFrames(Last(path)), FreeFrames(s));
    if PagesMapped(Last(path).mem, d, pages) {
      NeedOfAllMapped(Last(path).mem, d, pages);
    }
  }

  lemma NeedOfAllMapped(mem: Memory, d: nat, pages: set<nat>)
    requires d < |mem| && PagesMapped(mem, d, pages)
    ensures NeedOf(mem, d, pages) == 0
  {
    hide PageEntry, HasTable;
    forall p | p in pages
      ensures HasTable(mem, d, p / TABLES)
    {
      EntryHasTable(mem, d, p);
    }
    assert Unmapped(mem, d, pages) == {} && Tableless(mem, d, pages) == {};
  }

  // The pages that the copy works through

  /** Growth leaves a mapped page where it is. */
  lemma GrewMapped(s0: Space, path: seq<Space>, d: nat, n: nat, pages: set<nat>, asked: set<nat>, vp: nat)
    requires Grew(s0, path, d, n, pages, asked) && Mapped(s0.mem, d, vp) && vp / TABLES < WINDOW
    ensures Mapped(Last(path).mem, d, vp) && Translate(Last(path).mem, d, vp) == Translate(s0.mem, d, vp)
  {
    hide Grows, Base, NeedOf, CloneNeed, PagesMapped, Enough;
    var e := Pte(s0.mem, d, vp / TABLES, vp % TABLES);
    assert s0.mem[Table(s0.mem, d, vp / TABLES)][vp % TABLES] == e != 0;
    assert Pte(Last(path).mem, d, vp / TABLES, vp % TABLES) == e;
    assert Last(path).mem[d][vp / TABLES] == s0.mem[d][vp / TABLES];
  }

  /** Two different kernel pages, each with a table, or among the pages asked for. */
  ghost predicate ScratchAsked(mem: Memory, d: nat, nv: nat, bv: nat, ask: seq<nat>)
  {
    && nv != bv && USER_TABLES * TABLES <= nv < WINDOW * TABLES && USER_TABLES * TABLES <= bv < WINDOW * TABLES
    && (HasEntry(mem, d, nv) || nv in ask) && (HasEntry(mem, d, bv) || bv in ask)
  }

  lemma ScratchHasTable(s0: Space, path: seq<Space>, d: nat, n: nat, pages: set<nat>, asked: set<nat>, v: nat)
    requires Grew(s0, path, d, n, pages, asked) && (HasEntry(s0.mem, d, v) || v in asked) && v < WINDOW * TABLES
    ensures d < |s0.mem| && d < |Last(path).mem|
    ensures HasTable(Last(path).mem, d, v / TABLES) ==> HasEntry(Last(path).mem, d, v)
    ensures !HasTable(Last(path).mem, d, v / TABLES) ==> !Enough(s0, d, pages)
  {
    hide Grows, NeedOf, CloneNeed, Enough, KeepsMappings, FrameOf, PagesOwned;
    if HasEntry(s0.mem, d, v) {
      assert Last(path).mem[d][v / TABLES] == s0.mem[d][v / TABLES];
    }
    if v in asked && PagesMapped(Last(path).mem, d, asked) {
      EntryHasTable(Last(path).mem, d, v);
    }
    if HasTable(Last(path).mem, d, v / TABLES) {
      BaseParts(Last(path), d, n);
      TableFrame(Last(path), d, v / TABLES);
    }
  }

  ghost function Elements(s: seq<nat>): set<nat>
  {
    set p | p in s
  }

  /** The pages asked for up to slot `i`, where there are tables to copy. */
  ghost function AskedPages(dir: Page, asked: seq<seq<nat>>, i: nat): set<nat>
    requires i <= |asked| && i <= TABLES
  {
    if i == 0 then {}
    else AskedPages(dir, asked, i - 1) + if Present(dir[i - 1]) then Elements(asked[i - 1]) else {}
  }

  lemma {:induction false} AskedPagesIn(dir: Page, asked: seq<seq<nat>>, i: nat, k: nat)
    requires i <= k <= |asked| && k <= TABLES
    ensures AskedPages(dir, asked, i) <= AskedPages(dir, asked, k)
    decreases k - i
  {
    if i < k {
      AskedPagesIn(dir, asked, i, k - 1);
    }
  }

  predicate KernelPages(ask: seq<nat>)
  {
    forall p :: p in ask ==> USER_TABLES * TABLES <= p < WINDOW * TABLES
  }

  lemma KernelInSlot(s0: Space, path: seq<Space>, s: Space, a: Space, d: nat, n: nat, i: nat, f: nat, pages: set<nat>,
                     asked: set<nat>, k: nat)
    requires InSlot(s0, path, s, a, d, n, i, f, pages, asked) && k < WINDOW
    ensures d < |a.mem| == |s.mem| == |Last(path).mem| && HasTable(a.mem, d, k) == HasTable(Last(path).mem, d, k)
  {
    hide Copying, FlagsOf, Present, FrameOf, Enough, Inv;
    SlotParts(s0, path, s, d, n, i, pages, asked);
    BaseParts(Last(path), d, n);
    KeptFrames(Last(path), s, n);
    DirOwned(Last(path), d);
    assert s.mem[d] == Last(path).mem[d];
  }

  lemma DirOwned(s: Space, d: nat)
    requires FramesOk(s) && d in s.dirs
    ensures d in s.role && d < |s.mem|
  {
  }

  /** With one frame left and the table missing there were not frames enough. */
  lemma LostInSlot(s0: Space, path: seq<Space>, s: Space, a: Space, d: nat, n: nat, i: nat, f: nat, pages: set<nat>,
                   asked: set<nat>, p: nat)
    requires InSlot(s0, path, s, a, d, n, i, f, pages, asked) && p in pages && p < WINDOW * TABLES
    requires d < |a.mem| && !HasTable(a.mem, d, p / TABLES) && FreeFrames(a) == 1
    ensures d < |s0.mem| && !Enough(s0, d, pages)
  {
    hide Copying, Enough, PageEntry, HasTable, FlagsOf, Free;
    SlotParts(s0, path, s, d, n, i, pages, asked);
    KernelInSlot(s0, path, s, a, d, n, i, f, pages, asked, p / TABLES);
    if PageEntry(Last(path).mem, d, p) != 0 {
      EntryHasTable(Last(path).mem, d, p);
    } else {
      ShortInSlot(s0, path, s, a, d, n, i, f, pages, asked, p);
    }
  }

  /** Where a scratch page has got no table, there were not frames enough either. */
  lemma NoScratch(s0: Space, path: seq<Space>, s: Space, a: Space, d: nat, n: nat, i: nat, f: nat, pages: set<nat>,
                  asked: set<nat>, nv: nat, bv: nat, ask: seq<nat>)
    requires InSlot(s0, path, s, a, d, n, i, f, pages, asked) && Elements(ask) <= asked
    requires d < |s0.mem| && d < |a.mem| && ScratchAsked(s0.mem, d, nv, bv, ask)
    ensures nv / TABLES < WINDOW && bv / TABLES < WINDOW
    ensures HasTable(a.mem, d, nv / TABLES) && HasTable(a.mem, d, bv / TABLES) ==>
            ScratchPages(Last(path).mem, d, nv, bv)
    ensures !HasTable(a.mem, d, nv / TABLES) || !HasTable(a.mem, d, bv / TABLES) ==> !Enough(s0, d, pages)
  {
    hide Copying, Enough, HasTable, FlagsOf, Free, HasEntry;
    SlotParts(s0, path, s, d, n, i, pages, asked);
    KernelInSlot(s0, path, s, a, d, n, i, f, pages, asked, nv / TABLES);
    KernelInSlot(s0, path, s, a, d, n, i, f, pages, asked, bv / TABLES);
    ScratchHasTable(s0, path, d, n, pages, asked, nv);
    ScratchHasTable(s0, path, d, n, pages, asked, bv);
  }

  lemma CopyingGrew(s0: Space, path: seq<Space>, s: Space, d: nat, n: nat, i: nat, pages: set<nat>, asked: set<nat>)
    requires Copying(s0, path, s, d, n, i, pages, asked)
    ensures Grew(s0, path, d, n, pages, {}) && |path| > 0
  {
    hide Grows, Base, DirCloning, TablesEntered, Spoiled, CloneNeed, Kept, NeedOf, DirGrows, KeepsMappings;
  }

  lemma GrewSlot(s0: Space, path: seq<Space>, d: nat, n: nat, pages: set<nat>, asked: set<nat>, k: nat)
    requires Grew(s0, path, d, n, pages, asked) && k < USER_TABLES
    ensures d < |s0.mem| == |Last(path).mem| && Last(path).mem[d][k] == s0.mem[d][k]
    ensures HasTable(Last(path).mem, d, k) == HasTable(s0.mem, d, k)
  {
    hide Grows, Base, CloneNeed, NeedOf, KeepsMappings;
  }

  lemma GrewPath(s0: Space, path: seq<Space>, d: nat, n: nat, pages: set<nat>, asked: set<nat>)
    requires Grew(s0, path, d, n, pages, asked)
    ensures Grown(path, d) && path[0] == s0 && Inv(Last(path)) && d < |Last(path).mem| && Last(path).dirs == s0.dirs
  {
    hide Grows, CloneNeed, NeedOf, KeepsMappings;
  }

  lemma ElementsMore(ask: seq<nat>, j: nat)
    requires j < |ask|
    ensures Elements(ask[..j + 1]) == Elements(ask[..j]) + {ask[j]}
    ensures ask[j] in Elements(ask)
  {
  }

  lemma ElementsAll(ask: seq<nat>)
    ensures ask[..0] == [] && Elements([]) == {} && ask[..|ask|] == ask
  {
  }

  lemma SlotGrew(s0: Space, path: seq<Space>, s: Space, a: Space, d: nat, n: nat, i: nat, f: nat, pages: set<nat>,
                 asked: set<nat>)
    requires InSlot(s0, path, s, a, d, n, i, f, pages, asked)
    ensures Grew(s0, path, d, n, pages, {}) && |path| > 0
  {
    hide Copying, FlagsOf, FrameOf;
    CopyingGrew(s0, path, s, d, n, i, pages, asked);
  }
}
