/** The course of clonetbl and clonedir, as relations between memories. */
module TableClone {
  import opened Intervals
  import opened AddressSpace
  import opened AddressSpaceLaws
  import opened Translation

  /** The words of a table from `n` on that map something. */
  ghost function WordsLeft(src: Page, n: nat): set<nat>
  {
    set j: nat | j in Interval(n, if n <= TABLES then TABLES - n else 0) && j < TABLES && src[j] != 0
  }

  lemma WordsStep(src: Page, n: nat)
    requires n < TABLES
    ensures WordsLeft(src, n) == if src[n] == 0 then WordsLeft(src, n + 1) else WordsLeft(src, n + 1) + {n}
    ensures n !in WordsLeft(src, n + 1)
  {
  }

  lemma WordsEnd(src: Page)
    ensures WordsLeft(src, TABLES) == {}
  {
  }

  /** From `s` to `s'`, the first `n` words of table `t` have been copied to the table in frame `p`, slot `i` of
      directory `dir`. No other frame that was in use has changed. */
  ghost predicate Cloning(s: Space, s': Space, t: nat, p: nat, dir: nat, i: nat, n: nat)
  {
    && t < |s.mem| && p < |s.mem| == |s'.mem| && s'.dirs == s.dirs && s.taken <= s'.taken
    && (forall j: nat {:trigger s'.mem[p][j]} :: j < n && j < TABLES ==> PageCopied(s, s', t, p, dir, i, j))
    && (forall j: nat {:trigger s'.mem[p][j]} :: n <= j < TABLES ==> s'.mem[p][j] == s.mem[p][j])
    && (forall f: nat {:trigger s'.mem[f]} :: f < |s.mem| && f != p && (f in s.taken || f !in s'.taken) ==>
          s'.mem[f] == s.mem[f])
    && (forall f :: f in s.role ==> Owned(s', f, s.role[f]))
    && (forall f :: f in s'.taken ==> f in s.taken || f in s'.role)
    && forall f :: f in s'.role && f !in s.role ==> Fresh(s, s', f) && CopyRole(s.mem[t], s'.role[f], dir, i)
  }

  /** The role of a page copied from an entry of the table `src`. */
  predicate CopyRole(src: Page, r: Role, dir: nat, i: nat)
  {
    r.UserPage? && r.dir == dir && r.i == i && r.j < TABLES && src[r.j] != 0
  }

  /** Whatever happens to the copy, the frames with an owner outside of `except` stay as they are. */
  ghost predicate Kept(s: Space, s': Space, except: set<nat>)
  {
    && |s'.mem| == |s.mem| && s'.dirs == s.dirs && s.taken <= s'.taken
    && (forall f :: f in s.role ==> Owned(s', f, s.role[f]))
    && forall f: nat {:trigger s'.mem[f]} :: f < |s.mem| && f in s.role && f !in except ==> s'.mem[f] == s.mem[f]
  }

  lemma KeptSelf(s: Space)
    ensures Kept(s, s, {})
  {
  }

  lemma KeptItself(s: Space, n: nat)
    ensures Kept(s, s, {n})
  {
  }

  lemma KeptTaken(s: Space, s': Space)
    requires Kept(s, s', {})
    ensures s.taken <= s'.taken && s'.dirs == s.dirs && |s'.mem| == |s.mem|
  {
  }

  lemma KeptOwner(s: Space, s': Space, n: nat)
    requires Kept(s, s', {n}) && n in s.role && n < |s.mem|
    ensures n in s'.role && s'.role[n] == s.role[n] && n < |s'.mem|
  {
    assert Owned(s', n, s.role[n]);
  }

  /** Writing frames that have no owner. */
  lemma KeptUnowned(s: Space, s': Space, f: nat, p: nat)
    requires |s'.mem| == |s.mem| && s'.dirs == s.dirs && s.taken <= s'.taken && f !in s.role && p !in s.role
    requires forall g :: g in s.role ==> g in s'.role && s'.role[g] == s.role[g]
    requires forall g: nat :: g < |s.mem| && g != f && g != p ==> s'.mem[g] == s.mem[g]
    ensures Kept(s, s', {})
  {
  }

  lemma KeptTwice(s: Space, s': Space, s'': Space, except: set<nat>)
    requires Kept(s, s', except) && Kept(s', s'', except)
    ensures Kept(s, s'', except)
  {
    forall f | f in s.role
      ensures Owned(s'', f, s.role[f])
    {
      assert Owned(s', f, s.role[f]);
    }
    forall f: nat | f < |s.mem| && f in s.role && f !in except
      ensures s''.mem[f] == s.mem[f]
    {
      assert Owned(s', f, s.role[f]) && s'.mem[f] == s.mem[f];
    }
  }

  lemma CloningStart(s: Space, t: nat, p: nat, dir: nat, i: nat)
    requires t < |s.mem| && p < |s.mem|
    ensures Cloning(s, s, t, p, dir, i, 0)
  {
  }

  /** An unmapped word is passed over. */
  lemma CloningSkip(s: Space, s': Space, t: nat, p: nat, dir: nat, i: nat, n: nat)
    requires Cloning(s, s', t, p, dir, i, n) && n < TABLES && s.mem[t][n] == 0
    ensures Cloning(s, s', t, p, dir, i, n + 1)
  {
    forall j: nat | j < n + 1
      ensures PageCopied(s, s', t, p, dir, i, j)
    {
      assert s'.mem[p][j] == s'.mem[p][j];
    }
  }

  ghost function CopyOne(s: Space, e: nat, p: nat, n: nat, f: nat, r: Role): Space
    requires FrameOf(e) < |s.mem| && p < |s.mem| && f < |s.mem| && n < TABLES
  {
    Space(s.mem[f := s.mem[FrameOf(e)]][p := s.mem[p][n := Entry(f, FlagsOf(e))]], s.dirs, s.taken + {f},
        s.role[f := r])
  }

  /** A mapped word is copied. */
  lemma CloningCopy(s: Space, s': Space, t: nat, p: nat, dir: nat, i: nat, n: nat, f: nat)
    requires Cloning(s, s', t, p, dir, i, n) && n < TABLES && s.mem[t][n] != 0
    requires p in s.taken && FrameOf(s.mem[t][n]) in s.taken && FrameOf(s.mem[t][n]) != p
    requires FrameOf(s.mem[t][n]) < |s.mem| && Free(s', f) && f !in s'.role
    ensures Cloning(s, CopyOne(s', s.mem[t][n], p, n, f, UserPage(dir, i, n)), t, p, dir, i, n + 1)
  {
    hide FrameOf, FlagsOf, Entry;
    var e := s.mem[t][n];
    var s'' := CopyOne(s', e, p, n, f, UserPage(dir, i, n));
    EntryOfParts(e);
    EntryParts(f, FlagsOf(e));
    forall j: nat | j < n + 1
      ensures PageCopied(s, s'', t, p, dir, i, j)
    {
      if j < n {
        assert s'.mem[p][j] == s'.mem[p][j] && PageCopied(s, s', t, p, dir, i, j);
      } else {
        assert s'.mem[FrameOf(e)] == s.mem[FrameOf(e)];
      }
    }
    forall g: nat | g < |s.mem| && g != p && (g in s.taken || g !in s''.taken)
      ensures s''.mem[g] == s.mem[g]
    {
      assert s'.mem[g] == s.mem[g];
    }
    forall g | g in s.role
      ensures Owned(s'', g, s.role[g])
    {
      assert Owned(s', g, s.role[g]);
    }
    forall g | g in s''.role && g !in s.role
      ensures Fresh(s, s'', g) && CopyRole(s.mem[t], s''.role[g], dir, i)
    {
      if g != f {
        assert Fresh(s, s', g);
      }
    }
  }

  /** What clonetbl finds: table `index` of directory `d` to read from, a frame `p` for the new table that is taken
      but has no owner yet, and two pages of the kernel's range. */
  ghost predicate CloneReady(s: Space, d: nat, index: nat, p: nat, nv: nat, bv: nat)
  {
    && d < |s.mem| && d in s.role && p < |s.mem| && p in s.taken && p !in s.role
    && (forall f :: f in s.role ==> f in s.taken && f < |s.mem|)
    && index < USER_TABLES && HasTable(s.mem, d, index) && s.mem[d][WINDOW] == Entry(d, 3)
    && nv != bv && USER_TABLES * TABLES <= nv < WINDOW * TABLES && USER_TABLES * TABLES <= bv < WINDOW * TABLES
    && HasTable(s.mem, d, nv / TABLES) && HasTable(s.mem, d, bv / TABLES)
    && var t, k1, k2 := Table(s.mem, d, index), Table(s.mem, d, nv / TABLES), Table(s.mem, d, bv / TABLES);
       && t in s.role && k1 in s.role && k2 in s.role && d !in {t, k1, k2} && t !in {k1, k2}
       && forall i: nat {:trigger s.mem[t][i]} :: i < TABLES && s.mem[t][i] != 0 ==>
            && Present(s.mem[t][i]) && FrameOf(s.mem[t][i]) in s.role
            && FrameOf(s.mem[t][i]) !in {d, t, k1, k2}
  }

  /** The space once the new table is mapped at `nv`. */
  ghost function NewTableShown(s: Space, d: nat, p: nat, nv: nat): Space
    requires d < |s.mem| && nv < TABLES * TABLES && Table(s.mem, d, nv / TABLES) < |s.mem|
  {
    s.(mem := WriteWord(s.mem, Table(s.mem, d, nv / TABLES), nv % TABLES, Entry(p, 3)))
  }

  /** At every word of the loop the pages are mapped as ClonePage needs them, and the table reads as it did. */
  lemma ReadyForWord(s: Space, s': Space, d: nat, index: nat, p: nat, nv: nat, bv: nat, i: nat)
    requires CloneReady(s, d, index, p, nv, bv) && i < TABLES && Kept(NewTableShown(s, d, p, nv), s', {})
    ensures var t := Table(s.mem, d, index); var e := s.mem[t][i]; var sv := index * TABLES + i;
      && p in s'.taken && s'.mem[t] == NewTableShown(s, d, p, nv).mem[t] == s.mem[t]
      && Mapped(s'.mem, d, WindowPage(index)) && Translate(s'.mem, d, WindowPage(index)) == t
      && (e != 0 && p !in s'.role ==> && CopyReady(s', d, sv, nv, bv)
                                          && Translate(s'.mem, d, nv) == p && Translate(s'.mem, d, sv) == FrameOf(e))
  {
    hide Entry, FrameOf, FlagsOf, Present;
    PresentAndWritable();
    EntryParts(p, 3);
    EntryParts(d, 3);
    var t, k1, k2 := Table(s.mem, d, index), Table(s.mem, d, nv / TABLES), Table(s.mem, d, bv / TABLES);
    var s1 := NewTableShown(s, d, p, nv);
    assert WindowPage(index) / TABLES == WINDOW && WindowPage(index) % TABLES == index;
    assert (index * TABLES + i) / TABLES == index && (index * TABLES + i) % TABLES == i;
    assert s'.mem[d] == s1.mem[d] == s.mem[d];
    assert s'.mem[t] == s1.mem[t] == s.mem[t];
    assert s'.mem[k1] == s1.mem[k1];
    assert s'.mem[k2] == s1.mem[k2];
  }

  /** When the scratch page gets its old entry back, only the copy has changed. */
  lemma KeptRestored(s: Space, s': Space, d: nat, index: nat, p: nat, nv: nat, bv: nat)
    requires CloneReady(s, d, index, p, nv, bv) && Kept(NewTableShown(s, d, p, nv), s', {})
    ensures var k1 := Table(s.mem, d, nv / TABLES);
      && d < |s'.mem| && HasTable(s'.mem, d, nv / TABLES) && Table(s'.mem, d, nv / TABLES) == k1
      && k1 < |s.mem| && k1 in s.role
      && Kept(s, s'.(mem := WriteWord(s'.mem, k1, nv % TABLES, s.mem[k1][nv % TABLES])), {})
  {
    hide Entry, FrameOf, FlagsOf, Present;
    var k1, j1 := Table(s.mem, d, nv / TABLES), nv % TABLES;
    var s1 := NewTableShown(s, d, p, nv);
    var s'' := s'.(mem := WriteWord(s'.mem, k1, j1, s.mem[k1][j1]));
    assert s'.mem[d] == s1.mem[d] == s.mem[d];
    assert s'.mem[k1] == s1.mem[k1];
    forall f: nat | f < |s.mem| && f in s.role
      ensures s''.mem[f] == s.mem[f]
    {
      assert s'.mem[f] == s1.mem[f];
    }
    forall f | f in s.role
      ensures Owned(s'', f, s.role[f])
    {
      assert Owned(s', f, s1.role[f]);
    }
  }

  /** When the scratch page gets its old entry back, the copy is one of the original space. */
  lemma CloneRestored(s: Space, s': Space, d: nat, index: nat, p: nat, nv: nat, bv: nat, dir: nat, n: nat)
    requires CloneReady(s, d, index, p, nv, bv)
    requires Cloning(NewTableShown(s, d, p, nv), s', Table(s.mem, d, index), p, dir, index, n)
    ensures var k1 := Table(s.mem, d, nv / TABLES);
      && d < |s'.mem| && HasTable(s'.mem, d, nv / TABLES) && Table(s'.mem, d, nv / TABLES) == k1
      && Cloning(s, s'.(mem := WriteWord(s'.mem, k1, nv % TABLES, s.mem[k1][nv % TABLES])),
                 Table(s.mem, d, index), p, dir, index, n)
  {
    hide Entry, FrameOf, FlagsOf, Present;
    var t, k1, j1 := Table(s.mem, d, index), Table(s.mem, d, nv / TABLES), nv % TABLES;
    var s1 := NewTableShown(s, d, p, nv);
    var s'' := s'.(mem := WriteWord(s'.mem, k1, j1, s.mem[k1][j1]));
    assert s'.mem[d] == s1.mem[d] == s.mem[d];
    assert s'.mem[k1] == s1.mem[k1];
    assert s''.mem[k1] == s.mem[k1];
    forall j: nat | j < n && j < TABLES
      ensures PageCopied(s, s'', t, p, dir, index, j)
    {
      assert s'.mem[p][j] == s'.mem[p][j] && PageCopied(s1, s', t, p, dir, index, j);
      assert s.mem[t][j] == s1.mem[t][j];
    }
    forall f: nat | f < |s.mem| && f != p && (f in s.taken || f !in s''.taken)
      ensures s''.mem[f] == s.mem[f]
    {
      assert s'.mem[f] == s1.mem[f];
    }
    forall j: nat | n <= j < TABLES
      ensures s''.mem[p][j] == s.mem[p][j]
    {
      assert s'.mem[p][j] == s1.mem[p][j];
    }
    forall f | f in s.role
      ensures Owned(s'', f, s.role[f])
    {
      assert Owned(s', f, s1.role[f]);
    }
    forall f | f in s''.role && f !in s.role
      ensures Fresh(s, s'', f) && CopyRole(s.mem[t], s''.role[f], dir, index)
    {
      assert Fresh(s1, s', f);
    }
  }

  lemma ReadyParts(s: Space, d: nat, index: nat, p: nat, nv: nat, bv: nat)
    requires CloneReady(s, d, index, p, nv, bv)
    ensures d < |s.mem| && index < USER_TABLES && HasTable(s.mem, d, index) && Table(s.mem, d, index) < |s.mem|
    ensures p < |s.mem| && p in s.taken && p !in s.role
    ensures nv < WINDOW * TABLES && HasTable(s.mem, d, nv / TABLES) && Table(s.mem, d, nv / TABLES) < |s.mem|
  {
  }

  lemma WordFacts(s: Space, d: nat, index: nat, p: nat, nv: nat, bv: nat, i: nat)
    requires CloneReady(s, d, index, p, nv, bv) && i < TABLES && s.mem[Table(s.mem, d, index)][i] != 0
    ensures var e := s.mem[Table(s.mem, d, index)][i];
      Present(e) && FrameOf(e) in s.taken && FrameOf(e) < |s.mem| && FrameOf(e) != p
  {
  }

  // The course of clonedir

  ghost predicate Base(s: Space, d: nat, n: nat)
  {
    && Inv(s) && d in s.dirs && d < |s.mem|
    && n in s.role && s.role[n].KernelPage? && n !in s.dirs && n < |s.mem|
  }

  lemma BaseParts(s: Space, d: nat, n: nat)
    requires Base(s, d, n)
    ensures Inv(s) && FramesOk(s) && TablesOwned(s) && d in s.dirs && d < |s.mem| && n < |s.mem|
    ensures n in s.role && s.role[n].KernelPage? && n !in s.dirs && n != d && n in s.taken
  {
  }

  /** Two different pages of the kernel's range whose tables are there. */
  ghost predicate ScratchPages(mem: Memory, d: nat, nv: nat, bv: nat)
  {
    && nv != bv && USER_TABLES * TABLES <= nv < WINDOW * TABLES && USER_TABLES * TABLES <= bv < WINDOW * TABLES
    && HasEntry(mem, d, nv) && HasEntry(mem, d, bv)
  }

  /** From `s` to `s'`, the kernel's slots and the first `i` user slots of directory `d` have been copied into frame
      `n`. */
  ghost predicate DirCloning(s: Space, s': Space, d: nat, n: nat, i: nat)
  {
    && d < |s.mem| && n < |s.mem| == |s'.mem| && s'.dirs == s.dirs && s.taken <= s'.taken
    && (forall f :: f in s.role ==> Owned(s', f, s.role[f]))
    && (forall f: nat {:trigger s'.mem[f]} :: f < |s.mem| && f != n && (f in s.taken || f !in s'.taken) ==>
          s'.mem[f] == s.mem[f])
    && (forall f :: f in s'.taken ==> f in s.taken || Fresh(s, s', f))
    && FreshOwners(s, s', d, n)
    && KernelSlotsFrom(s.mem[d], s'.mem[n])
    && (forall k: nat {:trigger s'.mem[n][k]} :: k < i && k < USER_TABLES ==> TableCopied(s, s', d, n, k))
    && (forall k: nat {:trigger s'.mem[n][k]} :: i <= k < USER_TABLES ==> s'.mem[n][k] == 0)
  }

  lemma DirKept(s: Space, s': Space, d: nat, n: nat, i: nat)
    requires Base(s, d, n) && DirCloning(s, s', d, n, i)
    ensures Kept(s, s', {n})
  {
    hide TablesOwned, PagesOwned, OwnersExist, TableCopied, FreshOwners;
    forall f: nat | f < |s.mem| && f in s.role && f != n
      ensures s'.mem[f] == s.mem[f]
    {
      assert f in s.taken;
    }
  }

  lemma DirCloningSkip(s: Space, s': Space, d: nat, n: nat, i: nat)
    requires DirCloning(s, s', d, n, i) && i < USER_TABLES && !HasTable(s.mem, d, i)
    ensures DirCloning(s, s', d, n, i + 1)
  {
    hide FrameOf, FlagsOf, Present, FreshOwners;
    forall k: nat | k < i + 1 && k < USER_TABLES
      ensures TableCopied(s, s', d, n, k)
    {
      if k < i {
        assert s'.mem[n][k] == s'.mem[n][k];
      } else {
        assert s'.mem[n][i] == 0;
      }
    }
  }

  /** A frame is taken for the new table and entered in the new directory. */
  ghost function TableEntered(s: Space, n: nat, i: nat, f: nat, flags: nat): Space
    requires n < |s.mem| && i < TABLES
  {
    Space(WriteWord(s.mem, n, i, Entry(f, flags)), s.dirs, s.taken + {f}, s.role)
  }

  /** What the owners of the frames involved say about them. */
  ghost predicate FramesApart(s: Space, d: nat, n: nat, i: nat, nv: nat, bv: nat)
    requires d < |s.mem| && i < TABLES && nv < TABLES * TABLES && bv < TABLES * TABLES
  {
    var t, k1, k2 := Table(s.mem, d, i), Table(s.mem, d, nv / TABLES), Table(s.mem, d, bv / TABLES);
    && {d, n, t, k1, k2} <= s.role.Keys && n !in {d, t, k1, k2} && d !in {t, k1, k2} && t !in {k1, k2}
    && t < |s.mem| && k1 < |s.mem| && k2 < |s.mem| && (forall f :: f in s.role ==> f in s.taken)
    && HasTable(s.mem, d, nv / TABLES) && HasTable(s.mem, d, bv / TABLES) && s.mem[d][WINDOW] == Entry(d, 3)
    && forall j: nat {:trigger s.mem[t][j]} :: j < TABLES && s.mem[t][j] != 0 ==>
         Present(s.mem[t][j]) && FrameOf(s.mem[t][j]) in s.role && FrameOf(s.mem[t][j]) !in {d, n, t, k1, k2}
  }

  lemma BaseApart(s: Space, d: nat, n: nat, i: nat, nv: nat, bv: nat)
    requires Base(s, d, n) && i < USER_TABLES && HasTable(s.mem, d, i) && ScratchPages(s.mem, d, nv, bv)
    ensures FramesApart(s, d, n, i, nv, bv)
  {
    hide FrameOf, Present, Entry;
    TableFrame(s, d, i);
    TableFrame(s, d, nv / TABLES);
    TableFrame(s, d, bv / TABLES);
    forall j: nat | j < TABLES
      ensures WordOwned(s, Table(s.mem, d, i), j)
    {
      assert s.mem[Table(s.mem, d, i)][j] == s.mem[Table(s.mem, d, i)][j];
    }
  }

  lemma ScratchRange(mem: Memory, d: nat, nv: nat, bv: nat)
    requires ScratchPages(mem, d, nv, bv)
    ensures nv != bv && USER_TABLES * TABLES <= nv < WINDOW * TABLES && USER_TABLES * TABLES <= bv < WINDOW * TABLES
  {
  }

  lemma TableIsReady(s: Space, s': Space, d: nat, n: nat, i: nat, f: nat, nv: nat, bv: nat)
    requires Base(s, d, n) && d < |s.mem| && Kept(s, s', {n}) && i < USER_TABLES && HasTable(s.mem, d, i)
    requires ScratchPages(s.mem, d, nv, bv) && f < |s'.mem| && f !in s'.role && n < |s'.mem|
    requires forall g :: g in s'.role ==> g in s'.taken && g < |s'.mem|
    ensures var a := TableEntered(s', n, i, f, FlagsOf(s.mem[d][i]));
      && CloneReady(a, d, i, f, nv, bv) && Table(a.mem, n, i) == f
      && Table(a.mem, d, i) == Table(s.mem, d, i) < |s.mem| && a.mem[Table(s.mem, d, i)] == s.mem[Table(s.mem, d, i)]
  {
    hide Entry, FrameOf, FlagsOf, Present, FreshOwners, TableCopied, Base, ScratchPages;
    BaseApart(s, d, n, i, nv, bv);
    EntryOfParts(s.mem[d][i]);
    EntryParts(f, FlagsOf(s.mem[d][i]));
    ScratchRange(s.mem, d, nv, bv);
    var t, k1, k2 := Table(s.mem, d, i), Table(s.mem, d, nv / TABLES), Table(s.mem, d, bv / TABLES);
    var a := TableEntered(s', n, i, f, FlagsOf(s.mem[d][i]));
    assert forall g :: g in s.role ==> Owned(s', g, s.role[g]) && g in s.taken;
    assert a.mem[d] == s'.mem[d] == s.mem[d];
    assert a.mem[t] == s'.mem[t] == s.mem[t];
  }

  /** The space when table `i` is copied and owned. */
  ghost function TableDone(b: Space, n: nat, i: nat, f: nat): Space
  {
    b.(role := b.role[f := UserTable(n, i)])
  }

  lemma KeptCopy(s: Space, s': Space, c: Space, d: nat, n: nat, k: nat)
    requires d < |s.mem| && n < |s.mem| == |s'.mem| == |c.mem| && k < USER_TABLES && TableCopied(s, s', d, n, k)
    requires c.mem[n][k] == s'.mem[n][k]
    requires forall g :: g in s'.role ==> Owned(c, g, s'.role[g]) && g < |s.mem|
    requires forall g :: g in s'.role && g !in s.taken ==> c.mem[g] == s'.mem[g]
    ensures TableCopied(s, c, d, n, k)
  {
    hide FrameOf, FlagsOf, Present;
    if HasTable(s.mem, d, k) {
      var t, t' := Table(s.mem, d, k), Table(s'.mem, n, k);
      forall j: nat | j < TABLES
        ensures PageCopied(s, c, t, t', n, k, j)
      {
        assert s'.mem[t'][j] == s'.mem[t'][j] && PageCopied(s, s', t, t', n, k, j);
      }
    }
  }

  lemma NewCopy(s: Space, s': Space, b: Space, d: nat, n: nat, i: nat, f: nat, nv: nat, bv: nat)
    requires Base(s, d, n) && DirCloning(s, s', d, n, i) && i < USER_TABLES && HasTable(s.mem, d, i)
    requires ScratchPages(s.mem, d, nv, bv) && Free(s', f)
    requires Cloning(TableEntered(s', n, i, f, FlagsOf(s.mem[d][i])), b, Table(s.mem, d, i), f, n, i, TABLES)
    requires f !in b.role
    ensures n < |s.mem| == |b.mem| && TableCopied(s, TableDone(b, n, i, f), d, n, i)
  {
    hide Entry, FrameOf, FlagsOf, Present, FreshOwners, TableCopied, Base, ScratchPages;
    EntryOfParts(s.mem[d][i]);
    EntryParts(f, FlagsOf(s.mem[d][i]));
    BaseApart(s, d, n, i, nv, bv);
    var a := TableEntered(s', n, i, f, FlagsOf(s.mem[d][i]));
    var c, t := TableDone(b, n, i, f), Table(s.mem, d, i);
    assert c.mem[n] == a.mem[n];
    assert s'.mem[f] == s.mem[f] && a.mem[f] == s.mem[f] && a.mem[t] == s'.mem[t] == s.mem[t];
    forall j: nat | j < TABLES
      ensures PageCopied(s, c, t, f, n, i, j)
    {
      assert b.mem[f][j] == b.mem[f][j] && PageCopied(a, b, t, f, n, i, j);
      var e := s.mem[t][j];
      if e != 0 {
        assert a.mem[FrameOf(e)] == s'.mem[FrameOf(e)] == s.mem[FrameOf(e)];
      }
    }
    TableCopiedFrom(s, c, d, n, i, f);
  }

  lemma TableCopiedFrom(s: Space, c: Space, d: nat, n: nat, i: nat, f: nat)
    requires d < |s.mem| && n < |s.mem| == |c.mem| && i < USER_TABLES && HasTable(s.mem, d, i) && HasTable(c.mem, n, i)
    requires Table(c.mem, n, i) == f && FlagsOf(c.mem[n][i]) == FlagsOf(s.mem[d][i]) && Table(s.mem, d, i) < |s.mem|
    requires Fresh(s, c, f) && Owned(c, f, UserTable(n, i))
    requires forall j: nat :: j < TABLES ==> PageCopied(s, c, Table(s.mem, d, i), f, n, i, j)
    ensures TableCopied(s, c, d, n, i)
  {
  }

  /** What the copy of one table leaves of the frames around it. */
  lemma StepFrames(s: Space, s': Space, b: Space, d: nat, n: nat, i: nat, f: nat)
    requires Base(s, d, n) && DirCloning(s, s', d, n, i) && i < USER_TABLES && HasTable(s.mem, d, i)
    requires Free(s', f) && f !in b.role
    requires forall g :: g in s'.role ==> g in s'.taken && g < |s'.mem|
    requires Cloning(TableEntered(s', n, i, f, FlagsOf(s.mem[d][i])), b, Table(s.mem, d, i), f, n, i, TABLES)
    ensures |b.mem| == |s.mem| && b.mem[n] == s'.mem[n][i := Entry(f, FlagsOf(s.mem[d][i]))]
    ensures forall g :: g in s'.role ==>
              && Owned(b, g, s'.role[g]) && g < |s.mem|
              && (g !in s.taken ==> b.mem[g] == s'.mem[g])
    ensures forall g: nat :: g < |s.mem| && g != n && (g in s.taken || g !in b.taken) ==> b.mem[g] == s.mem[g]
    ensures s.taken <= b.taken && f in b.taken
    ensures forall g :: g in b.taken ==> g in s.taken || g in s'.role || g == f || g in b.role
    ensures forall g :: g in b.role && g !in s'.role ==>
              g < |s.mem| && g !in s'.taken && CopyRole(s.mem[Table(s.mem, d, i)], b.role[g], n, i)
  {
    hide Entry, FrameOf, FlagsOf, Present, PageCopied, FreshOwners, FramesOk, TablesOwned, PagesOwned, TableCopied;
    var a := TableEntered(s', n, i, f, FlagsOf(s.mem[d][i]));
    NewDirTaken(s, d, n);
    TableApart(s, d, n, i);
    assert a.mem[Table(s.mem, d, i)] == s'.mem[Table(s.mem, d, i)] == s.mem[Table(s.mem, d, i)];
    assert b.mem[n] == a.mem[n];
    forall g | g in s'.role
      ensures Owned(b, g, s'.role[g]) && g < |s.mem| && (g !in s.taken ==> b.mem[g] == s'.mem[g])
    {
      assert Owned(b, g, a.role[g]);
      if g !in s.taken {
        assert a.mem[g] == s'.mem[g];
      }
    }
    forall g: nat | g < |s.mem| && g != n && (g in s.taken || g !in b.taken)
      ensures b.mem[g] == s.mem[g]
    {
      assert a.mem[g] == s'.mem[g];
    }
    forall g | g in b.role && g !in s'.role
      ensures g < |s.mem| && g !in s'.taken && CopyRole(s.mem[Table(s.mem, d, i)], b.role[g], n, i)
    {
      assert Fresh(a, b, g);
    }
  }

  lemma DirCloningStep(s: Space, s': Space, b: Space, d: nat, n: nat, i: nat, f: nat, nv: nat, bv: nat)
    requires Base(s, d, n) && DirCloning(s, s', d, n, i) && i < USER_TABLES && HasTable(s.mem, d, i)
    requires ScratchPages(s.mem, d, nv, bv) && Free(s', f)
    requires forall g :: g in s'.role ==> g in s'.taken && g < |s'.mem|
    requires forall g :: g in b.role ==> g in b.taken
    requires Cloning(TableEntered(s', n, i, f, FlagsOf(s.mem[d][i])), b, Table(s.mem, d, i), f, n, i, TABLES)
    requires f !in b.role && b.dirs == s'.dirs
    ensures DirCloning(s, TableDone(b, n, i, f), d, n, i + 1)
  {
    hide Base, Cloning, TableEntered, ScratchPages, Entry, FrameOf, FlagsOf, Present, PageCopied, FreshOwners;
    NewCopy(s, s', b, d, n, i, f, nv, bv);
    StepFrames(s, s', b, d, n, i, f);
    EntryOfParts(s.mem[d][i]);
    EntryParts(f, FlagsOf(s.mem[d][i]));
    var c := TableDone(b, n, i, f);
    forall k: nat | k < i + 1 && k < USER_TABLES
      ensures TableCopied(s, c, d, n, k)
    {
      if k < i {
        assert s'.mem[n][k] == s'.mem[n][k] && TableCopied(s, s', d, n, k);
        KeptCopy(s, s', c, d, n, k);
      }
    }
    assert !HasTable(s'.mem, n, i) by { assert s'.mem[n][i] == 0; ZeroAbsent(); }
    TableEntriesRead(s, d, n, i);
    OwnersStep(s, s', b, d, n, i, f);
  }

  lemma ZeroAbsent()
    ensures !Present(0)
  {
  }

  lemma NewDirTaken(s: Space, d: nat, n: nat)
    requires Base(s, d, n)
    ensures n in s.taken && d in s.taken
  {
  }

  lemma TableApart(s: Space, d: nat, n: nat, i: nat)
    requires Base(s, d, n) && i < USER_TABLES && HasTable(s.mem, d, i)
    ensures Table(s.mem, d, i) < |s.mem| && Table(s.mem, d, i) in s.taken && Table(s.mem, d, i) != n
  {
    TableFrame(s, d, i);
  }

  lemma TableEntriesRead(s: Space, d: nat, n: nat, i: nat)
    requires Base(s, d, n) && i < USER_TABLES && HasTable(s.mem, d, i)
    ensures Table(s.mem, d, i) < |s.mem|
    ensures forall j: nat :: j < TABLES ==> Pte(s.mem, d, i, j) == s.mem[Table(s.mem, d, i)][j]
  {
    TableFrame(s, d, i);
  }

  lemma OwnersStep(s: Space, s': Space, b: Space, d: nat, n: nat, i: nat, f: nat)
    requires d < |s.mem| && n < |s'.mem| == |b.mem| == |s.mem| && FreshOwners(s, s', d, n) && i < USER_TABLES
    requires HasTable(s.mem, d, i) && Table(s.mem, d, i) < |s.mem|
    requires forall g :: g in s'.role ==> Owned(b, g, s'.role[g])
    requires forall g :: g in b.role && g !in s'.role ==>
               g < |s.mem| && g !in s'.taken && CopyRole(s.mem[Table(s.mem, d, i)], b.role[g], n, i)
    requires s.taken <= s'.taken && f < |s.mem| && f !in s'.taken && f !in b.role
    requires HasTable(b.mem, n, i) && Table(b.mem, n, i) == f
    requires forall k: nat :: k < TABLES && k != i ==> b.mem[n][k] == s'.mem[n][k]
    requires forall g :: g in s'.role ==> g in s'.taken
    requires !HasTable(s'.mem, n, i)
    ensures FreshOwners(s, TableDone(b, n, i, f), d, n)
  {
    hide FrameOf, Present;
    var c := TableDone(b, n, i, f);
    forall g | g in c.role && g !in s.role
      ensures Fresh(s, c, g)
    {
      if g in s'.role {
        assert Fresh(s, s', g);
      }
    }
  }

  // Copying starts with a zeroed directory and the kernel's slots

  ghost function WithDir(s: Space, n: nat, page: Page): Space
    requires n < |s.mem|
  {
    s.(mem := s.mem[n := page])
  }

  lemma DirCloningStart(s: Space, d: nat, n: nat, page: Page)
    requires Base(s, d, n)
    requires KernelSlotsFrom(s.mem[d], page)
    requires forall k: nat :: k < USER_TABLES ==> page[k] == 0
    ensures DirCloning(s, WithDir(s, n, page), d, n, 0)
  {
  }

  /** The new directory with its own entry in the last slot. */
  ghost function Finished(s: Space, n: nat): Space
    requires n < |s.mem|
  {
    Space(WriteWord(s.mem, n, WINDOW, Entry(n, 3)), s.dirs + {n}, s.taken, s.role)
  }

  lemma DirCloningEnd(s: Space, s': Space, d: nat, n: nat, i: nat)
    requires Base(s, d, n) && DirCloning(s, s', d, n, i) && i == USER_TABLES
    requires forall g :: g in s'.role ==> g in s'.taken && g < |s'.mem|
    ensures CloneStep(s, Finished(s', n), d, n)
  {
    hide FrameOf, FlagsOf, Present, Entry, FramesOk, TablesOwned, PagesOwned;
    var c := Finished(s', n);
    forall k: nat | k < USER_TABLES
      ensures TableCopied(s, c, d, n, k)
    {
      assert s'.mem[n][k] == s'.mem[n][k];
      assert TableCopied(s, s', d, n, k);
      NewDirTaken(s, d, n);
      KeptCopy(s, s', c, d, n, k);
    }
    forall g | g in c.role && g !in s.role
      ensures Fresh(s, c, g)
    {
      assert Fresh(s, s', g);
    }
    forall g | g in c.taken
      ensures g in s.taken || Fresh(s, c, g)
    {
      assert g in s.taken || Fresh(s, s', g);
    }
  }

  /** The frames a copy takes from slot `i` on: one for each table and one for each page. */
  ghost function CloneNeed(mem: Memory, d: nat, i: nat): nat
    requires d < |mem|
    decreases USER_TABLES - i
  {
    if i >= USER_TABLES then 0 else SlotNeed(mem, d, i) + CloneNeed(mem, d, i + 1)
  }

  ghost function SlotNeed(mem: Memory, d: nat, i: nat): nat
    requires d < |mem| && i < TABLES
  {
    if HasTable(mem, d, i) && Table(mem, d, i) < |mem| then 1 + |WordsLeft(mem[Table(mem, d, i)], 0)| else 0
  }

  lemma NoNeed(mem: Memory, d: nat, i: nat)
    requires d < |mem| && i < TABLES && !HasTable(mem, d, i)
    ensures SlotNeed(mem, d, i) == 0
  {
  }

  lemma SomeNeed(mem: Memory, d: nat, i: nat)
    requires d < |mem| && i < TABLES && HasTable(mem, d, i) && Table(mem, d, i) < |mem|
    ensures SlotNeed(mem, d, i) == 1 + |WordsLeft(mem[Table(mem, d, i)], 0)|
  {
  }

  // The course of clonedir when frames run out

  /** In slot `k` the new directory has frame 0 for its table, or an entry of its table has it for a page. */
  ghost predicate Spoiled(s: Space, mem: Memory, d: nat, n: nat, k: nat)
    requires d < |s.mem|
  {
    && n < |mem| && k < USER_TABLES && HasTable(s.mem, d, k) && Table(s.mem, d, k) < |s.mem| && Table(mem, n, k) < |mem|
    && (Table(mem, n, k) == 0 || exists j: nat :: SpoiledWord(s.mem[Table(s.mem, d, k)], mem[Table(mem, n, k)], j))
  }

  predicate SpoiledWord(src: Page, copy: Page, j: nat)
  {
    j < TABLES && src[j] != 0 && copy[j] != 0 && FrameOf(copy[j]) == 0
  }

  /** What is left of `a` after taking `b`, if there is as much. */
  function Left(a: nat, b: int): nat {
    if a >= b then (if b < 0 then a else a - b) else 0
  }

  /** The words written before stay. */
  lemma SpoiledWordStays(src: Page, copy: Page, copy': Page, p: nat, i: nat)
    requires p != 0 ==> forall j: nat :: j < TABLES && j != i ==> copy'[j] == copy[j]
    ensures p != 0 && (exists j: nat :: j < i && SpoiledWord(src, copy, j)) ==>
            exists j: nat :: j < i && SpoiledWord(src, copy', j)
  {
    if p != 0 && exists j: nat :: j < i && SpoiledWord(src, copy, j) {
      var j: nat :| j < i && SpoiledWord(src, copy, j);
      assert SpoiledWord(src, copy', j);
    }
  }

  lemma NeedFrom(mem: Memory, d: nat, i: nat)
    requires d < |mem| && i < USER_TABLES
    ensures CloneNeed(mem, d, i) == SlotNeed(mem, d, i) + CloneNeed(mem, d, i + 1)
  {
  }

  lemma NeedAtEnd(mem: Memory, d: nat)
    requires d < |mem|
    ensures CloneNeed(mem, d, USER_TABLES) == 0
  {
  }

  /** A copy as it should be has frame 0 nowhere. */
  lemma ClonedNotSpoiled(s: Space, s': Space, d: nat, n: nat, k: nat)
    requires FramesOk(s) && d < |s.mem| && CloneStep(s, s', d, n)
    ensures !Spoiled(s, s'.mem, d, n, k)
  {
    hide FrameOf, FlagsOf, Present;
    if k < USER_TABLES && HasTable(s.mem, d, k) && Table(s.mem, d, k) < |s.mem| {
      assert s'.mem[n][k] == s'.mem[n][k] && TableCopied(s, s', d, n, k);
      var t, t' := Table(s.mem, d, k), Table(s'.mem, n, k);
      forall j: nat
        ensures !SpoiledWord(s.mem[t], s'.mem[t'], j)
      {
        if j < TABLES {
          assert s'.mem[t'][j] == s'.mem[t'][j] && PageCopied(s, s', t, t', n, k, j);
        }
      }
    }
  }

  /** The first `i` slots of the new directory have tables where the old one has: owned frames, or frame 0. */
  ghost predicate TablesEntered(s: Space, s': Space, d: nat, n: nat, i: nat)
    requires d < |s.mem|
  {
    && n < |s'.mem|
    && forall k: nat {:trigger s'.mem[n][k]} :: k < i && k < USER_TABLES && HasTable(s.mem, d, k) ==>
         HasTable(s'.mem, n, k) && (Table(s'.mem, n, k) == 0 || Owned(s', Table(s'.mem, n, k), UserTable(n, k)))
  }

  lemma SpoiledStays(s: Space, s1: Space, s2: Space, d: nat, n: nat, i: nat, k: nat)
    requires d < |s.mem| && k < i && TablesEntered(s, s1, d, n, i) && Spoiled(s, s1.mem, d, n, k)
    requires Kept(s1, s2, {n}) && s2.mem[n][k] == s1.mem[n][k] && n in s1.role && s1.role[n].KernelPage?
    ensures Spoiled(s, s2.mem, d, n, k)
  {
    hide FrameOf, Present;
    assert s1.mem[n][k] == s1.mem[n][k];
    var t' := Table(s1.mem, n, k);
    if t' != 0 {
      assert Owned(s1, t', UserTable(n, k)) && s2.mem[t'] == s1.mem[t'];
    }
  }

  lemma AllSpoiledStay(s: Space, s1: Space, s2: Space, d: nat, n: nat, i: nat)
    requires d < |s.mem| && TablesEntered(s, s1, d, n, i) && Kept(s1, s2, {n}) && n in s1.role && s1.role[n].KernelPage?
    requires forall k: nat :: k < i && k < TABLES ==> s2.mem[n][k] == s1.mem[n][k]
    ensures (exists k: nat :: k < i && Spoiled(s, s1.mem, d, n, k)) ==>
            exists k: nat :: k < i && Spoiled(s, s2.mem, d, n, k)
  {
    hide Spoiled, Kept, TablesEntered;
    if exists k: nat :: k < i && Spoiled(s, s1.mem, d, n, k) {
      var k: nat :| k < i && Spoiled(s, s1.mem, d, n, k);
      SpoiledSlot(s, s1.mem, d, n, k);
      SpoiledStays(s, s1, s2, d, n, i, k);
    }
  }

  lemma SpoiledSlot(s: Space, mem: Memory, d: nat, n: nat, k: nat)
    requires d < |s.mem| && Spoiled(s, mem, d, n, k)
    ensures k < USER_TABLES && n < |mem|
  {
  }

  /** The copy of table `i`, with the frame `f` for the new table, leaves the other frames alone. */
  lemma KeptSlot(s: Space, b: Space, c: Space, n: nat, i: nat, f: nat, flags: nat)
    requires n < |s.mem| && i < TABLES && n in s.role && f !in s.role && f !in b.role
    requires Kept(TableEntered(s, n, i, f, flags), b, {})
    requires c == if f == 0 then b else TableDone(b, n, i, f)
    ensures Kept(s, c, {n})
    ensures |c.mem| == |s.mem| && c.mem[n] == s.mem[n][i := Entry(f, flags)]
  {
    hide Entry;
    var a := TableEntered(s, n, i, f, flags);
    forall g | g in s.role
      ensures Owned(c, g, s.role[g])
    {
      assert Owned(b, g, a.role[g]);
    }
    forall g: nat | g < |s.mem| && g in s.role && g != n
      ensures c.mem[g] == s.mem[g]
    {
      assert b.mem[g] == a.mem[g];
    }
    assert b.mem[n] == a.mem[n];
  }

  /** One more slot is entered. */
  lemma EnteredStep(s: Space, s': Space, c: Space, d: nat, n: nat, i: nat)
    requires d < |s.mem| && n < |s'.mem| == |c.mem| && i < USER_TABLES && TablesEntered(s, s', d, n, i)
             && Kept(s', c, {n})
    requires forall k: nat :: k < i ==> c.mem[n][k] == s'.mem[n][k]
    requires HasTable(s.mem, d, i) ==>
               HasTable(c.mem, n, i) && (Table(c.mem, n, i) == 0 || Owned(c, Table(c.mem, n, i), UserTable(n, i)))
    ensures TablesEntered(s, c, d, n, i + 1)
  {
    hide FrameOf, Present;
    forall k: nat | k < i + 1 && k < USER_TABLES && HasTable(s.mem, d, k)
      ensures HasTable(c.mem, n, k) && (Table(c.mem, n, k) == 0 || Owned(c, Table(c.mem, n, k), UserTable(n, k)))
    {
      if k < i {
        assert s'.mem[n][k] == s'.mem[n][k];
        if Table(s'.mem, n, k) != 0 {
          assert Owned(c, Table(s'.mem, n, k), s'.role[Table(s'.mem, n, k)]);
        }
      }
    }
  }

  /** One entry is done: `b` is the state after its page is copied to `f`, `c` the one in which that has its owner. */
  lemma WordDone(s: Space, s': Space, b: Space, c: Space, t: nat, p: nat, n: nat, index: nat, i: nat, f: nat)
    requires Kept(s, s', {}) && t < |s.mem| == |s'.mem| && i < TABLES && p < |s.mem| && p in s.taken && p !in s'.role
    requires var e := s.mem[t][i];
      && e != 0 && FrameOf(e) < |s.mem| && FrameOf(e) in s.taken && FrameOf(e) != p
      && f < |s.mem| && f !in s'.role && (f != 0 ==> Free(s', f))
      && b == s'.(taken := s'.taken + {f},
                  mem := WriteWord(s'.mem[f := s'.mem[FrameOf(e)]], p, i, Entry(f, FlagsOf(e))))
    requires forall g :: g in s'.role ==> g in s'.taken
    requires c == if f == 0 then b else b.(role := b.role[f := UserPage(n, index, i)])
    ensures Kept(s, c, {}) && |c.mem| == |s.mem| && p !in c.role
    ensures f != 0 && Cloning(s, s', t, p, n, index, i) ==> Cloning(s, c, t, p, n, index, i + 1)
    ensures f == 0 && p != 0 && Present(s.mem[t][i]) ==> SpoiledWord(s.mem[t], c.mem[p], i)
    ensures p != 0 ==> forall j: nat :: j < TABLES && j != i ==> c.mem[p][j] == s'.mem[p][j]
  {
    hide Cloning, Kept, FrameOf, FlagsOf, Entry, Present;
    var e := s.mem[t][i];
    EntryOfParts(e);
    EntryParts(f, FlagsOf(e));
    KeptTaken(s, s');
    KeptUnowned(s', c, f, p);
    KeptTwice(s, s', c, {});
    if f != 0 && Cloning(s, s', t, p, n, index, i) {
      CloningCopy(s, s', t, p, n, index, i, f);
      assert c == CopyOne(s', e, p, i, f, UserPage(n, index, i));
    }
  }

  /** One private slot is done: `b` is the state after clonetbl, `c` the one in which the table has its owner. */
  lemma SlotDone(s: Space, s': Space, b: Space, c: Space, d: nat, n: nat, i: nat, f: nat, nv: nat, bv: nat)
    requires Base(s, d, n) && d < |s.mem| && n < |s'.mem| && i < USER_TABLES && HasTable(s.mem, d, i)
    requires TablesEntered(s, s', d, n, i) && ScratchPages(s.mem, d, nv, bv)
    requires n in s'.role && f !in s'.role && f !in b.role && (f != 0 ==> Free(s', f))
    requires forall g :: g in s'.role ==> g in s'.taken && g < |s'.mem|
    requires forall g :: g in b.role ==> g in b.taken
    requires Kept(TableEntered(s', n, i, f, FlagsOf(s.mem[d][i])), b, {})
    requires c == if f == 0 then b else TableDone(b, n, i, f)
    ensures Kept(s', c, {n}) && TablesEntered(s, c, d, n, i + 1) && |c.mem| == |s'.mem|
    ensures HasTable(c.mem, n, i) && Table(c.mem, n, i) == f
    ensures forall k: nat :: k < TABLES && k != i ==> c.mem[n][k] == s'.mem[n][k]
    ensures f != 0 && DirCloning(s, s', d, n, i) &&
            Cloning(TableEntered(s', n, i, f, FlagsOf(s.mem[d][i])), b, Table(s.mem, d, i), f, n, i, TABLES) ==>
              DirCloning(s, c, d, n, i + 1)
  {
    hide Base, FrameOf, FlagsOf, Present, Entry, DirCloning, ScratchPages, Cloning, TablesEntered, Kept;
    var flags, a := FlagsOf(s.mem[d][i]), TableEntered(s', n, i, f, FlagsOf(s.mem[d][i]));
    KeptSlot(s', b, c, n, i, f, flags);
    KeptTaken(a, b);
    EntryOfParts(s.mem[d][i]);
    EntryParts(f, flags);
    EnteredStep(s, s', c, d, n, i);
    if f != 0 && DirCloning(s, s', d, n, i) && Cloning(a, b, Table(s.mem, d, i), f, n, i, TABLES) {
      DirCloningStep(s, s', b, d, n, i, f, nv, bv);
    }
  }

  /** And nobody owns frame 0. */
  lemma InvNotSpoiled(s: Space, s': Space, d: nat, n: nat, k: nat)
    requires d < |s.mem| && TablesEntered(s, s', d, n, USER_TABLES) && n in s'.dirs && Inv(s')
    ensures !Spoiled(s, s'.mem, d, n, k)
  {
    hide FrameOf, Present, OwnersExist, PagesOwned;
    if k < USER_TABLES && HasTable(s.mem, d, k) && Table(s.mem, d, k) < |s.mem| {
      assert s'.mem[n][k] == s'.mem[n][k] && HasTable(s'.mem, n, k);
      TableFrame(s', n, k);
      var t' := Table(s'.mem, n, k);
      forall j: nat
        ensures !SpoiledWord(s.mem[Table(s.mem, d, k)], s'.mem[t'], j)
      {
        if j < TABLES {
          OwnedWord(s', t', j);
        }
      }
    }
  }

  /** After `i` slots, with `had` frames free at the start and `free` now: either there were enough, and the copy is
      right so far, or frame 0 is in it. */
  ghost predicate Progress(s: Space, s': Space, d: nat, n: nat, i: nat, had: nat, free: nat)
    requires d < |s.mem|
  {
    var taken := CloneNeed(s.mem, d, 0) - CloneNeed(s.mem, d, i);
    && i <= USER_TABLES && taken >= 0 && free == Left(had, taken)
    && if had >= taken then DirCloning(s, s', d, n, i) else exists k: nat :: k < i && Spoiled(s, s'.mem, d, n, k)
  }

  lemma ProgressStart(s: Space, s': Space, d: nat, n: nat, had: nat)
    requires d < |s.mem| && DirCloning(s, s', d, n, 0)
    ensures Progress(s, s', d, n, 0, had, had)
  {
  }

  lemma ProgressStep(s: Space, s': Space, c: Space, d: nat, n: nat, i: nat, had: nat, free: nat, left: nat)
    requires d < |s.mem| && i < USER_TABLES && Progress(s, s', d, n, i, had, free)
    requires n < |s'.mem| && n < |c.mem| && n in s'.role && s'.role[n].KernelPage?
    requires TablesEntered(s, s', d, n, i) && Kept(s', c, {n})
    requires forall k: nat :: k < TABLES && k != i ==> c.mem[n][k] == s'.mem[n][k]
    requires left == Left(free, SlotNeed(s.mem, d, i))
    requires DirCloning(s, s', d, n, i) && free >= SlotNeed(s.mem, d, i) ==> DirCloning(s, c, d, n, i + 1)
    requires free < SlotNeed(s.mem, d, i) ==> Spoiled(s, c.mem, d, n, i)
    ensures Progress(s, c, d, n, i + 1, had, left)
  {
    hide DirCloning, TablesEntered, Kept, Spoiled, SlotNeed, CloneNeed;
    NeedFrom(s.mem, d, i);
    AllSpoiledStay(s, s', c, d, n, i);
  }

  lemma ProgressEnd(s: Space, s': Space, d: nat, n: nat, had: nat, free: nat)
    requires d < |s.mem| && Progress(s, s', d, n, USER_TABLES, had, free)
    ensures had >= CloneNeed(s.mem, d, 0) ==> DirCloning(s, s', d, n, USER_TABLES)
    ensures had < CloneNeed(s.mem, d, 0) ==> exists k: nat :: k < USER_TABLES && Spoiled(s, s'.mem, d, n, k)
    ensures free == Left(had, CloneNeed(s.mem, d, 0))
  {
    hide DirCloning, Spoiled;
    NeedAtEnd(s.mem, d);
  }

  lemma NothingEntered(s: Space, s': Space, d: nat, n: nat)
    requires d < |s.mem| && n < |s'.mem|
    ensures TablesEntered(s, s', d, n, 0)
  {
  }

  /** With frame 0 somewhere in it the new directory is no copy, and it breaks the invariant. */
  lemma SpoiledToTheEnd(s: Space, s': Space, d: nat, n: nat)
    requires FramesOk(s) && d < |s.mem| && n in s'.role && s'.role[n].KernelPage?
             && TablesEntered(s, s', d, n, USER_TABLES)
    requires exists k: nat :: k < USER_TABLES && Spoiled(s, s'.mem, d, n, k)
    ensures n < |s'.mem|
    ensures var c := Finished(s', n);
            && (exists k: nat :: Spoiled(s, c.mem, d, n, k)) && !CloneStep(s, c, d, n) && !Inv(c)
            && TablesEntered(s, c, d, n, USER_TABLES)
  {
    hide Spoiled, CloneStep, Inv, FrameOf, Present;
    var c := Finished(s', n);
    var e := c.(dirs := s'.dirs);
    FinishedKept(s', n);
    AllSpoiledStay(s, s', e, d, n, USER_TABLES);
    var k: nat :| k < USER_TABLES && Spoiled(s, e.mem, d, n, k);
    assert TablesEntered(s, c, d, n, USER_TABLES) by {
      forall k: nat | k < USER_TABLES && HasTable(s.mem, d, k)
        ensures HasTable(c.mem, n, k) && (Table(c.mem, n, k) == 0 || Owned(c, Table(c.mem, n, k), UserTable(n, k)))
      {
        assert s'.mem[n][k] == s'.mem[n][k];
      }
    }
    if CloneStep(s, c, d, n) {
      ClonedNotSpoiled(s, c, d, n, k);
    }
    if Inv(c) {
      InvNotSpoiled(s, c, d, n, k);
    }
  }

  lemma FinishedKept(s: Space, n: nat)
    requires n < |s.mem|
    ensures Kept(s, Finished(s, n).(dirs := s.dirs), {n})
  {
  }

  /** The page through which the new directory is written stays where it is. */
  lemma NewDirStays(s: Space, mem: Memory, d: nat, n: nat, newdir: nat)
    requires Base(s, d, n) && Mapped(s.mem, d, newdir) && Translate(s.mem, d, newdir) == n && newdir / TABLES < WINDOW
    requires |mem| == |s.mem| && forall f: nat :: f < |s.mem| && f in s.role && f != n ==> mem[f] == s.mem[f]
    ensures Mapped(mem, d, newdir) && Translate(mem, d, newdir) == n && mem[d] == s.mem[d]
  {
    hide Entry, FrameOf, Present;
    TableFrame(s, d, newdir / TABLES);
    NewDirTaken(s, d, n);
  }

  lemma KeptFrames(s: Space, s': Space, n: nat)
    requires Kept(s, s', {n})
    ensures |s'.mem| == |s.mem| && s'.dirs == s.dirs
    ensures forall f: nat :: f < |s.mem| && f in s.role && f != n ==> s'.mem[f] == s.mem[f]
  {
  }

  /** The pointers of the new directory, as far as they are set. */
  ghost predicate PointersSet(mem: Memory, d: nat, pointers: seq<nat>, i: nat)
    requires d < |mem|
  {
    && |pointers| == TABLES
    && (forall k: nat :: k < WINDOW && (k < i || USER_TABLES <= k) ==>
          pointers[k] == if HasTable(mem, d, k) then WindowPage(k) else 0)
    && forall k: nat :: i <= k < USER_TABLES ==> pointers[k] == 0
  }

  /** In the private range the new directory has tables exactly where the old one has. */
  lemma SameSlots(s: Space, s': Space, d: nat, n: nat, k: nat)
    requires d < |s.mem| && CloneStep(s, s', d, n) && k < USER_TABLES
    ensures n < |s'.mem| && HasTable(s'.mem, n, k) == HasTable(s.mem, d, k)
  {
    hide FrameOf, FlagsOf, Entry;
    assert s'.mem[n][k] == s'.mem[n][k] && TableCopied(s, s', d, n, k);
  }
}
