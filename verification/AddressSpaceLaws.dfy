/** Laws of address spaces: what single steps keep, isolation, and whole runs. */
module AddressSpaceLaws {
  import opened PageUnits
  import opened AddressSpace

  lemma TableFrame(s: Space, d: nat, i: nat)
    requires FramesOk(s) && TablesOwned(s) && d in s.dirs && i < WINDOW
    requires d < |s.mem| && HasTable(s.mem, d, i)
    ensures Table(s.mem, d, i) < |s.mem| && Table(s.mem, d, i) in s.taken
    ensures Owned(s, Table(s.mem, d, i), TableRole(d, i)) && Table(s.mem, d, i) !in s.dirs
  {
  }

  lemma AddTableKeepsFrames(s: Space, d: nat, i: nat, t: nat, flags: nat)
    requires FramesOk(s) && TablesOwned(s) && d in s.dirs && i < WINDOW && !HasTable(s.mem, d, i)
    requires Free(s, t) && flags < PAGE && Present(flags)
    ensures var s' := AddTable(s, d, i, t, flags); FramesOk(s') && TablesOwned(s')
  {
    hide Entry, FrameOf, FlagsOf, Present;
    var s' := AddTable(s, d, i, t, flags);
    EntryParts(t, flags);
    forall d', i': nat | d' in s'.dirs && i' < WINDOW && HasTable(s'.mem, d', i')
      ensures Owned(s', Table(s'.mem, d', i'), TableRole(d', i'))
    {
      if d' != d || i' != i {
        assert HasTable(s.mem, d', i') && Table(s'.mem, d', i') == Table(s.mem, d', i');
      }
    }
  }

  lemma AddTableKeepsPages(s: Space, d: nat, i: nat, t: nat, flags: nat)
    requires Inv(s) && d in s.dirs && i < WINDOW && Free(s, t)
    requires FramesOk(AddTable(s, d, i, t, flags))
    ensures var s' := AddTable(s, d, i, t, flags); PagesOwned(s') && OwnersExist(s')
  {
    hide Entry, FrameOf, FlagsOf, Present, TablesOwned;
    var s' := AddTable(s, d, i, t, flags);
    forall f, j': nat | f in s'.role && j' < TABLES
      ensures WordOwned(s', f, j')
    {
      if f != t {
        assert WordOwned(s, f, j');
      }
    }
  }

  /** A new table reads as wholly unmapped and changes no page of any directory, and keeps every frame with one
      owner. */
  lemma AddTableLaw(s: Space, d: nat, i: nat, t: nat, flags: nat)
    requires FramesOk(s) && TablesOwned(s) && d in s.dirs && i < WINDOW && !HasTable(s.mem, d, i)
    requires Free(s, t) && flags < PAGE && Present(flags)
    ensures var s' := AddTable(s, d, i, t, flags);
      && FramesOk(s') && TablesOwned(s') && (Inv(s) ==> Inv(s'))
      && HasTable(s'.mem, d, i) && Table(s'.mem, d, i) == t
      && forall d', i': nat, j': nat :: d' in s.dirs && i' < WINDOW && j' < TABLES ==>
           Pte(s'.mem, d', i', j') == Pte(s.mem, d', i', j')
  {
    hide Entry, FrameOf, FlagsOf, Present, PagesOwned, OwnersExist;
    var s' := AddTable(s, d, i, t, flags);
    AddTableKeepsFrames(s, d, i, t, flags);
    if Inv(s) {
      AddTableKeepsPages(s, d, i, t, flags);
    }
    EntryParts(t, flags);
    forall d', i': nat, j': nat | d' in s.dirs && i' < WINDOW && j' < TABLES
      ensures Pte(s'.mem, d', i', j') == Pte(s.mem, d', i', j')
    {
      if HasTable(s.mem, d', i') {
        TableFrame(s, d', i');
      }
    }
  }

  /** Emptying a slot keeps the invariant; the table's frame stays taken. */
  lemma DropTableLaw(s: Space, d: nat, i: nat)
    requires Inv(s) && d in s.dirs && d < |s.mem| && i < WINDOW
    ensures Inv(s.(mem := WriteWord(s.mem, d, i, 0)))
  {
    hide FrameOf, Entry;
    var s' := s.(mem := WriteWord(s.mem, d, i, 0));
    forall d', i': nat | d' in s'.dirs && i' < WINDOW && HasTable(s'.mem, d', i')
      ensures Owned(s', Table(s'.mem, d', i'), TableRole(d', i'))
    {
      assert HasTable(s.mem, d', i');
    }
    forall t, j: nat | t in s'.role && j < TABLES
      ensures WordOwned(s', t, j)
    {
      assert WordOwned(s, t, j);
    }
  }

  /** Two directories share a table only in the kernel's range, and then in the same slot. */
  predicate SameTable(mem: Memory, d: nat, i: nat, d': nat, i': nat)
    requires d < |mem| && d' < |mem| && i < TABLES && i' < TABLES
  {
    i' == i && HasTable(mem, d', i) && Table(mem, d', i) == Table(mem, d, i)
  }

  lemma UserTablesPrivate(s: Space, d: nat, i: nat, d': nat, i': nat)
    requires FramesOk(s) && TablesOwned(s) && d in s.dirs && d' in s.dirs && i < WINDOW && i' < WINDOW
    requires HasTable(s.mem, d, i) && HasTable(s.mem, d', i') && Table(s.mem, d, i) == Table(s.mem, d', i')
    ensures i == i' && (i < USER_TABLES ==> d == d')
  {
    TableFrame(s, d, i);
    TableFrame(s, d', i');
  }

  /** A write to one entry changes that page in the directories that share the table, and no other page anywhere. */
  lemma WriteEntryLaw(s: Space, d: nat, i: nat, j: nat, w: nat)
    requires FramesOk(s) && TablesOwned(s) && d in s.dirs && i < WINDOW && j < TABLES && HasTable(s.mem, d, i)
    ensures Table(s.mem, d, i) < |s.mem|
    ensures var mem' := WriteWord(s.mem, Table(s.mem, d, i), j, w);
      forall d', i': nat, j': nat :: d' in s.dirs && i' < WINDOW && j' < TABLES ==>
        Pte(mem', d', i', j') == if SameTable(s.mem, d, i, d', i') && j' == j then w else Pte(s.mem, d', i', j')
  {
    TableFrame(s, d, i);
    var mem' := WriteWord(s.mem, Table(s.mem, d, i), j, w);
    forall d', i': nat, j': nat | d' in s.dirs && i' < WINDOW && j' < TABLES
      ensures Pte(mem', d', i', j') == if SameTable(s.mem, d, i, d', i') && j' == j then w else Pte(s.mem, d', i', j')
    {
      if HasTable(s.mem, d', i') {
        TableFrame(s, d', i');
        if Table(s.mem, d', i') == Table(s.mem, d, i) {
          UserTablesPrivate(s, d, i, d', i');
        }
      }
    }
  }

  /** In the page maps of all directories, entry `j` of the table in slot `i` of `d` is `w` in the memory after, and
      all other pages read as before. */
  ghost predicate Rewritten(m: Memory, m': Memory, dirs: set<nat>, d: nat, i: nat, j: nat, w: nat)
  {
    && d < |m'| == |m| && i < WINDOW && j < TABLES
    && forall d', i': nat, j': nat :: d' in dirs && d' < |m| && i' < WINDOW && j' < TABLES ==>
         Pte(m', d', i', j') == if SameTable(m', d, i, d', i') && j' == j then w else Pte(m, d', i', j')
  }

  lemma RewrittenInTable(s: Space, d: nat, i: nat, j: nat, w: nat)
    requires FramesOk(s) && TablesOwned(s) && d in s.dirs && i < WINDOW && j < TABLES && HasTable(s.mem, d, i)
    ensures Table(s.mem, d, i) < |s.mem|
    ensures Rewritten(s.mem, WriteWord(s.mem, Table(s.mem, d, i), j, w), s.dirs, d, i, j, w)
  {
    hide FrameOf, Present, Pte;
    WriteEntryLaw(s, d, i, j, w);
    TableFrame(s, d, i);
  }

  /** The same with a new table, in a frame `t` that has no owner. */
  lemma RewrittenInNewTable(s: Space, d: nat, i: nat, j: nat, t: nat, flags: nat, w: nat)
    requires FramesOk(s) && TablesOwned(s) && d in s.dirs && i < WINDOW && j < TABLES && !HasTable(s.mem, d, i)
    requires t < |s.mem| && t !in s.role && flags < PAGE && Present(flags)
    ensures var m1 := WriteWord(s.mem, d, i, Entry(t, flags))[t := Zero()];
            Rewritten(s.mem, WriteWord(m1, t, j, w), s.dirs, d, i, j, w)
  {
    hide FrameOf, Present, Entry, FlagsOf;
    EntryParts(t, flags);
    var m1 := WriteWord(s.mem, d, i, Entry(t, flags))[t := Zero()];
    var m' := WriteWord(m1, t, j, w);
    forall d', i': nat, j': nat | d' in s.dirs && d' < |s.mem| && i' < WINDOW && j' < TABLES
      ensures Pte(m', d', i', j') == if SameTable(m', d, i, d', i') && j' == j then w else Pte(s.mem, d', i', j')
    {
      if HasTable(s.mem, d', i') {
        TableFrame(s, d', i');
      }
    }
  }

  /** Mapping a free frame keeps directories and tables in order. */
  lemma AddPageKeepsFrames(s: Space, d: nat, i: nat, j: nat, f: nat, flags: nat)
    requires FramesOk(s) && TablesOwned(s) && d in s.dirs && i < WINDOW && j < TABLES && HasTable(s.mem, d, i)
    requires Free(s, f)
    ensures Table(s.mem, d, i) < |s.mem| && var s' := AddPage(s, d, i, j, f, flags); FramesOk(s') && TablesOwned(s')
  {
    hide Entry, FrameOf, FlagsOf, Present;
    TableFrame(s, d, i);
    var s' := AddPage(s, d, i, j, f, flags);
    assert FramesOk(s');
    forall d', i': nat | d' in s'.dirs && i' < WINDOW && HasTable(s'.mem, d', i')
      ensures Owned(s', Table(s'.mem, d', i'), TableRole(d', i'))
    {
      assert HasTable(s.mem, d', i') && Table(s'.mem, d', i') == Table(s.mem, d', i');
    }
  }

  /** Mapping a free frame into an unmapped page keeps the invariant. */
  lemma AddPageLaw(s: Space, d: nat, i: nat, j: nat, f: nat, flags: nat)
    requires Inv(s) && d in s.dirs && i < WINDOW && j < TABLES && HasTable(s.mem, d, i)
    requires Free(s, f) && flags < PAGE && Present(flags)
    requires Pte(s.mem, d, i, j) == 0
    ensures Table(s.mem, d, i) < |s.mem| && Inv(AddPage(s, d, i, j, f, flags))
  {
    hide Entry, FrameOf, FlagsOf, Present;
    TableFrame(s, d, i);
    EntryParts(f, flags);
    var s' := AddPage(s, d, i, j, f, flags);
    AddPageKeepsFrames(s, d, i, j, f, flags);
    assert PagesOwned(s') by {
      forall t', j': nat | t' in s'.role && j' < TABLES
        ensures WordOwned(s', t', j')
      {
        if t' != f {
          assert WordOwned(s, t', j');
        }
      }
    }
  }

  /** allocpg in one step: a page that is mapped stays as it is, another one receives a free frame,
      and, if it has no table, that a free frame too. */
  ghost predicate AllocStep(s: Space, s': Space, d: nat, i: nat, j: nat, flags: nat)
    requires d < |s.mem| && i < TABLES && j < TABLES
  {
    if Pte(s.mem, d, i, j) != 0 then
      s' == s
    else if HasTable(s.mem, d, i) then
      Table(s.mem, d, i) < |s.mem| && exists f: nat :: Free(s, f) && s' == AddPage(s, d, i, j, f, flags)
    else
      exists f: nat, t: nat :: Free(s, f) && Free(s, t) && f != t && AddedBoth(s, s', d, i, j, f, t, flags)
  }

  ghost predicate AddedBoth(s: Space, s': Space, d: nat, i: nat, j: nat, f: nat, t: nat, flags: nat)
    requires d < |s.mem| && i < TABLES && j < TABLES && t < |s.mem|
  {
    var s1 := AddTable(s, d, i, t, flags);
    Table(s1.mem, d, i) < |s.mem| && s' == AddPage(s1, d, i, j, f, flags)
  }

  lemma InvFrames(s: Space)
    requires Inv(s)
    ensures FramesOk(s) && TablesOwned(s)
  {
  }

  /** An allocation keeps directories and tables in order, whoever owns the pages. */
  lemma AllocKeepsTables(s: Space, s': Space, d: nat, i: nat, j: nat, flags: nat)
    requires FramesOk(s) && TablesOwned(s) && d in s.dirs && i < WINDOW && j < TABLES && flags < PAGE && Present(flags)
    requires d < |s.mem| && AllocStep(s, s', d, i, j, flags)
    ensures FramesOk(s') && TablesOwned(s') && s'.dirs == s.dirs && |s'.mem| == |s.mem|
  {
    hide FramesOk, TablesOwned, Entry, FrameOf, Present, FlagsOf;
    if Pte(s.mem, d, i, j) == 0 {
      if HasTable(s.mem, d, i) {
        var f: nat :| Free(s, f) && s' == AddPage(s, d, i, j, f, flags);
        AddPageKeepsFrames(s, d, i, j, f, flags);
      } else {
        var f: nat, t: nat :| Free(s, f) && Free(s, t) && f != t && AddedBoth(s, s', d, i, j, f, t, flags);
        AddTableLaw(s, d, i, t, flags);
        AddPageKeepsFrames(AddTable(s, d, i, t, flags), d, i, j, f, flags);
      }
    }
  }

  function FreeFrames(s: Space): int
  {
    |s.mem| - |s.taken|
  }

  /** What allocpg makes of the last free frame where the table is missing: frame 0 becomes the table. */
  ghost function LastFrameTaken(s: Space, d: nat, i: nat, j: nat, f: nat, flags: nat): Space
    requires 0 < |s.mem| && d < |s.mem| && i < TABLES && j < TABLES
  {
    Space(WriteWord(WriteWord(s.mem, d, i, Entry(0, flags))[0 := Zero()], 0, j, Entry(f, flags)),
          s.dirs, s.taken + {f}, s.role)
  }

  /** Every outcome of allocpg. Without a free frame it does nothing. */
  ghost predicate AllocOutcome(s: Space, s': Space, d: nat, i: nat, j: nat, flags: nat)
    requires d < |s.mem| && i < TABLES && j < TABLES
  {
    if FreeFrames(s) <= 0 then
      s' == s
    else if FreeFrames(s) == 1 && !HasTable(s.mem, d, i) then
      exists f: nat :: Free(s, f) && s' == LastFrameTaken(s, d, i, j, f, flags)
    else
      AllocStep(s, s', d, i, j, flags)
  }

  /** The word, 20 bits of frame and 12 bits of flags, has these flags and a frame that was free and now is taken. */
  predicate NewEntry(s: Space, s': Space, e: nat, flags: nat)
  {
    e % 0x1000 == flags && e / 0x1000 < |s.mem| && e / 0x1000 !in s.taken && e / 0x1000 in s'.taken
  }

  lemma EntryIsNew(s: Space, s': Space, f: nat, flags: nat)
    requires Free(s, f) && f in s'.taken && flags < PAGE
    ensures NewEntry(s, s', Entry(f, flags), flags)
  {
  }

  /** Where directory `d` came to have an entry for a page or a table, it is a new one with these flags. What entries
      it had are the same. */
  ghost predicate EnteredWith(s: Space, s': Space, d: nat, flags: nat)
    requires d < |s.mem| && d < |s'.mem|
  {
    && (forall i: nat, j: nat :: i < WINDOW && j < TABLES && Pte(s'.mem, d, i, j) != Pte(s.mem, d, i, j) ==>
          Pte(s.mem, d, i, j) == 0 && NewEntry(s, s', Pte(s'.mem, d, i, j), flags))
    && forall i: nat :: i < TABLES && s'.mem[d][i] != s.mem[d][i] ==>
         !HasTable(s.mem, d, i) && NewEntry(s, s', s'.mem[d][i], flags)
  }

  /** One allocation keeps ownership and every entry that was there. A page without an entry gets one with the flags
      asked for, on a frame that was free; so does a slot without a table, on another such frame. */
  lemma AllocLaw(s: Space, s': Space, d: nat, i: nat, j: nat, flags: nat)
    requires Inv(s) && d in s.dirs && i < WINDOW && j < TABLES && flags < PAGE && Present(flags)
    requires d < |s.mem| && AllocStep(s, s', d, i, j, flags)
    ensures Inv(s') && s'.dirs == s.dirs && |s'.mem| == |s.mem| && (FreeFramesZero(s) ==> FreeFramesZero(s'))
    ensures Pte(s'.mem, d, i, j) != 0
    ensures Pte(s.mem, d, i, j) == 0 ==> NewEntry(s, s', Pte(s'.mem, d, i, j), flags)
    ensures !HasTable(s.mem, d, i) ==>
              NewEntry(s, s', s'.mem[d][i], flags) && s'.mem[d][i] / 0x1000 != Pte(s'.mem, d, i, j) / 0x1000
    ensures HasTable(s.mem, d, i) ==> s'.mem[d][i] == s.mem[d][i]
    ensures forall k: nat :: k < TABLES && k != i ==> s'.mem[d][k] == s.mem[d][k]
    ensures s.taken <= s'.taken
    ensures forall d', i': nat, j': nat :: d' in s.dirs && i' < WINDOW && j' < TABLES && Pte(s.mem, d', i', j') != 0 ==>
              Pte(s'.mem, d', i', j') == Pte(s.mem, d', i', j')
    ensures forall d', i': nat, j': nat :: d' in s.dirs && i' < WINDOW && j' < TABLES && (i' != i || j' != j) ==>
              Pte(s'.mem, d', i', j') == Pte(s.mem, d', i', j')
  {
    hide Inv, Entry, FrameOf, Present, FlagsOf, NewEntry;
    if Pte(s.mem, d, i, j) == 0 {
      if HasTable(s.mem, d, i) {
        var f: nat :| Free(s, f) && s' == AddPage(s, d, i, j, f, flags);
        AddPageLaw(s, d, i, j, f, flags);
        InvFrames(s);
        TableFrame(s, d, i);
        WriteEntryLaw(s, d, i, j, Entry(f, flags));
        EntryParts(f, flags);
        EntryIsNew(s, s', f, flags);
      } else {
        var f: nat, t: nat :| Free(s, f) && Free(s, t) && f != t && AddedBoth(s, s', d, i, j, f, t, flags);
        var s1 := AddTable(s, d, i, t, flags);
        InvFrames(s);
        AddTableLaw(s, d, i, t, flags);
        AddPageLaw(s1, d, i, j, f, flags);
        WriteEntryLaw(s1, d, i, j, Entry(f, flags));
        EntryParts(f, flags);
        EntryIsNew(s, s', f, flags);
        EntryIsNew(s, s', t, flags);
        AddedSlots(s, s', d, i, j, f, t, flags);
      }
    }
  }

  lemma AddedSlots(s: Space, s': Space, d: nat, i: nat, j: nat, f: nat, t: nat, flags: nat)
    requires FramesOk(s) && d in s.dirs && d < |s.mem| && i < TABLES && j < TABLES && Free(s, f) && Free(s, t) && f != t
    requires flags < PAGE && AddedBoth(s, s', d, i, j, f, t, flags)
    ensures |s'.mem| == |s.mem| && s'.mem[d] == s.mem[d][i := Entry(t, flags)] && s'.taken == s.taken + {f, t}
    ensures Entry(f, flags) / 0x1000 == f && Entry(t, flags) / 0x1000 == t
  {
    hide FrameOf, FlagsOf, Present;
    EntryLayout(f, flags);
    EntryLayout(t, flags);
    EntryParts(t, flags);
  }

  /** An allocation changes nothing else in its directory. */
  lemma AllocEnters(s: Space, s': Space, d: nat, i: nat, j: nat, flags: nat)
    requires Inv(s) && d in s.dirs && i < WINDOW && j < TABLES && flags < PAGE && Present(flags)
    requires d < |s.mem| && AllocStep(s, s', d, i, j, flags)
    ensures d < |s'.mem| && EnteredWith(s, s', d, flags)
  {
    hide Inv, Entry, FrameOf, Present, FlagsOf, AllocStep, NewEntry;
    AllocLaw(s, s', d, i, j, flags);
  }

  // Copies of an address space

  /** Frame `f` was free before the copy and has an owner after it. */
  ghost predicate Fresh(s: Space, s': Space, f: nat)
  {
    f < |s.mem| && f !in s.taken && f in s'.role
  }

  /** clonetbl on one entry: a mapped page gets a fresh frame with the same flags and contents,
      an unmapped one keeps whatever word the new table's frame held. */
  ghost predicate PageCopied(s: Space, s': Space, t: nat, t': nat, n: nat, i: nat, j: nat)
    requires t < |s.mem| && t' < |s.mem| == |s'.mem| && j < TABLES
  {
    var e, e' := s.mem[t][j], s'.mem[t'][j];
    if e == 0 then e' == s.mem[t'][j]
    else
      && FlagsOf(e') == FlagsOf(e) && Fresh(s, s', FrameOf(e')) && Owned(s', FrameOf(e'), UserPage(n, i, j))
      && FrameOf(e') < |s.mem| && FrameOf(e) < |s.mem| && s'.mem[FrameOf(e')] == s.mem[FrameOf(e)]
  }

  ghost predicate TableCopied(s: Space, s': Space, d: nat, n: nat, i: nat)
    requires d < |s.mem| && n < |s.mem| == |s'.mem| && i < TABLES
  {
    if !HasTable(s.mem, d, i) then s'.mem[n][i] == 0
    else
      var t, t' := Table(s.mem, d, i), Table(s'.mem, n, i);
      && HasTable(s'.mem, n, i) && FlagsOf(s'.mem[n][i]) == FlagsOf(s.mem[d][i])
      && t < |s.mem| && Fresh(s, s', t') && Owned(s', t', UserTable(n, i))
      && forall j: nat {:trigger s'.mem[t'][j]} :: j < TABLES ==> PageCopied(s, s', t, t', n, i, j)
  }

  /** The frames a copy takes are the new directory's tables, and a page for each mapped page of the old one. */
  ghost predicate FreshOwners(s: Space, s': Space, d: nat, n: nat)
    requires d < |s.mem| && n < |s'.mem|
  {
    forall f :: f in s'.role && f !in s.role ==>
      && Fresh(s, s', f)
      && match s'.role[f]
         case UserTable(dir, i) => dir == n && i < USER_TABLES && HasTable(s'.mem, n, i) && f == Table(s'.mem, n, i)
         case UserPage(dir, i, j) => dir == n && i < USER_TABLES && j < TABLES && Pte(s.mem, d, i, j) != 0
         case _ => false
  }

  ghost predicate KeepsOthers(s: Space, s': Space, n: nat)
  {
    && |s'.mem| == |s.mem|
    && (forall f :: f in s.role ==> Owned(s', f, s.role[f]))
    && (forall f: nat :: f < |s.mem| && f != n && (f in s.taken || f !in s'.taken) ==> s'.mem[f] == s.mem[f])
    && (forall f :: f in s'.taken <==> f in s.taken || Fresh(s, s', f))
  }

  /** The kernel's slots of the new directory are those of the old one, but for tables that it has got meanwhile. */
  ghost predicate KernelSlotsFrom(parent: Page, child: Page)
  {
    forall i: nat {:trigger child[i]} :: USER_TABLES <= i < WINDOW ==> child[i] == parent[i] || !Present(child[i])
  }

  /** clonedir of directory `d` into the zeroed kernel page `n`. */
  ghost predicate CloneStep(s: Space, s': Space, d: nat, n: nat)
    requires d < |s.mem|
  {
    && n < |s.mem| && n in s.role && s.role[n].KernelPage? && n !in s.dirs
    && s'.dirs == s.dirs + {n} && KeepsOthers(s, s', n) && FreshOwners(s, s', d, n)
    && s'.mem[n][WINDOW] == Entry(n, 3)
    && KernelSlotsFrom(s.mem[d], s'.mem[n])
    && forall i: nat {:trigger s'.mem[n][i]} :: i < USER_TABLES ==> TableCopied(s, s', d, n, i)
  }

  lemma CloneKeepsTables(s: Space, s': Space, d: nat, n: nat)
    requires FramesOk(s) && TablesOwned(s) && d in s.dirs && d < |s.mem| && CloneStep(s, s', d, n)
    ensures n < |s'.mem| == |s.mem| && FramesOk(s') && TablesOwned(s')
  {
    hide PageCopied, FreshOwners;
    assert FramesOk(s') by {
      forall f | f in s'.role
        ensures f in s'.taken && f < |s'.mem| && f != 0
      {
        FreshOrOld(s, s', d, n, f);
      }
    }
    forall d', i: nat | d' in s'.dirs && i < WINDOW && HasTable(s'.mem, d', i)
      ensures Owned(s', Table(s'.mem, d', i), TableRole(d', i))
    {
      if d' != n {
        assert HasTable(s.mem, d', i) && Table(s'.mem, d', i) == Table(s.mem, d', i);
      } else if i < USER_TABLES {
        assert TableCopied(s, s', d, n, i);
      } else {
        assert HasTable(s.mem, d, i) && Table(s'.mem, n, i) == Table(s.mem, d, i);
      }
    }
  }

  lemma FreshOrOld(s: Space, s': Space, d: nat, n: nat, f: nat)
    requires d < |s.mem| && n < |s'.mem| && FreshOwners(s, s', d, n) && f in s'.role
    ensures f in s.role || Fresh(s, s', f)
  {
  }

  /** The words that clonetbl leaves as they were in the frames of the new tables are zero. */
  ghost predicate CleanCopy(s: Space, s': Space, d: nat, n: nat)
    requires d < |s.mem| && n < |s'.mem|
  {
    forall i: nat, j: nat :: i < USER_TABLES && j < TABLES && HasTable(s.mem, d, i) && Pte(s.mem, d, i, j) == 0 ==>
      Table(s'.mem, n, i) < |s.mem| && s.mem[Table(s'.mem, n, i)][j] == 0
  }

  /** What a caller can look at: no free frame holds a nonzero word where one of the tables to be copied maps
      nothing. */
  ghost predicate FreeFramesClean(s: Space, d: nat)
    requires d < |s.mem|
  {
    forall f: nat, i: nat, j: nat ::
      Free(s, f) && i < USER_TABLES && j < TABLES && HasTable(s.mem, d, i) && Pte(s.mem, d, i, j) == 0 ==>
        s.mem[f][j] == 0
  }

  lemma NotZeroEntry(e: nat)
    requires Present(e)
    ensures e != 0
  {
  }

  /** The frames in a copied slot, and the copy of one entry. */
  lemma SlotCopied(s: Space, s': Space, d: nat, n: nat, i: nat, j: nat)
    requires FramesOk(s) && TablesOwned(s) && d in s.dirs && d < |s.mem| && CloneStep(s, s', d, n)
    requires i < USER_TABLES && j < TABLES && HasTable(s.mem, d, i)
    ensures n < |s'.mem| == |s.mem| && HasTable(s'.mem, n, i)
    ensures var t, t' := Table(s.mem, d, i), Table(s'.mem, n, i);
            && t < |s.mem| && Owned(s, t, TableRole(d, i))
            && t' < |s.mem| && Fresh(s, s', t') && Owned(s', t', UserTable(n, i)) && PageCopied(s, s', t, t', n, i, j)
            && Pte(s.mem, d, i, j) == s.mem[t][j] && Pte(s'.mem, n, i, j) == s'.mem[t'][j]
  {
    hide FrameOf, FlagsOf, Present, FreshOwners;
    TableFrame(s, d, i);
    assert s'.mem[n][i] == s'.mem[n][i] && TableCopied(s, s', d, n, i);
    var t, t' := Table(s.mem, d, i), Table(s'.mem, n, i);
    assert s'.mem[t'][j] == s'.mem[t'][j] && PageCopied(s, s', t, t', n, i, j);
  }

  /** Entry `j` of the copy of table `i` is in order again exactly if it was copied, or was zero before. */
  lemma NewTableWord(s: Space, s': Space, d: nat, n: nat, i: nat, j: nat)
    requires Inv(s) && d in s.dirs && d < |s.mem| && CloneStep(s, s', d, n)
    requires i < USER_TABLES && j < TABLES && HasTable(s.mem, d, i)
    ensures n < |s'.mem| == |s.mem| && Table(s'.mem, n, i) < |s.mem| && Table(s'.mem, n, i) in s'.role
    ensures WordOwned(s', Table(s'.mem, n, i), j) <==>
            (Pte(s.mem, d, i, j) == 0 ==> s.mem[Table(s'.mem, n, i)][j] == 0)
  {
    hide FrameOf, FlagsOf, Present, TablesOwned, PagesOwned, CloneStep, FramesOk;
    SlotCopied(s, s', d, n, i, j);
    var t, t' := Table(s.mem, d, i), Table(s'.mem, n, i);
    var e, e' := s.mem[t][j], s'.mem[t'][j];
    if e != 0 {
      assert WordOwned(s, t, j) by { assert s.mem[t][j] == s.mem[t][j]; OwnedWord(s, t, j); }
      EntryOfParts(e);
      EntryOfParts(e');
    } else if e' != 0 && WordOwned(s', t', j) {
      NoFreshPage(s, s', d, n, i, j, FrameOf(e'));
    }
  }

  lemma OwnedWord(s: Space, t: nat, j: nat)
    requires FramesOk(s) && PagesOwned(s) && t in s.role && t < |s.mem| && j < TABLES
    ensures WordOwned(s, t, j)
  {
    assert s.mem[t][j] == s.mem[t][j];
  }

  /** A page that the parent does not map gets no frame. */
  lemma NoFreshPage(s: Space, s': Space, d: nat, n: nat, i: nat, j: nat, f: nat)
    requires Inv(s) && d in s.dirs && d < |s.mem| && CloneStep(s, s', d, n)
    requires i < USER_TABLES && j < TABLES && Pte(s.mem, d, i, j) == 0
    ensures !Owned(s', f, UserPage(n, i, j))
  {
    hide FrameOf, FlagsOf, Present, TablesOwned, PagesOwned, TableCopied;
    if f in s.role {
      assert Owned(s', f, s.role[f]);
    }
  }

  lemma CloneKeepsPages(s: Space, s': Space, d: nat, n: nat)
    requires Inv(s) && d in s.dirs && d < |s.mem| && CloneStep(s, s', d, n) && FramesOk(s')
    requires CleanCopy(s, s', d, n)
    ensures PagesOwned(s')
  {
    hide FrameOf, FlagsOf, Present, TablesOwned;
    forall t, j: nat | t in s'.role && j < TABLES
      ensures WordOwned(s', t, j)
    {
      if t in s.role {
        assert Owned(s', t, s.role[t]);
        if t != n {
          assert s'.mem[t] == s.mem[t];
          OwnedWord(s, t, j);
        }
      } else if s'.role[t].UserTable? {
        var i := s'.role[t].i;
        assert t == Table(s'.mem, n, i) && HasTable(s'.mem, n, i);
        NotZeroEntry(s'.mem[n][i]);
        assert s'.mem[n][i] == s'.mem[n][i] && TableCopied(s, s', d, n, i);
        NewTableWord(s, s', d, n, i, j);
      }
    }
  }

  lemma CloneKeepsOwners(s: Space, s': Space, d: nat, n: nat)
    requires Inv(s) && d in s.dirs && d < |s.mem| && CloneStep(s, s', d, n)
    ensures OwnersExist(s')
  {
    hide FrameOf, FlagsOf, Present, TablesOwned, PagesOwned, TableCopied, FramesOk;
    forall f | f in s'.role && f in s.role
      ensures s'.role[f] == s.role[f]
    {
      assert Owned(s', f, s.role[f]);
    }
  }

  /** A copy keeps every frame with one owner if and only if the words it leaves alone in the new tables were zero. */
  lemma CloneLaw(s: Space, s': Space, d: nat, n: nat)
    requires Inv(s) && d in s.dirs && d < |s.mem| && CloneStep(s, s', d, n)
    ensures n < |s'.mem| && FramesOk(s') && TablesOwned(s') && OwnersExist(s')
    ensures PagesOwned(s') <==> CleanCopy(s, s', d, n)
    ensures Inv(s') <==> CleanCopy(s, s', d, n)
  {
    hide PagesOwned, OwnersExist, FramesOk, TablesOwned, CloneStep, CleanCopy, PageCopied;
    CloneKeepsTables(s, s', d, n);
    CloneKeepsOwners(s, s', d, n);
    if CleanCopy(s, s', d, n) {
      CloneKeepsPages(s, s', d, n);
    } else if PagesOwned(s') {
      OwnedCopyIsClean(s, s', d, n);
    }
  }

  lemma OwnedCopyIsClean(s: Space, s': Space, d: nat, n: nat)
    requires Inv(s) && d in s.dirs && d < |s.mem| && CloneStep(s, s', d, n) && FramesOk(s') && PagesOwned(s')
    ensures n < |s'.mem| && CleanCopy(s, s', d, n)
  {
    hide CloneStep, WordOwned, Pte;
    CloneKeepsTables(s, s', d, n);
    forall i: nat, j: nat | i < USER_TABLES && j < TABLES && HasTable(s.mem, d, i) && Pte(s.mem, d, i, j) == 0
      ensures Table(s'.mem, n, i) < |s.mem| && s.mem[Table(s'.mem, n, i)][j] == 0
    {
      NewTableWord(s, s', d, n, i, j);
      OwnedWord(s', Table(s'.mem, n, i), j);
    }
  }

  /** The same condition is what makes the child's page unmapped where the parent's is. */
  lemma UnmappedStaysIff(s: Space, s': Space, d: nat, n: nat)
    requires FramesOk(s) && TablesOwned(s) && d in s.dirs && d < |s.mem| && CloneStep(s, s', d, n)
    ensures n < |s'.mem|
    ensures CleanCopy(s, s', d, n) <==>
            forall i: nat, j: nat :: i < USER_TABLES && j < TABLES && Pte(s.mem, d, i, j) == 0 ==>
                Pte(s'.mem, n, i, j) == 0
  {
    hide PageCopied, Present, FrameOf, FlagsOf;
    forall i: nat, j: nat | i < USER_TABLES && j < TABLES && Pte(s.mem, d, i, j) == 0
      ensures HasTable(s.mem, d, i) ==>
                Table(s'.mem, n, i) < |s.mem| && Pte(s'.mem, n, i, j) == s.mem[Table(s'.mem, n, i)][j]
      ensures !HasTable(s.mem, d, i) ==> Pte(s'.mem, n, i, j) == 0
    {
      UncopiedPage(s, s', d, n, i, j);
    }
  }

  /** Where no free frame is dirty at an entry to be left alone, all copies are clean. */
  lemma CleanFramesCopyClean(s: Space, s': Space, d: nat, n: nat)
    requires FramesOk(s) && TablesOwned(s) && d in s.dirs && d < |s.mem| && CloneStep(s, s', d, n)
    ensures n < |s'.mem| && (FreeFramesClean(s, d) ==> CleanCopy(s, s', d, n))
    ensures FreeFramesZero(s) ==> FreeFramesClean(s, d) && FreeFramesZero(s')
  {
    hide FrameOf, FlagsOf, Present, TablesOwned, FreshOwners, PageCopied;
    forall i: nat | i < USER_TABLES && HasTable(s.mem, d, i)
      ensures Table(s'.mem, n, i) < |s.mem| && Free(s, Table(s'.mem, n, i))
    {
      assert s'.mem[n][i] == s'.mem[n][i] && TableCopied(s, s', d, n, i);
    }
  }

  /** What a copy promises about page `(i, j)` of the user range: the same flags and contents on a fresh frame of its
      own, and nothing of the parent changes. */
  lemma CopiedPage(s: Space, s': Space, d: nat, n: nat, i: nat, j: nat)
    requires Inv(s) && d in s.dirs && d < |s.mem| && CloneStep(s, s', d, n)
    requires i < USER_TABLES && j < TABLES
    requires Pte(s.mem, d, i, j) != 0
    ensures n < |s'.mem| && d < |s'.mem|
    ensures var e, e' := Pte(s.mem, d, i, j), Pte(s'.mem, n, i, j);
      && FlagsOf(e') == FlagsOf(e) && Present(e')
      && Fresh(s, s', FrameOf(e')) && Owned(s', FrameOf(e'), UserPage(n, i, j))
      && FrameOf(e') < |s'.mem| && FrameOf(e) < |s.mem| && s'.mem[FrameOf(e')] == s.mem[FrameOf(e)]
      && Pte(s'.mem, d, i, j) == e && s'.mem[FrameOf(e)] == s.mem[FrameOf(e)]
  {
    hide FrameOf, FlagsOf, Present;
    TableFrame(s, d, i);
    SlotCopied(s, s', d, n, i, j);
    var t, t' := Table(s.mem, d, i), Table(s'.mem, n, i);
    OwnedWord(s, t, j);
    EntryOfParts(s.mem[t][j]);
    EntryOfParts(s'.mem[t'][j]);
  }

  /** An unmapped page of the parent reads as the stale word of the frame that became the child's table. */
  lemma UncopiedPage(s: Space, s': Space, d: nat, n: nat, i: nat, j: nat)
    requires FramesOk(s) && TablesOwned(s) && d in s.dirs && d < |s.mem| && CloneStep(s, s', d, n)
    requires i < USER_TABLES && j < TABLES && Pte(s.mem, d, i, j) == 0
    ensures n < |s'.mem|
    ensures HasTable(s.mem, d, i) ==>
              Table(s'.mem, n, i) < |s.mem| && Pte(s'.mem, n, i, j) == s.mem[Table(s'.mem, n, i)][j]
    ensures !HasTable(s.mem, d, i) ==> Pte(s'.mem, n, i, j) == 0
  {
    hide FrameOf, FlagsOf, FreshOwners;
    if HasTable(s.mem, d, i) {
      SlotCopied(s, s', d, n, i, j);
    } else {
      assert s'.mem[n][i] == s'.mem[n][i] && TableCopied(s, s', d, n, i);
    }
  }

  // Isolation

  lemma PageFrame(s: Space, d: nat, i: nat, j: nat)
    requires Inv(s) && d in s.dirs && d < |s.mem| && i < WINDOW && j < TABLES && Pte(s.mem, d, i, j) != 0
    ensures Table(s.mem, d, i) < |s.mem|
    ensures Owned(s, FrameOf(Pte(s.mem, d, i, j)), PageRole(d, i, Table(s.mem, d, i), j))
    ensures FrameOf(Pte(s.mem, d, i, j)) < |s.mem|
  {
    hide FrameOf, Present;
    TableFrame(s, d, i);
    assert WordOwned(s, Table(s.mem, d, i), j);
  }

  /** No frame is mapped twice, except that directories share kernel tables. */
  lemma OneOwner(s: Space, d: nat, i: nat, j: nat, d': nat, i': nat, j': nat)
    requires Inv(s) && d in s.dirs && d' in s.dirs && d < |s.mem| && d' < |s.mem|
    requires i < WINDOW && j < TABLES && i' < WINDOW && j' < TABLES
    requires Pte(s.mem, d, i, j) != 0 && Pte(s.mem, d', i', j') != 0
    requires FrameOf(Pte(s.mem, d, i, j)) == FrameOf(Pte(s.mem, d', i', j'))
    ensures i == i' && j == j' && Table(s.mem, d, i) == Table(s.mem, d', i')
    ensures i < USER_TABLES ==> d == d'
  {
    hide FrameOf, Present, PagesOwned;
    PageFrame(s, d, i, j);
    PageFrame(s, d', i', j');
    TableFrame(s, d, i);
    TableFrame(s, d', i');
  }

  /** A program's write through directory `d`, into a page of its user range. */
  ghost predicate StoreStep(s: Space, s': Space, d: nat, i: nat, j: nat, off: nat, w: nat)
    requires d < |s.mem| && i < TABLES && j < TABLES
  {
    && i < USER_TABLES && off < TABLES && Pte(s.mem, d, i, j) != 0 && FrameOf(Pte(s.mem, d, i, j)) < |s.mem|
    && s' == s.(mem := WriteWord(s.mem, FrameOf(Pte(s.mem, d, i, j)), off, w))
  }

  /** A write through one directory's user range keeps the invariant and all mappings, and changes the contents
      of no page that any directory reads, except of the page written. */
  lemma StoreLaw(s: Space, s': Space, d: nat, i: nat, j: nat, off: nat, w: nat)
    requires Inv(s) && d in s.dirs && d < |s.mem| && i < TABLES && j < TABLES && StoreStep(s, s', d, i, j, off, w)
    ensures Inv(s') && (FreeFramesZero(s) ==> FreeFramesZero(s'))
    ensures forall d', i': nat, j': nat :: d' in s.dirs && i' < WINDOW && j' < TABLES ==>
              Pte(s'.mem, d', i', j') == Pte(s.mem, d', i', j')
    ensures forall d', i': nat, j': nat :: d' in s.dirs && i' < WINDOW && j' < TABLES && Pte(s.mem, d', i', j') != 0 ==>
              var f := FrameOf(Pte(s.mem, d', i', j'));
              f < |s.mem| && (d' != d || i' != i || j' != j ==> s'.mem[f] == s.mem[f])
  {
    hide FrameOf, FlagsOf, Present, Entry;
    PageFrame(s, d, i, j);
    var f := FrameOf(Pte(s.mem, d, i, j));
    assert Inv(s') by {
      forall d', i': nat | d' in s'.dirs && i' < WINDOW && HasTable(s'.mem, d', i')
        ensures Owned(s', Table(s'.mem, d', i'), TableRole(d', i'))
      {
        assert HasTable(s.mem, d', i');
      }
      forall t, j': nat | t in s'.role && j' < TABLES
        ensures WordOwned(s', t, j')
      {
        assert WordOwned(s, t, j');
      }
    }
    forall d', i': nat, j': nat | d' in s.dirs && i' < WINDOW && j' < TABLES
      ensures Pte(s'.mem, d', i', j') == Pte(s.mem, d', i', j')
    {
      if HasTable(s.mem, d', i') {
        TableFrame(s, d', i');
      }
    }
    forall d', i': nat, j': nat | d' in s.dirs && i' < WINDOW && j' < TABLES && Pte(s.mem, d', i', j') != 0
      ensures var g := FrameOf(Pte(s.mem, d', i', j'));
        g < |s.mem| && (d' != d || i' != i || j' != j ==> s'.mem[g] == s.mem[g])
    {
      PageFrame(s, d', i', j');
      if FrameOf(Pte(s.mem, d', i', j')) == f {
        OneOwner(s, d, i, j, d', i', j');
      }
    }
  }

  // The kernel's range

  /** Directories that agree on a kernel slot see each other's new pages there exactly when the table existed
      when they came to agree: a table added later is put into one directory only. */
  lemma KernelPageSharedIff(s: Space, s': Space, d: nat, n: nat, i: nat, j: nat, flags: nat)
    requires Inv(s) && d in s.dirs && n in s.dirs && d != n && d < |s.mem| && n < |s.mem|
    requires USER_TABLES <= i < WINDOW && j < TABLES && s.mem[n][i] == s.mem[d][i] && Pte(s.mem, d, i, j) == 0
    requires flags < PAGE && Present(flags) && AllocStep(s, s', d, i, j, flags)
    ensures n < |s'.mem| && d < |s'.mem|
    ensures Pte(s'.mem, n, i, j) == Pte(s'.mem, d, i, j) <==> HasTable(s.mem, d, i)
  {
    hide Inv, Entry, FrameOf, Present, FlagsOf;
    AllocLaw(s, s', d, i, j, flags);
    InvFrames(s);
    DirTaken(s, d);
    DirTaken(s, n);
    if HasTable(s.mem, d, i) {
      var f: nat :| Free(s, f) && s' == AddPage(s, d, i, j, f, flags);
      WriteEntryLaw(s, d, i, j, Entry(f, flags));
    } else {
      var f: nat, t: nat :| Free(s, f) && Free(s, t) && f != t && AddedBoth(s, s', d, i, j, f, t, flags);
      var s1 := AddTable(s, d, i, t, flags);
      AddTableLaw(s, d, i, t, flags);
      WriteEntryLaw(s1, d, i, j, Entry(f, flags));
      EntryParts(f, flags);
    }
  }

  /** After a copy a write to an entry of a kernel table is seen through the new directory exactly if it has got the
      slot of that table. */
  lemma KernelWriteSeenByCopy(s: Space, s': Space, d: nat, n: nat, i: nat, j: nat, w: nat)
    requires Inv(s) && d in s.dirs && d < |s.mem| && CloneStep(s, s', d, n)
    requires USER_TABLES <= i < WINDOW && j < TABLES && HasTable(s.mem, d, i)
    ensures n < |s'.mem| && d < |s'.mem| && Table(s'.mem, d, i) < |s'.mem|
    ensures var mem' := WriteWord(s'.mem, Table(s'.mem, d, i), j, w);
      Pte(mem', d, i, j) == w && Pte(mem', n, i, j) == if HasTable(s'.mem, n, i) then w else 0
  {
    hide FrameOf, Present;
    CloneKeepsTables(s, s', d, n);
    assert HasTable(s'.mem, n, i) ==> s'.mem[n][i] == s.mem[d][i];
    assert s'.mem[d] == s.mem[d] by { DirTaken(s, d); }
    WriteEntryLaw(s', d, i, j, w);
  }

  lemma DirTaken(s: Space, d: nat)
    requires Inv(s) && d in s.dirs
    ensures d in s.taken && d < |s.mem|
  {
  }

  /** Allocation writes directories and tables, but no frame that is a user page. */
  lemma AllocKeepsFrames(s: Space, s': Space, d: nat, i: nat, j: nat, flags: nat, f: nat)
    requires Inv(s) && d in s.dirs && d < |s.mem| && i < WINDOW && j < TABLES && AllocStep(s, s', d, i, j, flags)
    requires flags < PAGE
    requires f in s.role && f < |s.mem| && s.role[f].UserPage?
    ensures f < |s'.mem| && s'.mem[f] == s.mem[f]
  {
    hide FrameOf, FlagsOf, Present, Entry, PagesOwned;
    if Pte(s.mem, d, i, j) == 0 {
      if HasTable(s.mem, d, i) {
        TableFrame(s, d, i);
      } else {
        var f': nat, t: nat :| Free(s, f') && Free(s, t) && f' != t && AddedBoth(s, s', d, i, j, f', t, flags);
        EntryParts(t, flags);
      }
    }
  }

  lemma CopiedFrames(s: Space, s': Space, cur: nat, n: nat, d: nat, i: nat, j: nat)
    requires Inv(s) && cur in s.dirs && cur < |s.mem| && CloneStep(s, s', cur, n)
    requires d in s.dirs && d < |s.mem| && i < USER_TABLES && j < TABLES && Pte(s.mem, d, i, j) != 0
    ensures |s'.mem| == |s.mem| && Pte(s'.mem, d, i, j) == Pte(s.mem, d, i, j)
    ensures FrameOf(Pte(s.mem, d, i, j)) < |s.mem|
    ensures s'.mem[FrameOf(Pte(s.mem, d, i, j))] == s.mem[FrameOf(Pte(s.mem, d, i, j))]
  {
    hide FrameOf, FlagsOf, Present, Entry;
    PageFrame(s, d, i, j);
    TableFrame(s, d, i);
  }
}
