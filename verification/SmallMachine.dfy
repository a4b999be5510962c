/** Concrete memories: one on which a copy starts, and those on which copies and allocations go wrong. */
module SmallMachine {
  import opened Intervals
  import opened AddressSpace
  import opened AddressSpaceLaws
  import opened Translation
  import opened TableClone

  /** A directory in frame 1 with a kernel table in frame 2, a user table in frame 6 and a user page in frame 7. The
      kernel table maps the directory and the pages in frames 3 to 5. The frames of `rest` are free. */
  function Small(rest: seq<Page>): (s: Space)
    ensures |s.mem| == 8 + |rest|
  {
    var dir: Page := Zero()[1 := Entry(6, 7)][864 := Entry(2, 3)][WINDOW := Entry(1, 3)];
    var kernelTable: Page := Zero()[0 := Entry(1, 3)][1 := Entry(3, 3)][2 := Entry(4, 3)][3 := Entry(5, 3)];
    var userTable: Page := Zero()[9 := Entry(7, 7)];
    var userPage: Page := Zero()[0 := 42];
    Space([Zero(), dir, kernelTable, Zero(), Zero(), Zero(), userTable, userPage] + rest,
          {1}, {0, 1, 2, 3, 4, 5, 6, 7},
          map[1 := KernelPage(2, 0), 2 := KernelTable(864), 3 := KernelPage(2, 1), 4 := KernelPage(2, 2),
              5 := KernelPage(2, 3), 6 := UserTable(1, 1), 7 := UserPage(1, 1, 9)])
  }

  lemma SmallFrames(rest: seq<Page>)
    ensures FramesOk(Small(rest)) && TablesOwned(Small(rest)) && OwnersExist(Small(rest))
  {
  }

  lemma SmallPages(rest: seq<Page>)
    requires FramesOk(Small(rest))
    ensures PagesOwned(Small(rest))
  {
    var s := Small(rest);
    forall t, j: nat | t in s.role && j < TABLES
      ensures WordOwned(s, t, j)
    {
    }
  }

  lemma SmallMappings(rest: seq<Page>)
    ensures var s := Small(rest);
            && Mapped(s.mem, 1, 864 * TABLES + 1) && Translate(s.mem, 1, 864 * TABLES + 1) == 3
            && Mapped(s.mem, 1, 864 * TABLES + 2) && Mapped(s.mem, 1, 864 * TABLES + 3)
            && Pte(s.mem, 1, 1, 9) == Entry(7, 7) && Pte(s.mem, 1, 1, 0) == 0 && !HasTable(s.mem, 1, 5)
  {
  }

  /** What clonedir needs of the memory can be had: the new directory at the second page of kernel table 864 and the
      scratch pages at the third and fourth. */
  lemma CopyCanStart(rest: seq<Page>)
    ensures var s := Small(rest);
            && Inv(s) && Base(s, 1, 3)
            && Mapped(s.mem, 1, 864 * TABLES + 1) && Translate(s.mem, 1, 864 * TABLES + 1) == 3
            && ScratchPages(s.mem, 1, 864 * TABLES + 2, 864 * TABLES + 3)
            && Pte(s.mem, 1, 1, 9) == Entry(7, 7)
  {
    hide FramesOk, TablesOwned, PagesOwned, OwnersExist, Mapped, Translate, Pte;
    SmallFrames(rest);
    SmallPages(rest);
    SmallMappings(rest);
  }

  // A copy into a frame that was written before

  /** The first free frame holds, in its first word, an entry for the parent's user page. */
  function Stale(): Space {
    Small([Zero()[0 := Entry(7, 7)], Zero(), Zero()])
  }

  /** The copy that takes frame 8 for the table and frame 9 for the page. */
  function StaleCopy(): (s: Space)
    ensures |s.mem| == 11
  {
    var s := Stale();
    var child: Page := Zero()[1 := Entry(8, 7)][864 := Entry(2, 3)][WINDOW := Entry(3, 3)];
    var table: Page := Zero()[0 := Entry(7, 7)][9 := Entry(9, 7)];
    Space(s.mem[3 := child][8 := table][9 := s.mem[7]], {1, 3}, s.taken + {8, 9},
          s.role[8 := UserTable(3, 1)][9 := UserPage(3, 1, 9)])
  }

  lemma StaleTableCopied(i: nat)
    requires i < USER_TABLES
    ensures TableCopied(Stale(), StaleCopy(), 1, 3, i)
  {
    var s, s' := Stale(), StaleCopy();
    if i == 1 {
      forall j: nat | j < TABLES
        ensures PageCopied(s, s', 6, 8, 3, 1, j)
      {
      }
    }
  }

  lemma StaleOwners()
    ensures KeepsOthers(Stale(), StaleCopy(), 3) && FreshOwners(Stale(), StaleCopy(), 1, 3)
  {
  }

  lemma StaleDirectory()
    ensures var s, s' := Stale(), StaleCopy();
            && 3 in s.role && s.role[3].KernelPage? && 3 !in s.dirs && s'.dirs == s.dirs + {3}
                && s'.mem[3][WINDOW] == Entry(3, 3)
            && forall i: nat :: USER_TABLES <= i < WINDOW ==> s'.mem[3][i] == s.mem[1][i]
  {
  }

  lemma StaleStep()
    ensures CloneStep(Stale(), StaleCopy(), 1, 3)
  {
    hide TableCopied, KeepsOthers, FreshOwners, Stale, StaleCopy;
    StaleIsSmall();
    StaleOwners();
    StaleDirectory();
    forall i: nat | i < USER_TABLES
      ensures TableCopied(Stale(), StaleCopy(), 1, 3, i)
    {
      StaleTableCopied(i);
    }
  }

  lemma StaleEntries()
    ensures var s, s' := Stale(), StaleCopy();
            && Pte(s.mem, 1, 1, 0) == 0 && Pte(s'.mem, 3, 1, 0) == Pte(s'.mem, 1, 1, 9) == Entry(7, 7)
            && HasTable(s.mem, 1, 1) && Table(s'.mem, 3, 1) == 8 && s.mem[8][0] != 0
            && FrameOf(Entry(7, 7)) == 7
  {
  }

  /** From a memory in perfect order, but with a stale word in a free frame, the copy maps the user page of the
      parent into the child, where the parent maps nothing. The invariant is gone, and a store by the child changes
      the parent's page. */
  lemma StaleCopySharesAPage(off: nat, w: nat)
    requires off < TABLES
    ensures Inv(Stale()) && CloneStep(Stale(), StaleCopy(), 1, 3) && !CleanCopy(Stale(), StaleCopy(), 1, 3)
            && !Inv(StaleCopy())
    ensures Pte(Stale().mem, 1, 1, 0) == 0 && Pte(StaleCopy().mem, 3, 1, 0) == Pte(StaleCopy().mem, 1, 1, 9) == Entry(7,
            7)
    ensures var s' := StaleCopy();
            var s'' := s'.(mem := WriteWord(s'.mem, 7, off, w));
            && StoreStep(s', s'', 3, 1, 0, off, w)
            && Pte(s''.mem, 1, 1, 9) == Entry(7, 7) && s''.mem[7][off] == w
  {
    hide CloneStep, Inv, Stale, Pte;
    CopyCanStart([Zero()[0 := Entry(7, 7)], Zero(), Zero()]);
    StaleIsSmall();
    StaleStep();
    StaleEntries();
    CloneLaw(Stale(), StaleCopy(), 1, 3);
    StaleStore(off, w);
  }

  lemma StaleIsSmall()
    ensures Stale() == Small([Zero()[0 := Entry(7, 7)], Zero(), Zero()]) && 1 in Stale().dirs && |Stale().mem| == 11
  {
  }

  lemma StaleStore(off: nat, w: nat)
    requires off < TABLES
    ensures var s' := StaleCopy();
            var s'' := s'.(mem := WriteWord(s'.mem, 7, off, w));
            StoreStep(s', s'', 3, 1, 0, off, w) && Pte(s''.mem, 1, 1, 9) == Entry(7, 7) && s''.mem[7][off] == w
  {
  }

  // Running out of frames

  lemma SlotTables(rest: seq<Page>, i: nat)
    requires i < USER_TABLES
    ensures var s := Small(rest);
            && (HasTable(s.mem, 1, i) <==> i == 1) && Table(s.mem, 1, 1) == 6 && s.mem[6] == Zero()[9 := Entry(7, 7)]
  {
  }

  lemma OneWord(w: nat)
    requires w != 0
    ensures WordsLeft(Zero()[9 := w], 0) == {9}
  {
  }

  lemma SlotsNeed(rest: seq<Page>, i: nat)
    requires i < USER_TABLES
    ensures SlotNeed(Small(rest).mem, 1, i) == if i == 1 then 2 else 0
  {
    hide Small, HasTable, Table, WordsLeft;
    SlotTables(rest, i);
    OneWord(Entry(7, 7));
  }

  lemma {:induction false} NeedBehind(rest: seq<Page>, i: nat)
    requires 1 < i <= USER_TABLES
    ensures CloneNeed(Small(rest).mem, 1, i) == 0
    decreases USER_TABLES - i
  {
    if i < USER_TABLES {
      SlotsNeed(rest, i);
      NeedBehind(rest, i + 1);
    }
  }

  /** A copy of this memory takes a frame for the table and one for the page, so one free frame is not enough. */
  lemma CopyNeedsTwoFrames(rest: seq<Page>)
    ensures var s := Small(rest);
            CloneNeed(s.mem, 1, 0) == 2 && (|s.mem| - |s.taken| >= CloneNeed(s.mem, 1, 0) <==> |rest| >= 2)
  {
    hide SlotNeed;
    SlotsNeed(rest, 0);
    SlotsNeed(rest, 1);
    NeedBehind(rest, 2);
    NeedFrom(Small(rest).mem, 1, 0);
    NeedFrom(Small(rest).mem, 1, 1);
    TakenSize(rest);
  }

  lemma TakenSize(rest: seq<Page>)
    ensures Small(rest).taken == Range(8) && |Small(rest).taken| == 8
  {
  }

  lemma OneLeft()
    ensures Free(Small([Zero()]), 8) && forall f: nat :: Free(Small([Zero()]), f) ==> f == 8
  {
  }

  /** With one frame left nothing can be allocated in a slot without a table, although the frame allocator still
      gives one. */
  lemma LastFrameIsNotEnough(s': Space, j: nat, flags: nat)
    requires j < TABLES
    ensures var s := Small([Zero()]);
            && Inv(s) && Free(s, 8) && |s.mem| - |s.taken| == 1 && !HasTable(s.mem, 1, 5)
            && !AllocStep(s, s', 1, 5, j, flags)
  {
    hide Small, Inv, Mapped, Translate, AddedBoth, Free, HasTable, ScratchPages, Base;
    CopyCanStart([Zero()]);
    SmallMappings([Zero()]);
    TakenSize([Zero()]);
    OneLeft();
  }
}
