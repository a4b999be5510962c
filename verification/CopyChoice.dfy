/** Copies for every choice of frames: which memories are safe to copy, whatever frames the allocator picks. */
module CopyChoice {
  import opened Intervals
  import opened AddressSpace
  import opened AddressSpaceLaws
  import opened TableClone

  /** What is taken is there, and what is owned is taken. */
  ghost predicate Orderly(s: Space)
  {
    s.taken <= Range(|s.mem|) && forall f :: f in s.role ==> f in s.taken && f < |s.mem|
  }

  lemma PickFree(s: Space, reserve: set<nat>) returns (f: nat)
    requires Orderly(s) && reserve <= Range(|s.mem|) && FreeFrames(s) > |reserve|
    ensures Free(s, f) && f !in reserve && f !in s.role
  {
    assert |s.taken + reserve| <= |s.taken| + |reserve|;
    if forall g: nat :: g < |s.mem| ==> g in s.taken + reserve {
      SubsetSize(Range(|s.mem|), s.taken + reserve);
    }
    f :| f < |s.mem| && f !in s.taken + reserve;
  }

  /** One entry is copied, or passed over, without the frames in `reserve`. */
  lemma BuildEntry(a: Space, b: Space, d: nat, index: nat, p: nat, nv: nat, bv: nat, dir: nat, k: nat,
                   reserve: set<nat>)
    returns (c: Space)
    requires CloneReady(a, d, index, p, nv, bv) && d < |a.mem| && index < TABLES && Table(a.mem, d, index) < |a.mem|
             && k < TABLES
    requires Cloning(a, b, Table(a.mem, d, index), p, dir, index, k) && Orderly(b) && p !in b.role
    requires reserve <= Range(|a.mem|) && reserve !! b.taken
    requires a.mem[Table(a.mem, d, index)][k] != 0 ==> FreeFrames(b) > |reserve|
    ensures Cloning(a, c, Table(a.mem, d, index), p, dir, index, k + 1) && Orderly(c) && p !in c.role
            && reserve !! c.taken
    ensures FreeFrames(c) == FreeFrames(b) - if a.mem[Table(a.mem, d, index)][k] == 0 then 0 else 1
  {
    hide CloneReady, Cloning, FrameOf, FlagsOf, Present, Entry, Orderly, FreeFrames;
    var t := Table(a.mem, d, index);
    CloningSize(a, b, t, p, dir, index, k);
    if a.mem[t][k] == 0 {
      CloningSkip(a, b, t, p, dir, index, k);
      return b;
    }
    ReadyParts(a, d, index, p, nv, bv);
    WordFacts(a, d, index, p, nv, bv, k);
    var f := PickFree(b, reserve);
    c := CopyOne(b, a.mem[t][k], p, k, f, UserPage(dir, index, k));
    CloningCopy(a, b, t, p, dir, index, k, f);
    OneTaken(b, c, f);
  }

  /** Any table can be copied entry by entry, without the frames in `reserve`. */
  lemma {:induction false} BuildTable(a: Space, b: Space, d: nat, index: nat, p: nat, nv: nat, bv: nat, dir: nat,
                                      k: nat, reserve: set<nat>) returns (c: Space)
    requires CloneReady(a, d, index, p, nv, bv) && d < |a.mem| && index < TABLES && Table(a.mem, d, index) < |a.mem|
             && k <= TABLES
    requires Cloning(a, b, Table(a.mem, d, index), p, dir, index, k) && Orderly(b) && p !in b.role
    requires reserve <= Range(|a.mem|) && reserve !! b.taken
    requires FreeFrames(b) >= |WordsLeft(a.mem[Table(a.mem, d, index)], k)| + |reserve|
    ensures Cloning(a, c, Table(a.mem, d, index), p, dir, index, TABLES) && Orderly(c) && p !in c.role
            && reserve !! c.taken
    ensures FreeFrames(c) == FreeFrames(b) - |WordsLeft(a.mem[Table(a.mem, d, index)], k)|
    decreases TABLES - k
  {
    hide CloneReady, Cloning, WordsLeft, FrameOf, Orderly, FreeFrames;
    var t := Table(a.mem, d, index);
    if k == TABLES {
      WordsEnd(a.mem[t]);
      return b;
    }
    WordsStep(a.mem[t], k);
    var e := BuildEntry(a, b, d, index, p, nv, bv, dir, k, reserve);
    c := BuildTable(a, e, d, index, p, nv, bv, dir, k + 1, reserve);
  }

  lemma CloningSize(s: Space, s': Space, t: nat, p: nat, dir: nat, i: nat, n: nat)
    requires Cloning(s, s', t, p, dir, i, n)
    ensures |s'.mem| == |s.mem| && s.taken <= s'.taken && s'.dirs == s.dirs
  {
  }

  lemma OneTaken(s: Space, s': Space, f: nat)
    requires Orderly(s) && Free(s, f) && |s'.mem| == |s.mem| && s'.taken == s.taken + {f}
             && s'.role.Keys <= s.role.Keys + {f}
    ensures Orderly(s') && FreeFrames(s') == FreeFrames(s) - 1
  {
  }

  /** One table is copied into the frame `f`, without the frames in `reserve`. */
  lemma BuildSlot(s: Space, s': Space, d: nat, n: nat, i: nat, f: nat, nv: nat, bv: nat, reserve: set<nat>)
    returns (c: Space)
    requires Base(s, d, n) && ScratchPages(s.mem, d, nv, bv) && i < USER_TABLES && DirCloning(s, s', d, n, i)
             && Orderly(s')
    requires d < |s.mem| && HasTable(s.mem, d, i) && Table(s.mem, d, i) < |s.mem| && Free(s', f) && f !in s'.role
    requires f !in reserve && reserve <= Range(|s.mem|) && reserve !! s'.taken
    requires n < |s.mem| == |s'.mem|
    requires FreeFrames(s') >= 1 + |WordsLeft(s.mem[Table(s.mem, d, i)], 0)| + |reserve|
    ensures DirCloning(s, c, d, n, i + 1) && Orderly(c) && reserve !! c.taken && |c.mem| == |s.mem|
    ensures FreeFrames(c) == FreeFrames(s') - 1 - |WordsLeft(s.mem[Table(s.mem, d, i)], 0)|
    ensures Table(c.mem, n, i) == f && forall k: nat :: k < TABLES && k != i ==> c.mem[n][k] == s'.mem[n][k]
  {
    hide Base, ScratchPages, DirCloning, WordsLeft, FrameOf, FlagsOf, Present, Entry, CloneReady, Cloning, Kept,
      FreeFrames;
    var flags := FlagsOf(s.mem[d][i]);
    DirKept(s, s', d, n, i);
    var a := TableEntered(s', n, i, f, flags);
    TableIsReady(s, s', d, n, i, f, nv, bv);
    CloningStart(a, Table(s.mem, d, i), f, n, i);
    OneTaken(s', a, f);
    var b := BuildTable(a, a, d, i, f, nv, bv, n, 0, reserve);
    CloningSize(a, b, Table(s.mem, d, i), f, n, i, TABLES);
    DirCloningStep(s, s', b, d, n, i, f, nv, bv);
    DirFrameStays(s, s', a, b, d, n, i, f);
    EntryOfParts(s.mem[d][i]);
    EntryParts(f, flags);
    c := TableDone(b, n, i, f);
    SameCount(b, c);
  }

  /** Any address space can be copied when there are frames enough, and frame `f0` can be the new table in slot `i0`. */
  lemma {:induction false} BuildDirectory(s: Space, s': Space, d: nat, n: nat, i: nat, nv: nat, bv: nat, i0: nat,
                                          f0: nat)
    returns (c: Space)
    requires Base(s, d, n) && ScratchPages(s.mem, d, nv, bv) && i <= USER_TABLES && DirCloning(s, s', d, n, i)
             && Orderly(s')
    requires d < |s.mem| && n < |s.mem| == |s'.mem|
    requires i0 < USER_TABLES && HasTable(s.mem, d, i0) && Free(s, f0)
    requires if i <= i0 then f0 !in s'.taken else Table(s'.mem, n, i0) == f0
    requires FreeFrames(s') >= CloneNeed(s.mem, d, i)
    ensures DirCloning(s, c, d, n, USER_TABLES) && Orderly(c) && |c.mem| == |s.mem| && Table(c.mem, n, i0) == f0
    decreases USER_TABLES - i
  {
    hide Base, ScratchPages, DirCloning, CloneNeed, SlotNeed, WordsLeft, FrameOf, Orderly, FreeFrames, Free;
    if i == USER_TABLES {
      return s';
    }
    NeedFrom(s.mem, d, i);
    if !HasTable(s.mem, d, i) {
      NoNeed(s.mem, d, i);
      DirCloningSkip(s, s', d, n, i);
      c := BuildDirectory(s, s', d, n, i + 1, nv, bv, i0, f0);
    } else {
      TableApart(s, d, n, i);
      TableApart(s, d, n, i0);
      SomeNeed(s.mem, d, i);
      var reserve: set<nat> := if i < i0 then {f0} else {};
      if i < i0 {
        NeedOfSlot(s.mem, d, i + 1, i0);
      }
      FreeFrame(s, f0);
      var f := f0;
      if i == i0 {
        FreeStill(s, s', f0);
      } else {
        f := PickFree(s', reserve);
      }
      var e := BuildSlot(s, s', d, n, i, f, nv, bv, reserve);
      c := BuildDirectory(s, e, d, n, i + 1, nv, bv, i0, f0);
    }
  }

  lemma FreeFrame(s: Space, f: nat)
    requires Free(s, f)
    ensures f < |s.mem|
  {
  }

  lemma FreeStill(s: Space, s': Space, f: nat)
    requires Free(s, f) && |s'.mem| == |s.mem| && f !in s'.taken && Orderly(s')
    ensures Free(s', f) && f !in s'.role
  {
  }

  lemma DirFrameStays(s: Space, s': Space, a: Space, b: Space, d: nat, n: nat, i: nat, f: nat)
    requires Base(s, d, n) && DirCloning(s, s', d, n, i) && Free(s', f) && i < USER_TABLES && n < |s'.mem|
    requires d < |s.mem| && Table(s.mem, d, i) < |a.mem|
    requires a == TableEntered(s', n, i, f, FlagsOf(s.mem[d][i])) && Cloning(a, b, Table(s.mem, d, i), f, n, i, TABLES)
    ensures b.mem[n] == s'.mem[n][i := Entry(f, FlagsOf(s.mem[d][i]))]
    ensures f in b.taken && f < |b.mem|
  {
    NewDirTaken(s, d, n);
  }

  lemma {:induction false} NeedOfSlot(mem: Memory, d: nat, i: nat, i0: nat)
    requires d < |mem| && i <= i0 < USER_TABLES && HasTable(mem, d, i0) && Table(mem, d, i0) < |mem|
    ensures CloneNeed(mem, d, i) >= 1
    decreases i0 - i
  {
    if i < i0 {
      NeedOfSlot(mem, d, i + 1, i0);
    }
  }

  /** The kernel's slots of a directory, and nothing else. */
  function KernelSlots(dir: Page): (p: Page) {
    seq(1024, k requires 0 <= k < 1024 => if USER_TABLES <= k < WINDOW then dir[k] else 0)
  }

  /** There is a copy in which frame `f0` is the table in slot `i0`. */
  lemma CopyInto(s: Space, d: nat, n: nat, nv: nat, bv: nat, i0: nat, f0: nat) returns (s': Space)
    requires Base(s, d, n) && ScratchPages(s.mem, d, nv, bv) && s.taken <= Range(|s.mem|)
    requires d < |s.mem| && FreeFrames(s) >= CloneNeed(s.mem, d, 0)
    requires i0 < USER_TABLES && HasTable(s.mem, d, i0) && Free(s, f0)
    ensures CloneStep(s, s', d, n) && n < |s'.mem| && Table(s'.mem, n, i0) == f0
  {
    hide Base, ScratchPages, DirCloning, CloneNeed, FrameOf, CloneStep, FreeFrames;
    var page := KernelSlots(s.mem[d]);
    NewDirTaken(s, d, n);
    BaseOrderly(s, d, n);
    DirCloningStart(s, d, n, page);
    var start := WithDir(s, n, page);
    SameCount(s, start);
    var c := BuildDirectory(s, start, d, n, 0, nv, bv, i0, f0);
    DirCloningEnd(s, c, d, n, USER_TABLES);
    s' := Finished(c, n);
  }

  lemma BaseOrderly(s: Space, d: nat, n: nat)
    requires Base(s, d, n) && s.taken <= Range(|s.mem|)
    ensures Orderly(s) && n < |s.mem| && Inv(s) && d in s.dirs
  {
  }

  lemma SameCount(s: Space, s': Space)
    requires |s'.mem| == |s.mem| && s'.taken == s.taken
    ensures FreeFrames(s') == FreeFrames(s)
  {
  }

  /** Whatever frames the allocator picks, a copy keeps every frame with one owner. */
  ghost predicate AnyCopyOwned(s: Space, d: nat, n: nat)
    requires d < |s.mem|
  {
    forall s' :: CloneStep(s, s', d, n) ==> Inv(s')
  }

  /** A memory is safe to copy, whatever frames the allocator picks, if and only if no free frame holds a nonzero
      word where a table to be copied maps nothing. */
  lemma AnyCopyOwnedIff(s: Space, d: nat, n: nat, nv: nat, bv: nat)
    requires Base(s, d, n) && ScratchPages(s.mem, d, nv, bv) && s.taken <= Range(|s.mem|)
    requires d < |s.mem| && FreeFrames(s) >= CloneNeed(s.mem, d, 0)
    ensures AnyCopyOwned(s, d, n) <==> FreeFramesClean(s, d)
  {
    hide Base, ScratchPages, CloneNeed, CloneStep, Inv, FreeFrames, Pte, HasTable, Table;
    BaseOrderly(s, d, n);
    if FreeFramesClean(s, d) {
      forall s' | CloneStep(s, s', d, n)
        ensures Inv(s')
      {
        CloneLaw(s, s', d, n);
        InvFrames(s);
        CleanFramesCopyClean(s, s', d, n);
      }
    } else {
      var f: nat, i: nat, j: nat :| Free(s, f) && i < USER_TABLES && j < TABLES && HasTable(s.mem, d, i)
          && Pte(s.mem, d, i, j) == 0
                                    && s.mem[f][j] != 0;
      var s' := CopyInto(s, d, n, nv, bv, i, f);
      CloneLaw(s, s', d, n);
      assert !CleanCopy(s, s', d, n);
    }
  }
}
