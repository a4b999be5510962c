/** Runs over many address spaces: allocations, copies, switches and writes, with all their outcomes. */
module AddressSpaceRuns {
  import opened PageUnits
  import opened AddressSpace
  import opened AddressSpaceLaws
  import opened TableClone

  /** clonedir without frames enough: the new directory has frame 0 in it, and the frames owned before are as they
      were. */
  ghost predicate CloneShort(s: Space, s': Space, d: nat, n: nat)
    requires d < |s.mem|
  {
    && n < |s.mem| == |s'.mem| && n in s.role && s.role[n].KernelPage? && n !in s.dirs && s'.dirs == s.dirs + {n}
    && (forall f :: f in s.role ==> Owned(s', f, s.role[f]))
    && (forall f: nat {:trigger s'.mem[f]} :: f < |s.mem| && f in s.role && f != n ==> s'.mem[f] == s.mem[f])
    && TablesEntered(s, s', d, n, USER_TABLES) && exists k: nat :: Spoiled(s, s'.mem, d, n, k)
  }

  /** Every outcome of clonedir. */
  ghost predicate CloneOutcome(s: Space, s': Space, d: nat, n: nat)
    requires d < |s.mem|
  {
    if FreeFrames(s) >= CloneNeed(s.mem, d, 0) then CloneStep(s, s', d, n) else CloneShort(s, s', d, n)
  }

  datatype Op =
    | AllocPage(i: nat, j: nat, flags: nat)
    | CloneDir(n: nat)
    | SwapDir(d: nat)
    | Store(i: nat, j: nat, off: nat, w: nat)

  /** One operation with directory `cur` current. */
  ghost predicate Step(s: Space, cur: nat, op: Op, s': Space, cur': nat)
  {
    && cur in s.dirs && cur < |s.mem|
    && match op
       case AllocPage(i, j, flags) =>
         i < WINDOW && j < TABLES && flags < PAGE && Present(flags) && cur' == cur
             && AllocOutcome(s, s', cur, i, j, flags)
       case CloneDir(n) => cur' == cur && CloneOutcome(s, s', cur, n)
       case SwapDir(d) => s' == s && cur' == d && d in s.dirs
       case Store(i, j, off, w) => i < TABLES && j < TABLES && cur' == cur && StoreStep(s, s', cur, i, j, off, w)
  }

  ghost predicate Run(spaces: seq<Space>, curs: seq<nat>, ops: seq<Op>)
  {
    && |spaces| == |ops| + 1 && |curs| == |ops| + 1
    && forall k :: 0 <= k < |ops| ==> Step(spaces[k], curs[k], ops[k], spaces[k + 1], curs[k + 1])
  }

  /** The operation does not take frame 0 for a free one. A page needs its table or a second free frame, unless there
      is none at all and nothing happens; a copy needs what it counts. */
  ghost predicate FindsFrames(s: Space, cur: nat, op: Op)
  {
    match op
    case AllocPage(i, _, _) => cur < |s.mem| && i < WINDOW && (HasTable(s.mem, cur, i) || FreeFrames(s) != 1)
    case CloneDir(_) => cur < |s.mem| && FreeFrames(s) >= CloneNeed(s.mem, cur, 0)
    case _ => true
  }

  /** If the operation is a copy, it is a clean one. */
  ghost predicate CleanStep(s: Space, cur: nat, op: Op, s': Space)
  {
    op.CloneDir? ==> cur < |s.mem| && op.n < |s'.mem| && CleanCopy(s, s', cur, op.n)
  }

  lemma LastFrameBreaks(s: Space, d: nat, i: nat, j: nat, f: nat, flags: nat)
    requires FramesOk(s) && d in s.dirs && d < |s.mem| && i < WINDOW && j < TABLES && flags < PAGE && Present(flags)
    ensures !Inv(LastFrameTaken(s, d, i, j, f, flags)) && |LastFrameTaken(s, d, i, j, f, flags).mem| == |s.mem|
  {
    hide Entry, FrameOf, Present, PagesOwned, OwnersExist;
    EntryParts(0, flags);
    var s' := LastFrameTaken(s, d, i, j, f, flags);
    assert d in s.role && d != 0;
    assert HasTable(s'.mem, d, i) && Table(s'.mem, d, i) == 0;
  }

  lemma ShortBreaks(s: Space, s': Space, d: nat, n: nat)
    requires d < |s.mem| && CloneShort(s, s', d, n)
    ensures !Inv(s') && s.dirs <= s'.dirs && |s'.mem| == |s.mem|
  {
    hide Inv, Spoiled, TablesEntered;
    var k: nat :| Spoiled(s, s'.mem, d, n, k);
    if Inv(s') {
      InvNotSpoiled(s, s', d, n, k);
    }
  }

  /** One operation keeps one owner for each frame if and only if it finds its frames and, if it copies, copies
      cleanly. */
  lemma StepKeepsInv(s: Space, cur: nat, op: Op, s': Space, cur': nat)
    requires Inv(s) && Step(s, cur, op, s', cur')
    ensures s.dirs <= s'.dirs && |s'.mem| == |s.mem|
    ensures Inv(s') <==> FindsFrames(s, cur, op) && CleanStep(s, cur, op, s')
    ensures FreeFramesZero(s) && FindsFrames(s, cur, op) ==> FreeFramesZero(s') && CleanStep(s, cur, op, s')
  {
    hide Inv, CleanCopy, FreeFramesZero, LastFrameTaken, CloneStep, CloneShort, CloneNeed, AllocStep, StoreStep,
      HasTable, FreeFrames;
    match op
    case AllocPage(i, j, flags) =>
      if FreeFrames(s) == 1 && !HasTable(s.mem, cur, i) {
        var f: nat :| Free(s, f) && s' == LastFrameTaken(s, cur, i, j, f, flags);
        InvFrames(s);
        LastFrameBreaks(s, cur, i, j, f, flags);
        assert s'.dirs == s.dirs by { LastFrameDirs(s, cur, i, j, f, flags); }
      } else if FreeFrames(s) > 0 {
        AllocLaw(s, s', cur, i, j, flags);
      }
    case CloneDir(n) =>
      if FindsFrames(s, cur, op) {
        CloneLaw(s, s', cur, n);
        InvFrames(s);
        CleanFramesCopyClean(s, s', cur, n);
        CloneDirs(s, s', cur, n);
      } else {
        ShortBreaks(s, s', cur, n);
      }
    case SwapDir(d) =>
    case Store(i, j, off, w) =>
      StoreLaw(s, s', cur, i, j, off, w);
      StoreDirs(s, s', cur, i, j, off, w);
  }

  lemma LastFrameDirs(s: Space, d: nat, i: nat, j: nat, f: nat, flags: nat)
    requires d < |s.mem| && i < TABLES && j < TABLES
    ensures LastFrameTaken(s, d, i, j, f, flags).dirs == s.dirs
  {
  }

  lemma CloneDirs(s: Space, s': Space, d: nat, n: nat)
    requires d < |s.mem| && CloneStep(s, s', d, n)
    ensures s'.dirs == s.dirs + {n} && |s'.mem| == |s.mem|
  {
  }

  lemma StoreDirs(s: Space, s': Space, d: nat, i: nat, j: nat, off: nat, w: nat)
    requires d < |s.mem| && i < TABLES && j < TABLES && StoreStep(s, s', d, i, j, off, w)
    ensures s'.dirs == s.dirs && |s'.mem| == |s.mem|
  {
  }

  /** The first `k` operations of the run find their frames and copy cleanly. */
  ghost predicate GoodRun(spaces: seq<Space>, curs: seq<nat>, ops: seq<Op>, k: nat)
    requires Run(spaces, curs, ops) && k <= |ops|
  {
    forall m :: 0 <= m < k ==>
      FindsFrames(spaces[m], curs[m], ops[m]) && CleanStep(spaces[m], curs[m], ops[m], spaces[m + 1])
  }

  /** Frame ownership over whole runs of page allocations, copies, switches and writes: every frame in use is taken
      and has one owner in all states of the run, if and only if every operation finds its frames and every copy is
      clean. */
  lemma {:induction false} RunKeepsInv(spaces: seq<Space>, curs: seq<nat>, ops: seq<Op>, k: nat)
    requires Run(spaces, curs, ops) && Inv(spaces[0]) && k < |spaces|
    ensures GoodRun(spaces, curs, ops, k) <==> forall m :: 0 <= m <= k ==> Inv(spaces[m])
    ensures GoodRun(spaces, curs, ops, k) ==> spaces[0].dirs <= spaces[k].dirs && |spaces[k].mem| == |spaces[0].mem|
  {
    hide Inv, Step, CleanStep, FindsFrames;
    if k > 0 {
      var j := k - 1;
      RunKeepsInv(spaces, curs, ops, j);
      assert GoodRun(spaces, curs, ops, k) <==>
             GoodRun(spaces, curs, ops, j) && FindsFrames(spaces[j], curs[j], ops[j])
             && CleanStep(spaces[j], curs[j], ops[j], spaces[j + 1]);
      if GoodRun(spaces, curs, ops, j) {
        StepKeepsInv(spaces[j], curs[j], ops[j], spaces[j + 1], curs[j + 1]);
      }
    }
  }

  /** From memory whose free frames are zero every copy is clean, and they stay so: the frames found are all that is
      needed. */
  lemma {:induction false} ZeroFramesRunClean(spaces: seq<Space>, curs: seq<nat>, ops: seq<Op>, k: nat)
    requires Run(spaces, curs, ops) && Inv(spaces[0]) && FreeFramesZero(spaces[0]) && k < |spaces|
    requires forall m :: 0 <= m < k ==> FindsFrames(spaces[m], curs[m], ops[m])
    ensures GoodRun(spaces, curs, ops, k) && Inv(spaces[k]) && FreeFramesZero(spaces[k])
  {
    hide Inv, Step, CleanStep, FreeFramesZero, FindsFrames;
    if k > 0 {
      var j := k - 1;
      ZeroFramesRunClean(spaces, curs, ops, j);
      StepKeepsInv(spaces[j], curs[j], ops[j], spaces[j + 1], curs[j + 1]);
    }
  }

  /** Operation `op`, with `cur` current, writes page `(i, j)` of directory `d`. */
  predicate Writes(cur: nat, op: Op, d: nat, i: nat, j: nat)
  {
    op.Store? && cur == d && op.i == i && op.j == j
  }

  /** The frames behind a mapped user page: its directory, its table, and the page itself. */
  lemma PageFrames(s: Space, d: nat, i: nat, j: nat)
    requires Inv(s) && d in s.dirs && d < |s.mem| && i < USER_TABLES && j < TABLES && Pte(s.mem, d, i, j) != 0
    ensures HasTable(s.mem, d, i) && Table(s.mem, d, i) < |s.mem| && FrameOf(Pte(s.mem, d, i, j)) < |s.mem|
    ensures Pte(s.mem, d, i, j) == s.mem[Table(s.mem, d, i)][j]
    ensures var t, f := Table(s.mem, d, i), FrameOf(Pte(s.mem, d, i, j));
            && d in s.role && s.role[d].KernelPage? && Owned(s, t, UserTable(d, i)) && Owned(s, f, UserPage(d, i, j))
            && 0 !in {d, t, f}
  {
    hide FrameOf, Present, PagesOwned;
    PageFrame(s, d, i, j);
    TableFrame(s, d, i);
  }

  /** Not even the operation that takes frame 0 for a table touches a mapped user page. */
  lemma LastFrameKeepsPage(s: Space, cur: nat, k: nat, l: nat, g: nat, flags: nat, d: nat, i: nat, j: nat)
    requires Inv(s) && cur in s.dirs && cur < |s.mem| && k < WINDOW && l < TABLES && !HasTable(s.mem, cur, k)
    requires d in s.dirs && d < |s.mem| && i < USER_TABLES && j < TABLES && Pte(s.mem, d, i, j) != 0
    ensures FrameOf(Pte(s.mem, d, i, j)) < |s.mem|
    ensures var s' := LastFrameTaken(s, cur, k, l, g, flags);
            && |s'.mem| == |s.mem| && Pte(s'.mem, d, i, j) == Pte(s.mem, d, i, j)
            && s'.mem[FrameOf(Pte(s.mem, d, i, j))] == s.mem[FrameOf(Pte(s.mem, d, i, j))]
  {
    hide FrameOf, Present, Entry, PagesOwned, TablesOwned, OwnersExist;
    PageFrames(s, d, i, j);
    assert cur in s.role && s.role[cur].KernelPage?;
  }

  lemma ShortKeepsPage(s: Space, s': Space, cur: nat, n: nat, d: nat, i: nat, j: nat)
    requires Inv(s) && cur < |s.mem| && CloneShort(s, s', cur, n)
    requires d in s.dirs && d < |s.mem| && i < USER_TABLES && j < TABLES && Pte(s.mem, d, i, j) != 0
    ensures FrameOf(Pte(s.mem, d, i, j)) < |s.mem| == |s'.mem| && Pte(s'.mem, d, i, j) == Pte(s.mem, d, i, j)
    ensures s'.mem[FrameOf(Pte(s.mem, d, i, j))] == s.mem[FrameOf(Pte(s.mem, d, i, j))]
  {
    hide FrameOf, Present, Inv, TablesEntered, Spoiled;
    PageFrames(s, d, i, j);
  }

  /** What one operation leaves of a mapped page of directory `d`, whatever its outcome. */
  lemma StepKeepsPage(s: Space, cur: nat, op: Op, s': Space, cur': nat, d: nat, i: nat, j: nat)
    requires Inv(s) && Step(s, cur, op, s', cur') && d in s.dirs && d < |s.mem| && i < USER_TABLES && j < TABLES
    requires Pte(s.mem, d, i, j) != 0
    ensures d < |s'.mem| && Pte(s'.mem, d, i, j) == Pte(s.mem, d, i, j)
    ensures FrameOf(Pte(s.mem, d, i, j)) < |s.mem| == |s'.mem|
    ensures !Writes(cur, op, d, i, j) ==> s'.mem[FrameOf(Pte(s.mem, d, i, j))] == s.mem[FrameOf(Pte(s.mem, d, i, j))]
  {
    hide FrameOf, FlagsOf, Present, Entry, Inv, Pte, LastFrameTaken, CloneStep, CloneShort, CloneNeed, AllocStep,
      StoreStep, HasTable;
    PageFrame(s, d, i, j);
    match op
    case AllocPage(i', j', flags) =>
      if FreeFrames(s) == 1 && !HasTable(s.mem, cur, i') {
        var g: nat :| Free(s, g) && s' == LastFrameTaken(s, cur, i', j', g, flags);
        LastFrameKeepsPage(s, cur, i', j', g, flags, d, i, j);
      } else if FreeFrames(s) > 0 {
        AllocLaw(s, s', cur, i', j', flags);
        AllocKeepsFrames(s, s', cur, i', j', flags, FrameOf(Pte(s.mem, d, i, j)));
      }
    case CloneDir(n) =>
      if FindsFrames(s, cur, op) {
        CopiedFrames(s, s', cur, n, d, i, j);
      } else {
        ShortKeepsPage(s, s', cur, n, d, i, j);
      }
    case SwapDir(_) =>
    case Store(i', j', off, w) =>
      StoreLaw(s, s', cur, i', j', off, w);
      StoreDirs(s, s', cur, i', j', off, w);
  }

  /** Isolation over whole runs: a page of a directory's user range keeps its frame and its contents for as long as
      nothing is written to that very page through that very directory, whatever happens in all others, up to and
      through the first operation that runs out of frames or copies uncleanly. */
  lemma {:induction false} RunIsolation(spaces: seq<Space>, curs: seq<nat>, ops: seq<Op>, d: nat, i: nat, j: nat,
                                        k: nat)
    requires Run(spaces, curs, ops) && Inv(spaces[0]) && k < |spaces| && (k > 0 ==> GoodRun(spaces, curs, ops, k - 1))
    requires d in spaces[0].dirs && d < |spaces[0].mem| && i < USER_TABLES && j < TABLES
    requires Pte(spaces[0].mem, d, i, j) != 0
    requires forall m :: 0 <= m < k ==> !Writes(curs[m], ops[m], d, i, j)
    ensures d in spaces[k].dirs && d < |spaces[k].mem|
    ensures Pte(spaces[k].mem, d, i, j) == Pte(spaces[0].mem, d, i, j)
    ensures FrameOf(Pte(spaces[0].mem, d, i, j)) < |spaces[0].mem| == |spaces[k].mem|
    ensures spaces[k].mem[FrameOf(Pte(spaces[0].mem, d, i, j))] == spaces[0].mem[FrameOf(Pte(spaces[0].mem, d, i, j))]
  {
    hide Inv, Step, Pte, FrameOf, CleanStep, FindsFrames;
    if k == 0 {
      PageFrame(spaces[0], d, i, j);
    } else {
      var m := k - 1;
      RunIsolation(spaces, curs, ops, d, i, j, m);
      RunKeepsInv(spaces, curs, ops, m);
      StepKeepsInv(spaces[m], curs[m], ops[m], spaces[m + 1], curs[m + 1]);
      StepKeepsPage(spaces[m], curs[m], ops[m], spaces[m + 1], curs[m + 1], d, i, j);
    }
  }
}
