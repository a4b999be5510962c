/** Physical memory, two-level page maps in it, and who owns which frame (module/paging/main.c). */
module AddressSpace {
  import opened PageUnits

  const TABLES: nat := 1024        // entries of a directory, and of a table
  const USER_TABLES: nat := 864    // the tables below are private to a directory, those above are shared
  const WINDOW: nat := 1023        // the directory maps itself in its last entry

  /** One frame as 1024 words; page tables and directories are frames like any other. */
  type Page = p: seq<nat> | |p| == 1024 witness seq(1024, i => 0)

  /** A page of zeros, as `memset` leaves it. */
  function Zero(): Page { seq(1024, i => 0) }

  type Memory = seq<Page>

  // Table entries: 20 bits of frame, 12 bits of flags

  function Entry(frame: nat, flags: nat): nat { frame * PAGE + flags }

  function FrameOf(e: nat): nat { e / PAGE }

  function FlagsOf(e: nat): nat { e % PAGE }

  predicate Present(e: nat) { e % 2 == 1 }

  lemma EntryParts(frame: nat, flags: nat)
    requires flags < PAGE
    ensures FrameOf(Entry(frame, flags)) == frame && FlagsOf(Entry(frame, flags)) == flags
    ensures Present(Entry(frame, flags)) == Present(flags)
    ensures Present(flags) ==> Entry(frame, flags) != 0
  {
  }

  /** The low 12 bits are the flags, bit 0 of which says that the page is present. */
  lemma EntryLayout(frame: nat, flags: nat)
    requires flags < 0x1000
    ensures Entry(frame, flags) == 0x1000 * frame + flags
    ensures Entry(frame, flags) / 0x1000 == frame && Entry(frame, flags) % 0x1000 == flags
    ensures Present(Entry(frame, flags)) <==> flags % 2 == 1
  {
  }

  /** The flags of directory entries, present and writable. */
  lemma PresentAndWritable()
    ensures Present(3)
  {
  }

  lemma EntryOfParts(e: nat)
    ensures Entry(FrameOf(e), FlagsOf(e)) == e && FlagsOf(e) < PAGE
    ensures Present(FlagsOf(e)) == Present(e)
  {
  }

  function WriteWord(mem: Memory, frame: nat, j: nat, w: nat): (m: Memory)
    requires frame < |mem| && j < TABLES
    ensures |m| == |mem|
  {
    mem[frame := mem[frame][j := w]]
  }

  /** Whether directory `d` has a table in slot `i`, and the frame of that table. */
  predicate HasTable(mem: Memory, d: nat, i: nat)
    requires d < |mem| && i < TABLES
  {
    Present(mem[d][i])
  }

  function Table(mem: Memory, d: nat, i: nat): nat
    requires d < |mem| && i < TABLES
  {
    FrameOf(mem[d][i])
  }

  /** The entry of page `i * 1024 + j`; a page without a table reads as unmapped. */
  function Pte(mem: Memory, d: nat, i: nat, j: nat): nat
    requires d < |mem| && i < TABLES && j < TABLES
  {
    if HasTable(mem, d, i) && Table(mem, d, i) < |mem| then mem[Table(mem, d, i)][j] else 0
  }

  /** What a frame is used for. A kernel page is known by the table that maps it, since directories share those. */
  datatype Role =
    | UserTable(dir: nat, i: nat)
    | UserPage(dir: nat, i: nat, j: nat)
    | KernelTable(i: nat)
    | KernelPage(table: nat, j: nat)

  function TableRole(d: nat, i: nat): Role
  {
    if i < USER_TABLES then UserTable(d, i) else KernelTable(i)
  }

  function PageRole(d: nat, i: nat, t: nat, j: nat): Role
  {
    if i < USER_TABLES then UserPage(d, i, j) else KernelPage(t, j)
  }

  /** Memory with the directories in it. `role` gives every frame in use its one owner. */
  datatype Space = Space(mem: Memory, dirs: set<nat>, taken: set<nat>, role: map<nat, Role>)

  ghost predicate Owned(s: Space, f: nat, r: Role)
  {
    f in s.role && s.role[f] == r
  }

  /** Frames in use are taken and exist; frame 0 is taken and nobody's; directories are kernel pages that map
      themselves. */
  ghost predicate FramesOk(s: Space)
  {
    && 0 in s.taken && 0 !in s.role
    && (forall f :: f in s.role ==> f in s.taken && f < |s.mem|)
    && forall d :: d in s.dirs ==> d in s.role && s.role[d].KernelPage? && s.mem[d][WINDOW] == Entry(d, 3)
  }

  /** Every table of every directory is owned by that directory, or by the kernel, and by one slot only. */
  ghost predicate TablesOwned(s: Space)
    requires FramesOk(s)
  {
    forall d, i: nat {:trigger HasTable(s.mem, d, i)} :: d in s.dirs && i < WINDOW && HasTable(s.mem, d, i) ==>
      Owned(s, Table(s.mem, d, i), TableRole(d, i))
  }

  /** Word `j` of the table in frame `t`, if it is not zero, maps a frame owned by that page. */
  ghost predicate WordOwned(s: Space, t: nat, j: nat)
    requires t in s.role && t < |s.mem| && j < TABLES
  {
    var e := s.mem[t][j];
    e != 0 ==>
      match s.role[t]
      case UserTable(d, i) => Present(e) && Owned(s, FrameOf(e), UserPage(d, i, j))
      case KernelTable(_) => Owned(s, FrameOf(e), KernelPage(t, j))
      case _ => true
  }

  ghost predicate PagesOwned(s: Space)
    requires FramesOk(s)
  {
    forall t, j: nat {:trigger s.mem[t][j]} :: t in s.role && j < TABLES ==> WordOwned(s, t, j)
  }

  /** What is owned for a directory is owned for one that exists. */
  ghost predicate OwnersExist(s: Space)
  {
    forall f :: f in s.role ==>
      match s.role[f]
      case UserTable(d, _) => d in s.dirs
      case UserPage(d, _, _) => d in s.dirs
      case _ => true
  }

  ghost predicate Inv(s: Space)
  {
    FramesOk(s) && TablesOwned(s) && PagesOwned(s) && OwnersExist(s)
  }

  /** Nothing has been written to the frames that are free. */
  ghost predicate FreeFramesZero(s: Space)
  {
    forall f: nat :: f < |s.mem| && f !in s.taken ==> s.mem[f] == Zero()
  }

  predicate Free(s: Space, f: nat)
  {
    f < |s.mem| && f !in s.taken
  }

  /** A directory's slot receives a new, zeroed table. */
  ghost function AddTable(s: Space, d: nat, i: nat, t: nat, flags: nat): (s': Space)
    requires d < |s.mem| && t < |s.mem| && i < TABLES
    ensures |s'.mem| == |s.mem|
  {
    Space(WriteWord(s.mem, d, i, Entry(t, flags))[t := Zero()], s.dirs, s.taken + {t}, s.role[t := TableRole(d, i)])
  }

  /** A page receives a frame. */
  ghost function AddPage(s: Space, d: nat, i: nat, j: nat, f: nat, flags: nat): (s': Space)
    requires d < |s.mem| && i < TABLES && j < TABLES && Table(s.mem, d, i) < |s.mem|
    ensures |s'.mem| == |s.mem|
  {
    var t := Table(s.mem, d, i);
    Space(WriteWord(s.mem, t, j, Entry(f, flags)), s.dirs, s.taken + {f}, s.role[f := PageRole(d, i, t, j)])
  }
}
