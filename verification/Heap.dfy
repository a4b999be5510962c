/** The kernel heap (module/heap/main.c): bin headers in one growing region, linked by slot number. */
module Heap {
  import opened Intervals
  import opened PageUnits
  import opened HeapSpec
  import opened HeapLaws

  const NULL: int := -1
  const HEADER_SIZE: nat := 16

  /** The bins stay below the window through which page tables are reached. */
  const HEAP_LIMIT: nat := 0xFFC0_0000

  datatype Header = Header(addr: nat, taken: bool, size: nat, prev: int, next: int)

  const CLEARED := Header(0, false, 0, NULL, NULL)

  function BinOf(h: seq<Header>, slot: nat): Bin
  {
    if slot < |h| then Bin(h[slot].addr, h[slot].size, h[slot].taken) else Bin(0, 0, false)
  }

  /** The bins of a chain of slots. */
  function Bins(h: seq<Header>, chain: seq<nat>): (v: seq<Bin>)
    ensures |v| == |chain|
    ensures forall k :: 0 <= k < |chain| ==> v[k] == BinOf(h, chain[k])
  {
    seq(|chain|, k requires 0 <= k < |chain| => BinOf(h, chain[k]))
  }

  ghost predicate InRange(chain: seq<nat>, n: nat)
  {
    forall k :: 0 <= k < |chain| ==> chain[k] < n
  }

  ghost predicate Distinct(chain: seq<nat>)
  {
    forall i, j :: 0 <= i < j < |chain| ==> chain[i] != chain[j]
  }

  function First(chain: seq<nat>): int { if chain == [] then NULL else chain[0] }

  function Last(chain: seq<nat>): int { if chain == [] then NULL else chain[|chain| - 1] }

  /** `chain` is linked by `next`, and its last link is null. */
  ghost predicate NextLinked(h: seq<Header>, chain: seq<nat>)
    requires InRange(chain, |h|)
  {
    && (forall i, j :: 0 <= i < j < |chain| && j == i + 1 ==> h[chain[i]].next == chain[j])
    && (chain != [] ==> h[chain[|chain| - 1]].next == NULL)
  }

  ghost predicate PrevLinked(h: seq<Header>, chain: seq<nat>)
    requires InRange(chain, |h|)
  {
    && (forall i, j :: 0 <= i < j < |chain| && j == i + 1 ==> h[chain[j]].prev == chain[i])
    && (chain != [] ==> h[chain[0]].prev == NULL)
  }

  /** Two chains that share no slot and, with the slots in `out`, use up the header region. */
  ghost predicate Partition(live: seq<nat>, idle: seq<nat>, out: set<nat>, n: nat)
  {
    && InRange(live, n) && InRange(idle, n)
    && Distinct(live) && Distinct(idle)
    && (forall i, j :: 0 <= i < |live| && 0 <= j < |idle| ==> live[i] != idle[j])
    && (forall i :: 0 <= i < |live| ==> live[i] !in out)
    && (forall j :: 0 <= j < |idle| ==> idle[j] !in out)
    && forall s: nat :: s < n ==> s in live || s in idle || s in out
  }

  /** The cast of a 32-bit word to `int32_t`. */
  function Int32(x: int): int {
    var word := x % 0x1_0000_0000;
    if word < 0x8000_0000 then word else word - 0x1_0000_0000
  }

  lemma Int32Small(x: nat)
    requires x < 0x8000_0000
    ensures Int32(x) == x
  {
  }

  function SetNext(h: seq<Header>, i: int, to: int): seq<Header>
    requires 0 <= i < |h|
  {
    h[i := h[i].(next := to)]
  }

  function SetPrev(h: seq<Header>, i: int, to: int): seq<Header>
    requires 0 <= i < |h|
  {
    h[i := h[i].(prev := to)]
  }

  function Insert<T>(s: seq<T>, k: nat, x: T): seq<T>
    requires k <= |s|
  {
    s[..k] + [x] + s[k..]
  }

  function Delete<T>(s: seq<T>, k: nat): seq<T>
    requires k < |s|
  {
    s[..k] + s[k + 1..]
  }

  lemma DeleteAt<T>(s: seq<T>, k: nat)
    requires k < |s|
    ensures |Delete(s, k)| == |s| - 1
    ensures k + 1 < |s| ==> Delete(s, k)[k] == s[k + 1]
  {
  }

  /** The two ways to see a bin cut in two. */
  lemma CutInTwo(v: seq<Bin>, k: nat, s: nat)
    requires k < |v| && s <= v[k].size
    ensures var b := v[k]; var cut := v[..k] + Cut(b, s)[0 := Bin(b.addr, s, b.taken)] + v[k + 1..];
      if b.size == s then cut == v
      else |Insert(v, k + 1, Bin(b.addr + s, b.size - s, false))| == |v| + 1
           && Insert(v, k + 1, Bin(b.addr + s, b.size - s, false))[k] == b
           && cut == Insert(v, k + 1, Bin(b.addr + s, b.size - s, false))[k := b.(size := s)]
  {
  }

  lemma InsertBehind<T>(s: seq<T>, k: nat, x: T)
    requires k < |s|
    ensures |Insert(s, k + 1, x)| == |s| + 1 && Insert(s, k + 1, x)[k] == s[k]
  {
  }

  lemma DeleteBefore<T>(s: seq<T>, k: nat)
    requires 0 < k < |s|
    ensures |Delete(s, k)| == |s| - 1 && Delete(s, k)[k - 1] == s[k - 1]
  {
  }

  lemma DeleteEnds(live: seq<nat>, k: nat)
    requires k < |live|
    ensures |live| == 1 ==> First(live) == Last(live) == live[k]
    ensures |live| > 1 ==>
              && Delete(live, k) != []
              && First(Delete(live, k)) == (if k == 0 then live[1] else First(live))
              && Last(Delete(live, k)) == (if k == |live| - 1 then live[k - 1] else Last(live))
    ensures k == 0 ==> First(live) == live[k]
    ensures k == |live| - 1 ==> Last(live) == live[k]
  {
  }

  // The header region is never short of an owner for a slot

  lemma PartitionPop(live: seq<nat>, idle: seq<nat>, n: nat)
    requires Partition(live, idle, {}, n) && idle != []
    ensures Partition(live, idle[1..], {idle[0]}, n)
  {
    assert forall s :: s in idle ==> s == idle[0] || s in idle[1..];
  }

  lemma PartitionNew(live: seq<nat>, idle: seq<nat>, n: nat)
    requires Partition(live, idle, {}, n)
    ensures Partition(live, idle, {n}, n + 1)
  {
  }

  lemma PartitionInsert(live: seq<nat>, idle: seq<nat>, slot: nat, k: nat, n: nat)
    requires Partition(live, idle, {slot}, n) && slot < n && k <= |live|
    ensures Partition(Insert(live, k, slot), idle, {}, n)
  {
    var l := Insert(live, k, slot);
    assert l[k] == slot;
    forall s: nat | s in live
      ensures s in l
    {
      var i :| 0 <= i < |live| && live[i] == s;
      assert l[if i < k then i else i + 1] == s;
    }
  }

  lemma PartitionRetire(live: seq<nat>, idle: seq<nat>, k: nat, n: nat)
    requires Partition(live, idle, {}, n) && k < |live|
    ensures Partition(Delete(live, k), idle + [live[k]], {}, n)
  {
    var l, e := Delete(live, k), idle + [live[k]];
    assert e[|idle|] == live[k];
    forall s: nat | s in live
      ensures s in l || s in e
    {
      var i :| 0 <= i < |live| && live[i] == s;
      if i != k {
        assert l[if i < k then i else i - 1] == s;
      }
    }
  }

  // Pointer writes and the chains

  /** Headers outside a chain can change without the chain noticing. */
  lemma NextFrame(h: seq<Header>, h': seq<Header>, chain: seq<nat>)
    requires InRange(chain, |h|) && InRange(chain, |h'|) && NextLinked(h, chain)
    requires forall k :: 0 <= k < |chain| ==> h'[chain[k]].next == h[chain[k]].next
    ensures NextLinked(h', chain)
  {
  }

  lemma BinsFrame(h: seq<Header>, h': seq<Header>, chain: seq<nat>)
    requires InRange(chain, |h|) && InRange(chain, |h'|)
    requires forall k :: 0 <= k < |chain| ==> BinOf(h', chain[k]) == BinOf(h, chain[k])
    ensures Bins(h', chain) == Bins(h, chain)
  {
  }

  /** The four pointer writes of `add_bin` link the new slot behind position `k`. */
  lemma InsertLinks(h: seq<Header>, h': seq<Header>, live: seq<nat>, k: nat, slot: nat)
    requires InRange(live, |h|) && Distinct(live) && NextLinked(h, live) && PrevLinked(h, live)
    requires k < |live| && |h'| == |h| && slot < |h| && forall i :: 0 <= i < |live| ==> live[i] != slot
    requires h'[slot].prev == live[k] && h'[slot].next == (if k + 1 < |live| then live[k + 1] else NULL)
    requires h'[live[k]].next == slot && (k + 1 < |live| ==> h'[live[k + 1]].prev == slot)
    requires forall i :: 0 <= i < |live| && i != k ==> h'[live[i]].next == h[live[i]].next
    requires forall i :: 0 <= i < |live| && i != k + 1 ==> h'[live[i]].prev == h[live[i]].prev
    ensures InRange(Insert(live, k + 1, slot), |h'|)
    ensures NextLinked(h', Insert(live, k + 1, slot)) && PrevLinked(h', Insert(live, k + 1, slot))
  {
    var l := Insert(live, k + 1, slot);
    forall i, j | 0 <= i < j < |l| && j == i + 1
      ensures h'[l[i]].next == l[j] && h'[l[j]].prev == l[i]
    {
      if i < k {
        assert h[live[i]].next == live[j];
      } else if i > k + 1 {
        assert h[live[i - 1]].next == live[j - 1];
      }
    }
  }

  /** The unlinking writes of `remove_bin` close the gap at position `k`. */
  lemma DeleteLinks(h: seq<Header>, h': seq<Header>, live: seq<nat>, k: nat)
    requires InRange(live, |h|) && Distinct(live) && NextLinked(h, live) && PrevLinked(h, live)
    requires k < |live| && |h'| == |h|
    requires k + 1 < |live| ==> h'[live[k + 1]].prev == h[live[k]].prev
    requires k > 0 ==> h'[live[k - 1]].next == h[live[k]].next
    requires forall i :: 0 <= i < |live| && i != k && i != k - 1 ==> h'[live[i]].next == h[live[i]].next
    requires forall i :: 0 <= i < |live| && i != k && i != k + 1 ==> h'[live[i]].prev == h[live[i]].prev
    ensures InRange(Delete(live, k), |h'|)
    ensures NextLinked(h', Delete(live, k)) && PrevLinked(h', Delete(live, k))
  {
    var l := Delete(live, k);
    forall i, j | 0 <= i < j < |l| && j == i + 1
      ensures h'[l[i]].next == l[j] && h'[l[j]].prev == l[i]
    {
      if j < k {
        assert h[live[i]].next == live[j];
      } else if i >= k {
        assert h[live[i + 1]].next == live[j + 1];
      } else {
        assert h[live[k]].next == live[k + 1] && h[live[k]].prev == live[k - 1];
      }
    }
  }

  /** A header with a null link can be hung behind the last one of a chain. */
  lemma AppendLinks(h: seq<Header>, h': seq<Header>, chain: seq<nat>, slot: nat)
    requires InRange(chain, |h|) && Distinct(chain) && NextLinked(h, chain)
    requires |h'| == |h| && slot < |h| && h'[slot].next == NULL
    requires chain != [] ==> h'[chain[|chain| - 1]].next == slot
    requires forall i :: 0 <= i < |chain| - 1 ==> h'[chain[i]].next == h[chain[i]].next
    ensures InRange(chain + [slot], |h'|) && NextLinked(h', chain + [slot])
  {
  }

  /** Both lists are linked as the pointers say, share no header and, but for those in `out`, hold every header.
      Recycled headers keep stale `prev` links. */
  ghost predicate Chains(h: seq<Header>, live: seq<nat>, idle: seq<nat>, out: set<nat>)
  {
    && Partition(live, idle, out, |h|)
    && NextLinked(h, live) && PrevLinked(h, live) && NextLinked(h, idle)
  }

  /** The slots of a chain, as many as it is long. */
  lemma {:induction false} SlotCount(chain: seq<nat>, all: set<nat>)
    requires Distinct(chain) && forall s: nat :: s in all <==> s in chain
    ensures |all| == |chain|
  {
    if chain == [] {
      assert all == {};
    } else {
      var last, init := chain[|chain| - 1], chain[..|chain| - 1];
      forall s: nat
        ensures s in all - {last} <==> s in init
      {
        assert s in chain <==> s == last || s in init;
      }
      SlotCount(init, all - {last});
    }
  }

  /** No header is lost or used twice: the live list and the recycled list, both acyclic and without a slot in
      common, make up all the headers between the first one and `bin_hiaddr`. */
  lemma HeadersConserved(h: seq<Header>, live: seq<nat>, idle: seq<nat>)
    requires Chains(h, live, idle, {})
    ensures |live| + |idle| == |h|
    ensures forall s: nat :: s < |h| <==> s in live + idle
  {
    hide NextLinked, PrevLinked;
    forall s: nat
      ensures s < |h| <==> s in live + idle
    {
      if s in live {
        var i :| 0 <= i < |live| && live[i] == s;
      } else if s in idle {
        var j :| 0 <= j < |idle| && idle[j] == s;
      }
    }
    SlotCount(live + idle, Range(|h|));
  }

  lemma ChainsInRange(h: seq<Header>, live: seq<nat>, idle: seq<nat>, out: set<nat>)
    requires Chains(h, live, idle, out)
    ensures InRange(live, |h|) && InRange(idle, |h|)
    ensures forall i :: 0 <= i < |live| && live[i] == Last(live) ==> i == |live| - 1
    ensures forall i :: 0 <= i < |live| && live[i] == First(live) ==> i == 0
  {
  }

  /** What the pointers of live header `k` are. */
  lemma LiveLinks(h: seq<Header>, live: seq<nat>, idle: seq<nat>, out: set<nat>, k: nat)
    requires Chains(h, live, idle, out) && k < |live|
    ensures live[k] < |h|
    ensures h[live[k]].next == if k + 1 < |live| then live[k + 1] else NULL
    ensures h[live[k]].prev == if k > 0 then live[k - 1] else NULL
    ensures h[live[k]].next != live[k] && h[live[k]].prev != live[k]
  {
  }

  lemma IdleLinks(h: seq<Header>, live: seq<nat>, idle: seq<nat>, out: set<nat>, k: nat)
    requires Chains(h, live, idle, out) && k < |idle|
    ensures idle[k] < |h|
    ensures h[idle[k]].next == if k + 1 < |idle| then idle[k + 1] else NULL
  {
  }

  /** The head of the recycled list comes off it. */
  lemma ChainsPop(h: seq<Header>, live: seq<nat>, idle: seq<nat>)
    requires Chains(h, live, idle, {}) && idle != []
    ensures Chains(h, live, idle[1..], {idle[0]})
  {
    PartitionPop(live, idle, |h|);
  }

  /** A header is added at the end of the region. */
  lemma ChainsGrow(h: seq<Header>, live: seq<nat>, idle: seq<nat>)
    requires Chains(h, live, idle, {})
    ensures Chains(h + [CLEARED], live, idle, {|h|})
    ensures Bins(h + [CLEARED], live) == Bins(h, live)
  {
    PartitionNew(live, idle, |h|);
    BinsFrame(h, h + [CLEARED], live);
  }

  /** The writes of `add_bin`: header `slot` goes between `parent` and its successor. */
  function LinkIn(h: seq<Header>, parent: nat, slot: nat, addr: nat, size: nat): seq<Header>
    requires parent < |h| && slot < |h| && NULL <= h[parent].next < |h|
  {
    var next := h[parent].next;
    var h1 := h[slot := CLEARED.(next := next, prev := parent)];
    var h2 := SetNext(if next == NULL then h1 else SetPrev(h1, next, slot), parent, slot);
    h2[slot := h2[slot].(size := size, addr := addr)]
  }

  lemma LinkInAt(h: seq<Header>, parent: nat, slot: nat, addr: nat, size: nat, i: nat)
    requires parent < |h| && slot < |h| && NULL <= h[parent].next < |h| && i < |h|
    requires parent != slot && h[parent].next != slot && h[parent].next != parent
    ensures var h' := LinkIn(h, parent, slot, addr, size);
      && |h'| == |h|
      && h'[i].next == (if i == parent then slot else if i == slot then h[parent].next else h[i].next)
      && h'[i].prev == (if i == slot then parent else if i == h[parent].next then slot else h[i].prev)
      && BinOf(h', i) == if i == slot then Bin(addr, size, false) else BinOf(h, i)
  {
  }

  lemma BinsInsert(h: seq<Header>, h': seq<Header>, live: seq<nat>, k: nat, slot: nat, b: Bin)
    requires k < |live| && BinOf(h', slot) == b
    requires forall i :: 0 <= i < |live| ==> BinOf(h', live[i]) == BinOf(h, live[i])
    ensures Bins(h', Insert(live, k + 1, slot)) == Insert(Bins(h, live), k + 1, b)
  {
    var l := Insert(live, k + 1, slot);
    forall i | 0 <= i < |l|
      ensures Bins(h', l)[i] == Insert(Bins(h, live), k + 1, b)[i]
    {
      if i != k + 1 {
        assert l[i] == live[if i <= k then i else i - 1];
      }
    }
  }

  lemma LinkInOnChains(h: seq<Header>, live: seq<nat>, idle: seq<nat>, slot: nat, k: nat, addr: nat, size: nat)
    requires Partition(live, idle, {slot}, |h|) && slot < |h| && k < |live|
    requires h[live[k]].next == if k + 1 < |live| then live[k + 1] else NULL
    ensures var h' := LinkIn(h, live[k], slot, addr, size);
      && |h'| == |h|
      && h'[slot].prev == live[k] && h'[slot].next == h[live[k]].next
      && h'[live[k]].next == slot && (k + 1 < |live| ==> h'[live[k + 1]].prev == slot)
      && (forall i :: 0 <= i < |live| && i != k ==> h'[live[i]].next == h[live[i]].next)
      && (forall i :: 0 <= i < |live| && i != k + 1 ==> h'[live[i]].prev == h[live[i]].prev)
      && (forall j :: 0 <= j < |idle| ==> h'[idle[j]].next == h[idle[j]].next)
      && BinOf(h', slot) == Bin(addr, size, false)
      && forall i :: 0 <= i < |live| ==> BinOf(h', live[i]) == BinOf(h, live[i])
  {
    hide LinkIn, BinOf;
    LinkInAt(h, live[k], slot, addr, size, slot);
    forall i | 0 <= i < |live|
      ensures var h' := LinkIn(h, live[k], slot, addr, size);
        && (i != k ==> h'[live[i]].next == h[live[i]].next)
        && (i != k + 1 ==> h'[live[i]].prev == h[live[i]].prev)
        && BinOf(h', live[i]) == BinOf(h, live[i])
    {
      LinkInAt(h, live[k], slot, addr, size, live[i]);
    }
    LinkInAt(h, live[k], slot, addr, size, live[k]);
    if k + 1 < |live| {
      LinkInAt(h, live[k], slot, addr, size, live[k + 1]);
    }
    forall j | 0 <= j < |idle|
      ensures LinkIn(h, live[k], slot, addr, size)[idle[j]].next == h[idle[j]].next
    {
      LinkInAt(h, live[k], slot, addr, size, idle[j]);
    }
  }

  lemma ChainsInsert(h: seq<Header>, live: seq<nat>, idle: seq<nat>, slot: nat, k: nat, addr: nat, size: nat)
    requires Chains(h, live, idle, {slot}) && slot < |h| && k < |live|
    ensures live[k] < |h| && NULL <= h[live[k]].next < |h|
    ensures var h' := LinkIn(h, live[k], slot, addr, size);
      && Chains(h', Insert(live, k + 1, slot), idle, {})
      && Bins(h', Insert(live, k + 1, slot)) == Insert(Bins(h, live), k + 1, Bin(addr, size, false))
  {
    hide LinkIn, BinOf, Bins, NextLinked, PrevLinked, Insert;
    LiveLinks(h, live, idle, {slot}, k);
    LinkInOnChains(h, live, idle, slot, k, addr, size);
    var h' := LinkIn(h, live[k], slot, addr, size);
    PartitionInsert(live, idle, slot, k + 1, |h|);
    InsertLinks(h, h', live, k, slot);
    NextFrame(h, h', idle);
    BinsInsert(h, h', live, k, slot, Bin(addr, size, false));
  }

  /** The writes of `remove_bin`: header `bin` is unlinked, cleared, and then hung behind `last`, the end of the
      recycled list. */
  function Bypassed(h: seq<Header>, bin: nat): (h': seq<Header>)
    requires bin < |h| && NULL <= h[bin].next < |h| && NULL <= h[bin].prev < |h|
    ensures |h'| == |h|
  {
    var next, prev := h[bin].next, h[bin].prev;
    var h1 := if next == NULL then h else SetPrev(h, next, prev);
    if prev == NULL then h1 else SetNext(h1, prev, next)
  }

  function Unlinked(h: seq<Header>, bin: nat): seq<Header>
    requires bin < |h| && NULL <= h[bin].next < |h| && NULL <= h[bin].prev < |h|
  {
    SetPrev(SetNext(Bypassed(h, bin), bin, NULL), bin, NULL)
  }

  function LinkOut(h: seq<Header>, bin: nat, last: int): seq<Header>
    requires bin < |h| && NULL <= h[bin].next < |h| && NULL <= h[bin].prev < |h| && last < |h|
  {
    var h' := Unlinked(h, bin);
    if last < 0 then h' else SetPrev(SetNext(h', last, bin), bin, last)
  }

  lemma UnlinkKeepsIdle(h: seq<Header>, live: seq<nat>, idle: seq<nat>, k: nat)
    requires Chains(h, live, idle, {}) && k < |live|
    ensures live[k] < |h| && NULL <= h[live[k]].next < |h| && NULL <= h[live[k]].prev < |h|
    ensures var h' := Unlinked(h, live[k]); InRange(idle, |h'|) && NextLinked(h', idle)
  {
    LiveLinks(h, live, idle, {}, k);
    NextFrame(h, Unlinked(h, live[k]), idle);
  }

  lemma LinkOutAt(h: seq<Header>, bin: nat, last: int, i: nat)
    requires bin < |h| && NULL <= h[bin].next < |h| && NULL <= h[bin].prev < |h| && last < |h| && i < |h|
    requires bin != last && h[bin].next != bin && h[bin].prev != bin && (last >= 0 ==> last != h[bin].prev)
    ensures var h' := LinkOut(h, bin, last);
      && |h'| == |h|
      && h'[i].next == (if i == bin then NULL else if i == last then bin else if i == h[bin].prev then h[bin].next
          else h[i].next)
      && (i != bin ==> h'[i].prev == if i == h[bin].next then h[bin].prev else h[i].prev)
      && BinOf(h', i) == BinOf(h, i)
  {
  }

  lemma BinsDelete(h: seq<Header>, h': seq<Header>, live: seq<nat>, k: nat)
    requires k < |live|
    requires forall i :: 0 <= i < |live| ==> BinOf(h', live[i]) == BinOf(h, live[i])
    ensures Bins(h', Delete(live, k)) == Delete(Bins(h, live), k)
  {
    var l := Delete(live, k);
    forall i | 0 <= i < |l|
      ensures Bins(h', l)[i] == Delete(Bins(h, live), k)[i]
    {
      assert l[i] == live[if i < k then i else i + 1];
    }
  }

  lemma LinkOutOnChains(h: seq<Header>, live: seq<nat>, idle: seq<nat>, k: nat)
    requires Partition(live, idle, {}, |h|) && k < |live|
    requires h[live[k]].next == if k + 1 < |live| then live[k + 1] else NULL
    requires h[live[k]].prev == if k > 0 then live[k - 1] else NULL
    ensures var h' := LinkOut(h, live[k], Last(idle));
      && |h'| == |h| && h'[live[k]].next == NULL
      && (k + 1 < |live| ==> h'[live[k + 1]].prev == h[live[k]].prev)
      && (k > 0 ==> h'[live[k - 1]].next == h[live[k]].next)
      && (forall i :: 0 <= i < |live| && i != k && i != k - 1 ==> h'[live[i]].next == h[live[i]].next)
      && (forall i :: 0 <= i < |live| && i != k && i != k + 1 ==> h'[live[i]].prev == h[live[i]].prev)
      && (idle != [] ==> h'[idle[|idle| - 1]].next == live[k])
      && (forall i :: 0 <= i < |idle| - 1 ==> h'[idle[i]].next == h[idle[i]].next)
      && forall i :: 0 <= i < |live| ==> BinOf(h', live[i]) == BinOf(h, live[i])
  {
    hide LinkOut, BinOf;
    var bin, last := live[k], Last(idle);
    forall i | 0 <= i < |live|
      ensures var h' := LinkOut(h, bin, last);
        && |h'| == |h|
        && (i != k && i != k - 1 ==> h'[live[i]].next == h[live[i]].next)
        && (i == k - 1 ==> h'[live[i]].next == h[bin].next)
        && (i == k ==> h'[live[i]].next == NULL)
        && (i != k && i != k + 1 ==> h'[live[i]].prev == h[live[i]].prev)
        && (i == k + 1 ==> h'[live[i]].prev == h[bin].prev)
        && BinOf(h', live[i]) == BinOf(h, live[i])
    {
      LinkOutAt(h, bin, last, live[i]);
    }
    forall i | 0 <= i < |idle|
      ensures LinkOut(h, bin, last)[idle[i]].next == if i == |idle| - 1 then bin else h[idle[i]].next
    {
      LinkOutAt(h, bin, last, idle[i]);
    }
  }

  lemma ChainsRetire(h: seq<Header>, live: seq<nat>, idle: seq<nat>, k: nat)
    requires Chains(h, live, idle, {}) && k < |live|
    ensures live[k] < |h| && NULL <= h[live[k]].next < |h| && NULL <= h[live[k]].prev < |h| && Last(idle) < |h|
    ensures var h' := LinkOut(h, live[k], Last(idle));
      && Chains(h', Delete(live, k), idle + [live[k]], {})
      && Bins(h', Delete(live, k)) == Delete(Bins(h, live), k)
  {
    hide LinkOut, BinOf, Bins, NextLinked, PrevLinked, Delete;
    LiveLinks(h, live, idle, {}, k);
    LinkOutOnChains(h, live, idle, k);
    var h' := LinkOut(h, live[k], Last(idle));
    PartitionRetire(live, idle, k, |h|);
    DeleteLinks(h, h', live, k);
    AppendLinks(h, h', idle, live[k]);
    BinsDelete(h, h', live, k);
  }

  /** A bin can be resized, moved or marked without touching the links. */
  lemma ChainsWrite(h: seq<Header>, live: seq<nat>, idle: seq<nat>, k: nat, b: Bin)
    requires Chains(h, live, idle, {}) && k < |live|
    ensures live[k] < |h|
    ensures var h' := h[live[k] := h[live[k]].(addr := b.addr, size := b.size, taken := b.taken)];
      Chains(h', live, idle, {}) && Bins(h', live) == Bins(h, live)[k := b]
  {
    var h' := h[live[k] := h[live[k]].(addr := b.addr, size := b.size, taken := b.taken)];
    forall i | 0 <= i < |live|
      ensures Bins(h', live)[i] == Bins(h, live)[k := b][i]
    {
    }
  }

  ghost predicate HeadersMapped(n: nat, mapped: set<nat>)
  {
    forall x: nat {:trigger x / PAGE} :: x < HEADER_SIZE * n ==> x / PAGE in mapped
  }

  lemma MoreHeaders(n: nat, mapped: set<nat>)
    requires HeadersMapped(n, mapped)
    ensures HeadersMapped(n + 1, mapped + Pages(HEADER_SIZE * n, 0x2000))
  {
  }

  class KernelHeap {
    var headers: seq<Header>        // the slots from the first one to bin_hiaddr
    var binHead: int
    var binTail: int
    var emptyHead: int
    ghost var pages: set<nat>       // heap pages that `allocpgs` was asked to map
    ghost var headerPages: set<nat> // the same for the header region, numbered from its start
    ghost var live: seq<nat>        // the slots from binHead on, by `next`
    ghost var idle: seq<nat>        // the recycled slots from emptyHead on, by `next`

    ghost predicate Links(out: set<nat>)
      reads this
    {
      && Chains(headers, live, idle, out)
      && live != [] && binHead == First(live) && binTail == Last(live) && emptyHead == First(idle)
      && HeadersMapped(|headers|, headerPages)
    }

    ghost function View(): (v: seq<Bin>)
      reads this
      ensures |v| == |live|
    {
      Bins(headers, live)
    }

    ghost predicate Valid()
      reads this
    {
      Links({}) && HeapInv(View()) && HeapEnd(View()) + PAGE <= HEAP_LIMIT
    }

    /** heap_init */
    constructor ()
      ensures Valid()
      ensures View() == [Bin(BIN_START, 0x1000, false)]
      ensures pages == Pages(BIN_START, 1)
    {
      headers := [CLEARED.(addr := BIN_START, size := 0x1000)];
      binHead, binTail, emptyHead := 0, 0, NULL;
      live, idle := [0], [];
      headerPages := Pages(0, 1);
      pages := Pages(BIN_START, 1);
    }

    /** find_free_bin: recycles the first idle header, or moves bin_hiaddr one header up. */
    method FindFreeBin() returns (slot: nat)
      requires Links({})
      modifies this`headers, this`emptyHead, this`headerPages, this`idle
      ensures Links({slot}) && slot < |headers|
      ensures old(idle) != [] ==> headers == old(headers) && old(idle) == [slot] + idle
      ensures old(idle) == [] ==> headers == old(headers) + [CLEARED] && slot == |old(headers)| && idle == []
      ensures View() == old(View())
    {
      hide Chains, Bins, HeadersMapped, Pages;
      if emptyHead != NULL {
        slot := emptyHead;
        ChainsPop(headers, live, idle);
        IdleLinks(headers, live, idle, {}, 0);
        emptyHead := headers[slot].next;
        idle := idle[1..];
        return;
      }
      slot := |headers|;
      ChainsGrow(headers, live, idle);
      MoreHeaders(slot, headerPages);
      headerPages := headerPages + Pages(HEADER_SIZE * slot, 0x2000);
      headers := headers + [CLEARED];
    }

    /** add_bin: a new free bin behind header `parent`, or the null pointer. */
    method AddBin(parent: int, addr: nat, size: nat, ghost k: nat) returns (r: int)
      requires Links({}) && k < |live| && parent == live[k]
      modifies this`headers, this`binTail, this`emptyHead, this`headerPages, this`idle, this`live, this`pages
      ensures Links({})
      ensures addr < BIN_START || size == 0 ==>
                r == NULL && headers == old(headers) && live == old(live) && idle == old(idle) && pages == old(pages)
      ensures addr >= BIN_START && size > 0 ==>
                && r >= 0 && live == Insert(old(live), k + 1, r)
                && View() == Insert(old(View()), k + 1, Bin(addr, size, false))
                && pages == old(pages) + Pages(addr, size + PAGE)
    {
      hide Chains, Bins, HeadersMapped, Pages, InRange;
      if addr < BIN_START {
        return NULL;
      }
      if size == 0 {
        return NULL;
      }
      var newbin := FindFreeBin();
      ChainsInRange(headers, live, idle, {newbin});
      LiveLinks(headers, live, idle, {newbin}, k);
      LinkNew(parent, newbin, addr, size, k);
      pages := pages + Pages(addr, size + PAGE);
      r := newbin;
    }

    /** The pointer writes of add_bin. */
    method LinkNew(parent: int, newbin: nat, addr: nat, size: nat, ghost k: nat)
      requires Links({newbin}) && k < |live| && parent == live[k] && newbin < |headers|
      modifies this`headers, this`binTail, this`live
      ensures Links({})
      ensures live == Insert(old(live), k + 1, newbin)
      ensures View() == Insert(old(View()), k + 1, Bin(addr, size, false))
    {
      hide Chains, Bins, HeadersMapped, InRange;
      ghost var h := headers;
      ChainsInsert(h, live, idle, newbin, k, addr, size);
      ChainsInRange(h, live, idle, {newbin});
      LiveLinks(h, live, idle, {newbin}, k);
      var next := headers[parent].next;
      headers := headers[newbin := CLEARED.(next := next, prev := parent)];
      if next != NULL {
        headers := SetPrev(headers, next, newbin);
      }
      headers := SetNext(headers, parent, newbin);
      if parent == binTail {
        binTail := newbin;
      }
      headers := headers[newbin := headers[newbin].(size := size, addr := addr)];
      live := Insert(live, k + 1, newbin);
      assert headers == LinkIn(h, parent, newbin, addr, size);
    }

    /** remove_bin: unlinks header `k` of the live list and hangs it at the end of the recycled list.
        The last bin there is stays where it is. */
    method RemoveBin(bin: int, ghost k: nat)
      requires Links({}) && k < |live| && bin == live[k]
      modifies this`headers, this`binHead, this`binTail, this`emptyHead, this`idle, this`live
      ensures Links({})
      ensures |old(live)| == 1 ==> headers == old(headers) && live == old(live)
      ensures |old(live)| > 1 ==>
                && live == Delete(old(live), k) && idle == old(idle) + [bin]
                && View() == Delete(old(View()), k)
    {
      hide Chains, Bins, HeadersMapped, InRange, NextLinked, Bypassed, Delete, First;
      DeleteEnds(live, k);
      ChainsRetire(headers, live, idle, k);
      ChainsInRange(headers, live, idle, {});
      LiveLinks(headers, live, idle, {}, k);
      UnlinkKeepsIdle(headers, live, idle, k);
      var next, prev := headers[bin].next, headers[bin].prev;
      Bypass(bin);
      if binHead == binTail && binHead == bin {
        return;
      }
      if binHead == bin {
        binHead := next;
      }
      if binTail == bin {
        binTail := prev;
      }
      headers := SetPrev(SetNext(headers, bin, NULL), bin, NULL);
      Recycle(bin);
      idle := idle + [bin];
      live := Delete(live, k);
    }

    /** The first two writes of remove_bin: the neighbours are linked past the bin. */
    method Bypass(bin: nat)
      requires bin < |headers| && NULL <= headers[bin].next < |headers| && NULL <= headers[bin].prev < |headers|
      modifies this`headers
      ensures headers == Bypassed(old(headers), bin)
      ensures old(headers[bin].next == headers[bin].prev == NULL) ==> headers == old(headers)
    {
      var next, prev := headers[bin].next, headers[bin].prev;
      if next != NULL {
        headers := SetPrev(headers, next, prev);
      }
      if prev != NULL {
        headers := SetNext(headers, prev, next);
      }
    }

    /** The end of remove_bin: an unlinked header goes behind the last recycled one. */
    method Recycle(bin: nat)
      requires InRange(idle, |headers|) && NextLinked(headers, idle) && emptyHead == First(idle) && bin < |headers|
      modifies this`headers, this`emptyHead
      ensures headers == if idle == [] then old(headers)
              else SetPrev(SetNext(old(headers), Last(idle), bin), bin, Last(idle))
      ensures emptyHead == First(idle + [bin])
    {
      if emptyHead != NULL {
        var emptyNext := LastIdle();
        headers := SetNext(headers, emptyNext, bin);
        headers := SetPrev(headers, bin, emptyNext);
      } else {
        emptyHead := bin;
      }
    }

    /** The walk of remove_bin to the end of the recycled list. */
    method LastIdle() returns (last: nat)
      requires InRange(idle, |headers|) && NextLinked(headers, idle) && idle != [] && emptyHead == First(idle)
      ensures last == Last(idle) && last < |headers|
    {
      last := emptyHead;
      ghost var m := 0;
      while headers[last].next != NULL
        invariant 0 <= m < |idle| && last == idle[m]
        invariant headers[last].next == if m + 1 < |idle| then idle[m + 1] else NULL
        decreases |idle| - m
      {
        last := headers[last].next;
        m := m + 1;
        assert m + 1 < |idle| ==> headers[idle[m]].next == idle[m + 1];
      }
    }

    /** The first half of a pass of merge_bin: the bytes of a free successor join the free bin. */
    method MergeNext(mergee: int, ghost k: nat) returns (merged: bool)
      requires Links({}) && k < |live| && mergee == live[k]
      modifies this`headers, this`binHead, this`binTail, this`emptyHead, this`idle, this`live
      ensures Links({})
      ensures var v := old(View());
        && merged == (k + 1 < |v| && !v[k].taken && !v[k + 1].taken)
        && View() == (if merged then Delete(v[k := v[k].(size := v[k].size + v[k + 1].size)], k + 1) else v)
        && |live| == |View()| && k < |live| && mergee == live[k]
    {
      hide Chains, Bins, HeadersMapped, InRange, Delete, First, Last;
      LiveLinks(headers, live, idle, {}, k);
      LiveBin(k);
      merged := false;
      if headers[mergee].next != NULL {
        LiveLinks(headers, live, idle, {}, k + 1);
        LiveBin(k + 1);
        var next := headers[mergee].next;
        if !headers[mergee].taken && !headers[next].taken {
          ghost var v := View();
          var size := headers[mergee].size + headers[next].size;
          ChainsWrite(headers, live, idle, k, v[k].(size := size));
          headers := headers[mergee := headers[mergee].(size := size)];
          assert View() == v[k := v[k].(size := size)];
          DeleteBefore(live, k + 1);
          RemoveBin(next, k + 1);
          merged := true;
        }
      }
    }

    /** The second half: the bin takes over the address and the bytes of a free predecessor. */
    method MergePrev(mergee: int, ghost k: nat) returns (merged: bool)
      requires Links({}) && k < |live| && mergee == live[k]
      modifies this`headers, this`binHead, this`binTail, this`emptyHead, this`idle, this`live
      ensures Links({})
      ensures var v := old(View());
        && merged == (k > 0 && !v[k].taken && !v[k - 1].taken)
        && View() == (if merged then Delete(v[k := Bin(v[k - 1].addr, v[k].size + v[k - 1].size, false)], k - 1) else v)
        && |live| == |View()| && var k' := if merged then k - 1 else k; k' < |live| && mergee == live[k']
    {
      hide Chains, Bins, HeadersMapped, InRange, Delete, First, Last;
      LiveLinks(headers, live, idle, {}, k);
      LiveBin(k);
      merged := false;
      if headers[mergee].prev != NULL {
        LiveLinks(headers, live, idle, {}, k - 1);
        LiveBin(k - 1);
        var prev := headers[mergee].prev;
        if !headers[mergee].taken && !headers[prev].taken {
          ghost var v := View();
          var size, addr := headers[mergee].size + headers[prev].size, headers[prev].addr;
          ChainsWrite(headers, live, idle, k, v[k].(size := size));
          headers := headers[mergee := headers[mergee].(size := size)];
          ChainsWrite(headers, live, idle, k, Bin(addr, size, false));
          headers := headers[mergee := headers[mergee].(addr := addr)];
          assert View() == v[k := Bin(addr, size, false)];
          DeleteAt(live, k - 1);
          RemoveBin(prev, k - 1);
          merged := true;
        }
      }
    }

    /** merge_bin: the bin absorbs the whole run of free bins around it. Each pass that merges shortens the live
        list. */
    method MergeBin(mergee: int, ghost k: nat)
      requires Links({}) && k < |live| && mergee == live[k] && Tiled(View()) && !View()[k].taken
      modifies this`headers, this`binHead, this`binTail, this`emptyHead, this`idle, this`live
      ensures Links({}) && FreedAt(old(View()), View(), k)
    {
      hide Absorbed, Tiled, Links, View, FreedAt, Delete;
      ghost var v, lo, hi := View(), k, k + 1;
      AbsorbSelf(v, k);
      var merged := true;
      while merged
        invariant 0 <= lo <= k < hi <= |v| && lo < |live|
        invariant Links({}) && mergee == live[lo] && |live| == |View()|
        invariant Absorbed(v, View(), lo, hi)
        invariant merged || ((lo > 0 ==> v[lo - 1].taken) && (hi < |v| ==> v[hi].taken))
        decreases |v| - hi + lo, merged
      {
        AbsorbNext(v, View(), lo, hi);
        merged := MergeNext(mergee, lo);
        if merged {
          hi := hi + 1;
        }
        AbsorbPrev(v, View(), lo, hi);
        var again := MergePrev(mergee, lo);
        if again {
          lo := lo - 1;
          merged := true;
        }
      }
      AbsorbedRun(v, View(), k, lo, hi);
    }

    /** append_bin: a new bin behind the last one. */
    method AppendBin(size: nat) returns (r: int)
      requires Links({}) && HeapEnd(View()) >= BIN_START
      modifies this`headers, this`binTail, this`emptyHead, this`headerPages, this`idle, this`live, this`pages
      ensures Links({})
      ensures size == 0 ==> r == NULL && View() == old(View()) && live == old(live) && pages == old(pages)
      ensures size > 0 ==>
                && r == Last(live) && |live| == |old(live)| + 1
                && View() == old(View()) + [Bin(HeapEnd(old(View())), size, false)]
                && pages == old(pages) + Pages(HeapEnd(old(View())), size + PAGE)
    {
      hide Chains, Bins, HeadersMapped, Pages;
      LiveBin(|live| - 1);
      var nextaddr := headers[binTail].addr + headers[binTail].size;
      r := AddBin(binTail, nextaddr, size, |live| - 1);
    }

    /** split_bin: cuts the bin to `s` bytes; the rest follows as a free bin. */
    method SplitBin(bin: int, s: nat, ghost k: nat)
      requires Links({}) && k < |live| && bin == live[k]
      requires View()[k].addr >= BIN_START && s <= View()[k].size
      modifies this`headers, this`binTail, this`emptyHead, this`headerPages, this`idle, this`live, this`pages
      ensures Links({}) && k < |live| && live[k] == bin
      ensures var v, b := old(View()), old(View()[k]);
        && View() == v[..k] + Cut(b, s)[0 := Bin(b.addr, s, b.taken)] + v[k + 1..]
        && pages == old(pages) + SplitRequests(b, s)
    {
      hide Chains, Bins, HeadersMapped, Pages, Insert, Cut;
      LiveBin(k);
      ghost var v, l := View(), live;
      CutInTwo(v, k, s);
      if headers[bin].size == s {
        return;
      }
      var sdif := headers[bin].size - s;
      var naddr := headers[bin].addr + s;
      var r := AddBin(bin, naddr, sdif, k);
      InsertBehind(l, k, r);
      LiveBin(k);
      ChainsWrite(headers, live, idle, k, v[k].(size := s));
      headers := headers[bin := headers[bin].(size := s)];
      assert View() == Insert(v, k + 1, Bin(naddr, sdif, false))[k := v[k].(size := s)];
    }

    /** find_best_fit: the first of the smallest free bins that are large enough, or the null pointer. */
    method FindBestFit(s: nat) returns (best: int, ghost k: nat)
      requires Links({})
      ensures best == NULL ==> NoFit(View(), s, 1)
      ensures best != NULL ==> k < |live| && best == live[k] && BestFit(View(), s, 1, k)
    {
      hide Chains, Bins, HeadersMapped;
      best, k := NULL, 0;
      var bin := binHead;
      ghost var i := 0;
      while bin != NULL
        invariant 0 <= i <= |live| && bin == if i < |live| then live[i] else NULL
        invariant best == NULL ==> forall j :: 0 <= j < i ==> !Fits(View()[j], s, 1)
        invariant best != NULL ==> k < i && best == live[k] && BestBelow(View(), s, 1, k, i)
        decreases |live| - i
      {
        LiveBin(i);
        LiveLinks(headers, live, idle, {}, i);
        if headers[bin].taken {
        } else if headers[bin].size < s {
        } else if best == NULL {
          best, k := bin, i;
        } else {
          LiveBin(k);
          var sdif := headers[bin].size - s;
          if headers[best].size - s > sdif {
            best, k := bin, i;
          }
        }
        bin := headers[bin].next;
        i := i + 1;
      }
    }

    /** The search loop of kalloc_a, which compares what the unrounded request leaves over as signed 32-bit numbers. The
        signs are right because sizes are 31-bit. */
    method FindAlignedFit(s: nat, rsize: nat, a: nat) returns (best: int, ghost k: nat)
      requires Links({}) && s <= rsize && a > 0
      requires forall j :: 0 <= j < |live| ==> View()[j].size < 0x8000_0000
      ensures best == NULL ==> NoFit(View(), rsize, a)
      ensures best != NULL ==> k < |live| && best == live[k] && BestFit(View(), rsize, a, k)
    {
      hide Chains, Bins, HeadersMapped, Int32;
      best, k := NULL, 0;
      var bin := binHead;
      ghost var i := 0;
      while bin != NULL
        invariant 0 <= i <= |live| && bin == if i < |live| then live[i] else NULL
        invariant best == NULL ==> forall j :: 0 <= j < i ==> !Fits(View()[j], rsize, a)
        invariant best != NULL ==> k < i && best == live[k] && BestBelow(View(), rsize, a, k, i)
        decreases |live| - i
      {
        LiveBin(i);
        LiveLinks(headers, live, idle, {}, i);
        if headers[bin].taken {
        } else if best == NULL && headers[bin].addr % a == 0 && headers[bin].size >= rsize {
          best, k := bin, i;
        } else if headers[bin].addr % a == 0 && headers[bin].size >= rsize {
          LiveBin(k);
          Int32Small(headers[bin].size - s);
          Int32Small(headers[best].size - s);
          var sdif := Int32(headers[bin].size - s);
          if Int32(headers[best].size - s) > sdif {
            best, k := bin, i;
          }
        }
        bin := headers[bin].next;
        i := i + 1;
      }
    }

    /** Growth is possible as long as the new bin and its page of slack stay below the page-table window. */
    ghost predicate Room(r: nat, a: nat)
      requires a > 0 && live != []
      reads this
    {
      NoFit(View(), r, a) ==> Top(View()) + (if a == 1 then 0 else Pad(View(), a)) + r + PAGE <= HEAP_LIMIT
    }

    /** kalloc */
    method Alloc(s: nat) returns (p: nat, ghost more: set<nat>)
      requires Valid() && (s > 0 ==> Room(RoundUp16(s), 1))
      modifies this
      ensures Valid() && Step(old(View()), Kalloc(s), View(), p)
      ensures Requests(old(View()), Kalloc(s), more) && pages == old(pages) + more
    {
      hide Links, Bins, Pages, HeapInv, BestFit, NoFit, Allocated, AllocationRequests, RoundUp16, Carve, Top, Base, Pad;
      more := {};
      if s == 0 {
        return 0, {};
      }
      var rsize := RoundUp16(s);
      ghost var v := View();
      ViewFacts(v);
      var bestbin: int;
      ghost var k: nat;
      bestbin, k := FindBestFit(rsize);
      if bestbin == NULL {
        bestbin, more := Grow(rsize);
        k := |live| - 1;
        AllocatedByGrowth(v, View(), rsize, 1);
      } else {
        FitOfBest(v, rsize, 1, k);
        AllocatedByFit(v, rsize, 1, k);
        more := SplitRequests(v[k], rsize);
      }
      p := TakeBin(bestbin, rsize, k);
      AllocationEnds(v, View(), rsize, 1, p);
    }

    /** The growth of kalloc: behind a taken last bin a new one, otherwise the last bin with the requested size. */
    method Grow(rsize: nat) returns (bestbin: int, ghost more: set<nat>)
      requires Links({}) && HeapEnd(View()) >= BIN_START && rsize > 0
      modifies this
      ensures Links({}) && bestbin == Last(live)
      ensures var v := old(View());
        && View() == Base(v) + [Bin(Top(v), rsize, false)]
        && more == (if v[|v| - 1].taken then Pages(Top(v), rsize + PAGE) else Pages(Top(v), rsize + 1))
        && pages == old(pages) + more
    {
      hide Chains, Bins, HeadersMapped, Pages;
      ghost var v, k := View(), |live| - 1;
      LiveBin(k);
      if headers[binTail].taken {
        bestbin := AppendBin(rsize);
        more := Pages(Top(v), rsize + PAGE);
      } else {
        bestbin := binTail;
        ChainsWrite(headers, live, idle, k, v[k].(size := rsize));
        headers := headers[bestbin := headers[bestbin].(size := rsize)];
        more := Pages(Top(v), rsize + 1);
        pages := pages + more;
      }
    }

    /** The end of kalloc and kalloc_a: the chosen bin is cut and marked. */
    method TakeBin(bestbin: int, rsize: nat, ghost k: nat) returns (p: nat)
      requires Links({}) && k < |live| && bestbin == live[k]
      requires View()[k].addr >= BIN_START && rsize <= View()[k].size
      modifies this
      ensures Links({}) && View() == Carve(old(View()), k, rsize) && p == old(View()[k]).addr
      ensures pages == old(pages) + SplitRequests(old(View()[k]), rsize)
    {
      hide Chains, Bins, HeadersMapped, Pages;
      ghost var v := View();
      SplitBin(bestbin, rsize, k);
      LiveBin(k);
      ChainsWrite(headers, live, idle, k, Bin(v[k].addr, rsize, true));
      headers := headers[bestbin := headers[bestbin].(taken := true)];
      p := headers[bestbin].addr;
    }

    /** kalloc_a. Its alignment test lets 0 pass, and then divides by it. */
    method AllocAligned(s: nat, a: nat) returns (p: nat, ghost more: set<nat>)
      requires Valid() && a > 0 && (s > 0 && a % 16 == 0 ==> Room(RoundUp16(s), a))
      modifies this
      ensures Valid() && Step(old(View()), KallocA(s, a), View(), p)
      ensures Requests(old(View()), KallocA(s, a), more) && pages == old(pages) + more
    {
      hide Links, Bins, Pages, HeapInv, BestFit, NoFit, Pad, PadRequests, Allocated, AllocationRequests, RoundUp16,
        Carve, Top, Base;
      more := {};
      if s == 0 {
        return 0, {};
      }
      if a % 16 != 0 {
        return 0, {};
      }
      var rsize := RoundUp16(s);
      ghost var v := View();
      ViewFacts(v);
      SizesBelow31(v);
      var bestbin: int;
      ghost var k: nat;
      bestbin, k := FindAlignedFit(s, rsize, a);
      if bestbin == NULL {
        bestbin, more := GrowAligned(rsize, a);
        k := |live| - 1;
        AllocatedByGrowth(v, View(), rsize, a);
      } else {
        FitOfBest(v, rsize, a, k);
        AllocatedByFit(v, rsize, a, k);
        more := SplitRequests(v[k], rsize);
      }
      p := TakeBin(bestbin, rsize, k);
      AllocationEnds(v, View(), rsize, a, p);
    }

    /** The growth of kalloc_a: padding up to a multiple of `a`, then the new bin. */
    method GrowAligned(rsize: nat, a: nat) returns (bestbin: int, ghost more: set<nat>)
      requires Links({}) && Top(View()) >= BIN_START && HeapEnd(View()) >= BIN_START && a > 0 && rsize > 0
      modifies this
      ensures Links({}) && bestbin == Last(live)
      ensures var v := old(View()); var pad := Pad(v, a);
        && View() == Base(v) + (if pad == 0 then [] else [Bin(Top(v), pad, false)]) + [Bin(Top(v) + pad, rsize, false)]
        && more == PadRequests(v, pad) + Pages(Top(v) + pad, rsize + PAGE)
        && pages == old(pages) + more
    {
      hide Links, View, Pages, Pad, Base, PadRequests;
      ghost var w;
      more := AlignTail(a);
      w := View();
      bestbin := AppendBin(rsize);
      more := more + Pages(HeapEnd(w), rsize + PAGE);
    }

    method AlignTail(a: nat) returns (ghost more: set<nat>)
      requires Links({}) && HeapEnd(View()) >= BIN_START && Top(View()) >= BIN_START && a > 0
      modifies this
      ensures Links({}) && View() != []
      ensures var v, pad := old(View()), Pad(old(View()), a);
        && View() == Base(v) + (if pad == 0 then [] else [Bin(Top(v), pad, false)]) && HeapEnd(View()) == Top(v) + pad
        && more == PadRequests(v, pad) && pages == old(pages) + more
    {
      hide Links, View, Pages;
      var alidif;
      alidif, more := PadTail(a);
      var _ := AppendBin(alidif);
    }

    /** A free tail is resized to the padding; behind a taken one the padding is still to be appended. */
    method PadTail(a: nat) returns (alidif: nat, ghost more: set<nat>)
      requires Links({}) && a > 0
      modifies this`headers, this`pages
      ensures Links({}) && View() != []
      ensures var v, w, pad := old(View()), View(), Pad(old(View()), a);
        && alidif == (if v[|v| - 1].taken then pad else 0) && HeapEnd(w) + alidif == Top(v) + pad
        && w + (if alidif == 0 then [] else [Bin(HeapEnd(w), alidif, false)])
           == Base(v) + (if pad == 0 then [] else [Bin(Top(v), pad, false)])
        && more == PadRequests(v, pad)
        && pages == old(pages) + if v[|v| - 1].taken then {} else more
    {
      hide Chains, Bins, HeadersMapped, Pages;
      ghost var v, k := View(), |live| - 1;
      LiveBin(k);
      alidif, more := 0, {};
      if headers[binTail].taken {
        var end := headers[binTail].addr + headers[binTail].size;
        PadOf(end, a);
        if a - end % a != a {
          alidif := a - end % a;
          more := Pages(end, alidif + PAGE);
        }
      } else {
        var size := a - headers[binTail].addr % a;
        ChainsWrite(headers, live, idle, k, v[k].(size := size));
        headers := headers[binTail := headers[binTail].(size := size)];
        more := Pages(headers[binTail].addr, size);
        pages := pages + more;
        assert View() == v[..k] + [v[k].(size := size)];
      }
    }

    /** kfree */
    method Free(p: nat)
      requires Valid()
      modifies this
      ensures Valid() && Step(old(View()), Kfree(p), View(), 0)
      ensures pages == old(pages)
    {
      hide Chains, Bins, HeadersMapped, HeapInv, FreedAt;
      ghost var v := View();
      InvParts(v);
      var bin := binHead;
      ghost var i := 0;
      while bin != NULL
        invariant 0 <= i <= |live| && bin == if i < |live| then live[i] else NULL
        invariant Links({}) && View() == v && pages == old(pages)
        invariant forall j :: 0 <= j < i ==> v[j].addr != p
        decreases |live| - i
      {
        LiveBin(i);
        LiveLinks(headers, live, idle, {}, i);
        if headers[bin].addr == p {
          Release(bin, i);
          FreedUnmark(v, View(), i);
          FreeLaw(v, View(), p);
          FreeKeepsEnd(v, View(), p);
          return;
        }
        bin := headers[bin].next;
        i := i + 1;
      }
    }

    /** The bin with the address is found: it is marked free and merged with its neighbours. */
    method Release(bin: int, ghost i: nat)
      requires Links({}) && i < |live| && bin == live[i] && Tiled(View())
      modifies this`headers, this`binHead, this`binTail, this`emptyHead, this`idle, this`live
      ensures Links({}) && FreedAt(old(View())[i := old(View())[i].(taken := false)], View(), i)
    {
      hide Chains, Bins, HeadersMapped, FreedAt;
      ghost var v := View();
      LiveBin(i);
      ChainsWrite(headers, live, idle, i, v[i].(taken := false));
      headers := headers[bin := headers[bin].(taken := false)];
      TiledUnmark(v, i);
      MergeBin(bin, i);
    }

    lemma LiveBin(k: nat)
      requires Links({}) && k < |live|
      ensures live[k] < |headers| && View()[k] == BinOf(headers, live[k])
    {
    }
  }

  /** Marking the bin that growth has put at the end. */
  lemma TakeLast(v: seq<Bin>, w: seq<Bin>, b: Bin)
    requires w == v + [b] && !b.taken
    ensures Carve(w, |v|, b.size) == v + [b.(taken := true)]
    ensures SplitRequests(b, b.size) == {}
  {
    assert w[..|v|] == v && w[|v|] == b;
  }

  lemma PadOf(end: nat, a: nat)
    requires a > 0
    ensures a - end % a == a <==> end % a == 0
  {
  }

  lemma TiledUnmark(v: seq<Bin>, k: nat)
    requires Tiled(v) && k < |v|
    ensures Tiled(v[k := v[k].(taken := false)])
  {
  }

  /** The mark of the freed bin itself plays no part in the run around it. */
  lemma FreedUnmark(v: seq<Bin>, w: seq<Bin>, k: nat)
    requires k < |v| && FreedAt(v[k := v[k].(taken := false)], w, k)
    ensures FreedAt(v, w, k)
  {
    hide RunStart, RunEnd;
    var u := v[k := v[k].(taken := false)];
    var lo, hi := RunStart(u, k), RunEnd(u, k);
    assert forall j :: lo <= j < hi && j != k ==> v[j] == u[j];
    RunIsMaximal(v, k, lo, hi);
    assert u[..lo] == v[..lo] && u[hi..] == v[hi..];
  }

  /** Taking a best-fitting bin is an allocation. */
  lemma AllocatedByFit(v: seq<Bin>, r: nat, a: nat, k: nat)
    requires a > 0 && r > 0 && BestFit(v, r, a, k)
    ensures Allocated(v, Carve(v, k, r), r, a, v[k].addr) && AllocationRequests(v, r, a, SplitRequests(v[k], r))
  {
    hide Carve, SplitRequests;
  }

  /** So is taking the bin that growth has put at the end. */
  lemma AllocatedByGrowth(v: seq<Bin>, w: seq<Bin>, r: nat, a: nat)
    requires |v| > 0 && a > 0 && r > 0 && NoFit(v, r, a)
    requires a == 1 ==> w == Base(v) + [Bin(Top(v), r, false)]
    requires a != 1 ==>
               w == Base(v) + (if Pad(v, a) == 0 then [] else [Bin(Top(v), Pad(v, a), false)])
                    + [Bin(Top(v) + Pad(v, a), r, false)]
    ensures |w| > 0 && w[|w| - 1].size == r && SplitRequests(w[|w| - 1], r) == {}
    ensures Allocated(v, Carve(w, |w| - 1, r), r, a, w[|w| - 1].addr)
    ensures AllocationRequests(v, r, a,
                               if a != 1 then PadRequests(v, Pad(v, a)) + Pages(Top(v) + Pad(v, a), r + PAGE)
                               else if v[|v| - 1].taken then Pages(Top(v), r + PAGE)
                               else Pages(Top(v), r + 1))
  {
    hide NoFit, Pad, Top, Base;
    TakeLast(w[..|w| - 1], w, w[|w| - 1]);
  }

  lemma AllocationEnds(v: seq<Bin>, v': seq<Bin>, r: nat, a: nat, p: nat)
    requires HeapInv(v) && r > 0 && r % 16 == 0 && a > 0 && (a == 1 || a % 16 == 0)
    requires Allocated(v, v', r, a, p)
    requires HeapEnd(v) + PAGE <= HEAP_LIMIT
    requires NoFit(v, r, a) ==> Top(v) + (if a == 1 then 0 else Pad(v, a)) + r + PAGE <= HEAP_LIMIT
    ensures HeapInv(v') && HeapEnd(v') + PAGE <= HEAP_LIMIT
  {
    hide HeapInv, NoFit, Pad;
    AllocationLaw(v, v', r, a, p);
    if !NoFit(v, r, a) {
      var k: nat :| BestFit(v, r, a, k) && v' == Carve(v, k, r);
      FitOfBest(v, r, a, k);
      CarveKeepsEnd(v, k, r);
    }
  }

  lemma ViewFacts(v: seq<Bin>)
    requires HeapInv(v)
    ensures |v| > 0 && HeapEnd(v) >= BIN_START && Top(v) >= BIN_START
    ensures forall k :: 0 <= k < |v| ==> v[k].addr >= BIN_START
  {
    BaseLaw(v);
    forall k | 0 <= k < |v|
      ensures v[k].addr >= BIN_START
    {
      TilesBounds(v, BIN_START, HeapEnd(v), v[k]);
    }
  }

  lemma SizesBelow31(v: seq<Bin>)
    requires HeapInv(v) && HeapEnd(v) <= HEAP_LIMIT
    ensures forall k :: 0 <= k < |v| ==> v[k].size < 0x8000_0000
  {
    forall k | 0 <= k < |v|
      ensures v[k].size < 0x8000_0000
    {
      TilesBounds(v, BIN_START, HeapEnd(v), v[k]);
    }
  }

  /** Bin `k` is the best fit among the first `n` bins. */
  ghost predicate BestBelow(v: seq<Bin>, r: nat, a: nat, k: nat, n: nat)
    requires a > 0 && n <= |v|
  {
    && k < n && Fits(v[k], r, a)
    && (forall j :: 0 <= j < n && Fits(v[j], r, a) ==> v[k].size <= v[j].size)
    && forall j :: 0 <= j < k && Fits(v[j], r, a) ==> v[k].size < v[j].size
  }

  /** `w` is `v` with the free bins `lo..hi` made one. */
  ghost predicate Absorbed(v: seq<Bin>, w: seq<Bin>, lo: nat, hi: nat)
  {
    && lo < hi <= |v| && v[lo].addr <= v[hi - 1].End()
    && (forall j :: lo <= j < hi ==> !v[j].taken)
    && w == Absorb(v, lo, hi)
  }

  lemma AbsorbSelf(v: seq<Bin>, k: nat)
    requires k < |v| && !v[k].taken
    ensures Absorbed(v, v, k, k + 1)
  {
    assert v == v[..k] + [v[k]] + v[k + 1..];
  }

  /** What follows an absorbed run, and what joining it gives. */
  lemma AbsorbNext(v: seq<Bin>, w: seq<Bin>, lo: nat, hi: nat)
    requires Tiled(v) && Absorbed(v, w, lo, hi)
    ensures |w| == |v| - (hi - lo) + 1 && !w[lo].taken
    ensures hi < |v| ==> w[lo + 1] == v[hi]
    ensures hi < |v| && !v[hi].taken ==>
              Absorbed(v, Delete(w[lo := w[lo].(size := w[lo].size + w[lo + 1].size)], lo + 1), lo, hi + 1)
  {
    if hi < |v| {
      assert v[hi].addr == v[hi - 1].End();
    }
  }

  /** The same for what precedes it. */
  lemma AbsorbPrev(v: seq<Bin>, w: seq<Bin>, lo: nat, hi: nat)
    requires Tiled(v) && Absorbed(v, w, lo, hi)
    ensures |w| == |v| - (hi - lo) + 1 && !w[lo].taken
    ensures hi < |v| ==> w[lo + 1] == v[hi]
    ensures lo > 0 ==> w[lo - 1] == v[lo - 1]
    ensures lo > 0 && !v[lo - 1].taken ==>
              Absorbed(v, Delete(w[lo := Bin(w[lo - 1].addr, w[lo].size + w[lo - 1].size, false)], lo - 1), lo - 1, hi)
  {
    if lo > 0 {
      assert v[lo].addr == v[lo - 1].End();
    }
  }

  /** A run between taken neighbours is the maximal one. */
  lemma AbsorbedRun(v: seq<Bin>, w: seq<Bin>, k: nat, lo: nat, hi: nat)
    requires Absorbed(v, w, lo, hi) && lo <= k < hi
    requires (lo > 0 ==> v[lo - 1].taken) && (hi < |v| ==> v[hi].taken)
    ensures FreedAt(v, w, k)
  {
    hide RunStart, RunEnd;
    RunIsMaximal(v, k, lo, hi);
  }

  lemma RunIsMaximal(v: seq<Bin>, k: nat, lo: nat, hi: nat)
    requires lo <= k < hi <= |v|
    requires forall j :: lo <= j < hi && j != k ==> !v[j].taken
    requires (lo > 0 ==> v[lo - 1].taken) && (hi < |v| ==> v[hi].taken)
    ensures RunStart(v, k) == lo && RunEnd(v, k) == hi
  {
    hide RunStart, RunEnd;
  }
}
