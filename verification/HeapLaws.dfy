/** Laws of the heap over single calls and over whole runs. */
module HeapLaws {
  import opened PageUnits
  import opened HeapSpec
  import opened Arithmetic

  lemma TilesSplit(v: seq<Bin>, from: nat, to: nat, k: nat) returns (mid: nat)
    requires Tiles(v, from, to) && k <= |v|
    ensures Tiles(v[..k], from, mid) && Tiles(v[k..], mid, to)
    ensures k < |v| ==> mid == v[k].addr
    ensures k > 0 ==> mid == v[k - 1].End()
  {
    mid := if k < |v| then v[k].addr else to;
    if 0 < k < |v| {
      assert v[(k - 1) + 1].addr == v[k - 1].End();
    }
  }

  lemma TilesConcat(v: seq<Bin>, w: seq<Bin>, from: nat, mid: nat, to: nat)
    requires Tiles(v, from, mid) && Tiles(w, mid, to)
    ensures Tiles(v + w, from, to)
  {
    forall i, j | 0 <= i < j < |v + w| && j == i + 1
      ensures (v + w)[j].addr == (v + w)[i].End()
    {
      if i >= |v| {
        assert w[j - |v|].addr == w[i - |v|].End();
      }
    }
  }

  /** Bins `lo..hi` can be replaced by any bins that cover the same bytes. */
  lemma TilesReplace(v: seq<Bin>, from: nat, to: nat, lo: nat, hi: nat, mid: seq<Bin>)
    requires Tiles(v, from, to) && lo < hi <= |v|
    requires mid != [] && Tiles(mid, v[lo].addr, v[hi - 1].End())
    ensures Tiles(v[..lo] + mid + v[hi..], from, to)
  {
    var a := TilesSplit(v, from, to, lo);
    var b := TilesSplit(v, from, to, hi);
    TilesConcat(v[..lo], mid, from, a, b);
    TilesConcat(v[..lo] + mid, v[hi..], from, b, to);
  }

  lemma {:induction false} TilesBounds(v: seq<Bin>, from: nat, to: nat, b: Bin)
    requires Tiles(v, from, to) && b in v
    ensures from <= b.addr && b.End() <= to
  {
    if b != v[0] {
      var mid := TilesSplit(v, from, to, 1);
      TilesBounds(v[1..], mid, to, b);
    } else if |v| > 1 {
      var mid := TilesSplit(v, from, to, 1);
      TilesBounds(v[1..], mid, to, v[|v| - 1]);
    }
  }

  /** Distinct bins of a tiled heap do not overlap. */
  lemma TiledDisjoint(v: seq<Bin>, from: nat, to: nat, i: nat, j: nat)
    requires Tiles(v, from, to) && i < j < |v|
    ensures v[i].End() <= v[j].addr
  {
    var mid := TilesSplit(v, from, to, i + 1);
    assert v[j] == v[i + 1..][j - i - 1];
    TilesBounds(v[i + 1..], mid, to, v[j]);
  }

  lemma CoalescedConcat(v: seq<Bin>, w: seq<Bin>)
    requires Coalesced(v) && Coalesced(w)
    requires v == [] || w == [] || v[|v| - 1].taken || w[0].taken
    ensures Coalesced(v + w)
  {
    forall i, j | 0 <= i < j < |v + w| && j == i + 1
      ensures (v + w)[i].taken || (v + w)[j].taken
    {
      if i >= |v| {
        assert w[i - |v|].taken || w[j - |v|].taken;
      }
    }
  }

  lemma CoalescedSplit(v: seq<Bin>, k: nat)
    requires Coalesced(v) && k <= |v|
    ensures Coalesced(v[..k]) && Coalesced(v[k..])
  {
    forall i, j | 0 <= i < j < |v[k..]| && j == i + 1
      ensures v[k..][i].taken || v[k..][j].taken
    {
      assert v[k + i].taken || v[k + j].taken;
    }
  }

  lemma CoalescedReplace(v: seq<Bin>, lo: nat, hi: nat, mid: seq<Bin>)
    requires lo <= hi <= |v| && mid != []
    requires Coalesced(v[..lo]) && Coalesced(v[hi..]) && Coalesced(mid)
    requires lo > 0 ==> v[lo - 1].taken || mid[0].taken
    requires hi < |v| ==> v[hi].taken || mid[|mid| - 1].taken
    ensures Coalesced(v[..lo] + mid + v[hi..])
  {
    CoalescedConcat(v[..lo], mid);
    CoalescedConcat(v[..lo] + mid, v[hi..]);
  }

  lemma LiveReplace(v: seq<Bin>, lo: nat, hi: nat, mid: seq<Bin>)
    requires lo <= hi <= |v| && forall j :: lo <= j < hi ==> !v[j].taken
    ensures Live(v[..lo] + mid + v[hi..]) == Live(v) + Live(mid)
  {
    var w := v[..lo] + mid + v[hi..];
    forall b | b in Live(v)
      ensures b in w
    {
      var j :| 0 <= j < |v| && v[j] == b;
      if j < lo {
        assert w[j] == b;
      } else {
        assert w[j - hi + lo + |mid|] == b;
      }
    }
    forall b | b in mid
      ensures b in w
    {
      var j :| 0 <= j < |mid| && mid[j] == b;
      assert w[lo + j] == b;
    }
  }

  lemma SumOf16(a: nat, b: nat)
    requires a % 16 == 0 && b % 16 == 0
    ensures (a + b) % 16 == 0 && (a - b) % 16 == 0
  {
  }

  lemma CutTiles(b: Bin, r: nat)
    requires Tiles([b], b.addr, b.End()) && 0 < r <= b.size && r % 16 == 0
    ensures Tiles(Cut(b, r), b.addr, b.End())
  {
    var taken, rest := Bin(b.addr, r, true), Bin(b.addr + r, b.size - r, false);
    assert [b][0] == b;
    if b.size == r {
      assert Cut(b, r) == [taken];
    } else {
      assert Cut(b, r) == [taken, rest];
      assert b.addr % 16 == 0 && b.size % 16 == 0;
      SumOf16(b.addr, r);
      SumOf16(b.size, r);
    }
  }

  /** `b` lies apart from every live bin of `v`. */
  ghost predicate Apart(v: seq<Bin>, b: Bin)
  {
    forall l :: l in Live(v) ==> l.End() <= b.addr || b.End() <= l.addr
  }

  /** Cutting a free bin: the request becomes a live bin in the place of free bytes, all other live bins stay. */
  lemma CarveLaw(v: seq<Bin>, k: nat, r: nat)
    requires HeapInv(v) && k < |v| && !v[k].taken && 0 < r <= v[k].size && r % 16 == 0
    ensures HeapInv(Carve(v, k, r))
    ensures Live(Carve(v, k, r)) == Live(v) + {Bin(v[k].addr, r, true)}
    ensures Apart(v, Bin(v[k].addr, r, true))
  {
    var mid := Cut(v[k], r);
    assert Tiled(Carve(v, k, r)) by {
      CutTiles(v[k], r);
      TilesReplace(v, BIN_START, HeapEnd(v), k, k + 1, mid);
    }
    assert Coalesced(Carve(v, k, r)) by {
      CoalescedSplit(v, k);
      CoalescedSplit(v, k + 1);
      assert k + 1 < |v| ==> v[k].taken || v[k + 1].taken;
      CoalescedReplace(v, k, k + 1, mid);
    }
    assert Live(Carve(v, k, r)) == Live(v) + {Bin(v[k].addr, r, true)} by {
      LiveReplace(v, k, k + 1, mid);
    }
    forall l | l in Live(v)
      ensures l.End() <= v[k].addr || v[k].End() <= l.addr
    {
      var j :| 0 <= j < |v| && v[j] == l;
      TiledDisjoint(v, BIN_START, HeapEnd(v), if j < k then j else k, if j < k then k else j);
    }
  }

  lemma BaseTiles(v: seq<Bin>)
    requires HeapInv(v)
    ensures Tiles(Base(v), BIN_START, Top(v)) && Coalesced(Base(v)) && Top(v) % 16 == 0
    ensures Base(v) != [] ==> Base(v)[|Base(v)| - 1].taken
  {
    hide Tiles, Coalesced;
    var n := |v| - 1;
    var mid := TilesSplit(v, BIN_START, HeapEnd(v), n);
    CoalescedSplit(v, n);
    TopOf16(v);
    BeforeLast(v);
  }

  lemma BeforeLast(v: seq<Bin>)
    requires |v| > 1 ==> Coalesced(v)
    ensures |v| > 1 ==> v[|v| - 2].taken || v[|v| - 1].taken
  {
  }

  lemma TopOf16(v: seq<Bin>)
    requires Tiled(v)
    ensures Top(v) % 16 == 0
  {
    var b := v[|v| - 1];
    assert b.addr % 16 == 0 && b.size % 16 == 0;
  }

  lemma BaseLive(v: seq<Bin>)
    requires |v| > 0
    ensures Live(Base(v)) == Live(v)
  {
    var n := |v| - 1;
    if !v[n].taken {
      LiveReplace(v, n, n + 1, []);
      assert v[..n] + [] + v[n + 1..] == v[..n];
    }
  }

  lemma BaseLaw(v: seq<Bin>)
    requires HeapInv(v)
    ensures Tiles(Base(v), BIN_START, Top(v)) && Coalesced(Base(v))
    ensures Base(v) != [] ==> Base(v)[|Base(v)| - 1].taken
    ensures Live(Base(v)) == Live(v)
    ensures Top(v) % 16 == 0
    ensures forall l :: l in Live(v) ==> l.End() <= Top(v)
  {
    hide Tiles, Coalesced, Base, Top;
    BaseTiles(v);
    BaseLive(v);
    forall l | l in Live(v)
      ensures l.End() <= Top(v)
    {
      TilesBounds(Base(v), BIN_START, Top(v), l);
    }
  }

  /** One more bin at the end. */
  lemma Append(v: seq<Bin>, to: nat, b: Bin)
    requires Tiles(v, BIN_START, to) && Coalesced(v) && (v == [] || v[|v| - 1].taken || b.taken)
    requires b.addr == to && b.size > 0 && to % 16 == 0 && b.size % 16 == 0
    ensures Tiles(v + [b], BIN_START, b.End()) && Coalesced(v + [b])
    ensures Live(v + [b]) == if b.taken then Live(v) + {b} else Live(v)
  {
    TilesConcat(v, [b], BIN_START, to, b.End());
    CoalescedConcat(v, [b]);
  }

  lemma GrowLaw(v: seq<Bin>, r: nat)
    requires HeapInv(v) && r > 0 && r % 16 == 0
    ensures HeapInv(Grow(v, r))
    ensures Live(Grow(v, r)) == Live(v) + {Bin(Top(v), r, true)}
    ensures Apart(v, Bin(Top(v), r, true))
  {
    BaseLaw(v);
    Append(Base(v), Top(v), Bin(Top(v), r, true));
  }

  lemma PadLaw(v: seq<Bin>, a: nat)
    requires |v| > 0 && a > 0
    ensures (Top(v) + Pad(v, a)) % a == 0
    ensures Top(v) % 16 == 0 && a % 16 == 0 ==> Pad(v, a) % 16 == 0
  {
    PadReachesMultiple(Top(v), a);
    if Top(v) % 16 == 0 && a % 16 == 0 {
      RemainderOf16(Top(v), a);
    }
  }

  lemma GrowPaddedLaw(v: seq<Bin>, r: nat, pad: nat)
    requires HeapInv(v) && r > 0 && r % 16 == 0 && pad % 16 == 0
    ensures HeapInv(GrowPadded(v, r, pad))
    ensures Live(GrowPadded(v, r, pad)) == Live(v) + {Bin(Top(v) + pad, r, true)}
    ensures Apart(v, Bin(Top(v) + pad, r, true))
  {
    hide Tiles, Coalesced, Live, Base, Top;
    BaseLaw(v);
    var w := Base(v);
    if pad != 0 {
      Append(w, Top(v), Bin(Top(v), pad, false));
      w := w + [Bin(Top(v), pad, false)];
    }
    var b := Bin(Top(v) + pad, r, true);
    Append(w, b.addr, b);
    assert GrowPadded(v, r, pad) == w + [b];
  }

  /** Every allocation keeps the invariant and adds one live bin of the right size and alignment, apart from all
      others. */
  lemma AllocationLaw(v: seq<Bin>, v': seq<Bin>, r: nat, a: nat, p: nat)
    requires HeapInv(v) && r > 0 && r % 16 == 0 && a > 0 && (a == 1 || a % 16 == 0)
    requires Allocated(v, v', r, a, p)
    ensures HeapInv(v')
    ensures Live(v') == Live(v) + {Bin(p, r, true)} && p % 16 == 0 && p % a == 0
    ensures Apart(v, Bin(p, r, true))
  {
    hide Coalesced, Live, Apart, Carve, NoFit, Pad, Base;
    if NoFit(v, r, a) {
      BaseLaw(v);
      if a == 1 {
        GrowLaw(v, r);
      } else {
        PadLaw(v, a);
        GrowPaddedLaw(v, r, Pad(v, a));
      }
    } else {
      var k: nat :| BestFit(v, r, a, k) && v' == Carve(v, k, r) && p == v[k].addr;
      CarveLaw(v, k, r);
    }
  }

  /** The address that an allocation answers where no free bin has the room at an aligned address: the end of the bins
      that are kept, or, if an alignment is asked for, the next multiple of it. Behind a free last bin, which becomes
      the padding, the end itself does not count. */
  lemma GrownAddress(v: seq<Bin>, v': seq<Bin>, r: nat, a: nat, p: nat, m: nat)
    requires |v| > 0 && r > 0 && a > 0 && Allocated(v, v', r, a, p)
    requires forall b :: b in v ==> b.taken || b.size < r || b.addr % a != 0
    ensures var last := v[|v| - 1];
      var kept, end := if last.taken then v else v[..|v| - 1], if last.taken then last.addr + last.size else last.addr;
      && end <= p && v' == kept + (if p == end then [] else [Bin(end, p - end, false)]) + [Bin(p, r, true)]
      && (a == 1 ==> p == end)
      && (a != 1 ==>
            && p % a == 0 && p <= end + a && (end < m < p ==> m % a != 0)
            && (p == end <==> last.taken && end % a == 0))
  {
    assert NoFit(v, r, a);
    if a != 1 {
      PadLaw(v, a);
      if Top(v) < m < Top(v) + Pad(v, a) {
        PadPassesNoMultiple(Top(v), a, m);
      }
    }
  }

  /** Where a free bin has the room at an aligned address, the answer is the first of the smallest such bins; what it
      does not need of that bin stays free. */
  lemma FittedAddress(v: seq<Bin>, v': seq<Bin>, r: nat, a: nat, p: nat) returns (k: nat)
    requires |v| > 0 && r > 0 && a > 0 && Allocated(v, v', r, a, p)
    requires exists b :: b in v && !b.taken && b.size >= r && b.addr % a == 0
    ensures k < |v| && p == v[k].addr && p % a == 0 && !v[k].taken && r <= v[k].size
    ensures v' == v[..k]
                  + ([Bin(p, r, true)] + if v[k].size == r then [] else [Bin(p + r, v[k].size - r, false)])
                  + v[k + 1..]
    ensures forall j :: 0 <= j < |v| && !v[j].taken && v[j].size >= r && v[j].addr % a == 0 ==>
              v[k].size < v[j].size || (v[k].size == v[j].size && k <= j)
  {
    hide Carve, NoFit, BestFit, Allocated;
    SomeFit(v, r, a);
    k := BestBin(v, v', r, a, p);
    CarvedIs(v, r, a, k);
  }

  lemma BestBin(v: seq<Bin>, v': seq<Bin>, r: nat, a: nat, p: nat) returns (k: nat)
    requires |v| > 0 && r > 0 && a > 0 && Allocated(v, v', r, a, p) && !NoFit(v, r, a)
    ensures k < |v| && BestFit(v, r, a, k) && r <= v[k].size && v' == Carve(v, k, r) && p == v[k].addr
  {
    hide Carve, NoFit;
    k :| BestFit(v, r, a, k) && v' == Carve(v, k, r) && p == v[k].addr;
  }

  lemma SomeFit(v: seq<Bin>, r: nat, a: nat)
    requires a > 0 && exists b :: b in v && !b.taken && b.size >= r && b.addr % a == 0
    ensures !NoFit(v, r, a)
  {
    var b :| b in v && !b.taken && b.size >= r && b.addr % a == 0;
    var j :| 0 <= j < |v| && v[j] == b;
    assert Fits(v[j], r, a);
  }

  lemma CarvedIs(v: seq<Bin>, r: nat, a: nat, k: nat)
    requires a > 0 && BestFit(v, r, a, k)
    ensures !v[k].taken && r <= v[k].size && v[k].addr % a == 0
    ensures var p := v[k].addr;
      Carve(v, k, r) == v[..k]
                        + ([Bin(p, r, true)] + if v[k].size == r then [] else [Bin(p + r, v[k].size - r, false)])
                        + v[k + 1..]
    ensures forall j :: 0 <= j < |v| && !v[j].taken && v[j].size >= r && v[j].addr % a == 0 ==>
              v[k].size < v[j].size || (v[k].size == v[j].size && k <= j)
  {
    forall j | 0 <= j < |v| && !v[j].taken && v[j].size >= r && v[j].addr % a == 0
      ensures v[k].size < v[j].size || (v[k].size == v[j].size && k <= j)
    {
      assert Fits(v[j], r, a);
    }
  }

  /** The pages that such a growth asks the pager for, a page of slack with every bin that it adds. */
  lemma GrownRequests(v: seq<Bin>, v': seq<Bin>, r: nat, a: nat, p: nat, pages: set<nat>)
    requires |v| > 0 && r > 0 && a > 0 && Allocated(v, v', r, a, p) && AllocationRequests(v, r, a, pages)
    requires forall b :: b in v ==> b.taken || b.size < r || b.addr % a != 0
    ensures var last := v[|v| - 1];
      var end := if last.taken then last.addr + last.size else last.addr;
      && end <= p
      && pages ==
         if a == 1 then Pages(p, if last.taken then r + 0x1000 else r + 1)
         else (if p == end then {} else Pages(end, if last.taken then p - end + 0x1000 else p - end))
              + Pages(p, r + 0x1000)
  {
    hide Pages;
    GrownAddress(v, v', r, a, p, 0);
    assert NoFit(v, r, a);
  }

  lemma AddrsDistinct(v: seq<Bin>, i: nat, j: nat)
    requires Tiled(v) && i < |v| && j < |v| && v[i].addr == v[j].addr
    ensures i == j
  {
    if i != j {
      TiledDisjoint(v, BIN_START, HeapEnd(v), if i < j then i else j, if i < j then j else i);
    }
  }

  lemma SpanOf16(b: Bin, from: nat)
    requires from % 16 == 0 && b.addr % 16 == 0 && b.size % 16 == 0 && from <= b.End()
    ensures (b.End() - from) % 16 == 0
  {
    var x, y, z := b.addr / 16, b.size / 16, from / 16;
    assert b.addr == 16 * x && b.size == 16 * y && from == 16 * z;
    assert b.End() - from == 16 * (x + y - z);
  }

  lemma SpanTiles(v: seq<Bin>, lo: nat, hi: nat)
    requires Tiled(v) && lo < hi <= |v| && (lo < hi - 1 ==> v[lo].End() <= v[hi - 1].addr)
    ensures v[lo].addr < v[hi - 1].End() && v[lo].addr >= BIN_START
    ensures Tiles([Bin(v[lo].addr, v[hi - 1].End() - v[lo].addr, false)], v[lo].addr, v[hi - 1].End())
  {
    TilesBounds(v, BIN_START, HeapEnd(v), v[lo]);
    SpanOf16(v[hi - 1], v[lo].addr);
  }

  lemma FreeAtTiled(v: seq<Bin>, v': seq<Bin>, k: nat)
    requires Tiled(v) && k < |v| && FreedAt(v, v', k)
    ensures Tiled(v')
  {
    hide RunStart, RunEnd, Tiles;
    var lo, hi := RunStart(v, k), RunEnd(v, k);
    if lo < hi - 1 {
      TiledDisjoint(v, BIN_START, HeapEnd(v), lo, hi - 1);
    }
    SpanTiles(v, lo, hi);
    var b := Bin(v[lo].addr, v[hi - 1].End() - v[lo].addr, false);
    TilesReplace(v, BIN_START, HeapEnd(v), lo, hi, [b]);
  }

  lemma FreeAtCoalesced(v: seq<Bin>, v': seq<Bin>, k: nat)
    requires Coalesced(v) && k < |v| && FreedAt(v, v', k)
    ensures Coalesced(v')
  {
    hide Coalesced;
    var lo, hi := RunStart(v, k), RunEnd(v, k);
    CoalescedSplit(v, lo);
    CoalescedSplit(v, hi);
    var mid := [Bin(v[lo].addr, v[hi - 1].End() - v[lo].addr, false)];
    assert Coalesced(mid) by { CoalescedOne(mid); }
    CoalescedReplace(v, lo, hi, mid);
  }

  lemma CoalescedOne(v: seq<Bin>)
    requires |v| == 1
    ensures Coalesced(v)
  {
  }

  /** Freeing joins the bin with its free neighbours and touches no other live bin. */
  lemma FreeAtLaw(v: seq<Bin>, v': seq<Bin>, k: nat)
    requires HeapInv(v) && k < |v| && FreedAt(v, v', k)
    ensures HeapInv(v')
    ensures Live(v') == Live(v) - {v[k]}
  {
    hide Tiled, Coalesced;
    FreeAtTiled(v, v', k);
    FreeAtCoalesced(v, v', k);
    var lo, hi := RunStart(v, k), RunEnd(v, k);
    var w := v[k := v[k].(taken := false)];
    assert w[..lo] == v[..lo] && w[hi..] == v[hi..];
    LiveReplace(w, lo, hi, [Bin(v[lo].addr, v[hi - 1].End() - v[lo].addr, false)]);
    LiveUpdate(v, k);
  }

  lemma LiveUpdate(v: seq<Bin>, k: nat)
    requires Tiled(v) && k < |v|
    ensures Live(v[k := v[k].(taken := false)]) == Live(v) - {v[k]}
  {
    var w := v[k := v[k].(taken := false)];
    forall b | b in Live(v) && b != v[k]
      ensures b in w
    {
      var j :| 0 <= j < |v| && v[j] == b;
      assert w[j] == b;
    }
    forall b | b in Live(w)
      ensures b in v && b != v[k]
    {
      var j :| 0 <= j < |w| && w[j] == b;
      assert v[j] == b;
      if b == v[k] {
        AddrsDistinct(v, j, k);
      }
    }
  }

  /** `kfree(p)` keeps the invariant and removes from the live bins the one at `p`, if there is one. */
  lemma FreeLaw(v: seq<Bin>, v': seq<Bin>, p: nat)
    requires HeapInv(v) && Freed(v, v', p)
    ensures HeapInv(v')
    ensures forall b :: b in Live(v') <==> b in Live(v) && b.addr != p
    ensures HeapEnd(v') == HeapEnd(v)
  {
    FreeKeepsEnd(v, v', p);
    if HasAddr(v, p) {
      var k: nat :| k < |v| && v[k].addr == p && FreedAt(v, v', k);
      FreeAtLaw(v, v', k);
      forall b | b in Live(v) && b.addr == p
        ensures b == v[k]
      {
        var j :| 0 <= j < |v| && v[j] == b;
        AddrsDistinct(v, j, k);
      }
    }
  }

  /** The neighbours of a free bin are taken, so its run is the bin alone. */
  lemma RunOfFreeBin(v: seq<Bin>, k: nat)
    requires Coalesced(v) && k < |v| && !v[k].taken
    ensures RunStart(v, k) == k && RunEnd(v, k) == k + 1
  {
    assert k > 0 ==> v[k - 1].taken;
  }

  lemma AbsorbOne(v: seq<Bin>, k: nat)
    requires k < |v| && !v[k].taken
    ensures Absorb(v, k, k + 1) == v
  {
    assert Bin(v[k].addr, v[k].End() - v[k].addr, false) == v[k];
  }

  /** Freeing what is free, or where no bin starts, changes nothing. */
  lemma FreeOfFreeChangesNothing(v: seq<Bin>, v': seq<Bin>, p: nat)
    requires HeapInv(v) && Freed(v, v', p)
    requires forall b :: b in Live(v) ==> b.addr != p
    ensures v' == v
  {
    if HasAddr(v, p) {
      var k: nat :| k < |v| && v[k].addr == p && FreedAt(v, v', k);
      assert v[k] !in Live(v);
      RunOfFreeBin(v, k);
      AbsorbOne(v, k);
    }
  }

  lemma CarveKeepsEnd(v: seq<Bin>, k: nat, r: nat)
    requires k < |v| && 0 < r <= v[k].size
    ensures HeapEnd(Carve(v, k, r)) == HeapEnd(v)
  {
  }

  lemma FitOfBest(v: seq<Bin>, r: nat, a: nat, k: nat)
    requires a > 0 && BestFit(v, r, a, k)
    ensures k < |v| && !v[k].taken && r <= v[k].size
  {
  }

  lemma AbsorbKeepsEnd(v: seq<Bin>, lo: nat, hi: nat)
    requires lo < hi <= |v| && v[lo].addr <= v[hi - 1].End()
    ensures HeapEnd(Absorb(v, lo, hi)) == HeapEnd(v)
  {
    var w := Absorb(v, lo, hi);
    if hi < |v| {
      assert w[|w| - 1] == v[|v| - 1];
    }
  }

  lemma FreeKeepsEnd(v: seq<Bin>, v': seq<Bin>, p: nat)
    requires |v| > 0 && Freed(v, v', p)
    ensures |v'| > 0 && HeapEnd(v') == HeapEnd(v)
  {
    hide RunStart, RunEnd;
    if HasAddr(v, p) {
      var k: nat :| k < |v| && v[k].addr == p && FreedAt(v, v', k);
      AbsorbKeepsEnd(v, RunStart(v, k), RunEnd(v, k));
    }
  }

  /** A second `kfree` of the same pointer, with nothing in between, changes nothing. */
  lemma DoubleFree(v: seq<Bin>, v': seq<Bin>, v'': seq<Bin>, p: nat)
    requires HeapInv(v) && Freed(v, v', p) && Freed(v', v'', p)
    ensures v'' == v'
  {
    FreeLaw(v, v', p);
    FreeOfFreeChangesNothing(v', v'', p);
  }

  lemma CarvedRun(v: seq<Bin>, k: nat, r: nat)
    requires Coalesced(v) && k < |v| && !v[k].taken && r <= v[k].size
    ensures RunStart(Carve(v, k, r), k) == k
    ensures RunEnd(Carve(v, k, r), k) == k + |Cut(v[k], r)|
  {
    var w, n := Carve(v, k, r), |Cut(v[k], r)|;
    assert k > 0 ==> w[k - 1] == v[k - 1] && v[k - 1].taken;
    assert k + 1 < |v| ==> w[k + n] == v[k + 1] && v[k + 1].taken;
    assert RunEnd(w, k + n - 1) == k + n;
  }

  lemma AbsorbCarved(v: seq<Bin>, k: nat, r: nat)
    requires k < |v| && !v[k].taken && r <= v[k].size
    ensures var w, n := Carve(v, k, r), |Cut(v[k], r)|;
      k + n <= |w| && w[k].addr == v[k].addr && w[k].addr <= w[k + n - 1].End() && Absorb(w, k, k + n) == v
  {
    var w, n := Carve(v, k, r), |Cut(v[k], r)|;
    assert w[k] == Cut(v[k], r)[0] && w[k + n - 1] == Cut(v[k], r)[n - 1];
    assert w[..k] == v[..k] && w[k + n..] == v[k + 1..];
    assert Bin(v[k].addr, v[k].End() - v[k].addr, false) == v[k];
    assert v == v[..k] + [v[k]] + v[k + 1..];
  }

  lemma CarveThenFree(v: seq<Bin>, k: nat, r: nat, v'': seq<Bin>)
    requires HeapInv(v) && k < |v| && !v[k].taken && 0 < r <= v[k].size && r % 16 == 0
    requires Freed(Carve(v, k, r), v'', v[k].addr)
    ensures v'' == v
  {
    hide HeapInv, Absorb, Carve, RunStart, RunEnd, Tiled, Coalesced;
    var w := Carve(v, k, r);
    CarveLaw(v, k, r);
    assert Coalesced(v) && Tiled(w) by { InvParts(v); InvParts(w); }
    CarvedRun(v, k, r);
    AbsorbCarved(v, k, r);
    var k': nat :| k' < |w| && w[k'].addr == v[k].addr && FreedAt(w, v'', k');
    AddrsDistinct(w, k, k');
  }

  lemma InvParts(v: seq<Bin>)
    requires HeapInv(v)
    ensures Tiled(v) && Coalesced(v)
  {
    hide Tiled, Coalesced;
  }

  /** A request served from an existing bin and freed again leaves the sequence of bins as it was. */
  lemma AllocateFreeRoundTrip(v: seq<Bin>, v': seq<Bin>, v'': seq<Bin>, r: nat, a: nat, p: nat)
    requires HeapInv(v) && r > 0 && r % 16 == 0 && a > 0
    requires Allocated(v, v', r, a, p) && Freed(v', v'', p)
    requires !NoFit(v, r, a)
    ensures v'' == v
  {
    hide HeapInv, Freed, Carve, NoFit;
    var k: nat :| BestFit(v, r, a, k) && v' == Carve(v, k, r) && p == v[k].addr;
    CarveThenFree(v, k, r, v'');
  }

  ghost predicate Run(states: seq<seq<Bin>>, calls: seq<Call>, rets: seq<nat>)
  {
    && |states| == |calls| + 1 && |rets| == |calls|
    && (forall i :: 0 <= i < |states| ==> |states[i]| > 0)
    && forall i :: 0 <= i < |calls| ==> Step(states[i], calls[i], states[i + 1], rets[i])
  }

  /** What one call does to the invariant and to the live bins. A request is refused, with the null pointer and without
      any change, exactly if it is for nothing or its alignment is no multiple of 16. */
  lemma StepLaw(v: seq<Bin>, c: Call, v': seq<Bin>, ret: nat)
    requires HeapInv(v) && Step(v, c, v', ret)
    ensures HeapInv(v')
    ensures forall b :: b in Live(v) && c != Kfree(b.addr) ==> b in Live(v')
    ensures !c.Kfree? ==> (ret == 0 <==> c.size == 0 || (c.KallocA? && c.align % 16 != 0)) && (ret == 0 ==> v' == v)
    ensures Serves(c, ret) ==>
              var b := Bin(ret, RoundUp16(c.size), true);
              && Live(v') == Live(v) + {b} && Apart(v, b)
              && ret % 16 == 0 && (c.KallocA? ==> c.align > 0 && ret % c.align == 0)
  {
    hide Allocated, Freed, HeapInv, Live, Apart, RoundUp16;
    match c
    case Kalloc(s) =>
      if s != 0 {
        AllocationLaw(v, v', RoundUp16(s), 1, ret);
        LiveNotNull(v', Bin(ret, RoundUp16(s), true));
      }
    case KallocA(s, a) =>
      if s != 0 && a % 16 == 0 {
        AllocationLaw(v, v', RoundUp16(s), a, ret);
        LiveNotNull(v', Bin(ret, RoundUp16(s), true));
      }
    case Kfree(p) =>
      FreeLaw(v, v', p);
  }

  lemma LiveNotNull(v: seq<Bin>, b: Bin)
    requires HeapInv(v) && b in Live(v)
    ensures b.addr >= BIN_START > 0
  {
    TilesBounds(v, BIN_START, HeapEnd(v), b);
  }

  /** The call is a request, and its answer is not the null pointer. */
  ghost predicate Serves(c: Call, ret: nat)
  {
    !c.Kfree? && ret != 0
  }

  lemma {:induction false} RunKeepsHeapInv(states: seq<seq<Bin>>, calls: seq<Call>, rets: seq<nat>, i: nat)
    requires Run(states, calls, rets) && HeapInv(states[0]) && i < |states|
    ensures HeapInv(states[i])
  {
    if i > 0 {
      RunKeepsHeapInv(states, calls, rets, i - 1);
      StepLaw(states[i - 1], calls[i - 1], states[i - 1 + 1], rets[i - 1]);
    }
  }

  /** Over any run, a block handed out by call `i` and not freed before state `j` is still there, unmoved and not
      resized, and lies apart from every other live block. */
  lemma {:induction false} LiveBlockSafety(states: seq<seq<Bin>>, calls: seq<Call>, rets: seq<nat>, i: nat, j: nat)
    requires Run(states, calls, rets) && HeapInv(states[0])
    requires i < j < |states| && Serves(calls[i], rets[i])
    requires forall n :: i < n < j ==> calls[n] != Kfree(rets[i])
    ensures var b := Bin(rets[i], RoundUp16(calls[i].size), true);
      && b in Live(states[j]) && b.size >= calls[i].size && b.addr % 16 == 0
      && (calls[i].KallocA? ==> calls[i].align > 0 && b.addr % calls[i].align == 0)
      && forall l :: l in Live(states[j]) && l != b ==> l.End() <= b.addr || b.End() <= l.addr
  {
    hide HeapInv, Step, Live, RoundUp16;
    RunKeepsHeapInv(states, calls, rets, i);
    StepLaw(states[i], calls[i], states[i + 1], rets[i]);
    var b := Bin(rets[i], RoundUp16(calls[i].size), true);
    if j > i + 1 {
      LiveBlockSafety(states, calls, rets, i, j - 1);
      RunKeepsHeapInv(states, calls, rets, j - 1);
      StepLaw(states[j - 1], calls[j - 1], states[j - 1 + 1], rets[j - 1]);
    }
    RunKeepsHeapInv(states, calls, rets, j);
    forall l | l in Live(states[j]) && l != b
      ensures l.End() <= b.addr || b.End() <= l.addr
    {
      LiveDisjoint(states[j], l, b);
    }
  }

  lemma LiveDisjoint(v: seq<Bin>, l: Bin, b: Bin)
    requires HeapInv(v) && l in Live(v) && b in Live(v) && l != b
    ensures l.End() <= b.addr || b.End() <= l.addr
  {
    var x :| 0 <= x < |v| && v[x] == l;
    var y :| 0 <= y < |v| && v[y] == b;
    TiledDisjoint(v, BIN_START, HeapEnd(v), if x < y then x else y, if x < y then y else x);
  }
}
