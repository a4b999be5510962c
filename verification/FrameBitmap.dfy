/** The bitmap allocator of physical frames (module/bmpmm/main.c). */
module FrameBitmap {
  import opened WordBits
  import opened Intervals
  import opened PageUnits

  /** BM_TEST */
  predicate TestBit(words: seq<bv32>, i: nat)
    requires i / 32 < |words|
  {
    Bit(words[i / 32], i % 32)
  }

  /** BM_SET and BM_UNSET */
  function WriteBit(words: seq<bv32>, i: nat, value: bool): seq<bv32>
    requires i / 32 < |words|
  {
    words[i / 32 := WriteWord(words[i / 32], i % 32, value)]
  }

  lemma WriteAt(words: seq<bv32>, a: nat, j: nat, value: bool, b: nat, k: nat)
    requires a < |words| && b < |words| && j < 32 && k < 32
    ensures Bit(words[a := WriteWord(words[a], j, value)][b], k) == if a == b && j == k then value else Bit(words[b], k)
  {
    if a == b {
      WriteWordBit(words[a], j, value, k);
    }
  }

  /** Writing one bit of the bitmap changes that bit and no other. */
  lemma WriteThenTest(words: seq<bv32>, i: nat, value: bool, k: nat)
    requires i / 32 < |words| && k / 32 < |words|
    ensures TestBit(WriteBit(words, i, value), k) == if k == i then value else TestBit(words, k)
  {
    WriteAt(words, i / 32, i % 32, value, k / 32, k % 32);
  }

  /** `bits` is what the macros read in the words, one boolean a page. */
  ghost predicate Reads(words: seq<bv32>, bits: seq<bool>)
  {
    && |bits| == 32 * |words|
    && forall i: nat {:trigger TestBit(words, i)} :: i < |bits| ==> bits[i] == TestBit(words, i)
  }

  ghost function Marked(bits: seq<bool>, total: nat): set<nat>
  {
    set i: nat | i < total && i < |bits| && bits[i]
  }

  lemma MarkedAfterWrite(bits: seq<bool>, total: nat, i: nat, value: bool)
    requires i <= total < |bits|
    ensures Marked(bits[i := value], total) ==
            if i == total then Marked(bits, total)
            else if value then Marked(bits, total) + {i}
            else Marked(bits, total) - {i}
  {
  }

  lemma MarkedIff(bits: seq<bool>, total: nat, i: nat)
    requires i <= total < |bits|
    ensures i in Marked(bits, total) <==> i < total && bits[i]
  {
  }

  lemma MarkedInRange(bits: seq<bool>, total: nat)
    ensures Marked(bits, total) <= Range(total)
  {
  }

  class FrameAllocator {
    var bitmap: array<bv32>
    var mapSize: nat      // bytes of physical memory
    var pagesFree: int
    var pagesTaken: int
    var pagesTotal: nat
    var lastFree: nat     // where the next search starts
    ghost var bits: seq<bool>

    /** The bitmap: `_pmm_init` maps one 4 KiB page more than `pagesTotal / 32768` pages of bits. */
    ghost predicate Layout()
      reads this, bitmap
    {
      && mapSize / PAGE == pagesTotal
      && mapSize < 0x1_0000_0000
      && bitmap.Length == 1024 * (pagesTotal / 32768 + 1)
      && pagesTotal < |bits|
      && Reads(bitmap[..], bits)
    }

    ghost predicate Shape()
      reads this, bitmap
    {
      Layout() && lastFree <= pagesTotal
    }

    /** The abstract value: the set of frames marked as taken. */
    ghost function Taken(): set<nat>
      reads this
    {
      Marked(bits, pagesTotal)
    }

    ghost predicate Counted()
      reads this
    {
      pagesTaken == |Taken()| && pagesFree + pagesTaken == pagesTotal
    }

    /** The invariant. The bit just past the last page has to read as set, because the hint can point at it. */
    ghost predicate Valid()
      reads this, bitmap
    {
      Shape() && Counted() && bits[pagesTotal]
    }

    method Test(page: nat) returns (b: bool)
      requires Shape() && page <= pagesTotal
      ensures b == bits[page]
    {
      b := TestBit(bitmap[..], page);
    }

    method Write(page: nat, value: bool)
      requires Layout() && page <= pagesTotal
      modifies bitmap, this`bits
      ensures Layout() && bits == old(bits)[page := value]
      ensures Taken() == if page == pagesTotal then old(Taken())
                         else if value then old(Taken()) + {page} else old(Taken()) - {page}
    {
      ghost var words := bitmap[..];
      bitmap[page / 32] := WriteWord(bitmap[page / 32], page % 32, value);
      bits := bits[page := value];
      assert bitmap[..] == WriteBit(words, page, value);
      forall k: nat | k < |bits|
        ensures bits[k] == TestBit(bitmap[..], k)
      {
        WriteThenTest(words, page, value, k);
        assert old(bits)[k] == TestBit(words, k);
      }
      MarkedAfterWrite(old(bits), pagesTotal, page, value);
    }

    lemma MachineSize()
      requires Layout()
      ensures pagesTotal < |bits| && pagesTotal < 0x10_0000
    {
    }

    lemma SomeFree()
      requires Counted() && pagesTotal <= |bits| && pagesTaken < pagesTotal
      ensures exists i :: 0 <= i < pagesTotal && !bits[i]
    {
      if forall i :: 0 <= i < pagesTotal ==> bits[i] {
        SubsetSize(Range(pagesTotal), Taken());
        assert false;
      }
    }

    /** `bits` are the bits of the words, the lowest one of each word first. */
    lemma BitsOfWords(i: nat)
      requires Layout() && i < |bits|
      ensures i / 32 < bitmap.Length && (bits[i] <==> Halved(bitmap[i / 32], i % 32) % 2 == 1)
    {
      hide Bit, Halved;
      assert bits[i] == TestBit(bitmap[..], i);
      BitIsDigit(bitmap[i / 32], i % 32);
    }

    /** The taken frames are those whose binary digit in the bitmap is 1. */
    lemma TakenInWords(i: nat)
      requires Layout() && i < pagesTotal
      ensures i / 32 < bitmap.Length && (i in Taken() <==> Halved(bitmap[i / 32], i % 32) % 2 == 1)
    {
      hide Halved;
      BitsOfWords(i);
    }

    /** bm_seek_free: the first clear bit.
        The loop bound counts bytes where words are meant; the scan stays inside the bitmap because of the clear bit. */
    method SeekFree() returns (r: int)
      requires Shape()
      requires exists i :: 0 <= i < pagesTotal && !bits[i]
      ensures 0 <= r < pagesTotal && !bits[r]
      ensures forall i :: 0 <= i < r ==> bits[i]
      ensures r / 32 < bitmap.Length && Halved(bitmap[r / 32], r % 32) % 2 != 1
      ensures forall i: nat {:trigger bits[i]} :: i < r ==>
                i / 32 < bitmap.Length && Halved(bitmap[i / 32], i % 32) % 2 == 1
    {
      hide Halved;
      r := ScanWords();
      BitsOfWords(r);
      forall i: nat | i < r
        ensures i / 32 < bitmap.Length && Halved(bitmap[i / 32], i % 32) % 2 == 1
      {
        BitsOfWords(i);
      }
    }

    /** The loops of bm_seek_free. */
    method ScanWords() returns (r: int)
      requires Shape()
      requires exists i :: 0 <= i < pagesTotal && !bits[i]
      ensures 0 <= r < pagesTotal && !bits[r]
      ensures forall i :: 0 <= i < r ==> bits[i]
    {
      ghost var clear :| 0 <= clear < pagesTotal && !bits[clear];
      var i := 0;
      while i < mapSize / 32
        invariant i <= clear / 32
        invariant forall b :: 0 <= b < 32 * i ==> bits[b]
      {
        WordReads(i);
        if bitmap[i] != 0xFFFF_FFFF {
          for j := 0 to 32
            invariant forall b :: 32 * i <= b < 32 * i + j ==> bits[b]
          {
            assert bits[32 * i + j] == Bit(bitmap[i], j);
            if !Bit(bitmap[i], j) {
              r := i * 32 + j;
              return;
            }
          }
        }
        assert i != clear / 32;
        i := i + 1;
      }
      r := -1;
    }

    lemma WordReads(i: nat)
      requires Shape() && i < bitmap.Length
      ensures forall b :: 32 * i <= b < 32 * (i + 1) ==> bits[b] == Bit(bitmap[i], b - 32 * i)
      ensures bitmap[i] == 0xFFFF_FFFF ==> forall b :: 32 * i <= b < 32 * (i + 1) ==> bits[b]
      ensures bitmap[i] != 0xFFFF_FFFF ==> exists b :: 32 * i <= b < 32 * (i + 1) && !bits[b]
    {
      forall b | 32 * i <= b < 32 * (i + 1)
        ensures bits[b] == Bit(bitmap[i], b - 32 * i)
      {
        assert b / 32 == i && b % 32 == b - 32 * i;
        assert bits[b] == TestBit(bitmap[..], b);
      }
      FullWord(bitmap[i]);
      if bitmap[i] != 0xFFFF_FFFF {
        var k :| 0 <= k < 32 && !Bit(bitmap[i], k);
        assert !bits[32 * i + k];
      }
    }

    /** bm_get_free. The answer is a frame of the machine exactly when the hint is in range or the guard bit is set. */
    method GetFree() returns (r: int)
      requires Shape() && Counted() && pagesTaken < pagesTotal
      modifies this`lastFree
      ensures 0 <= r <= pagesTotal && !bits[r]
      ensures r == old(lastFree) || (bits[old(lastFree)] && forall i :: 0 <= i < r ==> bits[i])
      ensures r < pagesTotal <==> old(lastFree) < pagesTotal || bits[pagesTotal]
      ensures r / 32 < bitmap.Length && Halved(bitmap[r / 32], r % 32) % 2 != 1
      ensures lastFree == r + 1
    {
      hide Halved, Counted, Layout;
      MachineSize();
      BitsOfWords(lastFree);
      var hint := Test(lastFree);
      if !hint {
        lastFree := lastFree + 1;
        return lastFree - 1;
      } else {
        SomeFree();
        r := SeekFree();
        lastFree := (r + 1) % 0x1_0000_0000;
        return lastFree - 1;
      }
    }

    /** Whether the next search keeps inside the machine: the hint does, or the bit behind the last page reads as
        set. */
    ghost predicate HintOk()
      requires Shape()
      reads this, bitmap
    {
      lastFree < pagesTotal || bits[pagesTotal]
    }

    /** bm_getpg: marks one free frame, or answers 0 when there is none. Frame 0 being free would make its address
        look like the failure. With a bad hint it answers the page behind the machine, and the counters and the hint
        are wrong then. */
    method GetPage() returns (ptr: nat)
      requires Shape() && Counted()
      modifies this`lastFree, this`pagesFree, this`pagesTaken, this`bits, bitmap
      ensures old(Taken()) == Range(pagesTotal) ==> ptr == 0 && Taken() == old(Taken()) && Shape() && Counted()
      ensures old(Taken()) != Range(pagesTotal) ==>
                && ptr % PAGE == 0 && ptr / PAGE <= pagesTotal && ptr / PAGE !in old(Taken())
                && (ptr / PAGE < pagesTotal <==> old(HintOk())) && (Shape() && Counted() <==> old(HintOk()))
                && Taken() == if old(HintOk()) then old(Taken()) + {ptr / PAGE} else old(Taken())
      ensures old(Taken()) != Range(pagesTotal) ==>
                lastFree == ptr / PAGE + 1 && ptr / PAGE < |old(bits)| && bits == old(bits)[ptr / PAGE := true]
      ensures old(Taken()) != Range(pagesTotal) ==>
                var i := ptr / PAGE;
                && i / 32 < bitmap.Length
                && Halved(old(bitmap[..])[i / 32], i % 32) % 2 != 1 && Halved(bitmap[i / 32], i % 32) % 2 == 1
      ensures old(Valid()) ==> Valid()
      ensures 0 in old(Taken()) ==> (ptr == 0 <==> old(Taken()) == Range(pagesTotal))
    {
      hide Reads, Marked, Range, Halved;
      MarkedInRange(bits, pagesTotal);
      SubsetSize(Taken(), Range(pagesTotal));
      if pagesTaken >= pagesTotal {
        return 0;
      }
      var free := GetFree();
      if free == -1 {
        assert false;
      }
      MarkedIff(bits, pagesTotal, free);
      Write(free, true);
      pagesFree := pagesFree - 1;
      pagesTaken := pagesTaken + 1;
      BitsOfWords(free);
      ptr := free * PAGE;
      assert ptr / PAGE == free;
    }

    /** The test, count and set that bm_resvpg and bm_addblock share. */
    method Take(page: nat)
      requires Valid() && page < pagesTotal
      modifies this`pagesFree, this`pagesTaken, this`bits, bitmap
      ensures Valid() && Taken() == old(Taken()) + {page}
    {
      var marked := Test(page);
      if !marked {
        pagesFree := pagesFree - 1;
        pagesTaken := pagesTaken + 1;
      }
      Write(page, true);
    }

    /** The test, count and clear of bm_rmblock. */
    method Release(page: nat)
      requires Valid() && page < pagesTotal
      modifies this`pagesFree, this`pagesTaken, this`bits, bitmap
      ensures Valid() && Taken() == old(Taken()) - {page}
    {
      var marked := Test(page);
      if marked {
        pagesFree := pagesFree + 1;
        pagesTaken := pagesTaken - 1;
      }
      Write(page, false);
    }

    /** bm_resvpg */
    method ReservePage(ptr: nat)
      requires Valid() && ptr / PAGE < pagesTotal
      modifies this`pagesFree, this`pagesTaken, this`bits, bitmap
      ensures Valid()
      ensures Taken() == old(Taken()) + {ptr / PAGE}
    {
      var page := ptr / PAGE;
      Take(page);
    }

    /** bm_freepg does not look at the bit: its counters stay right exactly when the frame was taken. */
    method FreePage(ptr: nat)
      requires Shape() && Counted() && ptr / PAGE < pagesTotal
      modifies this`pagesFree, this`pagesTaken, this`bits, bitmap
      ensures Shape() && bits == old(bits)[ptr / PAGE := false] && bits[pagesTotal] == old(bits[pagesTotal])
      ensures Taken() == old(Taken()) - {ptr / PAGE}
      ensures Counted() <==> ptr / PAGE in old(Taken())
    {
      var page := ptr / PAGE;
      Write(page, false);
      pagesFree := pagesFree + 1;
      pagesTaken := pagesTaken - 1;
    }

    /** bm_addblock keeps the page index in 16 bits. */
    method AddBlock(start: nat, len: nat)
      requires Valid()
      requires forall i :: 0 <= i < len ==> Page16(start / PAGE, i) < pagesTotal
      modifies this`pagesFree, this`pagesTaken, this`bits, bitmap
      ensures Valid()
      ensures Taken() == old(Taken()) + Block(start / PAGE, len)
    {
      hide Valid, Shape, Taken, Page16;
      ghost var first := start / PAGE;
      var pindex := start / PAGE % 0x1_0000;
      FirstPage16(first);
      for i := 0 to len
        invariant Valid() && pindex == Page16(first, i)
        invariant Taken() == old(Taken()) + Block(first, i)
      {
        ghost var before := Taken();
        Take(pindex);
        assert Taken() == before + {Page16(first, i)};
        pindex := (pindex + 1) % 0x1_0000;
        NextPage16(first, i);
      }
    }

    /** bm_rmblock, with the same 16-bit index. */
    method RemoveBlock(start: nat, len: nat)
      requires Valid()
      requires forall i :: 0 <= i < len ==> Page16(start / PAGE, i) < pagesTotal
      modifies this`pagesFree, this`pagesTaken, this`bits, bitmap
      ensures Valid()
      ensures Taken() == old(Taken()) - Block(start / PAGE, len)
    {
      hide Valid, Shape, Taken, Page16;
      ghost var first := start / PAGE;
      var pindex := start / PAGE % 0x1_0000;
      FirstPage16(first);
      for i := 0 to len
        invariant Valid() && pindex == Page16(first, i)
        invariant Taken() == old(Taken()) - Block(first, i)
      {
        ghost var before := Taken();
        Release(pindex);
        assert Taken() == before - {Page16(first, i)};
        pindex := (pindex + 1) % 0x1_0000;
        NextPage16(first, i);
      }
    }

    /** The counting loop at the end of `_pmm_init`, over a bitmap whose counters start at zero. */
    method CountPages()
      requires Shape() && pagesFree == 0 && pagesTaken == 0
      modifies this`pagesFree, this`pagesTaken
      ensures Shape() && Counted()
    {
      for i := 0 to pagesTotal
        invariant Shape() && pagesFree + pagesTaken == i
        invariant pagesTaken == |Marked(bits, i)|
      {
        assert Marked(bits, i + 1) == if bits[i] then Marked(bits, i) + {i} else Marked(bits, i);
        var marked := Test(i);
        if marked {
          pagesTaken := pagesTaken + 1;
        } else {
          pagesFree := pagesFree + 1;
        }
      }
    }
  }

  /** Page number `first + i` cut to 16 bits. */
  function Page16(first: nat, i: nat): nat { (first + i) % 0x1_0000 }

  lemma FirstPage16(first: nat)
    ensures Page16(first, 0) == first % 0x1_0000
  {
  }

  lemma NextPage16(first: nat, i: nat)
    ensures Page16(first, i + 1) == (Page16(first, i) + 1) % 0x1_0000
  {
  }

  /** The pages the block operations touch: `len` pages from `first`, each index cut to 16 bits. */
  ghost function Block(first: nat, len: nat): set<nat>
  {
    if len == 0 then {} else Block(first, len - 1) + {Page16(first, len - 1)}
  }

  lemma Page16Below(first: nat, i: nat)
    requires first + i < 0x1_0000
    ensures Page16(first, i) == first + i
  {
  }

  lemma RangeMore(a: nat, b: nat)
    requires a <= b
    ensures Range(a) - Range(a) == {}
    ensures Range(b) - Range(a) + {b} == Range(b + 1) - Range(a)
  {
  }

  lemma {:induction false} BlockWithoutWrap(first: nat, len: nat)
    requires first + len <= 0x1_0000
    ensures Block(first, len) == Range(first + len) - Range(first)
  {
    hide Page16, Range;
    if len == 0 {
      RangeMore(first, first);
    } else {
      BlockWithoutWrap(first, len - 1);
      Page16Below(first, len - 1);
      RangeMore(first, first + len - 1);
    }
  }

  lemma BlockBelowLimit(first: nat, len: nat)
    ensures Block(first, len) <= Range(0x1_0000)
  {
  }

  lemma LastOfBlock(first: nat, len: nat, p: nat)
    requires 0 < len && p < 0x1_0000
    ensures (p - first) % 0x1_0000 < len <==>
            (p - first) % 0x1_0000 < len - 1 || p == Page16(first, len - 1) || len > 0x1_0000
  {
  }

  /** Page `p` is in the block if it is less than `len` pages behind the first, in steps that go on from page 65535 to
      page 0. */
  lemma {:induction false} InBlock(first: nat, len: nat, p: nat)
    ensures p in Block(first, len) <==> p < 0x1_0000 && (p - first) % 0x1_0000 < len
  {
    hide Page16;
    if len > 0 {
      InBlock(first, len - 1, p);
      Page16Range(first, len - 1);
      if p < 0x1_0000 {
        LastOfBlock(first, len, p);
      }
    }
  }

  lemma Page16Range(first: nat, i: nat)
    ensures Page16(first, i) < 0x1_0000
  {
  }

  /** The block operations touch the pages they were asked for exactly when the block ends by page 65536. */
  lemma BlockIsRequested(first: nat, len: nat)
    ensures Block(first, len) == Range(first + len) - Range(first) <==> len == 0 || first + len <= 0x1_0000
  {
    if len > 0 && first + len > 0x1_0000 {
      BlockBelowLimit(first, len);
      assert first + len - 1 !in Block(first, len);
      assert first + len - 1 in Range(first + len) - Range(first);
    } else if len > 0 {
      BlockWithoutWrap(first, len);
    }
  }

  lemma FirstBitOnly(words: seq<bv32>)
    requires words == [1] + seq(1023, i => 0)
    ensures Reads(words, [true] + seq(32767, i => false))
  {
    FirstBit();
  }

  lemma FirstBit()
    ensures Bit(1, 0) && forall j: nat :: j < 32 ==> !Bit(0, j) && (j > 0 ==> !Bit(1, j))
  {
    forall j: nat | 0 < j < 32
      ensures !Bit(1, j)
    {
      MasksApart(0, j);
    }
  }

  /** A machine of two pages, the first one taken. The second is given out and freed again; then the hint is behind the
      machine, at a bit that reads as clear, and bm_getpg answers a frame that does not exist. */
  method HintBehindTheMachine() returns (pmm: FrameAllocator, first: nat, second: nat)
    ensures fresh(pmm) && pmm.pagesTotal == 2 && first / PAGE == 1 && second / PAGE == 2
    ensures pmm.Taken() == {0} && !(pmm.Shape() && pmm.Counted())
  {
    var words := new bv32[1024](i => if i == 0 then 1 else 0);
    assert words[..] == [1] + seq(1023, i => 0);
    pmm := new FrameAllocator;
    pmm.bitmap, pmm.mapSize, pmm.pagesTotal, pmm.pagesFree, pmm.pagesTaken, pmm.lastFree := words, 2 * PAGE, 2, 1, 1, 0;
    pmm.bits := [true] + seq(32767, i => false);
    FirstBitOnly(words[..]);
    assert pmm.Taken() == {0};
    first := pmm.GetPage();
    pmm.FreePage(first);
    assert pmm.Taken() == {0};
    second := pmm.GetPage();
  }
}
