/**
 Concrete heaps, each in the invariant, on which a call of the code goes wrong.
 */
module HeapFaults {
  import opened BlockLists
  import opened BlockTables
  import opened BlockSteps
  import opened BestFit
  import opened HeapSpec
  import opened HeapInv
  import opened HeapOps
  import opened HeapRealloc
  import opened HeapResidency
  import opened HeapRuns
  import opened HeapPages

  /** A table whose free blocks are those of list k. */
  function OneList(bs: seq<Blk>, ubl: seq<Ptr>, k: int, s: seq<Ptr>): Table {
    Table(bs, ubl, seq(CLASSES, j => if j == k then s else []))
  }

  lemma Log2At(n: nat, k: nat)
    requires Pow2(k) <= n < Pow2(k + 1) && k < CLASSES
    ensures ClassOf(n) == k
  {
    ClassOfRange(n, k);
  }

  lemma Pow2Small()
    ensures Pow2(3) == 8 && Pow2(4) == 16 && Pow2(6) == 64 && Pow2(7) == 128
    ensures Pow2(11) == 2048 && Pow2(12) == 4096 && Pow2(13) == 8192 && Pow2(14) == 16384
  {
    assert Pow2(6) == 64;
    assert Pow2(9) == 512;
    assert Pow2(12) == 4096;
  }

  /** Four blocks in a row. */
  lemma FourLaid(a: Blk, b: Blk, c: Blk, d: Blk, at: nat, end: nat)
    requires WellSized(a) && WellSized(b) && WellSized(c) && WellSized(d)
    requires a.start == at && b.start == EndOf(a) && c.start == EndOf(b) && d.start == EndOf(c) && EndOf(d) == end
    ensures Laid([a, b, c, d], at, end, true)
  {
    LaidOne(d, d.start, end, true);
    LaidIff([d], d.start, end, true);
    assert [c, d][1..] == [d] && [b, c, d][1..] == [c, d] && [a, b, c, d][1..] == [b, c, d];
    assert InRow([c, d], c.start, end, true);
    assert InRow([b, c, d], b.start, end, true);
    LaidIff([a, b, c, d], at, end, true);
  }

  function IfUsed(b: Blk): seq<Ptr> {
    if b.status.Used? then [b.ptr] else []
  }

  lemma FourUsed(a: Blk, b: Blk, c: Blk, d: Blk)
    ensures UsedPtrs([a, b, c, d], {}) == IfUsed(a) + IfUsed(b) + IfUsed(c) + IfUsed(d)
  {
    assert [a, b, c, d][..3] == [a, b, c] && [a, b, c][..2] == [a, b] && [a, b][..1] == [a];
    assert UsedPtrs([a], {}) == IfUsed(a);
    assert UsedPtrs([a, b], {}) == IfUsed(a) + IfUsed(b);
    assert UsedPtrs([a, b, c], {}) == IfUsed(a) + IfUsed(b) + IfUsed(c);
  }

  // ---------------------------------------------------------------- an exact fit behind a larger block

  /** Used blocks keep a free block of 120 bytes and one of 100 bytes apart; the larger heads their list. */
  function TwiceHeap(): Heap {
    Heap(OneList([Blk(4096, 4096, 120, Free, 6), Blk(4252, 4252, 8, Used, 3), Blk(4296, 4296, 100, Free, 6),
                  Blk(4432, 4432, 3724, Used, 11)], [4252, 4432], 6, [4096, 4296]),
         4096, REGION, 1, {1}, map[])
  }

  lemma TwiceHeapInv()
    ensures Inv(TwiceHeap(), true)
  {
    var bs := TwiceHeap().t.blocks;
    Pow2Small();
    Log2At(120, 6);
    Log2At(8, 3);
    Log2At(100, 6);
    Log2At(3724, 11);
    FourLaid(bs[0], bs[1], bs[2], bs[3], 4096, 8192);
    assert bs == [bs[0], bs[1], bs[2], bs[3]];
    TwiceListed();
  }

  lemma TwiceListed()
    ensures Listed(TwiceHeap().t, {})
  {
    var bs := TwiceHeap().t.blocks;
    FourUsed(bs[0], bs[1], bs[2], bs[3]);
    assert bs == [bs[0], bs[1], bs[2], bs[3]];
    assert bs[0] in bs && bs[2] in bs;
  }

  /** mem_alloc(100) hands out a block that stays on its free list. */
  lemma DoubleSelectionExample()
    ensures Inv(TwiceHeap(), true) && DoublySelects(TwiceHeap().t, 100)
    ensures MemAlloc(TwiceHeap(), 100, true).Corrupted?
  {
    var h := TwiceHeap();
    TwiceHeapInv();
    Pow2Small();
    Log2At(100, 6);
    assert SizeOf(h.t.blocks, 4096) == 120;
    assert IdxOf(h.t.blocks, 4296) == 2 by { IdxOfAt(h.t.blocks, 2); }
    assert FirstExact(h.t.blocks, h.t.fbl[6], 100, 1);
    assert LargerBefore(h.t.blocks, h.t.fbl[6], 100, 1);
    AllocCorruptsIff(h, 100, true, true);
  }

  // ---------------------------------------------------------------- a descriptor used after it has gone

  function StaleHeap(): Heap {
    Heap(OneList([Blk(4096, 4096, 8000, Used, 12), Blk(12132, 12132, 120, Free, 6)], [4096], 6, [12132]),
         4096, REGION, 2, {1, 2}, map[])
  }

  lemma StaleHeaderExample()
    ensures Inv(StaleHeap(), true) && MemRealloc(StaleHeap(), 4132, 100, true).StaleHeader?
  {
    var h := StaleHeap();
    var bs := h.t.blocks;
    Pow2Small();
    Log2At(8000, 12);
    Log2At(120, 6);
    assert bs[1..] == [bs[1]];
    LaidOne(bs[1], 12132, 12288, true);
    LaidIff([bs[1]], 12132, 12288, true);
    assert bs[..1] == [bs[0]] && UsedPtrs([bs[0]], {}) == [4096];
    assert bs[1] in bs;
    ReallocTheorem(h, 4132, 100, true, true);
  }

  // ---------------------------------------------------------------- a live page left unmapped

  function TailHeap(): Heap {
    Heap(OneList([Blk(4096, 4096, 4024, Used, 11), Blk(8156, 8156, 4040, Used, 11), Blk(12232, 12232, 8212, FreeEmpty, 13),
                  Blk(20480, 20480, 4060, Used, 11)], [4096, 8156, 20480], 13, [12232]),
         4096, REGION, 5, {1, 2, 5}, map[])
  }

  lemma TailHeapInv()
    ensures Inv(TailHeap(), true)
  {
    var bs := TailHeap().t.blocks;
    Pow2Small();
    Log2At(4024, 11);
    Log2At(4040, 11);
    Log2At(8212, 13);
    Log2At(4060, 11);
    FourLaid(bs[0], bs[1], bs[2], bs[3], 4096, 24576);
    assert bs == [bs[0], bs[1], bs[2], bs[3]];
    TailListed();
  }

  lemma TailListed()
    ensures Listed(TailHeap().t, {})
  {
    var bs := TailHeap().t.blocks;
    FourUsed(bs[0], bs[1], bs[2], bs[3]);
    assert bs == [bs[0], bs[1], bs[2], bs[3]];
    assert bs[2] in bs;
  }

  /** mem_alloc(8192) takes the empty block whole and leaves the last page of the payload unmapped. */
  lemma TailMissingExample()
    ensures Inv(TailHeap(), true) && AllResident(TailHeap()) && AllocMissesPage(TailHeap(), 8192)
    ensures MemAlloc(TailHeap(), 8192, true).Got? && !AllResident(MemAlloc(TailHeap(), 8192, true).h)
  {
    var h := TailHeap();
    TailHeapInv();
    Pow2Small();
    Log2At(8192, 13);
    var b := h.t.blocks[2];
    IdxOfAt(h.t.blocks, 2);
    assert ScanList(h.t.blocks, [12232][1..], 8192, 12232) == (NULL, 12232);
    assert Search(h.t, 8192) == (NULL, 12232);
    var q: nat := 4;
    assert DataOf(b) / PAGE + Pages(8192) <= q && q * PAGE < EndOf(b) && q !in h.res;
    LaidLoose(h.t.blocks, h.base, HeapEnd(h), true);
    MissingTaken(h, 8192, true);
    AllocStepResident(h, 8192, true);
  }

  /** mem_realloc(8192, 12288) merges the empty block that fits exactly and maps none of its pages. */
  lemma GrowthMissingExample()
    ensures var h := TailHeap();
            && Inv(h, true) && AllResident(h) && MissesPage(h, ReallocOp(8192, 12288, true))
            && MemRealloc(h, 8192, 12288, true).Moved? && !AllResident(MemRealloc(h, 8192, 12288, true).h)
  {
    var h := TailHeap();
    TailHeapInv();
    TailMissingExample();
    var bs, q: nat := h.t.blocks, 4;
    FindUsedPrefix(bs, 1);
    assert FitsExactly(bs, 1, 12288);
    assert EndOf(bs[1]) / PAGE <= q && q * PAGE < DataOf(bs[1]) + 12288 && q !in h.res;
    LaidLoose(bs, h.base, HeapEnd(h), true);
    ReallocTheorem(h, 8192, 12288, true, true);
    ReallocResident(h, 8192, 12288, true);
  }

  // ---------------------------------------------------------------- a gap that comes into a payload

  /** A used block, a gap of more than a page, and a used block that ends the heap. */
  function GapHeap(): Heap {
    Heap(OneList([Blk(4096, 4096, 868, Used, 9), Blk(12300, 12300, 8144, Used, 12)], [4096, 12300], 0, []),
         4096, REGION, 4, {1, 3, 4}, map[])
  }

  lemma GapHeapInv()
    ensures Inv(GapHeap(), false)
  {
    var h := GapHeap();
    var bs := h.t.blocks;
    Pow2Small();
    Log2At(868, 9);
    Log2At(8144, 12);
    assert bs[1..] == [bs[1]];
    LaidOne(bs[1], 5000, 20480, false);
    LaidIff([bs[1]], 5000, 20480, false);
    assert InRow(bs, 4096, 20480, false);
    LaidIff(bs, 4096, 20480, false);
    assert bs[..1] == [bs[0]] && UsedPtrs([bs[0]], {}) == [4096];
    assert UsedPtrs(bs, {}) == [4096, 12300];
    assert bs[0] in bs && bs[1] in bs;
  }

  /**
   mem_free(12336) shrinks the heap and gives the bytes up to the page boundary to the first
   block, whose payload now reaches into the page of the gap that is not mapped.
   */
  lemma GapMissingExample()
    ensures var h := GapHeap();
            && Inv(h, false) && AllResident(h) && MissesPage(h, FreeOp(12336)) && !AllResident(MemFree(h, 12336))
  {
    var h := GapHeap();
    GapHeapInv();
    var bs, q: nat := h.t.blocks, 2;
    FindUsedPrefix(bs, 1);
    assert EndOf(bs[0]) / PAGE <= q && q * PAGE < EndOf(bs[0]) + LastRest(bs) && q !in h.res;
    FreeResident(h, 12336);
  }
}
