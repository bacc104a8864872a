/**
 Residency through mem_realloc and over whole runs.  HeapResidency treats mem_alloc and mem_free;
 here every branch of mem_realloc gets the exact condition under which it leaves a page of a
 header or of a live payload unmapped.
 */
module HeapPages {
  import opened BlockLists
  import opened BlockTables
  import opened BlockSteps
  import opened BestFit
  import opened HeapSpec
  import opened HeapInv
  import opened HeapOps
  import opened HeapKeep
  import opened HeapRealloc
  import opened HeapResidency
  import opened HeapRuns

  // ---------------------------------------------------------------- making a block smaller

  /** The header of the rest is written into pages of the live payload. */
  lemma CutBlkResident(h: Heap, i: nat, nsz: nat)
    requires Inv(h, false) && AllResident(h) && i < |h.t.blocks| && h.t.blocks[i].status.Used?
    requires 0 < nsz && nsz + HDR < h.t.blocks[i].size
    ensures AllResident(CutBlk(h, i, nsz))
  {
    var bs, h' := h.t.blocks, CutBlk(h, i, nsz);
    CutBlkInv(h, i, nsz, false);
    CutOffFirst(bs, i, nsz, Used, Free);
    CutOffNext(bs, i, nsz);
    assert h'.res == h.res && bs[i] in bs;
    forall c | c in h'.t.blocks ensures BlkResident(h.res, c) {
      var j :| 0 <= j < |h'.t.blocks| && h'.t.blocks[j] == c;
      if j != i && j != i + 1 { assert c == bs[if j < i then j else j - 1]; }
    }
  }

  /** Cutting block i down misses a page: the rest is merged over a gap with a free block that ends the heap. */
  ghost predicate CutMissesPage(h: Heap, i: nat, nsz: nat)
    requires i < |h.t.blocks|
  {
    && nsz + HDR < h.t.blocks[i].size
    && var h2 := CutBlk(h, i, nsz); i + 1 < |h2.t.blocks| && UnifyMissesPage(h2, i + 1)
  }

  lemma ShrinkBlkResident(h: Heap, i: nat, nsz: nat)
    requires Inv(h, false) && AllResident(h) && i < |h.t.blocks| && h.t.blocks[i].status.Used?
    requires 0 < nsz < h.t.blocks[i].size
    ensures var r := ShrinkBlk(h, i, nsz); r.Moved? ==> (AllResident(r.h) <==> !CutMissesPage(h, i, nsz))
  {
    if h.t.blocks[i].size - nsz > HDR {
      var h2 := CutBlk(h, i, nsz);
      CutBlkInv(h, i, nsz, false);
      CutBlkResident(h, i, nsz);
      CutOffFirst(h.t.blocks, i, nsz, Used, Free);
      CutOffNext(h.t.blocks, i, nsz);
      RestResident(h2, i + 1);
      CutThen(h, i, nsz, h2, Unify(h2, i + 1));
    }
  }

  lemma CutThen(h: Heap, i: nat, nsz: nat, h2: Heap, h3: Heap)
    requires i < |h.t.blocks| && nsz + HDR < h.t.blocks[i].size && h2 == CutBlk(h, i, nsz) && i + 1 < |h2.t.blocks| && h3 == Unify(h2, i + 1)
    requires h.t.blocks[i].status.Used?
    ensures var r := ShrinkBlk(h, i, nsz); r.Moved? ==> i + 1 < |h3.t.blocks| && r.h == LeaveRest(h3, i + 1)
  {
  }

  /** Block i is free, and begins where the used block in front of it ends. */
  lemma RestResident(h2: Heap, i: nat)
    requires Inv(h2, false) && AllResident(h2) && 0 < i < |h2.t.blocks| && !h2.t.blocks[i].status.Used?
    requires h2.t.blocks[i - 1].status.Used? && EndOf(h2.t.blocks[i - 1]) == h2.t.blocks[i].start
    ensures var h3 := Unify(h2, i); i < |h3.t.blocks| ==> (AllResident(LeaveRest(h3, i)) <==> !UnifyMissesPage(h2, i))
  {
    var h3 := Unify(h2, i);
    UnifyInv(h2, i, false);
    UnifyResident(h2, i);
    UnifyBehindUsed(h2, i, false);
    if i + 1 == |h3.t.blocks| {
      if LastPages(h3.t.blocks) > 0 {
        NotMerged(h2, i);
        AllButOne(h2, i);
        AdjacentShrink(h2.res, h2.t.blocks);
        ShrinkResident(h2);
      }
    } else if i < |h3.t.blocks| {
      UnifyMissesOnlyLast(h2, i);
      AllButOne(h3, i);
      CleanResident(h3, i);
    }
  }

  /** A block that still ends the heap after it has been unified, and holds a page, had no free neighbour. */
  lemma NotMerged(h: Heap, i: nat)
    requires Inv(h, false) && 0 < i < |h.t.blocks| && !h.t.blocks[i].status.Used? && h.t.blocks[i - 1].status.Used?
    requires i + 1 == |Unify(h, i).t.blocks| && LastPages(Unify(h, i).t.blocks) > 0
    ensures Unify(h, i) == h && !UnifyMissesPage(h, i)
  {
    if IsFreeAt(h.t.blocks, i + 1) {
      var h1 := h.(t := Merge(h.t, i));
      MergeInv(h, i, false);
      if i + 1 == |h1.t.blocks| {
        if LastPages(h1.t.blocks) > 0 { ShrinkLaid(h1, false); }
      } else {
        CleanInv(h1, i, false);
      }
    }
  }

  lemma UnifyMissesOnlyLast(h: Heap, i: nat)
    requires Inv(h, false) && 0 < i < |h.t.blocks| && !h.t.blocks[i].status.Used? && h.t.blocks[i - 1].status.Used?
    requires i + 1 < |Unify(h, i).t.blocks|
    ensures !UnifyMissesPage(h, i)
  {
    if IsFreeAt(h.t.blocks, i + 1) && MergeHi(h.t.blocks, i) == |h.t.blocks| {
      var h1 := h.(t := Merge(h.t, i));
      MergeInv(h, i, false);
      if LastPages(h1.t.blocks) > 0 { ShrinkLaid(h1, false); }
    }
  }

  // ---------------------------------------------------------------- making a block larger in place

  /**
   Growing block i in place needs a page that is not mapped.  A successor that fits exactly is
   merged without mapping anything.  One that is split is mapped from the page of its payload on
   for the bytes asked for, which can be too short when it is taken whole; a gap in front of it
   is not mapped at all.
   */
  ghost predicate GrowthMissesPage(h: Heap, i: nat, nsz: nat)
    requires i < |h.t.blocks|
  {
    var bs := h.t.blocks;
    && bs[i].size < nsz && IsFreeAt(bs, i + 1)
    && var b, c, e, more := bs[i], bs[i + 1], DataOf(bs[i]) + nsz, nsz - bs[i].size;
       if FitsExactly(bs, i, nsz) then !Resident(h.res, EndOf(b), e)
       else
         && more < c.size
         && (!Resident(h.res, EndOf(b), Least(c.start, e))
             || (c.status.FreeEmpty? && c.size <= more + HDR && !Resident(h.res, MappedTo(c, more), e)))
  }

  /** Where the pages end that are mapped for n bytes of block c when it is taken whole. */
  function MappedTo(c: Blk, n: nat): nat {
    (DataOf(c) / PAGE + Pages(n)) * PAGE
  }

  lemma AbsorbNextResident(h: Heap, i: nat, nsz: nat)
    requires Inv(h, false) && AllResident(h) && i + 1 < |h.t.blocks| && h.t.blocks[i].status.Used?
    requires FitsExactly(h.t.blocks, i, nsz)
    ensures AllResident(Absorb(h, i, nsz)) <==> !GrowthMissesPage(h, i, nsz)
  {
    var bs, h' := h.t.blocks, Absorb(h, i, nsz);
    AbsorbNextInv(h, i, nsz, false);
    AllButOne(h, i);
    assert bs[i] in bs && h'.res == h.res;
    AbsorbedOthers(h.res, bs, i, nsz);
    ResidentButOne(h.res, h'.t.blocks, i);
    ResidentJoin(h.res, bs[i].start, EndOf(bs[i]), DataOf(bs[i]) + nsz);
  }

  lemma AbsorbedOthers(res: set<nat>, bs: seq<Blk>, i: nat, nsz: nat)
    requires i + 1 < |bs| && forall j :: 0 <= j < |bs| && j != i && j != i + 1 ==> BlkResident(res, bs[j])
    ensures var cs := AbsorbedBlocks(bs, i, nsz);
            && |cs| == |bs| - 1 && cs[i] == bs[i].(size := nsz, fbl := ClassOf(nsz))
            && forall j :: 0 <= j < |cs| && j != i ==> BlkResident(res, cs[j])
  {
    var cs := AbsorbedBlocks(bs, i, nsz);
    forall j | 0 <= j < |cs| && j != i ensures BlkResident(res, cs[j]) {
      assert cs[j] == bs[if j < i then j else j + 1];
    }
  }

  /** A stretch that begins with a resident one is resident exactly when the gap and what is behind it are. */
  lemma BehindGap(res: set<nat>, a: nat, ea: nat, c: nat, e: nat)
    requires a < ea <= c && ea <= e && Resident(res, a, ea)
    ensures Resident(res, a, e) <==> Resident(res, ea, Least(c, e)) && Resident(res, c, e)
  {
    if Resident(res, ea, Least(c, e)) && Resident(res, c, e) {
      forall q: nat | a / PAGE <= q && q * PAGE < e ensures q in res {
        if ea <= q * PAGE < c { assert ea / PAGE <= q; }
        if c <= q * PAGE { assert c / PAGE <= q; }
      }
    }
    if Resident(res, a, e) {
      assert a / PAGE <= ea / PAGE <= c / PAGE;
    }
  }

  /** Pages mapped for a block change nothing in front of it. */
  lemma SameInFront(res: set<nat>, res': set<nat>, lo: nat, c: nat, e: nat)
    requires res <= res' && forall q :: q in res' && q !in res ==> q * PAGE >= c
    ensures Resident(res', lo, Least(c, e)) <==> Resident(res, lo, Least(c, e))
  {
  }

  /** A successor that is cut has every page mapped that the grown block needs of it. */
  lemma AbsorbCutResident(h: Heap, h1: Heap, i: nat, nsz: nat, ok: bool)
    requires Inv(h, false) && AllResident(h) && i + 1 < |h.t.blocks| && h.t.blocks[i].status.Used?
    requires GrowsBySplit(h.t.blocks, i, nsz) && h.t.blocks[i + 1].size > nsz - h.t.blocks[i].size + HDR
    requires Split(h, i + 1, nsz - h.t.blocks[i].size, ok) == Some(h1)
    ensures i + 1 < |h1.t.blocks| && (AllResident(Absorb(h1, i, nsz)) <==> !GrowthMissesPage(h, i, nsz))
  {
    var b, c, more, e := h.t.blocks[i], h.t.blocks[i + 1], nsz - h.t.blocks[i].size, DataOf(h.t.blocks[i]) + nsz;
    CutOthers(h, h1, i, more, ok);
    CutMapsBehind(h, h1, i + 1, more, ok);
    SameInFront(h.res, h1.res, EndOf(b), c.start, e);
    ResidentUpTo(h1.res, c.start, EndOf(h1.t.blocks[i + 1]), e);
    TwoResident(h1, i, nsz, c.start);
  }

  lemma CutOthers(h: Heap, h1: Heap, i: nat, more: nat, ok: bool)
    requires Inv(h, false) && AllResident(h) && i + 1 < |h.t.blocks| && h.t.blocks[i].status.Used? && !h.t.blocks[i + 1].status.Used?
    requires 0 < more && more + HDR < h.t.blocks[i + 1].size && Split(h, i + 1, more, ok) == Some(h1)
    ensures Inv(h1, false) && i + 1 < |h1.t.blocks| && h1.t.blocks[i] == h.t.blocks[i] && EndOf(h.t.blocks[i]) <= h.t.blocks[i + 1].start
    ensures forall j :: 0 <= j < |h1.t.blocks| ==> BlkResident(h1.res, h1.t.blocks[j])
    ensures var d := h1.t.blocks[i + 1]; d.status.Used? && d.start == h.t.blocks[i + 1].start && d.size >= more
  {
    SplitTakesFront(h, h1, i, more, ok, false);
    CutResident(h, i + 1, more, ok);
    LaidOrdered(h.t.blocks, h.base, HeapEnd(h), false, i, i + 1);
  }

  lemma ResidentUpTo(res: set<nat>, lo: nat, hi: nat, e: nat)
    requires e <= hi && Resident(res, lo, hi)
    ensures Resident(res, lo, e)
  {
  }

  lemma CutMapsBehind(h: Heap, h1: Heap, i: nat, sz: nat, ok: bool)
    requires i < |h.t.blocks| && h.t.blocks[i].size > sz + HDR && Split(h, i, sz, ok) == Some(h1)
    ensures h.res <= h1.res && forall q :: q in h1.res && q !in h.res ==> q * PAGE >= h.t.blocks[i].start
  {
    var b := h.t.blocks[i];
    if b.status.FreeEmpty? { assert h1.res == h.res + Span(RoundUp(DataOf(b)) / PAGE, Pages(sz + HDR)); }
  }

  /** Block i grows over a gap into a used block of which all pages that it takes are resident. */
  lemma TwoResident(h1: Heap, i: nat, nsz: nat, c: nat)
    requires Inv(h1, false) && i + 1 < |h1.t.blocks| && 0 < nsz <= h1.t.blocks[i].size + h1.t.blocks[i + 1].size
    requires h1.t.blocks[i].status.Used? && h1.t.blocks[i + 1].status.Used? && h1.t.blocks[i].size <= nsz
    requires forall j :: 0 <= j < |h1.t.blocks| && j != i + 1 ==> BlkResident(h1.res, h1.t.blocks[j])
    requires EndOf(h1.t.blocks[i]) <= c
    ensures AllResident(Absorb(h1, i, nsz))
            <==> var e := DataOf(h1.t.blocks[i]) + nsz; Resident(h1.res, EndOf(h1.t.blocks[i]), Least(c, e)) && Resident(h1.res, c, e)
  {
    var cs := h1.t.blocks;
    AbsorbSplitInv(h1, i, nsz);
    assert BlkResident(h1.res, cs[i]);
    AbsorbedOthers(h1.res, cs, i, nsz);
    ResidentButOne(h1.res, AbsorbedBlocks(cs, i, nsz), i);
    BehindGap(h1.res, cs[i].start, EndOf(cs[i]), c, DataOf(cs[i]) + nsz);
  }

  lemma AbsorbWholeResident(h: Heap, h1: Heap, i: nat, nsz: nat, ok: bool)
    requires Inv(h, false) && AllResident(h) && i + 1 < |h.t.blocks| && h.t.blocks[i].status.Used?
    requires GrowsBySplit(h.t.blocks, i, nsz) && h.t.blocks[i + 1].size <= nsz - h.t.blocks[i].size + HDR
    requires Split(h, i + 1, nsz - h.t.blocks[i].size, ok) == Some(h1)
    ensures i + 1 < |h1.t.blocks| && (AllResident(Absorb(h1, i, nsz)) <==> !GrowthMissesPage(h, i, nsz))
  {
    var b, c, more := h.t.blocks[i], h.t.blocks[i + 1], nsz - h.t.blocks[i].size;
    LaidOrdered(h.t.blocks, h.base, HeapEnd(h), false, i, i + 1);
    WholeOthers(h, h1, i + 1, more, ok);
    assert c in h.t.blocks;
    WholeMapsBehind(h.res, c, more);
    SameInFront(h.res, h1.res, EndOf(b), c.start, DataOf(b) + nsz);
    WholeGrowth(h.res, c, more, DataOf(b) + nsz);
    TwoResident(h1, i, nsz, c.start);
  }

  lemma WholeMapsBehind(res: set<nat>, c: Blk, sz: nat)
    requires BlkResident(res, c)
    ensures res <= WholeRes(res, c, sz) && forall q :: q in WholeRes(res, c, sz) && q !in res ==> q * PAGE >= c.start
  {
    forall q | q in WholeRes(res, c, sz) && q !in res ensures q * PAGE >= c.start {
      assert c.start / PAGE <= DataOf(c) / PAGE <= q && c.start / PAGE in res;
    }
  }

  /** What a split that takes block i whole does to the blocks and pages. */
  lemma WholeOthers(h: Heap, h1: Heap, i: nat, sz: nat, ok: bool)
    requires Inv(h, false) && AllResident(h) && i < |h.t.blocks| && !h.t.blocks[i].status.Used?
    requires 0 < sz && h.t.blocks[i].size <= sz + HDR && Split(h, i, sz, ok) == Some(h1)
    ensures Inv(h1, false) && h1.res == WholeRes(h.res, h.t.blocks[i], sz)
    ensures h1.t.blocks == h.t.blocks[i := h.t.blocks[i].(status := Used)]
    ensures forall j :: 0 <= j < |h1.t.blocks| && j != i ==> BlkResident(h1.res, h1.t.blocks[j])
  {
    SplitInv(h, i, sz, ok, false);
    WholePages(h, h1, i, sz, ok);
    forall j | 0 <= j < |h.t.blocks| && j != i ensures BlkResident(h1.res, h.t.blocks[j]) {
      assert h.t.blocks[j] in h.t.blocks;
      ResidentMore(h.res, h1.res, h.t.blocks[j]);
    }
  }

  lemma WholePages(h: Heap, h1: Heap, i: nat, sz: nat, ok: bool)
    requires i < |h.t.blocks| && h.t.blocks[i].size <= sz + HDR && Split(h, i, sz, ok) == Some(h1)
    ensures h1.res == WholeRes(h.res, h.t.blocks[i], sz)
  {
  }

  function WholeRes(res: set<nat>, c: Blk, sz: nat): set<nat> {
    if c.status.FreeEmpty? then res + Span(DataOf(c) / PAGE, Pages(sz)) else res
  }

  /** The front of block c up to e, when the whole block is taken for more bytes. */
  lemma WholeGrowth(res: set<nat>, c: Blk, more: nat, e: nat)
    requires BlkResident(res, c) && !c.status.Used? && e <= c.start + more && 0 < more < c.size
    ensures Resident(WholeRes(res, c, more), c.start, e)
            <==> !(c.status.FreeEmpty? && !Resident(res, MappedTo(c, more), e))
  {
    var res', m := WholeRes(res, c, more), MappedTo(c, more);
    if c.status.Free? || Resident(res, m, e) {
      forall q: nat | c.start / PAGE <= q && q * PAGE < e ensures q in res' {
        if c.status.FreeEmpty? { assert q < DataOf(c) / PAGE ==> q * PAGE < DataOf(c); }
      }
    } else {
      var q: nat :| m / PAGE <= q && q * PAGE < e && q !in res;
      assert m / PAGE == DataOf(c) / PAGE + Pages(more);
      assert q !in res' && c.start / PAGE <= q;
    }
  }

  lemma GrowthResident(h: Heap, i: nat, nsz: nat, ok: bool)
    requires Inv(h, false) && AllResident(h) && i < |h.t.blocks| && h.t.blocks[i].status.Used?
    requires FitsExactly(h.t.blocks, i, nsz) || (GrowsBySplit(h.t.blocks, i, nsz) && !SplitFails(h.t.blocks, i, nsz, ok))
    ensures Expand(h, i, nsz, ok).Moved? && (AllResident(Expand(h, i, nsz, ok).h) <==> !GrowthMissesPage(h, i, nsz))
  {
    if FitsExactly(h.t.blocks, i, nsz) {
      AbsorbNextResident(h, i, nsz);
    } else {
      var h1 := ExpandSplits(h, i, nsz, ok);
      if h.t.blocks[i + 1].size > nsz - h.t.blocks[i].size + HDR {
        AbsorbCutResident(h, h1, i, nsz, ok);
      } else {
        AbsorbWholeResident(h, h1, i, nsz, ok);
      }
    }
  }

  // ---------------------------------------------------------------- moving a block

  lemma ShrinkLess(h: Heap)
    ensures Shrink(h).res <= h.res
  {
  }

  lemma UnifyLess(h: Heap, i: nat)
    requires i < |h.t.blocks|
    ensures Unify(h, i).res <= h.res
  {
  }

  lemma FreeLess(h: Heap, adr: nat)
    ensures MemFree(h, adr).res <= h.res
  {
    var i := FindUsed(h.t.blocks, adr);
    if i < |h.t.blocks| {
      var h1 := h.(t := Release(h.t, i));
      ShrinkLess(h1);
      if i < |h1.t.blocks| { UnifyLess(h1, i); }
    }
  }

  /** A used block with a missing page. */
  ghost predicate Torn(h: Heap, d: Blk) {
    d in h.t.blocks && d.status.Used? && !BlkResident(h.res, d)
  }

  /** A missing page stays missing as long as its block lives and no page is mapped. */
  lemma TornStays(h: Heap, h': Heap, d: Blk, x: nat)
    requires Torn(h, d) && Preserves(h, h', x) && d.start != x && h'.res <= h.res
    ensures !AllResident(h')
  {
    assert KeptIn(d, h'.t.blocks);
    var c :| c in h'.t.blocks && c.status.Used? && c.start == d.start && c.size >= d.size;
    PartResident(h.res, h'.res, d, c);
  }

  lemma PartResident(res: set<nat>, res': set<nat>, d: Blk, c: Blk)
    requires res' <= res && d.status.Used? && c.status.Used? && c.start == d.start && c.size >= d.size
    ensures BlkResident(res', c) ==> BlkResident(res, d)
  {
  }

  /** A call of mem_alloc that misses a page finds a block and fails exactly when no page frame is left. */
  lemma MissingTaken(h: Heap, sz: nat, ok: bool)
    requires Inv(h, false) && AllocMissesPage(h, sz)
    ensures MemAlloc(h, sz, ok).Got? <==> ok
    ensures FindFreeWithin(h, sz, ok).Taken? <==> ok
    ensures !MemAlloc(h, sz, ok).Corrupted?
  {
    FindInv(h, sz, ok, false);
    ChosenFree(h, sz, false);
    ClassOfValid(sz);
  }

  /** The block that mem_alloc hands out is the one whose page is missing. */
  lemma AllocTears(h: Heap, sz: nat) returns (d: Blk)
    requires Inv(h, false) && AllResident(h) && AllocMissesPage(h, sz)
    ensures MemAlloc(h, sz, true).Got?
    ensures Torn(MemAlloc(h, sz, true).h, d) && DataOf(d) == MemAlloc(h, sz, true).adr
  {
    MissingTaken(h, sz, true);
    FindInv(h, sz, true, false);
    var f := FindFreeWithin(h, sz, true);
    var bs, cs := h.t.blocks, f.h.t.blocks;
    FindResident(h, sz, true);
    d := cs[f.i];
    forall j | 0 <= j < |cs| && j != f.i ensures BlkResident(f.h.res, cs[j]) {
      assert bs[j] in bs && cs[j] == bs[j];
      ResidentMore(h.res, f.h.res, bs[j]);
    }
    ResidentButOne(f.h.res, cs, f.i);
  }

  lemma AllocStepResident(h: Heap, sz: nat, ok: bool)
    requires Inv(h, false) && AllResident(h) && !MemAlloc(h, sz, ok).Corrupted?
    ensures AllResident(MemAlloc(h, sz, ok).h) <==> !(ok && AllocMissesPage(h, sz))
  {
    AllocInv(h, sz, ok, false);
    if AllocMissesPage(h, sz) { MissingTaken(h, sz, ok); }
    if MemAlloc(h, sz, ok).Got? { AllocResident(h, sz, ok); }
  }

  /** The heap after mem_alloc, the copy of b's payload and mem_free. */
  ghost function AfterMove(a: AllocResult, b: Blk): Heap
    requires !a.Corrupted?
  {
    match a
    case Refused(h) => MemFree(h, DataOf(b))
    case Got(h, dst) => MemFree(h.(ram := CopyBytes(h.ram, dst, DataOf(b), b.size)), DataOf(b))
  }

  lemma MoveIs(h: Heap, b: Blk, nsz: nat, ok: bool)
    requires |h.t.fbl| == CLASSES && !MemAlloc(h, nsz, ok).Corrupted?
    ensures MoveBlk(h, DataOf(b), b.size, nsz, ok).h == AfterMove(MemAlloc(h, nsz, ok), b)
  {
  }

  /** The move misses a page in the allocation or in the release. */
  ghost predicate MoveMissesPage(h: Heap, b: Blk, nsz: nat, ok: bool)
    requires |h.t.fbl| == CLASSES
  {
    (ok && AllocMissesPage(h, nsz)) || FreeMissesPage(MemAlloc(h, nsz, ok).h, DataOf(b))
  }

  lemma MoveResident(h: Heap, i: nat, nsz: nat, ok: bool)
    requires Inv(h, false) && AllResident(h) && i < |h.t.blocks| && h.t.blocks[i].status.Used?
    requires !MemAlloc(h, nsz, ok).Corrupted?
    ensures var r := MoveBlk(h, DataOf(h.t.blocks[i]), h.t.blocks[i].size, nsz, ok);
            AllResident(r.h) <==> !MoveMissesPage(h, h.t.blocks[i], nsz, ok)
  {
    MoveIs(h, h.t.blocks[i], nsz, ok);
    if ok && AllocMissesPage(h, nsz) {
      MoveTorn(h, i, nsz);
    } else {
      AllocInv(h, nsz, ok, false);
      AllocStepResident(h, nsz, ok);
      MoveWhole(MemAlloc(h, nsz, ok), h.t.blocks[i]);
    }
  }

  lemma MoveWhole(a: AllocResult, b: Blk)
    requires !a.Corrupted? && Inv(a.h, false) && AllResident(a.h)
    ensures AllResident(AfterMove(a, b)) <==> !FreeMissesPage(a.h, DataOf(b))
  {
    match a {
      case Refused(h) => FreeResident(h, DataOf(b));
      case Got(h, dst) =>
        var h2 := h.(ram := CopyBytes(h.ram, dst, DataOf(b), b.size));
        FreeResident(h2, DataOf(b));
        SameMiss(h, h2, DataOf(b));
    }
  }

  /** Bytes do not matter to the pages. */
  lemma SameMiss(h: Heap, h2: Heap, adr: nat)
    requires h2.t == h.t && h2.res == h.res
    ensures FreeMissesPage(h2, adr) <==> FreeMissesPage(h, adr)
  {
  }

  lemma MoveTorn(h: Heap, i: nat, nsz: nat)
    requires Inv(h, false) && AllResident(h) && i < |h.t.blocks| && h.t.blocks[i].status.Used? && AllocMissesPage(h, nsz)
    requires !MemAlloc(h, nsz, true).Corrupted?
    ensures !AllResident(AfterMove(MemAlloc(h, nsz, true), h.t.blocks[i]))
  {
    var d := AllocTears(h, nsz);
    AllocInv(h, nsz, true, false);
    AllocPreserves(h, nsz, true, false);
    assert h.t.blocks[i] in h.t.blocks;
    TornOver(h, MemAlloc(h, nsz, true), h.t.blocks[i], d);
  }

  lemma TornOver(h: Heap, a: AllocResult, b: Blk, d: Blk)
    requires Inv(h, false) && b in h.t.blocks && b.status.Used? && a.Got? && Inv(a.h, false) && Preserves(h, a.h, 0)
    requires Torn(a.h, d) && DataOf(d) == a.adr && DataOf(b) != a.adr
    ensures !AllResident(AfterMove(a, b))
  {
    var c := StillThere(h, a.h, b);
    FreeTorn(a.h.(ram := CopyBytes(a.h.ram, a.adr, DataOf(b), b.size)), c, d);
  }

  lemma StillThere(h: Heap, h': Heap, b: Blk) returns (c: Blk)
    requires Inv(h, false) && b in h.t.blocks && b.status.Used? && Preserves(h, h', 0)
    ensures c in h'.t.blocks && c.status.Used? && c.start == b.start
  {
    InvClassed(h, false);
    assert KeptIn(b, h'.t.blocks);
    c :| c in h'.t.blocks && c.status.Used? && c.start == b.start;
  }

  lemma FreeTorn(h: Heap, c: Blk, d: Blk)
    requires Inv(h, false) && c in h.t.blocks && c.status.Used? && Torn(h, d) && d.start != c.start
    ensures !AllResident(MemFree(h, DataOf(c)))
  {
    FreeAway(h, DataOf(c), c, false);
    FreeLess(h, DataOf(c));
    TornStays(h, MemFree(h, DataOf(c)), d, c.start);
  }

  /** After a failed split no page can be had, so a block taken by the search is not an empty one. */
  lemma FailedSplitResident(h: Heap, i: nat, nsz: nat)
    requires Inv(h, false) && AllResident(h) && i < |h.t.blocks| && h.t.blocks[i].status.Used?
    ensures AllResident(MoveAfterError(h, DataOf(h.t.blocks[i]), nsz).h) <==> !ErrorMissesPage(h, h.t.blocks[i], nsz)
  {
    FindInv(h, nsz, false, false);
    match FindFreeWithin(h, nsz, false) {
      case Taken(h1, _) =>
        if AllocMissesPage(h, nsz) { MissingTaken(h, nsz, false); }
        FindResident(h, nsz, false);
        FreeResident(h1, DataOf(h.t.blocks[i]));
      case _ =>
        FreeResident(h, DataOf(h.t.blocks[i]));
    }
  }

  /** The release after a failed split misses a page. */
  ghost predicate ErrorMissesPage(h: Heap, b: Blk, nsz: nat)
    requires |h.t.fbl| == CLASSES
  {
    var f := FindFreeWithin(h, nsz, false);
    FreeMissesPage(if f.Taken? then f.h else h, DataOf(b))
  }

  // ---------------------------------------------------------------- whole calls and runs

  /**
   The calls that leave a needed page unmapped, told from the state before the call and, where a
   payload moves, from the heap that the inner allocation leaves.
   */
  ghost predicate MissesPage(h: Heap, op: Op)
    requires |h.t.fbl| == CLASSES
  {
    match op
    case AllocOp(sz, ok) => ok && AllocMissesPage(h, sz)
    case FreeOp(adr) => FreeMissesPage(h, adr)
    case ReallocOp(adr, nsz, ok) =>
      if adr == 0 then ok && AllocMissesPage(h, nsz)
      else if nsz == 0 then FreeMissesPage(h, adr)
      else
        var i := FindUsed(h.t.blocks, adr);
        i < |h.t.blocks| && ResizeMissesPage(h, i, nsz, ok)
  }

  ghost predicate ResizeMissesPage(h: Heap, i: nat, nsz: nat, ok: bool)
    requires |h.t.fbl| == CLASSES && i < |h.t.blocks|
  {
    if h.t.blocks[i].size > nsz then CutMissesPage(h, i, nsz)
    else if MustMove(h.t.blocks, i, nsz) then MoveMissesPage(h, h.t.blocks[i], nsz, ok)
    else if SplitFails(h.t.blocks, i, nsz, ok) then ErrorMissesPage(h, h.t.blocks[i], nsz)
    else GrowthMissesPage(h, i, nsz)
  }

  /** mem_realloc of a live payload keeps every needed page mapped unless the call misses one. */
  lemma ReallocResident(h: Heap, adr: nat, nsz: nat, ok: bool)
    requires Inv(h, false) && AllResident(h) && adr != 0 && 0 < nsz && FindUsed(h.t.blocks, adr) < |h.t.blocks|
    requires !MemRealloc(h, adr, nsz, ok).StaleHeader? && !MemRealloc(h, adr, nsz, ok).Broken?
    ensures AllResident(MemRealloc(h, adr, nsz, ok).h) <==> !MissesPage(h, ReallocOp(adr, nsz, ok))
  {
    var i := FindUsed(h.t.blocks, adr);
    var b := h.t.blocks[i];
    if b.size > nsz {
      ShrinkBlkResident(h, i, nsz);
    } else if MustMove(h.t.blocks, i, nsz) {
      ReallocMoves(h, i, nsz, ok, false);
      AllocCorruptsIff(h, nsz, ok, false);
      MoveResident(h, i, nsz, ok);
    } else if SplitFails(h.t.blocks, i, nsz, ok) {
      FailedSplitResident(h, i, nsz);
    } else if b.size < nsz {
      GrowthResident(h, i, nsz, ok);
    }
  }

  /** A call keeps all needed pages mapped if and only if it does not miss a page. */
  lemma StepResident(h: Heap, op: Op)
    requires Inv(h, false) && AllResident(h) && Step(h, op).Some?
    ensures AllResident(Step(h, op).value) <==> !MissesPage(h, op)
  {
    match op {
      case AllocOp(sz, ok) => AllocStepResident(h, sz, ok);
      case FreeOp(adr) => FreeResident(h, adr);
      case ReallocOp(adr, nsz, ok) =>
        if adr == 0 {
          AllocCallResident(h, nsz, ok);
        } else if nsz == 0 {
          FreeResident(h, adr);
        } else if FindUsed(h.t.blocks, adr) < |h.t.blocks| {
          ReallocResident(h, adr, nsz, ok);
        }
    }
  }

  /** mem_realloc without an old block. */
  lemma AllocCallResident(h: Heap, nsz: nat, ok: bool)
    requires Inv(h, false) && AllResident(h) && Outcome(MemRealloc(h, 0, nsz, ok)).Some?
    ensures AllResident(MemRealloc(h, 0, nsz, ok).h) <==> !(ok && AllocMissesPage(h, nsz))
  {
    if nsz > 0 { AllocStepResident(h, nsz, ok); }
  }

  /** No call of the run misses a page. */
  ghost predicate NeverMisses(h: Heap, ops: seq<Op>)
    requires |h.t.fbl| == CLASSES
    decreases |ops|
  {
    ops == [] ||
    (!MissesPage(h, ops[0])
     && var r := Step(h, ops[0]); r.Some? && |r.value.t.fbl| == CLASSES ==> NeverMisses(r.value, ops[1..]))
  }

  lemma {:induction false} RunResidentFrom(h: Heap, ops: seq<Op>)
    requires Inv(h, false) && AllResident(h) && NeverMisses(h, ops)
    ensures Run(h, ops).Some? ==> AllResident(Run(h, ops).value)
    decreases |ops|
  {
    if ops != [] {
      StepInv(h, ops[0], false);
      var r := Step(h, ops[0]);
      if r.Some? {
        StepResident(h, ops[0]);
        RunResidentFrom(r.value, ops[1..]);
      }
    }
  }

  /**
   Residency over runs of all three calls, growth by splitting included: every page of a header,
   of a live payload and of a free payload that is not marked empty is mapped after every run
   from a fresh heap in which no call misses a page.
   */
  lemma RunResident(base: nat, ops: seq<Op>)
    requires base > 0 && base % PAGE == 0 && NeverMisses(Fresh(base), ops)
    ensures Run(Fresh(base), ops).Some? ==> AllResident(Run(Fresh(base), ops).value)
  {
    FreshInv(base);
    RunResidentFrom(Fresh(base), ops);
  }
}
