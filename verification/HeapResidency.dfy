/**
 Which pages are resident: the pages under every block header, every live payload and every
 free payload that is not marked empty.  mem_alloc and mem_free keep them mapped with three
 exceptions, each characterised exactly: a block used whole in lib_split_free_entry, and the
 gaps that mem_realloc leaves between blocks, when lib_shrink_heap extends a block into one or
 lib_unify_free_entry merges two blocks over one.
 */
module HeapResidency {
  import opened BlockLists
  import opened BlockTables
  import opened BlockSteps
  import opened BestFit
  import opened HeapSpec
  import opened HeapInv
  import opened HeapOps
  import opened HeapKeep

  /** Every page that meets [lo, hi) is resident. */
  ghost predicate Resident(res: set<nat>, lo: nat, hi: nat) {
    forall q: nat {:trigger q in res} :: lo / PAGE <= q && q * PAGE < hi ==> q in res
  }

  ghost predicate BlkResident(res: set<nat>, b: Blk) {
    Resident(res, b.start, if b.status.FreeEmpty? then DataOf(b) else EndOf(b))
  }

  ghost predicate AllResident(h: Heap) {
    forall b :: b in h.t.blocks ==> BlkResident(h.res, b)
  }

  lemma ResidentMore(res: set<nat>, res': set<nat>, b: Blk)
    requires BlkResident(res, b) && res <= res'
    ensures BlkResident(res', b)
  {
  }

  /** A block outside the space of whole pages removed keeps its pages. */
  lemma ResidentLess(res: set<nat>, b: Blk, q: nat, n: nat)
    requires BlkResident(res, b) && (EndOf(b) <= q * PAGE || (q + n) * PAGE <= b.start)
    ensures BlkResident(res - Span(q, n), b)
  {
  }

  /** All blocks but block i are resident, and so is its header. */
  ghost predicate OthersResident(h: Heap, i: nat)
    requires i < |h.t.blocks|
  {
    && (forall j :: 0 <= j < |h.t.blocks| && j != i ==> BlkResident(h.res, h.t.blocks[j]))
    && Resident(h.res, h.t.blocks[i].start, DataOf(h.t.blocks[i]))
  }

  lemma AllButOne(h: Heap, i: nat)
    requires AllResident(h) && i < |h.t.blocks|
    ensures OthersResident(h, i)
  {
    assert h.t.blocks[i] in h.t.blocks;
    forall j | 0 <= j < |h.t.blocks| && j != i ensures BlkResident(h.res, h.t.blocks[j]) {
      assert h.t.blocks[j] in h.t.blocks;
    }
  }

  /** All blocks but the one at i are resident, so residency hangs on that one. */
  lemma ResidentButOne(res: set<nat>, bs: seq<Blk>, i: nat)
    requires i < |bs| && forall j :: 0 <= j < |bs| && j != i ==> BlkResident(res, bs[j])
    ensures (forall b :: b in bs ==> BlkResident(res, b)) <==> BlkResident(res, bs[i])
  {
    assert bs[i] in bs;
  }

  /** Two neighbouring stretches are resident exactly when both are. */
  lemma ResidentJoin(res: set<nat>, lo: nat, mid: nat, hi: nat)
    requires lo < mid <= hi && Resident(res, lo, mid)
    ensures Resident(res, lo, hi) <==> Resident(res, mid, hi)
  {
    if Resident(res, mid, hi) {
      forall q: nat | lo / PAGE <= q && q * PAGE < hi ensures q in res {
        if q < mid / PAGE { assert q * PAGE < mid; }
      }
    }
    if Resident(res, lo, hi) {
      assert lo / PAGE <= mid / PAGE;
    }
  }

  // ---------------------------------------------------------------- giving pages back

  lemma CleanResident(h: Heap, i: nat)
    requires Inv(h, false) && i < |h.t.blocks| && OthersResident(h, i) && !h.t.blocks[i].status.Used?
    ensures AllResident(Clean(h, i))
  {
    var b, h' := h.t.blocks[i], Clean(h, i);
    var (start, pages) := CleanSpan(b);
    CleanSpanInside(b);
    CleanInv(h, i, false);
    forall c | c in h'.t.blocks ensures BlkResident(h'.res, c) {
      var j :| 0 <= j < |h'.t.blocks| && h'.t.blocks[j] == c;
      if j != i && pages > 0 {
        if j < i { LaidOrdered(h.t.blocks, h.base, HeapEnd(h), false, j, i); }
        if i < j { LaidOrdered(h.t.blocks, h.base, HeapEnd(h), false, i, j); }
        ResidentLess(h.res, c, start / PAGE, pages);
      }
    }
  }

  /** The pages of the last block, header included, that a shrinking of the heap removes. */
  function LastPages(bs: seq<Blk>): nat {
    if bs == [] then 0 else (bs[|bs| - 1].size + HDR) / PAGE
  }

  /**
   The heap shrinks, and the block in front of the last one gets bytes of a gap of which a
   page is not mapped.
   */
  ghost predicate ShrinkMissesPage(res: set<nat>, bs: seq<Blk>) {
    && |bs| > 1 && LastPages(bs) > 0 && LastRest(bs) > 0
    && var b := bs[|bs| - 2];
       !b.status.FreeEmpty? && !Resident(res, EndOf(b), EndOf(b) + LastRest(bs))
  }

  lemma ShrinkResident(h: Heap)
    requires Inv(h, false) && h.t.blocks != [] && OthersResident(h, |h.t.blocks| - 1) && LastPages(h.t.blocks) > 0
    ensures AllResident(Shrink(h)) <==> !ShrinkMissesPage(h.res, h.t.blocks)
  {
    var h', pages := Shrink(h), LastPages(h.t.blocks);
    PagesFit(h);
    ShrinkLaid(h, false);
    ShrinkParts(h, pages);
    EndsBelow(h');
    SizesOf(h);
    ShrunkPages(h.res, h'.res, h.t.blocks, HeapEnd(h'), pages);
  }

  lemma ShrunkPages(res: set<nat>, res': set<nat>, bs: seq<Blk>, e: nat, pages: nat)
    requires |bs| > 0 && (forall j :: 0 <= j < |bs| - 1 ==> BlkResident(res, bs[j])) && LastPages(bs) > 0
    requires (forall b :: b in bs ==> b.size > 0) && e % PAGE == 0 && forall b :: b in ShrunkBlocks(bs) ==> EndOf(b) <= e
    requires res' == res - Span(e / PAGE, pages)
    ensures (forall b :: b in ShrunkBlocks(bs) ==> BlkResident(res', b)) <==> !ShrinkMissesPage(res, bs)
  {
    ShrunkResident(res, bs);
    RemainResident(res, ShrunkBlocks(bs), e, pages);
  }

  lemma SizesOf(h: Heap)
    requires Inv(h, false)
    ensures forall b :: b in h.t.blocks ==> b.size > 0
  {
    LaidBounds(h.t.blocks, h.base, HeapEnd(h), false);
  }

  lemma EndsBelow(h: Heap)
    requires Inv(h, false)
    ensures HeapEnd(h) % PAGE == 0 && forall b :: b in h.t.blocks ==> EndOf(b) <= HeapEnd(h)
  {
    LaidBounds(h.t.blocks, h.base, HeapEnd(h), false);
  }

  lemma PagesFit(h: Heap)
    requires Inv(h, false) && h.t.blocks != []
    ensures LastPages(h.t.blocks) <= h.usable
  {
    LaidBounds(h.t.blocks, h.base, HeapEnd(h), false);
    assert h.t.blocks[|h.t.blocks| - 1] in h.t.blocks;
  }

  lemma ShrunkResident(res: set<nat>, bs: seq<Blk>)
    requires |bs| > 0 && (forall j :: 0 <= j < |bs| - 1 ==> BlkResident(res, bs[j])) && LastPages(bs) > 0
    requires forall b :: b in bs ==> b.size > 0
    ensures (forall c :: c in ShrunkBlocks(bs) ==> BlkResident(res, c)) <==> !ShrinkMissesPage(res, bs)
  {
    var n, cs := |bs|, ShrunkBlocks(bs);
    if LastRest(bs) == 0 {
      forall c | c in cs ensures BlkResident(res, c) { }
    } else {
      ResidentButOne(res, cs, n - 2);
      ExtendedResident(res, bs[n - 2], cs[n - 2], LastRest(bs));
    }
  }

  /** Blocks below an address keep their pages when the pages above it go. */
  lemma RemainResident(res: set<nat>, bs: seq<Blk>, e: nat, pages: nat)
    requires e % PAGE == 0 && forall b :: b in bs ==> EndOf(b) <= e
    ensures (forall b :: b in bs ==> BlkResident(res - Span(e / PAGE, pages), b)) <==> (forall b :: b in bs ==> BlkResident(res, b))
  {
    forall b | b in bs ensures BlkResident(res - Span(e / PAGE, pages), b) <==> BlkResident(res, b) {
      var res' := res - Span(e / PAGE, pages);
      if BlkResident(res, b) { ResidentLess(res, b, e / PAGE, pages); } else if BlkResident(res', b) { ResidentMore(res', res, b); }
    }
  }

  lemma ExtendedResident(res: set<nat>, p: Blk, c: Blk, rest: nat)
    requires BlkResident(res, p) && c.start == p.start && c.status == p.status && c.size == p.size + rest
    ensures BlkResident(res, c) <==> c.status.FreeEmpty? || Resident(res, EndOf(p), EndOf(p) + rest)
  {
    if !c.status.FreeEmpty? { ResidentJoin(res, p.start, EndOf(p), EndOf(p) + rest); }
  }

  // ---------------------------------------------------------------- mem_free

  function Least(a: nat, b: nat): nat {
    if a < b then a else b
  }

  /**
   The merger of free block i with its neighbours would take in a page of a gap that is not
   mapped, and is not marked empty.  The merged block ends in front of its last part by the
   size of the gaps.
   */
  ghost predicate MergeMissesPage(res: set<nat>, bs: seq<Blk>, i: nat)
    requires i < |bs|
  {
    var e := EndOf(MergedBlk(bs, i));
    && !MergedBlk(bs, i).status.FreeEmpty?
    && ((IsFreeAt(bs, i - 1) && !Resident(res, EndOf(bs[i - 1]), Least(bs[i].start, e)))
        || (IsFreeAt(bs, i + 1) && !Resident(res, EndOf(bs[i]), Least(bs[i + 1].start, e))))
  }

  lemma MergeResident(h: Heap, i: nat)
    requires Inv(h, false) && AllResident(h) && i < |h.t.blocks| && !h.t.blocks[i].status.Used?
    ensures var h1 := h.(t := Merge(h.t, i));
            MergeLo(h.t.blocks, i) < |h1.t.blocks| && OthersResident(h1, MergeLo(h.t.blocks, i))
            && h1.t.blocks[MergeLo(h.t.blocks, i)] == MergedBlk(h.t.blocks, i)
  {
    var bs, lo, hi := h.t.blocks, MergeLo(h.t.blocks, i), MergeHi(h.t.blocks, i);
    MergeInv(h, i, false);
    assert bs[lo] in bs;
    var cs := Merge(h.t, i).blocks;
    forall j | 0 <= j < |cs| && j != lo ensures BlkResident(h.res, cs[j]) {
      assert cs[j] == bs[if j < lo then j else j + (hi - lo - 1)];
    }
  }

  lemma MergedResident(h: Heap, i: nat)
    requires Inv(h, false) && AllResident(h) && i < |h.t.blocks| && !h.t.blocks[i].status.Used?
    ensures BlkResident(h.res, MergedBlk(h.t.blocks, i)) <==> !MergeMissesPage(h.res, h.t.blocks, i)
  {
    var bs, m := h.t.blocks, MergedBlk(h.t.blocks, i);
    assert bs[MergeLo(bs, i)] in bs && bs[i] in bs && bs[MergeHi(bs, i) - 1] in bs;
    if i > 0 { LaidOrdered(bs, h.base, HeapEnd(h), false, i - 1, i); }
    if i + 1 < |bs| { LaidOrdered(bs, h.base, HeapEnd(h), false, i, i + 1); }
    if m.status.Free? { MergedPages(h.res, bs, i); }
  }

  lemma MergedPages(res: set<nat>, bs: seq<Blk>, i: nat)
    requires i < |bs| && !bs[i].status.Used? && MergedBlk(bs, i).status.Free?
    requires forall j :: MergeLo(bs, i) <= j < MergeHi(bs, i) ==> BlkResident(res, bs[j])
    requires i > 0 ==> EndOf(bs[i - 1]) <= bs[i].start
    requires i + 1 < |bs| ==> EndOf(bs[i]) <= bs[i + 1].start
    ensures BlkResident(res, MergedBlk(bs, i)) <==> !MergeMissesPage(res, bs, i)
  {
    var e := EndOf(MergedBlk(bs, i));
    assert BlkResident(res, bs[i]);
    if IsFreeAt(bs, i - 1) && IsFreeAt(bs, i + 1) {
      assert BlkResident(res, bs[i - 1]) && BlkResident(res, bs[i + 1]);
      ThreeParts(res, bs[i - 1].start, EndOf(bs[i - 1]), bs[i].start, EndOf(bs[i]), bs[i + 1].start, EndOf(bs[i + 1]), e);
    } else if IsFreeAt(bs, i - 1) {
      assert BlkResident(res, bs[i - 1]);
      TwoParts(res, bs[i - 1].start, EndOf(bs[i - 1]), bs[i].start, EndOf(bs[i]), e);
    } else if IsFreeAt(bs, i + 1) {
      assert BlkResident(res, bs[i + 1]);
      TwoParts(res, bs[i].start, EndOf(bs[i]), bs[i + 1].start, EndOf(bs[i + 1]), e);
    }
  }

  /** Between two resident parts only the gap can miss a page. */
  lemma TwoParts(res: set<nat>, a: nat, ea: nat, c: nat, ec: nat, e: nat)
    requires a < ea <= c < ec && e <= ec && Resident(res, a, ea) && Resident(res, c, ec)
    ensures Resident(res, a, e) <==> Resident(res, ea, Least(c, e))
  {
    if Resident(res, ea, Least(c, e)) {
      forall q: nat | a / PAGE <= q && q * PAGE < e ensures q in res {
        if ea <= q * PAGE < c { assert ea / PAGE <= q; }
        if c <= q * PAGE { assert c / PAGE <= q; }
      }
    }
    if Resident(res, a, e) {
      assert a / PAGE <= ea / PAGE;
    }
  }

  lemma ThreeParts(res: set<nat>, a: nat, ea: nat, b: nat, eb: nat, c: nat, ec: nat, e: nat)
    requires a < ea <= b < eb <= c < ec && e <= ec
    requires Resident(res, a, ea) && Resident(res, b, eb) && Resident(res, c, ec)
    ensures Resident(res, a, e) <==> Resident(res, ea, Least(b, e)) && Resident(res, eb, Least(c, e))
  {
    TwoParts(res, b, eb, c, ec, e);
    if Resident(res, b, e) {
      TwoPartsTo(res, a, ea, b, e);
    }
    if Resident(res, a, e) {
      assert a / PAGE <= b / PAGE && a / PAGE <= ea / PAGE;
    }
  }

  lemma TwoPartsTo(res: set<nat>, a: nat, ea: nat, b: nat, e: nat)
    requires a < ea <= b && Resident(res, a, ea) && Resident(res, b, e)
    ensures Resident(res, a, e) <==> Resident(res, ea, Least(b, e))
  {
    if Resident(res, ea, Least(b, e)) {
      forall q: nat | a / PAGE <= q && q * PAGE < e ensures q in res {
        if ea <= q * PAGE < b { assert ea / PAGE <= q; }
        if b <= q * PAGE { assert b / PAGE <= q; }
      }
    }
    if Resident(res, a, e) {
      assert a / PAGE <= ea / PAGE;
    }
  }

  /**
   Merging free block i with its neighbours misses a page: the merged block stays at the end of
   the heap, or goes and leaves bytes to the block in front of it.  Any other is marked empty.
   */
  ghost predicate UnifyMissesPage(h: Heap, i: nat)
    requires i < |h.t.blocks|
  {
    && (IsFreeAt(h.t.blocks, i - 1) || IsFreeAt(h.t.blocks, i + 1))
    && MergeHi(h.t.blocks, i) == |h.t.blocks|
    && var cs := Merge(h.t, i).blocks;
       if LastPages(cs) == 0 then MergeMissesPage(h.res, h.t.blocks, i) else ShrinkMissesPage(h.res, cs)
  }

  lemma UnifyResident(h: Heap, i: nat)
    requires Inv(h, false) && AllResident(h) && i < |h.t.blocks| && !h.t.blocks[i].status.Used?
    ensures AllResident(Unify(h, i)) <==> !UnifyMissesPage(h, i)
  {
    if IsFreeAt(h.t.blocks, i - 1) || IsFreeAt(h.t.blocks, i + 1) {
      var h1, lo := h.(t := Merge(h.t, i)), MergeLo(h.t.blocks, i);
      MergeInv(h, i, false);
      MergeResident(h, i);
      if lo + 1 < |h1.t.blocks| {
        CleanResident(h1, lo);
      } else if LastPages(h1.t.blocks) > 0 {
        ShrinkResident(h1);
      } else {
        MergedResident(h, i);
        ResidentButOne(h.res, h1.t.blocks, lo);
      }
    }
  }

  /** mem_free misses a page, told from the state before the call. */
  ghost predicate FreeMissesPage(h: Heap, adr: nat) {
    var i := FindUsed(h.t.blocks, adr);
    && adr != 0 && i < |h.t.blocks|
    && if i + 1 == |h.t.blocks| then ShrinkMissesPage(h.res, h.t.blocks)
       else i < |Release(h.t, i).blocks| && UnifyMissesPage(h.(t := Release(h.t, i)), i)
  }

  lemma FreeResident(h: Heap, adr: nat)
    requires Inv(h, false) && AllResident(h)
    ensures AllResident(MemFree(h, adr)) <==> !FreeMissesPage(h, adr)
  {
    var i := FindUsed(h.t.blocks, adr);
    if adr != 0 && i < |h.t.blocks| {
      var h1 := h.(t := Release(h.t, i));
      ReleaseInv(h, i, false);
      ReleaseResident(h, i);
      if i + 1 < |h.t.blocks| {
        UnifyResident(h1, i);
      } else if LastPages(h.t.blocks) > 0 {
        AllButOne(h1, i);
        ShrinkResident(h1);
        assert ShrinkMissesPage(h.res, h.t.blocks) <==> ShrinkMissesPage(h.res, h1.t.blocks);
      }
    }
  }

  lemma ReleaseResident(h: Heap, i: nat)
    requires Inv(h, false) && AllResident(h) && i < |h.t.blocks| && h.t.blocks[i].status.Used?
    ensures AllResident(h.(t := Release(h.t, i)))
  {
    var h1 := h.(t := Release(h.t, i));
    ReleaseInv(h, i, false);
    forall c | c in h1.t.blocks ensures BlkResident(h.res, c) {
      var j :| 0 <= j < |h1.t.blocks| && h1.t.blocks[j] == c;
      assert h.t.blocks[j] in h.t.blocks;
    }
  }

  // ---------------------------------------------------------------- where the tiling is exact

  /** In an exactly tiled heap there is no gap to take a page from: mem_free never misses one. */
  lemma ExactFree(h: Heap, adr: nat)
    requires Inv(h, true) && AllResident(h)
    ensures !FreeMissesPage(h, adr)
  {
    var i := FindUsed(h.t.blocks, adr);
    if adr != 0 && i < |h.t.blocks| {
      var h1 := h.(t := Release(h.t, i));
      ReleaseInv(h, i, true);
      LaidLoose(h.t.blocks, h.base, HeapEnd(h), true);
      ReleaseResident(h, i);
      AllButOne(h, i);
      if i + 1 == |h.t.blocks| { ExactShrink(h); } else { ExactUnify(h1, i); }
    }
  }

  /** The bytes up to the page boundary lie on the page of the last block's header. */
  lemma ExactShrink(h: Heap)
    requires Inv(h, true) && h.t.blocks != [] && OthersResident(h, |h.t.blocks| - 1)
    ensures !ShrinkMissesPage(h.res, h.t.blocks)
  {
    if |h.t.blocks| > 1 {
      ExactAdjacent(h, |h.t.blocks| - 2);
      AdjacentShrink(h.res, h.t.blocks);
    }
  }

  lemma AdjacentShrink(res: set<nat>, bs: seq<Blk>)
    requires |bs| > 1 && EndOf(bs[|bs| - 2]) == bs[|bs| - 1].start && Resident(res, bs[|bs| - 1].start, DataOf(bs[|bs| - 1]))
    ensures !ShrinkMissesPage(res, bs)
  {
    var n := |bs|;
    forall q: nat | EndOf(bs[n - 2]) / PAGE <= q && q * PAGE < EndOf(bs[n - 2]) + LastRest(bs) ensures LastRest(bs) > 0 ==> q in res {
      assert LastRest(bs) > 0 ==> q == bs[n - 1].start / PAGE;
    }
  }

  lemma ExactUnify(h: Heap, i: nat)
    requires Inv(h, true) && AllResident(h) && i < |h.t.blocks| && !h.t.blocks[i].status.Used?
    ensures !UnifyMissesPage(h, i)
  {
    var bs := h.t.blocks;
    LaidLoose(bs, h.base, HeapEnd(h), true);
    if (IsFreeAt(bs, i - 1) || IsFreeAt(bs, i + 1)) && MergeHi(bs, i) == |bs| {
      MergeInv(h, i, true);
      MergeResident(h, i);
      if LastPages(Merge(h.t, i).blocks) == 0 { ExactMerge(h, i); } else { ExactShrink(h.(t := Merge(h.t, i))); }
    }
  }

  lemma ExactMerge(h: Heap, i: nat)
    requires Inv(h, true) && AllResident(h) && i < |h.t.blocks| && !h.t.blocks[i].status.Used?
    ensures !MergeMissesPage(h.res, h.t.blocks, i)
  {
    var bs := h.t.blocks;
    assert bs[i] in bs && bs[MergeLo(bs, i)] in bs;
    if IsFreeAt(bs, i - 1) { NoGap(h, i - 1, EndOf(MergedBlk(bs, i))); }
    if IsFreeAt(bs, i + 1) { NoGap(h, i, EndOf(MergedBlk(bs, i))); }
  }

  lemma NoGap(h: Heap, i: nat, e: nat)
    requires Inv(h, true) && AllResident(h) && i + 1 < |h.t.blocks|
    ensures h.t.blocks[i].status.FreeEmpty? || Resident(h.res, EndOf(h.t.blocks[i]), Least(h.t.blocks[i + 1].start, e))
  {
    var bs := h.t.blocks;
    assert bs[i] in bs && bs[i + 1] in bs;
    ExactAdjacent(h, i);
    forall q: nat | EndOf(bs[i]) / PAGE <= q && q * PAGE < Least(bs[i + 1].start, e) ensures q in h.res {
      assert q == bs[i + 1].start / PAGE;
    }
  }

  lemma ExactAdjacent(h: Heap, i: nat)
    requires Inv(h, true) && i + 1 < |h.t.blocks|
    ensures EndOf(h.t.blocks[i]) == h.t.blocks[i + 1].start
  {
    InvAt(h, true, i);
    InvAt(h, true, i + 1);
  }

  // ---------------------------------------------------------------- mem_alloc

  /** Splitting maps every page of the used part and of the new header. */
  lemma CutResident(h: Heap, i: nat, sz: nat, ok: bool)
    requires Inv(h, false) && AllResident(h) && i < |h.t.blocks| && !h.t.blocks[i].status.Used?
    requires 0 < sz && h.t.blocks[i].size > sz + HDR && Split(h, i, sz, ok).Some?
    ensures AllResident(Split(h, i, sz, ok).value)
  {
    var b, bs, h' := h.t.blocks[i], h.t.blocks, Split(h, i, sz, ok).value;
    SplitInv(h, i, sz, ok, false);
    CutResidentMaps(h, i, sz, ok);
    var cs := h'.t.blocks;
    forall c | c in cs ensures BlkResident(h'.res, c) {
      var j :| 0 <= j < |cs| && cs[j] == c;
      if j < i || j > i + 1 {
        var d := bs[if j < i then j else j - 1];
        assert c == d && d in bs;
        ResidentMore(h.res, h'.res, d);
      }
    }
  }

  lemma CutResidentMaps(h: Heap, i: nat, sz: nat, ok: bool)
    requires i < |h.t.blocks| && BlkResident(h.res, h.t.blocks[i]) && !h.t.blocks[i].status.Used?
    requires 0 < sz && h.t.blocks[i].size > sz + HDR && Split(h, i, sz, ok).Some?
    ensures var (b, res') := (h.t.blocks[i], Split(h, i, sz, ok).value.res);
            && h.res <= res'
            && Resident(res', b.start, DataOf(b) + sz)
            && Resident(res', DataOf(b) + sz, if b.status.FreeEmpty? then DataOf(b) + sz + HDR else EndOf(b))
  {
    var b := h.t.blocks[i];
    if b.status.FreeEmpty? { RoundedMaps(h.res, b, sz + HDR); }
  }

  /** Mapping n bytes from the rounded-up payload start covers the payload's first n bytes. */
  lemma RoundedMaps(res: set<nat>, b: Blk, n: nat)
    requires Resident(res, b.start, DataOf(b))
    ensures Resident(res + Span(RoundUp(DataOf(b)) / PAGE, Pages(n)), b.start, DataOf(b) + n)
  {
    var p := RoundUp(DataOf(b)) / PAGE;
    forall q: nat | b.start / PAGE <= q && q * PAGE < DataOf(b) + n ensures q in res + Span(p, Pages(n)) {
      if q < p { assert q * PAGE < DataOf(b); }
    }
  }

  /** A page of the payload behind the first Pages(sz) pages is missing. */
  ghost predicate TailMissing(res: set<nat>, b: Blk, sz: nat) {
    exists q: nat :: DataOf(b) / PAGE + Pages(sz) <= q && q * PAGE < EndOf(b) && q !in res
  }

  /** An empty block used whole is resident exactly when no page of its tail was missing. */
  lemma WholeResident(h: Heap, i: nat, sz: nat)
    requires Inv(h, false) && AllResident(h) && i < |h.t.blocks| && !h.t.blocks[i].status.Used?
    requires 0 < sz && h.t.blocks[i].size <= sz + HDR && Split(h, i, sz, true).Some?
    ensures var b := h.t.blocks[i];
            AllResident(Split(h, i, sz, true).value) <==> !(b.status.FreeEmpty? && TailMissing(h.res, b, sz))
  {
    var b, bs, h' := h.t.blocks[i], h.t.blocks, Split(h, i, sz, true).value;
    SplitInv(h, i, sz, true, false);
    assert bs[i] in bs && h'.t.blocks[i] in h'.t.blocks;
    var u := b.(status := Used);
    WholeBlkResident(h.res, b, sz);
    forall c | c in h'.t.blocks && c != u ensures BlkResident(h'.res, c) {
      var j :| 0 <= j < |h'.t.blocks| && h'.t.blocks[j] == c;
      assert bs[j] in bs;
      ResidentMore(h.res, h'.res, c);
    }
    assert h'.res == if b.status.FreeEmpty? then h.res + Span(DataOf(b) / PAGE, Pages(sz)) else h.res;
  }

  lemma WholeBlkResident(res: set<nat>, b: Blk, sz: nat)
    requires BlkResident(res, b) && !b.status.Used?
    ensures b.status.FreeEmpty? ==>
              (BlkResident(res + Span(DataOf(b) / PAGE, Pages(sz)), b.(status := Used)) <==> !TailMissing(res, b, sz))
    ensures b.status.Free? ==> BlkResident(res, b.(status := Used))
  {
    if b.status.FreeEmpty? {
      var res' := res + Span(DataOf(b) / PAGE, Pages(sz));
      if !TailMissing(res, b, sz) {
        forall q: nat | b.start / PAGE <= q && q * PAGE < EndOf(b) ensures q in res' {
          if q < DataOf(b) / PAGE { assert q * PAGE < DataOf(b); }
        }
      } else {
        var q: nat :| DataOf(b) / PAGE + Pages(sz) <= q && q * PAGE < EndOf(b) && q !in res;
        assert q !in res' && b.start / PAGE <= q;
      }
    }
  }

  /** mem_alloc meets a missing tail page: the chosen block is empty, is used whole, and is not an exact fit. */
  ghost predicate AllocMissesPage(h: Heap, sz: nat)
    requires |h.t.fbl| == CLASSES
  {
    && 0 < sz < 0x8000_0000
    && var r := Search(h.t, sz);
       var i := IdxOf(h.t.blocks, r.1);
       && r.0 == NULL && r.1 != NULL && i < |h.t.blocks|
       && h.t.blocks[i].status.FreeEmpty? && h.t.blocks[i].size <= sz + HDR
       && TailMissing(h.res, h.t.blocks[i], sz)
  }

  /** An exact fit is mapped whole. */
  lemma ExactResident(h: Heap, i: nat, h1: Heap)
    requires Inv(h, false) && AllResident(h) && i < |h.t.blocks| && !h.t.blocks[i].status.Used?
    requires var b := h.t.blocks[i];
             h1 == (if b.status.FreeEmpty? then MapPages(h, RoundUp(DataOf(b)), Pages(b.size)) else h)
    ensures AllResident(TakeBlk(h1, i, h.t.blocks[i].size, h.t.blocks[i].fbl))
  {
    var b, bs := h.t.blocks[i], h.t.blocks;
    var h' := TakeBlk(h1, i, b.size, b.fbl);
    TakeInv(h1, i, false);
    assert b in bs && EndOf(b) == DataOf(b) + b.size;
    if b.status.FreeEmpty? { RoundedMaps(h.res, b, b.size); }
    forall c | c in h'.t.blocks ensures BlkResident(h'.res, c) {
      var j :| 0 <= j < |h'.t.blocks| && h'.t.blocks[j] == c;
      if j != i {
        assert bs[j] in bs;
        ResidentMore(h.res, h'.res, c);
      }
    }
  }

  lemma GrowResident(h: Heap, n: nat, ok: bool)
    requires Inv(h, false) && AllResident(h) && Grow(h, n, ok).Some?
    ensures AllResident(Grow(h, n, ok).value)
  {
    var h', g := Grow(h, n, ok).value, GrownBlk(h, n);
    GrowInv(h, n, ok, false);
    assert h'.res == h.res + Span(HeapEnd(h) / PAGE, Pages(n)) && HeapEnd(h) % PAGE == 0;
    forall c | c in h'.t.blocks ensures BlkResident(h'.res, c) {
      if c in h.t.blocks { ResidentMore(h.res, h'.res, c); } else { assert c == g; }
    }
  }

  lemma SplitResident(h: Heap, i: nat, sz: nat, ok: bool)
    requires Inv(h, false) && AllResident(h) && i < |h.t.blocks| && !h.t.blocks[i].status.Used?
    requires 0 < sz && Split(h, i, sz, ok).Some?
    ensures var b := h.t.blocks[i];
            AllResident(Split(h, i, sz, ok).value)
            <==> !(b.status.FreeEmpty? && b.size <= sz + HDR && TailMissing(h.res, b, sz))
  {
    if h.t.blocks[i].size > sz + HDR {
      CutResident(h, i, sz, ok);
    } else {
      WholeResident(h, i, sz);
    }
  }

  /** The block found is resident exactly when no page of its tail was missing. */
  lemma FindResident(h: Heap, sz: nat, ok: bool)
    requires Inv(h, false) && AllResident(h) && FindFreeWithin(h, sz, ok).Taken?
    ensures AllResident(FindFreeWithin(h, sz, ok).h) <==> !AllocMissesPage(h, sz)
  {
    FindInv(h, sz, ok, false);
    assert 0 < sz < 0x8000_0000;
    ChosenFree(h, sz, false);
    var i := FindFreeWithin(h, sz, ok).i;
    if Search(h.t, sz).0 == NULL {
      SplitResident(h, i, sz, ok);
    } else {
      ExactSize(h, sz);
      ExactResident(h, i, if h.t.blocks[i].status.FreeEmpty?
                          then MapPages(h, RoundUp(DataOf(h.t.blocks[i])), Pages(h.t.blocks[i].size)) else h);
    }
  }

  lemma GrownResident(h: Heap, sz: nat, ok: bool)
    requires Inv(h, false) && AllResident(h) && 0 < sz && Grow(h, sz + HDR, ok).Some?
    ensures var g := Grow(h, sz + HDR, ok).value;
            && |g.t.blocks| == |h.t.blocks| + 1
            && Split(g, |h.t.blocks|, sz, ok).Some? && AllResident(Split(g, |h.t.blocks|, sz, ok).value)
  {
    GrowInv(h, sz + HDR, ok, false);
    GrowResident(h, sz + HDR, ok);
    SplitResident(Grow(h, sz + HDR, ok).value, |h.t.blocks|, sz, ok);
  }

  /** A successful mem_alloc leaves every needed page resident exactly when it meets no missing tail page. */
  lemma AllocResident(h: Heap, sz: nat, ok: bool)
    requires Inv(h, false) && AllResident(h) && MemAlloc(h, sz, ok).Got?
    ensures AllResident(MemAlloc(h, sz, ok).h) <==> !AllocMissesPage(h, sz)
  {
    FindInv(h, sz, ok, false);
    match FindFreeWithin(h, sz, ok) {
      case Taken(h', i) => FindResident(h, sz, ok);
      case NoFit => GrownResident(h, sz, ok);
      case _ =>
    }
  }

  lemma ExactSize(h: Heap, sz: nat)
    requires Inv(h, false) && 0 < sz < 0x8000_0000 && Search(h.t, sz).0 != NULL
    ensures SizeOf(h.t.blocks, Search(h.t, sz).0) == sz
  {
    InvClassed(h, false);
    LaidBounds(h.t.blocks, h.base, HeapEnd(h), false);
    SearchIsBestFit(h.t, sz);
  }
}
