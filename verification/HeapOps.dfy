/**
 mem_alloc and mem_free keep the invariant; when mem_alloc corrupts the table, and when it
 grows the heap.
 */
module HeapOps {
  import opened BlockLists
  import opened BlockTables
  import opened BlockSteps
  import opened BestFit
  import opened HeapSpec
  import opened HeapInv

  // ---------------------------------------------------------------- mem_alloc

  lemma ChosenFree(h: Heap, sz: nat, exact: bool)
    requires Inv(h, exact) && 0 < sz < 0x8000_0000
    ensures var p := Chosen(Search(h.t, sz));
            var i := IdxOf(h.t.blocks, p);
            && (i < |h.t.blocks| <==> p != NULL)
            && (p != NULL ==> !h.t.blocks[i].status.Used? && h.t.blocks[i].size >= sz && h.t.blocks[i].ptr == p)
  {
    InvClassed(h, exact);
    LaidBounds(h.t.blocks, h.base, HeapEnd(h), exact);
    SearchIsBestFit(h.t, sz);
    var p := Chosen(Search(h.t, sz));
    var i := IdxOf(h.t.blocks, p);
    if i < |h.t.blocks| { assert h.t.blocks[i] in h.t.blocks; }
  }

  /** A block found has at least sz bytes, begins where the free block began, and is used now. */
  lemma FindInv(h: Heap, sz: nat, ok: bool, exact: bool)
    requires Inv(h, exact)
    ensures match FindFreeWithin(h, sz, ok)
            case Taken(h', i) =>
              && Inv(h', exact) && HeapEnd(h') == HeapEnd(h)
              && i == IdxOf(h.t.blocks, Chosen(Search(h.t, sz))) && i < |h.t.blocks| && i < |h'.t.blocks|
              && !h.t.blocks[i].status.Used? && h.t.blocks[i].size >= sz && 0 < sz
              && h'.t.blocks == SplitBlocks(h.t.blocks, i, sz)
              && h'.t.blocks[i].start == h.t.blocks[i].start && h'.t.blocks[i].status.Used?
            case Twice(i) => i < |h.t.blocks| && !h.t.blocks[i].status.Used? && DoublySelects(h.t, sz)
            case BadSize => sz == 0 || sz >= 0x8000_0000
            case NoFit => 0 < sz < 0x8000_0000 && Chosen(Search(h.t, sz)) == NULL && !DoublySelects(h.t, sz)
            case NoPages => !ok && !DoublySelects(h.t, sz)
  {
    if ClassOf(sz) == -1 {
      if 0 < sz < 0x8000_0000 { ClassOfValid(sz); }
    } else {
      var r := Search(h.t, sz);
      var i := IdxOf(h.t.blocks, Chosen(r));
      ChosenFree(h, sz, exact);
      InvClassed(h, exact);
      LaidBounds(h.t.blocks, h.base, HeapEnd(h), exact);
      SearchSelectsBoth(h.t, sz);
      SearchIsBestFit(h.t, sz);
      if i < |h.t.blocks| {
        if r.0 == NULL {
          if Split(h, i, sz, ok).Some? { SplitInv(h, i, sz, ok, exact); }
        } else if r.1 == NULL {
          TakeInv(h, i, exact);
        }
      }
    }
  }

  /** adr is the payload of a used block of at least sz bytes. */
  ghost predicate Serves(h: Heap, adr: nat, sz: nat) {
    exists b :: b in h.t.blocks && b.status.Used? && DataOf(b) == adr && b.size >= sz
  }

  lemma GrownServes(h: Heap, sz: nat, ok: bool, exact: bool)
    requires Inv(h, exact) && 0 < sz && Grow(h, sz + HDR, ok).Some?
    ensures var g := Grow(h, sz + HDR, ok).value;
            var r := Split(g, |h.t.blocks|, sz, ok);
            && |g.t.blocks| == |h.t.blocks| + 1 && r.Some? && Inv(r.value, exact)
            && Serves(r.value, HeapEnd(h) + HDR, sz) && r.value.usable > h.usable
            && r.value.t.blocks == SplitBlocks(h.t.blocks + [GrownBlk(h, sz + HDR)], |h.t.blocks|, sz)
  {
    GrowInv(h, sz + HDR, ok, exact);
    var g := Grow(h, sz + HDR, ok).value;
    assert g.t.blocks[|h.t.blocks|] == GrownBlk(h, sz + HDR);
    SplitInv(g, |h.t.blocks|, sz, ok, exact);
    var h' := Split(g, |h.t.blocks|, sz, ok).value;
    assert h'.t.blocks[|h.t.blocks|] in h'.t.blocks;
  }

  /**
   mem_alloc either hands out a used block of at least sz bytes and keeps the invariant, or
   fails and changes nothing, or leaves the block it hands out on its free list, which
   breaks the invariant for good.
   */
  lemma AllocInv(h: Heap, sz: nat, ok: bool, exact: bool)
    requires Inv(h, exact)
    ensures match MemAlloc(h, sz, ok)
            case Got(h', adr) => Inv(h', exact) && Serves(h', adr, sz)
            case Refused(h') => h' == h
            case Corrupted(h', _) => !Inv(h', true) && !Inv(h', false)
  {
    FindInv(h, sz, ok, exact);
    match FindFreeWithin(h, sz, ok) {
      case Taken(h', i) =>
        assert h'.t.blocks[i] in h'.t.blocks;
      case Twice(i) =>
        UsedOnFreeList(h.t, i);
        var h' := MemAlloc(h, sz, ok).h;
        assert !Listed(h'.t, {});
      case NoFit =>
        if Grow(h, sz + HDR, ok).Some? { GrownServes(h, sz, ok, exact); }
      case _ =>
    }
  }

  /** The table is corrupted exactly when a larger block precedes the exact fit on its list. */
  lemma AllocCorruptsIff(h: Heap, sz: nat, ok: bool, exact: bool)
    requires Inv(h, exact)
    ensures MemAlloc(h, sz, ok).Corrupted? <==> DoublySelects(h.t, sz)
  {
    FindInv(h, sz, ok, exact);
    if 0 < sz < 0x8000_0000 {
      InvClassed(h, exact);
      SearchSelectsBoth(h.t, sz);
    } else {
      ClassOfRange(sz, 0);
    }
    match FindFreeWithin(h, sz, ok) {
      case NoFit =>
        if Grow(h, sz + HDR, ok).Some? { GrownServes(h, sz, ok, exact); }
      case _ =>
    }
  }

  /** A successful mem_alloc takes a smallest sufficient free block, and grows the heap iff there is none. */
  lemma AllocGrowsIff(h: Heap, sz: nat, ok: bool, exact: bool)
    requires Inv(h, exact) && MemAlloc(h, sz, ok).Got?
    ensures var h' := MemAlloc(h, sz, ok).h;
            var none := forall b :: b in h.t.blocks && !b.status.Used? ==> b.size < sz;
            && (HeapEnd(h') > HeapEnd(h) <==> none) && (HeapEnd(h') == HeapEnd(h) <==> !none)
            && (!none ==> exists p: Ptr :: IsBestFit(h.t.blocks, p, sz) && MemAlloc(h, sz, ok).adr == p + HDR)
  {
    InvClassed(h, exact);
    FindInv(h, sz, ok, exact);
    match FindFreeWithin(h, sz, ok) {
      case Taken(h', i) =>
        LaidBounds(h.t.blocks, h.base, HeapEnd(h), exact);
        SearchIsBestFit(h.t, sz);
        assert h.t.blocks[i] in h.t.blocks;
        assert MemAlloc(h, sz, ok).adr == h.t.blocks[i].ptr + HDR;
      case NoFit =>
        SearchIsBestFit(h.t, sz);
        GrownServes(h, sz, ok, exact);
      case _ =>
    }
  }

  // ---------------------------------------------------------------- mem_free

  lemma ReleaseInv(h: Heap, i: nat, exact: bool)
    requires Inv(h, exact) && i < |h.t.blocks| && h.t.blocks[i].status.Used?
    ensures Inv(h.(t := Release(h.t, i)), exact)
    ensures Release(h.t, i).blocks == h.t.blocks[i := h.t.blocks[i].(status := Free)]
  {
    ReleaseListed(h.t, i);
    LaidBounds(h.t.blocks, h.base, HeapEnd(h), exact);
    assert h.t.blocks[i] in h.t.blocks;
    LaidSet(h.t.blocks, i, h.t.blocks[i].(status := Free), h.base, HeapEnd(h), exact);
  }

  lemma FreeInv(h: Heap, adr: nat, exact: bool)
    requires Inv(h, exact)
    ensures Inv(MemFree(h, adr), exact)
  {
    var i := FindUsed(h.t.blocks, adr);
    if adr != 0 && i < |h.t.blocks| {
      ReleaseInv(h, i, exact);
      var h1 := h.(t := Release(h.t, i));
      if i + 1 == |h.t.blocks| { ShrinkInv(h1, exact); } else { UnifyInv(h1, i, exact); }
    }
  }
}
