/**
 What every call of the heap allocator does to the set of live payloads, to the size of the heap
 and to the answer, told without the functions that compute it.
 */
module HeapCalls {
  import opened BlockLists
  import opened BlockTables
  import opened BlockSteps
  import opened BestFit
  import opened HeapSpec
  import opened HeapInv
  import opened HeapOps
  import opened HeapKeep
  import opened HeapRealloc
  import opened HeapRuns

  // ---------------------------------------------------------------- the live payloads

  /** Where the used blocks begin. */
  ghost function Starts(bs: seq<Blk>): set<nat> {
    set b | b in bs && b.status.Used? :: b.start
  }

  /** No used block has its payload at adr. */
  ghost predicate NotLive(bs: seq<Blk>, adr: nat) {
    forall b :: b in bs && b.status.Used? ==> DataOf(b) != adr
  }

  lemma StartsConcat(a: seq<Blk>, c: seq<Blk>)
    ensures Starts(a + c) == Starts(a) + Starts(c)
  {
    assert forall b :: b in a + c <==> b in a || b in c;
  }

  lemma StartsOne(b: Blk)
    ensures Starts([b]) == if b.status.Used? then {b.start} else {}
  {
    assert b in [b];
  }

  lemma StartsFree(bs: seq<Blk>)
    requires forall b :: b in bs ==> !b.status.Used?
    ensures Starts(bs) == {}
  {
  }

  /** Free blocks in the place of free blocks. */
  lemma StartsReplaced(bs: seq<Blk>, lo: nat, hi: nat, mid: seq<Blk>)
    requires lo <= hi <= |bs| && Starts(mid) == Starts(bs[lo..hi])
    ensures Starts(bs[..lo] + mid + bs[hi..]) == Starts(bs)
  {
    StartsConcat(bs[..lo] + mid, bs[hi..]);
    StartsConcat(bs[..lo], mid);
    assert bs == bs[..lo] + bs[lo..hi] + bs[hi..];
    StartsConcat(bs[..lo] + bs[lo..hi], bs[hi..]);
    StartsConcat(bs[..lo], bs[lo..hi]);
  }

  lemma StartsSet(bs: seq<Blk>, i: nat, b: Blk)
    requires i < |bs| && b.start == bs[i].start && (b.status.Used? <==> bs[i].status.Used?)
    ensures Starts(bs[i := b]) == Starts(bs)
  {
    StartsOne(b);
    StartsOne(bs[i]);
    assert bs[i..i + 1] == [bs[i]] && bs[i := b] == bs[..i] + [b] + bs[i + 1..];
    StartsReplaced(bs, i, i + 1, [b]);
  }

  /** The used blocks apart from block i. */
  lemma StartsAround(bs: seq<Blk>, i: nat)
    requires i < |bs| && Ascending(bs)
    ensures bs[i].start !in Starts(bs[..i]) + Starts(bs[i + 1..])
    ensures Starts(bs) == Starts(bs[..i]) + Starts(bs[i + 1..]) + (if bs[i].status.Used? then {bs[i].start} else {})
  {
    assert bs == bs[..i] + [bs[i]] + bs[i + 1..];
    StartsConcat(bs[..i] + [bs[i]], bs[i + 1..]);
    StartsConcat(bs[..i], [bs[i]]);
    StartsOne(bs[i]);
  }

  // ---------------------------------------------------------------- the steps

  lemma ReleaseStarts(h: Heap, i: nat)
    requires Inv(h, false) && i < |h.t.blocks| && h.t.blocks[i].status.Used?
    ensures Starts(Release(h.t, i).blocks) == Starts(h.t.blocks) - {h.t.blocks[i].start}
  {
    var bs := h.t.blocks;
    ReleaseInv(h, i, false);
    InvClassed(h, false);
    var b := bs[i].(status := Free);
    assert bs[i := b] == bs[..i] + [b] + bs[i + 1..];
    StartsConcat(bs[..i] + [b], bs[i + 1..]);
    StartsConcat(bs[..i], [b]);
    StartsOne(b);
    StartsAround(bs, i);
  }

  lemma MergeStarts(h: Heap, i: nat)
    requires Inv(h, false) && i < |h.t.blocks| && !h.t.blocks[i].status.Used?
    ensures Starts(Merge(h.t, i).blocks) == Starts(h.t.blocks)
  {
    var bs, lo, hi, m := h.t.blocks, MergeLo(h.t.blocks, i), MergeHi(h.t.blocks, i), MergedBlk(h.t.blocks, i);
    MergeInv(h, i, false);
    forall b | b in bs[lo..hi] ensures !b.status.Used? {
      var k :| 0 <= k < hi - lo && bs[lo..hi][k] == b;
      assert bs[lo + k] == b;
    }
    StartsFree(bs[lo..hi]);
    StartsOne(m);
    StartsReplaced(bs, lo, hi, [m]);
  }

  lemma ShrinkStarts(h: Heap)
    requires Inv(h, false) && (h.t.blocks != [] ==> !h.t.blocks[|h.t.blocks| - 1].status.Used?)
    ensures Starts(Shrink(h).t.blocks) == Starts(h.t.blocks)
  {
    var bs, n := h.t.blocks, |h.t.blocks|;
    if n > 0 && bs[n - 1].size + HDR >= PAGE {
      ShrinkLaid(h, false);
      ShrunkStarts(bs);
    }
  }

  lemma ShrunkStarts(bs: seq<Blk>)
    requires bs != [] && !bs[|bs| - 1].status.Used?
    ensures Starts(ShrunkBlocks(bs)) == Starts(bs)
  {
    var n, rest := |bs| - 1, LastRest(bs);
    assert bs == bs[..n] + [bs[n]];
    StartsConcat(bs[..n], [bs[n]]);
    StartsOne(bs[n]);
    if rest > 0 {
      var b := bs[n - 1].(size := bs[n - 1].size + rest, fbl := ClassOf(bs[n - 1].size + rest));
      assert ShrunkBlocks(bs) == bs[..n][n - 1 := b];
      StartsSet(bs[..n], n - 1, b);
    }
  }

  lemma UnifyStarts(h: Heap, i: nat)
    requires Inv(h, false) && i < |h.t.blocks| && !h.t.blocks[i].status.Used?
    ensures Starts(Unify(h, i).t.blocks) == Starts(h.t.blocks)
  {
    if IsFreeAt(h.t.blocks, i - 1) || IsFreeAt(h.t.blocks, i + 1) {
      var h1, lo := h.(t := Merge(h.t, i)), MergeLo(h.t.blocks, i);
      MergeInv(h, i, false);
      MergeStarts(h, i);
      assert h1.t.blocks[lo] == MergedBlk(h.t.blocks, i);
      if lo + 1 == |h1.t.blocks| { ShrinkStarts(h1); } else { CleanStarts(h1, lo); }
    }
  }

  lemma CleanStarts(h: Heap, i: nat)
    requires Inv(h, false) && i < |h.t.blocks| && !h.t.blocks[i].status.Used?
    ensures Starts(Clean(h, i).t.blocks) == Starts(h.t.blocks)
  {
    CleanInv(h, i, false);
    StartsSet(h.t.blocks, i, h.t.blocks[i].(status := FreeEmpty));
  }

  lemma SplitStarts(bs: seq<Blk>, i: nat, sz: nat)
    requires i < |bs| && !bs[i].status.Used? && Ascending(bs)
    ensures bs[i].start !in Starts(bs)
    ensures Starts(SplitBlocks(bs, i, sz)) == Starts(bs) + {bs[i].start}
  {
    var cs := SplitBlocks(bs, i, sz);
    StartsAround(bs, i);
    var mid := if bs[i].size <= sz + HDR then [bs[i].(status := Used)] else [cs[i], cs[i + 1]];
    assert cs == bs[..i] + mid + bs[i + 1..];
    StartsConcat(bs[..i] + mid, bs[i + 1..]);
    StartsConcat(bs[..i], mid);
    if bs[i].size <= sz + HDR {
      StartsOne(mid[0]);
    } else {
      assert mid == [cs[i]] + [cs[i + 1]];
      StartsConcat([cs[i]], [cs[i + 1]]);
      StartsOne(cs[i]);
      StartsOne(cs[i + 1]);
    }
  }

  // ---------------------------------------------------------------- mem_free

  /** mem_free of a live payload: exactly this payload is not live any more. */
  lemma FreeStarts(h: Heap, adr: nat, exact: bool)
    requires Inv(h, exact) && adr != 0 && FindUsed(h.t.blocks, adr) < |h.t.blocks|
    ensures adr >= HDR && adr - HDR in Starts(h.t.blocks)
    ensures Starts(MemFree(h, adr).t.blocks) == Starts(h.t.blocks) - {adr - HDR}
    ensures NotLive(MemFree(h, adr).t.blocks, adr)
  {
    var i := FindUsed(h.t.blocks, adr);
    LaidLoose(h.t.blocks, h.base, HeapEnd(h), exact);
    var h1 := h.(t := Release(h.t, i));
    assert h.t.blocks[i] in h.t.blocks;
    ReleaseInv(h, i, false);
    ReleaseStarts(h, i);
    if i + 1 == |h.t.blocks| { ShrinkStarts(h1); } else { UnifyStarts(h1, i); }
    NotStarting(MemFree(h, adr).t.blocks, adr);
  }

  lemma NotStarting(bs: seq<Blk>, adr: nat)
    requires adr >= HDR && adr - HDR !in Starts(bs)
    ensures NotLive(bs, adr)
  {
    forall b | b in bs && b.status.Used? ensures DataOf(b) != adr { assert b.start in Starts(bs); }
  }

  /** An address is live exactly when a used block has its payload there. */
  lemma LiveIff(bs: seq<Blk>, adr: nat)
    ensures FindUsed(bs, adr) < |bs| <==> !NotLive(bs, adr)
    ensures FindUsed(bs, adr) < |bs| <==> adr >= HDR && adr - HDR in Starts(bs)
  {
    var i := FindUsed(bs, adr);
    if i < |bs| { assert bs[i] in bs; }
  }

  /** Byte a lies in a free block. */
  ghost predicate InFree(bs: seq<Blk>, a: nat) {
    exists b :: b in bs && !b.status.Used? && b.start <= a < EndOf(b)
  }

  /** Byte a lies in the less than a page that a used block has got behind its old end. */
  ghost predicate Handed(bs: seq<Blk>, cs: seq<Blk>, a: nat) {
    exists b, c :: b in bs && b.status.Used? && c in cs && c.status.Used? && HandedTo(b, c, a)
  }

  predicate HandedTo(b: Blk, c: Blk, a: nat) {
    c.start == b.start && EndOf(b) <= a < EndOf(c) < EndOf(b) + PAGE
  }

  /** Byte a is free again: in a free block, above the heap, or handed to the used block in front. */
  ghost predicate Reclaimed(bs: seq<Blk>, h': Heap, a: nat) {
    InFree(h'.t.blocks, a) || a >= HeapEnd(h') || Handed(bs, h'.t.blocks, a)
  }

  /** Whole pages taken from the end leave the page boundary behind start. */
  lemma TrimEnd(start: nat, end: nat, pages: nat)
    requires start <= end && end % PAGE == 0 && pages == (end - start) / PAGE
    ensures end - pages * PAGE == RoundUp(start)
  {
  }

  /** The bytes of a free block that ends an exact heap, and where the heap ends when it has shrunk. */
  lemma ShrinkReclaims(h: Heap)
    requires Inv(h, true) && h.t.blocks != [] && !h.t.blocks[|h.t.blocks| - 1].status.Used?
    ensures HeapEnd(Shrink(h)) == RoundUp(h.t.blocks[|h.t.blocks| - 1].start)
    ensures forall a :: h.t.blocks[|h.t.blocks| - 1].start <= a ==> Reclaimed(h.t.blocks, Shrink(h), a)
  {
    var bs, n, h' := h.t.blocks, |h.t.blocks|, Shrink(h);
    ShrinkEnd(h);
    if bs[n - 1].size + HDR >= PAGE {
      LastFollows(h);
      forall a | bs[n - 1].start <= a ensures Reclaimed(bs, h', a) {
        if a < HeapEnd(h') { HandsOver(bs, h', a); }
      }
    } else {
      LastAt(bs, h.base, HeapEnd(h), true);
      StaysFree(bs, h');
    }
  }

  /** Where an exact heap ends when it has shrunk. */
  lemma ShrinkEnd(h: Heap)
    requires Inv(h, true) && h.t.blocks != []
    ensures HeapEnd(Shrink(h)) == RoundUp(h.t.blocks[|h.t.blocks| - 1].start)
    ensures h.t.blocks[|h.t.blocks| - 1].size + HDR >= PAGE ==> Shrink(h).t.blocks == ShrunkBlocks(h.t.blocks)
  {
    var b := h.t.blocks[|h.t.blocks| - 1];
    LastAt(h.t.blocks, h.base, HeapEnd(h), true);
    TrimEnd(b.start, HeapEnd(h), (b.size + HDR) / PAGE);
    if b.size + HDR >= PAGE { ShrinkLaid(h, true); }
  }

  lemma StaysFree(bs: seq<Blk>, h': Heap)
    requires bs != [] && h'.t.blocks == bs && !bs[|bs| - 1].status.Used? && EndOf(bs[|bs| - 1]) == HeapEnd(h')
    ensures forall a :: bs[|bs| - 1].start <= a ==> Reclaimed(bs, h', a)
  {
    assert bs[|bs| - 1] in bs;
  }

  /** Where the last block of an exact heap begins. */
  lemma LastFollows(h: Heap)
    requires Inv(h, true) && h.t.blocks != []
    ensures var (bs, n) := (h.t.blocks, |h.t.blocks|);
            if n > 1 then EndOf(bs[n - 2]) == bs[n - 1].start else bs[n - 1].start % PAGE == 0
  {
    if |h.t.blocks| > 1 { ExactNext(h, |h.t.blocks| - 2); }
  }

  lemma HandsOver(bs: seq<Blk>, h': Heap, a: nat)
    requires bs != [] && h'.t.blocks == ShrunkBlocks(bs) && bs[|bs| - 1].start <= a < HeapEnd(h') == RoundUp(bs[|bs| - 1].start)
    requires if |bs| > 1 then EndOf(bs[|bs| - 2]) == bs[|bs| - 1].start else bs[|bs| - 1].start % PAGE == 0
    ensures Reclaimed(bs, h', a)
  {
    var n, cs := |bs|, h'.t.blocks;
    if n > 1 {
      var p, c := bs[n - 2], cs[n - 2];
      assert p in bs && c in cs && c.start == p.start && c.status == p.status && EndOf(c) == RoundUp(bs[n - 1].start);
      assert p.status.Used? ==> HandedTo(p, c, a);
    }
  }

  /**
   mem_free in an exactly tiled heap: every byte of the block is free again, and the heap ends at
   the page boundary behind the free stretch that now ends it, if there is one.
   */
  lemma FreeReclaims(h: Heap, adr: nat)
    requires Inv(h, true) && adr != 0 && FindUsed(h.t.blocks, adr) < |h.t.blocks|
    ensures var (i, bs, h') := (FindUsed(h.t.blocks, adr), h.t.blocks, MemFree(h, adr));
            && (forall a :: bs[i].start <= a < EndOf(bs[i]) ==> Reclaimed(bs, h', a))
            && HeapEnd(h') == (if i + 1 == |bs| then RoundUp(bs[i].start)
                               else if i + 2 == |bs| && !bs[i + 1].status.Used?
                               then RoundUp(bs[MergeLo(bs, i)].start)
                               else HeapEnd(h))
  {
    var i, bs := FindUsed(h.t.blocks, adr), h.t.blocks;
    var h1 := h.(t := Release(h.t, i));
    ReleaseInv(h, i, true);
    if i + 1 == |bs| { ShrinkReclaims(h1); } else { UnifyReclaims(h1, i); }
    forall a | bs[i].start <= a < EndOf(bs[i]) ensures Reclaimed(bs, MemFree(h, adr), a) {
      assert Reclaimed(h1.t.blocks, MemFree(h, adr), a);
      FromReleased(bs, i, MemFree(h, adr), a);
    }
  }

  /** Used blocks after the release were used before it. */
  lemma FromReleased(bs: seq<Blk>, i: nat, h': Heap, a: nat)
    requires i < |bs| && Reclaimed(bs[i := bs[i].(status := Free)], h', a)
    ensures Reclaimed(bs, h', a)
  {
    var cs := bs[i := bs[i].(status := Free)];
    if Handed(cs, h'.t.blocks, a) {
      var b, c :| b in cs && b.status.Used? && c in h'.t.blocks && c.status.Used? && HandedTo(b, c, a);
      var j :| 0 <= j < |cs| && cs[j] == b;
      assert bs[j] == b && b in bs;
    }
  }

  lemma UnifyReclaims(h: Heap, i: nat)
    requires Inv(h, true) && i + 1 < |h.t.blocks| && !h.t.blocks[i].status.Used?
    ensures var (bs, h') := (h.t.blocks, Unify(h, i));
            && (forall a :: bs[i].start <= a < EndOf(bs[i]) ==> Reclaimed(bs, h', a))
            && HeapEnd(h') == (if i + 2 == |bs| && !bs[i + 1].status.Used? then RoundUp(bs[MergeLo(bs, i)].start) else HeapEnd(h))
  {
    var bs, lo, m := h.t.blocks, MergeLo(h.t.blocks, i), MergedBlk(h.t.blocks, i);
    assert bs[i] in bs;
    if IsFreeAt(bs, i - 1) || IsFreeAt(bs, i + 1) {
      var h1 := h.(t := Merge(h.t, i));
      MergeInv(h, i, true);
      MergedSpace(h, i);
      assert h1.t.blocks[lo] == m && m in h1.t.blocks;
      if lo + 1 == |h1.t.blocks| {
        ShrinkReclaims(h1);
        forall a | bs[i].start <= a < EndOf(bs[i]) ensures Reclaimed(bs, Unify(h, i), a) {
          assert Reclaimed(h1.t.blocks, Shrink(h1), a);
          FromMerged(h, i, Shrink(h1), a);
        }
      } else {
        CleanInv(h1, lo, true);
        var c := m.(status := FreeEmpty);
        assert Clean(h1, lo).t.blocks[lo] == c && c in Clean(h1, lo).t.blocks;
      }
    }
  }

  /** In an exact heap the merged block covers all its parts. */
  lemma MergedSpace(h: Heap, i: nat)
    requires Inv(h, true) && i < |h.t.blocks| && !h.t.blocks[i].status.Used?
    ensures var m := MergedBlk(h.t.blocks, i); m.start <= h.t.blocks[i].start && EndOf(h.t.blocks[i]) <= EndOf(m)
    ensures MergedBlk(h.t.blocks, i).start == h.t.blocks[MergeLo(h.t.blocks, i)].start
  {
    if IsFreeAt(h.t.blocks, i - 1) { ExactNext(h, i - 1); }
    if IsFreeAt(h.t.blocks, i + 1) { ExactNext(h, i); }
  }

  lemma FromMerged(h: Heap, i: nat, h': Heap, a: nat)
    requires Inv(h, true) && i < |h.t.blocks| && !h.t.blocks[i].status.Used? && Reclaimed(Merge(h.t, i).blocks, h', a)
    ensures Reclaimed(h.t.blocks, h', a)
  {
    var bs, cs := h.t.blocks, Merge(h.t, i).blocks;
    MergeInv(h, i, true);
    if Handed(cs, h'.t.blocks, a) {
      var b, c :| b in cs && b.status.Used? && c in h'.t.blocks && c.status.Used? && HandedTo(b, c, a);
      assert b in bs;
    }
  }

  // ---------------------------------------------------------------- mem_alloc

  /** The used block that begins at adr has at least lo and at most hi bytes. */
  ghost predicate Sized(bs: seq<Blk>, adr: nat, lo: nat, hi: nat) {
    exists b :: b in bs && b.status.Used? && DataOf(b) == adr && lo <= b.size <= hi
  }

  /** What a successful mem_alloc has done. */
  ghost predicate AllocGood(h: Heap, h': Heap, adr: nat, sz: nat) {
    && adr >= HDR && MadeLive(h.t.blocks, h'.t.blocks, adr - HDR, sz)
    && (h'.usable == h.usable || GrownBy(h, h', sz + HDR))
  }

  /**
   A successful mem_alloc makes one payload live, which was not, of at least sz bytes and at most
   a header more.  When it grows the heap it takes the fewest pages that hold a header and sz bytes.
   */
  lemma AllocStarts(h: Heap, sz: nat, ok: bool, exact: bool)
    requires Inv(h, exact) && MemAlloc(h, sz, ok).Got?
    ensures AllocGood(h, MemAlloc(h, sz, ok).h, MemAlloc(h, sz, ok).adr, sz)
  {
    LaidLoose(h.t.blocks, h.base, HeapEnd(h), exact);
    if FindFreeWithin(h, sz, ok).Taken? { TakenGood(h, sz, ok); } else { NewGood(h, sz, ok); }
  }

  lemma TakenGood(h: Heap, sz: nat, ok: bool)
    requires Inv(h, false) && FindFreeWithin(h, sz, ok).Taken?
    ensures MemAlloc(h, sz, ok).Got? && AllocGood(h, MemAlloc(h, sz, ok).h, MemAlloc(h, sz, ok).adr, sz)
  {
    var h1, i := FindFreeWithin(h, sz, ok).h, FindFreeWithin(h, sz, ok).i;
    FindInv(h, sz, ok, false);
    FindUsable(h, sz, ok);
    FreeMadeLive(h, i, sz);
    AllocTakes(h, sz, ok, h1, i);
  }

  lemma NewGood(h: Heap, sz: nat, ok: bool)
    requires Inv(h, false) && MemAlloc(h, sz, ok).Got? && !FindFreeWithin(h, sz, ok).Taken?
    ensures AllocGood(h, MemAlloc(h, sz, ok).h, MemAlloc(h, sz, ok).adr, sz)
  {
    FindInv(h, sz, ok, false);
    GrownStarts(h, sz, ok, false);
  }

  lemma AllocTakes(h: Heap, sz: nat, ok: bool, h1: Heap, i: nat)
    requires |h.t.fbl| == CLASSES && FindFreeWithin(h, sz, ok) == Taken(h1, i) && i < |h1.t.blocks|
    ensures MemAlloc(h, sz, ok) == Got(h1, DataOf(h1.t.blocks[i]))
  {
  }

  lemma FindUsable(h: Heap, sz: nat, ok: bool)
    requires |h.t.fbl| == CLASSES && FindFreeWithin(h, sz, ok).Taken?
    ensures FindFreeWithin(h, sz, ok).h.usable == h.usable
  {
  }

  lemma GrownStarts(h: Heap, sz: nat, ok: bool, exact: bool)
    requires Inv(h, exact) && 0 < sz && Grow(h, sz + HDR, ok).Some?
    ensures var (r, n) := (Split(Grow(h, sz + HDR, ok).value, |h.t.blocks|, sz, ok), |h.t.blocks|);
            r.Some? && MadeLive(h.t.blocks, r.value.t.blocks, HeapEnd(h), sz) && GrownBy(h, r.value, sz + HDR)
  {
    var h1, h' := GrownSplits(h, sz, ok, exact);
    GrownLive(h.t.blocks, GrownBlk(h, sz + HDR), sz);
    GrowPages(h, sz + HDR, ok);
    SplitPages(h1, |h.t.blocks|, sz, ok);
  }

  lemma GrownSplits(h: Heap, sz: nat, ok: bool, exact: bool) returns (h1: Heap, h': Heap)
    requires Inv(h, exact) && 0 < sz && Grow(h, sz + HDR, ok).Some?
    ensures Grow(h, sz + HDR, ok) == Some(h1) && |h1.t.blocks| == |h.t.blocks| + 1
    ensures Split(h1, |h.t.blocks|, sz, ok) == Some(h')
    ensures var g := GrownBlk(h, sz + HDR);
            && h'.t.blocks == SplitBlocks(h.t.blocks + [g], |h.t.blocks|, sz)
            && g.start == HeapEnd(h) && !g.status.Used? && sz <= g.size && Ascending(h.t.blocks + [g])
  {
    GrownServes(h, sz, ok, exact);
    GrowInv(h, sz + HDR, ok, exact);
    h1 := Grow(h, sz + HDR, ok).value;
    InvClassed(h1, exact);
    h' := Split(h1, |h.t.blocks|, sz, ok).value;
  }

  lemma GrownLive(bs: seq<Blk>, g: Blk, sz: nat)
    requires Ascending(bs + [g]) && !g.status.Used? && sz <= g.size
    ensures MadeLive(bs, SplitBlocks(bs + [g], |bs|, sz), g.start, sz)
  {
    StartsConcat(bs, [g]);
    StartsOne(g);
    assert (bs + [g])[|bs|] == g;
    MakesLive(bs + [g], |bs|, sz);
  }

  /** The payload behind the header at x, of sz bytes or less than a header more, has become live. */
  ghost predicate MadeLive(bs: seq<Blk>, cs: seq<Blk>, x: nat, sz: nat) {
    x !in Starts(bs) && Starts(cs) == Starts(bs) + {x} && Sized(cs, x + HDR, sz, sz + HDR)
  }

  /** The heap has grown by the fewest pages that hold n bytes. */
  predicate GrownBy(h: Heap, h': Heap, n: nat) {
    h'.usable > h.usable && (h'.usable - h.usable - 1) * PAGE < n <= (h'.usable - h.usable) * PAGE
  }

  /** A free block of the heap is split. */
  lemma FreeMadeLive(h: Heap, i: nat, sz: nat)
    requires Inv(h, false) && i < |h.t.blocks| && !h.t.blocks[i].status.Used? && sz <= h.t.blocks[i].size
    ensures MadeLive(h.t.blocks, SplitBlocks(h.t.blocks, i, sz), h.t.blocks[i].start, sz)
  {
    InvClassed(h, false);
    MakesLive(h.t.blocks, i, sz);
  }

  lemma MakesLive(bs: seq<Blk>, i: nat, sz: nat)
    requires i < |bs| && !bs[i].status.Used? && Ascending(bs) && sz <= bs[i].size
    ensures MadeLive(bs, SplitBlocks(bs, i, sz), bs[i].start, sz)
  {
    var cs := SplitBlocks(bs, i, sz);
    SplitStarts(bs, i, sz);
    assert i < |cs| && cs[i] in cs;
  }

  lemma GrowPages(h: Heap, n: nat, ok: bool)
    requires Grow(h, n, ok).Some?
    ensures var p := Grow(h, n, ok).value.usable - h.usable; 0 < p && (p - 1) * PAGE < n <= p * PAGE
  {
  }

  lemma SplitPages(h: Heap, i: nat, sz: nat, ok: bool)
    requires i < |h.t.blocks| && Split(h, i, sz, ok).Some?
    ensures Split(h, i, sz, ok).value.usable == h.usable
  {
  }

  /**
   mem_alloc refuses exactly a size that is not valid, a best fit that is empty when no page
   frame is left, and a request for which the heap must grow when no page frame is left or the
   region has too few pages.
   */
  lemma AllocRefusesIff(h: Heap, sz: nat, ok: bool, exact: bool)
    requires Inv(h, exact)
    ensures var none := forall b :: b in h.t.blocks && !b.status.Used? ==> b.size < sz;
            var i := IdxOf(h.t.blocks, Chosen(Search(h.t, sz)));
            MemAlloc(h, sz, ok).Refused? <==>
            || sz == 0 || sz >= 0x8000_0000
            || (!none && !DoublySelects(h.t, sz) && !ok && i < |h.t.blocks| && h.t.blocks[i].status.FreeEmpty?)
            || (none && (!ok || sz + HDR > (REGION - 1 - h.usable) * PAGE))
  {
    FindInv(h, sz, ok, exact);
    if 0 < sz < 0x8000_0000 {
      InvClassed(h, exact);
      ClassOfValid(sz);
      SearchIsBestFit(h.t, sz);
      SearchSelectsBoth(h.t, sz);
      ChosenFree(h, sz, exact);
      NoneIff(h, sz, exact);
      if Chosen(Search(h.t, sz)) == NULL { GrowRefuses(h, sz, ok, exact); } else { FindRefuses(h, sz, ok, exact); }
    }
  }

  lemma NoneIff(h: Heap, sz: nat, exact: bool)
    requires Inv(h, exact) && 0 < sz < 0x8000_0000
    ensures (forall b :: b in h.t.blocks && !b.status.Used? ==> b.size < sz) <==> Chosen(Search(h.t, sz)) == NULL
  {
    InvClassed(h, exact);
    SearchIsBestFit(h.t, sz);
    ChosenFree(h, sz, exact);
    var i := IdxOf(h.t.blocks, Chosen(Search(h.t, sz)));
    if i < |h.t.blocks| { assert h.t.blocks[i] in h.t.blocks; }
  }

  lemma GrowRefuses(h: Heap, sz: nat, ok: bool, exact: bool)
    requires Inv(h, exact) && 0 < sz < 0x8000_0000 && Chosen(Search(h.t, sz)) == NULL
    ensures MemAlloc(h, sz, ok).Refused? <==> !ok || sz + HDR > (REGION - 1 - h.usable) * PAGE
  {
    FindInv(h, sz, ok, exact);
    ClassOfValid(sz);
    ChosenFree(h, sz, exact);
    if Grow(h, sz + HDR, ok).Some? { GrownServes(h, sz, ok, exact); }
    PagesFit(sz + HDR, REGION - 1 - h.usable);
  }

  lemma PagesFit(n: nat, room: nat)
    ensures Pages(n) > room <==> n > room * PAGE
  {
  }

  lemma FindRefuses(h: Heap, sz: nat, ok: bool, exact: bool)
    requires Inv(h, exact) && 0 < sz < 0x8000_0000 && Chosen(Search(h.t, sz)) != NULL
    ensures var i := IdxOf(h.t.blocks, Chosen(Search(h.t, sz)));
            i < |h.t.blocks| && (MemAlloc(h, sz, ok).Refused? <==> !DoublySelects(h.t, sz) && !ok && h.t.blocks[i].status.FreeEmpty?)
  {
    InvClassed(h, exact);
    ClassOfValid(sz);
    ChosenFree(h, sz, exact);
    SearchSelectsBoth(h.t, sz);
    FindInv(h, sz, ok, exact);
  }

  // ---------------------------------------------------------------- other blocks hardly grow

  /** Block c has been a used block before, and is less than a page larger now. */
  ghost predicate FromUsed(bs: seq<Blk>, c: Blk) {
    exists b :: b in bs && b.status.Used? && b.start == c.start && b.size <= c.size < b.size + PAGE
  }

  /** Every used block has been a used block before, at most the last one has grown. */
  ghost predicate HardlyGrown(bs: seq<Blk>, cs: seq<Blk>) {
    forall c :: c in cs && c.status.Used? ==> FromUsed(bs, c)
  }

  lemma SameUsed(bs: seq<Blk>, cs: seq<Blk>)
    requires forall c :: c in cs && c.status.Used? ==> c in bs
    ensures HardlyGrown(bs, cs)
  {
    forall c | c in cs && c.status.Used? ensures FromUsed(bs, c) { assert c in bs && c.size <= c.size; }
  }

  lemma ReleaseHardly(h: Heap, i: nat, cs: seq<Blk>)
    requires Inv(h, false) && i < |h.t.blocks| && h.t.blocks[i].status.Used? && HardlyGrown(Release(h.t, i).blocks, cs)
    ensures HardlyGrown(h.t.blocks, cs)
  {
    var bs := h.t.blocks;
    ReleaseInv(h, i, false);
    forall c | c in cs && c.status.Used? ensures FromUsed(bs, c) {
      var b :| b in Release(h.t, i).blocks && b.status.Used? && b.start == c.start && b.size <= c.size < b.size + PAGE;
      var j :| 0 <= j < |bs| && Release(h.t, i).blocks[j] == b;
      assert bs[j] == b && b in bs;
    }
  }

  lemma ShrinkHardly(h: Heap)
    requires Inv(h, false)
    ensures HardlyGrown(h.t.blocks, Shrink(h).t.blocks)
  {
    var bs, n := h.t.blocks, |h.t.blocks|;
    if n > 0 && bs[n - 1].size + HDR >= PAGE {
      ShrinkLaid(h, false);
      var cs := ShrunkBlocks(bs);
      forall c | c in cs && c.status.Used? ensures FromUsed(bs, c) {
        var j :| 0 <= j < |cs| && cs[j] == c;
        assert bs[j] in bs && bs[j].start == c.start && bs[j].size <= c.size < bs[j].size + PAGE;
      }
    } else {
      SameUsed(bs, bs);
    }
  }

  lemma UnifyHardly(h: Heap, i: nat)
    requires Inv(h, false) && i < |h.t.blocks| && !h.t.blocks[i].status.Used?
    ensures HardlyGrown(h.t.blocks, Unify(h, i).t.blocks)
  {
    var bs := h.t.blocks;
    if IsFreeAt(bs, i - 1) || IsFreeAt(bs, i + 1) {
      var h1, lo := h.(t := Merge(h.t, i)), MergeLo(bs, i);
      MergeInv(h, i, false);
      MergedUsed(h, i);
      if lo + 1 == |h1.t.blocks| {
        ShrinkHardly(h1);
        FromPart(bs, h1.t.blocks, Shrink(h1).t.blocks);
      } else {
        CleanUsed(h1, lo);
        SameUsed(bs, Clean(h1, lo).t.blocks);
      }
    } else {
      SameUsed(bs, bs);
    }
  }

  lemma MergedUsed(h: Heap, i: nat)
    requires Inv(h, false) && i < |h.t.blocks| && !h.t.blocks[i].status.Used?
    ensures forall c :: c in Merge(h.t, i).blocks && c.status.Used? ==> c in h.t.blocks
  {
    MergeInv(h, i, false);
  }

  lemma CleanUsed(h: Heap, i: nat)
    requires Inv(h, false) && i < |h.t.blocks| && !h.t.blocks[i].status.Used?
    ensures forall c :: c in Clean(h, i).t.blocks && c.status.Used? ==> c in h.t.blocks
  {
    CleanInv(h, i, false);
    var cs := Clean(h, i).t.blocks;
    forall c | c in cs && c.status.Used? ensures c in h.t.blocks {
      var j :| 0 <= j < |cs| && cs[j] == c;
      assert h.t.blocks[j] in h.t.blocks;
    }
  }

  lemma FromPart(bs: seq<Blk>, ds: seq<Blk>, cs: seq<Blk>)
    requires (forall d :: d in ds && d.status.Used? ==> d in bs) && HardlyGrown(ds, cs)
    ensures HardlyGrown(bs, cs)
  {
    forall c | c in cs && c.status.Used? ensures FromUsed(bs, c) {
      var d :| d in ds && d.status.Used? && d.start == c.start && d.size <= c.size < d.size + PAGE;
      assert d in bs;
    }
  }

  /** mem_free makes no other block a page larger. */
  lemma FreeHardly(h: Heap, adr: nat, exact: bool)
    requires Inv(h, exact)
    ensures HardlyGrown(h.t.blocks, MemFree(h, adr).t.blocks)
  {
    var i := FindUsed(h.t.blocks, adr);
    LaidLoose(h.t.blocks, h.base, HeapEnd(h), exact);
    if adr != 0 && i < |h.t.blocks| {
      var h1 := h.(t := Release(h.t, i));
      ReleaseInv(h, i, false);
      if i + 1 == |h.t.blocks| { ShrinkHardly(h1); } else { UnifyHardly(h1, i); }
      ReleaseHardly(h, i, MemFree(h, adr).t.blocks);
    } else {
      SameUsed(h.t.blocks, h.t.blocks);
    }
  }

  lemma SizedAfter(h: Heap, cs: seq<Blk>, adr: nat, lo: nat, hi: nat)
    requires Inv(h, false) && HardlyGrown(h.t.blocks, cs) && Sized(h.t.blocks, adr, lo, hi) && adr >= HDR && adr - HDR in Starts(cs)
    ensures Sized(cs, adr, lo, hi + PAGE)
  {
    InvClassed(h, false);
    var bs := h.t.blocks;
    var b :| b in bs && b.status.Used? && DataOf(b) == adr && lo <= b.size <= hi;
    var c :| c in cs && c.status.Used? && c.start == adr - HDR;
    var d :| d in bs && d.status.Used? && d.start == c.start && d.size <= c.size < d.size + PAGE;
    assert d == b;
  }

  // ---------------------------------------------------------------- mem_realloc

  lemma CutStarts(bs: seq<Blk>, i: nat, nsz: nat)
    requires i < |bs| && bs[i].status.Used? && bs[i].size > nsz + HDR
    ensures Starts(CutOff(bs, i, nsz, Used, Free)) == Starts(bs)
  {
    var cs := CutOff(bs, i, nsz, Used, Free);
    assert bs[i..i + 1] == [bs[i]] && cs == bs[..i] + ([cs[i]] + [cs[i + 1]]) + bs[i + 1..];
    StartsConcat([cs[i]], [cs[i + 1]]);
    StartsOne(cs[i]);
    StartsOne(cs[i + 1]);
    StartsOne(bs[i]);
    StartsReplaced(bs, i, i + 1, [cs[i]] + [cs[i + 1]]);
  }

  lemma ShrinkBlkStarts(h: Heap, i: nat, nsz: nat)
    requires Inv(h, false) && i < |h.t.blocks| && h.t.blocks[i].status.Used? && 0 < nsz < h.t.blocks[i].size
    ensures var (r, b) := (ShrinkBlk(h, i, nsz), h.t.blocks[i]);
            r.Moved? ==> Starts(r.h.t.blocks) == Starts(h.t.blocks) && Sized(r.h.t.blocks, DataOf(b), nsz, nsz + HDR + 2 * PAGE)
  {
    var bs, b := h.t.blocks, h.t.blocks[i];
    assert b in bs;
    if b.size - nsz > HDR {
      var h2 := CutBlk(h, i, nsz);
      CutBlkInv(h, i, nsz, false);
      CutStarts(bs, i, nsz);
      CutOffFirst(bs, i, nsz, Used, Free);
      RestStarts(h2, i, nsz);
      CutAway(h, i, nsz, h2, Unify(h2, i + 1));
    }
  }

  lemma CutAway(h: Heap, i: nat, nsz: nat, h2: Heap, h3: Heap)
    requires i < |h.t.blocks| && nsz + HDR < h.t.blocks[i].size && h.t.blocks[i].status.Used?
    requires h2 == CutBlk(h, i, nsz) && i + 1 < |h2.t.blocks| && h3 == Unify(h2, i + 1)
    ensures var r := ShrinkBlk(h, i, nsz); r.Moved? ==> i + 1 < |h3.t.blocks| && r.h == LeaveRest(h3, i + 1)
  {
  }

  /** The used block i has been cut down to nsz bytes; its rest is merged and left. */
  lemma RestStarts(h2: Heap, i: nat, nsz: nat)
    requires Inv(h2, false) && i + 1 < |h2.t.blocks| && h2.t.blocks[i].status.Used? && h2.t.blocks[i].size == nsz
    requires !h2.t.blocks[i + 1].status.Used?
    ensures var h3 := Unify(h2, i + 1);
            i + 1 < |h3.t.blocks| ==>
              var cs := LeaveRest(h3, i + 1).t.blocks;
              Starts(cs) == Starts(h2.t.blocks) && Sized(cs, DataOf(h2.t.blocks[i]), nsz, nsz + HDR + 2 * PAGE)
  {
    var h3, b := Unify(h2, i + 1), h2.t.blocks[i];
    UnifyStarts(h2, i + 1);
    UnifyHardly(h2, i + 1);
    UnifyInv(h2, i + 1, false);
    UnifyBehindUsed(h2, i + 1, false);
    SizedNow(h2, i);
    SizedAfter(h2, h3.t.blocks, DataOf(b), nsz, nsz);
    if i + 1 < |h3.t.blocks| {
      RestLeft(h3, i + 1);
      SizedAfter(h3, LeaveRest(h3, i + 1).t.blocks, DataOf(b), nsz, nsz + PAGE);
      SizedMore(LeaveRest(h3, i + 1).t.blocks, DataOf(b), nsz, nsz + 2 * PAGE, nsz + HDR + 2 * PAGE);
    }
  }

  lemma SizedNow(h: Heap, i: nat)
    requires i < |h.t.blocks| && h.t.blocks[i].status.Used?
    ensures var b := h.t.blocks[i]; b.start in Starts(h.t.blocks) && Sized(h.t.blocks, DataOf(b), b.size, b.size)
  {
    assert h.t.blocks[i] in h.t.blocks;
  }

  lemma SizedMore(bs: seq<Blk>, adr: nat, lo: nat, hi: nat, hi': nat)
    requires Sized(bs, adr, lo, hi) && hi <= hi'
    ensures Sized(bs, adr, lo, hi')
  {
  }

  lemma RestLeft(h3: Heap, i: nat)
    requires Inv(h3, false) && i < |h3.t.blocks| && !h3.t.blocks[i].status.Used?
    ensures var cs := LeaveRest(h3, i).t.blocks; Starts(cs) == Starts(h3.t.blocks) && HardlyGrown(h3.t.blocks, cs)
  {
    if i + 1 == |h3.t.blocks| {
      ShrinkStarts(h3);
      ShrinkHardly(h3);
    } else {
      CleanStarts(h3, i);
      CleanUsed(h3, i);
      SameUsed(h3.t.blocks, LeaveRest(h3, i).t.blocks);
    }
  }

  /** A used block that grows in place of its successor. */
  lemma AbsorbedStarts(bs: seq<Blk>, i: nat, nsz: nat)
    requires i + 1 < |bs| && bs[i].status.Used? && Ascending(bs)
    ensures var cs := AbsorbedBlocks(bs, i, nsz);
            && Starts(cs) == Starts(bs) - (if bs[i + 1].status.Used? then {bs[i + 1].start} else {})
            && Sized(cs, DataOf(bs[i]), nsz, nsz)
  {
    var cs, b := AbsorbedBlocks(bs, i, nsz), bs[i].(size := nsz, fbl := ClassOf(nsz));
    StartsAround(bs, i + 1);
    assert bs[..i + 1] == bs[..i] + [bs[i]] && cs == bs[..i] + [b] + bs[i + 2..];
    StartsConcat(bs[..i], [bs[i]]);
    StartsConcat(bs[..i] + [b], bs[i + 2..]);
    StartsConcat(bs[..i], [b]);
    StartsOne(b);
    StartsOne(bs[i]);
    assert cs[i] == b && b in cs;
  }

  lemma GrowthStarts(h: Heap, i: nat, nsz: nat, ok: bool)
    requires Inv(h, false) && i < |h.t.blocks| && h.t.blocks[i].status.Used?
    requires FitsExactly(h.t.blocks, i, nsz) || (GrowsBySplit(h.t.blocks, i, nsz) && !SplitFails(h.t.blocks, i, nsz, ok))
    ensures var (r, b) := (Expand(h, i, nsz, ok), h.t.blocks[i]);
            r.Moved? && Starts(r.h.t.blocks) == Starts(h.t.blocks) && Sized(r.h.t.blocks, DataOf(b), nsz, nsz)
  {
    if FitsExactly(h.t.blocks, i, nsz) {
      ExactGrowth(h, i, nsz);
    } else {
      var h1 := ExpandSplits(h, i, nsz, ok);
      SplitGrowth(h, h1, i, nsz - h.t.blocks[i].size, nsz, ok);
    }
  }

  lemma ExactGrowth(h: Heap, i: nat, nsz: nat)
    requires Inv(h, false) && i + 1 < |h.t.blocks| && h.t.blocks[i].status.Used? && FitsExactly(h.t.blocks, i, nsz)
    ensures var cs := Absorb(h, i, nsz).t.blocks; Starts(cs) == Starts(h.t.blocks) && Sized(cs, DataOf(h.t.blocks[i]), nsz, nsz)
  {
    InvClassed(h, false);
    AbsorbNextInv(h, i, nsz, false);
    AbsorbedStarts(h.t.blocks, i, nsz);
  }

  lemma SplitGrowth(h: Heap, h1: Heap, i: nat, more: nat, nsz: nat, ok: bool)
    requires Inv(h, false) && i + 1 < |h.t.blocks| && h.t.blocks[i].status.Used? && !h.t.blocks[i + 1].status.Used?
    requires 0 < more < h.t.blocks[i + 1].size && Split(h, i + 1, more, ok) == Some(h1) && nsz == h.t.blocks[i].size + more
    ensures var cs := Absorb(h1, i, nsz).t.blocks;
            i + 1 < |h1.t.blocks| && Starts(cs) == Starts(h.t.blocks) && Sized(cs, DataOf(h.t.blocks[i]), nsz, nsz)
  {
    SplitTakesFront(h, h1, i, more, ok, false);
    SplitInv(h, i + 1, more, ok, false);
    InvClassed(h, false);
    InvClassed(h1, false);
    SplitStarts(h.t.blocks, i + 1, more);
    AbsorbSplitInv(h1, i, nsz);
    AbsorbedStarts(h1.t.blocks, i, nsz);
  }

  /** The move: the payload at its new address becomes live, and the old one ceases to be. */
  lemma MoveStarts(h: Heap, i: nat, nsz: nat, ok: bool)
    requires Inv(h, false) && i < |h.t.blocks| && h.t.blocks[i].status.Used? && MemAlloc(h, nsz, ok).Got?
    ensures var (r, x) := (MoveBlk(h, DataOf(h.t.blocks[i]), h.t.blocks[i].size, nsz, ok), h.t.blocks[i].start);
            r.Moved? && HasMoved(h.t.blocks, r.h.t.blocks, x, r.adr, nsz)
  {
    var h1, dst := AllocLive(h, nsz, ok);
    var b := h.t.blocks[i];
    SizedNow(h, i);
    MoveFrees(h, h1, dst, b.start, nsz, CopyBytes(h1.ram, dst, DataOf(b), b.size));
    MovedBy(h, b, nsz, ok, h1, dst);
  }

  lemma AllocLive(h: Heap, sz: nat, ok: bool) returns (h1: Heap, dst: nat)
    requires Inv(h, false) && MemAlloc(h, sz, ok).Got?
    ensures MemAlloc(h, sz, ok) == Got(h1, dst) && Inv(h1, false) && dst >= HDR && MadeLive(h.t.blocks, h1.t.blocks, dst - HDR, sz)
  {
    h1, dst := MemAlloc(h, sz, ok).h, MemAlloc(h, sz, ok).adr;
    GotInv(h, sz, ok, h1, dst);
    GotLives(h, sz, ok, h1, dst);
  }

  lemma GotInv(h: Heap, sz: nat, ok: bool, h1: Heap, dst: nat)
    requires Inv(h, false) && MemAlloc(h, sz, ok) == Got(h1, dst)
    ensures Inv(h1, false)
  {
    AllocInv(h, sz, ok, false);
  }

  lemma GotLives(h: Heap, sz: nat, ok: bool, h1: Heap, dst: nat)
    requires Inv(h, false) && MemAlloc(h, sz, ok) == Got(h1, dst)
    ensures dst >= HDR && MadeLive(h.t.blocks, h1.t.blocks, dst - HDR, sz)
  {
    AllocStarts(h, sz, ok, false);
  }

  lemma MovedBy(h: Heap, b: Blk, nsz: nat, ok: bool, h1: Heap, dst: nat)
    requires |h.t.fbl| == CLASSES && MemAlloc(h, nsz, ok) == Got(h1, dst)
    ensures MoveBlk(h, DataOf(b), b.size, nsz, ok) == Moved(MemFree(h1.(ram := CopyBytes(h1.ram, dst, DataOf(b), b.size)), DataOf(b)), dst)
  {
  }

  /** The payload behind the header at x has gone, and one of nsz bytes or little more at a, which was not live, has come. */
  ghost predicate HasMoved(bs: seq<Blk>, cs: seq<Blk>, x: nat, a: nat, nsz: nat) {
    && x in Starts(bs) && a >= HDR && a - HDR !in Starts(bs)
    && Starts(cs) == Starts(bs) - {x} + {a - HDR} && Sized(cs, a, nsz, nsz + HDR + 2 * PAGE)
  }

  lemma MoveFrees(h: Heap, h1: Heap, a: nat, x: nat, nsz: nat, ram: map<nat, int>)
    requires Inv(h1, false) && x in Starts(h.t.blocks) && a >= HDR && MadeLive(h.t.blocks, h1.t.blocks, a - HDR, nsz)
    ensures HasMoved(h.t.blocks, MemFree(h1.(ram := ram), x + HDR).t.blocks, x, a, nsz)
  {
    FreesOld(h1.(ram := ram), x, a, nsz);
  }

  /** The old payload, behind the header at x, is given up when the new one at a is live. */
  lemma FreesOld(h: Heap, x: nat, a: nat, nsz: nat)
    requires Inv(h, false) && x in Starts(h.t.blocks) && a >= HDR && a - HDR in Starts(h.t.blocks) && a - HDR != x
    requires Sized(h.t.blocks, a, nsz, nsz + HDR)
    ensures var cs := MemFree(h, x + HDR).t.blocks; Starts(cs) == Starts(h.t.blocks) - {x} && Sized(cs, a, nsz, nsz + HDR + 2 * PAGE)
  {
    var cs := FreeAtStart(h, x);
    SizedAfter(h, cs, a, nsz, nsz + HDR);
    SizedMore(cs, a, nsz, nsz + HDR + PAGE, nsz + HDR + 2 * PAGE);
  }

  lemma FreeAtStart(h: Heap, x: nat) returns (cs: seq<Blk>)
    requires Inv(h, false) && x in Starts(h.t.blocks)
    ensures cs == MemFree(h, x + HDR).t.blocks && Starts(cs) == Starts(h.t.blocks) - {x} && HardlyGrown(h.t.blocks, cs)
  {
    cs := MemFree(h, x + HDR).t.blocks;
    LiveIff(h.t.blocks, x + HDR);
    FreeStarts(h, x + HDR, false);
    FreeHardly(h, x + HDR, false);
  }

  /**
   After a split has failed the code searches for a block again, with the error pending.  A block
   that is found and needs no page stays used although its address is returned to nobody.
   */
  ghost predicate Leaks(h: Heap, nsz: nat)
    requires |h.t.fbl| == CLASSES
  {
    var k := IdxOf(h.t.blocks, Chosen(Search(h.t, nsz)));
    && nsz < 0x8000_0000 && Chosen(Search(h.t, nsz)) != NULL && k < |h.t.blocks|
    && !h.t.blocks[k].status.FreeEmpty? && !DoublySelects(h.t, nsz)
  }

  /** The block that is found and forgotten. */
  ghost function LeakedAt(h: Heap, nsz: nat): set<nat>
    requires |h.t.fbl| == CLASSES
  {
    var k := IdxOf(h.t.blocks, Chosen(Search(h.t, nsz)));
    if Leaks(h, nsz) && k < |h.t.blocks| then {h.t.blocks[k].start} else {}
  }

  /** The payload behind the header at x has gone; a block that is found and forgotten has come. */
  ghost predicate LostGood(h: Heap, cs: seq<Blk>, x: nat, leaked: set<nat>) {
    leaked !! Starts(h.t.blocks) && Starts(cs) == Starts(h.t.blocks) - {x} + leaked && NotLive(cs, x + HDR)
  }

  lemma LeakStarts(h: Heap, i: nat, nsz: nat)
    requires Inv(h, false) && i < |h.t.blocks| && h.t.blocks[i].status.Used? && 0 < nsz
    ensures MoveAfterError(h, DataOf(h.t.blocks[i]), nsz).Lost?
    ensures LostGood(h, MoveAfterError(h, DataOf(h.t.blocks[i]), nsz).h.t.blocks, h.t.blocks[i].start, LeakedAt(h, nsz))
  {
    var h1 := AfterError(h, nsz);
    ErrorIs(h, DataOf(h.t.blocks[i]), nsz, h1);
    SizedNow(h, i);
    GivenUp(h, h1, h.t.blocks[i].start, LeakedAt(h, nsz));
  }

  lemma GivenUp(h: Heap, h1: Heap, x: nat, leaked: set<nat>)
    requires Inv(h1, false) && x in Starts(h.t.blocks) && leaked !! Starts(h.t.blocks) && Starts(h1.t.blocks) == Starts(h.t.blocks) + leaked
    ensures LostGood(h, MemFree(h1, x + HDR).t.blocks, x, leaked)
  {
    var cs := FreeAtStart(h1, x);
    OneLess(Starts(h.t.blocks), leaked, x);
    NotStarting(cs, x + HDR);
  }

  lemma OneLess(s: set<nat>, leaked: set<nat>, x: nat)
    requires x in s && leaked !! s
    ensures s + leaked - {x} == s - {x} + leaked && x !in s - {x} + leaked
  {
  }

  /** The heap after the search that follows the failed split. */
  lemma AfterError(h: Heap, nsz: nat) returns (h1: Heap)
    requires Inv(h, false) && 0 < nsz
    ensures h1 == (if FindFreeWithin(h, nsz, false).Taken? then FindFreeWithin(h, nsz, false).h else h) && Inv(h1, false)
    ensures LeakedAt(h, nsz) !! Starts(h.t.blocks) && Starts(h1.t.blocks) == Starts(h.t.blocks) + LeakedAt(h, nsz)
  {
    LeaksIff(h, nsz);
    h1 := h;
    if FindFreeWithin(h, nsz, false).Taken? { h1 := FoundLive(h, nsz); }
  }

  lemma ErrorIs(h: Heap, adr: nat, nsz: nat, h1: Heap)
    requires |h.t.fbl| == CLASSES && h1 == if FindFreeWithin(h, nsz, false).Taken? then FindFreeWithin(h, nsz, false).h else h
    ensures MoveAfterError(h, adr, nsz) == Lost(MemFree(h1, adr))
  {
  }

  lemma FoundLive(h: Heap, nsz: nat) returns (h1: Heap)
    requires Inv(h, false) && 0 < nsz && FindFreeWithin(h, nsz, false).Taken?
    ensures h1 == FindFreeWithin(h, nsz, false).h && Inv(h1, false)
    ensures LeakedAt(h, nsz) !! Starts(h.t.blocks) && Starts(h1.t.blocks) == Starts(h.t.blocks) + LeakedAt(h, nsz)
  {
    var f := FindFreeWithin(h, nsz, false);
    h1 := f.h;
    FindInv(h, nsz, false, false);
    LeaksIff(h, nsz);
    FreeMadeLive(h, f.i, nsz);
  }

  lemma LeaksIff(h: Heap, nsz: nat)
    requires Inv(h, false) && 0 < nsz
    ensures FindFreeWithin(h, nsz, false).Taken? <==> Leaks(h, nsz)
    ensures Leaks(h, nsz) ==> FindFreeWithin(h, nsz, false).i == IdxOf(h.t.blocks, Chosen(Search(h.t, nsz)))
  {
    FindInv(h, nsz, false, false);
    if nsz < 0x8000_0000 {
      ClassOfValid(nsz);
      InvClassed(h, false);
      ChosenFree(h, nsz, false);
      SearchSelectsBoth(h.t, nsz);
    }
  }

  /** What mem_realloc of a live payload does to the set of live payloads. */
  ghost predicate ReallocLives(h: Heap, i: nat, nsz: nat, ok: bool, r: ReallocResult)
    requires |h.t.fbl| == CLASSES && i < |h.t.blocks|
  {
    var bs, b := h.t.blocks, h.t.blocks[i];
    match r
    case Moved(h', a) =>
      && Sized(h'.t.blocks, a, nsz, nsz + HDR + 2 * PAGE)
      && (if MustMove(bs, i, nsz) then
            && a >= HDR && a - HDR !in Starts(bs) && NotLive(h'.t.blocks, DataOf(b))
            && Starts(h'.t.blocks) == Starts(bs) - {b.start} + {a - HDR}
          else a == DataOf(b) && Starts(h'.t.blocks) == Starts(bs))
    case Lost(h') =>
      && NotLive(h'.t.blocks, DataOf(b))
      && Starts(h'.t.blocks) == Starts(bs) - {b.start} + (if SplitFails(bs, i, nsz, ok) then LeakedAt(h, nsz) else {})
    case _ => true
  }

  /**
   mem_realloc of a live payload makes exactly the payload it returns live and gives up exactly
   the old one where it moves; a payload that is lost is not live any more.
   */
  lemma ReallocStarts(h: Heap, adr: nat, nsz: nat, ok: bool, exact: bool)
    requires Inv(h, exact) && 0 < nsz && FindUsed(h.t.blocks, adr) < |h.t.blocks|
    ensures ReallocLives(h, FindUsed(h.t.blocks, adr), nsz, ok, MemRealloc(h, adr, nsz, ok))
  {
    var i, bs := FindUsed(h.t.blocks, adr), h.t.blocks;
    var b := bs[i];
    assert b in bs && b.start in Starts(bs);
    InvClassed(h, exact);
    LaidLoose(bs, h.base, HeapEnd(h), exact);
    ReallocTheorem(h, adr, nsz, ok, exact);
    if b.size > nsz {
      ShrinkBlkStarts(h, i, nsz);
    } else if MustMove(bs, i, nsz) {
      MovesStarts(h, i, nsz, ok);
    } else if SplitFails(bs, i, nsz, ok) {
      LeakStarts(h, i, nsz);
    } else if b.size < nsz {
      GrowthStarts(h, i, nsz, ok);
    }
  }

  lemma MovedLives(h: Heap, i: nat, nsz: nat, ok: bool, r: ReallocResult)
    requires |h.t.fbl| == CLASSES && i < |h.t.blocks| && MustMove(h.t.blocks, i, nsz)
    requires r.Moved? && HasMoved(h.t.blocks, r.h.t.blocks, h.t.blocks[i].start, r.adr, nsz)
    ensures ReallocLives(h, i, nsz, ok, r)
  {
    NotStarting(r.h.t.blocks, DataOf(h.t.blocks[i]));
  }

  lemma MovesStarts(h: Heap, i: nat, nsz: nat, ok: bool)
    requires Inv(h, false) && i < |h.t.blocks| && h.t.blocks[i].status.Used? && MustMove(h.t.blocks, i, nsz)
    ensures ReallocLives(h, i, nsz, ok, MoveBlk(h, DataOf(h.t.blocks[i]), h.t.blocks[i].size, nsz, ok))
  {
    var b, a := h.t.blocks[i], MemAlloc(h, nsz, ok);
    SizedNow(h, i);
    if a.Got? {
      MoveStarts(h, i, nsz, ok);
      MovedLives(h, i, nsz, ok, MoveBlk(h, DataOf(b), b.size, nsz, ok));
    } else if a.Refused? {
      LostLives(h, i, nsz, ok);
    }
  }

  /** Where there is no room for the move the old payload is given up. */
  lemma LostLives(h: Heap, i: nat, nsz: nat, ok: bool)
    requires Inv(h, false) && i < |h.t.blocks| && h.t.blocks[i].status.Used? && MustMove(h.t.blocks, i, nsz)
    requires MemAlloc(h, nsz, ok).Refused? && Sized(h.t.blocks, DataOf(h.t.blocks[i]), h.t.blocks[i].size, h.t.blocks[i].size)
    ensures ReallocLives(h, i, nsz, ok, MoveBlk(h, DataOf(h.t.blocks[i]), h.t.blocks[i].size, nsz, ok))
  {
    var b := h.t.blocks[i];
    RefusedMove(h, b, nsz, ok);
    var h' := FreesBlock(h, i);
    LosesOld(h, i, nsz, ok, h');
  }

  lemma FreesBlock(h: Heap, i: nat) returns (h': Heap)
    requires Inv(h, false) && i < |h.t.blocks| && h.t.blocks[i].status.Used?
    ensures h' == MemFree(h, DataOf(h.t.blocks[i])) && NotLive(h'.t.blocks, DataOf(h.t.blocks[i]))
    ensures Starts(h'.t.blocks) == Starts(h.t.blocks) - {h.t.blocks[i].start}
  {
    var adr := DataOf(h.t.blocks[i]);
    LiveBlock(h.t.blocks, h.t.blocks[i]);
    h' := FreesPayload(h, adr);
  }

  lemma LiveBlock(bs: seq<Blk>, b: Blk)
    requires b in bs && b.status.Used?
    ensures FindUsed(bs, DataOf(b)) < |bs| && DataOf(b) == b.start + HDR
  {
    LiveIff(bs, DataOf(b));
  }

  lemma FreesPayload(h: Heap, adr: nat) returns (h': Heap)
    requires Inv(h, false) && adr != 0 && FindUsed(h.t.blocks, adr) < |h.t.blocks|
    ensures h' == MemFree(h, adr) && NotLive(h'.t.blocks, adr) && adr >= HDR && Starts(h'.t.blocks) == Starts(h.t.blocks) - {adr - HDR}
  {
    h' := MemFree(h, adr);
    FreeStarts(h, adr, false);
  }

  lemma RefusedMove(h: Heap, b: Blk, nsz: nat, ok: bool)
    requires Inv(h, false) && MemAlloc(h, nsz, ok).Refused?
    ensures MoveBlk(h, DataOf(b), b.size, nsz, ok) == Lost(MemFree(h, DataOf(b)))
  {
    AllocInv(h, nsz, ok, false);
  }

  lemma LosesOld(h: Heap, i: nat, nsz: nat, ok: bool, h': Heap)
    requires |h.t.fbl| == CLASSES && i < |h.t.blocks| && MustMove(h.t.blocks, i, nsz)
    requires NotLive(h'.t.blocks, DataOf(h.t.blocks[i])) && Starts(h'.t.blocks) == Starts(h.t.blocks) - {h.t.blocks[i].start}
    ensures ReallocLives(h, i, nsz, ok, Lost(h'))
  {
  }

  /** What mem_realloc guarantees when it is called without an old payload. */
  ghost predicate NewPayload(h: Heap, nsz: nat, exact: bool, r: ReallocResult)
    requires |h.t.fbl| == CLASSES
  {
    match r
    case Moved(h', a) =>
      && a >= HDR && MadeLive(h.t.blocks, h'.t.blocks, a - HDR, nsz) && NotLive(h.t.blocks, a)
      && Inv(h', exact) && Serves(h', a, nsz) && Preserves(h, h', 0)
    case Rejected(h') => h' == h
    case Broken(_) => DoublySelects(h.t, nsz)
    case _ => false
  }

  /**
   mem_realloc without an old payload: the payload returned is new, and the others are untouched;
   a refusal changes nothing, and comes exactly where mem_alloc refuses.
   */
  lemma ReallocNull(h: Heap, nsz: nat, ok: bool, exact: bool)
    requires Inv(h, exact) && 0 < nsz
    ensures NewPayload(h, nsz, exact, MemRealloc(h, 0, nsz, ok))
    ensures MemRealloc(h, 0, nsz, ok).Broken? <==> DoublySelects(h.t, nsz)
    ensures MemRealloc(h, 0, nsz, ok).Rejected? <==> MemAlloc(h, nsz, ok).Refused?
  {
    AllocInv(h, nsz, ok, exact);
    AllocCorruptsIff(h, nsz, ok, exact);
    NullIs(h, nsz, ok);
    if MemAlloc(h, nsz, ok).Got? { NewIs(h, nsz, ok, exact); }
  }

  lemma NullIs(h: Heap, nsz: nat, ok: bool)
    requires |h.t.fbl| == CLASSES && 0 < nsz
    ensures MemRealloc(h, 0, nsz, ok) == match MemAlloc(h, nsz, ok)
                                         case Got(h1, a) => Moved(h1, a)
                                         case Refused(h1) => Rejected(h1)
                                         case Corrupted(h1, _) => Broken(h1)
  {
  }

  lemma NewIs(h: Heap, nsz: nat, ok: bool, exact: bool)
    requires Inv(h, exact) && 0 < nsz && MemAlloc(h, nsz, ok).Got?
    ensures NewPayload(h, nsz, exact, Moved(MemAlloc(h, nsz, ok).h, MemAlloc(h, nsz, ok).adr))
  {
    AllocInv(h, nsz, ok, exact);
    AllocPreserves(h, nsz, ok, exact);
    AllocStarts(h, nsz, ok, exact);
  }

  /** The calls of mem_realloc that return NULL by design: nothing to do, no such payload, or a release. */
  lemma ReallocRejects(h: Heap, adr: nat, nsz: nat, ok: bool, exact: bool)
    requires Inv(h, exact)
    ensures (adr == 0 && nsz == 0) || (adr != 0 && nsz > 0 && NotLive(h.t.blocks, adr)) ==> MemRealloc(h, adr, nsz, ok) == Rejected(h)
    ensures adr != 0 && nsz == 0 ==>
              && MemRealloc(h, adr, nsz, ok).Rejected? && NotLive(MemRealloc(h, adr, nsz, ok).h.t.blocks, adr)
              && Starts(MemRealloc(h, adr, nsz, ok).h.t.blocks)
                 == (if adr >= HDR then Starts(h.t.blocks) - {adr - HDR} else Starts(h.t.blocks))
  {
    LiveIff(h.t.blocks, adr);
    if adr != 0 && nsz == 0 && FindUsed(h.t.blocks, adr) < |h.t.blocks| { FreeStarts(h, adr, exact); }
  }

  /**
   Whatever gaps the heap has: a byte of the block that mem_free gives up lies in no used block
   afterwards, unless it has been handed to the one in front.
   */
  lemma FreeUnused(h: Heap, adr: nat, exact: bool, a: nat, c: Blk)
    requires Inv(h, exact) && adr != 0 && FindUsed(h.t.blocks, adr) < |h.t.blocks|
    requires var b := h.t.blocks[FindUsed(h.t.blocks, adr)]; b.start <= a < EndOf(b)
    requires c in MemFree(h, adr).t.blocks && c.status.Used? && c.start <= a < EndOf(c)
    ensures Handed(h.t.blocks, MemFree(h, adr).t.blocks, a)
  {
    var i, cs := FindUsed(h.t.blocks, adr), MemFree(h, adr).t.blocks;
    FreeStarts(h, adr, exact);
    FreeHardly(h, adr, exact);
    assert c.start in Starts(cs);
    var b :| b in h.t.blocks && b.status.Used? && b.start == c.start && b.size <= c.size < b.size + PAGE;
    BlocksApart(h, exact, i, b);
    assert HandedTo(b, c, a);
  }

  // ---------------------------------------------------------------- pages given back and taken

  /** Page q lies inside the payload of block b. */
  predicate Within(b: Blk, q: nat) {
    DataOf(b) <= q * PAGE && (q + 1) * PAGE <= EndOf(b)
  }

  /** Of the pages inside the payload of the empty block b at most the last two are resident. */
  ghost predicate Emptied(h: Heap, b: Blk) {
    b.status.FreeEmpty? && forall q: nat {:trigger q in h.res} :: Within(b, q) && q in h.res ==> (q + 3) * PAGE > EndOf(b)
  }

  /**
   The whole pages at the end of the payload that cleaning leaves mapped: the code measures the end
   of the block from its rounded start.
   */
  function LeftBehind(b: Blk): nat {
    if b.size % PAGE == 0 then 0 else if DataOf(b) % PAGE + b.size % PAGE < PAGE then 1 else 2
  }

  /** Cleaning unmaps exactly the whole pages inside the payload but those left behind. */
  lemma CleanExact(h: Heap, i: nat)
    requires i < |h.t.blocks|
    ensures var b := h.t.blocks[i];
            forall q: nat {:trigger q in Clean(h, i).res} ::
              q in Clean(h, i).res <==> q in h.res && !(Within(b, q) && (q + 1 + LeftBehind(b)) * PAGE <= EndOf(b))
  {
    var b := h.t.blocks[i];
    var (start, n) := CleanSpan(b);
    var first := start / PAGE;
    CleanCount(b);
    assert Clean(h, i).res == if n > 0 then h.res - Span(first, n) else h.res;
    forall q: nat ensures Within(b, q) && (q + 1 + LeftBehind(b)) * PAGE <= EndOf(b) <==> first <= q < first + n {
      CleanPage(b, q);
    }
  }

  lemma CleanCount(b: Blk)
    ensures var (start, n) := CleanSpan(b);
            && start % PAGE == 0 && DataOf(b) <= start < DataOf(b) + PAGE
            && EndOf(b) < start + (n + LeftBehind(b) + 1) * PAGE && (n > 0 ==> start + (n + LeftBehind(b)) * PAGE <= EndOf(b))
  {
  }

  lemma CleanPage(b: Blk, q: nat)
    ensures var (start, n) := CleanSpan(b);
            Within(b, q) && (q + 1 + LeftBehind(b)) * PAGE <= EndOf(b) <==> start / PAGE <= q < start / PAGE + n
  {
    CleanCount(b);
  }

  /** Cleaning removes whole pages inside the payload, and leaves at most the last two of them. */
  lemma CleanEmpties(h: Heap, i: nat)
    requires i < |h.t.blocks|
    ensures var (b, h') := (h.t.blocks[i], Clean(h, i));
            && h'.res <= h.res && (forall q: nat :: q in h.res && q !in h'.res ==> Within(b, q))
            && Emptied(h', b.(status := FreeEmpty))
  {
    CleanExact(h, i);
  }

  /** Between two blocks in use mem_free changes nothing but the status of the block: it stays mapped. */
  lemma FreeAlone(h: Heap, adr: nat, exact: bool, i: nat)
    requires Inv(h, exact) && adr != 0 && FindUsed(h.t.blocks, adr) == i && i + 1 < |h.t.blocks|
    requires !IsFreeAt(h.t.blocks, i - 1) && !IsFreeAt(h.t.blocks, i + 1)
    ensures var h' := MemFree(h, adr);
            && h'.t.blocks == h.t.blocks[i := h.t.blocks[i].(status := Free)]
            && h'.base == h.base && h'.usable == h.usable && h'.res == h.res && h'.ram == h.ram
  {
    var h1 := h.(t := Release(h.t, i));
    assert forall k :: IsFreeAt(h1.t.blocks, k) <==> k == i || IsFreeAt(h.t.blocks, k);
  }

  /** When mem_free merges free blocks that do not end the heap, the merged block is empty afterwards. */
  lemma FreeEmpties(h: Heap, adr: nat, exact: bool, i: nat)
    requires Inv(h, exact) && adr != 0 && FindUsed(h.t.blocks, adr) == i && i + 1 < |h.t.blocks|
    requires (IsFreeAt(h.t.blocks, i - 1) || IsFreeAt(h.t.blocks, i + 1)) && !(i + 2 == |h.t.blocks| && IsFreeAt(h.t.blocks, i + 1))
    ensures var (lo, h') := (MergeLo(h.t.blocks, i), MemFree(h, adr));
            lo < |h'.t.blocks| && h'.t.blocks[lo].start == h.t.blocks[lo].start && Emptied(h', h'.t.blocks[lo])
  {
    LaidLoose(h.t.blocks, h.base, HeapEnd(h), exact);
    ReleaseInv(h, i, false);
    UnifyEmpties(h.(t := Release(h.t, i)), i);
  }

  lemma UnifyEmpties(h: Heap, i: nat)
    requires Inv(h, false) && i < |h.t.blocks| && !h.t.blocks[i].status.Used?
    requires (IsFreeAt(h.t.blocks, i - 1) || IsFreeAt(h.t.blocks, i + 1)) && MergeHi(h.t.blocks, i) < |h.t.blocks|
    ensures var (lo, h') := (MergeLo(h.t.blocks, i), Unify(h, i));
            lo < |h'.t.blocks| && h'.t.blocks[lo].start == h.t.blocks[lo].start && Emptied(h', h'.t.blocks[lo])
  {
    var lo, h1 := MergeLo(h.t.blocks, i), h.(t := Merge(h.t, i));
    MergeInv(h, i, false);
    CleanInv(h1, lo, false);
    CleanEmpties(h1, lo);
    assert h1.t.blocks[lo] == MergedBlk(h.t.blocks, i);
  }

  /** The rest of a block that mem_realloc cuts down is empty afterwards, if it does not end the heap. */
  lemma CutEmpties(h: Heap, i: nat, nsz: nat)
    requires Inv(h, false) && i < |h.t.blocks| && h.t.blocks[i].status.Used? && 0 < nsz && nsz + HDR < h.t.blocks[i].size
    ensures var r := ShrinkBlk(h, i, nsz);
            r.Moved? && i + 2 < |r.h.t.blocks| ==> Emptied(r.h, r.h.t.blocks[i + 1])
  {
    var h2 := CutBlk(h, i, nsz);
    var h3 := Unify(h2, i + 1);
    CutBlkInv(h, i, nsz, false);
    CutOffFirst(h.t.blocks, i, nsz, Used, Free);
    CutAway(h, i, nsz, h2, h3);
    UnifyInv(h2, i + 1, false);
    UnifyBehindUsed(h2, i + 1, false);
    if ShrinkBlk(h, i, nsz).Moved? { RestEmpties(h3, i + 1); }
  }

  /** The heap ends behind the page of the payload when its last block has been cut down. */
  lemma CutEnds(h: Heap, i: nat, nsz: nat)
    requires Inv(h, true) && i + 1 == |h.t.blocks| && h.t.blocks[i].status.Used? && 0 < nsz && nsz + HDR < h.t.blocks[i].size
    ensures ShrinkBlk(h, i, nsz).Moved? && HeapEnd(ShrinkBlk(h, i, nsz).h) == RoundUp(DataOf(h.t.blocks[i]) + nsz)
  {
    var h2 := CutBlk(h, i, nsz);
    CutBlkInv(h, i, nsz, true);
    CutOffFirst(h.t.blocks, i, nsz, Used, Free);
    assert Unify(h2, i + 1) == h2;
    ShrinkEnd(h2);
  }

  lemma RestEmpties(h3: Heap, i: nat)
    requires Inv(h3, false) && i < |h3.t.blocks| && !h3.t.blocks[i].status.Used?
    ensures var h4 := LeaveRest(h3, i); i + 1 < |h4.t.blocks| ==> Emptied(h4, h4.t.blocks[i])
  {
    if i + 1 < |h3.t.blocks| {
      CleanInv(h3, i, false);
      CleanEmpties(h3, i);
    } else if h3.t.blocks[i].size + HDR >= PAGE {
      ShrinkLaid(h3, false);
    }
  }

  /** A split maps the pages from a on that n bytes take, and no others; a is the payload or the page boundary behind its start. */
  lemma SplitMaps(h: Heap, i: nat, sz: nat, ok: bool)
    requires i < |h.t.blocks| && Split(h, i, sz, ok).Some?
    ensures var (b, h') := (h.t.blocks[i], Split(h, i, sz, ok).value);
            var a := if b.size <= sz + HDR then DataOf(b) - DataOf(b) % PAGE else RoundUp(DataOf(b));
            var n := if b.size <= sz + HDR then sz else sz + HDR;
            forall q: nat :: q in h'.res <==> q in h.res || (b.status.FreeEmpty? && a <= q * PAGE < a + n)
  {
    var b := h.t.blocks[i];
    PageCount(DataOf(b) - DataOf(b) % PAGE, sz);
    PageCount(RoundUp(DataOf(b)), sz + HDR);
    assert DataOf(b) / PAGE == (DataOf(b) - DataOf(b) % PAGE) / PAGE;
  }

  lemma PageCount(a: nat, n: nat)
    requires a % PAGE == 0
    ensures forall q: nat :: a / PAGE <= q < a / PAGE + Pages(n) <==> a <= q * PAGE < a + n
  {
  }

  /** Growing the heap maps exactly the new pages. */
  lemma GrowMaps(h: Heap, n: nat, ok: bool)
    requires Inv(h, false) && Grow(h, n, ok).Some?
    ensures var h' := Grow(h, n, ok).value; forall q: nat :: q in h'.res <==> q in h.res || HeapEnd(h) <= q * PAGE < HeapEnd(h')
  {
    PageCount(HeapEnd(h), n);
    assert HeapEnd(h) % PAGE == 0;
  }
}
