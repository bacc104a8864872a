/**
 What no operation touches: every used block stays where it is, never becomes smaller,
 and keeps the bytes of its payload, whatever is done to the other blocks.
 */
module HeapKeep {
  import opened BlockLists
  import opened BlockTables
  import opened BlockSteps
  import opened BestFit
  import opened HeapSpec
  import opened HeapInv

  ghost predicate KeptIn(b: Blk, cs: seq<Blk>) {
    exists c :: c in cs && c.status.Used? && c.start == b.start && c.size >= b.size
  }

  /** The used blocks of bs, except the one at address x, are still there and not smaller. */
  ghost predicate Keeps(bs: seq<Blk>, cs: seq<Blk>, x: nat) {
    forall b :: b in bs && b.status.Used? && b.start != x ==> KeptIn(b, cs)
  }

  ghost predicate InPayload(b: Blk, a: nat) {
    DataOf(b) <= a < EndOf(b)
  }

  ghost predicate SameByte(r: map<nat, int>, r': map<nat, int>, a: nat) {
    (a in r <==> a in r') && (a in r ==> r[a] == r'[a])
  }

  /** The payloads of the used blocks, except the one at address x, keep their bytes. */
  ghost predicate KeepsBytes(h: Heap, h': Heap, x: nat) {
    forall b, a :: b in h.t.blocks && b.status.Used? && b.start != x && InPayload(b, a) ==> SameByte(h.ram, h'.ram, a)
  }

  ghost predicate Preserves(h: Heap, h': Heap, x: nat) {
    Keeps(h.t.blocks, h'.t.blocks, x) && KeepsBytes(h, h', x)
  }

  lemma PreservesTrans(h: Heap, h1: Heap, h2: Heap, x: nat)
    requires Preserves(h, h1, x) && Preserves(h1, h2, x)
    ensures Preserves(h, h2, x)
  {
    forall b | b in h.t.blocks && b.status.Used? && b.start != x
      ensures KeptIn(b, h2.t.blocks)
      ensures forall a :: InPayload(b, a) ==> SameByte(h.ram, h2.ram, a)
    {
      assert KeptIn(b, h1.t.blocks);
      var c :| c in h1.t.blocks && c.status.Used? && c.start == b.start && c.size >= b.size;
      assert KeptIn(c, h2.t.blocks);
      forall a | InPayload(b, a) ensures SameByte(h.ram, h2.ram, a) {
        assert InPayload(c, a) && SameByte(h.ram, h1.ram, a) && SameByte(h1.ram, h2.ram, a);
      }
    }
  }

  lemma PreservesWeaken(h: Heap, h': Heap, x: nat)
    requires Preserves(h, h', 0) && forall b :: b in h.t.blocks ==> b.start > 0
    ensures Preserves(h, h', x)
  {
  }

  /** A free block and any used block lie apart. */
  lemma BlocksApart(h: Heap, exact: bool, i: nat, b: Blk)
    requires Inv(h, exact) && i < |h.t.blocks| && b in h.t.blocks && b != h.t.blocks[i]
    ensures EndOf(b) <= h.t.blocks[i].start || EndOf(h.t.blocks[i]) <= b.start
  {
    var j :| 0 <= j < |h.t.blocks| && h.t.blocks[j] == b;
    if j < i { LaidOrdered(h.t.blocks, h.base, HeapEnd(h), exact, j, i); }
    if i < j { LaidOrdered(h.t.blocks, h.base, HeapEnd(h), exact, i, j); }
  }

  /** Bytes may change inside a free block only. */
  lemma OutsideKeeps(h: Heap, exact: bool, i: nat, h': Heap, lo: nat, hi: nat)
    requires Inv(h, exact) && i < |h.t.blocks| && !h.t.blocks[i].status.Used?
    requires h'.ram == Outside(h.ram, lo, hi) && h.t.blocks[i].start <= lo && hi <= EndOf(h.t.blocks[i])
    ensures KeepsBytes(h, h', 0)
  {
    forall b, a | b in h.t.blocks && b.status.Used? && InPayload(b, a) ensures SameByte(h.ram, h'.ram, a) {
      BlocksApart(h, exact, i, b);
    }
  }

  lemma BeyondKeeps(h: Heap, exact: bool, h': Heap, lo: nat, hi: nat)
    requires Inv(h, exact) && h'.ram == Outside(h.ram, lo, hi)
    requires forall b :: b in h.t.blocks && b.status.Used? ==> EndOf(b) <= lo
    ensures KeepsBytes(h, h', 0)
  {
  }

  // ---------------------------------------------------------------- one operation at a time

  lemma ShrinkPreserves(h: Heap, exact: bool)
    requires Inv(h, exact) && (h.t.blocks != [] ==> !h.t.blocks[|h.t.blocks| - 1].status.Used?)
    ensures Preserves(h, Shrink(h), 0)
  {
    var n := |h.t.blocks|;
    if n > 0 && h.t.blocks[n - 1].size + HDR >= PAGE {
      var h', bs := Shrink(h), h.t.blocks;
      ShrinkLaid(h, exact);
      ShrunkKeeps(bs);
      LaidBounds(h'.t.blocks, h.base, HeapEnd(h'), exact);
      ShrinkRam(h, exact);
      forall b | b in bs && b.status.Used? ensures EndOf(b) <= HeapEnd(h') {
        InvClassed(h, exact);
        assert KeptIn(b, ShrunkBlocks(bs));
      }
      BeyondKeeps(h, exact, h', HeapEnd(h'), HeapEnd(h));
    }
  }

  lemma ShrinkRam(h: Heap, exact: bool)
    requires Inv(h, exact) && |h.t.blocks| > 0 && h.t.blocks[|h.t.blocks| - 1].size + HDR >= PAGE
    ensures Shrink(h).ram == Outside(h.ram, HeapEnd(Shrink(h)), HeapEnd(h))
  {
    ShrinkLaid(h, exact);
  }

  lemma ShrunkKeeps(bs: seq<Blk>)
    requires |bs| > 0 && !bs[|bs| - 1].status.Used?
    ensures Keeps(bs, ShrunkBlocks(bs), 0)
  {
    var cs := ShrunkBlocks(bs);
    forall b | b in bs && b.status.Used? ensures KeptIn(b, cs) {
      var j :| 0 <= j < |bs| && bs[j] == b;
      assert cs[j] in cs;
    }
  }

  lemma SetKeeps(bs: seq<Blk>, i: nat, c: Blk)
    requires i < |bs| && (bs[i].status.Used? ==> c.status.Used? && c.start == bs[i].start && c.size >= bs[i].size)
    ensures Keeps(bs, bs[i := c], 0)
  {
    forall b | b in bs && b.status.Used? ensures KeptIn(b, bs[i := c]) {
      var j :| 0 <= j < |bs| && bs[j] == b;
      assert bs[i := c][j] in bs[i := c];
    }
  }

  lemma CleanSpanInside(b: Blk)
    ensures var (start, pages) := CleanSpan(b);
            && start % PAGE == 0 && DataOf(b) <= start
            && (pages > 0 ==> start + pages * PAGE <= EndOf(b))
  {
  }

  lemma CleanPreserves(h: Heap, i: nat, exact: bool)
    requires Inv(h, exact) && i < |h.t.blocks| && !h.t.blocks[i].status.Used?
    ensures Preserves(h, Clean(h, i), 0)
  {
    var b := h.t.blocks[i];
    var (start, pages) := CleanSpan(b);
    CleanSpanInside(b);
    CleanInv(h, i, exact);
    SetKeeps(h.t.blocks, i, b.(status := FreeEmpty));
    if pages > 0 {
      OutsideKeeps(h, exact, i, Clean(h, i), start, start + pages * PAGE);
    }
  }

  lemma MergeKeeps(bs: seq<Blk>, i: nat)
    requires i < |bs| && !bs[i].status.Used?
    ensures Keeps(bs, bs[..MergeLo(bs, i)] + [MergedBlk(bs, i)] + bs[MergeHi(bs, i)..], 0)
  {
    var lo, hi := MergeLo(bs, i), MergeHi(bs, i);
    var cs := bs[..lo] + [MergedBlk(bs, i)] + bs[hi..];
    forall b | b in bs && b.status.Used? ensures KeptIn(b, cs) {
      var j :| 0 <= j < |bs| && bs[j] == b;
      assert cs[if j < lo then j else j - (hi - lo - 1)] == b;
    }
  }

  lemma UnifyPreserves(h: Heap, i: nat, exact: bool)
    requires Inv(h, exact) && i < |h.t.blocks| && !h.t.blocks[i].status.Used?
    ensures Preserves(h, Unify(h, i), 0)
  {
    var bs := h.t.blocks;
    if IsFreeAt(bs, i - 1) || IsFreeAt(bs, i + 1) {
      var h1, lo := h.(t := Merge(h.t, i)), MergeLo(bs, i);
      MergeInv(h, i, exact);
      MergeKeeps(bs, i);
      assert h1.t.blocks[lo] == MergedBlk(bs, i);
      assert Preserves(h, h1, 0);
      if lo + 1 == |h1.t.blocks| { ShrinkPreserves(h1, exact); } else { CleanPreserves(h1, lo, exact); }
      PreservesTrans(h, h1, Unify(h, i), 0);
    } else {
      SamePreserves(h);
    }
  }

  lemma SamePreserves(h: Heap)
    ensures Preserves(h, h, 0)
  {
  }

  lemma SplitKeeps(bs: seq<Blk>, i: nat, sz: nat)
    requires i < |bs| && !bs[i].status.Used?
    ensures Keeps(bs, SplitBlocks(bs, i, sz), 0)
  {
    var cs := SplitBlocks(bs, i, sz);
    forall b | b in bs && b.status.Used? ensures KeptIn(b, cs) {
      var j :| 0 <= j < |bs| && bs[j] == b;
      assert cs[if j > i && |cs| > |bs| then j + 1 else j] == b;
    }
  }

  lemma SplitPreserves(h: Heap, i: nat, sz: nat, ok: bool, exact: bool)
    requires Inv(h, exact) && i < |h.t.blocks| && !h.t.blocks[i].status.Used? && 0 < sz
    requires Split(h, i, sz, ok).Some?
    ensures Preserves(h, Split(h, i, sz, ok).value, 0)
  {
    var b, h' := h.t.blocks[i], Split(h, i, sz, ok).value;
    SplitInv(h, i, sz, ok, exact);
    SplitKeeps(h.t.blocks, i, sz);
    if b.size > sz + HDR {
      OutsideKeeps(h, exact, i, h', DataOf(b) + sz, DataOf(b) + sz + HDR);
    } else {
      assert h'.ram == h.ram;
    }
  }

  lemma GrowPreserves(h: Heap, n: nat, ok: bool, exact: bool)
    requires Inv(h, exact) && Grow(h, n, ok).Some?
    ensures Preserves(h, Grow(h, n, ok).value, 0)
  {
    GrowInv(h, n, ok, exact);
    InvClassed(h, exact);
    var h' := Grow(h, n, ok).value;
    forall b | b in h.t.blocks && b.status.Used? ensures KeptIn(b, h'.t.blocks) {
      assert b in h'.t.blocks;
    }
    BeyondKeeps(h, exact, h', HeapEnd(h), HeapEnd(h) + HDR);
  }
}
