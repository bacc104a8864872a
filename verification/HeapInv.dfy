/**
 The invariant of the heap allocator and its preservation by every operation.

 The blocks lie in address order without overlap between the start of the heap and its
 end; in an exact heap they also leave no gap.  Together with the list invariant this is
 what every run keeps.
 */
module HeapInv {
  import opened BlockLists
  import opened BlockTables
  import opened BlockSteps
  import opened BestFit
  import opened HeapSpec

  const REGION: nat := 262144   // pages of the heap region

  // ---------------------------------------------------------------- layout

  ghost predicate WellSized(b: Blk) {
    b.ptr == b.start && 0 < b.size < 0x8000_0000 && b.fbl == ClassOf(b.size)
  }

  /** bs fills [at, end) in order; without gaps when exact. */
  ghost predicate InRow(bs: seq<Blk>, at: nat, end: nat, exact: bool) {
    if bs == [] then at <= end && (exact ==> at == end)
    else
      && WellSized(bs[0]) && at <= bs[0].start && (exact ==> at == bs[0].start)
      && InRow(bs[1..], EndOf(bs[0]), end, exact)
  }

  ghost predicate Settled(k: Key) { true }

  /** InRow kept folded, as Listed is. */
  ghost predicate Laid(bs: seq<Blk>, at: nat, end: nat, exact: bool) {
    forall k: Key {:trigger Settled(k)} :: Settled(k) ==> InRow(bs, at, end, exact)
  }

  lemma LaidIff(bs: seq<Blk>, at: nat, end: nat, exact: bool)
    ensures Laid(bs, at, end, exact) <==> InRow(bs, at, end, exact)
  {
    assert Settled(Key);
  }

  /** Where the blocks bs, laid from at, end. */
  function Reach(bs: seq<Blk>, at: nat): nat {
    if bs == [] then at else EndOf(bs[|bs| - 1])
  }

  lemma {:induction false} RowConcat(a: seq<Blk>, c: seq<Blk>, at: nat, end: nat, exact: bool)
    ensures InRow(a + c, at, end, exact) <==> InRow(a, at, Reach(a, at), exact) && InRow(c, Reach(a, at), end, exact)
  {
    if a == [] {
      assert a + c == c;
    } else {
      assert (a + c)[1..] == a[1..] + c;
      RowConcat(a[1..], c, EndOf(a[0]), end, exact);
      assert Reach(a[1..], EndOf(a[0])) == Reach(a, at);
    }
  }

  lemma LaidConcat(a: seq<Blk>, c: seq<Blk>, at: nat, end: nat, exact: bool)
    ensures Laid(a + c, at, end, exact) <==> Laid(a, at, Reach(a, at), exact) && Laid(c, Reach(a, at), end, exact)
  {
    RowConcat(a, c, at, end, exact);
    LaidIff(a + c, at, end, exact);
    LaidIff(a, at, Reach(a, at), exact);
    LaidIff(c, Reach(a, at), end, exact);
  }

  lemma LaidOne(b: Blk, at: nat, end: nat, exact: bool)
    ensures Laid([b], at, end, exact) <==>
            WellSized(b) && at <= b.start && EndOf(b) <= end && (exact ==> at == b.start && EndOf(b) == end)
  {
    assert [b][1..] == [];
    LaidIff([b], at, end, exact);
  }

  /** Blocks laid from at are laid from any earlier address; in an exact heap nothing may move. */
  lemma LaidEarlier(bs: seq<Blk>, at: nat, at': nat, end: nat, exact: bool)
    requires Laid(bs, at, end, exact) && at' <= at && (exact ==> at' == at)
    ensures Laid(bs, at', end, exact)
  {
    LaidIff(bs, at, end, exact);
  }

  lemma {:induction false} RowBounds(bs: seq<Blk>, at: nat, end: nat, exact: bool)
    requires InRow(bs, at, end, exact)
    ensures at <= Reach(bs, at) <= end && (exact ==> Reach(bs, at) == end)
    ensures forall b :: b in bs ==> WellSized(b) && at <= b.start && EndOf(b) <= end
  {
    if bs != [] {
      RowBounds(bs[1..], EndOf(bs[0]), end, exact);
      assert forall b :: b in bs ==> b == bs[0] || b in bs[1..];
    }
  }

  lemma LaidBounds(bs: seq<Blk>, at: nat, end: nat, exact: bool)
    requires Laid(bs, at, end, exact)
    ensures at <= Reach(bs, at) <= end && (exact ==> Reach(bs, at) == end)
    ensures forall b :: b in bs ==> WellSized(b) && at <= b.start && EndOf(b) <= end
  {
    LaidIff(bs, at, end, exact);
    RowBounds(bs, at, end, exact);
  }

  lemma {:induction false} RowOrdered(bs: seq<Blk>, at: nat, end: nat, exact: bool, i: nat, j: nat)
    requires InRow(bs, at, end, exact) && i < j < |bs|
    ensures EndOf(bs[i]) <= bs[j].start
  {
    if i == 0 {
      RowBounds(bs[1..], EndOf(bs[0]), end, exact);
      assert bs[j] in bs[1..];
    } else {
      RowOrdered(bs[1..], EndOf(bs[0]), end, exact, i - 1, j - 1);
    }
  }

  lemma LaidOrdered(bs: seq<Blk>, at: nat, end: nat, exact: bool, i: nat, j: nat)
    requires Laid(bs, at, end, exact) && i < j < |bs|
    ensures EndOf(bs[i]) <= bs[j].start
  {
    LaidIff(bs, at, end, exact);
    RowOrdered(bs, at, end, exact, i, j);
  }

  lemma LaidAscending(bs: seq<Blk>, at: nat, end: nat, exact: bool)
    requires Laid(bs, at, end, exact)
    ensures Ascending(bs)
  {
    forall i, j | 0 <= i < j < |bs| ensures bs[i].start < bs[j].start {
      LaidOrdered(bs, at, end, exact, i, j);
    }
  }

  /** The layout around blocks lo to hi-1. */
  lemma LaidAround(bs: seq<Blk>, lo: nat, hi: nat, at: nat, end: nat, exact: bool)
    requires Laid(bs, at, end, exact) && lo <= hi <= |bs|
    ensures Laid(bs[..lo], at, Reach(bs[..lo], at), exact)
    ensures Laid(bs[lo..hi], Reach(bs[..lo], at), Reach(bs[..hi], at), exact)
    ensures Laid(bs[hi..], Reach(bs[..hi], at), end, exact)
  {
    assert bs == bs[..hi] + bs[hi..] && bs[..hi] == bs[..lo] + bs[lo..hi];
    LaidConcat(bs[..hi], bs[hi..], at, end, exact);
    LaidConcat(bs[..lo], bs[lo..hi], at, Reach(bs[..hi], at), exact);
  }

  /** Blocks lo to hi-1 replaced by mid, which keeps within their space. */
  lemma LaidReplace(bs: seq<Blk>, lo: nat, hi: nat, mid: seq<Blk>, at: nat, end: nat, exact: bool)
    requires Laid(bs, at, end, exact) && lo <= hi <= |bs|
    requires Laid(mid, Reach(bs[..lo], at), Reach(bs[..hi], at), exact)
    ensures Laid(bs[..lo] + mid + bs[hi..], at, end, exact)
  {
    var front, back, e := bs[..lo], bs[hi..], Reach(bs[..lo], at);
    LaidAround(bs, lo, hi, at, end, exact);
    LaidBounds(mid, e, Reach(bs[..hi], at), exact);
    LaidEarlier(back, Reach(bs[..hi], at), Reach(mid, e), end, exact);
    LaidConcat(mid, [], e, Reach(bs[..hi], at), exact);
    assert mid + [] == mid;
    LaidConcat(mid, back, e, end, exact);
    LaidConcat(front, mid + back, at, end, exact);
    assert front + mid + back == front + (mid + back);
  }

  // ---------------------------------------------------------------- the invariant

  ghost predicate Inv(h: Heap, exact: bool) {
    && h.base > 0 && h.base % PAGE == 0 && h.limit == REGION && h.usable < h.limit
    && Listed(h.t, {})
    && Laid(h.t.blocks, h.base, HeapEnd(h), exact)
    && (h.t.blocks != [] ==> h.t.blocks[0].start % PAGE == 0)
  }

  lemma InvClassed(h: Heap, exact: bool)
    requires Inv(h, exact)
    ensures Classed(h.t.blocks) && Ascending(h.t.blocks)
    ensures forall b :: b in h.t.blocks ==> b.size < REGION * PAGE && h.base <= b.start && EndOf(b) <= HeapEnd(h)
  {
    LaidBounds(h.t.blocks, h.base, HeapEnd(h), exact);
    LaidAscending(h.t.blocks, h.base, HeapEnd(h), exact);
  }

  /** The layout at block i: its predecessors end before it and its successors begin behind it. */
  lemma InvAt(h: Heap, exact: bool, i: nat)
    requires Inv(h, exact) && i < |h.t.blocks|
    ensures var b, e := h.t.blocks[i], Reach(h.t.blocks[..i], h.base);
            && WellSized(b) && h.base <= e <= b.start && EndOf(b) <= HeapEnd(h) && (exact ==> e == b.start)
            && Reach(h.t.blocks[..i + 1], h.base) == EndOf(b)
            && b.size < REGION * PAGE
  {
    var bs := h.t.blocks;
    LaidAround(bs, i, i + 1, h.base, HeapEnd(h), exact);
    LaidBounds(bs[..i], h.base, Reach(bs[..i], h.base), exact);
    assert bs[i..i + 1] == [bs[i]];
    LaidOne(bs[i], Reach(bs[..i], h.base), Reach(bs[..i + 1], h.base), exact);
    LaidBounds(bs, h.base, HeapEnd(h), exact);
  }

  /** The invariant of a state with another table of the same extent. */
  lemma InvOf(h: Heap, h': Heap, t': Table, bs: seq<Blk>, exact: bool)
    requires Inv(h, exact) && h.t.blocks != [] && h'.base == h.base && h'.limit == h.limit && h'.usable == h.usable && h'.t == t'
    requires Listed(t', {}) && t'.blocks == bs && Laid(bs, h.base, HeapEnd(h), exact) && bs != [] && bs[0].start == h.t.blocks[0].start
    ensures Inv(h', exact)
  {
  }

  // ---------------------------------------------------------------- list steps

  /** A free block gets new fields and moves to the head of its new list. */
  lemma RebucketListed(t: Table, i: nat, size: nat, f: int)
    requires Listed(t, {}) && i < |t.blocks| && !t.blocks[i].status.Used? && 0 <= f < CLASSES
    ensures var b := t.blocks[i];
            var t' := AddFbl(SetBlk(RemFbl(t, i), i, size, b.status, f), i);
            Listed(t', {}) && t'.blocks == t.blocks[i := b.(size := size, fbl := f)]
  {
    var b := t.blocks[i];
    assert {} + {b.ptr} == {b.ptr} && {b.ptr} - {b.ptr} == {};
    RemFblListed(t, {}, i);
    SetBlkListed(RemFbl(t, i), {b.ptr}, i, size, b.status, f);
    AddFblListed(SetBlk(RemFbl(t, i), i, size, b.status, f), {b.ptr}, i);
  }

  lemma ExtendListed(t: Table, i: nat, rest: nat)
    requires Listed(t, {}) && i < |t.blocks| && 0 <= ClassOf(t.blocks[i].size + rest) < CLASSES
    ensures Listed(Extend(t, i, rest), {})
    ensures var b := t.blocks[i];
            Extend(t, i, rest).blocks == t.blocks[i := b.(size := b.size + rest, fbl := ClassOf(b.size + rest))]
  {
    var b, f := t.blocks[i], ClassOf(t.blocks[i].size + rest);
    if !b.status.Used? && b.fbl != f {
      RebucketListed(t, i, b.size + rest, f);
    } else {
      SetBlkListed(t, {}, i, b.size + rest, b.status, f);
    }
  }

  /** Block i leaves whichever list it is on, and then the GBL, of which it is the last entry. */
  lemma DropListed(t: Table)
    requires Listed(t, {}) && |t.blocks| > 0
    ensures Listed(DropTail(t), {}) && DropTail(t).blocks == t.blocks[..|t.blocks| - 1]
  {
    var n := |t.blocks| - 1;
    var p := t.blocks[n].ptr;
    if t.blocks[n].status.Used? { RemUblListed(t, n); } else { RemFblListed(t, {}, n); }
    assert {} + {p} == {p};
    var u := if t.blocks[n].status.Used? then RemUbl(t, n) else RemFbl(t, n);
    DropLastListed(u, {p});
    ListedDistinct(u, {p});
    DistinctSides(u.blocks, n, u.blocks[..n], u.blocks[n + 1..]);
    ListedUnion(DropLast(u), {p}, {p});
    assert {p} - {p} == {};
  }

  // ---------------------------------------------------------------- mergers

  /** After a merger the lists are in order, and the free neighbours have become one block. */
  lemma MergeListed(t: Table, i: nat)
    requires Listed(t, {}) && i < |t.blocks| && !t.blocks[i].status.Used?
    requires 0 <= MergedBlk(t.blocks, i).fbl < CLASSES
    ensures Listed(Merge(t, i), {})
    ensures Merge(t, i).blocks
            == t.blocks[..MergeLo(t.blocks, i)] + [MergedBlk(t.blocks, i)] + t.blocks[MergeHi(t.blocks, i)..]
  {
    JoinedListed(t, i, MergedBlk(t.blocks, i));
  }

  // ---------------------------------------------------------------- layout steps

  /** The end of the space may be moved down to where the blocks end. */
  lemma LaidTo(bs: seq<Blk>, at: nat, end: nat, end': nat, exact: bool)
    requires Laid(bs, at, end, exact) && Reach(bs, at) <= end' && (exact ==> Reach(bs, at) == end')
    ensures Laid(bs, at, end', exact)
  {
    LaidConcat(bs, [], at, end, exact);
    LaidConcat(bs, [], at, end', exact);
    assert bs + [] == bs;
  }

  /** Block i changed within the space up to its successor. */
  lemma LaidSet(bs: seq<Blk>, i: nat, b: Blk, at: nat, end: nat, exact: bool)
    requires Laid(bs, at, end, exact) && i < |bs| && WellSized(b) && b.start == bs[i].start && EndOf(b) == EndOf(bs[i])
    ensures Laid(bs[i := b], at, end, exact)
  {
    LaidAround(bs, i, i + 1, at, end, exact);
    assert bs[i..i + 1] == [bs[i]];
    LaidOne(bs[i], Reach(bs[..i], at), Reach(bs[..i + 1], at), exact);
    LaidOne(b, Reach(bs[..i], at), Reach(bs[..i + 1], at), exact);
    LaidReplace(bs, i, i + 1, [b], at, end, exact);
    assert bs[i := b] == bs[..i] + [b] + bs[i + 1..];
  }

  /** A used block at index i and a new block behind it in the space of block i. */
  lemma LaidSplit(bs: seq<Blk>, i: nat, b: Blk, c: Blk, at: nat, end: nat, exact: bool)
    requires Laid(bs, at, end, exact) && i < |bs| && WellSized(b) && WellSized(c)
    requires b.start == bs[i].start && EndOf(b) == c.start && EndOf(c) == EndOf(bs[i])
    ensures Laid(bs[..i] + [b, c] + bs[i + 1..], at, end, exact)
  {
    LaidAround(bs, i, i + 1, at, end, exact);
    assert bs[i..i + 1] == [bs[i]];
    var e, e' := Reach(bs[..i], at), Reach(bs[..i + 1], at);
    LaidOne(bs[i], e, e', exact);
    LaidOne(b, e, EndOf(b), exact);
    LaidOne(c, EndOf(b), e', exact);
    LaidConcat([b], [c], e, e', exact);
    assert [b] + [c] == [b, c];
    LaidReplace(bs, i, i + 1, [b, c], at, end, exact);
  }

  lemma ClassedSize(bs: seq<Blk>, b: Blk, at: nat, end: nat, exact: bool)
    requires Laid(bs, at, end, exact) && b in bs
    ensures WellSized(b) && 0 <= b.fbl < CLASSES
  {
    LaidBounds(bs, at, end, exact);
    ClassOfValid(b.size);
  }

  /** An address in the gap in front of block i is not the start of any block. */
  lemma FreshBetween(bs: seq<Blk>, at: nat, end: nat, i: nat, a: nat)
    requires Laid(bs, at, end, false) && i <= |bs|
    requires (i > 0 ==> EndOf(bs[i - 1]) <= a) && (i < |bs| ==> a < bs[i].start)
    ensures !Has(bs, a)
  {
    LaidBounds(bs, at, end, false);
    forall c | c in bs ensures c.ptr != a {
      var j :| 0 <= j < |bs| && bs[j] == c;
      if j < i - 1 { LaidOrdered(bs, at, end, false, j, i - 1); }
      if i < j { LaidOrdered(bs, at, end, false, i, j); }
    }
  }

  /** A new free block in the gap in front of block i. */
  lemma CreateListed(t: Table, i: nat, start: nat, sz: nat, status: Status, at: nat, end: nat)
    requires Listed(t, {}) && Laid(t.blocks, at, end, false) && i <= |t.blocks| && start > 0
    requires (i > 0 ==> EndOf(t.blocks[i - 1]) <= start) && (i < |t.blocks| ==> start < t.blocks[i].start)
    requires 0 <= ClassOf(sz) < CLASSES && !status.Used?
    ensures Listed(CreateTable(t, i, start, sz, status), {})
    ensures CreateTable(t, i, start, sz, status).blocks
            == t.blocks[..i] + [Blk(start, start, sz, status, ClassOf(sz))] + t.blocks[i..]
  {
    FreshBetween(t.blocks, at, end, i, start);
    NewFreeListed(t, i, Blk(start, start, sz, status, ClassOf(sz)));
  }

  lemma {:induction false} LooseRow(bs: seq<Blk>, at: nat, end: nat, exact: bool)
    requires InRow(bs, at, end, exact)
    ensures InRow(bs, at, end, false)
  {
    if bs != [] { LooseRow(bs[1..], EndOf(bs[0]), end, exact); }
  }

  lemma LaidLoose(bs: seq<Blk>, at: nat, end: nat, exact: bool)
    requires Laid(bs, at, end, exact)
    ensures Laid(bs, at, end, false)
  {
    LaidIff(bs, at, end, exact);
    LooseRow(bs, at, end, exact);
    LaidIff(bs, at, end, false);
  }

  /** Block i made smaller leaves a gap behind it. */
  lemma LaidSmaller(bs: seq<Blk>, i: nat, b: Blk, at: nat, end: nat, exact: bool)
    requires Laid(bs, at, end, exact) && i < |bs| && WellSized(b) && b.start == bs[i].start && EndOf(b) <= EndOf(bs[i])
    ensures Laid(bs[i := b], at, end, false)
    ensures i + 1 < |bs| ==> EndOf(bs[i]) <= bs[i + 1].start
  {
    LaidLoose(bs, at, end, exact);
    LaidAround(bs, i, i + 1, at, end, false);
    assert bs[i..i + 1] == [bs[i]];
    LaidOne(bs[i], Reach(bs[..i], at), Reach(bs[..i + 1], at), false);
    LaidOne(b, Reach(bs[..i], at), Reach(bs[..i + 1], at), false);
    LaidReplace(bs, i, i + 1, [b], at, end, false);
    assert bs[i := b] == bs[..i] + [b] + bs[i + 1..];
    if i + 1 < |bs| { LaidOrdered(bs, at, end, exact, i, i + 1); }
  }

  // ---------------------------------------------------------------- shrinking the heap

  lemma ShrinkSpace(s: nat, size: nat, e: nat, pages: nat)
    requires e % PAGE == 0 && s + HDR + size <= e && pages == (size + HDR) / PAGE && pages > 0
    ensures RoundUp(s) <= e - pages * PAGE && (e - pages * PAGE) % PAGE == 0
    ensures s + HDR + size == e ==> e - pages * PAGE == RoundUp(s)
  {
  }

  /** The blocks that remain: the predecessor of the last block may have grown. */
  function ShrunkBlocks(bs: seq<Blk>): seq<Blk>
    requires |bs| > 0
  {
    var n, rest := |bs| - 1, LastRest(bs);
    if rest == 0 then bs[..n]
    else bs[..n - 1] + [bs[n - 1].(size := bs[n - 1].size + rest, fbl := ClassOf(bs[n - 1].size + rest))]
  }

  lemma ShrinkTableListed(t: Table)
    requires Listed(t, {}) && |t.blocks| > 0
    requires forall b :: b in t.blocks ==> 0 < b.size < 0x4000_0000
    ensures Listed(ShrinkTable(t), {}) && ShrinkTable(t).blocks == ShrunkBlocks(t.blocks)
  {
    var n, rest := |t.blocks| - 1, LastRest(t.blocks);
    if rest > 0 {
      ClassOfValid(t.blocks[n - 1].size + rest);
      ExtendListed(t, n - 1, rest);
    }
    DropListed(ExtendPrev(t));
  }

  lemma ShrunkLaid(bs: seq<Blk>, at: nat, e: nat, exact: bool, pages: nat)
    requires Laid(bs, at, e, exact) && |bs| > 0 && e % PAGE == 0 && e < 0x8000_0000 + at
    requires pages == (bs[|bs| - 1].size + HDR) / PAGE && pages > 0 && at % PAGE == 0
    requires bs[0].start % PAGE == 0
    ensures at + pages * PAGE <= e && Laid(ShrunkBlocks(bs), at, e - pages * PAGE, exact)
  {
    var n, rest := |bs| - 1, LastRest(bs);
    var e' := Reach(bs[..n], at);
    LastAt(bs, at, e, exact);
    ShrinkSpace(bs[n].start, bs[n].size, e, pages);
    if rest == 0 {
      LaidTo(bs[..n], at, e', e - pages * PAGE, exact);
    } else {
      ExtendLast(bs[..n], at, e', e - pages * PAGE, exact, rest);
      assert bs[..n][..n - 1] == bs[..n - 1] && bs[..n][n - 1] == bs[n - 1];
    }
  }

  /** The last block and the space it leaves to the blocks in front of it. */
  lemma LastAt(bs: seq<Blk>, at: nat, e: nat, exact: bool)
    requires Laid(bs, at, e, exact) && |bs| > 0
    ensures var n := |bs| - 1;
            var e' := Reach(bs[..n], at);
            && Laid(bs[..n], at, e', exact)
            && at <= e' <= bs[n].start && EndOf(bs[n]) <= e
            && (exact ==> e' == bs[n].start && EndOf(bs[n]) == e)
  {
    var n := |bs| - 1;
    LaidAround(bs, n, n + 1, at, e, exact);
    assert bs[n..n + 1] == [bs[n]] && bs[..n + 1] == bs;
    LaidBounds(bs, at, e, exact);
    LaidBounds(bs[..n], at, Reach(bs[..n], at), exact);
    LaidOne(bs[n], Reach(bs[..n], at), Reach(bs, at), exact);
  }

  /** The last block grown by rest. */
  lemma ExtendLast(bs: seq<Blk>, at: nat, e: nat, e': nat, exact: bool, rest: nat)
    requires Laid(bs, at, e, exact) && |bs| > 0 && e == Reach(bs, at) && e + rest <= e' && (exact ==> e + rest == e')
    requires e' < 0x8000_0000 + at
    ensures var n := |bs| - 1;
            Laid(bs[..n] + [bs[n].(size := bs[n].size + rest, fbl := ClassOf(bs[n].size + rest))], at, e', exact)
  {
    var n := |bs| - 1;
    var p' := bs[n].(size := bs[n].size + rest, fbl := ClassOf(bs[n].size + rest));
    LaidAround(bs, n, n + 1, at, e, exact);
    assert bs[n..n + 1] == [bs[n]];
    LaidOne(bs[n], Reach(bs[..n], at), e, exact);
    LaidBounds(bs, at, e, exact);
    LaidOne(p', Reach(bs[..n], at), e', exact);
    LaidConcat(bs[..n], [p'], at, e', exact);
  }

  lemma ShrinkParts(h: Heap, pages: nat)
    requires |h.t.blocks| > 0 && pages == (h.t.blocks[|h.t.blocks| - 1].size + HDR) / PAGE && 0 < pages <= h.usable
    ensures var h' := Shrink(h);
            && h'.t == ShrinkTable(h.t) && h'.usable == h.usable - pages
            && h'.base == h.base && h'.limit == h.limit
            && h'.res == h.res - Span((HeapEnd(h) - pages * PAGE) / PAGE, pages)
  {
  }

  lemma ShrinkLaid(h: Heap, exact: bool)
    requires Inv(h, exact) && |h.t.blocks| > 0
    requires h.t.blocks[|h.t.blocks| - 1].size + HDR >= PAGE
    ensures Inv(Shrink(h), exact) && Shrink(h).t.blocks == ShrunkBlocks(h.t.blocks)
    ensures HeapEnd(Shrink(h)) == HeapEnd(h) - (h.t.blocks[|h.t.blocks| - 1].size + HDR) / PAGE * PAGE
  {
    var pages := (h.t.blocks[|h.t.blocks| - 1].size + HDR) / PAGE;
    LaidBounds(h.t.blocks, h.base, HeapEnd(h), exact);
    ShrinkTableListed(h.t);
    ShrunkLaid(h.t.blocks, h.base, HeapEnd(h), exact, pages);
    ShrinkParts(h, pages);
    assert h.base + h.usable * PAGE - pages * PAGE == h.base + (h.usable - pages) * PAGE;
  }

  lemma ShrinkInv(h: Heap, exact: bool)
    requires Inv(h, exact)
    ensures Inv(Shrink(h), exact)
  {
    if |h.t.blocks| > 0 && h.t.blocks[|h.t.blocks| - 1].size + HDR >= PAGE {
      ShrinkLaid(h, exact);
    }
  }

  // ---------------------------------------------------------------- cleaning and merging

  lemma CleanInv(h: Heap, i: nat, exact: bool)
    requires Inv(h, exact) && i < |h.t.blocks| && !h.t.blocks[i].status.Used?
    ensures Inv(Clean(h, i), exact)
    ensures Clean(h, i).t.blocks == h.t.blocks[i := h.t.blocks[i].(status := FreeEmpty)]
  {
    var b := h.t.blocks[i];
    ClassedSize(h.t.blocks, b, h.base, HeapEnd(h), exact);
    SetBlkListed(h.t, {}, i, b.size, FreeEmpty, b.fbl);
    LaidSet(h.t.blocks, i, b.(status := FreeEmpty), h.base, HeapEnd(h), exact);
  }

  /** The merged block takes exactly the space of the blocks it replaces, or less where they had gaps. */
  lemma MergedLaid(bs: seq<Blk>, i: nat, at: nat, end: nat, exact: bool)
    requires Laid(bs, at, end, exact) && i < |bs| && !bs[i].status.Used? && end < at + 0x4000_0000
    ensures var m := MergedBlk(bs, i);
            && WellSized(m) && !m.status.Used? && 0 <= m.fbl < CLASSES
            && Laid(bs[..MergeLo(bs, i)] + [m] + bs[MergeHi(bs, i)..], at, end, exact)
  {
    var lo, hi, m := MergeLo(bs, i), MergeHi(bs, i), MergedBlk(bs, i);
    var e, e' := Reach(bs[..lo], at), Reach(bs[..hi], at);
    LaidAround(bs, lo, hi, at, end, exact);
    LaidBounds(bs, at, end, exact);
    if lo < i { LaidOrdered(bs, at, end, exact, lo, i); }
    if i + 1 < hi { LaidOrdered(bs, at, end, exact, i, i + 1); }
    MergedSpace(bs, i, bs[lo..hi], e, e', exact);
    assert bs[lo] in bs && EndOf(m) <= end;
    ClassOfValid(m.size);
    LaidOne(m, e, e', exact);
    LaidReplace(bs, lo, hi, [m], at, end, exact);
  }

  lemma MergedSpace(bs: seq<Blk>, i: nat, cut: seq<Blk>, e: nat, e': nat, exact: bool)
    requires i < |bs| && cut == bs[MergeLo(bs, i)..MergeHi(bs, i)] && Laid(cut, e, e', exact)
    ensures var m := MergedBlk(bs, i);
            e <= m.start && EndOf(m) <= e' && (exact ==> e == m.start && EndOf(m) == e')
    ensures EndOf(MergedBlk(bs, i)) <= EndOf(bs[MergeHi(bs, i) - 1])
  {
    LaidWalk(cut, e, e', exact);
    assert cut[0] == bs[MergeLo(bs, i)];
    if |cut| > 1 { assert cut[1] == bs[MergeLo(bs, i) + 1]; }
    if |cut| > 2 { assert cut[2] == bs[MergeLo(bs, i) + 2]; }
  }

  /** Laid, unrolled for up to three blocks. */
  lemma LaidWalk(bs: seq<Blk>, at: nat, end: nat, exact: bool)
    requires Laid(bs, at, end, exact) && 0 < |bs| <= 3
    ensures at <= bs[0].start && (exact ==> at == bs[0].start)
    ensures |bs| > 1 ==> EndOf(bs[0]) <= bs[1].start && (exact ==> EndOf(bs[0]) == bs[1].start)
    ensures |bs| > 2 ==> EndOf(bs[1]) <= bs[2].start && (exact ==> EndOf(bs[1]) == bs[2].start)
    ensures EndOf(bs[|bs| - 1]) <= end && (exact ==> EndOf(bs[|bs| - 1]) == end)
  {
    LaidIff(bs, at, end, exact);
    LaidBounds(bs, at, end, exact);
    if |bs| > 1 {
      assert bs[1..][0] == bs[1] && InRow(bs[1..], EndOf(bs[0]), end, exact);
    }
    if |bs| > 2 {
      assert bs[1..][1..][0] == bs[2] && InRow(bs[1..][1..], EndOf(bs[1]), end, exact);
    }
  }

  lemma MergeInv(h: Heap, i: nat, exact: bool)
    requires Inv(h, exact) && i < |h.t.blocks| && !h.t.blocks[i].status.Used?
    ensures Inv(h.(t := Merge(h.t, i)), exact)
    ensures var bs := h.t.blocks;
            && Merge(h.t, i).blocks == bs[..MergeLo(bs, i)] + [MergedBlk(bs, i)] + bs[MergeHi(bs, i)..]
            && !MergedBlk(bs, i).status.Used? && MergeLo(bs, i) < |Merge(h.t, i).blocks|
  {
    MergedLaid(h.t.blocks, i, h.base, HeapEnd(h), exact);
    MergeListed(h.t, i);
  }

  lemma UnifyInv(h: Heap, i: nat, exact: bool)
    requires Inv(h, exact) && i < |h.t.blocks| && !h.t.blocks[i].status.Used?
    ensures Inv(Unify(h, i), exact)
  {
    if IsFreeAt(h.t.blocks, i - 1) || IsFreeAt(h.t.blocks, i + 1) {
      var h1 := h.(t := Merge(h.t, i));
      var lo := MergeLo(h.t.blocks, i);
      MergeInv(h, i, exact);
      if lo + 1 == |h1.t.blocks| { ShrinkInv(h1, exact); } else { CleanInv(h1, lo, exact); }
    }
  }

  // ---------------------------------------------------------------- splitting and growing

  lemma TakeInv(h: Heap, i: nat, exact: bool)
    requires Inv(h, exact) && i < |h.t.blocks| && !h.t.blocks[i].status.Used?
    ensures var b := h.t.blocks[i];
            var h' := TakeBlk(h, i, b.size, b.fbl);
            Inv(h', exact) && h'.t.blocks == h.t.blocks[i := b.(status := Used)]
  {
    var b := h.t.blocks[i];
    ClassedSize(h.t.blocks, b, h.base, HeapEnd(h), exact);
    TakeListed(h.t, i, b.size, b.fbl);
    LaidSet(h.t.blocks, i, b.(status := Used), h.base, HeapEnd(h), exact);
  }

  /** Block i cut down to sz bytes, a free block made of the rest. */
  ghost function CutOff(bs: seq<Blk>, i: nat, sz: nat, status: Status, rest: Status): seq<Blk>
    requires i < |bs| && bs[i].size > sz + HDR
  {
    var b := bs[i].(size := sz, status := status, fbl := ClassOf(sz));
    var start, size := DataOf(bs[i]) + sz, bs[i].size - sz - HDR;
    bs[..i] + [b, Blk(start, start, size, rest, ClassOf(size))] + bs[i + 1..]
  }

  lemma CutOffLaid(bs: seq<Blk>, i: nat, sz: nat, status: Status, rest: Status, at: nat, end: nat, exact: bool)
    requires Laid(bs, at, end, exact) && i < |bs| && 0 < sz && bs[i].size > sz + HDR
    ensures Laid(CutOff(bs, i, sz, status, rest), at, end, exact)
  {
    var b := bs[i].(size := sz, status := status, fbl := ClassOf(sz));
    var start, size := DataOf(bs[i]) + sz, bs[i].size - sz - HDR;
    LaidBounds(bs, at, end, exact);
    assert bs[i] in bs;
    LaidSplit(bs, i, b, Blk(start, start, size, rest, ClassOf(size)), at, end, exact);
  }

  /** The table with block i cut down and its rest linked behind it. */
  lemma CutOffListed(t: Table, bs: seq<Blk>, i: nat, sz: nat, status: Status, rest: Status, at: nat, end: nat, exact: bool, t': Table)
    requires Laid(bs, at, end, exact) && i < |bs| && 0 < sz && bs[i].size > sz + HDR && !rest.Used? && Listed(t, {})
    requires t.blocks == bs[i := bs[i].(size := sz, status := status, fbl := ClassOf(sz))]
    requires t' == CreateTable(t, i + 1, DataOf(bs[i]) + sz, bs[i].size - sz - HDR, rest)
    ensures Listed(t', {}) && t'.blocks == CutOff(bs, i, sz, status, rest)
  {
    var b := bs[i].(size := sz, status := status, fbl := ClassOf(sz));
    var start, size := DataOf(bs[i]) + sz, bs[i].size - sz - HDR;
    ClassedSize(bs, bs[i], at, end, exact);
    ClassOfValid(size);
    LaidSmaller(bs, i, b, at, end, exact);
    CreateListed(t, i + 1, start, size, rest, at, end);
    InsertAfterSet(bs, i, b, Blk(start, start, size, rest, ClassOf(size)));
  }

  lemma InsertAfterSet(bs: seq<Blk>, i: nat, b: Blk, c: Blk)
    requires i < |bs|
    ensures bs[i := b][..i + 1] + [c] + bs[i := b][i + 1..] == bs[..i] + [b, c] + bs[i + 1..]
  {
  }

  lemma CutOffFirst(bs: seq<Blk>, i: nat, sz: nat, status: Status, rest: Status)
    requires i < |bs| && bs[i].size > sz + HDR
    ensures var cs := CutOff(bs, i, sz, status, rest);
            && |cs| == |bs| + 1 && cs[0].start == bs[0].start
            && cs[i] == bs[i].(size := sz, status := status, fbl := ClassOf(sz))
            && cs[i + 1].start == DataOf(bs[i]) + sz && cs[i + 1].status == rest
  {
  }

  /** The blocks after a successful split. */
  ghost function SplitBlocks(bs: seq<Blk>, i: nat, sz: nat): seq<Blk>
    requires i < |bs|
  {
    if bs[i].size <= sz + HDR then bs[i := bs[i].(status := Used)] else CutOff(bs, i, sz, Used, bs[i].status)
  }

  ghost function SplitTable(t: Table, i: nat, sz: nat): Table
    requires i < |t.blocks| && t.blocks[i].size > sz + HDR
  {
    var b := t.blocks[i];
    CreateTable(TakeTable(t, i, sz, ClassOf(sz)), i + 1, DataOf(b) + sz, b.size - sz - HDR, b.status)
  }

  lemma SplitTableListed(t: Table, i: nat, sz: nat, at: nat, end: nat, exact: bool)
    requires Listed(t, {}) && Laid(t.blocks, at, end, exact)
    requires i < |t.blocks| && !t.blocks[i].status.Used? && 0 < sz && t.blocks[i].size > sz + HDR
    ensures Listed(SplitTable(t, i, sz), {})
    ensures SplitTable(t, i, sz).blocks == CutOff(t.blocks, i, sz, Used, t.blocks[i].status)
  {
    ClassedSize(t.blocks, t.blocks[i], at, end, exact);
    ClassOfValid(sz);
    TakeListed(t, i, sz, ClassOf(sz));
    var t1, t' := SplitTableIs(t, i, sz);
    CutOffListed(t1, t.blocks, i, sz, Used, t.blocks[i].status, at, end, exact, t');
  }

  lemma SplitTableIs(t: Table, i: nat, sz: nat) returns (t1: Table, t': Table)
    requires i < |t.blocks| && t.blocks[i].size > sz + HDR
    ensures t1 == TakeTable(t, i, sz, ClassOf(sz)) && t' == SplitTable(t, i, sz)
    ensures i + 1 <= |t1.blocks|
    ensures t' == CreateTable(t1, i + 1, DataOf(t.blocks[i]) + sz, t.blocks[i].size - sz - HDR, t.blocks[i].status)
  {
    t1, t' := TakeTable(t, i, sz, ClassOf(sz)), SplitTable(t, i, sz);
  }

  lemma SplitParts(h: Heap, i: nat, sz: nat, ok: bool)
    requires i < |h.t.blocks| && h.t.blocks[i].size > sz + HDR && Split(h, i, sz, ok).Some?
    ensures var h' := Split(h, i, sz, ok).value;
            h'.t == SplitTable(h.t, i, sz) && h'.base == h.base && h'.limit == h.limit && h'.usable == h.usable
  {
  }

  lemma SplitInv(h: Heap, i: nat, sz: nat, ok: bool, exact: bool)
    requires Inv(h, exact) && i < |h.t.blocks| && !h.t.blocks[i].status.Used? && 0 < sz
    requires Split(h, i, sz, ok).Some?
    ensures var h' := Split(h, i, sz, ok).value;
            && Inv(h', exact) && HeapEnd(h') == HeapEnd(h)
            && h'.t.blocks == SplitBlocks(h.t.blocks, i, sz)
            && i < |h'.t.blocks| && h'.t.blocks[i].start == h.t.blocks[i].start && h'.t.blocks[i].status.Used?
  {
    if h.t.blocks[i].size <= sz + HDR {
      TakeInv(h, i, exact);
    } else {
      SplitCutInv(h, i, sz, ok, exact);
    }
  }

  lemma SplitCutInv(h: Heap, i: nat, sz: nat, ok: bool, exact: bool)
    requires Inv(h, exact) && i < |h.t.blocks| && !h.t.blocks[i].status.Used? && 0 < sz && h.t.blocks[i].size > sz + HDR
    requires Split(h, i, sz, ok).Some?
    ensures var h' := Split(h, i, sz, ok).value;
            && Inv(h', exact) && HeapEnd(h') == HeapEnd(h)
            && h'.t.blocks == CutOff(h.t.blocks, i, sz, Used, h.t.blocks[i].status)
            && i < |h'.t.blocks| && h'.t.blocks[i].start == h.t.blocks[i].start && h'.t.blocks[i].status.Used?
  {
    SplitParts(h, i, sz, ok);
    SplitTableListed(h.t, i, sz, h.base, HeapEnd(h), exact);
    CutOffLaid(h.t.blocks, i, sz, Used, h.t.blocks[i].status, h.base, HeapEnd(h), exact);
    CutOffFirst(h.t.blocks, i, sz, Used, h.t.blocks[i].status);
  }

  lemma GrowInv(h: Heap, n: nat, ok: bool, exact: bool)
    requires Inv(h, exact) && Grow(h, n, ok).Some?
    ensures var h' := Grow(h, n, ok).value;
            && Inv(h', exact)
            && h'.t.blocks == h.t.blocks + [GrownBlk(h, n)] && HeapEnd(h') == EndOf(GrownBlk(h, n))
            && h'.usable > h.usable
  {
    var pages := Pages(n);
    assert h.base + (h.usable + pages) * PAGE == HeapEnd(h) + pages * PAGE;
    GrowTableInv(h.t, GrownBlk(h, n), h.base, HeapEnd(h), exact);
  }

  /** The block lib_grow_heap adds for a request of n bytes. */
  function GrownBlk(h: Heap, n: nat): Blk {
    var size := if n == 0 then 0 else Pages(n) * PAGE - HDR;
    Blk(HeapEnd(h), HeapEnd(h), size, Free, ClassOf(size))
  }

  lemma GrowTableInv(t: Table, b: Blk, at: nat, end: nat, exact: bool)
    requires Listed(t, {}) && Laid(t.blocks, at, end, exact)
    requires WellSized(b) && b.start == end && end > 0 && !b.status.Used?
    ensures var t' := CreateTable(t, |t.blocks|, b.start, b.size, b.status);
            Listed(t', {}) && t'.blocks == t.blocks + [b] && Laid(t'.blocks, at, EndOf(b), exact)
  {
    var bs := t.blocks;
    ClassOfValid(b.size);
    LaidBounds(bs, at, end, exact);
    assert bs[..|bs|] == bs && bs[|bs|..] == [];
    if bs != [] { LastAt(bs, at, end, exact); }
    LaidLoose(bs, at, end, exact);
    CreateListed(t, |bs|, b.start, b.size, b.status, at, end);
    LaidTo(bs, at, end, Reach(bs, at), exact);
    LaidOne(b, Reach(bs, at), EndOf(b), exact);
    LaidConcat(bs, [b], at, EndOf(b), exact);
  }
}
