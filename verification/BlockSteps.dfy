/**
 Steps that both allocators build from the list operations: taking a free block, releasing a
 used one, linking a new one and joining free neighbours.  Each exists as a function on
 `Table`, a lemma that it keeps the lists in order, and a method on the linked lists.
 */
module BlockSteps {
  import opened BlockLists
  import opened BlockTables

  // ---------------------------------------------------------------- steps on values

  /** Free block i becomes a used block of the given size. */
  ghost function TakeTable(t: Table, i: nat, size: nat, fbl: int): Table
    requires i < |t.blocks|
  {
    AddUbl(SetBlk(RemFbl(t, i), i, size, Used, fbl), i)
  }

  /** Used block i becomes free and goes to the head of its free list. */
  function Release(t: Table, i: nat): Table
    requires i < |t.blocks|
  {
    var b := t.blocks[i];
    AddFbl(SetBlk(RemUbl(t, i), i, b.size, Free, b.fbl), i)
  }

  /** A new free block at position i of the GBL and at the head of its free list. */
  function NewFree(t: Table, i: nat, b: Blk): Table
    requires i <= |t.blocks|
  {
    AddFbl(InsertBlk(t, i, b), i)
  }

  function IsFreeAt(bs: seq<Blk>, i: int): bool {
    0 <= i < |bs| && !bs[i].status.Used?
  }

  /** The first block of the merger around free block i, and the first block behind it. */
  function MergeLo(bs: seq<Blk>, i: nat): nat {
    if IsFreeAt(bs, i - 1) then i - 1 else i
  }

  function MergeHi(bs: seq<Blk>, i: nat): nat {
    if IsFreeAt(bs, i + 1) then i + 2 else i + 1
  }

  /** Free block i and its free neighbours off their lists. */
  function MergeOff(t: Table, i: nat): Table
    requires i < |t.blocks|
  {
    var t1 := if IsFreeAt(t.blocks, i - 1) then RemFbl(t, i - 1) else t;
    var t2 := if IsFreeAt(t.blocks, i + 1) then RemFbl(t1, i + 1) else t1;
    RemFbl(t2, i)
  }

  /** Free block i and its free neighbours replaced by the one free block m. */
  function Joined(t: Table, i: nat, m: Blk): Table
    requires i < |t.blocks|
  {
    var lo := MergeLo(t.blocks, i);
    AddFbl(CutBlks(SetBlk(MergeOff(t, i), lo, m.size, m.status, m.fbl), lo, MergeHi(t.blocks, i)), lo)
  }

  // ---------------------------------------------------------------- they keep the lists in order

  lemma TakeListed(t: Table, i: nat, size: nat, fbl: int)
    requires Listed(t, {}) && i < |t.blocks| && !t.blocks[i].status.Used? && 0 <= fbl < CLASSES
    ensures Listed(TakeTable(t, i, size, fbl), {})
    ensures TakeTable(t, i, size, fbl).blocks == t.blocks[i := t.blocks[i].(size := size, status := Used, fbl := fbl)]
  {
    var p := t.blocks[i].ptr;
    RemFblListed(t, {}, i);
    assert {} + {p} == {p};
    SetBlkListed(RemFbl(t, i), {p}, i, size, Used, fbl);
    AddUblListed(SetBlk(RemFbl(t, i), i, size, Used, fbl), i);
  }

  lemma ReleaseListed(t: Table, i: nat)
    requires Listed(t, {}) && i < |t.blocks| && t.blocks[i].status.Used?
    ensures Listed(Release(t, i), {})
    ensures Release(t, i).blocks == t.blocks[i := t.blocks[i].(status := Free)]
  {
    var b := t.blocks[i];
    ListedAt(t, {}, i);
    RemUblListed(t, i);
    SetBlkListed(RemUbl(t, i), {b.ptr}, i, b.size, Free, b.fbl);
    AddFblListed(SetBlk(RemUbl(t, i), i, b.size, Free, b.fbl), {b.ptr}, i);
    assert {b.ptr} - {b.ptr} == {};
  }

  lemma NewFreeListed(t: Table, i: nat, b: Blk)
    requires Listed(t, {}) && i <= |t.blocks| && b.ptr != NULL && !Has(t.blocks, b.ptr)
    requires 0 <= b.fbl < CLASSES && !b.status.Used?
    ensures Listed(NewFree(t, i, b), {}) && NewFree(t, i, b).blocks == t.blocks[..i] + [b] + t.blocks[i..]
  {
    assert {} + {b.ptr} == {b.ptr} && {b.ptr} - {b.ptr} == {};
    InsertBlkListed(t, {}, i, b);
    AddFblListed(InsertBlk(t, i, b), {b.ptr}, i);
  }

  /** A free block marked used without leaving its free list breaks the list invariant. */
  lemma UsedOnFreeList(t: Table, i: nat)
    requires Listed(t, {}) && i < |t.blocks| && !t.blocks[i].status.Used?
    ensures var b := t.blocks[i]; !Listed(SetBlk(t, i, b.size, Used, b.fbl), {})
  {
    var b := t.blocks[i];
    var t' := SetBlk(t, i, b.size, Used, b.fbl);
    Unfold(t, {});
    assert OnItsFbl(b, t.fbl, {}) && OnFbl(b, b.fbl, {});
    assert t'.blocks[i] in t'.blocks && b.ptr in t'.fbl[b.fbl];
    assert !OnFbl(t'.blocks[i], b.fbl, {}) && !OnItsFbl(t'.blocks[i], t'.fbl, {});
    if Listed(t', {}) { Unfold(t', {}); }
  }

  lemma PtrsOfConcat(a: seq<Blk>, c: seq<Blk>)
    ensures PtrsOf(a + c) == PtrsOf(a) + PtrsOf(c)
  {
    assert forall b :: b in a + c <==> b in a || b in c;
  }

  lemma PtrsOfOne(b: Blk)
    ensures PtrsOf([b]) == {b.ptr}
  {
    assert b in [b];
  }

  lemma PtrsOfSlice(bs: seq<Blk>, i: nat)
    requires i < |bs|
    ensures PtrsOf(bs[i..i + 1]) == {bs[i].ptr}
  {
    assert bs[i..i + 1] == [bs[i]];
    PtrsOfOne(bs[i]);
  }

  lemma PtrsOfRange(bs: seq<Blk>, lo: nat, hi: nat)
    requires lo <= hi < |bs|
    ensures PtrsOf(bs[lo..hi + 1]) == PtrsOf(bs[lo..hi]) + {bs[hi].ptr}
    ensures PtrsOf(bs[hi..hi + 1]) == {bs[hi].ptr}
  {
    assert bs[lo..hi + 1] == bs[lo..hi] + bs[hi..hi + 1];
    PtrsOfConcat(bs[lo..hi], bs[hi..hi + 1]);
    PtrsOfSlice(bs, hi);
  }

  /** The pointers of the blocks that take part in the merger around i. */
  lemma MergePtrs(bs: seq<Blk>, i: nat)
    requires i < |bs|
    ensures var X1: set<Ptr> := if IsFreeAt(bs, i - 1) then {bs[i - 1].ptr} else {};
            var X2 := if IsFreeAt(bs, i + 1) then X1 + {bs[i + 1].ptr} else X1;
            X2 + {bs[i].ptr} == PtrsOf(bs[MergeLo(bs, i)..MergeHi(bs, i)])
  {
    var lo := MergeLo(bs, i);
    PtrsOfRange(bs, lo, i);
    if i > 0 { PtrsOfRange(bs, i - 1, i - 1); }
    if IsFreeAt(bs, i + 1) { PtrsOfRange(bs, lo, i + 1); }
  }

  lemma MergeOffListed(t: Table, i: nat)
    requires Listed(t, {}) && i < |t.blocks| && !t.blocks[i].status.Used?
    ensures Listed(MergeOff(t, i), PtrsOf(t.blocks[MergeLo(t.blocks, i)..MergeHi(t.blocks, i)]))
    ensures MergeOff(t, i).blocks == t.blocks
  {
    var bs := t.blocks;
    var X1: set<Ptr> := if IsFreeAt(bs, i - 1) then {bs[i - 1].ptr} else {};
    var X2 := if IsFreeAt(bs, i + 1) then X1 + {bs[i + 1].ptr} else X1;
    var t1 := if IsFreeAt(bs, i - 1) then RemFbl(t, i - 1) else t;
    var t2 := if IsFreeAt(bs, i + 1) then RemFbl(t1, i + 1) else t1;
    assert {} + X1 == X1;
    if IsFreeAt(bs, i - 1) { RemFblListed(t, {}, i - 1); }
    if IsFreeAt(bs, i + 1) { RemFblListed(t1, X1, i + 1); }
    RemFblListed(t2, X2, i);
    MergePtrs(bs, i);
  }

  /** Blocks lo to hi-1, all off the lists, become the one free block m. */
  lemma MergeOnListed(t: Table, X: set<Ptr>, lo: nat, hi: nat, m: Blk)
    requires lo < hi <= |t.blocks| && Listed(t, X) && X == PtrsOf(t.blocks[lo..hi])
    requires m.ptr == t.blocks[lo].ptr && m.start == t.blocks[lo].start && !m.status.Used? && 0 <= m.fbl < CLASSES
    ensures var t' := AddFbl(CutBlks(SetBlk(t, lo, m.size, m.status, m.fbl), lo, hi), lo);
            Listed(t', {}) && t'.blocks == t.blocks[..lo] + [m] + t.blocks[hi..]
  {
    var t4 := SetBlk(t, lo, m.size, m.status, m.fbl);
    RangeMembers(t.blocks, lo, hi);
    SetBlkListed(t, X, lo, m.size, m.status, m.fbl);
    CutBlksListed(t4, X, lo, hi);
    var t5 := CutBlks(t4, lo, hi);
    assert t5.blocks == t.blocks[..lo] + [m] + t.blocks[hi..];
    ListedDistinct(t, X);
    MergedPtrs(t.blocks, lo, hi, t5.blocks, m, X);
    MergedOn(t5, X, lo, m);
  }

  lemma MergedOn(t: Table, X: set<Ptr>, lo: nat, m: Blk)
    requires Listed(t, X) && lo < |t.blocks| && t.blocks[lo] == m && !m.status.Used? && m.ptr in X
    requires forall c :: c in t.blocks ==> c.ptr !in X - {m.ptr}
    ensures Listed(AddFbl(t, lo), {})
  {
    AddFblListed(t, X, lo);
    ListedUnion(AddFbl(t, lo), X - {m.ptr}, X - {m.ptr});
    assert (X - {m.ptr}) - (X - {m.ptr}) == {};
  }

  lemma RangeMembers(bs: seq<Blk>, lo: nat, hi: nat)
    requires lo <= hi <= |bs|
    ensures forall k :: lo <= k < hi ==> bs[k].ptr in PtrsOf(bs[lo..hi])
  {
    forall k | lo <= k < hi ensures bs[k].ptr in PtrsOf(bs[lo..hi]) {
      assert bs[lo..hi][k - lo] == bs[k];
      assert bs[k] in bs[lo..hi];
    }
  }

  lemma MergedPtrs(bs: seq<Blk>, lo: nat, hi: nat, cs: seq<Blk>, m: Blk, X: set<Ptr>)
    requires Distinct(bs) && lo < hi <= |bs| && X == PtrsOf(bs[lo..hi]) && m.ptr == bs[lo].ptr
    requires cs == bs[..lo] + [m] + bs[hi..]
    ensures forall c :: c in cs ==> c.ptr !in X - {m.ptr}
  {
    forall c | c in cs && c != m ensures c.ptr !in X {
      var l :| 0 <= l < |cs| && cs[l] == c;
      NotWithin(bs, lo, hi, if l < lo then l else l + (hi - lo - 1));
    }
  }

  /** After a merger the lists are in order, and the free neighbours have become one block. */
  lemma JoinedListed(t: Table, i: nat, m: Blk)
    requires Listed(t, {}) && i < |t.blocks| && !t.blocks[i].status.Used? && !m.status.Used? && 0 <= m.fbl < CLASSES
    requires m.ptr == t.blocks[MergeLo(t.blocks, i)].ptr && m.start == t.blocks[MergeLo(t.blocks, i)].start
    ensures Listed(Joined(t, i, m), {})
    ensures Joined(t, i, m).blocks == t.blocks[..MergeLo(t.blocks, i)] + [m] + t.blocks[MergeHi(t.blocks, i)..]
  {
    var bs := t.blocks;
    var lo, hi := MergeLo(bs, i), MergeHi(bs, i);
    MergeOffListed(t, i);
    MergeOnListed(MergeOff(t, i), PtrsOf(bs[lo..hi]), lo, hi, m);
  }

  // ---------------------------------------------------------------- steps on the linked lists

  /** tb.Valid() kept folded, as Listed is; Open unfolds it. */
  ghost predicate Folded(tb: BlockTable)
    reads tb, tb.free
  {
    forall k: Key {:trigger Turned(k)} :: Turned(k) ==> tb.Valid()
  }

  ghost predicate Sound(tb: BlockTable)
    reads tb, tb.free
  {
    Folded(tb) && tb.detached == {}
  }

  lemma Open(tb: BlockTable)
    requires Folded(tb)
    ensures tb.Valid()
  {
    assert Turned(Key);
  }

  /** The descriptor of block i and its GBL neighbours. */
  lemma LookAt(tb: BlockTable, i: int)
    requires Folded(tb) && 0 <= i < |tb.t.blocks|
    ensures var p := tb.t.blocks[i].ptr;
            && p in tb.mem && p != NULL && Describes(tb.mem[p], tb.t.blocks[i])
            && tb.mem[p].gp == PtrAt(tb.t.blocks, i - 1) && tb.mem[p].gn == PtrAt(tb.t.blocks, i + 1)
  {
    Open(tb);
    tb.Look(i);
  }

  /** A free block is marked used, given its size, and moved from its free list to the UBL. */
  method Take(tb: BlockTable, p: Ptr, size: nat, fbl: int, ghost i: nat)
    requires Sound(tb) && i < |tb.t.blocks| && tb.t.blocks[i].ptr == p && !tb.t.blocks[i].status.Used?
    requires Ascending(tb.t.blocks) && 0 <= fbl < CLASSES
    modifies tb, tb.free
    ensures Sound(tb) && tb.t == TakeTable(old(tb.t), i, size, fbl)
  {
    Open(tb);
    tb.RemoveFromFbl(p, i);
    assert {} + {p} == {p};
    tb.SetFields(p, i, size, Used, fbl);
    tb.AddToUbl(p, i);
  }

  /** A used block is marked free and moved from the UBL to the head of its free list. */
  method GiveBack(tb: BlockTable, p: Ptr, ghost i: nat)
    requires Sound(tb) && i < |tb.t.blocks| && tb.t.blocks[i].ptr == p && tb.t.blocks[i].status.Used?
    modifies tb, tb.free
    ensures Sound(tb) && tb.t == Release(old(tb.t), i)
  {
    LookAt(tb, i);
    Open(tb);
    ListedAt(tb.t, {}, i);
    var size, fbl := tb.mem[p].size, tb.mem[p].fbl;
    tb.RemoveFromUbl(p, i);
    tb.SetFields(p, i, size, Free, fbl);
    tb.AddToFbl(p, i);
    assert {p} - {p} == {};
  }

  /** A new free block p behind block i - 1. */
  method LinkFree(tb: BlockTable, p: Ptr, start: nat, size: nat, status: Status, prev: Ptr, ghost i: nat)
    requires Sound(tb) && i <= |tb.t.blocks| && prev == PtrAt(tb.t.blocks, i - 1) && (prev == NULL ==> tb.t.blocks == [])
    requires p != NULL && !Has(tb.t.blocks, p) && !status.Used? && 0 < size < 0x8000_0000
    modifies tb, tb.free
    ensures Sound(tb) && tb.t == NewFree(old(tb.t), i, Blk(p, start, size, status, ClassOf(size)))
  {
    var fbl := GetRightFbl(size);
    ClassOfValid(size);
    Open(tb);
    tb.LinkGbl(p, start, size, status, fbl, prev, i);
    assert {} + {p} == {p};
    tb.AddToFbl(p, i);
    assert {p} - {p} == {};
  }

  /**
   The block handed out is marked used.  Where it already is, nothing changes; where it is
   still on a free list, the lists stay linked but no longer agree with the marks.
   */
  method MarkUsed(tb: BlockTable, p: Ptr, ghost i: nat)
    requires Sound(tb) && i < |tb.t.blocks| && tb.t.blocks[i].ptr == p
    modifies tb
    ensures var b := old(tb.t).blocks[i]; tb.Shape() && tb.t == SetBlk(old(tb.t), i, b.size, Used, b.fbl)
    ensures old(tb.t).blocks[i].status.Used? ==> Sound(tb) && tb.t == old(tb.t)
  {
    LookAt(tb, i);
    Open(tb);
    ghost var b := tb.t.blocks[i];
    ListedDistinct(tb.t, {});
    LinkedSetBlk(tb.mem, tb.t, tb.last, tb.used, tb.free[..], i, b.size, Used, b.fbl);
    assert b.status.Used? ==> tb.t.blocks == SetBlk(tb.t, i, b.size, Used, b.fbl).blocks;
    tb.mem := tb.mem[p := tb.mem[p].(status := Used)];
    tb.t := SetBlk(tb.t, i, b.size, Used, b.fbl);
  }

  /** Block i and its free neighbours taken off their free lists. */
  method TakeOff(tb: BlockTable, p: Ptr, prev: Ptr, next: Ptr, ghost i: nat)
    requires Sound(tb) && i < |tb.t.blocks| && tb.t.blocks[i].ptr == p && !tb.t.blocks[i].status.Used?
    requires prev == if IsFreeAt(tb.t.blocks, i - 1) then tb.t.blocks[i - 1].ptr else NULL
    requires next == if IsFreeAt(tb.t.blocks, i + 1) then tb.t.blocks[i + 1].ptr else NULL
    modifies tb, tb.free
    ensures Folded(tb) && tb.t == MergeOff(old(tb.t), i)
    ensures tb.t.blocks == old(tb.t).blocks
    ensures tb.detached == PtrsOf(tb.t.blocks[MergeLo(tb.t.blocks, i)..MergeHi(tb.t.blocks, i)])
  {
    NeighboursDiffer(tb, i);
    MergePtrs(tb.t.blocks, i);
    RemoveIf(tb, prev, i - 1);
    RemoveIf(tb, next, i + 1);
    RemoveIf(tb, p, i);
  }

  method RemoveIf(tb: BlockTable, p: Ptr, ghost k: int)
    requires Folded(tb) && p !in tb.detached
    requires p != NULL ==> 0 <= k < |tb.t.blocks| && tb.t.blocks[k].ptr == p && !tb.t.blocks[k].status.Used?
    modifies tb, tb.free
    ensures Folded(tb) && tb.t == (if p != NULL then RemFbl(old(tb.t), k) else old(tb.t))
    ensures tb.detached == if p != NULL then old(tb.detached) + {p} else old(tb.detached)
  {
    Open(tb);
    if p != NULL { tb.RemoveFromFbl(p, k); }
  }

  lemma NeighboursDiffer(tb: BlockTable, i: nat)
    requires Folded(tb) && i < |tb.t.blocks|
    ensures var bs := tb.t.blocks;
            && bs[i].ptr != NULL
            && (i > 0 ==> bs[i - 1].ptr != NULL && bs[i - 1].ptr != bs[i].ptr)
            && (i + 1 < |bs| ==> bs[i + 1].ptr != NULL && bs[i + 1].ptr != bs[i].ptr)
            && (0 < i && i + 1 < |bs| ==> bs[i - 1].ptr != bs[i + 1].ptr)
  {
    Open(tb);
    ListedDistinct(tb.t, tb.detached);
    LookAt(tb, i);
    if i > 0 { LookAt(tb, i - 1); }
    if i + 1 < |tb.t.blocks| { LookAt(tb, i + 1); }
  }

  /** The detached blocks lo to hi-1 become one free block, at the head of its free list. */
  method PutOn(tb: BlockTable, p: Ptr, next: Ptr, dropped: set<Ptr>, size: nat, status: Status, fbl: int, ghost lo: nat, ghost hi: nat)
    requires Folded(tb) && lo < hi <= |tb.t.blocks| && tb.t.blocks[lo].ptr == p && next == PtrAt(tb.t.blocks, hi)
    requires tb.detached == PtrsOf(tb.t.blocks[lo..hi]) && dropped == tb.detached - {p}
    requires !status.Used? && 0 <= fbl < CLASSES
    modifies tb, tb.free
    ensures Sound(tb) && tb.t == AddFbl(CutBlks(SetBlk(old(tb.t), lo, size, status, fbl), lo, hi), lo)
  {
    DroppedPtrs(tb, lo, hi);
    SetAny(tb, p, lo, size, status, fbl);
    SetKeepsPtrs(old(tb.t), tb.t, lo, hi, size, status, fbl);
    CutAndAdd(tb, p, next, dropped, lo, hi);
  }

  method SetAny(tb: BlockTable, p: Ptr, ghost i: nat, size: nat, status: Status, fbl: int)
    requires Folded(tb) && i < |tb.t.blocks| && tb.t.blocks[i].ptr == p && 0 <= fbl < CLASSES && p in tb.detached
    modifies tb
    ensures Folded(tb) && tb.t == SetBlk(old(tb.t), i, size, status, fbl) && tb.detached == old(tb.detached)
  {
    Open(tb);
    tb.SetFields(p, i, size, status, fbl);
  }

  method CutAndAdd(tb: BlockTable, p: Ptr, next: Ptr, dropped: set<Ptr>, ghost lo: nat, ghost hi: nat)
    requires Folded(tb) && lo < hi <= |tb.t.blocks| && tb.t.blocks[lo].ptr == p && next == PtrAt(tb.t.blocks, hi)
    requires dropped == PtrsOf(tb.t.blocks[lo + 1..hi]) && p !in dropped && tb.detached == {p} + dropped
    requires !tb.t.blocks[lo].status.Used?
    modifies tb, tb.free
    ensures Sound(tb) && tb.t == AddFbl(CutBlks(old(tb.t), lo, hi), lo)
  {
    Open(tb);
    tb.CutGblAfter(p, next, dropped, lo, hi);
    assert {p} + dropped - dropped == {p};
    AddBack(tb, p, lo);
  }

  method AddBack(tb: BlockTable, p: Ptr, ghost i: nat)
    requires Folded(tb) && i < |tb.t.blocks| && tb.t.blocks[i].ptr == p && !tb.t.blocks[i].status.Used? && tb.detached == {p}
    modifies tb, tb.free
    ensures Sound(tb) && tb.t == AddFbl(old(tb.t), i)
  {
    Open(tb);
    assert {p} - {p} == {};
    tb.AddToFbl(p, i);
  }

  lemma DroppedPtrs(tb: BlockTable, lo: nat, hi: nat)
    requires Folded(tb) && lo < hi <= |tb.t.blocks|
    ensures var bs := tb.t.blocks;
            && bs[lo].ptr !in PtrsOf(bs[lo + 1..hi])
            && PtrsOf(bs[lo..hi]) == {bs[lo].ptr} + PtrsOf(bs[lo + 1..hi])
  {
    Open(tb);
    var bs := tb.t.blocks;
    ListedDistinct(tb.t, tb.detached);
    NotCut(bs, lo, hi, lo);
    assert bs[lo..hi] == [bs[lo]] + bs[lo + 1..hi];
    PtrsOfConcat([bs[lo]], bs[lo + 1..hi]);
    PtrsOfOne(bs[lo]);
  }

  lemma SetKeepsPtrs(t: Table, t': Table, lo: nat, hi: nat, size: nat, status: Status, fbl: int)
    requires lo < hi <= |t.blocks| && t' == SetBlk(t, lo, size, status, fbl)
    ensures t'.blocks[lo + 1..hi] == t.blocks[lo + 1..hi] && PtrAt(t'.blocks, hi) == PtrAt(t.blocks, hi)
  {
  }

  /** Free block i and its free neighbours become the one free block m. */
  method Join(tb: BlockTable, p: Ptr, prev: Ptr, next: Ptr, size: nat, status: Status, ghost i: nat, ghost m: Blk) returns (q: Ptr)
    requires Sound(tb) && i < |tb.t.blocks| && tb.t.blocks[i].ptr == p && !tb.t.blocks[i].status.Used?
    requires prev == if IsFreeAt(tb.t.blocks, i - 1) then tb.t.blocks[i - 1].ptr else NULL
    requires next == if IsFreeAt(tb.t.blocks, i + 1) then tb.t.blocks[i + 1].ptr else NULL
    requires !status.Used? && 0 < size < 0x8000_0000 && m.size == size && m.status == status && m.fbl == ClassOf(size)
    modifies tb, tb.free
    ensures Sound(tb) && q == old(tb.t).blocks[MergeLo(old(tb.t).blocks, i)].ptr
    ensures tb.t == Joined(old(tb.t), i, m)
  {
    ghost var bs := tb.t.blocks;
    ghost var lo, hi := MergeLo(bs, i), MergeHi(bs, i);
    NeighboursDiffer(tb, i);
    MergePtrs(bs, i);
    LookAt(tb, hi - 1);
    q := if prev != NULL then prev else p;
    var new_n := if next != NULL then tb.mem[next].gn else tb.mem[p].gn;
    var dropped := (if prev != NULL then {p} else {}) + (if next != NULL then {next} else {});
    assert dropped == PtrsOf(bs[lo..hi]) - {q};
    var fbl := GetRightFbl(size);
    ClassOfValid(size);
    TakeOff(tb, p, prev, next, i);
    PutOn(tb, q, new_n, dropped, size, status, fbl, lo, hi);
  }
}
