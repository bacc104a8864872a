/**
 mem_realloc: which outcomes it has and when, and that the block it returns is large
 enough and holds the old bytes, whichever of its branches ran.
 */
module HeapRealloc {
  import opened BlockLists
  import opened BlockTables
  import opened BlockSteps
  import opened BestFit
  import opened HeapSpec
  import opened HeapInv
  import opened HeapOps
  import opened HeapKeep

  // ---------------------------------------------------------------- mem_alloc and mem_free keep the others

  lemma AllocPreserves(h: Heap, sz: nat, ok: bool, exact: bool)
    requires Inv(h, exact) && MemAlloc(h, sz, ok).Got?
    ensures var (h', adr) := (MemAlloc(h, sz, ok).h, MemAlloc(h, sz, ok).adr);
            && Preserves(h, h', 0)
            && forall b :: b in h.t.blocks && b.status.Used? ==> DataOf(b) != adr
  {
    FindInv(h, sz, ok, exact);
    match FindFreeWithin(h, sz, ok) {
      case Taken(h', i) =>
        FindPreserves(h, sz, ok, exact);
        OthersStart(h, exact, i);
      case NoFit =>
        GrownPreserves(h, sz, ok, exact);
      case _ =>
    }
  }

  lemma OthersStart(h: Heap, exact: bool, i: nat)
    requires Inv(h, exact) && i < |h.t.blocks| && !h.t.blocks[i].status.Used?
    ensures forall b :: b in h.t.blocks && b.status.Used? ==> DataOf(b) != DataOf(h.t.blocks[i])
  {
    forall b | b in h.t.blocks && b.status.Used? ensures b.start != h.t.blocks[i].start {
      BlocksApart(h, exact, i, b);
    }
  }

  lemma GrownPreserves(h: Heap, sz: nat, ok: bool, exact: bool)
    requires Inv(h, exact) && 0 < sz && Grow(h, sz + HDR, ok).Some?
    ensures var r := Split(Grow(h, sz + HDR, ok).value, |h.t.blocks|, sz, ok); r.Some? && Preserves(h, r.value, 0)
    ensures forall b :: b in h.t.blocks && b.status.Used? ==> DataOf(b) != HeapEnd(h) + HDR
  {
    InvClassed(h, exact);
    GrownServes(h, sz, ok, exact);
    GrowInv(h, sz + HDR, ok, exact);
    var g := Grow(h, sz + HDR, ok).value;
    GrowPreserves(h, sz + HDR, ok, exact);
    SplitPreserves(g, |h.t.blocks|, sz, ok, exact);
    PreservesTrans(h, g, Split(g, |h.t.blocks|, sz, ok).value, 0);
  }

  lemma FindPreserves(h: Heap, sz: nat, ok: bool, exact: bool)
    requires Inv(h, exact) && FindFreeWithin(h, sz, ok).Taken?
    ensures Preserves(h, FindFreeWithin(h, sz, ok).h, 0)
  {
    FindInv(h, sz, ok, exact);
    var i := FindFreeWithin(h, sz, ok).i;
    if Search(h.t, sz).0 == NULL {
      SplitPreserves(h, i, sz, ok, exact);
    } else {
      SplitKeeps(h.t.blocks, i, sz);
      assert FindFreeWithin(h, sz, ok).h.ram == h.ram;
    }
  }

  lemma ReleasePreserves(h: Heap, i: nat, exact: bool)
    requires Inv(h, exact) && i < |h.t.blocks| && h.t.blocks[i].status.Used?
    ensures Preserves(h, h.(t := Release(h.t, i)), h.t.blocks[i].start)
  {
    var bs, cs := h.t.blocks, Release(h.t, i).blocks;
    ReleaseInv(h, i, exact);
    forall b | b in bs && b.status.Used? && b.start != bs[i].start ensures KeptIn(b, cs) {
      var j :| 0 <= j < |bs| && bs[j] == b;
      assert cs[j] in cs;
    }
  }

  lemma FreePreserves(h: Heap, adr: nat, exact: bool)
    requires Inv(h, exact)
    ensures var i := FindUsed(h.t.blocks, adr);
            if i < |h.t.blocks| then Preserves(h, MemFree(h, adr), h.t.blocks[i].start) else MemFree(h, adr) == h
  {
    var i := FindUsed(h.t.blocks, adr);
    if i < |h.t.blocks| {
      var h1 := h.(t := Release(h.t, i));
      ReleaseInv(h, i, exact);
      ReleasePreserves(h, i, exact);
      InvClassed(h1, exact);
      if i + 1 == |h.t.blocks| { ShrinkPreserves(h1, exact); } else { UnifyPreserves(h1, i, exact); }
      PreservesWeaken(h1, MemFree(h, adr), h.t.blocks[i].start);
      PreservesTrans(h, h1, MemFree(h, adr), h.t.blocks[i].start);
    }
  }

  // ---------------------------------------------------------------- what a good result is

  /** Byte k from src in h is byte k from dst in h'. */
  ghost predicate CopiedAt(h: Heap, h': Heap, src: nat, dst: nat, k: nat) {
    (src + k in h.ram <==> dst + k in h'.ram) && (src + k in h.ram ==> h.ram[src + k] == h'.ram[dst + k])
  }

  ghost predicate Copied(h: Heap, h': Heap, src: nat, dst: nat, n: nat) {
    forall k: nat {:trigger CopiedAt(h, h', src, dst, k)} :: k < n ==> CopiedAt(h, h', src, dst, k)
  }

  /** The payload at adr, of osz bytes in h, is now a payload of at least nsz bytes at a; nothing else moved. */
  ghost predicate Resized(h: Heap, h': Heap, adr: nat, osz: nat, a: nat, nsz: nat) {
    && Serves(h', a, nsz)
    && Copied(h, h', adr, a, if osz < nsz then osz else nsz)
    && Preserves(h, h', if adr >= HDR then adr - HDR else 0)
  }

  // ---------------------------------------------------------------- making a block smaller

  /** The state after the block has been cut and its rest linked as a free block. */
  function CutBlk(h: Heap, i: nat, nsz: nat): Heap
    requires i < |h.t.blocks| && nsz + HDR < h.t.blocks[i].size
  {
    var b := h.t.blocks[i];
    CreateFree(h.(t := SetBlk(h.t, i, nsz, b.status, ClassOf(nsz))), i + 1, DataOf(b) + nsz, b.size - nsz - HDR, Free)
  }

  lemma SetUsedListed(t: Table, i: nat, sz: nat)
    requires Listed(t, {}) && i < |t.blocks| && t.blocks[i].status.Used? && 0 < sz < 0x8000_0000
    ensures Listed(SetBlk(t, i, sz, Used, ClassOf(sz)), {})
  {
    ClassOfValid(sz);
    SetBlkListed(t, {}, i, sz, Used, ClassOf(sz));
  }

  lemma CutBlkListed(t: Table, i: nat, nsz: nat, at: nat, end: nat, exact: bool) returns (t': Table)
    requires Listed(t, {}) && Laid(t.blocks, at, end, exact)
    requires i < |t.blocks| && t.blocks[i].status.Used? && 0 < nsz && nsz + HDR < t.blocks[i].size
    ensures var b := t.blocks[i]; t' == CreateTable(SetBlk(t, i, nsz, Used, ClassOf(nsz)), i + 1, DataOf(b) + nsz, b.size - nsz - HDR, Free)
    ensures Listed(t', {}) && t'.blocks == CutOff(t.blocks, i, nsz, Used, Free)
  {
    t' := CreateTable(SetBlk(t, i, nsz, Used, ClassOf(nsz)), i + 1, DataOf(t.blocks[i]) + nsz, t.blocks[i].size - nsz - HDR, Free);
    ClassedSize(t.blocks, t.blocks[i], at, end, exact);
    SetUsedListed(t, i, nsz);
    CutOffListed(SetBlk(t, i, nsz, Used, ClassOf(nsz)), t.blocks, i, nsz, Used, Free, at, end, exact, t');
  }

  lemma CutBlkInv(h: Heap, i: nat, nsz: nat, exact: bool)
    requires Inv(h, exact) && i < |h.t.blocks| && h.t.blocks[i].status.Used? && 0 < nsz && nsz + HDR < h.t.blocks[i].size
    ensures Inv(CutBlk(h, i, nsz), exact)
    ensures CutBlk(h, i, nsz).t.blocks == CutOff(h.t.blocks, i, nsz, Used, Free)
  {
    var t' := CutBlkListed(h.t, i, nsz, h.base, HeapEnd(h), exact);
    CutOffLaid(h.t.blocks, i, nsz, Used, Free, h.base, HeapEnd(h), exact);
    CutOffFirst(h.t.blocks, i, nsz, Used, Free);
    CutBlkParts(h, i, nsz);
    InvOf(h, CutBlk(h, i, nsz), t', CutOff(h.t.blocks, i, nsz, Used, Free), exact);
  }

  lemma CutBlkParts(h: Heap, i: nat, nsz: nat)
    requires i < |h.t.blocks| && nsz + HDR < h.t.blocks[i].size
    ensures var h2, b, start := CutBlk(h, i, nsz), h.t.blocks[i], DataOf(h.t.blocks[i]) + nsz;
            && h2.ram == Outside(h.ram, start, start + HDR)
            && h2.base == h.base && h2.limit == h.limit && h2.usable == h.usable
            && h2.t == CreateTable(SetBlk(h.t, i, nsz, b.status, ClassOf(nsz)), i + 1, start, b.size - nsz - HDR, Free)
  {
  }

  lemma CutOffKeeps(bs: seq<Blk>, i: nat, nsz: nat)
    requires i < |bs| && bs[i].size > nsz + HDR
    ensures Keeps(bs, CutOff(bs, i, nsz, Used, Free), bs[i].start)
  {
    var cs := CutOff(bs, i, nsz, Used, Free);
    forall c | c in bs && c.status.Used? && c.start != bs[i].start ensures KeptIn(c, cs) {
      var j :| 0 <= j < |bs| && bs[j] == c;
      assert cs[if j > i then j + 1 else j] == c;
    }
  }

  lemma CutBlkResizes(h: Heap, i: nat, nsz: nat, exact: bool)
    requires Inv(h, exact) && i < |h.t.blocks| && h.t.blocks[i].status.Used? && 0 < nsz && nsz + HDR < h.t.blocks[i].size
    ensures var h2 := CutBlk(h, i, nsz);
            var b := h.t.blocks[i];
            Resized(h, h2, DataOf(b), b.size, DataOf(b), nsz)
  {
    var b, h2 := h.t.blocks[i], CutBlk(h, i, nsz);
    CutBlkInv(h, i, nsz, exact);
    CutBlkParts(h, i, nsz);
    CutOffFirst(h.t.blocks, i, nsz, Used, Free);
    CutOffKeeps(h.t.blocks, i, nsz);
    assert h2.t.blocks[i] in h2.t.blocks;
    CutBytes(h, h2, i, nsz, exact);
  }

  lemma CutBytes(h: Heap, h2: Heap, i: nat, nsz: nat, exact: bool)
    requires Inv(h, exact) && i < |h.t.blocks| && nsz + HDR < h.t.blocks[i].size
    requires var start := DataOf(h.t.blocks[i]) + nsz; h2.ram == Outside(h.ram, start, start + HDR)
    ensures KeepsBytes(h, h2, h.t.blocks[i].start)
    ensures Copied(h, h2, DataOf(h.t.blocks[i]), DataOf(h.t.blocks[i]), nsz)
  {
    var b := h.t.blocks[i];
    forall c, a | c in h.t.blocks && c.status.Used? && c.start != b.start && InPayload(c, a) ensures SameByte(h.ram, h2.ram, a) {
      BlocksApart(h, exact, i, c);
    }
  }

  /** A free block behind a used one is merged with its successor, or not at all, or leaves the table. */
  lemma UnifyBehindUsed(h: Heap, i: nat, exact: bool)
    requires Inv(h, exact) && 0 < i < |h.t.blocks| && !h.t.blocks[i].status.Used? && h.t.blocks[i - 1].status.Used?
    ensures var bs, cs := h.t.blocks, Unify(h, i).t.blocks;
            && i <= |cs|
            && (i < |cs| ==> !cs[i].status.Used?)
            && (i == |cs| <==> i + 2 == |bs| && !bs[i + 1].status.Used? && bs[i].size + HDR + bs[i + 1].size + HDR >= PAGE)
  {
    var bs := h.t.blocks;
    if IsFreeAt(bs, i + 1) {
      var h1 := h.(t := Merge(h.t, i));
      MergeInv(h, i, exact);
      assert |h1.t.blocks| == |bs| - 1 && h1.t.blocks[i] == MergedBlk(bs, i);
      if i + 1 == |h1.t.blocks| {
        if h1.t.blocks[i].size + HDR >= PAGE { ShrinkLaid(h1, exact); }
      } else {
        CleanInv(h1, i, exact);
      }
    }
  }

  /** Cutting a block down uses a vanished descriptor exactly when its free successor ends the heap and a page can go. */
  ghost predicate LosesHeader(bs: seq<Blk>, i: nat, nsz: nat)
    requires i < |bs|
  {
    && bs[i].size > nsz + HDR
    && i + 2 == |bs| && !bs[i + 1].status.Used?
    && bs[i].size - nsz + bs[i + 1].size + HDR >= PAGE
  }

  lemma ShrinkBlkResizes(h: Heap, i: nat, nsz: nat, exact: bool)
    requires Inv(h, exact) && i < |h.t.blocks| && h.t.blocks[i].status.Used? && 0 < nsz < h.t.blocks[i].size
    ensures var (r, b) := (ShrinkBlk(h, i, nsz), h.t.blocks[i]);
            && (r.StaleHeader? <==> LosesHeader(h.t.blocks, i, nsz))
            && (!r.StaleHeader? ==> r.Moved? && r.adr == DataOf(b) && Inv(r.h, exact)
                                    && Resized(h, r.h, DataOf(b), b.size, DataOf(b), nsz))
  {
    var b := h.t.blocks[i];
    if b.size - nsz <= HDR {
      assert b in h.t.blocks && b.size >= nsz;
      SamePreserves(h);
      assert Copied(h, h, DataOf(b), DataOf(b), nsz);
    } else {
      ShrinkBlkCuts(h, i, nsz, exact);
    }
  }

  lemma ShrinkBlkCuts(h: Heap, i: nat, nsz: nat, exact: bool)
    requires Inv(h, exact) && i < |h.t.blocks| && h.t.blocks[i].status.Used? && 0 < nsz && nsz + HDR < h.t.blocks[i].size
    ensures var (r, b) := (ShrinkBlk(h, i, nsz), h.t.blocks[i]);
            && (r.StaleHeader? <==> LosesHeader(h.t.blocks, i, nsz))
            && (!r.StaleHeader? ==> r.Moved? && r.adr == DataOf(b) && Inv(r.h, exact)
                                    && Resized(h, r.h, DataOf(b), b.size, DataOf(b), nsz))
  {
    var b := h.t.blocks[i];
    var h2 := CutBlk(h, i, nsz);
    var h3 := Unify(h2, i + 1);
    CutBlkInv(h, i, nsz, exact);
    CutOffFirst(h.t.blocks, i, nsz, Used, Free);
    CutBlkResizes(h, i, nsz, exact);
    UnifyInv(h2, i + 1, exact);
    UnifyBehindUsed(h2, i + 1, exact);
    UnifyPreserves(h2, i + 1, exact);
    CutOffNext(h.t.blocks, i, nsz);
    assert ShrinkBlk(h, i, nsz).StaleHeader? <==> i + 1 == |h3.t.blocks|;
    if i + 1 < |h3.t.blocks| {
      var h4 := ShrinkBlk(h, i, nsz).h;
      if i + 2 == |h3.t.blocks| {
        ShrinkInv(h3, exact);
        ShrinkPreserves(h3, exact);
      } else {
        CleanInv(h3, i + 1, exact);
        CleanPreserves(h3, i + 1, exact);
      }
      PreservesTrans(h2, h3, h4, 0);
      ResizedStep(h, h2, h4, b, nsz, exact);
    }
  }

  lemma CutOffNext(bs: seq<Blk>, i: nat, nsz: nat)
    requires i < |bs| && bs[i].size > nsz + HDR
    ensures var cs := CutOff(bs, i, nsz, Used, Free);
            && cs[i + 1].size == bs[i].size - nsz - HDR && cs[i].status.Used?
            && (i + 1 < |bs| ==> cs[i + 2] == bs[i + 1])
  {
  }

  /** A resize stays good when everything after it is preserved. */
  lemma ResizedStep(h: Heap, h2: Heap, h': Heap, b: Blk, nsz: nat, exact: bool)
    requires Inv(h2, exact) && Resized(h, h2, DataOf(b), b.size, DataOf(b), nsz) && nsz <= b.size
    requires Preserves(h2, h', 0)
    ensures Resized(h, h', DataOf(b), b.size, DataOf(b), nsz)
  {
    InvClassed(h2, exact);
    PreservesWeaken(h2, h', b.start);
    PreservesTrans(h, h2, h', b.start);
    var c :| c in h2.t.blocks && c.status.Used? && DataOf(c) == DataOf(b) && c.size >= nsz;
    assert KeptIn(c, h'.t.blocks);
    forall k: nat | k < nsz ensures CopiedAt(h, h', DataOf(b), DataOf(b), k) {
      assert CopiedAt(h, h2, DataOf(b), DataOf(b), k);
      assert InPayload(c, DataOf(b) + k);
      assert SameByte(h2.ram, h'.ram, DataOf(b) + k);
    }
  }

  // ---------------------------------------------------------------- making a block larger in place

  ghost function AbsorbedBlocks(bs: seq<Blk>, i: nat, nsz: nat): seq<Blk>
    requires i + 1 < |bs|
  {
    bs[..i] + [bs[i].(size := nsz, fbl := ClassOf(nsz))] + bs[i + 2..]
  }

  /** Used block i takes over the space of block i+1, which is taken off its list. */
  lemma AbsorbTableListed(t: Table, i: nat, nsz: nat)
    requires Listed(t, {}) && i + 1 < |t.blocks| && t.blocks[i].status.Used? && 0 < nsz < 0x8000_0000
    ensures Listed(AbsorbTable(t, i, nsz), {}) && AbsorbTable(t, i, nsz).blocks == AbsorbedBlocks(t.blocks, i, nsz)
  {
    var u := if t.blocks[i + 1].status.Used? then RemUbl(t, i + 1) else RemFbl(t, i + 1);
    AbsorbListed(t, i);
    var t1 := CutBlks(u, i, i + 2);
    assert t1.blocks == t.blocks[..i + 1] + t.blocks[i + 2..] && t1.blocks[i] == t.blocks[i];
    SetUsedListed(t1, i, nsz);
    assert t1.blocks[i := t.blocks[i].(size := nsz, fbl := ClassOf(nsz))] == AbsorbedBlocks(t.blocks, i, nsz);
  }

  lemma AbsorbListed(t: Table, i: nat)
    requires Listed(t, {}) && i + 1 < |t.blocks|
    ensures var u := if t.blocks[i + 1].status.Used? then RemUbl(t, i + 1) else RemFbl(t, i + 1);
            Listed(CutBlks(u, i, i + 2), {})
  {
    var p := t.blocks[i + 1].ptr;
    assert {} + {p} == {p} && {p} - {p} == {};
    if t.blocks[i + 1].status.Used? { RemUblListed(t, i + 1); } else { RemFblListed(t, {}, i + 1); }
    var u := if t.blocks[i + 1].status.Used? then RemUbl(t, i + 1) else RemFbl(t, i + 1);
    CutBlksListed(u, {p}, i, i + 2);
    ListedDistinct(u, {p});
    forall b | b in CutBlks(u, i, i + 2).blocks ensures b.ptr !in {p} {
      CutMember(u.blocks, i, i + 2, b);
      assert u.blocks[i + 1] in u.blocks[i + 1..i + 2];
    }
    ListedUnion(CutBlks(u, i, i + 2), {p}, {p});
  }

  /** The layout after block i has grown to nsz bytes inside the space of blocks i and i+1. */
  lemma AbsorbLaid(bs: seq<Blk>, i: nat, nsz: nat, at: nat, end: nat, exact: bool)
    requires Laid(bs, at, end, exact) && i + 1 < |bs| && 0 < nsz < 0x8000_0000
    requires DataOf(bs[i]) + nsz <= EndOf(bs[i + 1]) && (exact ==> DataOf(bs[i]) + nsz == EndOf(bs[i + 1]))
    ensures Laid(AbsorbedBlocks(bs, i, nsz), at, end, exact) && i < |AbsorbedBlocks(bs, i, nsz)|
    ensures AbsorbedBlocks(bs, i, nsz)[0].start == bs[0].start
  {
    var e, e' := Reach(bs[..i], at), Reach(bs[..i + 2], at);
    LaidAround(bs, i, i + 2, at, end, exact);
    LaidWalk(bs[i..i + 2], e, e', exact);
    assert bs[i..i + 2] == [bs[i], bs[i + 1]];
    LaidBounds(bs, at, end, exact);
    LaidOne(bs[i].(size := nsz, fbl := ClassOf(nsz)), e, e', exact);
    LaidReplace(bs, i, i + 2, [bs[i].(size := nsz, fbl := ClassOf(nsz))], at, end, exact);
  }

  /** Absorbing a successor keeps every block, the grown one included. */
  lemma AbsorbKeeps(bs: seq<Blk>, i: nat, nsz: nat, x: nat)
    requires i + 1 < |bs| && bs[i].status.Used? && nsz >= bs[i].size
    requires !bs[i + 1].status.Used? || bs[i + 1].start == x
    ensures Keeps(bs, AbsorbedBlocks(bs, i, nsz), x)
  {
    var cs := AbsorbedBlocks(bs, i, nsz);
    forall b | b in bs && b.status.Used? && b.start != x ensures KeptIn(b, cs) {
      var j :| 0 <= j < |bs| && bs[j] == b;
      assert cs[if j <= i then j else j - 1] in cs;
    }
  }

  /** A state that preserves everything and holds a larger block at the old place is a good resize. */
  lemma GrownResized(h: Heap, h': Heap, b: Blk, nsz: nat, exact: bool)
    requires Inv(h, exact) && b in h.t.blocks && b.status.Used? && b.size <= nsz
    requires Preserves(h, h', 0) && Serves(h', DataOf(b), nsz)
    ensures Resized(h, h', DataOf(b), b.size, DataOf(b), nsz)
  {
    InvClassed(h, exact);
    PreservesWeaken(h, h', b.start);
    forall k: nat | k < b.size ensures CopiedAt(h, h', DataOf(b), DataOf(b), k) {
      assert InPayload(b, DataOf(b) + k);
      assert SameByte(h.ram, h'.ram, DataOf(b) + k);
    }
  }

  lemma AbsorbNextInv(h: Heap, i: nat, nsz: nat, exact: bool)
    requires Inv(h, exact) && i + 1 < |h.t.blocks| && h.t.blocks[i].status.Used? && !h.t.blocks[i + 1].status.Used?
    requires h.t.blocks[i].size + h.t.blocks[i + 1].size + HDR == nsz
    ensures var h' := Absorb(h, i, nsz);
            && Inv(h', exact) && h'.ram == h.ram && i < |h'.t.blocks|
            && h'.t.blocks == AbsorbedBlocks(h.t.blocks, i, nsz)
  {
    InvClassed(h, exact);
    LaidOrdered(h.t.blocks, h.base, HeapEnd(h), exact, i, i + 1);
    if exact { ExactNext(h, i); }
    AbsorbTableListed(h.t, i, nsz);
    AbsorbLaid(h.t.blocks, i, nsz, h.base, HeapEnd(h), exact);
  }

  lemma AbsorbNextResizes(h: Heap, i: nat, nsz: nat, exact: bool)
    requires Inv(h, exact) && i + 1 < |h.t.blocks| && h.t.blocks[i].status.Used? && !h.t.blocks[i + 1].status.Used?
    requires h.t.blocks[i].size + h.t.blocks[i + 1].size + HDR == nsz
    ensures var (h', b) := (Absorb(h, i, nsz), h.t.blocks[i]);
            Inv(h', exact) && Resized(h, h', DataOf(b), b.size, DataOf(b), nsz)
  {
    var h' := Absorb(h, i, nsz);
    AbsorbNextInv(h, i, nsz, exact);
    AbsorbKeeps(h.t.blocks, i, nsz, 0);
    assert h'.t.blocks[i] in h'.t.blocks;
    GrownResized(h, h', h.t.blocks[i], nsz, exact);
  }

  lemma ExactNext(h: Heap, i: nat)
    requires Inv(h, true) && i + 1 < |h.t.blocks|
    ensures EndOf(h.t.blocks[i]) == h.t.blocks[i + 1].start
  {
    InvAt(h, true, i);
    InvAt(h, true, i + 1);
  }

  /** h1: the state after block i+1 of h has been split, so that its front part is used. */
  ghost predicate FrontTaken(h: Heap, h1: Heap, i: nat, more: nat) {
    && i + 1 < |h.t.blocks| && i + 1 < |h1.t.blocks|
    && Inv(h1, false) && Preserves(h, h1, 0)
    && h1.t.blocks[i] == h.t.blocks[i]
    && h1.t.blocks[i + 1].start == h.t.blocks[i + 1].start
    && h1.t.blocks[i + 1].status.Used? && h1.t.blocks[i + 1].size >= more
  }

  lemma SplitTakesFront(h: Heap, h1: Heap, i: nat, more: nat, ok: bool, exact: bool)
    requires Inv(h, exact) && i + 1 < |h.t.blocks| && !h.t.blocks[i + 1].status.Used? && 0 < more < h.t.blocks[i + 1].size
    requires Split(h, i + 1, more, ok) == Some(h1)
    ensures FrontTaken(h, h1, i, more)
  {
    SplitInv(h, i + 1, more, ok, exact);
    SplitPreserves(h, i + 1, more, ok, exact);
    SplitFront(h.t.blocks, i, more);
    LaidLoose(h1.t.blocks, h1.base, HeapEnd(h1), exact);
  }

  lemma AbsorbSplitResizes(h: Heap, h1: Heap, i: nat, nsz: nat, exact: bool)
    requires Inv(h, exact) && i < |h.t.blocks| && h.t.blocks[i].status.Used? && h.t.blocks[i].size < nsz
    requires FrontTaken(h, h1, i, nsz - h.t.blocks[i].size) && !h.t.blocks[i + 1].status.Used?
    ensures var b := h.t.blocks[i];
            && Inv(Absorb(h1, i, nsz), false)
            && Resized(h, Absorb(h1, i, nsz), DataOf(b), b.size, DataOf(b), nsz)
  {
    var b, h' := h.t.blocks[i], Absorb(h1, i, nsz);
    AbsorbSplitInv(h1, i, nsz);
    AbsorbSplitPreserves(h, h1, i, nsz, exact);
    assert h'.t.blocks[i] in h'.t.blocks;
    GrownResized(h, h', b, nsz, exact);
  }

  lemma SplitFront(bs: seq<Blk>, i: nat, sz: nat)
    requires i + 1 < |bs| && bs[i + 1].size > sz
    ensures var cs := SplitBlocks(bs, i + 1, sz);
            i + 1 < |cs| && cs[i] == bs[i] && cs[i + 1].start == bs[i + 1].start && cs[i + 1].size >= sz && cs[i + 1].status.Used?
  {
  }

  lemma AbsorbSplitInv(h1: Heap, i: nat, nsz: nat)
    requires Inv(h1, false) && i + 1 < |h1.t.blocks| && h1.t.blocks[i].status.Used? && h1.t.blocks[i + 1].status.Used?
    requires 0 < nsz <= h1.t.blocks[i].size + h1.t.blocks[i + 1].size
    ensures var h' := Absorb(h1, i, nsz);
            && Inv(h', false) && i < |h'.t.blocks|
            && h'.t.blocks == AbsorbedBlocks(h1.t.blocks, i, nsz)
  {
    InvClassed(h1, false);
    LaidOrdered(h1.t.blocks, h1.base, HeapEnd(h1), false, i, i + 1);
    AbsorbTableListed(h1.t, i, nsz);
    AbsorbLaid(h1.t.blocks, i, nsz, h1.base, HeapEnd(h1), false);
  }

  /** Every used block of h outlives the split and the merger: the block split off was free in h. */
  lemma AbsorbSplitPreserves(h: Heap, h1: Heap, i: nat, nsz: nat, exact: bool)
    requires Inv(h, exact) && i + 1 < |h.t.blocks| && !h.t.blocks[i + 1].status.Used? && Preserves(h, h1, 0)
    requires Inv(h1, false) && i + 1 < |h1.t.blocks| && h1.t.blocks[i].status.Used? && h1.t.blocks[i + 1].status.Used?
    requires h1.t.blocks[i + 1].start == h.t.blocks[i + 1].start
    requires h1.t.blocks[i].size <= nsz <= h1.t.blocks[i].size + h1.t.blocks[i + 1].size && 0 < nsz
    ensures Preserves(h, Absorb(h1, i, nsz), 0)
  {
    var x, h' := h.t.blocks[i + 1].start, Absorb(h1, i, nsz);
    InvClassed(h, exact);
    AbsorbSplitInv(h1, i, nsz);
    AbsorbKeeps(h1.t.blocks, i, nsz, x);
    assert Preserves(h1, h', x) by { assert h'.ram == h1.ram; }
    PreservesWeaken(h, h1, x);
    PreservesTrans(h, h1, h', x);
    forall b | b in h.t.blocks && b.status.Used? ensures b.start != x {
      BlocksApart(h, exact, i + 1, b);
    }
  }

  // ---------------------------------------------------------------- moving a block

  lemma {:induction false} FindUsedPrefix(bs: seq<Blk>, i: nat)
    requires i < |bs| && bs[i].status.Used? && forall j :: 0 <= j < i ==> DataOf(bs[j]) != DataOf(bs[i])
    ensures FindUsed(bs, DataOf(bs[i])) == i
  {
    if i > 0 { FindUsedPrefix(bs[1..], i - 1); }
  }

  lemma FindUsedAt(h: Heap, i: nat, exact: bool)
    requires Inv(h, exact) && i < |h.t.blocks| && h.t.blocks[i].status.Used?
    ensures FindUsed(h.t.blocks, DataOf(h.t.blocks[i])) == i
  {
    InvClassed(h, exact);
    FindUsedPrefix(h.t.blocks, i);
  }

  lemma CopyBytesAt(ram: map<nat, int>, dst: nat, src: nat, n: nat)
    requires src + n <= dst || dst + n <= src
    ensures var r := CopyBytes(ram, dst, src, n);
            forall x: nat :: if dst <= x < dst + n then
                               (x - dst + src in ram <==> x in r) && (x in r ==> r[x] == ram[x - dst + src])
                             else SameByte(ram, r, x)
  {
  }

  /** The copy into a new block and the release of the old one make a good resize. */
  lemma MoveResizes(h: Heap, i: nat, nsz: nat, ok: bool, exact: bool)
    requires Inv(h, exact) && i < |h.t.blocks| && h.t.blocks[i].status.Used? && h.t.blocks[i].size < nsz
    requires MemAlloc(h, nsz, ok).Got?
    ensures var b := h.t.blocks[i];
            var r := MoveBlk(h, DataOf(b), b.size, nsz, ok);
            r.Moved? && Inv(r.h, exact) && Resized(h, r.h, DataOf(b), b.size, r.adr, nsz)
  {
    var b := h.t.blocks[i];
    AllocInv(h, nsz, ok, exact);
    AllocPreserves(h, nsz, ok, exact);
    MoveSettles(h, MemAlloc(h, nsz, ok).h, b, MemAlloc(h, nsz, ok).adr, nsz, exact);
  }

  lemma MoveSettles(h: Heap, h1: Heap, b: Blk, dst: nat, nsz: nat, exact: bool)
    requires Inv(h, exact) && Inv(h1, exact) && Preserves(h, h1, 0)
    requires b in h.t.blocks && b.status.Used? && b.size < nsz && Serves(h1, dst, nsz)
    requires forall e :: e in h.t.blocks && e.status.Used? ==> DataOf(e) != dst
    ensures var h' := MemFree(h1.(ram := CopyBytes(h1.ram, dst, DataOf(b), b.size)), DataOf(b));
            Inv(h', exact) && Resized(h, h', DataOf(b), b.size, dst, nsz)
  {
    InvClassed(h, exact);
    assert KeptIn(b, h1.t.blocks);
    var c :| c in h1.t.blocks && c.status.Used? && c.start == b.start && c.size >= b.size;
    var d :| d in h1.t.blocks && d.status.Used? && DataOf(d) == dst && d.size >= nsz;
    var h2 := h1.(ram := CopyBytes(h1.ram, dst, DataOf(b), b.size));
    MoveCopies(h, h1, h2, b, c, d, exact);
    MoveReleases(h, h2, b, c, d, nsz, exact);
  }

  lemma MoveReleases(h: Heap, h2: Heap, b: Blk, c: Blk, d: Blk, nsz: nat, exact: bool)
    requires Inv(h2, exact) && Preserves(h, h2, b.start) && Copied(h, h2, DataOf(b), DataOf(d), b.size)
    requires c in h2.t.blocks && c.status.Used? && c.start == b.start
    requires d in h2.t.blocks && d.status.Used? && d.start != b.start && b.size < nsz <= d.size
    ensures Inv(MemFree(h2, DataOf(b)), exact) && Resized(h, MemFree(h2, DataOf(b)), DataOf(b), b.size, DataOf(d), nsz)
  {
    FreeAway(h2, DataOf(b), c, exact);
    MoveFrees(h, h2, MemFree(h2, DataOf(b)), b, d, nsz);
  }

  /** mem_free on the payload of block c, which begins at adr. */
  lemma FreeAway(h: Heap, adr: nat, c: Blk, exact: bool)
    requires Inv(h, exact) && c in h.t.blocks && c.status.Used? && DataOf(c) == adr
    ensures Inv(MemFree(h, adr), exact) && Preserves(h, MemFree(h, adr), c.start)
  {
    var j :| 0 <= j < |h.t.blocks| && h.t.blocks[j] == c;
    FindUsedAt(h, j, exact);
    FreeInv(h, adr, exact);
    FreePreserves(h, adr, exact);
  }

  /** After the copy the other payloads are as in h, and the new payload holds the old bytes. */
  lemma MoveCopies(h: Heap, h1: Heap, h2: Heap, b: Blk, c: Blk, d: Blk, exact: bool)
    requires Inv(h, exact) && Inv(h1, exact) && Preserves(h, h1, 0)
    requires b in h.t.blocks && b.status.Used? && c in h1.t.blocks && d in h1.t.blocks && c.status.Used? && d.status.Used?
    requires c.start == b.start && c.size >= b.size && d.size >= b.size
    requires forall e :: e in h.t.blocks && e.status.Used? ==> e.start != d.start
    requires h2 == h1.(ram := CopyBytes(h1.ram, DataOf(d), DataOf(b), b.size))
    ensures Preserves(h, h2, b.start) && Copied(h, h2, DataOf(b), DataOf(d), b.size)
  {
    InvClassed(h, exact);
    PayloadsApart(h1, exact, c, d);
    CopyBytesAt(h1.ram, DataOf(d), DataOf(b), b.size);
    forall k: nat | k < b.size ensures CopiedAt(h, h2, DataOf(b), DataOf(d), k) {
      assert InPayload(b, DataOf(b) + k);
      assert SameByte(h.ram, h1.ram, DataOf(b) + k);
      var x := DataOf(d) + k;
      assert x in h2.ram <==> x - DataOf(d) + DataOf(b) in h1.ram;
    }
    forall e | e in h.t.blocks && e.status.Used? ensures KeptIn(e, h2.t.blocks)
      ensures forall a :: InPayload(e, a) ==> SameByte(h.ram, h2.ram, a)
    {
      assert KeptIn(e, h1.t.blocks);
      var e1 :| e1 in h1.t.blocks && e1.status.Used? && e1.start == e.start && e1.size >= e.size;
      PayloadsApart(h1, exact, e1, d);
      forall a | InPayload(e, a) ensures SameByte(h.ram, h2.ram, a) {
        assert InPayload(e1, a) && SameByte(h.ram, h1.ram, a);
      }
    }
  }

  /** Payloads of different blocks do not share a byte. */
  lemma PayloadsApart(h: Heap, exact: bool, c: Blk, d: Blk)
    requires Inv(h, exact) && c in h.t.blocks && d in h.t.blocks && c.start != d.start
    ensures EndOf(c) <= d.start || EndOf(d) <= c.start
  {
    var j :| 0 <= j < |h.t.blocks| && h.t.blocks[j] == d;
    BlocksApart(h, exact, j, c);
  }

  lemma MoveFrees(h: Heap, h2: Heap, h': Heap, b: Blk, d: Blk, nsz: nat)
    requires Preserves(h, h2, b.start) && Copied(h, h2, DataOf(b), DataOf(d), b.size) && Preserves(h2, h', b.start)
    requires d in h2.t.blocks && d.status.Used? && d.start != b.start && b.size < nsz <= d.size
    ensures Resized(h, h', DataOf(b), b.size, DataOf(d), nsz)
  {
    PreservesTrans(h, h2, h', b.start);
    assert KeptIn(d, h'.t.blocks);
    forall k: nat | k < b.size ensures CopiedAt(h, h', DataOf(b), DataOf(d), k) {
      assert CopiedAt(h, h2, DataOf(b), DataOf(d), k);
      assert InPayload(d, DataOf(d) + k) && SameByte(h2.ram, h'.ram, DataOf(d) + k);
    }
  }
}
