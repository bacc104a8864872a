/**
 The page-mapping allocator: page ranges of a fixed region, with the block descriptors kept
 outside the region.  It always merges free neighbours, so its table has a canonical form:
 the partition of the region depends on the live ranges alone.
 */
module Pmap {
  import opened BlockLists
  import opened BlockTables
  import opened BlockSteps
  import opened BestFit

  const PAGE: nat := 4096
  const REGION: nat := 262143   // pages of the region behind its first page

  // ---------------------------------------------------------------- operations on values

  /** The first address behind block b, whose size counts pages. */
  function EndOf(b: Blk): nat {
    b.start + b.size * PAGE
  }

  /** libpmap_split_free_entry; d is the descriptor mem_alloc gives for the rest. */
  ghost function Split(t: Table, i: nat, n: nat, d: Ptr): Table
    requires i < |t.blocks| && n <= t.blocks[i].size
  {
    var b := t.blocks[i];
    if b.size == n then TakeTable(t, i, b.size, b.fbl)
    else NewFree(TakeTable(t, i, n, ClassOf(n)), i + 1, Blk(d, b.start + n * PAGE, b.size - n, Free, ClassOf(b.size - n)))
  }

  /**
   Corrupted: the range handed out is still on its free list; Crashed: there was no memory
   for the descriptor of the rest, and NULL is dereferenced.
   */
  datatype AllocResult = Got(t: Table, adr: nat) | BadSize | NoRoom | Corrupted(t: Table, adr: nat) | Crashed

  function PagesOf(sz: nat): nat {
    sz / PAGE + if sz % PAGE != 0 then 1 else 0
  }

  /** libpmap_find_free_block_within and pmap_alloc, for n pages. */
  ghost function AllocPages(t: Table, n: nat, d: Ptr): AllocResult
    requires |t.fbl| == CLASSES
  {
    if ClassOf(n) == -1 then BadSize
    else
      var (retval, bestfit) := Search(t, n);
      var i := IdxOf(t.blocks, Chosen((retval, bestfit)));
      if i == |t.blocks| then NoRoom
      else
        var b := t.blocks[i];
        if retval == NULL then
          if n > b.size || d == NULL then Crashed else Got(Split(t, i, n, d), b.start)
        else if bestfit == NULL then Got(TakeTable(t, i, b.size, b.fbl), b.start)
        else Corrupted(SetBlk(t, i, b.size, Used, b.fbl), b.start)
  }

  ghost function Alloc(t: Table, sz: nat, d: Ptr): AllocResult
    requires |t.fbl| == CLASSES
  {
    AllocPages(t, PagesOf(sz), d)
  }

  /** The block that free block i and its free neighbours become. */
  function MergedBlk(bs: seq<Blk>, i: nat): Blk
    requires i < |bs|
  {
    var n1 := if IsFreeAt(bs, i - 1) then bs[i].size + bs[i - 1].size else bs[i].size;
    var n := if IsFreeAt(bs, i + 1) then n1 + bs[i + 1].size else n1;
    bs[MergeLo(bs, i)].(size := n, status := Free, fbl := ClassOf(n))
  }

  /** libpmap_unify_free_entry. */
  function Unify(t: Table, i: nat): Table
    requires i < |t.blocks|
  {
    if IsFreeAt(t.blocks, i - 1) || IsFreeAt(t.blocks, i + 1) then Joined(t, i, MergedBlk(t.blocks, i)) else t
  }

  /** pmap_free; an address that is not the start of a live range changes nothing. */
  function FreeAt(t: Table, adr: nat): Table {
    var i := FindStart(t.blocks, 0, adr);
    if adr == 0 || i == |t.blocks| then t else FreeIdx(t, i)
  }

  function FreeIdx(t: Table, i: nat): Table
    requires i < |t.blocks|
  {
    if i < |Release(t, i).blocks| then Unify(Release(t, i), i) else t
  }

  // ---------------------------------------------------------------- the invariant

  ghost predicate WellSized(b: Blk) {
    0 < b.size < 0x8000_0000 && b.fbl == ClassOf(b.size) && !b.status.FreeEmpty?
  }

  /** bs covers [at, end) in order, without gap or overlap. */
  ghost predicate Tiled(bs: seq<Blk>, at: nat, end: nat) {
    if bs == [] then at == end
    else WellSized(bs[0]) && bs[0].start == at && Tiled(bs[1..], EndOf(bs[0]), end)
  }

  /** No two neighbours are free. */
  ghost predicate Apart(bs: seq<Blk>) {
    forall i :: 0 <= i < |bs| - 1 ==> bs[i].status.Used? || bs[i + 1].status.Used?
  }

  ghost predicate Inv(t: Table, base: nat) {
    && base > 0 && Listed(t, {})
    && Tiled(t.blocks, base, base + REGION * PAGE)
    && Apart(t.blocks)
  }

  /** lib_init_pmap: one free block of all the pages. */
  function Initial(base: nat, d: Ptr): Table {
    NewFree(Table([], [], seq(CLASSES, _ => [])), 0, Blk(d, base, REGION, Free, ClassOf(REGION)))
  }

  function Reach(bs: seq<Blk>, at: nat): nat {
    if bs == [] then at else EndOf(bs[|bs| - 1])
  }

  lemma {:induction false} TiledConcat(a: seq<Blk>, c: seq<Blk>, at: nat, end: nat)
    ensures Tiled(a + c, at, end) <==> Tiled(a, at, Reach(a, at)) && Tiled(c, Reach(a, at), end)
  {
    if a == [] {
      assert a + c == c;
    } else {
      assert (a + c)[1..] == a[1..] + c;
      TiledConcat(a[1..], c, EndOf(a[0]), end);
      assert Reach(a[1..], EndOf(a[0])) == Reach(a, at);
    }
  }

  lemma {:induction false} TiledBounds(bs: seq<Blk>, at: nat, end: nat)
    requires Tiled(bs, at, end)
    ensures at <= end && Reach(bs, at) == end
    ensures forall b :: b in bs ==> WellSized(b) && at <= b.start && EndOf(b) <= end
  {
    if bs != [] {
      TiledBounds(bs[1..], EndOf(bs[0]), end);
      assert forall b :: b in bs ==> b == bs[0] || b in bs[1..];
    }
  }

  lemma {:induction false} TiledOrdered(bs: seq<Blk>, at: nat, end: nat, i: nat, j: nat)
    requires Tiled(bs, at, end) && i < j < |bs|
    ensures EndOf(bs[i]) <= bs[j].start && (j == i + 1 ==> EndOf(bs[i]) == bs[j].start)
  {
    if i == 0 {
      TiledBounds(bs[1..], EndOf(bs[0]), end);
      assert bs[j] in bs[1..];
      if j == 1 { assert bs[1..][0] == bs[1]; }
    } else {
      TiledOrdered(bs[1..], EndOf(bs[0]), end, i - 1, j - 1);
    }
  }

  lemma TiledAscending(bs: seq<Blk>, at: nat, end: nat)
    requires Tiled(bs, at, end)
    ensures Ascending(bs)
  {
    forall i, j | 0 <= i < j < |bs| ensures bs[i].start < bs[j].start {
      TiledOrdered(bs, at, end, i, j);
      TiledBounds(bs, at, end);
      assert bs[i] in bs;
    }
  }

  /** Blocks lo to hi-1 replaced by mid, which covers the same space. */
  lemma TiledReplace(bs: seq<Blk>, lo: nat, hi: nat, mid: seq<Blk>, at: nat, end: nat)
    requires Tiled(bs, at, end) && lo <= hi <= |bs|
    requires Tiled(mid, Reach(bs[..lo], at), Reach(bs[..hi], at))
    ensures Tiled(bs[..lo] + mid + bs[hi..], at, end)
  {
    var e, e' := Reach(bs[..lo], at), Reach(bs[..hi], at);
    assert bs == bs[..hi] + bs[hi..] && bs[..hi] == bs[..lo] + bs[lo..hi];
    TiledConcat(bs[..hi], bs[hi..], at, end);
    TiledConcat(bs[..lo], bs[lo..hi], at, e');
    TiledBounds(mid, e, e');
    TiledConcat(mid, bs[hi..], e, end);
    TiledConcat(bs[..lo], mid + bs[hi..], at, end);
    assert bs[..lo] + mid + bs[hi..] == bs[..lo] + (mid + bs[hi..]);
  }

  /** Where blocks lo to hi-1 begin and end. */
  lemma TiledAt(bs: seq<Blk>, lo: nat, hi: nat, at: nat, end: nat)
    requires Tiled(bs, at, end) && lo < hi <= |bs|
    ensures Reach(bs[..lo], at) == bs[lo].start && Reach(bs[..hi], at) == EndOf(bs[hi - 1])
  {
    if lo > 0 { TiledOrdered(bs, at, end, lo - 1, lo); }
  }

  lemma TiledOne(b: Blk, at: nat, end: nat)
    ensures Tiled([b], at, end) <==> WellSized(b) && b.start == at && EndOf(b) == end
  {
    assert [b][1..] == [];
  }

  lemma TiledTwo(b: Blk, c: Blk, at: nat, end: nat)
    ensures Tiled([b, c], at, end) <==> WellSized(b) && WellSized(c) && b.start == at && EndOf(b) == c.start && EndOf(c) == end
  {
    assert [b, c][1..] == [c];
    TiledOne(c, EndOf(b), end);
  }

  lemma InvClassed(t: Table, base: nat)
    requires Inv(t, base)
    ensures Classed(t.blocks) && Ascending(t.blocks)
    ensures forall b :: b in t.blocks ==> 0 < b.size <= REGION && b.start >= base
  {
    TiledBounds(t.blocks, base, base + REGION * PAGE);
    TiledAscending(t.blocks, base, base + REGION * PAGE);
  }

  lemma InitialInv(base: nat, d: Ptr)
    requires base > 0 && d != NULL
    ensures Inv(Initial(base, d), base)
    ensures Initial(base, d).blocks == [Blk(d, base, REGION, Free, ClassOf(REGION))]
  {
    var b := Blk(d, base, REGION, Free, ClassOf(REGION));
    var t := Table([], [], seq(CLASSES, _ => []));
    ClassOfValid(REGION);
    NewFreeListed(t, 0, b);
    assert Initial(base, d).blocks == [b];
    TiledOne(b, base, base + REGION * PAGE);
  }

  // ---------------------------------------------------------------- what allocation keeps

  /** Free block i becomes a used one of n pages, and the rest, if any, a free block. */
  ghost function SplitBlocks(bs: seq<Blk>, i: nat, n: nat, d: Ptr): seq<Blk>
    requires i < |bs| && n <= bs[i].size
  {
    var b := bs[i];
    var used := b.(size := n, status := Used, fbl := ClassOf(n));
    if n == b.size then bs[..i] + [used] + bs[i + 1..]
    else bs[..i] + [used, Blk(d, b.start + n * PAGE, b.size - n, Free, ClassOf(b.size - n))] + bs[i + 1..]
  }

  lemma SplitListed(t: Table, i: nat, n: nat, d: Ptr)
    requires Listed(t, {}) && i < |t.blocks| && !t.blocks[i].status.Used? && Classed(t.blocks) && 0 < n <= t.blocks[i].size
    requires n < t.blocks[i].size ==> d != NULL && !Has(t.blocks, d)
    ensures Listed(Split(t, i, n, d), {}) && Split(t, i, n, d).blocks == SplitBlocks(t.blocks, i, n, d)
  {
    assert t.blocks[i] in t.blocks;
    ClassOfValid(n);
    if n < t.blocks[i].size {
      ClassOfValid(t.blocks[i].size - n);
      var t', rest := SplitIs(t, i, n, d);
      TakeAndRest(t, i, n, ClassOf(n), rest, t');
    } else {
      TakeListed(t, i, n, ClassOf(n));
      SetInPlace(t.blocks, i, n);
    }
  }

  lemma SplitIs(t: Table, i: nat, n: nat, d: Ptr) returns (t': Table, rest: Blk)
    requires i < |t.blocks| && n < t.blocks[i].size
    ensures t' == Split(t, i, n, d) == NewFree(TakeTable(t, i, n, ClassOf(n)), i + 1, rest)
    ensures rest.ptr == d && rest.fbl == ClassOf(t.blocks[i].size - n) && rest.status.Free?
    ensures SplitBlocks(t.blocks, i, n, d) == t.blocks[..i] + [t.blocks[i].(size := n, status := Used, fbl := ClassOf(n)), rest] + t.blocks[i + 1..]
  {
    var b := t.blocks[i];
    t', rest := Split(t, i, n, d), Blk(d, b.start + n * PAGE, b.size - n, Free, ClassOf(b.size - n));
  }

  lemma SetInPlace(bs: seq<Blk>, i: nat, n: nat)
    requires i < |bs| && bs[i].size == n && bs[i].fbl == ClassOf(n)
    ensures bs[i := bs[i].(size := n, status := Used, fbl := ClassOf(n))] == bs[..i] + [bs[i].(status := Used)] + bs[i + 1..]
  {
  }

  lemma TakeAndRest(t: Table, i: nat, n: nat, f: int, rest: Blk, t': Table)
    requires Listed(t, {}) && i < |t.blocks| && !t.blocks[i].status.Used? && 0 <= f < CLASSES
    requires rest.ptr != NULL && !Has(t.blocks, rest.ptr) && 0 <= rest.fbl < CLASSES && !rest.status.Used?
    requires t' == NewFree(TakeTable(t, i, n, f), i + 1, rest)
    ensures Listed(t', {})
    ensures t'.blocks == t.blocks[..i] + [t.blocks[i].(size := n, status := Used, fbl := f), rest] + t.blocks[i + 1..]
  {
    var t1 := TakeTable(t, i, n, f);
    TakeListed(t, i, n, f);
    HasSame(t.blocks, i, t1.blocks, rest.ptr);
    NewFreeListed(t1, i + 1, rest);
    RestBehind(t.blocks, i, t1.blocks[i], rest);
  }

  lemma RestBehind(bs: seq<Blk>, i: nat, b: Blk, c: Blk)
    requires i < |bs|
    ensures bs[i := b][..i + 1] + [c] + bs[i := b][i + 1..] == bs[..i] + [b, c] + bs[i + 1..]
  {
  }

  lemma HasSame(bs: seq<Blk>, i: nat, cs: seq<Blk>, d: Ptr)
    requires i < |bs| && |cs| == |bs| && (forall j :: 0 <= j < |bs| ==> cs[j].ptr == bs[j].ptr)
    ensures Has(cs, d) ==> Has(bs, d)
  {
    if Has(cs, d) {
      var c :| c in cs && c.ptr == d;
      var j :| 0 <= j < |cs| && cs[j] == c;
      assert bs[j] in bs;
    }
  }

  lemma SplitTiled(bs: seq<Blk>, i: nat, n: nat, d: Ptr, at: nat, end: nat)
    requires Tiled(bs, at, end) && i < |bs| && 0 < n <= bs[i].size
    ensures Tiled(SplitBlocks(bs, i, n, d), at, end)
  {
    var b := bs[i];
    var used := b.(size := n, status := Used, fbl := ClassOf(n));
    var rest := Blk(d, b.start + n * PAGE, b.size - n, Free, ClassOf(b.size - n));
    TiledAt(bs, i, i + 1, at, end);
    TiledBounds(bs, at, end);
    assert b in bs;
    TiledOne(used, b.start, EndOf(b));
    TiledTwo(used, rest, b.start, EndOf(b));
    TiledReplace(bs, i, i + 1, if n == b.size then [used] else [used, rest], at, end);
  }

  lemma SplitApart(bs: seq<Blk>, i: nat, n: nat, d: Ptr)
    requires Apart(bs) && i < |bs| && !bs[i].status.Used? && n <= bs[i].size
    ensures Apart(SplitBlocks(bs, i, n, d))
  {
    var cs := SplitBlocks(bs, i, n, d);
    forall j | 0 <= j < |cs| - 1 ensures cs[j].status.Used? || cs[j + 1].status.Used? {
      if j > i { assert cs[j + 1] == bs[j + 1 - (|cs| - |bs|)]; }
      if j < i - 1 { assert cs[j] == bs[j] && cs[j + 1] == bs[j + 1]; }
    }
  }

  lemma SplitInv(t: Table, base: nat, i: nat, n: nat, d: Ptr)
    requires Inv(t, base) && i < |t.blocks| && !t.blocks[i].status.Used? && 0 < n <= t.blocks[i].size
    requires n < t.blocks[i].size ==> d != NULL && !Has(t.blocks, d)
    ensures Inv(Split(t, i, n, d), base) && Split(t, i, n, d).blocks == SplitBlocks(t.blocks, i, n, d)
  {
    InvClassed(t, base);
    SplitListed(t, i, n, d);
    SplitTiled(t.blocks, i, n, d, base, base + REGION * PAGE);
    SplitApart(t.blocks, i, n, d);
  }

  /** What pmap_alloc has to choose from. */
  ghost predicate HasRoom(bs: seq<Blk>, n: nat) {
    exists b :: b in bs && !b.status.Used? && b.size >= n
  }

  /**
   pmap_alloc of n pages takes n pages from a smallest sufficient free block and keeps the
   canonical form; every other outcome has its exact condition.
   */
  lemma AllocTheorem(t: Table, base: nat, n: nat, d: Ptr)
    requires Inv(t, base) && !Has(t.blocks, d)
    ensures AllocPages(t, n, d).BadSize? <==> n == 0 || n >= 0x8000_0000
    ensures AllocPages(t, n, d).NoRoom? <==> 0 < n < 0x8000_0000 && !HasRoom(t.blocks, n)
    ensures AllocPages(t, n, d).Corrupted? <==> DoublySelects(t, n)
    ensures AllocPages(t, n, d).Crashed? <==>
            d == NULL && 0 < n < 0x8000_0000 && HasRoom(t.blocks, n) && forall b :: b in t.blocks && !b.status.Used? ==> b.size != n
    ensures match AllocPages(t, n, d)
            case Got(t', adr) =>
              exists i :: 0 <= i < |t.blocks| && IsBestFit(t.blocks, t.blocks[i].ptr, n) && 0 < n <= t.blocks[i].size
                          && !t.blocks[i].status.Used?
                          && t'.blocks == SplitBlocks(t.blocks, i, n, d) && adr == t.blocks[i].start && Inv(t', base)
            case Corrupted(t', _) => !Inv(t', base)
            case _ => true
  {
    if 0 < n < 0x8000_0000 {
      ClassOfValid(n);
      InvClassed(t, base);
      SearchIsBestFit(t, n);
      SearchSelectsBoth(t, n);
      ChosenAt(t, n);
      var i := IdxOf(t.blocks, Chosen(Search(t, n)));
      if i < |t.blocks| {
        assert t.blocks[i] in t.blocks;
        AllocAt(t, base, n, d, i);
      }
    }
  }

  lemma ChosenAt(t: Table, n: nat)
    requires Listed(t, {}) && Classed(t.blocks) && 0 < n < 0x8000_0000
    ensures var p := Chosen(Search(t, n));
            var i := IdxOf(t.blocks, p);
            && (i < |t.blocks| <==> p != NULL)
            && (p != NULL ==> !t.blocks[i].status.Used? && t.blocks[i].size >= n && t.blocks[i].ptr == p && t.blocks[i] in t.blocks)
  {
    SearchIsBestFit(t, n);
    var i := IdxOf(t.blocks, Chosen(Search(t, n)));
    if i < |t.blocks| { ListedAt(t, {}, i); }
  }

  lemma AllocAt(t: Table, base: nat, n: nat, d: Ptr, i: nat)
    requires Inv(t, base) && i < |t.blocks| && 0 < n <= t.blocks[i].size && !t.blocks[i].status.Used? && !Has(t.blocks, d)
    ensures d != NULL || n == t.blocks[i].size ==>
              Inv(Split(t, i, n, d), base) && Split(t, i, n, d).blocks == SplitBlocks(t.blocks, i, n, d)
    ensures var b := t.blocks[i]; !Listed(SetBlk(t, i, b.size, Used, b.fbl), {})
  {
    if d != NULL || n == t.blocks[i].size { SplitInv(t, base, i, n, d); }
    UsedOnFreeList(t, i);
  }
}
