/**
 What pmap_free keeps, the canonical form, and whole runs of the page-mapping allocator.
 */
module PmapRuns {
  import opened BlockLists
  import opened BlockTables
  import opened BlockSteps
  import opened BestFit
  import opened Pmap

  // ---------------------------------------------------------------- freeing

  /** bs with block i marked free. */
  function Freed(bs: seq<Blk>, i: nat): seq<Blk>
    requires i < |bs|
  {
    bs[i := bs[i].(status := Free)]
  }

  /** The blocks after used block i has been freed and merged. */
  function FreedBlocks(bs: seq<Blk>, i: nat): seq<Blk>
    requires i < |bs|
  {
    var cs := Freed(bs, i);
    bs[..MergeLo(cs, i)] + [MergedBlk(cs, i)] + bs[MergeHi(cs, i)..]
  }

  lemma ReleaseTiled(bs: seq<Blk>, i: nat, at: nat, end: nat)
    requires Tiled(bs, at, end) && i < |bs|
    ensures Tiled(Freed(bs, i), at, end)
  {
    var b := bs[i].(status := Free);
    TiledAt(bs, i, i + 1, at, end);
    TiledBounds(bs, at, end);
    assert bs[i] in bs;
    TiledOne(b, b.start, EndOf(b));
    TiledReplace(bs, i, i + 1, [b], at, end);
    assert Freed(bs, i) == bs[..i] + [b] + bs[i + 1..];
  }

  /** The merged block covers exactly the blocks it replaces. */
  lemma MergedTiled(bs: seq<Blk>, i: nat, at: nat, end: nat)
    requires Tiled(bs, at, end) && i < |bs| && !bs[i].status.Used? && end - at <= REGION * PAGE
    ensures var m := MergedBlk(bs, i);
            && WellSized(m) && 0 <= m.fbl < CLASSES && m.start == bs[MergeLo(bs, i)].start
            && EndOf(m) == EndOf(bs[MergeHi(bs, i) - 1])
            && Tiled(bs[..MergeLo(bs, i)] + [m] + bs[MergeHi(bs, i)..], at, end)
  {
    var lo, hi, m := MergeLo(bs, i), MergeHi(bs, i), MergedBlk(bs, i);
    TiledBounds(bs, at, end);
    assert bs[lo] in bs && bs[i] in bs && bs[hi - 1] in bs;
    if lo < i { TiledOrdered(bs, at, end, lo, i); }
    if i + 1 < hi { TiledOrdered(bs, at, end, i, i + 1); }
    assert m.start + m.size * PAGE == EndOf(bs[hi - 1]) <= end && at <= m.start;
    ClassOfValid(m.size);
    TiledAt(bs, lo, hi, at, end);
    TiledOne(m, bs[lo].start, EndOf(m));
    TiledReplace(bs, lo, hi, [m], at, end);
  }

  /** Freeing a block whose neighbours keep apart leaves no two free neighbours. */
  lemma FreedApart(bs: seq<Blk>, i: nat)
    requires Apart(bs) && i < |bs| && bs[i].status.Used?
    ensures Apart(FreedBlocks(bs, i))
  {
    var cs, ds := Freed(bs, i), FreedBlocks(bs, i);
    var lo, hi := MergeLo(cs, i), MergeHi(cs, i);
    forall j | 0 <= j < |ds| - 1 ensures ds[j].status.Used? || ds[j + 1].status.Used? {
      if j + 1 < lo {
        assert ds[j] == bs[j] && ds[j + 1] == bs[j + 1];
      } else if j + 1 == lo {
        assert ds[j] == bs[lo - 1] && cs[lo - 1] == bs[lo - 1];
      } else if j == lo {
        assert ds[j + 1] == bs[hi] && cs[hi] == bs[hi];
      } else {
        assert ds[j] == bs[j - lo - 1 + hi] && ds[j + 1] == bs[j - lo + hi];
      }
    }
  }

  /** pmap_free on a live range keeps the canonical form. */
  lemma FreeIdxInv(t: Table, base: nat, i: nat)
    requires Inv(t, base) && i < |t.blocks| && t.blocks[i].status.Used?
    ensures Inv(FreeIdx(t, i), base) && FreeIdx(t, i).blocks == FreedBlocks(t.blocks, i)
  {
    var end := base + REGION * PAGE;
    ReleaseListed(t, i);
    var t1 := Release(t, i);
    var cs, lo, hi := t1.blocks, MergeLo(t1.blocks, i), MergeHi(t1.blocks, i);
    assert cs == Freed(t.blocks, i);
    ReleaseTiled(t.blocks, i, base, end);
    MergedTiled(cs, i, base, end);
    FreedSides(t.blocks, i);
    FreedApart(t.blocks, i);
    if IsFreeAt(cs, i - 1) || IsFreeAt(cs, i + 1) {
      JoinedListed(t1, i, MergedBlk(cs, i));
    } else {
      InvClassed(t, base);
      assert t.blocks[i] in t.blocks;
      assert MergedBlk(cs, i) == cs[i];
      assert cs == cs[..i] + [cs[i]] + cs[i + 1..];
    }
  }

  lemma FreedSides(bs: seq<Blk>, i: nat)
    requires i < |bs|
    ensures var cs := Freed(bs, i);
            FreedBlocks(bs, i) == cs[..MergeLo(cs, i)] + [MergedBlk(cs, i)] + cs[MergeHi(cs, i)..]
  {
    var cs := Freed(bs, i);
    assert cs[..MergeLo(cs, i)] == bs[..MergeLo(cs, i)];
    assert cs[MergeHi(cs, i)..] == bs[MergeHi(cs, i)..];
  }

  lemma FreeInv(t: Table, base: nat, adr: nat)
    requires Inv(t, base)
    ensures Inv(FreeAt(t, adr), base)
  {
    var i := FindStart(t.blocks, 0, adr);
    if adr != 0 && i < |t.blocks| { FreeIdxInv(t, base, i); }
  }

  // ---------------------------------------------------------------- the canonical form

  /** A range of the region: first address, pages, and whether it is live. */
  datatype Extent = Extent(start: nat, pages: nat, live: bool)

  function View(b: Blk): Extent {
    Extent(b.start, b.size, b.status.Used?)
  }

  function Views(bs: seq<Blk>): seq<Extent> {
    if bs == [] then [] else [View(bs[0])] + Views(bs[1..])
  }

  /** The live ranges in address order. */
  function Live(bs: seq<Blk>): seq<Extent> {
    if bs == [] then [] else (if bs[0].status.Used? then [View(bs[0])] else []) + Live(bs[1..])
  }

  /** The gap between two addresses, unless it is empty. */
  function Gap(at: nat, end: nat): seq<Extent> {
    if at < end then [Extent(at, (end - at) / PAGE, false)] else []
  }

  /** The live ranges and between them the maximal gaps. */
  function Canon(live: seq<Extent>, at: nat, end: nat): seq<Extent> {
    if live == [] then Gap(at, end)
    else Gap(at, live[0].start) + [live[0]] + Canon(live[1..], live[0].start + live[0].pages * PAGE, end)
  }

  lemma {:induction false} CanonicalFrom(bs: seq<Blk>, at: nat, end: nat)
    requires Tiled(bs, at, end) && Apart(bs)
    ensures Views(bs) == Canon(Live(bs), at, end)
  {
    if bs != [] {
      var b, tail := bs[0], bs[1..];
      ApartTail(bs);
      CanonicalFrom(tail, EndOf(b), end);
      TiledBounds(tail, EndOf(b), end);
      if !b.status.Used? {
        assert Gap(at, EndOf(b)) == [View(b)];
        assert Live(bs) == Live(tail);
        if tail == [] {
          assert Live(tail) == [] && Views(bs) == [View(b)] + [];
        } else {
          assert tail[0] == bs[1] && tail[0].status.Used? && Live(tail)[0] == View(tail[0]);
          GapFirst(Live(tail), at, EndOf(b), end);
        }
      }
    }
  }

  lemma ApartTail(bs: seq<Blk>)
    requires Apart(bs) && bs != []
    ensures Apart(bs[1..])
  {
    var tail := bs[1..];
    forall i | 0 <= i < |tail| - 1 ensures tail[i].status.Used? || tail[i + 1].status.Used? {
      assert tail[i] == bs[i + 1] && tail[i + 1] == bs[i + 2];
    }
  }

  /** A gap in front of the first live range. */
  lemma GapFirst(live: seq<Extent>, at: nat, mid: nat, end: nat)
    requires live != [] && live[0].start == mid
    ensures Canon(live, at, end) == Gap(at, mid) + Canon(live, mid, end)
  {
    assert Gap(mid, mid) == [];
  }

  /**
   The canonical form: the live ranges alone determine the partition, and the free blocks are
   exactly the maximal gaps between them.
   */
  lemma Canonical(t: Table, base: nat)
    requires Inv(t, base)
    ensures Views(t.blocks) == Canon(Live(t.blocks), base, base + REGION * PAGE)
  {
    CanonicalFrom(t.blocks, base, base + REGION * PAGE);
  }

  lemma {:induction false} LiveConcat(a: seq<Blk>, c: seq<Blk>)
    ensures Live(a + c) == Live(a) + Live(c)
  {
    if a == [] {
      assert a + c == c;
    } else {
      assert (a + c)[1..] == a[1..] + c;
      LiveConcat(a[1..], c);
    }
  }

  lemma LiveAround(bs: seq<Blk>, lo: nat, hi: nat, mid: seq<Blk>)
    requires lo <= hi <= |bs|
    ensures Live(bs[..lo] + mid + bs[hi..]) == Live(bs[..lo]) + Live(mid) + Live(bs[hi..])
  {
    LiveConcat(bs[..lo] + mid, bs[hi..]);
    LiveConcat(bs[..lo], mid);
  }

  lemma LiveSplit(bs: seq<Blk>, lo: nat, hi: nat)
    requires lo <= hi <= |bs|
    ensures Live(bs) == Live(bs[..lo]) + Live(bs[lo..hi]) + Live(bs[hi..])
  {
    LiveAround(bs, lo, hi, bs[lo..hi]);
    assert bs == bs[..lo] + bs[lo..hi] + bs[hi..];
  }

  /** Live(cs) is Live(bs) with the range x put in at position k. */
  ghost predicate Adds(bs: seq<Blk>, cs: seq<Blk>, x: Extent, k: nat) {
    k <= |Live(bs)| && Live(cs) == Live(bs)[..k] + [x] + Live(bs)[k..]
  }

  lemma AllocAdds(bs: seq<Blk>, i: nat, n: nat, d: Ptr)
    requires i < |bs| && !bs[i].status.Used? && 0 < n <= bs[i].size
    ensures Adds(bs, SplitBlocks(bs, i, n, d), Extent(bs[i].start, n, true), |Live(bs[..i])|)
  {
    var b := bs[i];
    var used := b.(size := n, status := Used, fbl := ClassOf(n));
    var rest := Blk(d, b.start + n * PAGE, b.size - n, Free, ClassOf(b.size - n));
    var mid := if n == b.size then [used] else [used, rest];
    LiveSplit(bs, i, i + 1);
    assert bs[i..i + 1] == [b] && Live([b]) == [];
    LiveAround(bs, i, i + 1, mid);
    assert [used, rest][1..] == [rest] && Live([rest]) == [];
    assert Live(mid) == [View(used)];
  }

  lemma FreeRemoves(bs: seq<Blk>, i: nat)
    requires i < |bs| && bs[i].status.Used?
    ensures Adds(FreedBlocks(bs, i), bs, View(bs[i]), |Live(bs[..i])|)
  {
    var cs := Freed(bs, i);
    var lo, hi, m := MergeLo(cs, i), MergeHi(cs, i), MergedBlk(cs, i);
    LiveAround(bs, lo, hi, [m]);
    assert Live([m]) == [];
    LiveSplit(bs, lo, hi);
    LiveSplit(bs[lo..hi], i - lo, i - lo + 1);
    assert bs[lo..hi][i - lo..i - lo + 1] == [bs[i]] && Live([bs[i]]) == [View(bs[i])];
    SideNotLive(bs, i, lo, hi);
    LiveConcat(bs[..lo], bs[lo..hi][..i - lo]);
    assert bs[..lo] + bs[lo..hi][..i - lo] == bs[..i];
  }

  lemma SideNotLive(bs: seq<Blk>, i: nat, lo: nat, hi: nat)
    requires i < |bs| && lo == MergeLo(Freed(bs, i), i) && hi == MergeHi(Freed(bs, i), i)
    ensures Live(bs[lo..hi][..i - lo]) == [] && Live(bs[lo..hi][i - lo + 1..]) == []
  {
    var cs := Freed(bs, i);
    if lo < i { assert bs[lo..hi][..i - lo] == [cs[i - 1]]; }
    if i + 1 < hi { assert bs[lo..hi][i - lo + 1..] == [cs[i + 1]]; }
  }

  // ---------------------------------------------------------------- undoing and emptying

  /** The index of the block at adr. */
  lemma StartIs(t: Table, base: nat, i: nat)
    requires Inv(t, base) && i < |t.blocks| && t.blocks[i].status.Used?
    ensures FindStart(t.blocks, 0, t.blocks[i].start) == i && t.blocks[i].start != 0
  {
    InvClassed(t, base);
    StartUnique(t.blocks, i, 0, t.blocks[i].start);
    assert t.blocks[i] in t.blocks;
  }

  /** pmap_free of what pmap_alloc has just handed out restores the partition of the region. */
  lemma FreeUndoesAlloc(t: Table, base: nat, n: nat, d: Ptr)
    requires Inv(t, base) && !Has(t.blocks, d) && AllocPages(t, n, d).Got?
    ensures var t' := FreeAt(AllocPages(t, n, d).t, AllocPages(t, n, d).adr);
            Inv(t', base) && Views(t'.blocks) == Views(t.blocks)
  {
    AllocTheorem(t, base, n, d);
    var t1, adr := AllocPages(t, n, d).t, AllocPages(t, n, d).adr;
    var i :| 0 <= i < |t.blocks| && !t.blocks[i].status.Used? && 0 < n <= t.blocks[i].size
             && t1.blocks == SplitBlocks(t.blocks, i, n, d) && adr == t.blocks[i].start;
    FreeUndoesSplit(t, t1, base, i, n, d);
    Canonical(t, base);
    Canonical(FreeAt(t1, adr), base);
  }

  lemma FreeUndoesSplit(t: Table, t1: Table, base: nat, i: nat, n: nat, d: Ptr)
    requires Inv(t1, base) && i < |t.blocks| && !t.blocks[i].status.Used? && 0 < n <= t.blocks[i].size
    requires t1.blocks == SplitBlocks(t.blocks, i, n, d)
    ensures var t' := FreeAt(t1, t.blocks[i].start); Inv(t', base) && Live(t'.blocks) == Live(t.blocks)
  {
    var adr := t.blocks[i].start;
    AllocAdds(t.blocks, i, n, d);
    SplitAt(t.blocks, i, n, d, t1.blocks);
    StartIs(t1, base, i);
    FreeIdxInv(t1, base, i);
    FreeRemoves(t1.blocks, i);
    AddsUndone(Live(t.blocks), Live(FreeAt(t1, adr).blocks), Live(t1.blocks), Extent(adr, n, true), |Live(t.blocks[..i])|);
  }

  lemma SplitAt(bs: seq<Blk>, i: nat, n: nat, d: Ptr, cs: seq<Blk>)
    requires i < |bs| && n <= bs[i].size && cs == SplitBlocks(bs, i, n, d)
    ensures i < |cs| && cs[..i] == bs[..i] && cs[i].status.Used? && View(cs[i]) == Extent(bs[i].start, n, true)
  {
  }

  lemma AddsUndone(a: seq<Extent>, b: seq<Extent>, c: seq<Extent>, x: Extent, k: nat)
    requires k <= |a| && k <= |b| && c == a[..k] + [x] + a[k..] && c == b[..k] + [x] + b[k..]
    ensures a == b
  {
    assert c[..k] == a[..k] && c[..k] == b[..k] && c[k + 1..] == a[k..] && c[k + 1..] == b[k..];
    assert a == a[..k] + a[k..] && b == b[..k] + b[k..];
  }

  /** pmap_alloc fails for want of room exactly when every maximal gap is smaller. */
  lemma NoRoomIff(t: Table, base: nat, n: nat, d: Ptr)
    requires Inv(t, base) && !Has(t.blocks, d)
    ensures AllocPages(t, n, d).NoRoom? <==>
            0 < n < 0x8000_0000 &&
            forall x :: x in Canon(Live(t.blocks), base, base + REGION * PAGE) && !x.live ==> x.pages < n
  {
    AllocTheorem(t, base, n, d);
    Canonical(t, base);
    ViewsMembers(t.blocks);
    if HasRoom(t.blocks, n) {
      var b :| b in t.blocks && !b.status.Used? && b.size >= n;
      assert View(b) in Views(t.blocks);
    } else {
      forall x | x in Views(t.blocks) && !x.live ensures x.pages < n {
        var b :| b in t.blocks && View(b) == x;
      }
    }
  }

  lemma {:induction false} ViewsMembers(bs: seq<Blk>)
    ensures forall x :: x in Views(bs) <==> exists b :: b in bs && View(b) == x
  {
    if bs != [] {
      ViewsMembers(bs[1..]);
      assert forall b :: b in bs <==> b == bs[0] || b in bs[1..];
    }
  }

  lemma {:induction false} LiveMembers(bs: seq<Blk>)
    ensures forall x :: x in Live(bs) <==> exists b :: b in bs && b.status.Used? && View(b) == x
  {
    if bs != [] {
      LiveMembers(bs[1..]);
      assert forall b :: b in bs <==> b == bs[0] || b in bs[1..];
    }
  }

  /** The calls pmap_free(adrs[0]), pmap_free(adrs[1]), ... */
  function FreeEach(t: Table, adrs: seq<nat>): Table
    decreases |adrs|
  {
    if adrs == [] then t else FreeEach(FreeAt(t, adrs[0]), adrs[1..])
  }

  /** A live range that is not freed stays live where it is, and none appears. */
  lemma FreeLive(t: Table, base: nat, adr: nat)
    requires Inv(t, base)
    ensures forall x :: x in Live(FreeAt(t, adr).blocks) <==> x in Live(t.blocks) && x.start != adr
  {
    var i := FindStart(t.blocks, 0, adr);
    InvClassed(t, base);
    LiveMembers(t.blocks);
    if adr != 0 && i < |t.blocks| {
      var bs, cs := t.blocks, FreeAt(t, adr).blocks;
      FreeIdxInv(t, base, i);
      FreeRemoves(bs, i);
      InvClassed(FreeAt(t, adr), base);
      LiveMembers(cs);
      assert bs[i] in bs;
      forall x | x in Live(bs) ensures x in Live(cs) <==> x.start != adr {
        LiveOthers(bs, cs, i, x);
      }
    } else {
      assert forall b :: b in t.blocks && b.status.Used? ==> b.start != adr;
    }
  }

  lemma {:induction false} LiveOthers(bs: seq<Blk>, cs: seq<Blk>, i: nat, x: Extent)
    requires i < |bs| && bs[i].status.Used? && Adds(cs, bs, View(bs[i]), |Live(bs[..i])|) && Ascending(bs) && x in Live(bs)
    ensures x in Live(cs) <==> x.start != bs[i].start
  {
    LiveSplit(bs, i, i + 1);
    assert bs[i..i + 1] == [bs[i]];
    var k := |Live(bs[..i])|;
    assert Live(bs)[..k] == Live(bs[..i]) && Live(bs)[k + 1..] == Live(bs[i + 1..]);
    assert Live(cs)[..k] == Live(bs)[..k] && Live(cs)[k..] == Live(bs)[k + 1..];
    assert Live(cs) == Live(cs)[..k] + Live(cs)[k..];
    LiveMembers(bs[..i]);
    LiveMembers(bs[i + 1..]);
    forall b | b in bs[..i] || b in bs[i + 1..] ensures b.start != bs[i].start {
      if b in bs[..i] {
        var j :| 0 <= j < i && bs[..i][j] == b;
      } else {
        var j :| 0 <= j < |bs| - i - 1 && bs[i + 1..][j] == b;
        assert bs[i + 1 + j] == b;
      }
    }
  }

  /** Freeing every live range, in whatever order, leaves one free block of the whole region. */
  lemma {:induction false} FreeingAll(t: Table, base: nat, adrs: seq<nat>)
    requires Inv(t, base) && forall x :: x in Live(t.blocks) ==> x.start in adrs
    ensures Inv(FreeEach(t, adrs), base)
    ensures Views(FreeEach(t, adrs).blocks) == [Extent(base, REGION, false)]
    decreases |adrs|
  {
    if adrs == [] {
      assert |Live(t.blocks)| > 0 ==> Live(t.blocks)[0] in Live(t.blocks);
      Canonical(t, base);
    } else {
      FreeInv(t, base, adrs[0]);
      FreeLive(t, base, adrs[0]);
      FreeingAll(FreeAt(t, adrs[0]), base, adrs[1..]);
    }
  }

  // ---------------------------------------------------------------- pmap_alloc in bytes

  /** n pages are the fewest that hold sz bytes. */
  predicate Holds(n: nat, sz: nat) {
    n > 0 && (n - 1) * PAGE < sz <= n * PAGE
  }

  /** cs has the live range x and else the live ranges of bs, of which x was none. */
  ghost predicate MadeLive(bs: seq<Blk>, cs: seq<Blk>, x: Extent) {
    && x.live && x !in Live(bs) && x in Live(cs)
    && forall y :: y in Live(cs) <==> y == x || y in Live(bs)
  }

  /** cs has one live range more than bs: it starts at adr and has the fewest pages that hold sz bytes. */
  ghost predicate HandsOut(bs: seq<Blk>, cs: seq<Blk>, adr: nat, sz: nat) {
    exists n: nat :: Holds(n, sz) && MadeLive(bs, cs, Extent(adr, n, true))
  }

  lemma PagesHold(sz: nat, n: nat)
    ensures sz > 0 ==> (Holds(n, sz) <==> n == PagesOf(sz))
    ensures PagesOf(sz) == 0 <==> sz == 0
    ensures n < PagesOf(sz) <==> n * PAGE < sz
  {
  }

  /**
   pmap_alloc of sz bytes: the range handed out is new, has the fewest pages that hold them, and
   is the only one to become live; every refusal has its exact condition.
   */
  lemma AllocBytesTheorem(t: Table, base: nat, sz: nat, d: Ptr)
    requires Inv(t, base) && !Has(t.blocks, d)
    ensures Alloc(t, sz, d).Got? ==>
            HandsOut(t.blocks, Alloc(t, sz, d).t.blocks, Alloc(t, sz, d).adr, sz) && Inv(Alloc(t, sz, d).t, base)
    ensures Alloc(t, sz, d).BadSize? <==> sz == 0 || sz > 0x7FFF_FFFF * PAGE
    ensures Alloc(t, sz, d).NoRoom? <==>
            0 < sz <= 0x7FFF_FFFF * PAGE &&
            forall x :: x in Canon(Live(t.blocks), base, base + REGION * PAGE) && !x.live ==> x.pages * PAGE < sz
    ensures Alloc(t, sz, d).Crashed? <==>
            && d == NULL && 0 < sz <= 0x7FFF_FFFF * PAGE
            && (exists x :: x in Canon(Live(t.blocks), base, base + REGION * PAGE) && !x.live && sz <= x.pages * PAGE)
            && forall x :: x in Canon(Live(t.blocks), base, base + REGION * PAGE) && !x.live ==> !Holds(x.pages, sz)
  {
    var n := PagesOf(sz);
    AllocTheorem(t, base, n, d);
    NoRoomIff(t, base, n, d);
    PagesHold(sz, n);
    GapsTooSmall(t, base, sz);
    GapsAre(t, base, n);
    if Alloc(t, sz, d).Got? { GotLive(t, base, sz, d); }
  }

  /** A gap has fewer pages than sz bytes take exactly when it has fewer bytes, and as many exactly when it holds them. */
  lemma GapsTooSmall(t: Table, base: nat, sz: nat)
    ensures forall x :: x in Canon(Live(t.blocks), base, base + REGION * PAGE) ==>
              (x.pages < PagesOf(sz) <==> x.pages * PAGE < sz) && (sz > 0 ==> (Holds(x.pages, sz) <==> x.pages == PagesOf(sz)))
  {
    forall x | x in Canon(Live(t.blocks), base, base + REGION * PAGE)
      ensures (x.pages < PagesOf(sz) <==> x.pages * PAGE < sz) && (sz > 0 ==> (Holds(x.pages, sz) <==> x.pages == PagesOf(sz)))
    {
      PagesHold(sz, x.pages);
    }
  }

  /** The free blocks are the gaps. */
  lemma GapsAre(t: Table, base: nat, n: nat)
    requires Inv(t, base)
    ensures (forall b :: b in t.blocks && !b.status.Used? ==> b.size != n)
            <==> forall x :: x in Canon(Live(t.blocks), base, base + REGION * PAGE) && !x.live ==> x.pages != n
  {
    Canonical(t, base);
    ViewsMembers(t.blocks);
    forall b | b in t.blocks && !b.status.Used? ensures View(b) in Views(t.blocks) && !View(b).live { }
  }

  lemma GotLive(t: Table, base: nat, sz: nat, d: Ptr)
    requires Inv(t, base) && !Has(t.blocks, d) && Alloc(t, sz, d).Got?
    ensures Holds(PagesOf(sz), sz) && Inv(Alloc(t, sz, d).t, base)
    ensures MadeLive(t.blocks, Alloc(t, sz, d).t.blocks, Extent(Alloc(t, sz, d).adr, PagesOf(sz), true))
  {
    var n, r := PagesOf(sz), Alloc(t, sz, d);
    AllocTheorem(t, base, n, d);
    PagesHold(sz, n);
    var i :| 0 <= i < |t.blocks| && IsBestFit(t.blocks, t.blocks[i].ptr, n) && 0 < n <= t.blocks[i].size && !t.blocks[i].status.Used?
             && r.t.blocks == SplitBlocks(t.blocks, i, n, d) && r.adr == t.blocks[i].start && Inv(r.t, base);
    InvClassed(t, base);
    NewlyLive(t.blocks, r.t.blocks, i, n, d);
  }

  lemma NewlyLive(bs: seq<Blk>, cs: seq<Blk>, i: nat, n: nat, d: Ptr)
    requires i < |bs| && !bs[i].status.Used? && 0 < n <= bs[i].size && cs == SplitBlocks(bs, i, n, d) && Ascending(bs)
    ensures MadeLive(bs, cs, Extent(bs[i].start, n, true))
  {
    var x, k := Extent(bs[i].start, n, true), |Live(bs[..i])|;
    AllocAdds(bs, i, n, d);
    LiveMembers(bs);
    forall b | b in bs && b.status.Used? ensures View(b) != x {
      var j :| 0 <= j < |bs| && bs[j] == b;
      assert if j < i then bs[j].start < bs[i].start else bs[i].start < bs[j].start;
    }
    assert Live(bs) == Live(bs)[..k] + Live(bs)[k..];
    assert Live(cs)[k] == x;
  }

  // ---------------------------------------------------------------- runs

  /** desc: what mem_alloc returns for the descriptor of a rest. */
  datatype Op = AllocOp(sz: nat, desc: Ptr) | FreeOp(adr: nat)

  /** One call; None when the table is corrupted or NULL dereferenced. */
  ghost function Step(t: Table, op: Op): Option<Table>
    requires |t.fbl| == CLASSES
  {
    match op
    case FreeOp(adr) => Some(FreeAt(t, adr))
    case AllocOp(sz, d) =>
      var r := Alloc(t, sz, d);
      if r.Got? then Some(r.t) else if r.BadSize? || r.NoRoom? then Some(t) else None
  }

  ghost predicate Faulty(t: Table, op: Op)
    requires |t.fbl| == CLASSES
  {
    match op
    case FreeOp(_) => false
    case AllocOp(sz, d) =>
      var n := PagesOf(sz);
      || DoublySelects(t, n)
      || (d == NULL && 0 < n < 0x8000_0000 && HasRoom(t.blocks, n) && forall b :: b in t.blocks && !b.status.Used? ==> b.size != n)
  }

  /** A call fails badly exactly when it is faulty; every other call keeps the canonical form. */
  lemma StepInv(t: Table, base: nat, op: Op)
    requires Inv(t, base) && (op.AllocOp? ==> !Has(t.blocks, op.desc))
    ensures Step(t, op).None? <==> Faulty(t, op)
    ensures Step(t, op).Some? ==> Inv(Step(t, op).value, base)
  {
    match op {
      case FreeOp(adr) => FreeInv(t, base, adr);
      case AllocOp(sz, d) => AllocTheorem(t, base, PagesOf(sz), d);
    }
  }

  /** t' is reached from t by calls that are not faulty and whose descriptors are new. */
  ghost predicate Reaches(t: Table, ops: seq<Op>, t': Table)
    decreases |ops|
  {
    if ops == [] then t == t'
    else
      && |t.fbl| == CLASSES && (ops[0].AllocOp? ==> !Has(t.blocks, ops[0].desc))
      && !Faulty(t, ops[0]) && Step(t, ops[0]).Some? && Reaches(Step(t, ops[0]).value, ops[1..], t')
  }

  lemma {:induction false} ReachesInv(t: Table, base: nat, ops: seq<Op>, t': Table)
    requires Inv(t, base) && Reaches(t, ops, t')
    ensures Inv(t', base)
    decreases |ops|
  {
    if ops != [] {
      StepInv(t, base, ops[0]);
      ReachesInv(Step(t, ops[0]).value, base, ops[1..], t');
    }
  }

  /**
   After every run from the initial region the blocks partition it, no two neighbours are
   free, and the free ranges are exactly the maximal gaps between the live ones.
   */
  lemma RunTheorem(base: nat, d: Ptr, ops: seq<Op>, t': Table)
    requires base > 0 && d != NULL && Reaches(Initial(base, d), ops, t')
    ensures Inv(t', base) && Views(t'.blocks) == Canon(Live(t'.blocks), base, base + REGION * PAGE)
  {
    InitialInv(base, d);
    ReachesInv(Initial(base, d), base, ops, t');
    Canonical(t', base);
  }

  // ---------------------------------------------------------------- an exact fit behind a larger range

  /** A used page keeps a gap of three pages and one of two apart; the larger heads their list. */
  function TwiceTable(): Table {
    Table([Blk(1, 4096, 3, Free, 1), Blk(2, 16384, 1, Used, 0), Blk(3, 20480, 2, Free, 1), Blk(4, 28672, REGION - 6, Used, 17)],
          [2, 4], seq(CLASSES, j => if j == 1 then [1, 3] else []))
  }

  lemma TwiceTableInv()
    ensures Inv(TwiceTable(), 4096)
  {
    var t, bs := TwiceTable(), TwiceTable().blocks;
    ClassOfRange(3, 1);
    ClassOfRange(1, 0);
    ClassOfRange(2, 1);
    assert Pow2(10) == 1024 && Pow2(14) == 16384 && Pow2(17) == 131072;
    ClassOfRange(REGION - 6, 17);
    assert bs[1..] == [bs[1], bs[2], bs[3]] && bs[1..][1..] == [bs[2], bs[3]];
    TiledTwo(bs[2], bs[3], 20480, 4096 + REGION * PAGE);
    assert Tiled(bs[1..], 16384, 4096 + REGION * PAGE);
    assert bs[..3] == [bs[0], bs[1], bs[2]] && bs[..3][..2] == [bs[0], bs[1]] && bs[..3][..2][..1] == [bs[0]];
    assert UsedPtrs([bs[0]], {}) == [];
    assert UsedPtrs(bs[..3][..2], {}) == [2];
    assert UsedPtrs(bs[..3], {}) == [2];
    assert bs[0] in bs && bs[2] in bs;
  }

  /** pmap_alloc of two pages hands out a range that stays on its free list. */
  lemma DoubleSelectionExample(d: Ptr)
    requires d > 4
    ensures Inv(TwiceTable(), 4096) && Alloc(TwiceTable(), 8192, d).Corrupted?
  {
    var t := TwiceTable();
    TwiceTableInv();
    ClassOfRange(2, 1);
    assert SizeOf(t.blocks, 1) == 3;
    ListedDistinct(t, {});
    assert IdxOf(t.blocks, 3) == 2 by { IdxOfAt(t.blocks, 2); }
    assert FirstExact(t.blocks, t.fbl[1], 2, 1) && LargerBefore(t.blocks, t.fbl[1], 2, 1);
    AllocTheorem(t, 4096, 2, d);
  }
}
