/**
 The page-mapping allocator itself: pointer code over the linked block table, in which every
 method is proved to compute the function of Pmap with the same name.
 */
module PmapClass {
  import opened BlockLists
  import opened BlockTables
  import opened BlockSteps
  import opened BestFit
  import opened Pmap
  import opened PmapRuns

  class PmapAllocator {
    const tb: BlockTable
    const base: nat

    ghost predicate Ready()
      reads this, tb, tb.free
    {
      Sound(tb) && Inv(tb.t, base)
    }

    /** lib_init_pmap; d is the descriptor of the only block. */
    constructor (start: nat, d: Ptr)
      requires start > 0 && d != NULL
      ensures Ready() && fresh(tb) && fresh(tb.free) && tb.t == Initial(start, d) && base == start
    {
      base := start;
      tb := new BlockTable();
      new;
      InitialInv(start, d);
      LinkFree(tb, d, start, REGION, Free, NULL, 0);
    }

    /** libpmap_split_free_entry; d is the descriptor mem_alloc gives for the rest. */
    method SplitFreeEntry(p: Ptr, n: nat, d: Ptr, ghost i: nat)
      requires Ready() && i < |tb.t.blocks| && tb.t.blocks[i].ptr == p && !tb.t.blocks[i].status.Used?
      requires 0 < n <= tb.t.blocks[i].size && (n < tb.t.blocks[i].size ==> d != NULL && !Has(tb.t.blocks, d))
      modifies tb, tb.free
      ensures Ready() && tb.t == Split(old(tb.t), i, n, d)
    {
      ghost var t := tb.t;
      LookAt(tb, i);
      InvClassed(t, base);
      assert t.blocks[i] in t.blocks;
      ClassOfValid(n);
      SplitInv(t, base, i, n, d);
      if tb.mem[p].size == n {
        Take(tb, p, n, tb.mem[p].fbl, i);
        return;
      }
      var start, rsize := tb.mem[p].start, tb.mem[p].size - n;
      var fbl := GetRightFbl(n);
      TakeListed(t, i, n, fbl);
      HasSame(t.blocks, i, TakeTable(t, i, n, fbl).blocks, d);
      Take(tb, p, n, fbl, i);
      LinkFree(tb, d, start + n * PAGE, rsize, Free, p, i + 1);
    }

    /**
     libpmap_find_free_block_within and pmap_alloc.  The result bad is set where the code
     dereferences NULL or leaves the range handed out on its free list.
     */
    method AllocBytes(sz: nat, d: Ptr) returns (adr: nat, bad: bool)
      requires Ready() && !Has(tb.t.blocks, d)
      modifies tb, tb.free
      ensures match Alloc(old(tb.t), sz, d)
              case Got(t, a) => Ready() && tb.t == t && adr == a && !bad
              case Corrupted(t, a) => tb.Shape() && tb.t == t && adr == a && bad
              case Crashed => Ready() && tb.t == old(tb.t) && bad
              case _ => Ready() && tb.t == old(tb.t) && adr == NULL && !bad
    {
      var n := sz / PAGE;
      if sz % PAGE != 0 { n := n + 1; }
      ghost var t := tb.t;
      var fbl := GetRightFbl(n);
      if fbl == -1 { return NULL, false; }
      SizeClass(n);
      AllocCases(t, base, n, d);
      Open(tb);
      var retval, bestfit := FindFree(tb, n);
      ghost var i := IdxOf(t.blocks, Chosen((retval, bestfit)));
      if retval == NULL && bestfit == NULL { return NULL, false; }
      adr := HandOut(retval, bestfit, n, d, i);
      bad := if retval == NULL then d == NULL else bestfit != NULL;
    }

    /** The block chosen becomes used. */
    method HandOut(retval: Ptr, bestfit: Ptr, n: nat, d: Ptr, ghost i: nat) returns (adr: nat)
      requires Ready() && i < |tb.t.blocks| && tb.t.blocks[i].ptr == Chosen((retval, bestfit)) && !tb.t.blocks[i].status.Used?
      requires !Has(tb.t.blocks, d) && (retval == NULL ==> 0 < n < tb.t.blocks[i].size)
      modifies tb, tb.free
      ensures var (t, b) := (old(tb.t), old(tb.t).blocks[i]);
              && adr == b.start
              && tb.t == (if retval == NULL then if d == NULL then t else Split(t, i, n, d)
                          else if bestfit == NULL then TakeTable(t, i, b.size, b.fbl)
                          else SetBlk(t, i, b.size, Used, b.fbl))
              && (if retval != NULL && bestfit != NULL then tb.Shape() else Sound(tb))
    {
      var p := Chosen((retval, bestfit));
      LookAt(tb, i);
      InvClassed(tb.t, base);
      ListedAt(tb.t, {}, i);
      adr := tb.mem[p].start;
      if retval == NULL {
        if d != NULL { SplitFreeEntry(p, n, d, i); }
      } else if bestfit == NULL {
        Take(tb, p, tb.mem[p].size, tb.mem[p].fbl, i);
      } else {
        MarkUsed(tb, p, i);
      }
    }

    /** libpmap_unify_free_entry. */
    method UnifyFreeEntry(p: Ptr, ghost i: nat)
      requires Sound(tb) && i < |tb.t.blocks| && tb.t.blocks[i].ptr == p && !tb.t.blocks[i].status.Used?
      requires 0 < MergedBlk(tb.t.blocks, i).size < 0x8000_0000
      modifies tb, tb.free
      ensures Sound(tb) && tb.t == Unify(old(tb.t), i)
    {
      LookAt(tb, i);
      if i > 0 { LookAt(tb, i - 1); }
      if i + 1 < |tb.t.blocks| { LookAt(tb, i + 1); }
      var prev, next, newpg := NULL, NULL, tb.mem[p].size;
      var old_p, old_n := tb.mem[p].gp, tb.mem[p].gn;
      if old_p != NULL && !tb.mem[old_p].status.Used? {
        prev, newpg := old_p, newpg + tb.mem[old_p].size;
      }
      if old_n != NULL && !tb.mem[old_n].status.Used? {
        next, newpg := old_n, newpg + tb.mem[old_n].size;
      }
      if prev != NULL || next != NULL {
        var _ := Join(tb, p, prev, next, newpg, Free, i, MergedBlk(tb.t.blocks, i));
      }
    }

    /** pmap_free. */
    method FreeRange(adr: nat)
      requires Ready()
      modifies tb, tb.free
      ensures Ready() && tb.t == FreeAt(old(tb.t), adr)
    {
      if adr == NULL { return; }
      ghost var t := tb.t;
      FreeInv(t, base, adr);
      InvClassed(t, base);
      Open(tb);
      var block := FindUbl(tb, 0, adr);
      ghost var i := FindStart(t.blocks, 0, adr);
      if i < |t.blocks| { LookAt(tb, i); }
      if block == NULL { return; }
      ReleaseListed(t, i);
      ReleaseTiled(t.blocks, i, base, base + Pmap.REGION * Pmap.PAGE);
      MergedTiled(Freed(t.blocks, i), i, base, base + Pmap.REGION * Pmap.PAGE);
      GiveBack(tb, block, i);
      UnifyFreeEntry(block, i);
    }
  }

  lemma SizeClass(n: nat)
    requires ClassOf(n) != -1
    ensures 0 < n < 0x8000_0000
  {
  }

  /** The outcome of pmap_alloc for each outcome of the search. */
  lemma AllocCases(t: Table, base: nat, n: nat, d: Ptr)
    requires Inv(t, base) && !Has(t.blocks, d) && ClassOf(n) != -1
    ensures var (r, b) := Search(t, n);
            var (i, res) := (IdxOf(t.blocks, Chosen((r, b))), AllocPages(t, n, d));
            && (r == NULL && b == NULL ==> res == NoRoom)
            && (r != NULL || b != NULL ==>
                 && i < |t.blocks| && t.blocks[i].ptr == Chosen((r, b)) && !t.blocks[i].status.Used?
                 && (r == NULL ==> n < t.blocks[i].size)
                 && res == (if r == NULL then if d == NULL then Crashed else Got(Split(t, i, n, d), t.blocks[i].start)
                            else if b == NULL then Got(TakeTable(t, i, t.blocks[i].size, t.blocks[i].fbl), t.blocks[i].start)
                            else Corrupted(SetBlk(t, i, t.blocks[i].size, Used, t.blocks[i].fbl), t.blocks[i].start))
                 && (res.Got? ==> Inv(res.t, base)))
  {
    SizeClass(n);
    AllocTheorem(t, base, n, d);
    InvClassed(t, base);
    ChosenAt(t, n);
    SearchIsBestFit(t, n);
  }
}
