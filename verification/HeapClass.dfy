/**
 The heap allocator itself: pointer code over the linked block table, in which every method
 is proved to compute the function of HeapSpec with the same name.
 */
module HeapClass {
  import opened BlockLists
  import opened BlockTables
  import opened BlockSteps
  import opened BestFit
  import opened HeapSpec
  import opened HeapInv
  import opened HeapOps
  import opened HeapRealloc
  import opened HeapRuns

  class HeapAllocator {
    const tb: BlockTable
    const base: nat
    var usable: nat
    var res: set<nat>
    var ram: map<nat, int>

    ghost function Value(): Heap
      reads this, tb
    {
      Heap(tb.t, base, REGION, usable, res, ram)
    }

    ghost predicate Ready()
      reads this, tb, tb.free
    {
      Sound(tb) && Inv(Value(), false)
    }

    constructor (start: nat)
      requires start > 0 && start % PAGE == 0
      ensures Ready() && fresh(tb) && fresh(tb.free)
      ensures Value().t == Table([], [], seq(CLASSES, _ => [])) && Value().usable == 0 && base == start
    {
      base, usable, res, ram := start, 0, {}, map[];
      tb := new BlockTable();
      new;
    }

    // -------------------------------------------------------------- steps

    /** lib_create_free_entry, behind block i - 1. */
    method CreateFreeEntry(start: nat, sz: nat, status: Status, prev: Ptr, ghost i: nat)
      requires Sound(tb) && i <= |tb.t.blocks| && prev == PtrAt(tb.t.blocks, i - 1) && (prev == NULL ==> tb.t.blocks == [])
      requires start != NULL && !Has(tb.t.blocks, start) && !status.Used? && 0 < sz < 0x8000_0000
      modifies this`ram, tb, tb.free
      ensures Sound(tb) && Value() == CreateFree(old(Value()), i, start, sz, status)
    {
      ram := Outside(ram, start, start + HDR);
      LinkFree(tb, start, start, sz, status, prev, i);
    }

    /** Page frames for n bytes from address a on, rounded up to whole pages. */
    method AllocPages(a: nat, n: nat)
      modifies this`res
      ensures Value() == MapPages(old(Value()), a, Pages(n))
    {
      var pages := n / PAGE;
      if n % PAGE != 0 { pages := pages + 1; }
      res := res + Span(a / PAGE, pages);
    }

    /** lib_split_free_entry; ok tells whether the system has page frames left. */
    method SplitFreeEntry(p: Ptr, sz: nat, ok: bool, ghost i: nat) returns (failed: bool)
      requires Ready() && i < |tb.t.blocks| && tb.t.blocks[i].ptr == p && !tb.t.blocks[i].status.Used? && 0 < sz
      modifies this`res, this`ram, tb, tb.free
      ensures Sound(tb)
      ensures var r := Split(old(Value()), i, sz, ok);
              failed == r.None? && Value() == if failed then old(Value()) else r.value
    {
      LookAt(tb, i);
      InvAt(Value(), false, i);
      var size, start, status := tb.mem[p].size, tb.mem[p].start, tb.mem[p].status;
      if size <= sz + HDR {
        if status.FreeEmpty? {
          if !ok { return true; }
          AllocPages(start + HDR, sz);
        }
        ClassOfValid(size);
        InvClassed(Value(), false);
        Take(tb, p, size, tb.mem[p].fbl, i);
        failed := false;
      } else {
        SplitCut(p, sz, ok, i);
        failed := status.FreeEmpty? && !ok;
      }
    }

    /** The branch in which a rest is split off. */
    method SplitCut(p: Ptr, sz: nat, ok: bool, ghost i: nat)
      requires Ready() && i < |tb.t.blocks| && tb.t.blocks[i].ptr == p && !tb.t.blocks[i].status.Used? && 0 < sz
      requires tb.t.blocks[i].size > sz + HDR
      modifies this`res, this`ram, tb, tb.free
      ensures Sound(tb)
      ensures var r := Split(old(Value()), i, sz, ok);
              Value() == if r.None? then old(Value()) else r.value
    {
      LookAt(tb, i);
      ghost var h := Value();
      var data, oldstat := tb.mem[p].start + HDR, tb.mem[p].status;
      if oldstat.FreeEmpty? {
        if !ok { return; }
        var pstart := data;
        if pstart % PAGE != 0 { pstart := data - data % PAGE + PAGE; }
        AllocPages(pstart, sz + HDR);
      }
      CutFree(p, sz, oldstat, i);
      SplitValue(h, i, sz, ok);
    }

    method CutFree(p: Ptr, sz: nat, oldstat: Status, ghost i: nat)
      requires Ready() && i < |tb.t.blocks| && tb.t.blocks[i].ptr == p && !tb.t.blocks[i].status.Used? && 0 < sz
      requires tb.t.blocks[i].size > sz + HDR && tb.t.blocks[i].status == oldstat
      modifies this`ram, tb, tb.free
      ensures Sound(tb) && tb.t == SplitTable(old(tb.t), i, sz)
      ensures ram == Outside(old(ram), DataOf(old(tb.t).blocks[i]) + sz, DataOf(old(tb.t).blocks[i]) + sz + HDR)
    {
      LookAt(tb, i);
      CutRoom(Value(), i, sz);
      InvClassed(Value(), false);
      var data, rsize := tb.mem[p].start + HDR, tb.mem[p].size - sz - HDR;
      var fbl := GetRightFbl(sz);
      Take(tb, p, sz, fbl, i);
      CreateFreeEntry(data + sz, rsize, oldstat, p, i + 1);
    }

    /** lib_grow_heap. */
    method GrowHeap(n: nat, ok: bool) returns (bl: Ptr)
      requires Ready()
      modifies this`res, this`ram, this`usable, tb, tb.free
      ensures Sound(tb)
      ensures var g := Grow(old(Value()), n, ok);
              && (bl == NULL <==> g.None?) && Value() == (if g.None? then old(Value()) else g.value)
              && (bl != NULL ==> bl == HeapEnd(old(Value())))
    {
      ghost var h := Value();
      var newstart, pages := base + usable * PAGE, n / PAGE;
      if n % PAGE != 0 { pages := pages + 1; }
      if pages == 0 || usable + pages > REGION - 1 || !ok { return NULL; }
      GrowRoom(h);
      LastPtr(tb);
      usable := usable + pages;
      res := res + Span(newstart / PAGE, pages);
      CreateFreeEntry(newstart, pages * PAGE - HDR, Free, tb.last, |tb.t.blocks|);
      return newstart;
    }

    /** mem_heap_dec, after the table has shrunk. */
    method GiveUpPages(pages: nat)
      modifies this`res, this`ram, this`usable
      ensures Value() == HeapDec(old(Value()), pages)
    {
      if usable >= pages {
        var q := (base + usable * PAGE - pages * PAGE) / PAGE;
        res := res - Span(q, pages);
        ram := Outside(ram, q * PAGE, (q + pages) * PAGE);
        usable := usable - pages;
      }
    }

    /** lib_shrink_heap. */
    method ShrinkHeap()
      requires Ready()
      modifies this`res, this`ram, this`usable, tb, tb.free
      ensures Sound(tb) && Value() == Shrink(old(Value()))
    {
      ghost var h := Value();
      LastPtr(tb);
      var block := tb.last;
      if block == NULL { return; }
      ghost var n := |tb.t.blocks|;
      LookAt(tb, n - 1);
      if tb.mem[block].gn != NULL { assert false; }
      var pages, prev := (tb.mem[block].size + HDR) / PAGE, tb.mem[block].gp;
      if pages > 0 {
        ShrinkRoom(h);
        ShrinkLists(tb, block, prev);
        GiveUpPages(pages);
      }
    }

    /** lib_clean_free_entry. */
    method CleanFreeEntry(p: Ptr, ghost i: nat)
      requires Ready() && i < |tb.t.blocks| && tb.t.blocks[i].ptr == p && !tb.t.blocks[i].status.Used?
      modifies this`res, this`ram, tb, tb.free
      ensures Sound(tb) && Value() == Clean(old(Value()), i)
    {
      LookAt(tb, i);
      var size, data := tb.mem[p].size, tb.mem[p].start + HDR;
      if size >= PAGE {
        var pages, pstart := size / PAGE, data;
        if pstart % PAGE != 0 {
          pages := pages - 1;
          pstart := data - data % PAGE + PAGE;
        }
        if (pstart + size) % PAGE != 0 && pages > 0 { pages := pages - 1; }
        if pages > 0 {
          res := res - Span(pstart / PAGE, pages);
          ram := Outside(ram, pstart / PAGE * PAGE, (pstart / PAGE + pages) * PAGE);
        }
      }
      MarkEmpty(tb, p, i);
    }

    /** A block that ends the heap is given up as far as possible; any other is emptied of pages. */
    method ShrinkOrClean(p: Ptr, ghost i: nat)
      requires Ready() && i < |tb.t.blocks| && tb.t.blocks[i].ptr == p && !tb.t.blocks[i].status.Used?
      modifies this`res, this`ram, this`usable, tb, tb.free
      ensures Sound(tb)
      ensures var h := old(Value()); Value() == if i + 1 == |h.t.blocks| then Shrink(h) else Clean(h, i)
    {
      LastIs(tb, i);
      if tb.last == p { ShrinkHeap(); } else { CleanFreeEntry(p, i); }
    }

    /** lib_unify_free_entry. */
    method UnifyFreeEntry(p: Ptr, ghost i: nat)
      requires Ready() && i < |tb.t.blocks| && tb.t.blocks[i].ptr == p && !tb.t.blocks[i].status.Used?
      modifies this`res, this`ram, this`usable, tb, tb.free
      ensures Sound(tb) && Value() == Unify(old(Value()), i)
    {
      ghost var h := Value();
      var prev, next, newsz, newstat := MergerOf(tb, p, i);
      if prev != NULL || next != NULL {
        MergedLaid(h.t.blocks, i, h.base, HeapEnd(h), false);
        MergeInv(h, i, false);
        var q := Join(tb, p, prev, next, newsz, newstat, i, MergedBlk(h.t.blocks, i));
        ShrinkOrClean(q, MergeLo(h.t.blocks, i));
      }
    }

    // -------------------------------------------------------------- mem_alloc

    /** lib_find_free_block_within; err: an error is pending; both: the search selected two blocks. */
    method FindFreeBlockWithin(sz: nat, ok: bool) returns (bl: Ptr, err: bool, both: bool, ghost r: Found)
      requires Ready()
      modifies this`res, this`ram, tb, tb.free
      ensures Sound(tb) && r == FindFreeWithin(old(Value()), sz, ok)
      ensures (r.Taken? || r.Twice?) && bl != NULL ==> r.i < |tb.t.blocks| && bl == tb.t.blocks[r.i].ptr
      ensures Value() == if r.Taken? then r.h else old(Value())
      ensures (err <==> r.BadSize? || r.NoPages?) && (both <==> r.Twice?)
      ensures bl != NULL <==> r.Taken? || r.Twice?
    {
      ghost var h := Value();
      r := FindFreeWithin(h, sz, ok);
      FindInv(h, sz, ok, false);
      var fbl := GetRightFbl(sz);
      if fbl == -1 { return NULL, true, false, r; }
      if sz == 0 || sz >= 0x8000_0000 { assert false; }
      ChosenFree(h, sz, false);
      Open(tb);
      var retval, bestfit := FindFree(tb, sz);
      ghost var i := IdxOf(h.t.blocks, Chosen((retval, bestfit)));
      if retval == NULL && bestfit != NULL {
        var failed := SplitFreeEntry(bestfit, sz, ok, i);
        if failed { return NULL, true, false, r; }
        LookAt(tb, i);
        return bestfit, false, false, r;
      } else if retval != NULL && bestfit == NULL {
        var failed := TakeExact(retval, sz, ok, i);
        if failed { return NULL, true, false, r; }
        LookAt(tb, i);
        return retval, false, false, r;
      }
      return retval, false, retval != NULL, r;
    }

    /** The branch for a block that fits exactly. */
    method TakeExact(p: Ptr, sz: nat, ok: bool, ghost i: nat) returns (failed: bool)
      requires Ready() && i < |tb.t.blocks| && tb.t.blocks[i].ptr == p && !tb.t.blocks[i].status.Used?
      modifies this`res, tb, tb.free
      ensures Sound(tb)
      ensures var h := old(Value());
              var b := h.t.blocks[i];
              && failed == (b.status.FreeEmpty? && !ok)
              && Value() == if failed then h else
                              TakeBlk(if b.status.FreeEmpty? then MapPages(h, RoundUp(DataOf(b)), Pages(sz)) else h, i, b.size, b.fbl)
    {
      LookAt(tb, i);
      InvAt(Value(), false, i);
      InvClassed(Value(), false);
      if tb.mem[p].status.FreeEmpty? {
        if !ok { return true; }
        var pstart := tb.mem[p].start + HDR;
        if pstart % PAGE != 0 { pstart := pstart - pstart % PAGE + PAGE; }
        AllocPages(pstart, sz);
      }
      ClassOfValid(tb.mem[p].size);
      Take(tb, p, tb.mem[p].size, tb.mem[p].fbl, i);
      failed := false;
    }

    /**
     mem_alloc: the state and the address that the function MemAlloc gives, also where the
     list structure is broken by a block that stays on its free list.
     */
    method Alloc(sz: nat, ok: bool) returns (adr: nat, both: bool)
      requires Ready()
      modifies this`res, this`ram, this`usable, tb, tb.free
      ensures both <==> MemAlloc(old(Value()), sz, ok).Corrupted?
      ensures match MemAlloc(old(Value()), sz, ok)
              case Got(h, a) => Ready() && Value() == h && adr == a
              case Refused(h) => Ready() && Value() == h && adr == NULL
              case Corrupted(h, a) => tb.Shape() && Value() == h && adr == a
    {
      ghost var h := Value();
      AllocInv(h, sz, ok, false);
      var bl, err, twice, r := FindFreeBlockWithin(sz, ok);
      AllocFrom(h, sz, ok, r);
      if err { return NULL, false; }
      both := twice;
      if bl == NULL {
        adr := AllocGrown(h, sz, ok);
      } else {
        adr := HandOut(bl, r.i);
      }
    }

    /** The block found is marked used once more, and its payload returned. */
    method HandOut(bl: Ptr, ghost i: nat) returns (adr: nat)
      requires Sound(tb) && i < |tb.t.blocks| && tb.t.blocks[i].ptr == bl
      modifies tb
      ensures var (h, b) := (old(Value()), old(Value()).t.blocks[i]);
              && adr == DataOf(b) && tb.Shape() && Value() == h.(t := SetBlk(h.t, i, b.size, Used, b.fbl))
              && (b.status.Used? ==> Sound(tb) && Value() == h)
    {
      LookAt(tb, i);
      adr := tb.mem[bl].start + HDR;
      MarkUsed(tb, bl, i);
    }

    /** The part of mem_alloc that grows the heap. */
    method AllocGrown(ghost h: Heap, sz: nat, ok: bool) returns (adr: nat)
      requires Ready() && h == Value() && 0 < sz && FindFreeWithin(h, sz, ok).NoFit?
      modifies this`res, this`ram, this`usable, tb, tb.free
      ensures match MemAlloc(h, sz, ok)
              case Got(h', a) => Ready() && Value() == h' && adr == a
              case Refused(h') => Ready() && Value() == h' && adr == NULL
              case Corrupted(_, _) => false
    {
      var bl := GrowHeap(sz + HDR, ok);
      if bl == NULL { return NULL; }
      GrowInv(h, sz + HDR, ok, false);
      GrownServes(h, sz, ok, false);
      ghost var n := |h.t.blocks|;
      var failed := SplitFreeEntry(bl, sz, ok, n);
      if failed { assert false; }
      adr := bl + HDR;
    }

    // -------------------------------------------------------------- mem_free

    /** mem_free. */
    method FreeMem(adr: nat)
      requires Ready()
      modifies this`res, this`ram, this`usable, tb, tb.free
      ensures Ready() && Value() == MemFree(old(Value()), adr)
    {
      if adr == NULL { return; }
      ghost var h := Value();
      FreeInv(h, adr, false);
      InvClassed(h, false);
      Open(tb);
      var block := FindUbl(tb, HDR, adr);
      ghost var i := FindUsed(h.t.blocks, adr);
      if i < |h.t.blocks| { LookAt(tb, i); }
      if block == NULL { return; }
      GiveBack(tb, block, i);
      ReleaseInv(h, i, false);
      LastIs(tb, i);
      if block == tb.last { ShrinkHeap(); } else { UnifyFreeEntry(block, i); }
    }

    // -------------------------------------------------------------- mem_realloc

    /** The branch that cuts a used block down; stale: the new descriptor is used after it has left the table. */
    method CutDown(p: Ptr, nsz: nat, ghost i: nat) returns (stale: bool)
      requires Ready() && i < |tb.t.blocks| && tb.t.blocks[i].ptr == p && tb.t.blocks[i].status.Used?
      requires 0 < nsz < tb.t.blocks[i].size
      modifies this`res, this`ram, this`usable, tb, tb.free
      ensures Sound(tb)
      ensures var r := ShrinkBlk(old(Value()), i, nsz); Value() == r.h && (stale <==> r.StaleHeader?)
    {
      ghost var h := Value();
      LookAt(tb, i);
      var rest, newstart := tb.mem[p].size - nsz, tb.mem[p].start + HDR + nsz;
      if rest <= HDR {
        stale := false;
      } else {
        ghost var h2, h3;
        stale, h2, h3 := CutRest(p, newstart, nsz, rest - HDR, i);
        ShrinkBlkIs(h, i, nsz, h2, h3);
      }
    }

    /** The block is cut down, and the rest is merged and left. */
    method CutRest(p: Ptr, newstart: nat, nsz: nat, rest: nat, ghost i: nat) returns (stale: bool, ghost h2: Heap, ghost h3: Heap)
      requires Ready() && i < |tb.t.blocks| && tb.t.blocks[i].ptr == p && tb.t.blocks[i].status.Used?
      requires 0 < nsz && rest > 0 && nsz + HDR + rest == tb.t.blocks[i].size && newstart == DataOf(tb.t.blocks[i]) + nsz
      modifies this`res, this`ram, this`usable, tb, tb.free
      ensures Sound(tb)
      ensures h2 == CutBlk(old(Value()), i, nsz) && i + 1 < |h2.t.blocks| && h3 == Unify(h2, i + 1)
      ensures (stale <==> i + 1 >= |h3.t.blocks|) && Value() == if i + 1 >= |h3.t.blocks| then h3 else LeaveRest(h3, i + 1)
    {
      ghost var h := Value();
      CutUsed(p, newstart, nsz, rest, i);
      h2 := Value();
      CutReady(h, i, nsz, h2);
      h3 := Unify(h2, i + 1);
      stale := SettleRest(newstart, i + 1);
    }

    /** The new free block behind used block i - 1 is merged, and then cleaned or given up. */
    method SettleRest(newblock: Ptr, ghost i: nat) returns (stale: bool)
      requires Ready() && 0 < i < |tb.t.blocks| && tb.t.blocks[i].ptr == newblock
      requires !tb.t.blocks[i].status.Used? && tb.t.blocks[i - 1].status.Used?
      modifies this`res, this`ram, this`usable, tb, tb.free
      ensures Sound(tb)
      ensures var h3 := Unify(old(Value()), i);
              && (stale <==> i >= |h3.t.blocks|)
              && Value() == if i >= |h3.t.blocks| then h3 else LeaveRest(h3, i)
    {
      ghost var h2 := Value();
      UnifyFreeEntry(newblock, i);
      UnifyInv(h2, i, false);
      UnifyBehindUsed(h2, i, false);
      UnifyPtr(h2, Value(), tb, i);
      if newblock !in tb.mem { return true; }
      ShrinkOrClean(newblock, i);
      stale := false;
    }

    method CutUsed(p: Ptr, newstart: nat, nsz: nat, rest: nat, ghost i: nat)
      requires Ready() && i < |tb.t.blocks| && tb.t.blocks[i].ptr == p && tb.t.blocks[i].status.Used?
      requires 0 < nsz && rest > 0 && nsz + HDR + rest == tb.t.blocks[i].size && newstart == DataOf(tb.t.blocks[i]) + nsz
      modifies this`ram, tb, tb.free
      ensures Sound(tb) && Value() == CutBlk(old(Value()), i, nsz)
    {
      UsedRoom(Value(), i, nsz);
      LookAt(tb, i);
      var fbl := GetRightFbl(nsz);
      SetUsed(tb, p, nsz, fbl, i);
      CreateFreeEntry(newstart, rest, Free, p, i + 1);
    }

    /** Used block p grows to nsz bytes and swallows its GBL successor. */
    method AbsorbNext(p: Ptr, next: Ptr, nsz: nat, ghost i: nat)
      requires Sound(tb) && i + 1 < |tb.t.blocks| && tb.t.blocks[i].ptr == p && tb.t.blocks[i].status.Used?
      requires tb.t.blocks[i + 1].ptr == next && 0 < nsz < 0x8000_0000
      modifies tb, tb.free
      ensures Sound(tb) && Value() == Absorb(old(Value()), i, nsz)
    {
      LookAt(tb, i + 1);
      var tmpnx := tb.mem[next].gn;
      CutNext(tb, p, next, tmpnx, i);
      var fbl := GetRightFbl(nsz);
      ClassOfValid(nsz);
      SetUsed(tb, p, nsz, fbl, i);
    }

    /** The branches that make a block larger; stopped: the table was corrupted by the inner mem_alloc. */
    method GrowBlock(p: Ptr, adr: nat, nsz: nat, ok: bool, ghost i: nat) returns (r: nat, stopped: bool)
      requires Ready() && i < |tb.t.blocks| && tb.t.blocks[i].ptr == p && tb.t.blocks[i].status.Used?
      requires adr == DataOf(tb.t.blocks[i]) && tb.t.blocks[i].size < nsz
      modifies this`res, this`ram, this`usable, tb, tb.free
      ensures Did(Expand(old(Value()), i, nsz, ok), r, stopped)
    {
      ghost var h := Value();
      LookAt(tb, i);
      if i + 1 < |h.t.blocks| { LookAt(tb, i + 1); GrowBound(h, i); }
      var next, more := tb.mem[p].gn, nsz - tb.mem[p].size;
      if next != NULL && !tb.mem[next].status.Used? {
        if tb.mem[next].size + HDR == more {
          AbsorbNext(p, next, nsz, i);
          ReallocAbsorbs(h, i, nsz, ok, false);
          return adr, false;
        } else if tb.mem[next].size > more {
          r := GrowBySplit(p, next, adr, nsz, ok, i);
          ExpandIs(h, i, nsz, ok, Split(h, i + 1, nsz - h.t.blocks[i].size, ok));
          return r, false;
        }
      }
      r, stopped := Move(adr, tb.mem[p].size, nsz, ok, i);
    }

    method GrowBySplit(p: Ptr, next: Ptr, adr: nat, nsz: nat, ok: bool, ghost i: nat) returns (r: nat)
      requires Ready() && i + 1 < |tb.t.blocks| && tb.t.blocks[i].ptr == p && tb.t.blocks[i].status.Used?
      requires tb.t.blocks[i + 1].ptr == next && GrowsBySplit(tb.t.blocks, i, nsz) && nsz < 0x8000_0000
      requires adr == DataOf(tb.t.blocks[i])
      modifies this`res, this`ram, this`usable, tb, tb.free
      ensures var h := old(Value());
              match Split(h, i + 1, nsz - h.t.blocks[i].size, ok)
              case None => Did(MoveAfterError(h, adr, nsz), r, false)
              case Some(h1) => i + 1 < |h1.t.blocks| && Did(Moved(Absorb(h1, i, nsz), adr), r, false)
    {
      ghost var h := Value();
      LookAt(tb, i);
      SplitCases(h, i, nsz, ok, Split(h, i + 1, nsz - h.t.blocks[i].size, ok));
      var failed := SplitFreeEntry(next, nsz - tb.mem[p].size, ok, i + 1);
      if failed {
        r := MoveWithError(adr, nsz, i);
      } else {
        r := AbsorbFront(p, next, adr, nsz, i);
      }
    }

    method AbsorbFront(p: Ptr, next: Ptr, adr: nat, nsz: nat, ghost i: nat) returns (r: nat)
      requires Sound(tb) && i + 1 < |tb.t.blocks| && tb.t.blocks[i].ptr == p && tb.t.blocks[i].status.Used?
      requires tb.t.blocks[i + 1].ptr == next && 0 < nsz < 0x8000_0000 && Inv(Absorb(Value(), i, nsz), false)
      modifies tb, tb.free
      ensures Did(Moved(Absorb(old(Value()), i, nsz), adr), r, false)
    {
      AbsorbNext(p, next, nsz, i);
      r := adr;
    }

    /** mem_alloc, buf_copy and mem_free. */
    method Move(adr: nat, osz: nat, nsz: nat, ok: bool, ghost i: nat) returns (r: nat, stopped: bool)
      requires Ready() && i < |tb.t.blocks| && tb.t.blocks[i].status.Used?
      requires adr == DataOf(tb.t.blocks[i]) && osz == tb.t.blocks[i].size < nsz
      modifies this`res, this`ram, this`usable, tb, tb.free
      ensures Did(MoveBlk(old(Value()), adr, osz, nsz, ok), r, stopped)
    {
      ghost var h := Value();
      r, stopped := Alloc(nsz, ok);
      MoveCases(h, adr, osz, nsz, ok, MemAlloc(h, nsz, ok));
      if stopped { return; }
      CopyPayload(r, adr, osz);
      FreeMem(adr);
    }

    /** buf_copy refuses the address NULL. */
    method CopyPayload(dst: nat, src: nat, n: nat)
      modifies this`ram
      ensures var h := old(Value()); Value() == if dst == NULL then h else h.(ram := CopyBytes(h.ram, dst, src, n))
      ensures old(Ready()) ==> Ready()
    {
      if dst != NULL { ram := CopyBytes(ram, dst, src, n); }
    }

    /** The same while an error is pending. */
    method MoveWithError(adr: nat, nsz: nat, ghost i: nat) returns (r: nat)
      requires Ready() && i < |tb.t.blocks| && tb.t.blocks[i].status.Used? && adr == DataOf(tb.t.blocks[i])
      modifies this`res, this`ram, this`usable, tb, tb.free
      ensures Did(MoveAfterError(old(Value()), adr, nsz), r, false)
    {
      FindInv(Value(), nsz, false, false);
      var _, _, _, found := FindFreeBlockWithin(nsz, false);
      FreeMem(adr);
      r := NULL;
    }

    /** The method has reached the outcome res with return value r. */
    ghost predicate Did(res: ReallocResult, r: nat, stopped: bool)
      reads this, tb, tb.free
    {
      Value() == res.h &&
      match res
      case Moved(_, a) => Ready() && r == a && !stopped
      case Lost(_) => Ready() && r == NULL && !stopped
      case Rejected(_) => Ready() && r == NULL && !stopped
      case StaleHeader(_) => Sound(tb) && stopped
      case Broken(_) => tb.Shape() && stopped
    }

    /**
     mem_realloc reaches the outcome of the function MemRealloc.  It stops where the code goes
     on over a vanished descriptor or over corrupted lists.
     */
    method Realloc(adr: nat, nsz: nat, ok: bool) returns (r: nat, stopped: bool)
      requires Ready()
      modifies this`res, this`ram, this`usable, tb, tb.free
      ensures Did(MemRealloc(old(Value()), adr, nsz, ok), r, stopped)
    {
      ghost var h := Value();
      if adr == NULL && nsz == 0 { return NULL, false; }
      if adr == NULL { r, stopped := Alloc(nsz, ok); return; }
      if nsz == 0 { FreeMem(adr); return NULL, false; }
      InvClassed(h, false);
      Open(tb);
      var p := FindUbl(tb, HDR, adr);
      ghost var i := FindUsed(h.t.blocks, adr);
      if i < |h.t.blocks| { LookAt(tb, i); ReallocTheorem(h, adr, nsz, ok, false); }
      if p == NULL { return NULL, false; }
      if tb.mem[p].size == nsz { return adr, false; }
      if tb.mem[p].size > nsz {
        stopped := CutDown(p, nsz, i);
        r := adr;
      } else {
        r, stopped := GrowBlock(p, adr, nsz, ok, i);
      }
    }
  }

  /** The split, one component at a time. */
  lemma SplitValue(h: Heap, i: nat, sz: nat, ok: bool)
    requires i < |h.t.blocks| && h.t.blocks[i].size > sz + HDR
    ensures var b := h.t.blocks[i];
            var res := if b.status.FreeEmpty? then h.res + Span(RoundUp(DataOf(b)) / PAGE, Pages(sz + HDR)) else h.res;
            Split(h, i, sz, ok) == if b.status.FreeEmpty? && !ok then None else
              Some(h.(t := SplitTable(h.t, i, sz), res := res, ram := Outside(h.ram, DataOf(b) + sz, DataOf(b) + sz + HDR)))
  {
  }

  /** What mem_alloc makes of the block found. */
  lemma AllocFrom(h: Heap, sz: nat, ok: bool, r: Found)
    requires Inv(h, false) && r == FindFreeWithin(h, sz, ok)
    ensures match r
            case Taken(h', i) => i < |h'.t.blocks| && h'.t.blocks[i].status.Used? && MemAlloc(h, sz, ok) == Got(h', DataOf(h'.t.blocks[i]))
            case Twice(i) =>
              && i < |h.t.blocks|
              && MemAlloc(h, sz, ok) == Corrupted(h.(t := SetBlk(h.t, i, h.t.blocks[i].size, Used, h.t.blocks[i].fbl)), DataOf(h.t.blocks[i]))
            case NoFit => 0 < sz
            case _ => MemAlloc(h, sz, ok) == Refused(h)
  {
    FindInv(h, sz, ok, false);
  }

  /** There is room for a new descriptor behind block i once it has been cut down to sz bytes. */
  lemma CutRoom(h: Heap, i: nat, sz: nat)
    requires Inv(h, false) && i < |h.t.blocks| && !h.t.blocks[i].status.Used? && 0 < sz && h.t.blocks[i].size > sz + HDR
    ensures 0 <= ClassOf(sz) < CLASSES && h.t.blocks[i].size < 0x8000_0000
    ensures var t := TakeTable(h.t, i, sz, ClassOf(sz));
            |t.blocks| == |h.t.blocks| && t.blocks[i].ptr == h.t.blocks[i].ptr && !Has(t.blocks, DataOf(h.t.blocks[i]) + sz)
  {
    var bs, b := h.t.blocks, h.t.blocks[i].(size := sz, status := Used, fbl := ClassOf(sz));
    ClassedSize(bs, bs[i], h.base, HeapEnd(h), false);
    ClassOfValid(sz);
    TakeListed(h.t, i, sz, ClassOf(sz));
    LaidSmaller(bs, i, b, h.base, HeapEnd(h), false);
    FreshBetween(bs[i := b], h.base, HeapEnd(h), i + 1, DataOf(bs[i]) + sz);
  }

  lemma GrowRoom(h: Heap)
    requires Inv(h, false)
    ensures HeapEnd(h) != NULL && !Has(h.t.blocks, HeapEnd(h))
  {
    LaidBounds(h.t.blocks, h.base, HeapEnd(h), false);
  }

  lemma ShrinkRoom(h: Heap)
    requires Inv(h, false) && |h.t.blocks| > 0
    ensures var bs := h.t.blocks; |bs| > 1 ==> 0 <= ClassOf(bs[|bs| - 2].size + LastRest(bs)) < CLASSES
    ensures |h.t.blocks| == 1 ==> h.t.blocks[0].start % PAGE == 0
  {
    InvClassed(h, false);
    var bs := h.t.blocks;
    if |bs| > 1 {
      assert bs[|bs| - 2] in bs;
      ClassOfValid(bs[|bs| - 2].size + LastRest(bs));
    }
  }

  lemma LastPtr(tb: BlockTable)
    requires Folded(tb)
    ensures tb.last == PtrAt(tb.t.blocks, |tb.t.blocks| - 1)
    ensures tb.last == NULL <==> tb.t.blocks == []
  {
    Open(tb);
    if tb.t.blocks != [] { LookAt(tb, |tb.t.blocks| - 1); }
  }

  /** The predecessor of an unaligned last block gets the bytes up to the page boundary; the last block goes. */
  method ShrinkLists(tb: BlockTable, p: Ptr, prev: Ptr)
    requires Sound(tb) && |tb.t.blocks| > 0 && p == tb.t.blocks[|tb.t.blocks| - 1].ptr && prev == PtrAt(tb.t.blocks, |tb.t.blocks| - 2)
    requires var bs := tb.t.blocks; |bs| > 1 ==> 0 <= ClassOf(bs[|bs| - 2].size + LastRest(bs)) < CLASSES
    modifies tb, tb.free
    ensures Sound(tb) && tb.t == ShrinkTable(old(tb.t))
  {
    ghost var n := |tb.t.blocks|;
    LookAt(tb, n - 1);
    if n > 1 { LookAt(tb, n - 2); }
    if tb.mem[p].start % PAGE != 0 && prev != NULL {
      var rest := PAGE - tb.mem[p].start % PAGE;
      ExtendShape(tb.t, n - 2, rest);
      ExtendBlock(tb, prev, rest, n - 2);
    }
    DropBlock(tb, p, prev);
  }

  lemma ExtendShape(t: Table, i: nat, rest: nat)
    requires i + 1 < |t.blocks|
    ensures var bs := Extend(t, i, rest).blocks;
            |bs| == |t.blocks| && bs[i].ptr == t.blocks[i].ptr && bs[i + 1] == t.blocks[i + 1]
  {
  }

  lemma LastIs(tb: BlockTable, i: nat)
    requires Folded(tb) && i < |tb.t.blocks|
    ensures tb.last == tb.t.blocks[i].ptr <==> i + 1 == |tb.t.blocks|
    ensures tb.mem.Keys >= {tb.t.blocks[i].ptr} && (tb.mem[tb.t.blocks[i].ptr].gn == NULL <==> i + 1 == |tb.t.blocks|)
  {
    LastPtr(tb);
    LookAt(tb, i);
    if i + 1 < |tb.t.blocks| { LookAt(tb, |tb.t.blocks| - 1); LookAt(tb, i + 1); }
    Open(tb);
  }

  /** Block i gets rest more bytes and, when it is free and changes class, moves to its new list. */
  method ExtendBlock(tb: BlockTable, p: Ptr, rest: nat, ghost i: nat)
    requires Sound(tb) && i < |tb.t.blocks| && tb.t.blocks[i].ptr == p && 0 <= ClassOf(tb.t.blocks[i].size + rest) < CLASSES
    modifies tb, tb.free
    ensures Sound(tb) && tb.t == Extend(old(tb.t), i, rest)
  {
    LookAt(tb, i);
    assert {} + {p} == {p};
    var size, status := tb.mem[p].size + rest, tb.mem[p].status;
    var f := GetRightFbl(size);
    if !status.Used? && tb.mem[p].fbl != f {
      RemoveIf(tb, p, i);
      SetAny(tb, p, i, size, status, f);
      AddBack(tb, p, i);
    } else {
      Open(tb);
      tb.SetFields(p, i, size, status, f);
    }
  }

  /** The last block leaves the GBL and its other list. */
  method DropBlock(tb: BlockTable, p: Ptr, prev: Ptr)
    requires Sound(tb) && |tb.t.blocks| > 0 && p == tb.t.blocks[|tb.t.blocks| - 1].ptr && prev == PtrAt(tb.t.blocks, |tb.t.blocks| - 2)
    modifies tb, tb.free
    ensures Sound(tb) && tb.t == DropTail(old(tb.t))
  {
    ghost var n := |tb.t.blocks| - 1;
    LookAt(tb, n);
    Open(tb);
    assert {} + {p} == {p} && {p} - {p} == {};
    if tb.mem[p].status.Used? { tb.RemoveFromUbl(p, n); } else { tb.RemoveFromFbl(p, n); }
    if n > 0 { ListedAt(tb.t, tb.detached, n - 1); }
    if prev == NULL {
      tb.DropOnly();
    } else {
      PtrsOfSlice(tb.t.blocks, n);
      tb.CutGblAfter(prev, NULL, {p}, n - 1, n + 1);
    }
  }

  method MarkEmpty(tb: BlockTable, p: Ptr, ghost i: nat)
    requires Sound(tb) && i < |tb.t.blocks| && tb.t.blocks[i].ptr == p && !tb.t.blocks[i].status.Used?
    modifies tb
    ensures var b := old(tb.t).blocks[i]; Sound(tb) && tb.t == SetBlk(old(tb.t), i, b.size, FreeEmpty, b.fbl)
  {
    LookAt(tb, i);
    Open(tb);
    ListedAt(tb.t, {}, i);
    tb.SetFields(p, i, tb.mem[p].size, FreeEmpty, tb.mem[p].fbl);
  }

  /** The free neighbours of free block i, and the size and status of their merger. */
  method MergerOf(tb: BlockTable, p: Ptr, ghost i: nat) returns (prev: Ptr, next: Ptr, newsz: nat, newstat: Status)
    requires Sound(tb) && i < |tb.t.blocks| && tb.t.blocks[i].ptr == p && !tb.t.blocks[i].status.Used?
    ensures var bs := tb.t.blocks;
            && prev == (if IsFreeAt(bs, i - 1) then bs[i - 1].ptr else NULL) && (IsFreeAt(bs, i - 1) <==> prev != NULL)
            && next == (if IsFreeAt(bs, i + 1) then bs[i + 1].ptr else NULL) && (IsFreeAt(bs, i + 1) <==> next != NULL)
            && newsz == MergedBlk(bs, i).size && newstat == MergedBlk(bs, i).status
  {
    LookAt(tb, i);
    if i > 0 { LookAt(tb, i - 1); }
    if i + 1 < |tb.t.blocks| { LookAt(tb, i + 1); }
    prev, next, newsz, newstat := NULL, NULL, tb.mem[p].size, tb.mem[p].status;
    var old_p, old_n := tb.mem[p].gp, tb.mem[p].gn;
    if old_p != NULL && !tb.mem[old_p].status.Used? {
      prev, newsz := old_p, newsz + tb.mem[old_p].size + HDR;
      if tb.mem[old_p].status.FreeEmpty? { newstat := FreeEmpty; }
    }
    if old_n != NULL && !tb.mem[old_n].status.Used? {
      next, newsz := old_n, newsz + tb.mem[old_n].size + HDR;
      if tb.mem[old_n].status.FreeEmpty? { newstat := FreeEmpty; }
    }
  }

  // ---------------------------------------------------------------- what mem_realloc relies on

  /** The used block p gets a new size. */
  method SetUsed(tb: BlockTable, p: Ptr, size: nat, fbl: int, ghost i: nat)
    requires Sound(tb) && i < |tb.t.blocks| && tb.t.blocks[i].ptr == p && tb.t.blocks[i].status.Used? && 0 <= fbl < CLASSES
    modifies tb
    ensures Sound(tb) && tb.t == SetBlk(old(tb.t), i, size, Used, fbl)
  {
    Open(tb);
    tb.SetFields(p, i, size, Used, fbl);
  }

  /** The successor of block i leaves its list and the GBL. */
  method CutNext(tb: BlockTable, p: Ptr, next: Ptr, tmpnx: Ptr, ghost i: nat)
    requires Sound(tb) && i + 1 < |tb.t.blocks| && tb.t.blocks[i].ptr == p && tb.t.blocks[i + 1].ptr == next
    requires tmpnx == PtrAt(tb.t.blocks, i + 2)
    modifies tb, tb.free
    ensures Sound(tb)
    ensures var t := old(tb.t);
            tb.t == CutBlks(if t.blocks[i + 1].status.Used? then RemUbl(t, i + 1) else RemFbl(t, i + 1), i, i + 2)
  {
    LookAt(tb, i + 1);
    Open(tb);
    assert {} + {next} == {next} && {next} - {next} == {};
    if tb.mem[next].status.Used? { tb.RemoveFromUbl(next, i + 1); } else { tb.RemoveFromFbl(next, i + 1); }
    PtrsOfSlice(tb.t.blocks, i + 1);
    tb.CutGblAfter(p, tmpnx, {next}, i, i + 2);
  }

  lemma MoveCases(h: Heap, adr: nat, osz: nat, nsz: nat, ok: bool, a: AllocResult)
    requires Inv(h, false) && a == MemAlloc(h, nsz, ok)
    ensures MoveBlk(h, adr, osz, nsz, ok)
            == match a
               case Corrupted(h1, _) => Broken(h1)
               case Refused(h1) => Lost(MemFree(h1, adr))
               case Got(h1, dst) => Moved(MemFree(h1.(ram := CopyBytes(h1.ram, dst, adr, osz)), adr), dst)
    ensures a.Got? ==> a.adr != NULL
  {
    AllocInv(h, nsz, ok, false);
  }

  lemma UsedRoom(h: Heap, i: nat, nsz: nat)
    requires Inv(h, false) && i < |h.t.blocks| && h.t.blocks[i].status.Used? && 0 < nsz && h.t.blocks[i].size > nsz + HDR
    ensures 0 <= ClassOf(nsz) < CLASSES && h.t.blocks[i].size < 0x8000_0000
    ensures var t := SetBlk(h.t, i, nsz, Used, ClassOf(nsz)); !Has(t.blocks, DataOf(h.t.blocks[i]) + nsz)
  {
    var bs, b := h.t.blocks, h.t.blocks[i].(size := nsz, status := Used, fbl := ClassOf(nsz));
    ClassedSize(bs, bs[i], h.base, HeapEnd(h), false);
    ClassOfValid(nsz);
    LaidSmaller(bs, i, b, h.base, HeapEnd(h), false);
    FreshBetween(bs[i := b], h.base, HeapEnd(h), i + 1, DataOf(bs[i]) + nsz);
  }

  /** After a used block has been cut down its rest can be merged. */
  lemma CutReady(h: Heap, i: nat, nsz: nat, h2: Heap)
    requires Inv(h, false) && i < |h.t.blocks| && h.t.blocks[i].status.Used? && 0 < nsz && nsz + HDR < h.t.blocks[i].size
    requires h2 == CutBlk(h, i, nsz)
    ensures Inv(h2, false) && i + 1 < |h2.t.blocks| && h2.t.blocks[i].status.Used?
    ensures h2.t.blocks[i + 1].ptr == DataOf(h.t.blocks[i]) + nsz && !h2.t.blocks[i + 1].status.Used?
  {
    CutBlkInv(h, i, nsz, false);
    CutOffPtr(h.t.blocks, i, nsz);
    CutOffFirst(h.t.blocks, i, nsz, Used, Free);
  }

  lemma CutOffPtr(bs: seq<Blk>, i: nat, nsz: nat)
    requires i < |bs| && bs[i].size > nsz + HDR
    ensures var cs := CutOff(bs, i, nsz, Used, Free); cs[i + 1].ptr == DataOf(bs[i]) + nsz && !cs[i + 1].status.Used?
    ensures bs[i].status.Used? ==> CutOff(bs, i, nsz, Used, Free)[i].status.Used?
  {
  }

  /** The free block i behind a used one keeps its descriptor unless it leaves the table. */
  lemma UnifyPtr(h: Heap, h3: Heap, tb: BlockTable, i: nat)
    requires Inv(h, false) && 0 < i < |h.t.blocks| && !h.t.blocks[i].status.Used? && h.t.blocks[i - 1].status.Used?
    requires h3 == Unify(h, i) && Inv(h3, false) && i <= |h3.t.blocks| && Sound(tb) && tb.t == h3.t
    ensures i < |h3.t.blocks| ==> h3.t.blocks[i].ptr == h.t.blocks[i].ptr
    ensures h.t.blocks[i].ptr in tb.mem <==> i < |h3.t.blocks|
  {
    UnifyFront(h, i);
    if i < |h3.t.blocks| {
      LookAt(tb, i);
    } else if h.t.blocks[i].ptr in tb.mem {
      Open(tb);
      InvClassed(h, false);
      var c :| c in h3.t.blocks && c.ptr == h.t.blocks[i].ptr;
      var j :| 0 <= j < |h3.t.blocks| && h3.t.blocks[j] == c;
      assert h.t.blocks[j].start < h.t.blocks[i].start;
      assert h.t.blocks[j] in h.t.blocks && h.t.blocks[i] in h.t.blocks;
      LaidBounds(h.t.blocks, h.base, HeapEnd(h), false);
      assert false;
    }
  }

  lemma UnifyFront(h: Heap, i: nat)
    requires Inv(h, false) && 0 < i < |h.t.blocks| && !h.t.blocks[i].status.Used? && h.t.blocks[i - 1].status.Used?
    ensures var cs := Unify(h, i).t.blocks;
            forall j :: 0 <= j <= i && j < |cs| ==> cs[j].ptr == h.t.blocks[j].ptr
  {
    if IsFreeAt(h.t.blocks, i + 1) {
      var h1 := h.(t := Merge(h.t, i));
      MergeInv(h, i, false);
      MergedFront(h.t.blocks, i, h1.t.blocks);
      UnifyEnds(h, h1, i);
    }
  }

  lemma MergedFront(bs: seq<Blk>, i: nat, cs: seq<Blk>)
    requires 0 < i && i + 1 < |bs| && bs[i - 1].status.Used? && IsFreeAt(bs, i + 1)
    requires cs == bs[..MergeLo(bs, i)] + [MergedBlk(bs, i)] + bs[MergeHi(bs, i)..]
    ensures |cs| == |bs| - 1 && !cs[i].status.Used? && forall j :: 0 <= j <= i ==> cs[j].ptr == bs[j].ptr
  {
  }

  lemma UnifyEnds(h: Heap, h1: Heap, i: nat)
    requires i < |h.t.blocks| && h1 == h.(t := Merge(h.t, i)) && Inv(h1, false) && IsFreeAt(h.t.blocks, i + 1)
    requires MergeLo(h.t.blocks, i) == i < |h1.t.blocks| && !h1.t.blocks[i].status.Used?
    ensures var cs := Unify(h, i).t.blocks; forall j :: 0 <= j <= i && j < |cs| ==> cs[j].ptr == h1.t.blocks[j].ptr
  {
    if i + 1 == |h1.t.blocks| {
      if h1.t.blocks[i].size + HDR >= PAGE { ShrinkLaid(h1, false); }
    } else {
      CleanInv(h1, i, false);
    }
  }

  lemma GrowBound(h: Heap, i: nat)
    requires Inv(h, false) && i + 1 < |h.t.blocks|
    ensures h.t.blocks[i].size + HDR + h.t.blocks[i + 1].size < 0x8000_0000
  {
    LaidOrdered(h.t.blocks, h.base, HeapEnd(h), false, i, i + 1);
    InvAt(h, false, i);
    InvAt(h, false, i + 1);
  }

  lemma SplitCases(h: Heap, i: nat, nsz: nat, ok: bool, s: Option<Heap>)
    requires Inv(h, false) && i + 1 < |h.t.blocks| && h.t.blocks[i].status.Used? && GrowsBySplit(h.t.blocks, i, nsz)
    requires s == Split(h, i + 1, nsz - h.t.blocks[i].size, ok)
    ensures s.Some? ==> var cs := s.value.t.blocks;
                        && i + 1 < |cs| && cs[i] == h.t.blocks[i] && cs[i + 1].ptr == h.t.blocks[i + 1].ptr
                        && Inv(Absorb(s.value, i, nsz), false)
  {
    if s.Some? {
      SplitInv(h, i + 1, nsz - h.t.blocks[i].size, ok, false);
      SplitFront(h.t.blocks, i, nsz - h.t.blocks[i].size, s.value.t.blocks);
      ReallocSplits(h, i, nsz, ok, false);
      ExpandIs(h, i, nsz, ok, s);
    }
  }

  /** What is done with the rest that a block leaves when it is cut down. */
  lemma ShrinkBlkIs(h: Heap, i: nat, nsz: nat, h2: Heap, h3: Heap)
    requires i < |h.t.blocks| && nsz + HDR < h.t.blocks[i].size && h2 == CutBlk(h, i, nsz)
    requires h.t.blocks[i].status.Used? && i + 1 < |h2.t.blocks| && h3 == Unify(h2, i + 1)
    ensures var r := ShrinkBlk(h, i, nsz);
            && (r.StaleHeader? <==> i + 1 >= |h3.t.blocks|)
            && r.h == if i + 1 >= |h3.t.blocks| then h3 else LeaveRest(h3, i + 1)
  {
  }

  lemma ExpandIs(h: Heap, i: nat, nsz: nat, ok: bool, s: Option<Heap>)
    requires |h.t.fbl| == CLASSES && i + 1 < |h.t.blocks| && GrowsBySplit(h.t.blocks, i, nsz)
    requires s == Split(h, i + 1, nsz - h.t.blocks[i].size, ok)
    ensures Expand(h, i, nsz, ok) == ExpandInto(h, i, nsz, s)
  {
  }

  lemma SplitFront(bs: seq<Blk>, i: nat, more: nat, cs: seq<Blk>)
    requires i + 1 < |bs| && cs == SplitBlocks(bs, i + 1, more)
    ensures i + 1 < |cs| && cs[i] == bs[i] && cs[i + 1].ptr == bs[i + 1].ptr
  {
  }
}
