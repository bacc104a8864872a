/**
 The search for a free block: the free lists are scanned from the class of the wanted
 size upwards, each from its head, and the scan stops at the first list that offers
 something.  Both allocators share it.
 */
module BestFit {
  import opened BlockLists
  import opened BlockTables

  /** The index of the block with pointer p, |bs| when there is none. */
  function IdxOf(bs: seq<Blk>, p: Ptr): (i: nat)
    ensures i <= |bs| && (i < |bs| ==> bs[i].ptr == p)
    ensures i == |bs| ==> forall j :: 0 <= j < |bs| ==> bs[j].ptr != p
  {
    if bs == [] then 0 else if bs[0].ptr == p then 0 else 1 + IdxOf(bs[1..], p)
  }

  /** The index of the used block whose start plus off is adr, |bs| when there is none. */
  function FindStart(bs: seq<Blk>, off: nat, adr: nat): (i: nat)
    ensures i <= |bs| && (i < |bs| ==> bs[i].status.Used? && bs[i].start + off == adr)
    ensures i == |bs| ==> forall j :: 0 <= j < |bs| && bs[j].status.Used? ==> bs[j].start + off != adr
  {
    if bs == [] then 0
    else if bs[0].status.Used? && bs[0].start + off == adr then 0
    else 1 + FindStart(bs[1..], off, adr)
  }

  function SizeOf(bs: seq<Blk>, p: Ptr): nat {
    var i := IdxOf(bs, p);
    if i < |bs| then bs[i].size else 0
  }

  lemma IdxOfAt(bs: seq<Blk>, i: nat)
    requires i < |bs| && Distinct(bs)
    ensures IdxOf(bs, bs[i].ptr) == i
  {
  }

  /** One free list: the first block that fits exactly and the smallest larger one in front of it. */
  function ScanList(bs: seq<Blk>, s: seq<Ptr>, sz: nat, best: Ptr): (Ptr, Ptr) {
    if s == [] then (NULL, best)
    else
      var n := SizeOf(bs, s[0]);
      if n == sz then (s[0], best)
      else if n > sz then ScanList(bs, s[1..], sz, if best == NULL || n < SizeOf(bs, best) then s[0] else best)
      else ScanList(bs, s[1..], sz, best)
  }

  function SearchFrom(t: Table, k: int, sz: nat): (Ptr, Ptr)
    requires |t.fbl| == CLASSES && 0 <= k <= CLASSES
    decreases CLASSES - k
  {
    if k == CLASSES then (NULL, NULL)
    else
      var r := ScanList(t.blocks, t.fbl[k], sz, NULL);
      if r.0 != NULL || r.1 != NULL then r else SearchFrom(t, k + 1, sz)
  }

  /** The blocks the search selects: an exact fit and a best fit, NULL for none. */
  function Search(t: Table, sz: nat): (Ptr, Ptr)
    requires |t.fbl| == CLASSES
  {
    if ClassOf(sz) == -1 then (NULL, NULL)
    else
      ClassOfValid(sz);
      SearchFrom(t, ClassOf(sz), sz)
  }

  function Chosen(r: (Ptr, Ptr)): Ptr {
    if r.0 != NULL then r.0 else r.1
  }

  // ---------------------------------------------------------------- which of several blocks

  /** p is on the list, and no block of its size is in front of it. */
  ghost predicate FirstOfSize(bs: seq<Blk>, s: seq<Ptr>, p: Ptr) {
    exists j :: FirstAt(bs, s, p, j)
  }

  ghost predicate FirstAt(bs: seq<Blk>, s: seq<Ptr>, p: Ptr, j: int) {
    0 <= j < |s| && s[j] == p && forall i :: 0 <= i < j ==> SizeOf(bs, s[i]) != SizeOf(bs, p)
  }

  lemma FirstLater(bs: seq<Blk>, s: seq<Ptr>, p: Ptr)
    requires s != [] && FirstOfSize(bs, s[1..], p) && SizeOf(bs, s[0]) != SizeOf(bs, p)
    ensures FirstOfSize(bs, s, p)
  {
    var j :| FirstAt(bs, s[1..], p, j);
    assert FirstAt(bs, s, p, j + 1);
  }

  lemma {:induction false} ScanFirst(bs: seq<Blk>, s: seq<Ptr>, sz: nat, best: Ptr)
    requires NULL !in s
    ensures var (r, b) := ScanList(bs, s, sz, best);
            && (r != NULL ==> SizeOf(bs, r) == sz && FirstOfSize(bs, s, r))
            && (b != best ==> SizeOf(bs, b) > sz && FirstOfSize(bs, s, b) && (best != NULL ==> SizeOf(bs, b) < SizeOf(bs, best)))
  {
    if s != [] {
      var n := SizeOf(bs, s[0]);
      var (r, b) := ScanList(bs, s, sz, best);
      assert s[0] in s && FirstAt(bs, s, s[0], 0);
      if n != sz {
        var best' := if n > sz && (best == NULL || n < SizeOf(bs, best)) then s[0] else best;
        ScanFirst(bs, s[1..], sz, best');
        if r != NULL { FirstLater(bs, s, r); }
        if b != best' { FirstLater(bs, s, b); }
      }
    }
  }

  /** Of several blocks of the size chosen the search takes the first one of its list. */
  lemma SearchFirst(t: Table, sz: nat)
    requires |t.fbl| == CLASSES && (forall k :: 0 <= k < CLASSES ==> NULL !in t.fbl[k]) && Chosen(Search(t, sz)) != NULL
    ensures exists k :: ClassOf(sz) <= k < CLASSES && k >= 0 && FirstOfSize(t.blocks, t.fbl[k], Chosen(Search(t, sz)))
  {
    ClassOfValid(sz);
    SearchFromFirst(t, ClassOf(sz), sz);
  }

  lemma {:induction false} SearchFromFirst(t: Table, k: int, sz: nat)
    requires |t.fbl| == CLASSES && 0 <= k <= CLASSES && (forall k :: 0 <= k < CLASSES ==> NULL !in t.fbl[k])
    requires Chosen(SearchFrom(t, k, sz)) != NULL
    ensures exists l :: k <= l < CLASSES && FirstOfSize(t.blocks, t.fbl[l], Chosen(SearchFrom(t, k, sz)))
    decreases CLASSES - k
  {
    var r := ScanList(t.blocks, t.fbl[k], sz, NULL);
    ScanFirst(t.blocks, t.fbl[k], sz, NULL);
    if r.0 == NULL && r.1 == NULL { SearchFromFirst(t, k + 1, sz); }
  }

  /** The block that was freed last is the exact fit that the search finds. */
  lemma LastFreedFirst(t: Table, i: nat)
    requires |t.fbl| == CLASSES && i < |t.blocks| && t.blocks[i].ptr != NULL && IdxOf(t.blocks, t.blocks[i].ptr) == i
    requires t.blocks[i].fbl == ClassOf(t.blocks[i].size) != -1
    ensures Search(AddFbl(t, i), t.blocks[i].size).0 == t.blocks[i].ptr
  {
    ClassOfValid(t.blocks[i].size);
  }

  // ---------------------------------------------------------------- pointer form

  /** The nested search loops, on the linked lists. */
  method FindFree(tb: BlockTable, sz: nat) returns (retval: Ptr, bestfit: Ptr)
    requires tb.Valid() && tb.detached == {} && 0 < sz < 0x8000_0000
    ensures (retval, bestfit) == Search(tb.t, sz)
  {
    var fbl := GetRightFbl(sz);
    ClassOfValid(sz);
    retval, bestfit := NULL, NULL;
    while fbl < CLASSES
      invariant 0 <= fbl <= CLASSES && retval == NULL && bestfit == NULL
      invariant Search(tb.t, sz) == SearchFrom(tb.t, fbl, sz)
    {
      retval, bestfit := ScanFbl(tb, fbl, sz);
      if retval != NULL || bestfit != NULL { return; }
      fbl := fbl + 1;
    }
  }

  method ScanFbl(tb: BlockTable, fbl: int, sz: nat) returns (retval: Ptr, bestfit: Ptr)
    requires tb.Valid() && tb.detached == {} && 0 <= fbl < CLASSES
    ensures (retval, bestfit) == ScanList(tb.t.blocks, tb.t.fbl[fbl], sz, NULL)
  {
    ghost var s, bs := tb.t.fbl[fbl], tb.t.blocks;
    var bl := tb.free[fbl];
    retval, bestfit := NULL, NULL;
    ghost var j := 0;
    if s != [] { FreeEntry(tb, fbl, 0); }
    while bl != NULL
      invariant 0 <= j <= |s| && bl == At(s, j) && (bl == NULL ==> j == |s|) && retval == NULL
      invariant bestfit == NULL || (bestfit in tb.mem && tb.mem[bestfit].size == SizeOf(bs, bestfit))
      invariant ScanList(bs, s, sz, NULL) == ScanList(bs, s[j..], sz, bestfit)
      decreases |s| - j
    {
      FreeEntry(tb, fbl, j);
      if tb.mem[bl].status.Used? { assert false; }
      if tb.mem[bl].size == sz {
        retval := bl;
        return;
      }
      if tb.mem[bl].size > sz {
        if bestfit == NULL {
          bestfit := bl;
        } else if tb.mem[bl].size < tb.mem[bestfit].size {
          bestfit := bl;
        }
      }
      bl := tb.mem[bl].un;
      assert s[j..][1..] == s[j + 1..];
      j := j + 1;
    }
  }

  /** Entry j of a free list is a free block, and its links lead on through the list. */
  lemma FreeEntry(tb: BlockTable, fbl: int, j: nat)
    requires tb.Valid() && tb.detached == {} && 0 <= fbl < CLASSES && j < |tb.t.fbl[fbl]|
    ensures var p, s := tb.t.fbl[fbl][j], tb.t.fbl[fbl];
            && p in tb.mem && p != NULL && !tb.mem[p].status.Used? && tb.mem[p].size == SizeOf(tb.t.blocks, p)
            && tb.mem[p].un == At(s, j + 1) && (j + 1 < |s| ==> s[j + 1] != NULL)
  {
    var s := tb.t.fbl[fbl];
    assert ChainAt(tb.mem, s, j);
    FreeMember(tb.t, fbl, j);
    assert GblAt(tb.mem, tb.t.blocks, IdxOf(tb.t.blocks, s[j]));
    if j + 1 < |s| { assert ChainAt(tb.mem, s, j + 1); }
  }

  lemma FreeMember(t: Table, k: int, j: nat)
    requires Listed(t, {}) && 0 <= k < CLASSES && j < |t.fbl[k]|
    ensures var i := IdxOf(t.blocks, t.fbl[k][j]);
            i < |t.blocks| && !t.blocks[i].status.Used? && t.blocks[i].fbl == k
  {
    Unfold(t, {});
    var p := t.fbl[k][j];
    assert Has(t.blocks, p);
    var b :| b in t.blocks && b.ptr == p;
    assert OnItsFbl(b, t.fbl, {}) && OnFbl(b, k, {});
    var i :| 0 <= i < |t.blocks| && t.blocks[i] == b;
    IdxOfAt(t.blocks, i);
  }

  /** The scan of the UBL for the used block whose start plus off is adr. */
  method FindUbl(tb: BlockTable, off: nat, adr: nat) returns (p: Ptr)
    requires tb.Valid() && tb.detached == {} && Ascending(tb.t.blocks)
    ensures p == PtrAt(tb.t.blocks, FindStart(tb.t.blocks, off, adr))
  {
    ghost var s, bs, j := tb.t.ubl, tb.t.blocks, 0;
    p := tb.used;
    if s != [] { var _ := UsedEntry(tb, 0); }
    while p != NULL
      invariant 0 <= j <= |s| && p == At(s, j) && (p == NULL ==> j == |s|)
      invariant forall l :: 0 <= l < j ==> s[l] in tb.mem && tb.mem[s[l]].start + off != adr
      decreases |s| - j
    {
      ghost var i := UsedEntry(tb, j);
      if tb.mem[p].start + off == adr {
        StartUnique(bs, i, off, adr);
        return;
      }
      p := tb.mem[p].un;
      j := j + 1;
    }
    NoUsedStart(tb, off, adr);
  }

  lemma StartUnique(bs: seq<Blk>, i: nat, off: nat, adr: nat)
    requires Ascending(bs) && i < |bs| && bs[i].status.Used? && bs[i].start + off == adr
    ensures FindStart(bs, off, adr) == i
  {
  }

  lemma NoUsedStart(tb: BlockTable, off: nat, adr: nat)
    requires tb.Valid() && tb.detached == {}
    requires forall p :: p in tb.t.ubl ==> p in tb.mem && tb.mem[p].start + off != adr
    ensures FindStart(tb.t.blocks, off, adr) == |tb.t.blocks|
  {
    var i := FindStart(tb.t.blocks, off, adr);
    if i < |tb.t.blocks| {
      OnItsList(tb.t, {}, i);
      tb.Look(i);
    }
  }

  /** Entry j of the UBL is a used block, and its links lead on through the list. */
  lemma UsedEntry(tb: BlockTable, j: nat) returns (i: nat)
    requires tb.Valid() && tb.detached == {} && j < |tb.t.ubl|
    ensures var p, s := tb.t.ubl[j], tb.t.ubl;
            && i < |tb.t.blocks| && tb.t.blocks[i].ptr == p && tb.t.blocks[i].status.Used?
            && p in tb.mem && p != NULL && tb.mem[p].start == tb.t.blocks[i].start
            && tb.mem[p].un == At(s, j + 1) && (j + 1 < |s| ==> s[j + 1] != NULL)
  {
    var s := tb.t.ubl;
    assert ChainAt(tb.mem, s, j);
    assert s[j] in s;
    i := UsedIndex(tb.t, s[j]);
    tb.Look(i);
    if j + 1 < |s| { assert ChainAt(tb.mem, s, j + 1); }
  }

  lemma UsedIndex(t: Table, p: Ptr) returns (i: nat)
    requires Listed(t, {}) && p in t.ubl
    ensures i < |t.blocks| && t.blocks[i].ptr == p && t.blocks[i].status.Used?
  {
    Unfold(t, {});
    UsedMember(t.blocks, {}, p);
    var b :| b in t.blocks && b.ptr == p && b.status.Used?;
    i :| 0 <= i < |t.blocks| && t.blocks[i] == b;
  }

  // ---------------------------------------------------------------- what the search finds

  ghost predicate FirstExact(bs: seq<Blk>, s: seq<Ptr>, sz: nat, j: int) {
    0 <= j < |s| && SizeOf(bs, s[j]) == sz && forall l :: 0 <= l < j ==> SizeOf(bs, s[l]) != sz
  }

  ghost predicate LargerBefore(bs: seq<Blk>, s: seq<Ptr>, sz: nat, j: int) {
    exists i :: 0 <= i < j <= |s| && SizeOf(bs, s[i]) > sz
  }

  lemma {:induction false} ScanListFinds(bs: seq<Blk>, s: seq<Ptr>, sz: nat, best: Ptr)
    requires NULL !in s && (best == NULL || SizeOf(bs, best) > sz)
    ensures var (r, b) := ScanList(bs, s, sz, best);
            && (r != NULL ==> r in s && SizeOf(bs, r) == sz)
            && (r == NULL ==> forall p :: p in s ==> SizeOf(bs, p) != sz)
            && (b != NULL ==> (b in s || b == best) && SizeOf(bs, b) > sz)
            && (r == NULL && b == NULL ==> best == NULL && forall p :: p in s ==> SizeOf(bs, p) < sz)
            && (r == NULL && b != NULL ==> forall p :: p in s && SizeOf(bs, p) > sz ==> SizeOf(bs, b) <= SizeOf(bs, p))
            && (r == NULL && best != NULL ==> b != NULL && SizeOf(bs, b) <= SizeOf(bs, best))
  {
    if s != [] {
      var n := SizeOf(bs, s[0]);
      assert s[0] in s && forall p :: p in s <==> p == s[0] || p in s[1..];
      if n > sz {
        ScanListFinds(bs, s[1..], sz, if best == NULL || n < SizeOf(bs, best) then s[0] else best);
      } else if n < sz {
        ScanListFinds(bs, s[1..], sz, best);
      }
    }
  }

  /** Both pointers come back set exactly when a larger block precedes the first exact fit. */
  lemma {:induction false} ScanListBoth(bs: seq<Blk>, s: seq<Ptr>, sz: nat, best: Ptr)
    requires NULL !in s
    ensures var (r, b) := ScanList(bs, s, sz, best);
            r != NULL && b != NULL <==>
            exists j :: FirstExact(bs, s, sz, j) && (best != NULL || LargerBefore(bs, s, sz, j))
  {
    if s != [] {
      var n, tail := SizeOf(bs, s[0]), s[1..];
      assert s[0] in s && s == [s[0]] + tail;
      if n == sz {
        assert FirstExact(bs, s, sz, 0) && !LargerBefore(bs, s, sz, 0);
        assert forall j :: FirstExact(bs, s, sz, j) ==> j == 0;
      } else {
        var best' := if n > sz && (best == NULL || n < SizeOf(bs, best)) then s[0] else best;
        ScanListBoth(bs, tail, sz, best');
        forall j ensures FirstExact(bs, s, sz, j) <==> FirstExact(bs, tail, sz, j - 1) {
          FirstExactTail(bs, s, sz, j);
        }
        forall j | FirstExact(bs, s, sz, j)
          ensures LargerBefore(bs, s, sz, j) <==> n > sz || LargerBefore(bs, tail, sz, j - 1)
        {
          LargerBeforeTail(bs, s, sz, j);
        }
        if j :| FirstExact(bs, tail, sz, j) && (best' != NULL || LargerBefore(bs, tail, sz, j)) {
          assert FirstExact(bs, s, sz, j + 1);
        }
        if j :| FirstExact(bs, s, sz, j) && (best != NULL || LargerBefore(bs, s, sz, j)) {
          assert FirstExact(bs, tail, sz, j - 1);
        }
      }
    }
  }

  lemma FirstExactTail(bs: seq<Blk>, s: seq<Ptr>, sz: nat, j: int)
    requires s != [] && SizeOf(bs, s[0]) != sz
    ensures FirstExact(bs, s, sz, j) <==> FirstExact(bs, s[1..], sz, j - 1)
  {
    assert forall l :: 1 <= l < |s| ==> s[l] == s[1..][l - 1];
    if FirstExact(bs, s[1..], sz, j - 1) {
      forall l | 0 <= l < j ensures SizeOf(bs, s[l]) != sz {
        if l > 0 { assert s[1..][l - 1] == s[l]; }
      }
    }
  }

  lemma LargerBeforeTail(bs: seq<Blk>, s: seq<Ptr>, sz: nat, j: int)
    requires s != [] && 0 < j <= |s|
    ensures LargerBefore(bs, s, sz, j) <==> SizeOf(bs, s[0]) > sz || LargerBefore(bs, s[1..], sz, j - 1)
  {
    if i :| 0 <= i < j && SizeOf(bs, s[i]) > sz {
      if i > 0 { assert s[1..][i - 1] == s[i]; }
    }
    if i :| 0 <= i < j - 1 && SizeOf(bs, s[1..][i]) > sz {
      assert s[i + 1] == s[1..][i];
    }
  }

  /** Every block knows the free list of its size. */
  ghost predicate Classed(bs: seq<Blk>) {
    forall b :: b in bs ==> 0 < b.size < 0x8000_0000 && b.fbl == ClassOf(b.size)
  }

  ghost predicate IsFree(bs: seq<Blk>, p: Ptr) {
    var i := IdxOf(bs, p);
    i < |bs| && !bs[i].status.Used?
  }

  /** p is a smallest free block among those of at least sz bytes. */
  ghost predicate IsBestFit(bs: seq<Blk>, p: Ptr, sz: nat) {
    && IsFree(bs, p) && SizeOf(bs, p) >= sz
    && forall b :: b in bs && !b.status.Used? && b.size >= sz ==> SizeOf(bs, p) <= b.size
  }

  lemma ListMembers(t: Table, k: int, p: Ptr)
    requires Listed(t, {}) && 0 <= k < CLASSES && p in t.fbl[k] && Classed(t.blocks)
    ensures p != NULL && IsFree(t.blocks, p) && ClassOf(SizeOf(t.blocks, p)) == k
  {
    Unfold(t, {});
    var j :| 0 <= j < |t.fbl[k]| && t.fbl[k][j] == p;
    FreeMember(t, k, j);
    assert t.blocks[IdxOf(t.blocks, p)] in t.blocks;
  }

  lemma FreeOnItsList(t: Table, b: Blk)
    requires Listed(t, {}) && b in t.blocks && !b.status.Used? && Classed(t.blocks)
    ensures 0 <= ClassOf(b.size) < CLASSES && b.ptr in t.fbl[ClassOf(b.size)] && SizeOf(t.blocks, b.ptr) == b.size
  {
    Unfold(t, {});
    ClassOfValid(b.size);
    assert OnItsFbl(b, t.fbl, {}) && OnFbl(b, b.fbl, {});
    var i :| 0 <= i < |t.blocks| && t.blocks[i] == b;
    IdxOfAt(t.blocks, i);
  }

  lemma ClassOfSmaller(a: nat, b: nat)
    requires 0 < a < 0x8000_0000 && 0 < b < 0x8000_0000 && ClassOf(a) < ClassOf(b)
    ensures a < b
  {
    if b <= a { ClassOfMonotone(b, a); }
  }

  /**
   The segregated search is global best fit: scanning from class k on, with every larger-or-equal
   free block in class k or above, it returns a smallest one, and nothing only if there is none.
   */
  lemma {:induction false} SearchFromBest(t: Table, k: int, sz: nat)
    requires Listed(t, {}) && Classed(t.blocks) && 0 < sz < 0x8000_0000 && ClassOf(sz) <= k <= CLASSES
    requires 0 <= ClassOf(sz)
    requires forall b :: b in t.blocks && !b.status.Used? && b.size >= sz ==> ClassOf(b.size) >= k
    ensures var r := SearchFrom(t, k, sz);
            && (r.0 != NULL ==> SizeOf(t.blocks, r.0) == sz && IsBestFit(t.blocks, r.0, sz))
            && (r.1 != NULL ==> SizeOf(t.blocks, r.1) > sz)
            && (Chosen(r) != NULL ==> IsBestFit(t.blocks, Chosen(r), sz))
            && (Chosen(r) == NULL ==> forall b :: b in t.blocks && !b.status.Used? ==> b.size < sz)
    decreases CLASSES - k
  {
    if k == CLASSES {
      forall b | b in t.blocks && !b.status.Used? ensures b.size < sz {
        FreeOnItsList(t, b);
      }
    } else {
      var s := t.fbl[k];
      forall p | p in s ensures p != NULL { ListMembers(t, k, p); }
      ScanListFinds(t.blocks, s, sz, NULL);
      var r := ScanList(t.blocks, s, sz, NULL);
      if r.0 != NULL {
        ListMembers(t, k, r.0);
      } else if r.1 != NULL {
        ListMembers(t, k, r.1);
        BestInFirstList(t, k, sz, r.1);
      } else {
        forall b | b in t.blocks && !b.status.Used? && b.size >= sz ensures ClassOf(b.size) >= k + 1 {
          FreeOnItsList(t, b);
        }
        SearchFromBest(t, k + 1, sz);
      }
    }
  }

  lemma BestInFirstList(t: Table, k: int, sz: nat, p: Ptr)
    requires Listed(t, {}) && Classed(t.blocks) && 0 <= k < CLASSES && p in t.fbl[k] && SizeOf(t.blocks, p) > sz
    requires forall q :: q in t.fbl[k] ==> SizeOf(t.blocks, q) != sz
    requires forall q :: q in t.fbl[k] && SizeOf(t.blocks, q) > sz ==> SizeOf(t.blocks, p) <= SizeOf(t.blocks, q)
    requires forall b :: b in t.blocks && !b.status.Used? && b.size >= sz ==> ClassOf(b.size) >= k
    ensures IsBestFit(t.blocks, p, sz)
  {
    ListMembers(t, k, p);
    var ip := IdxOf(t.blocks, p);
    assert t.blocks[ip] in t.blocks;
    forall b | b in t.blocks && !b.status.Used? && b.size >= sz ensures SizeOf(t.blocks, p) <= b.size {
      FreeOnItsList(t, b);
      if ClassOf(b.size) > k {
        ClassOfSmaller(SizeOf(t.blocks, p), b.size);
      }
    }
  }

  /** The block chosen is a smallest free block of at least sz bytes; none is chosen iff none exists. */
  lemma SearchIsBestFit(t: Table, sz: nat)
    requires Listed(t, {}) && Classed(t.blocks) && 0 < sz < 0x8000_0000
    ensures var p := Chosen(Search(t, sz));
            && (p != NULL ==> IsBestFit(t.blocks, p, sz))
            && (p == NULL <==> forall b :: b in t.blocks && !b.status.Used? ==> b.size < sz)
    ensures Search(t, sz).0 != NULL ==> SizeOf(t.blocks, Search(t, sz).0) == sz
    ensures Search(t, sz).1 != NULL ==> SizeOf(t.blocks, Search(t, sz).1) > sz
  {
    ClassOfValid(sz);
    forall b | b in t.blocks && !b.status.Used? && b.size >= sz ensures ClassOf(b.size) >= ClassOf(sz) {
      ClassOfMonotone(sz, b.size);
    }
    SearchFromBest(t, ClassOf(sz), sz);
    var p := Chosen(Search(t, sz));
    if p != NULL {
      assert t.blocks[IdxOf(t.blocks, p)] in t.blocks;
    }
  }

  /** A larger block precedes the first exact fit on the list of sz's class. */
  ghost predicate DoublySelects(t: Table, sz: nat)
    requires |t.fbl| == CLASSES
  {
    var k := ClassOf(sz);
    0 <= k < CLASSES && exists j :: FirstExact(t.blocks, t.fbl[k], sz, j) && LargerBefore(t.blocks, t.fbl[k], sz, j)
  }

  /** Exactly then the search comes back with both an exact fit and a best fit. */
  lemma SearchSelectsBoth(t: Table, sz: nat)
    requires Listed(t, {}) && Classed(t.blocks) && 0 < sz < 0x8000_0000
    ensures Search(t, sz).0 != NULL && Search(t, sz).1 != NULL <==> DoublySelects(t, sz)
  {
    ClassOfValid(sz);
    var k := ClassOf(sz);
    forall p | p in t.fbl[k] ensures p != NULL { ListMembers(t, k, p); }
    ScanListBoth(t.blocks, t.fbl[k], sz, NULL);
    ScanListFinds(t.blocks, t.fbl[k], sz, NULL);
    var r := ScanList(t.blocks, t.fbl[k], sz, NULL);
    if r.0 == NULL && r.1 == NULL {
      NoExactAbove(t, k + 1, sz);
    }
  }

  lemma {:induction false} NoExactAbove(t: Table, k: int, sz: nat)
    requires Listed(t, {}) && Classed(t.blocks) && 0 < sz < 0x8000_0000 && 0 <= ClassOf(sz) < k <= CLASSES
    ensures SearchFrom(t, k, sz).0 == NULL
    decreases CLASSES - k
  {
    if k < CLASSES {
      forall p | p in t.fbl[k] ensures p != NULL && SizeOf(t.blocks, p) != sz { ListMembers(t, k, p); }
      ScanListFinds(t.blocks, t.fbl[k], sz, NULL);
      NoExactAbove(t, k + 1, sz);
    }
  }
}
