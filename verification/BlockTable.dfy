/**
 The linked representation of the block table: descriptors in a memory indexed by
 pointer, each on two doubly linked lists.  Every method is the pointer code of the
 allocators and is proved to compute the operation of the same name on `Table`.
 */
module BlockTables {
  import opened BlockLists

  /** A block descriptor with its links: gp, gn on the GBL and up, un on the UBL or an FBL. */
  datatype Desc = Desc(start: nat, size: nat, status: Status, fbl: int, gp: Ptr, gn: Ptr, up: Ptr, un: Ptr)

  type Mem = map<Ptr, Desc>

  ghost predicate Describes(d: Desc, b: Blk) {
    d.start == b.start && d.size == b.size && d.status == b.status && d.fbl == b.fbl
  }

  ghost predicate GblAt(mem: Mem, bs: seq<Blk>, i: int)
    requires 0 <= i < |bs|
  {
    && bs[i].ptr in mem && Describes(mem[bs[i].ptr], bs[i])
    && mem[bs[i].ptr].gp == PtrAt(bs, i - 1) && mem[bs[i].ptr].gn == PtrAt(bs, i + 1)
  }

  /** The GBL is a doubly linked list through the blocks bs, and mem holds no other descriptor. */
  ghost predicate GblLinked(mem: Mem, bs: seq<Blk>) {
    && (forall i {:trigger GblAt(mem, bs, i)} :: 0 <= i < |bs| ==> GblAt(mem, bs, i))
    && (forall p :: p in mem ==> Has(bs, p))
  }

  ghost predicate ChainAt(mem: Mem, s: seq<Ptr>, i: int)
    requires 0 <= i < |s|
  {
    s[i] in mem && mem[s[i]].up == At(s, i - 1) && mem[s[i]].un == At(s, i + 1)
  }

  /** s is a doubly linked list through the up and un links. */
  ghost predicate Chain(mem: Mem, s: seq<Ptr>) {
    forall i {:trigger ChainAt(mem, s, i)} :: 0 <= i < |s| ==> ChainAt(mem, s, i)
  }

  ghost predicate ListsLinked(mem: Mem, t: Table, used: Ptr, heads: seq<Ptr>) {
    && |t.fbl| == |heads| == CLASSES
    && Chain(mem, t.ubl) && used == At(t.ubl, 0)
    && (forall k :: 0 <= k < CLASSES ==> Chain(mem, t.fbl[k]) && heads[k] == At(t.fbl[k], 0))
  }

  /** mem' differs from mem in up and un links only. */
  ghost predicate OnlyLists(mem: Mem, mem': Mem) {
    && mem'.Keys == mem.Keys
    && forall p :: p in mem ==> mem'[p] == mem[p].(up := mem'[p].up, un := mem'[p].un)
  }

  lemma OnlyListsGbl(mem: Mem, mem': Mem, bs: seq<Blk>)
    requires GblLinked(mem, bs) && OnlyLists(mem, mem')
    ensures GblLinked(mem', bs)
  {
    forall i | 0 <= i < |bs| ensures GblAt(mem', bs, i) {
      assert GblAt(mem, bs, i);
    }
  }

  lemma ChainKept(mem: Mem, mem': Mem, s: seq<Ptr>)
    requires Chain(mem, s)
    requires forall p :: p in s ==> p in mem' && (p in mem ==> mem'[p].up == mem[p].up && mem'[p].un == mem[p].un)
    ensures Chain(mem', s)
  {
    forall i | 0 <= i < |s| ensures ChainAt(mem', s, i) {
      assert ChainAt(mem, s, i) && s[i] in s;
    }
  }

  // ---------------------------------------------------------------- list surgery

  /** p linked in front of the list that begins with head. */
  ghost predicate Pushed(mem: Mem, mem': Mem, p: Ptr, head: Ptr) {
    && mem'.Keys == mem.Keys
    && forall q :: q in mem ==> mem'[q] == mem[q].(
         up := if q == p then NULL else if q == head then p else mem[q].up,
         un := if q == p then head else mem[q].un)
  }

  /** p linked between q and n. */
  ghost predicate Inserted(mem: Mem, mem': Mem, q: Ptr, p: Ptr, n: Ptr) {
    && mem'.Keys == mem.Keys
    && forall r :: r in mem ==> mem'[r] == mem[r].(
         up := if r == p then q else if r == n then p else mem[r].up,
         un := if r == p then n else if r == q then p else mem[r].un)
  }

  /** p taken out from between q and n; its own links are cleared. */
  ghost predicate Unlinked(mem: Mem, mem': Mem, q: Ptr, p: Ptr, n: Ptr) {
    && mem'.Keys == mem.Keys
    && forall r :: r in mem ==> mem'[r] == mem[r].(
         up := if r == p then NULL else if r == n then q else mem[r].up,
         un := if r == p then NULL else if r == q then n else mem[r].un)
  }

  lemma PushChain(mem: Mem, mem': Mem, s: seq<Ptr>, p: Ptr)
    requires Chain(mem, s) && NoDup(s) && p in mem && p !in s && NULL !in mem
    requires Pushed(mem, mem', p, At(s, 0))
    ensures Chain(mem', [p] + s)
  {
    var u := [p] + s;
    forall i | 0 <= i < |u| ensures ChainAt(mem', u, i) {
      if i > 0 { assert ChainAt(mem, s, i - 1) && u[i] == s[i - 1] && s[i - 1] in s; }
    }
  }

  lemma InsertChain(mem: Mem, mem': Mem, s: seq<Ptr>, k: nat, p: Ptr)
    requires Chain(mem, s) && NoDup(s) && p in mem && p !in s && NULL !in mem && k <= |s|
    requires Inserted(mem, mem', At(s, k - 1), p, At(s, k))
    ensures Chain(mem', s[..k] + [p] + s[k..])
  {
    var u := s[..k] + [p] + s[k..];
    forall i | 0 <= i < |u| ensures ChainAt(mem', u, i) {
      if i < k { assert ChainAt(mem, s, i) && u[i] == s[i] && s[i] in s; }
      if i > k { assert ChainAt(mem, s, i - 1) && u[i] == s[i - 1] && s[i - 1] in s; }
    }
  }

  lemma UnlinkChain(mem: Mem, mem': Mem, s: seq<Ptr>, i: nat)
    requires Chain(mem, s) && NoDup(s) && NULL !in mem && i < |s|
    requires Unlinked(mem, mem', At(s, i - 1), s[i], At(s, i + 1))
    ensures Chain(mem', s[..i] + s[i + 1..])
  {
    var u := s[..i] + s[i + 1..];
    forall j | 0 <= j < |u| ensures ChainAt(mem', u, j) {
      assert ChainAt(mem, s, if j < i then j else j + 1);
    }
  }

  // ---------------------------------------------------------------- the lists are disjoint

  /** A pointer is on at most one list, once; the pointers of X are on none. */
  ghost predicate Separate(t: Table, X: set<Ptr>) {
    && |t.fbl| == CLASSES
    && NoDup(t.ubl) && (forall p :: p in t.ubl ==> p != NULL && p !in X && Has(t.blocks, p))
    && (forall k :: 0 <= k < CLASSES ==> NoDup(t.fbl[k]))
    && (forall k, p :: 0 <= k < CLASSES && p in t.fbl[k] ==> p != NULL && p !in X && p !in t.ubl && Has(t.blocks, p))
    && (forall j, k, p :: 0 <= j < CLASSES && 0 <= k < CLASSES && j != k && p in t.fbl[j] ==> p !in t.fbl[k])
  }

  lemma ListedSeparate(t: Table, X: set<Ptr>)
    requires Listed(t, X)
    ensures Separate(t, X)
  {
    Unfold(t, X);
    UsedNoDup(t.blocks, X);
    forall p | p in t.ubl ensures p != NULL && p !in X && Has(t.blocks, p) {
      UsedMember(t.blocks, X, p);
    }
    forall k, p | 0 <= k < CLASSES && p in t.fbl[k] ensures p != NULL && p !in X && p !in t.ubl {
      assert Has(t.blocks, p);
      var b :| b in t.blocks && b.ptr == p;
      assert OnItsFbl(b, t.fbl, X) && OnFbl(b, k, X);
      UsedMember(t.blocks, X, p);
      if c :| c in t.blocks && c.ptr == p && c.status.Used? {
        DistinctSame(t.blocks, b, c);
      }
    }
    forall j, k, p | 0 <= j < CLASSES && 0 <= k < CLASSES && j != k && p in t.fbl[j] ensures p !in t.fbl[k] {
      assert Has(t.blocks, p);
      var b :| b in t.blocks && b.ptr == p;
      assert OnItsFbl(b, t.fbl, X);
    }
  }

  lemma DistinctSame(bs: seq<Blk>, b: Blk, c: Blk)
    requires Distinct(bs) && b in bs && c in bs && b.ptr == c.ptr
    ensures b == c
  {
    var i :| 0 <= i < |bs| && bs[i] == b;
    var j :| 0 <= j < |bs| && bs[j] == c;
  }

  // ---------------------------------------------------------------- the whole structure

  ghost predicate Linked(mem: Mem, t: Table, last: Ptr, used: Ptr, heads: seq<Ptr>) {
    && NULL !in mem
    && GblLinked(mem, t.blocks)
    && last == PtrAt(t.blocks, |t.blocks| - 1)
    && ListsLinked(mem, t, used, heads)
  }

  /** Changes confined to p and the list fbl[f] leave the other lists linked. */
  lemma OtherListsKept(mem: Mem, mem': Mem, t: Table, X: set<Ptr>, used: Ptr, heads: seq<Ptr>, f: int, p: Ptr)
    requires ListsLinked(mem, t, used, heads) && Separate(t, X) && 0 <= f < CLASSES && (p in t.fbl[f] || p in X)
    requires mem'.Keys == mem.Keys && forall q :: q in mem && q != p && q !in t.fbl[f] ==> mem'[q] == mem[q]
    ensures Chain(mem', t.ubl)
    ensures forall k :: 0 <= k < CLASSES && k != f ==> Chain(mem', t.fbl[k])
  {
    ChainMembers(mem, t.ubl);
    ChainKept(mem, mem', t.ubl);
    forall k | 0 <= k < CLASSES && k != f ensures Chain(mem', t.fbl[k]) {
      ChainMembers(mem, t.fbl[k]);
      ChainKept(mem, mem', t.fbl[k]);
    }
  }

  /** Changes confined to p and the UBL leave the free lists linked. */
  lemma FreeListsKept(mem: Mem, mem': Mem, t: Table, X: set<Ptr>, used: Ptr, heads: seq<Ptr>, p: Ptr)
    requires ListsLinked(mem, t, used, heads) && Separate(t, X) && (p in t.ubl || p in X)
    requires mem'.Keys == mem.Keys && forall q :: q in mem && q != p && q !in t.ubl ==> mem'[q] == mem[q]
    ensures forall k :: 0 <= k < CLASSES ==> Chain(mem', t.fbl[k])
  {
    forall k | 0 <= k < CLASSES ensures Chain(mem', t.fbl[k]) {
      ChainMembers(mem, t.fbl[k]);
      ChainKept(mem, mem', t.fbl[k]);
    }
  }

  lemma LinkedAddFbl(mem: Mem, mem': Mem, t: Table, X: set<Ptr>, last: Ptr, used: Ptr, heads: seq<Ptr>, i: nat)
    requires Linked(mem, t, last, used, heads) && Separate(t, X)
    requires i < |t.blocks| && t.blocks[i].ptr in X && 0 <= t.blocks[i].fbl < CLASSES
    requires Pushed(mem, mem', t.blocks[i].ptr, heads[t.blocks[i].fbl])
    ensures Linked(mem', AddFbl(t, i), last, used, heads[t.blocks[i].fbl := t.blocks[i].ptr])
  {
    var p, f := t.blocks[i].ptr, t.blocks[i].fbl;
    assert GblAt(mem, t.blocks, i);
    OnlyListsGbl(mem, mem', t.blocks);
    PushChain(mem, mem', t.fbl[f], p);
    assert heads[f] != NULL ==> heads[f] in t.fbl[f];
    OtherListsKept(mem, mem', t, X, used, heads, f, p);
  }

  lemma ChainMembers(mem: Mem, s: seq<Ptr>)
    requires Chain(mem, s)
    ensures forall p :: p in s ==> p in mem
  {
    forall p | p in s ensures p in mem {
      var i :| 0 <= i < |s| && s[i] == p;
      assert ChainAt(mem, s, i);
    }
  }

  lemma LinkedRemFbl(mem: Mem, mem': Mem, t: Table, X: set<Ptr>, last: Ptr, used: Ptr, heads: seq<Ptr>, i: nat)
    requires Linked(mem, t, last, used, heads) && Separate(t, X)
    requires i < |t.blocks| && 0 <= t.blocks[i].fbl < CLASSES
    requires t.blocks[i].ptr in t.fbl[t.blocks[i].fbl] && t.blocks[i].ptr in mem
    requires Unlinked(mem, mem', mem[t.blocks[i].ptr].up, t.blocks[i].ptr, mem[t.blocks[i].ptr].un)
    ensures var p, f := t.blocks[i].ptr, t.blocks[i].fbl;
            Linked(mem', RemFbl(t, i), last, used, if mem[p].up == NULL then heads[f := mem[p].un] else heads)
  {
    var p, f := t.blocks[i].ptr, t.blocks[i].fbl;
    OnlyListsGbl(mem, mem', t.blocks);
    var s := t.fbl[f];
    var j :| 0 <= j < |s| && s[j] == p;
    RemoveFromChain(mem, mem', s, j);
    OtherListsKept(mem, mem', t, X, used, heads, f, p);
  }

  lemma RemoveFromChain(mem: Mem, mem': Mem, s: seq<Ptr>, j: nat)
    requires Chain(mem, s) && NoDup(s) && NULL !in mem && j < |s| && s[j] in mem
    requires Unlinked(mem, mem', mem[s[j]].up, s[j], mem[s[j]].un)
    ensures Chain(mem', Without(s, s[j]))
    ensures At(Without(s, s[j]), 0) == if mem[s[j]].up == NULL then mem[s[j]].un else At(s, 0)
    ensures mem[s[j]].up != NULL ==> mem[s[j]].up in s
    ensures mem[s[j]].un != NULL ==> mem[s[j]].un in s
    ensures mem[s[j]].up == NULL <==> j == 0
  {
    assert ChainAt(mem, s, j);
    if j > 0 { assert ChainAt(mem, s, j - 1) && s[j - 1] in s; }
    if j + 1 < |s| { assert ChainAt(mem, s, j + 1) && s[j + 1] in s; }
    UnlinkChain(mem, mem', s, j);
    WithoutAt(s, j);
  }

  lemma LinkedRemUbl(mem: Mem, mem': Mem, t: Table, last: Ptr, used: Ptr, heads: seq<Ptr>, i: nat)
    requires Linked(mem, t, last, used, heads) && Separate(t, {})
    requires i < |t.blocks| && t.blocks[i].ptr in t.ubl && t.blocks[i].ptr in mem
    requires Unlinked(mem, mem', mem[t.blocks[i].ptr].up, t.blocks[i].ptr, mem[t.blocks[i].ptr].un)
    ensures var p := t.blocks[i].ptr;
            Linked(mem', RemUbl(t, i), last, if used == p then mem[p].un else used, heads)
  {
    var p := t.blocks[i].ptr;
    OnlyListsGbl(mem, mem', t.blocks);
    var j :| 0 <= j < |t.ubl| && t.ubl[j] == p;
    RemoveFromChain(mem, mem', t.ubl, j);
    FreeListsKept(mem, mem', t, {}, used, heads, p);
  }

  lemma LinkedAddUbl(mem: Mem, mem': Mem, t: Table, last: Ptr, used: Ptr, heads: seq<Ptr>, i: nat, k: nat)
    requires i < |t.blocks| && Linked(mem, t, last, used, heads) && Separate(t, {t.blocks[i].ptr})
    requires k == |UsedPtrs(t.blocks[..i], {})| && k <= |t.ubl|
    requires Inserted(mem, mem', At(t.ubl, k - 1), t.blocks[i].ptr, At(t.ubl, k))
    ensures Linked(mem', AddUbl(t, i), last, if k == 0 then t.blocks[i].ptr else used, heads)
  {
    var p := t.blocks[i].ptr;
    assert GblAt(mem, t.blocks, i);
    OnlyListsGbl(mem, mem', t.blocks);
    InsertChain(mem, mem', t.ubl, k, p);
    assert k > 0 ==> t.ubl[k - 1] in t.ubl;
    assert k < |t.ubl| ==> t.ubl[k] in t.ubl;
    FreeListsKept(mem, mem', t, {p}, used, heads, p);
  }

  lemma LinkedSetBlk(mem: Mem, t: Table, last: Ptr, used: Ptr, heads: seq<Ptr>, i: nat, size: nat, status: Status, fbl: int)
    requires Linked(mem, t, last, used, heads) && Distinct(t.blocks) && i < |t.blocks| && t.blocks[i].ptr in mem
    ensures Linked(mem[t.blocks[i].ptr := mem[t.blocks[i].ptr].(size := size, status := status, fbl := fbl)],
                   SetBlk(t, i, size, status, fbl), last, used, heads)
  {
    var p, bs' := t.blocks[i].ptr, SetBlk(t, i, size, status, fbl).blocks;
    var mem' := mem[p := mem[p].(size := size, status := status, fbl := fbl)];
    forall j | 0 <= j < |bs'| ensures GblAt(mem', bs', j) {
      assert GblAt(mem, t.blocks, j);
    }
    forall q | q in mem' ensures Has(bs', q) {
      assert Has(t.blocks, q);
      var b :| b in t.blocks && b.ptr == q;
      var j :| 0 <= j < |t.blocks| && t.blocks[j] == b;
      assert bs'[j] in bs' && bs'[j].ptr == q;
    }
    ChainMembers(mem, t.ubl);
    ChainKept(mem, mem', t.ubl);
    forall k | 0 <= k < CLASSES ensures Chain(mem', t.fbl[k]) {
      ChainMembers(mem, t.fbl[k]);
      ChainKept(mem, mem', t.fbl[k]);
    }
  }

  /** b linked into the GBL between prev and next. */
  ghost predicate GblInserted(mem: Mem, mem': Mem, prev: Ptr, b: Blk, next: Ptr) {
    && mem'.Keys == mem.Keys + {b.ptr}
    && mem'[b.ptr] == Desc(b.start, b.size, b.status, b.fbl, prev, next, NULL, NULL)
    && forall q :: q in mem && q != b.ptr ==> mem'[q] == mem[q].(
         gn := if q == prev then b.ptr else mem[q].gn,
         gp := if q == next then b.ptr else mem[q].gp)
  }

  lemma LinkedInsertBlk(mem: Mem, mem': Mem, t: Table, last: Ptr, used: Ptr, heads: seq<Ptr>, i: nat, b: Blk)
    requires Linked(mem, t, last, used, heads) && Distinct(t.blocks) && i <= |t.blocks|
    requires b.ptr != NULL && b.ptr !in mem
    requires GblInserted(mem, mem', PtrAt(t.blocks, i - 1), b, PtrAt(t.blocks, i))
    ensures Linked(mem', InsertBlk(t, i, b), if i == |t.blocks| then b.ptr else last, used, heads)
  {
    var bs, bs' := t.blocks, InsertBlk(t, i, b).blocks;
    InsertGbl(mem, mem', bs, i, b, bs');
    ListsUntouched(mem, mem', t, used, heads);
  }

  lemma ListsUntouched(mem: Mem, mem': Mem, t: Table, used: Ptr, heads: seq<Ptr>)
    requires ListsLinked(mem, t, used, heads)
    requires forall q :: q in mem && (q in t.ubl || exists k :: 0 <= k < CLASSES && q in t.fbl[k]) ==>
               q in mem' && mem'[q].up == mem[q].up && mem'[q].un == mem[q].un
    ensures ListsLinked(mem', t, used, heads)
  {
    ChainMembers(mem, t.ubl);
    ChainKept(mem, mem', t.ubl);
    forall k | 0 <= k < CLASSES ensures Chain(mem', t.fbl[k]) {
      ChainMembers(mem, t.fbl[k]);
      ChainKept(mem, mem', t.fbl[k]);
    }
  }

  lemma InsertGbl(mem: Mem, mem': Mem, bs: seq<Blk>, i: nat, b: Blk, bs': seq<Blk>)
    requires GblLinked(mem, bs) && Distinct(bs) && i <= |bs| && bs' == bs[..i] + [b] + bs[i..]
    requires NULL !in mem && b.ptr != NULL && b.ptr !in mem && GblInserted(mem, mem', PtrAt(bs, i - 1), b, PtrAt(bs, i))
    ensures GblLinked(mem', bs')
  {
    forall j | 0 <= j < |bs'| ensures GblAt(mem', bs', j) {
      if j != i {
        var j' := if j < i then j else j - 1;
        assert GblAt(mem, bs, j');
        PtrAtInjective(bs, j', i - 1);
        PtrAtInjective(bs, j', i);
        InsertGblAt(mem, mem', bs, i, b, bs', j);
      }
    }
    assert bs == bs[..i] + bs[i..];
    assert forall c :: c in bs' <==> c in bs || c == b;
    forall q | q in mem' ensures Has(bs', q) {
      if q != b.ptr { assert Has(bs, q); } else { assert b in bs'; }
    }
  }

  lemma InsertGblAt(mem: Mem, mem': Mem, bs: seq<Blk>, i: nat, b: Blk, bs': seq<Blk>, j: nat)
    requires i <= |bs| && bs' == bs[..i] + [b] + bs[i..] && j < |bs'| && j != i
    requires var j' := if j < i then j else j - 1;
             && GblAt(mem, bs, j') && bs[j'].ptr != b.ptr
             && (bs[j'].ptr == PtrAt(bs, i - 1) <==> j' == i - 1) && (bs[j'].ptr == PtrAt(bs, i) <==> j' == i)
    requires GblInserted(mem, mem', PtrAt(bs, i - 1), b, PtrAt(bs, i))
    ensures GblAt(mem', bs', j)
  {
  }

  lemma CutGblAt(mem: Mem, mem': Mem, bs: seq<Blk>, i: nat, j: nat, bs': seq<Blk>, l: nat)
    requires i < j <= |bs| && bs' == bs[..i + 1] + bs[j..] && l < |bs'|
    requires var l' := if l <= i then l else l + (j - i - 1);
             && GblAt(mem, bs, l') && bs[l'].ptr in mem'
             && (bs[l'].ptr == bs[i].ptr <==> l' == i) && (bs[l'].ptr == PtrAt(bs, j) <==> l' == j)
    requires GblCut(mem, mem', bs[i].ptr, PtrsOf(bs[i + 1..j]), PtrAt(bs, j))
    ensures GblAt(mem', bs', l)
  {
  }

  lemma PtrAtInjective(bs: seq<Blk>, i: nat, j: int)
    requires Distinct(bs) && i < |bs|
    ensures PtrAt(bs, i) == PtrAt(bs, j) <==> i == j
  {
    assert bs[i] in bs;
  }

  /** Blocks i+1 to j-1 unlinked from the GBL and their descriptors dropped. */
  ghost predicate GblCut(mem: Mem, mem': Mem, prev: Ptr, dropped: set<Ptr>, next: Ptr) {
    && mem'.Keys == mem.Keys - dropped
    && forall q :: q in mem' ==> mem'[q] == mem[q].(
         gn := if q == prev then next else mem[q].gn,
         gp := if q == next then prev else mem[q].gp)
  }

  ghost function PtrsOf(bs: seq<Blk>): set<Ptr> {
    set b | b in bs :: b.ptr
  }

  lemma LinkedCut(mem: Mem, mem': Mem, t: Table, X: set<Ptr>, last: Ptr, used: Ptr, heads: seq<Ptr>, i: nat, j: nat)
    requires Linked(mem, t, last, used, heads) && Distinct(t.blocks) && Separate(t, X) && i < j <= |t.blocks|
    requires GblCut(mem, mem', t.blocks[i].ptr, PtrsOf(t.blocks[i + 1..j]), PtrAt(t.blocks, j))
    requires PtrsOf(t.blocks[i + 1..j]) <= X
    ensures Linked(mem', CutBlks(t, i, j), if j == |t.blocks| then t.blocks[i].ptr else last, used, heads)
  {
    CutGbl(mem, mem', t.blocks, i, j, CutBlks(t, i, j).blocks);
    ListsUntouched(mem, mem', t, used, heads);
  }

  lemma CutGbl(mem: Mem, mem': Mem, bs: seq<Blk>, i: nat, j: nat, bs': seq<Blk>)
    requires GblLinked(mem, bs) && Distinct(bs) && NULL !in mem && i < j <= |bs| && bs' == bs[..i + 1] + bs[j..]
    requires GblCut(mem, mem', bs[i].ptr, PtrsOf(bs[i + 1..j]), PtrAt(bs, j))
    ensures GblLinked(mem', bs')
  {
    var cut := bs[i + 1..j];
    assert bs == bs[..i + 1] + cut + bs[j..];
    forall l | 0 <= l < |bs'| ensures GblAt(mem', bs', l) {
      var l' := if l <= i then l else l + (j - i - 1);
      assert GblAt(mem, bs, l');
      PtrAtInjective(bs, l', i);
      PtrAtInjective(bs, l', j);
      NotCut(bs, i, j, l');
      CutGblAt(mem, mem', bs, i, j, bs', l);
    }
    forall q | q in mem' ensures Has(bs', q) {
      assert Has(bs, q);
      var c :| c in bs && c.ptr == q;
      assert c !in cut;
      assert c in bs';
    }
  }

  lemma NotCut(bs: seq<Blk>, i: nat, j: nat, l: nat)
    requires Distinct(bs) && i < j <= |bs| && l < |bs| && !(i < l < j)
    ensures bs[l].ptr !in PtrsOf(bs[i + 1..j])
  {
    NotWithin(bs, i + 1, j, l);
  }

  lemma NotWithin(bs: seq<Blk>, lo: nat, hi: nat, l: nat)
    requires Distinct(bs) && lo <= hi <= |bs| && l < |bs| && !(lo <= l < hi)
    ensures bs[l].ptr !in PtrsOf(bs[lo..hi])
  {
    forall c | c in bs[lo..hi] ensures c.ptr != bs[l].ptr {
      var m :| 0 <= m < hi - lo && bs[lo..hi][m] == c;
      assert c == bs[lo + m];
    }
  }

  /** The last block unlinked from the GBL. */
  function DropLast(t: Table): Table
    requires |t.blocks| > 0
  {
    t.(blocks := t.blocks[..|t.blocks| - 1])
  }

  lemma DropLastListed(t: Table, X: set<Ptr>)
    requires Listed(t, X) && |t.blocks| > 0 && t.blocks[|t.blocks| - 1].ptr in X
    ensures Listed(DropLast(t), X)
  {
    Unfold(t, X);
    var n := |t.blocks| - 1;
    assert UsedPtrs(t.blocks, X) == UsedPtrs(t.blocks[..n], X) + UsedOne(t.blocks[n], X);
    assert t.blocks == t.blocks[..n] + [t.blocks[n]];
    HasKept(t.blocks, t.blocks[..n], t.fbl, X);
  }

  lemma LinkedDropLast(mem: Mem, mem': Mem, t: Table, X: set<Ptr>, last: Ptr, used: Ptr, heads: seq<Ptr>)
    requires Linked(mem, t, last, used, heads) && Distinct(t.blocks) && Separate(t, X)
    requires |t.blocks| == 1 && last in X && mem' == map[]
    ensures Linked(mem', DropLast(t), NULL, used, heads)
  {
    assert forall q :: Has(t.blocks, q) ==> q == last;
    NoMember(t.ubl, t.blocks, last);
    forall k | 0 <= k < CLASSES ensures t.fbl[k] == [] {
      NoMember(t.fbl[k], t.blocks, last);
    }
  }

  lemma NoMember(s: seq<Ptr>, bs: seq<Blk>, p: Ptr)
    requires p !in s && (forall q :: Has(bs, q) ==> q == p) && (forall q :: q in s ==> Has(bs, q))
    ensures s == []
  {
    if s != [] {
      SomeMember(s);
      assert false;
    }
  }

  lemma SomeMember(s: seq<Ptr>)
    requires s != []
    ensures exists q :: q in s
  {
    assert s[0] in s;
  }

  // ---------------------------------------------------------------- where the UBL insertion goes

  ghost predicate Ascending(bs: seq<Blk>) {
    forall i, j :: 0 <= i < j < |bs| ==> bs[i].start < bs[j].start
  }

  /** The index of the last used block in front of i, -1 when there is none. */
  ghost function LastUsed(bs: seq<Blk>, i: nat): (j: int)
    requires i <= |bs|
    ensures -1 <= j < i && (0 <= j ==> bs[j].status.Used?)
    ensures forall l :: j < l < i ==> !bs[l].status.Used?
  {
    if i == 0 || bs[i - 1].status.Used? then i - 1 else LastUsed(bs, i - 1)
  }

  /** The backward walk meets the last used block in front of i: it is the UBL predecessor. */
  lemma LastUsedBefore(bs: seq<Blk>, i: nat, j: nat)
    requires j < i <= |bs| && bs[j].status.Used?
    requires forall l :: j < l < i ==> !bs[l].status.Used?
    ensures UsedPtrs(bs[..i], {}) == UsedPtrs(bs[..j], {}) + [bs[j].ptr]
  {
    UsedMiddle(bs[..j], bs[j], bs[j + 1..i], {});
    assert bs[..i] == bs[..j] + [bs[j]] + bs[j + 1..i];
    UsedNone(bs[j + 1..i], {});
  }

  lemma NoneUsedBefore(bs: seq<Blk>, i: nat)
    requires i <= |bs| && forall l :: 0 <= l < i ==> !bs[l].status.Used?
    ensures UsedPtrs(bs[..i], {}) == []
  {
    UsedNone(bs[..i], {});
  }

  /** The UBL without block i is what lies before it followed by what lies behind it. */
  lemma UblAround(t: Table, i: nat)
    requires i < |t.blocks| && t.blocks[i].status.Used? && Listed(t, {t.blocks[i].ptr})
    ensures t.ubl == UsedPtrs(t.blocks[..i], {}) + UsedPtrs(t.blocks[i + 1..], {})
  {
    Unfold(t, {t.blocks[i].ptr});
    UsedAround(t.blocks, i, UsedPtrs(t.blocks[..i], {}), UsedPtrs(t.blocks[i + 1..], {}));
  }

  /** The first UBL entry lies behind block i exactly when no used block lies in front of it. */
  lemma FirstUsedSide(bs: seq<Blk>, i: nat, f: nat, front: seq<Ptr>, back: seq<Ptr>)
    requires i < |bs| && f < |bs| && Distinct(bs)
    requires front == UsedPtrs(bs[0..i], {}) && back == UsedPtrs(bs[i + 1..|bs|], {})
    requires front + back != [] && (front + back)[0] == bs[f].ptr
    ensures front == [] ==> i < f
    ensures front != [] ==> f < i
  {
    if front == [] {
      assert back[0] in back;
      UsedWithin(bs, i + 1, |bs|, f);
    } else {
      assert front[0] in front;
      UsedWithin(bs, 0, i, f);
    }
  }

  lemma UsedWithin(bs: seq<Blk>, lo: nat, hi: nat, f: nat)
    requires lo <= hi <= |bs| && f < |bs| && Distinct(bs) && bs[f].ptr in UsedPtrs(bs[lo..hi], {})
    ensures lo <= f < hi
  {
    UsedMember(bs[lo..hi], {}, bs[f].ptr);
    FoundIn(bs, lo, hi, bs[f].ptr, f);
  }

  lemma FoundIn(bs: seq<Blk>, lo: nat, hi: nat, p: Ptr, f: nat)
    requires lo <= hi <= |bs| && f < |bs| && bs[f].ptr == p && Distinct(bs)
    requires exists b :: b in bs[lo..hi] && b.ptr == p && b.status.Used?
    ensures lo <= f < hi
  {
    var b :| b in bs[lo..hi] && b.ptr == p && b.status.Used?;
    var m :| 0 <= m < hi - lo && bs[lo..hi][m] == b;
    assert bs[lo + m].ptr == p;
  }

  // ---------------------------------------------------------------- the block table

  class BlockTable {
    var mem: Mem
    var last: Ptr
    var used: Ptr
    const free: array<Ptr>

    ghost var t: Table
    ghost var detached: set<Ptr>   // blocks of the GBL that are on no other list

    ghost predicate Shape()
      reads this, free
    {
      free.Length == CLASSES && Linked(mem, t, last, used, free[..])
    }

    ghost predicate Valid()
      reads this, free
    {
      Shape() && Listed(t, detached)
    }

    constructor ()
      ensures Valid() && fresh(free)
      ensures t == Table([], [], seq(CLASSES, _ => [])) && detached == {}
    {
      mem, last, used := map[], NULL, NULL;
      free := new Ptr[CLASSES](_ => NULL);
      t, detached := Table([], [], seq(CLASSES, _ => [])), {};
    }

    /** The descriptor of block i. */
    lemma Look(i: int)
      requires Shape() && 0 <= i < |t.blocks|
      ensures t.blocks[i].ptr in mem && Describes(mem[t.blocks[i].ptr], t.blocks[i]) && t.blocks[i].ptr != NULL
      ensures mem[t.blocks[i].ptr].gp == PtrAt(t.blocks, i - 1) && mem[t.blocks[i].ptr].gn == PtrAt(t.blocks, i + 1)
    {
      assert GblAt(mem, t.blocks, i);
    }

    /** Puts the free block p at the head of the free list its fbl field names. */
    method AddToFbl(p: Ptr, ghost i: nat)
      requires Valid() && i < |t.blocks| && t.blocks[i].ptr == p && !t.blocks[i].status.Used? && p in detached
      modifies this`mem, this`t, this`detached, free
      ensures Valid() && t == AddFbl(old(t), i) && detached == old(detached) - {p}
    {
      Look(i);
      ListedAt(t, detached, i);
      ghost var mem0, heads0 := mem, free[..];
      HeadIn(mem, t, detached, used, heads0, mem[p].fbl);
      PushFree(p);
      AddFblStep(mem0, mem, t, detached, last, used, heads0, i);
      t, detached := AddFbl(t, i), detached - {p};
    }

    method PushFree(p: Ptr)
      requires free.Length == CLASSES && p in mem && 0 <= mem[p].fbl < CLASSES && NULL !in mem
      requires free[mem[p].fbl] != p && (free[mem[p].fbl] != NULL ==> free[mem[p].fbl] in mem)
      modifies this`mem, free
      ensures var f := old(mem[p].fbl);
              Pushed(old(mem), mem, p, old(free[f])) && free[..] == old(free[..])[f := p]
    {
      var fbl := mem[p].fbl;
      mem := mem[p := mem[p].(up := NULL, un := NULL)];
      var head := free[fbl];
      if head != NULL {
        mem := mem[head := mem[head].(up := p)];
        mem := mem[p := mem[p].(up := NULL, un := head)];
      }
      free[fbl] := p;
    }

    /** Takes the free block p off its free list. */
    method RemoveFromFbl(p: Ptr, ghost i: nat)
      requires Valid() && i < |t.blocks| && t.blocks[i].ptr == p && !t.blocks[i].status.Used? && p !in detached
      modifies this`mem, this`t, this`detached, free
      ensures Valid() && t == RemFbl(old(t), i) && detached == old(detached) + {p}
    {
      Look(i);
      ghost var mem0, heads0 := mem, free[..];
      FblNeighbours(mem, t, detached, used, heads0, i);
      UnlinkFree(p);
      RemFblStep(mem0, mem, t, detached, last, used, heads0, i);
      t, detached := RemFbl(t, i), detached + {p};
    }

    /** The links of p and of its neighbours in mem, as far as unlinking p relies on them. */
    ghost predicate Unlinkable(p: Ptr)
      reads this
    {
      && NULL !in mem && p in mem && mem[p].up != p && mem[p].un != p
      && (mem[p].up != NULL ==> mem[p].up in mem && mem[p].up != mem[p].un) && (mem[p].un != NULL ==> mem[p].un in mem)
    }

    method UnlinkFree(p: Ptr)
      requires free.Length == CLASSES && Unlinkable(p) && 0 <= mem[p].fbl < CLASSES
      modifies this`mem, free
      ensures var d := old(mem[p]);
              && Unlinked(old(mem), mem, d.up, p, d.un)
              && free[..] == if d.up == NULL then old(free[..])[d.fbl := d.un] else old(free[..])
    {
      var n, q := mem[p].un, mem[p].up;
      if n != NULL {
        mem := mem[n := mem[n].(up := q)];
        mem := mem[p := mem[p].(un := NULL)];
      }
      if q != NULL {
        mem := mem[q := mem[q].(un := n)];
        mem := mem[p := mem[p].(up := NULL)];
      } else {
        var fbl := mem[p].fbl;
        free[fbl] := n;
      }
    }

    /** Takes the used block p off the UBL. */
    method RemoveFromUbl(p: Ptr, ghost i: nat)
      requires Valid() && i < |t.blocks| && t.blocks[i].ptr == p && t.blocks[i].status.Used? && detached == {}
      modifies this`mem, this`used, this`t, this`detached
      ensures Valid() && t == RemUbl(old(t), i) && detached == {p}
    {
      Look(i);
      ghost var mem0, used0 := mem, used;
      UblNeighbours(mem, t, used, free[..], i);
      UnlinkUsed(p);
      RemUblStep(mem0, mem, t, last, used0, free[..], i);
      t, detached := RemUbl(t, i), {p};
    }

    method UnlinkUsed(p: Ptr)
      requires Unlinkable(p) && (p == used <==> mem[p].up == NULL)
      modifies this`mem, this`used
      ensures var d := old(mem[p]);
              Unlinked(old(mem), mem, d.up, p, d.un) && used == if old(used) == p then d.un else old(used)
    {
      if p == used {
        var n := mem[p].un;
        if n != NULL {
          used := n;
          mem := mem[n := mem[n].(up := NULL)];
        } else {
          used := NULL;
        }
      } else {
        var n, q := mem[p].un, mem[p].up;
        if n != NULL { mem := mem[n := mem[n].(up := q)]; }
        if q != NULL { mem := mem[q := mem[q].(un := n)]; }
      }
      mem := mem[p := mem[p].(un := NULL)];
      mem := mem[p := mem[p].(up := NULL)];
    }

    /**
     The backward walk over the GBL to the nearest used block in front of p.
     */
    method PreviousUsed(p: Ptr, ghost i: nat) returns (prev: Ptr)
      requires Shape() && i < |t.blocks| && t.blocks[i].ptr == p && p in mem
      requires Ascending(t.blocks)
      ensures prev == PtrAt(t.blocks, LastUsed(t.blocks, i))
    {
      Look(i);
      prev := mem[p].gp;
      ghost var j := i - 1;
      while prev != NULL
        invariant -1 <= j < i && prev == PtrAt(t.blocks, j)
        invariant LastUsed(t.blocks, i) == LastUsed(t.blocks, j + 1)
        decreases j
      {
        GblLook(mem, t.blocks, j);
        if mem[prev].start < mem[p].start && mem[prev].status.Used? { return; }
        prev := mem[prev].gp;
        j := j - 1;
      }
      if 0 <= j { Look(j); }
    }

    /**
     Links the used block p into the UBL.  The predecessor is found by walking the GBL
     backwards; the walk always finds it, so ERR_MEMORY_CORRUPTED is never reported.
     */
    method AddToUbl(p: Ptr, ghost i: nat)
      requires Valid() && i < |t.blocks| && t.blocks[i].ptr == p && t.blocks[i].status.Used? && detached == {p}
      requires Ascending(t.blocks)
      modifies this`mem, this`used, this`t, this`detached
      ensures Valid() && t == AddUbl(old(t), i) && detached == {}
    {
      ghost var mem0, used0 := mem, used;
      ghost var k := LinkIntoUbl(p, i);
      AddUblStep(mem0, mem, t, last, used0, free[..], i, k);
      t, detached := AddUbl(t, i), {};
    }

    method LinkIntoUbl(p: Ptr, ghost i: nat) returns (ghost k: nat)
      requires Valid() && i < |t.blocks| && t.blocks[i].ptr == p && t.blocks[i].status.Used? && detached == {p}
      requires Ascending(t.blocks)
      modifies this`mem, this`used
      ensures k == |UsedPtrs(t.blocks[..i], {})| && k <= |t.ubl|
      ensures Inserted(old(mem), mem, At(t.ubl, k - 1), p, At(t.ubl, k)) && used == if k == 0 then p else old(used)
    {
      Look(i);
      k := UblPlace(mem, t, used, free[..], i);
      if used == NULL {
        LinkOnly(p);
      } else if mem[used].start > mem[p].start {
        LinkFirst(p);
      } else {
        var prev := PreviousOnUbl(p, i, k);
        LinkBehind(p, prev);
      }
    }

    method PreviousOnUbl(p: Ptr, ghost i: nat, ghost k: nat) returns (prev: Ptr)
      requires Valid() && i < |t.blocks| && t.blocks[i].ptr == p && t.blocks[i].status.Used? && detached == {p}
      requires Ascending(t.blocks) && 0 < k == |UsedPtrs(t.blocks[..i], {})| && k <= |t.ubl|
      ensures prev == t.ubl[k - 1] && prev in mem && prev != p && prev != NULL
      ensures var n := mem[prev].un; n == At(t.ubl, k) && n != p && n != prev && (n != NULL ==> n in mem)
    {
      Look(i);
      prev := PreviousUsed(p, i);
      UblPredecessor(mem, t, free[..], used, i, LastUsed(t.blocks, i));
      if prev == NULL { assert false; }
    }

    method LinkOnly(p: Ptr)
      requires p in mem && NULL !in mem
      modifies this`mem, this`used
      ensures Inserted(old(mem), mem, NULL, p, NULL) && used == p
    {
      mem := mem[p := mem[p].(up := NULL, un := NULL)];
      used := p;
    }

    method LinkFirst(p: Ptr)
      requires p in mem && used in mem && used != p && NULL !in mem
      modifies this`mem, this`used
      ensures Inserted(old(mem), mem, NULL, p, old(used)) && used == p
    {
      mem := mem[p := mem[p].(un := used)];
      mem := mem[p := mem[p].(up := NULL)];
      mem := mem[used := mem[used].(up := p)];
      used := p;
    }

    method LinkBehind(p: Ptr, prev: Ptr)
      requires p in mem && prev in mem && prev != p && NULL !in mem
      requires mem[prev].un != p && mem[prev].un != prev && (mem[prev].un != NULL ==> mem[prev].un in mem)
      modifies this`mem
      ensures Inserted(old(mem), mem, prev, p, old(mem[prev].un))
    {
      mem := mem[p := mem[p].(un := mem[prev].un)];
      mem := mem[p := mem[p].(up := prev)];
      mem := mem[prev := mem[prev].(un := p)];
      var n := mem[p].un;
      if n != NULL { mem := mem[n := mem[n].(up := p)]; }
    }

    /** Rewrites the size, status and list number of block p. */
    method SetFields(p: Ptr, ghost i: nat, size: nat, status: Status, fbl: int)
      requires Valid() && i < |t.blocks| && t.blocks[i].ptr == p && 0 <= fbl < CLASSES
      requires p in detached
               || (t.blocks[i].status.Used? && status.Used?)
               || (!t.blocks[i].status.Used? && !status.Used? && t.blocks[i].fbl == fbl)
      modifies this`mem, this`t
      ensures Valid() && t == SetBlk(old(t), i, size, status, fbl)
    {
      Look(i);
      ListedDistinct(t, detached);
      LinkedSetBlk(mem, t, last, used, free[..], i, size, status, fbl);
      SetBlkListed(t, detached, i, size, status, fbl);
      mem := mem[p := mem[p].(size := size, status := status, fbl := fbl)];
      t := SetBlk(t, i, size, status, fbl);
    }

    /**
     Links a new descriptor p into the GBL behind prev, or makes it the only entry when
     prev is NULL.
     */
    method LinkGbl(p: Ptr, start: nat, size: nat, status: Status, fbl: int, prev: Ptr, ghost i: nat)
      requires Valid() && i <= |t.blocks| && prev == PtrAt(t.blocks, i - 1) && (prev == NULL ==> t.blocks == [])
      requires p != NULL && !Has(t.blocks, p) && 0 <= fbl < CLASSES
      modifies this`mem, this`last, this`t, this`detached
      ensures Valid() && detached == old(detached) + {p}
      ensures t == InsertBlk(old(t), i, Blk(p, start, size, status, fbl))
    {
      ghost var mem0, last0, b := mem, last, Blk(p, start, size, status, fbl);
      if prev != NULL { Look(i - 1); }
      if i < |t.blocks| { Look(i); }
      assert p !in mem;
      ListedDistinct(t, detached);
      NextDiffers(t.blocks, i);
      SpliceGbl(p, Desc(start, size, status, fbl, NULL, NULL, NULL, NULL), prev);
      InsertBlkStep(mem0, mem, t, detached, last0, used, free[..], i, b);
      t, detached := InsertBlk(t, i, b), detached + {p};
    }

    method SpliceGbl(p: Ptr, d: Desc, prev: Ptr)
      requires NULL !in mem && p !in mem && p != NULL && d.up == d.un == NULL
      requires prev != NULL ==> prev in mem && mem[prev].gn != prev && (mem[prev].gn != NULL ==> mem[prev].gn in mem)
      modifies this`mem, this`last
      ensures var next := if prev == NULL then NULL else old(mem[prev].gn);
              && GblInserted(old(mem), mem, prev, Blk(p, d.start, d.size, d.status, d.fbl), next)
              && last == if next == NULL then p else old(last)
    {
      if prev != NULL {
        var next := mem[prev].gn;
        mem := mem[p := d.(gp := prev, gn := next)];
        mem := mem[prev := mem[prev].(gn := p)];
        if next != NULL {
          mem := mem[next := mem[next].(gp := p)];
        } else {
          last := p;
        }
      } else {
        mem := mem[p := d.(gp := NULL, gn := NULL)];
        last := p;
      }
    }

    /** Makes block j the GBL neighbour of p; the descriptors in between cease to exist. */
    method CutGblAfter(p: Ptr, next: Ptr, dropped: set<Ptr>, ghost i: nat, ghost j: nat)
      requires Valid() && i < j <= |t.blocks| && t.blocks[i].ptr == p && next == PtrAt(t.blocks, j)
      requires dropped == PtrsOf(t.blocks[i + 1..j]) && dropped <= detached
      modifies this`mem, this`last, this`t, this`detached
      ensures Valid() && t == CutBlks(old(t), i, j) && detached == old(detached) - dropped
    {
      ghost var mem0, last0 := mem, last;
      Look(i);
      if j < |t.blocks| { Look(j); }
      ListedDistinct(t, detached);
      CutNeighbours(t.blocks, i, j);
      RelinkGbl(p, next, dropped);
      CutStep(mem0, mem, t, detached, last0, used, free[..], i, j, dropped);
      t, detached := CutBlks(t, i, j), detached - dropped;
    }

    method RelinkGbl(p: Ptr, next: Ptr, dropped: set<Ptr>)
      requires NULL !in mem && p in mem && p !in dropped && p != next && (next != NULL ==> next in mem && next !in dropped)
      modifies this`mem, this`last
      ensures last == if next == NULL then p else old(last)
      ensures mem.Keys == old(mem).Keys - dropped
      ensures forall q :: q in mem ==> mem[q] == old(mem)[q].(
                gn := if q == p then next else old(mem)[q].gn,
                gp := if q == next then p else old(mem)[q].gp)
    {
      mem := mem[p := mem[p].(gn := next)];
      if next != NULL {
        mem := mem[next := mem[next].(gp := p)];
      } else {
        last := p;
      }
      mem := mem - dropped;
    }

    /** Empties the GBL by dropping its only entry. */
    method DropOnly()
      requires Valid() && |t.blocks| == 1 && t.blocks[0].ptr in detached
      modifies this`mem, this`last, this`t, this`detached
      ensures Valid() && t == DropLast(old(t)) && detached == old(detached) - {old(last)}
    {
      Look(0);
      ListedSeparate(t, detached);
      ListedDistinct(t, detached);
      LinkedDropLast(mem, map[], t, detached, last, used, free[..]);
      DropLastListed(t, detached);
      ghost var p := last;
      mem, last := map[], NULL;
      t := DropLast(t);
      ListedUnion(t, detached, {p});
      detached := detached - {p};
    }
  }

  lemma ListedUnion(t: Table, X: set<Ptr>, D: set<Ptr>)
    requires Listed(t, X) && forall b :: b in t.blocks ==> b.ptr !in D
    ensures Listed(t, X - D)
  {
    Unfold(t, X);
    UsedSame(t.blocks, X, X - D);
    forall b | b in t.blocks ensures OnItsFbl(b, t.fbl, X - D) {
      assert OnItsFbl(b, t.fbl, X);
    }
  }

  lemma NextDiffers(bs: seq<Blk>, i: nat)
    requires Distinct(bs) && i <= |bs|
    ensures PtrAt(bs, i - 1) != NULL ==> PtrAt(bs, i) != PtrAt(bs, i - 1)
  {
    if 0 < i { PtrAtInjective(bs, i - 1, i); }
  }

  lemma CutNeighbours(bs: seq<Blk>, i: nat, j: nat)
    requires Distinct(bs) && i < j <= |bs|
    ensures PtrAt(bs, j) != bs[i].ptr && bs[i].ptr !in PtrsOf(bs[i + 1..j])
    ensures j < |bs| ==> PtrAt(bs, j) != NULL && PtrAt(bs, j) !in PtrsOf(bs[i + 1..j])
  {
    PtrAtInjective(bs, i, j);
    NotCut(bs, i, j, i);
    if j < |bs| {
      NotCut(bs, i, j, j);
      assert bs[j] in bs;
    }
  }

  lemma InsertBlkStep(mem: Mem, mem': Mem, t: Table, X: set<Ptr>, last: Ptr, used: Ptr, heads: seq<Ptr>, i: nat, b: Blk)
    requires Linked(mem, t, last, used, heads) && Listed(t, X) && i <= |t.blocks|
    requires b.ptr != NULL && b.ptr !in mem && !Has(t.blocks, b.ptr) && 0 <= b.fbl < CLASSES
    requires GblInserted(mem, mem', PtrAt(t.blocks, i - 1), b, PtrAt(t.blocks, i))
    ensures Linked(mem', InsertBlk(t, i, b), if i == |t.blocks| then b.ptr else last, used, heads)
    ensures Listed(InsertBlk(t, i, b), X + {b.ptr})
  {
    ListedDistinct(t, X);
    LinkedInsertBlk(mem, mem', t, last, used, heads, i, b);
    InsertBlkListed(t, X, i, b);
  }

  lemma CutStep(mem: Mem, mem': Mem, t: Table, X: set<Ptr>, last: Ptr, used: Ptr, heads: seq<Ptr>, i: nat, j: nat, D: set<Ptr>)
    requires Linked(mem, t, last, used, heads) && Listed(t, X) && i < j <= |t.blocks|
    requires D == PtrsOf(t.blocks[i + 1..j]) && D <= X
    requires GblCut(mem, mem', t.blocks[i].ptr, D, PtrAt(t.blocks, j))
    ensures Linked(mem', CutBlks(t, i, j), if j == |t.blocks| then t.blocks[i].ptr else last, used, heads)
    ensures Listed(CutBlks(t, i, j), X - D)
  {
    ListedSeparate(t, X);
    ListedDistinct(t, X);
    LinkedCut(mem, mem', t, X, last, used, heads, i, j);
    forall k | i < k < j ensures t.blocks[k].ptr in X {
      assert t.blocks[k] == t.blocks[i + 1..j][k - i - 1];
      assert t.blocks[k].ptr in D;
    }
    CutBlksListed(t, X, i, j);
    forall b | b in CutBlks(t, i, j).blocks ensures b.ptr !in D {
      CutMember(t.blocks, i, j, b);
    }
    ListedUnion(CutBlks(t, i, j), X, D);
  }

  lemma CutMember(bs: seq<Blk>, i: nat, j: nat, b: Blk)
    requires Distinct(bs) && i < j <= |bs| && b in bs[..i + 1] + bs[j..]
    ensures b.ptr !in PtrsOf(bs[i + 1..j])
  {
    var cs := bs[..i + 1] + bs[j..];
    var l :| 0 <= l < |cs| && cs[l] == b;
    NotCut(bs, i, j, if l <= i then l else l + (j - i - 1));
  }

  /** What the tests on the head of the UBL say about the place of block i. */
  lemma UblPlace(mem: Mem, t: Table, used: Ptr, heads: seq<Ptr>, i: nat) returns (k: nat)
    requires i < |t.blocks| && GblLinked(mem, t.blocks) && ListsLinked(mem, t, used, heads) && NULL !in mem
    requires Listed(t, {t.blocks[i].ptr}) && t.blocks[i].status.Used? && Ascending(t.blocks)
    ensures k == |UsedPtrs(t.blocks[..i], {})| && k <= |t.ubl|
    ensures used == At(t.ubl, 0) && (used == NULL ==> t.ubl == [])
    ensures used != NULL ==> used in mem && used != t.blocks[i].ptr && (mem[used].start > t.blocks[i].start <==> k == 0)
  {
    var p := t.blocks[i].ptr;
    var front, back := UsedPtrs(t.blocks[0..i], {}), UsedPtrs(t.blocks[i + 1..|t.blocks|], {});
    assert t.blocks[..i] == t.blocks[0..i] && t.blocks[i + 1..] == t.blocks[i + 1..|t.blocks|];
    UblAround(t, i);
    k := |front|;
    ListedSeparate(t, {p});
    ListedDistinct(t, {p});
    if t.ubl != [] {
      assert t.ubl[0] in t.ubl;
      var f := UblHead(mem, t, used, heads, p);
      FirstUsedSide(t.blocks, i, f, front, back);
    }
  }

  /** A used block in front of i exists when the UBL head lies in front of i; it is UBL entry k-1. */
  lemma UblPredecessor(mem: Mem, t: Table, heads: seq<Ptr>, used: Ptr, i: nat, j: int)
    requires i < |t.blocks| && ListsLinked(mem, t, used, heads) && NULL !in mem
    requires Listed(t, {t.blocks[i].ptr}) && t.blocks[i].status.Used?
    requires -1 <= j < i && (forall l :: j < l < i ==> !t.blocks[l].status.Used?) && (0 <= j ==> t.blocks[j].status.Used?)
    ensures var k := |UsedPtrs(t.blocks[..i], {})|;
            && (k > 0 <==> 0 <= j) && k <= |t.ubl|
            && (k > 0 ==> t.ubl[k - 1] == t.blocks[j].ptr && t.blocks[j].ptr in mem && t.blocks[j].ptr != t.blocks[i].ptr
                          && mem[t.blocks[j].ptr].un == At(t.ubl, k) && At(t.ubl, k) != t.blocks[i].ptr
                          && At(t.ubl, k) != t.blocks[j].ptr
                          && (At(t.ubl, k) != NULL ==> At(t.ubl, k) in mem))
  {
    UblAround(t, i);
    if j < 0 {
      NoneUsedBefore(t.blocks, i);
    } else {
      LastUsedBefore(t.blocks, i, j);
      ListedSeparate(t, {t.blocks[i].ptr});
      ListedAt(t, {t.blocks[i].ptr}, i);
      var k := |UsedPtrs(t.blocks[..i], {})|;
      assert t.ubl[k - 1] == t.blocks[j].ptr && ChainAt(mem, t.ubl, k - 1);
      assert t.ubl[k - 1] in t.ubl;
      if k < |t.ubl| { assert t.ubl[k] in t.ubl && ChainAt(mem, t.ubl, k); }
    }
  }

  lemma HeadIn(mem: Mem, t: Table, X: set<Ptr>, used: Ptr, heads: seq<Ptr>, f: int)
    requires ListsLinked(mem, t, used, heads) && Listed(t, X) && 0 <= f < CLASSES
    ensures heads[f] != NULL ==> heads[f] in mem && heads[f] in t.fbl[f]
    ensures heads[f] !in X || heads[f] == NULL
  {
    ListedSeparate(t, X);
    if t.fbl[f] != [] {
      assert ChainAt(mem, t.fbl[f], 0);
      assert t.fbl[f][0] in t.fbl[f];
    }
  }

  lemma OnItsList(t: Table, X: set<Ptr>, i: nat)
    requires Listed(t, X) && i < |t.blocks| && t.blocks[i].ptr !in X
    ensures 0 <= t.blocks[i].fbl < CLASSES
    ensures if t.blocks[i].status.Used? then t.blocks[i].ptr in t.ubl else t.blocks[i].ptr in t.fbl[t.blocks[i].fbl]
  {
    Unfold(t, X);
    assert t.blocks[i] in t.blocks;
    assert OnItsFbl(t.blocks[i], t.fbl, X) && (!t.blocks[i].status.Used? ==> OnFbl(t.blocks[i], t.blocks[i].fbl, X));
    UsedMember(t.blocks, X, t.blocks[i].ptr);
  }

  lemma NeighboursIn(mem: Mem, s: seq<Ptr>, p: Ptr)
    requires Chain(mem, s) && p in s && NULL !in mem
    ensures p in mem && (mem[p].up != NULL ==> mem[p].up in mem) && (mem[p].un != NULL ==> mem[p].un in mem)
    ensures NoDup(s) ==> mem[p].up != p && mem[p].un != p && (mem[p].up != NULL ==> mem[p].up != mem[p].un)
    ensures p == At(s, 0) ==> NoDup(s) ==> mem[p].up == NULL
    ensures p != At(s, 0) ==> mem[p].up != NULL
  {
    var i :| 0 <= i < |s| && s[i] == p;
    assert ChainAt(mem, s, i);
    if i > 0 { assert ChainAt(mem, s, i - 1); }
    if i + 1 < |s| { assert ChainAt(mem, s, i + 1); }
  }

  lemma FblNeighbours(mem: Mem, t: Table, X: set<Ptr>, used: Ptr, heads: seq<Ptr>, i: nat)
    requires ListsLinked(mem, t, used, heads) && NULL !in mem && Listed(t, X)
    requires i < |t.blocks| && !t.blocks[i].status.Used? && t.blocks[i].ptr !in X
    ensures var p := t.blocks[i].ptr;
            && p in mem && (mem[p].up != NULL ==> mem[p].up in mem) && (mem[p].un != NULL ==> mem[p].un in mem)
            && mem[p].up != p && mem[p].un != p && (mem[p].up != NULL ==> mem[p].up != mem[p].un)
    ensures 0 <= t.blocks[i].fbl < CLASSES
  {
    OnItsList(t, X, i);
    ListedSeparate(t, X);
    NeighboursIn(mem, t.fbl[t.blocks[i].fbl], t.blocks[i].ptr);
  }

  lemma UblNeighbours(mem: Mem, t: Table, used: Ptr, heads: seq<Ptr>, i: nat)
    requires ListsLinked(mem, t, used, heads) && NULL !in mem && Listed(t, {})
    requires i < |t.blocks| && t.blocks[i].status.Used?
    ensures var p := t.blocks[i].ptr;
            && p in mem && (mem[p].up != NULL ==> mem[p].up in mem) && (mem[p].un != NULL ==> mem[p].un in mem)
            && mem[p].up != p && mem[p].un != p && (mem[p].up != NULL ==> mem[p].up != mem[p].un)
            && (p == used <==> mem[p].up == NULL)
  {
    OnItsList(t, {}, i);
    ListedSeparate(t, {});
    NeighboursIn(mem, t.ubl, t.blocks[i].ptr);
  }

  lemma AddFblStep(mem: Mem, mem': Mem, t: Table, X: set<Ptr>, last: Ptr, used: Ptr, heads: seq<Ptr>, i: nat)
    requires Linked(mem, t, last, used, heads) && Listed(t, X)
    requires i < |t.blocks| && t.blocks[i].ptr in X && !t.blocks[i].status.Used? && 0 <= t.blocks[i].fbl < CLASSES
    requires Pushed(mem, mem', t.blocks[i].ptr, heads[t.blocks[i].fbl])
    ensures Linked(mem', AddFbl(t, i), last, used, heads[t.blocks[i].fbl := t.blocks[i].ptr])
    ensures Listed(AddFbl(t, i), X - {t.blocks[i].ptr})
  {
    ListedSeparate(t, X);
    LinkedAddFbl(mem, mem', t, X, last, used, heads, i);
    AddFblListed(t, X, i);
  }

  lemma RemFblStep(mem: Mem, mem': Mem, t: Table, X: set<Ptr>, last: Ptr, used: Ptr, heads: seq<Ptr>, i: nat)
    requires Linked(mem, t, last, used, heads) && Listed(t, X)
    requires i < |t.blocks| && t.blocks[i].ptr !in X && !t.blocks[i].status.Used? && t.blocks[i].ptr in mem
    requires Unlinked(mem, mem', mem[t.blocks[i].ptr].up, t.blocks[i].ptr, mem[t.blocks[i].ptr].un)
    ensures var p, f := t.blocks[i].ptr, t.blocks[i].fbl;
            && 0 <= f < CLASSES
            && Linked(mem', RemFbl(t, i), last, used, if mem[p].up == NULL then heads[f := mem[p].un] else heads)
            && Listed(RemFbl(t, i), X + {p})
  {
    ListedSeparate(t, X);
    OnItsList(t, X, i);
    LinkedRemFbl(mem, mem', t, X, last, used, heads, i);
    RemFblListed(t, X, i);
  }

  lemma RemUblStep(mem: Mem, mem': Mem, t: Table, last: Ptr, used: Ptr, heads: seq<Ptr>, i: nat)
    requires Linked(mem, t, last, used, heads) && Listed(t, {})
    requires i < |t.blocks| && t.blocks[i].status.Used? && t.blocks[i].ptr in mem
    requires Unlinked(mem, mem', mem[t.blocks[i].ptr].up, t.blocks[i].ptr, mem[t.blocks[i].ptr].un)
    ensures var p := t.blocks[i].ptr;
            && Linked(mem', RemUbl(t, i), last, if used == p then mem[p].un else used, heads)
            && Listed(RemUbl(t, i), {p})
  {
    ListedSeparate(t, {});
    OnItsList(t, {}, i);
    LinkedRemUbl(mem, mem', t, last, used, heads, i);
    RemUblListed(t, i);
  }

  lemma AddUblStep(mem: Mem, mem': Mem, t: Table, last: Ptr, used: Ptr, heads: seq<Ptr>, i: nat, k: nat)
    requires i < |t.blocks| && Linked(mem, t, last, used, heads) && Listed(t, {t.blocks[i].ptr}) && t.blocks[i].status.Used?
    requires k == |UsedPtrs(t.blocks[..i], {})| && k <= |t.ubl|
    requires Inserted(mem, mem', At(t.ubl, k - 1), t.blocks[i].ptr, At(t.ubl, k))
    ensures Linked(mem', AddUbl(t, i), last, if k == 0 then t.blocks[i].ptr else used, heads)
    ensures Listed(AddUbl(t, i), {})
  {
    ListedSeparate(t, {t.blocks[i].ptr});
    LinkedAddUbl(mem, mem', t, last, used, heads, i, k);
    AddUblListed(t, i);
  }

  /** The first entry of the UBL, as an index into the GBL. */
  lemma UblHead(mem: Mem, t: Table, used: Ptr, heads: seq<Ptr>, p: Ptr) returns (f: nat)
    requires GblLinked(mem, t.blocks) && ListsLinked(mem, t, used, heads) && Listed(t, {p}) && used != NULL
    ensures t.ubl != [] && t.ubl[0] == used && used != p
    ensures f < |t.blocks| && t.blocks[f].ptr == used && used in mem && mem[used].start == t.blocks[f].start
  {
    ListedSeparate(t, {p});
    assert t.ubl[0] in t.ubl;
    var b :| b in t.blocks && b.ptr == used;
    f :| 0 <= f < |t.blocks| && t.blocks[f] == b;
    assert GblAt(mem, t.blocks, f);
  }

  lemma GblLook(mem: Mem, bs: seq<Blk>, j: int)
    requires GblLinked(mem, bs) && (j >= 0 ==> j < |bs|) && PtrAt(bs, j) != NULL
    ensures 0 <= j && GblAt(mem, bs, j)
  {
  }
}
