/**
 The block table shared by the heap allocator and the page-mapping allocator.

 Every block descriptor is linked into the general block list (GBL, in address order)
 and into one more list: the used block list (UBL) or one of the 31 free block lists
 (FBL).  `Table` is the abstract value of these lists; `BlockTable` is the pointer
 structure, whose methods are proved to compute the functions on `Table` below.
 */
module BlockLists {

  datatype Option<T> = None | Some(value: T)

  type Ptr = nat
  const NULL: Ptr := 0
  const CLASSES: nat := 31

  datatype Status = FreeEmpty | Free | Used

  datatype Blk = Blk(ptr: Ptr, start: nat, size: nat, status: Status, fbl: int)

  datatype Table = Table(blocks: seq<Blk>, ubl: seq<Ptr>, fbl: seq<seq<Ptr>>)

  // ---------------------------------------------------------------- size classes

  function Pow2(k: nat): (r: nat)
    ensures r > 0
  {
    if k == 0 then 1 else 2 * Pow2(k - 1)
  }

  function Log2(n: nat): nat
    requires n > 0
  {
    if n == 1 then 0 else 1 + Log2(n / 2)
  }

  /** The number of the free list for blocks of size sz, -1 when there is none. */
  function ClassOf(sz: nat): int {
    if sz == 0 || sz >= 0x8000_0000 then -1 else Log2(sz)
  }

  lemma {:induction false} Log2Bounds(n: nat)
    requires n > 0
    ensures Pow2(Log2(n)) <= n < Pow2(Log2(n) + 1)
  {
    if n > 1 { Log2Bounds(n / 2); }
  }

  lemma {:induction false} Pow2Monotone(a: nat, b: nat)
    requires a <= b
    ensures Pow2(a) <= Pow2(b)
  {
    if a < b { Pow2Monotone(a, b - 1); }
  }

  lemma Pow2Constants()
    ensures Pow2(30) == 0x4000_0000 && Pow2(31) == 0x8000_0000
  {
    assert Pow2(10) == 1024;
    assert Pow2(20) == 0x10_0000;
  }

  /** A size has class k exactly when it lies in [2^k, 2^(k+1)), for k below 31. */
  lemma ClassOfRange(sz: nat, k: nat)
    ensures ClassOf(sz) == k <==> k < CLASSES && Pow2(k) <= sz < Pow2(k + 1)
  {
    Pow2Constants();
    if sz > 0 {
      Log2Bounds(sz);
      var l := Log2(sz);
      if l < k { Pow2Monotone(l + 1, k); }
      if k < l { Pow2Monotone(k + 1, l); }
      if l >= 31 { Pow2Monotone(31, l); }
      if l < 31 { Pow2Monotone(l + 1, 31); }
    }
  }

  lemma ClassOfValid(sz: nat)
    requires 0 < sz < 0x8000_0000
    ensures 0 <= ClassOf(sz) < CLASSES
  {
    Log2Bounds(sz);
    ClassOfRange(sz, Log2(sz));
  }

  lemma ClassOfMonotone(a: nat, b: nat)
    requires 0 < a <= b < 0x8000_0000
    ensures ClassOf(a) <= ClassOf(b)
  {
    Log2Bounds(a);
    Log2Bounds(b);
    if Log2(b) < Log2(a) { Pow2Monotone(Log2(b) + 1, Log2(a)); }
  }

  /** The search loop for the class of a size. */
  method GetRightFbl(sz: nat) returns (fbl: int)
    ensures fbl == ClassOf(sz)
  {
    if sz == 0 { return -1; }
    var i, startsz := 0, 1;
    while i < CLASSES
      invariant 0 <= i <= CLASSES
      invariant startsz == Pow2(i) <= sz
    {
      var endsz := startsz * 2 - 1;
      if startsz <= sz <= endsz {
        ClassOfRange(sz, i);
        return i;
      }
      startsz := startsz * 2;
      i := i + 1;
    }
    Pow2Constants();
    return -1;
  }

  // ---------------------------------------------------------------- sequences of pointers

  ghost predicate NoDup<T(!new)>(s: seq<T>) {
    forall i, j :: 0 <= i < j < |s| ==> s[i] != s[j]
  }

  /** s without the first occurrence of p. */
  function Without(s: seq<Ptr>, p: Ptr): seq<Ptr> {
    if s == [] then [] else if s[0] == p then s[1..] else [s[0]] + Without(s[1..], p)
  }

  lemma {:induction false} WithoutAt(s: seq<Ptr>, i: nat)
    requires i < |s| && NoDup(s)
    ensures Without(s, s[i]) == s[..i] + s[i + 1..]
  {
    if i > 0 {
      var u := s[1..];
      assert u[i - 1] == s[i] && s[0] != s[i];
      WithoutAt(u, i - 1);
      assert [s[0]] + (u[..i - 1] + u[i..]) == s[..i] + s[i + 1..];
    }
  }

  lemma WithoutMembers(s: seq<Ptr>, p: Ptr)
    requires NoDup(s)
    ensures NoDup(Without(s, p))
    ensures forall q :: q in Without(s, p) <==> q in s && q != p
  {
    if p in s {
      var i :| 0 <= i < |s| && s[i] == p;
      var u := s[..i] + s[i + 1..];
      WithoutAt(s, i);
      assert s == s[..i] + [p] + s[i + 1..];
      forall j, k | 0 <= j < k < |u| ensures u[j] != u[k] {
        assert u[j] == s[if j < i then j else j + 1] && u[k] == s[if k < i then k else k + 1];
      }
    } else {
      WithoutAbsent(s, p);
    }
  }

  lemma {:induction false} WithoutAbsent(s: seq<Ptr>, p: Ptr)
    requires p !in s
    ensures Without(s, p) == s
  {
    if s != [] { WithoutAbsent(s[1..], p); }
  }

  lemma {:induction false} WithoutMiddle(a: seq<Ptr>, p: Ptr, c: seq<Ptr>)
    requires p !in a
    ensures Without(a + [p] + c, p) == a + c
  {
    if a == [] {
      assert a + [p] + c == [p] + c && a + c == c;
    } else {
      assert (a + [p] + c)[1..] == a[1..] + [p] + c;
      WithoutMiddle(a[1..], p, c);
      assert a + c == [a[0]] + (a[1..] + c);
    }
  }

  function At(s: seq<Ptr>, i: int): Ptr {
    if 0 <= i < |s| then s[i] else NULL
  }

  function PtrAt(bs: seq<Blk>, i: int): Ptr {
    if 0 <= i < |bs| then bs[i].ptr else NULL
  }

  ghost predicate Has(bs: seq<Blk>, p: Ptr) {
    exists b :: b in bs && b.ptr == p
  }

  function UsedOne(b: Blk, X: set<Ptr>): seq<Ptr> {
    if b.status.Used? && b.ptr !in X then [b.ptr] else []
  }

  /** The used blocks of bs in order, leaving out the blocks of X. */
  ghost function UsedPtrs(bs: seq<Blk>, X: set<Ptr>): seq<Ptr> {
    if bs == [] then [] else UsedPtrs(bs[..|bs| - 1], X) + UsedOne(bs[|bs| - 1], X)
  }

  lemma {:induction false} UsedConcat(a: seq<Blk>, b: seq<Blk>, X: set<Ptr>)
    ensures UsedPtrs(a + b, X) == UsedPtrs(a, X) + UsedPtrs(b, X)
    decreases |b|
  {
    if b == [] {
      assert a + b == a;
    } else {
      assert (a + b)[..|a + b| - 1] == a + b[..|b| - 1];
      UsedConcat(a, b[..|b| - 1], X);
    }
  }

  lemma UsedMiddle(a: seq<Blk>, b: Blk, c: seq<Blk>, X: set<Ptr>)
    ensures UsedPtrs(a + [b] + c, X) == UsedPtrs(a, X) + UsedOne(b, X) + UsedPtrs(c, X)
  {
    UsedConcat(a + [b], c, X);
    assert (a + [b])[..|a|] == a;
  }

  lemma {:induction false} UsedMember(bs: seq<Blk>, X: set<Ptr>, p: Ptr)
    ensures p in UsedPtrs(bs, X) <==> p !in X && exists b :: b in bs && b.ptr == p && b.status.Used?
  {
    if bs != [] {
      var n := |bs| - 1;
      UsedMember(bs[..n], X, p);
      assert p in UsedOne(bs[n], X) <==> p !in X && bs[n].ptr == p && bs[n].status.Used?;
      assert bs == bs[..n] + [bs[n]];
    }
  }

  lemma {:induction false} UsedSame(bs: seq<Blk>, X: set<Ptr>, Y: set<Ptr>)
    requires forall b :: b in bs && b.status.Used? ==> (b.ptr in X <==> b.ptr in Y)
    ensures UsedPtrs(bs, X) == UsedPtrs(bs, Y)
  {
    if bs != [] { UsedSame(bs[..|bs| - 1], X, Y); }
  }

  lemma {:induction false} UsedNone(bs: seq<Blk>, X: set<Ptr>)
    requires forall b :: b in bs ==> b.ptr in X || !b.status.Used?
    ensures UsedPtrs(bs, X) == []
  {
    if bs != [] { UsedNone(bs[..|bs| - 1], X); }
  }

  lemma {:induction false} UsedNoDup(bs: seq<Blk>, X: set<Ptr>)
    requires forall i, j :: 0 <= i < j < |bs| ==> bs[i].ptr != bs[j].ptr
    ensures NoDup(UsedPtrs(bs, X))
  {
    if bs != [] {
      var n := |bs| - 1;
      UsedNoDup(bs[..n], X);
      UsedMember(bs[..n], X, bs[n].ptr);
    }
  }

  // ---------------------------------------------------------------- list operations

  /** Block i at the head of the free list its fbl field names. */
  function AddFbl(t: Table, i: nat): Table
    requires i < |t.blocks|
  {
    var b := t.blocks[i];
    if 0 <= b.fbl < |t.fbl| then t.(fbl := t.fbl[b.fbl := [b.ptr] + t.fbl[b.fbl]]) else t
  }

  /** Block i taken off the free list its fbl field names. */
  function RemFbl(t: Table, i: nat): Table
    requires i < |t.blocks|
  {
    var b := t.blocks[i];
    if 0 <= b.fbl < |t.fbl| then t.(fbl := t.fbl[b.fbl := Without(t.fbl[b.fbl], b.ptr)]) else t
  }

  /** The UBL with block i inserted behind the used blocks in front of it. */
  ghost function AddUbl(t: Table, i: nat): Table
    requires i < |t.blocks|
  {
    var k := |UsedPtrs(t.blocks[..i], {})|;
    if k > |t.ubl| then t else t.(ubl := t.ubl[..k] + [t.blocks[i].ptr] + t.ubl[k..])
  }

  function RemUbl(t: Table, i: nat): Table
    requires i < |t.blocks|
  {
    t.(ubl := Without(t.ubl, t.blocks[i].ptr))
  }

  function SetBlk(t: Table, i: nat, size: nat, status: Status, fbl: int): Table
    requires i < |t.blocks|
  {
    t.(blocks := t.blocks[i := t.blocks[i].(size := size, status := status, fbl := fbl)])
  }

  /** Block b inserted into the GBL at position i. */
  function InsertBlk(t: Table, i: nat, b: Blk): Table
    requires i <= |t.blocks|
  {
    t.(blocks := t.blocks[..i] + [b] + t.blocks[i..])
  }

  /** Blocks i+1 to j-1 taken out of the GBL. */
  function CutBlks(t: Table, i: nat, j: nat): Table
    requires i < j <= |t.blocks|
  {
    t.(blocks := t.blocks[..i + 1] + t.blocks[j..])
  }

  // ---------------------------------------------------------------- the list invariant

  /**
   The UBL is exactly the used subsequence of the GBL, and every free block is on exactly
   the free list its fbl field names.  The blocks of X are the exception: they are on no list.
   */
  ghost predicate InOrder(t: Table, X: set<Ptr>) {
    && |t.fbl| == CLASSES
    && Distinct(t.blocks)
    && t.ubl == UsedPtrs(t.blocks, X)
    && FreeListed(t.blocks, t.fbl, X)
  }

  datatype Key = Key

  ghost predicate Turned(k: Key) { true }

  /** InOrder kept folded: the prover looks into it only where Unfold is called. */
  ghost predicate Listed(t: Table, X: set<Ptr>) {
    |t.fbl| == CLASSES && forall k: Key {:trigger Turned(k)} :: Turned(k) ==> InOrder(t, X)
  }

  lemma Unfold(t: Table, X: set<Ptr>)
    requires Listed(t, X)
    ensures InOrder(t, X)
  {
    assert Turned(Key);
  }

  lemma ListedDistinct(t: Table, X: set<Ptr>)
    requires Listed(t, X)
    ensures Distinct(t.blocks)
  {
    Unfold(t, X);
  }

  lemma ListedAt(t: Table, X: set<Ptr>, i: nat)
    requires Listed(t, X) && i < |t.blocks|
    ensures t.blocks[i].ptr != NULL && 0 <= t.blocks[i].fbl < CLASSES
  {
    Unfold(t, X);
    assert t.blocks[i] in t.blocks;
  }

  ghost predicate Distinct(bs: seq<Blk>) {
    && (forall i, j :: 0 <= i < j < |bs| ==> bs[i].ptr != bs[j].ptr)
    && (forall b :: b in bs ==> b.ptr != NULL && 0 <= b.fbl < CLASSES)
  }

  ghost predicate FreeListed(bs: seq<Blk>, fbl: seq<seq<Ptr>>, X: set<Ptr>)
    requires |fbl| == CLASSES
  {
    && (forall k :: 0 <= k < CLASSES ==> NoDup(fbl[k]))
    && (forall k, p :: 0 <= k < CLASSES && p in fbl[k] ==> Has(bs, p))
    && (forall b :: b in bs ==> OnItsFbl(b, fbl, X))
  }

  ghost predicate OnItsFbl(b: Blk, fbl: seq<seq<Ptr>>, X: set<Ptr>)
    requires |fbl| == CLASSES
  {
    forall k :: 0 <= k < CLASSES ==> (b.ptr in fbl[k] <==> OnFbl(b, k, X))
  }

  ghost predicate OnFbl(b: Blk, k: int, X: set<Ptr>) {
    !b.status.Used? && b.fbl == k && b.ptr !in X
  }

  lemma RemFblListed(t: Table, X: set<Ptr>, i: nat)
    requires Listed(t, X) && i < |t.blocks| && !t.blocks[i].status.Used?
    ensures Listed(RemFbl(t, i), X + {t.blocks[i].ptr})
  {
    Unfold(t, X);
    var b, t' := t.blocks[i], RemFbl(t, i);
    WithoutMembers(t.fbl[b.fbl], b.ptr);
    UsedSame(t.blocks, X, X + {b.ptr});
    forall c | c in t.blocks ensures OnItsFbl(c, t'.fbl, X + {b.ptr}) {
      assert OnItsFbl(c, t.fbl, X);
    }
  }

  lemma AddFblListed(t: Table, X: set<Ptr>, i: nat)
    requires Listed(t, X) && i < |t.blocks| && !t.blocks[i].status.Used? && t.blocks[i].ptr in X
    ensures Listed(AddFbl(t, i), X - {t.blocks[i].ptr})
  {
    Unfold(t, X);
    var b, t' := t.blocks[i], AddFbl(t, i);
    UsedSame(t.blocks, X, X - {b.ptr});
    assert OnItsFbl(b, t.fbl, X);
    forall c | c in t.blocks ensures OnItsFbl(c, t'.fbl, X - {b.ptr}) {
      assert OnItsFbl(c, t.fbl, X);
    }
  }

  /** The used blocks on both sides of block i. */
  lemma UsedAround(bs: seq<Blk>, i: nat, a: seq<Ptr>, c: seq<Ptr>)
    requires i < |bs| && bs[i].status.Used? && Distinct(bs)
    requires a == UsedPtrs(bs[..i], {}) && c == UsedPtrs(bs[i + 1..], {})
    ensures UsedPtrs(bs, {}) == a + [bs[i].ptr] + c && UsedPtrs(bs, {bs[i].ptr}) == a + c
    ensures bs[i].ptr !in a
  {
    var front, back := bs[..i], bs[i + 1..];
    DistinctSides(bs, i, front, back);
    UsedSides(front, bs[i], back);
    UsedMember(front, {}, bs[i].ptr);
  }

  lemma DistinctSides(bs: seq<Blk>, i: nat, front: seq<Blk>, back: seq<Blk>)
    requires i < |bs| && Distinct(bs) && front == bs[..i] && back == bs[i + 1..]
    ensures bs == front + [bs[i]] + back
    ensures forall c :: c in front || c in back ==> c.ptr != bs[i].ptr
  {
    forall k | 0 <= k < |back| ensures back[k].ptr != bs[i].ptr {
      assert back[k] == bs[i + 1 + k];
    }
  }

  lemma UsedSides(front: seq<Blk>, b: Blk, back: seq<Blk>)
    requires b.status.Used?
    requires forall c :: c in front || c in back ==> c.ptr != b.ptr
    ensures UsedPtrs(front + [b] + back, {}) == UsedPtrs(front, {}) + [b.ptr] + UsedPtrs(back, {})
    ensures UsedPtrs(front + [b] + back, {b.ptr}) == UsedPtrs(front, {}) + UsedPtrs(back, {})
  {
    UsedMiddle(front, b, back, {});
    UsedMiddle(front, b, back, {b.ptr});
    UsedSame(front, {}, {b.ptr});
    UsedSame(back, {}, {b.ptr});
  }

  lemma AddUblListed(t: Table, i: nat)
    requires i < |t.blocks| && t.blocks[i].status.Used? && Listed(t, {t.blocks[i].ptr})
    ensures Listed(AddUbl(t, i), {})
  {
    Unfold(t, {t.blocks[i].ptr});
    UsedAround(t.blocks, i, UsedPtrs(t.blocks[..i], {}), UsedPtrs(t.blocks[i + 1..], {}));
  }

  lemma RemUblListed(t: Table, i: nat)
    requires i < |t.blocks| && t.blocks[i].status.Used? && Listed(t, {})
    ensures Listed(RemUbl(t, i), {t.blocks[i].ptr})
    ensures t.blocks[i].ptr in t.ubl
  {
    Unfold(t, {});
    var p, a, c := t.blocks[i].ptr, UsedPtrs(t.blocks[..i], {}), UsedPtrs(t.blocks[i + 1..], {});
    UsedAround(t.blocks, i, a, c);
    WithoutMiddle(a, p, c);
    assert (a + [p] + c)[|a|] == p;
  }

  /** Fields may change when the block is on no list, or keeps its status and list. */
  lemma SetBlkListed(t: Table, X: set<Ptr>, i: nat, size: nat, status: Status, fbl: int)
    requires Listed(t, X) && i < |t.blocks| && 0 <= fbl < CLASSES
    requires t.blocks[i].ptr in X
             || (t.blocks[i].status.Used? && status.Used?)
             || (!t.blocks[i].status.Used? && !status.Used? && t.blocks[i].fbl == fbl)
    ensures Listed(SetBlk(t, i, size, status, fbl), X)
  {
    Unfold(t, X);
    var t' := SetBlk(t, i, size, status, fbl);
    SetUsedPtrs(t.blocks, i, t'.blocks[i], X);
    forall b | b in t.blocks ensures Has(t'.blocks, b.ptr) {
      var j :| 0 <= j < |t.blocks| && t.blocks[j] == b;
      assert t'.blocks[j] in t'.blocks && t'.blocks[j].ptr == b.ptr;
    }
    HasKept(t.blocks, t'.blocks, t.fbl, X);
    assert OnItsFbl(t.blocks[i], t.fbl, X);
  }

  lemma SetUsedPtrs(bs: seq<Blk>, i: nat, b: Blk, X: set<Ptr>)
    requires i < |bs| && UsedOne(b, X) == UsedOne(bs[i], X)
    ensures UsedPtrs(bs[i := b], X) == UsedPtrs(bs, X)
  {
    var front, back := bs[..i], bs[i + 1..];
    UsedMiddle(front, bs[i], back, X);
    UsedMiddle(front, b, back, X);
    assert bs == front + [bs[i]] + back && bs[i := b] == front + [b] + back;
  }

  /** Has survives when every block on a free list is kept. */
  lemma HasKept(bs: seq<Blk>, cs: seq<Blk>, fbl: seq<seq<Ptr>>, X: set<Ptr>)
    requires |fbl| == CLASSES && FreeListed(bs, fbl, X)
    requires forall b :: b in bs && b.ptr !in X ==> Has(cs, b.ptr)
    ensures forall k, p :: 0 <= k < CLASSES && p in fbl[k] ==> Has(cs, p)
  {
    forall k, p | 0 <= k < CLASSES && p in fbl[k] ensures Has(cs, p) {
      assert Has(bs, p);
      var b :| b in bs && b.ptr == p;
      assert OnItsFbl(b, fbl, X);
    }
  }

  lemma InsertBlkListed(t: Table, X: set<Ptr>, i: nat, b: Blk)
    requires Listed(t, X) && i <= |t.blocks|
    requires b.ptr != NULL && !Has(t.blocks, b.ptr) && 0 <= b.fbl < CLASSES
    ensures Listed(InsertBlk(t, i, b), X + {b.ptr})
  {
    Unfold(t, X);
    var front, back := t.blocks[..i], t.blocks[i..];
    assert t.blocks == front + back;
    InsertUsedPtrs(front, b, back, X);
    InsertDistinct(front, b, back);
    InsertFreeListed(front, b, back, t.fbl, X);
  }

  lemma InsertDistinct(front: seq<Blk>, b: Blk, back: seq<Blk>)
    requires Distinct(front + back) && !Has(front + back, b.ptr) && b.ptr != NULL && 0 <= b.fbl < CLASSES
    ensures Distinct(front + [b] + back)
  {
    var bs, cs := front + back, front + [b] + back;
    forall i, j | 0 <= i < j < |cs| ensures cs[i].ptr != cs[j].ptr {
      var i', j' := if i < |front| then i else i - 1, if j < |front| then j else j - 1;
      if i == |front| {
        assert cs[j] == bs[j'] && bs[j'] in bs;
      } else if j == |front| {
        assert cs[i] == bs[i'] && bs[i'] in bs;
      } else {
        assert cs[i] == bs[i'] && cs[j] == bs[j'];
      }
    }
  }

  lemma InsertFreeListed(front: seq<Blk>, b: Blk, back: seq<Blk>, fbl: seq<seq<Ptr>>, X: set<Ptr>)
    requires |fbl| == CLASSES && FreeListed(front + back, fbl, X) && !Has(front + back, b.ptr)
    ensures FreeListed(front + [b] + back, fbl, X + {b.ptr})
  {
    var bs, cs := front + back, front + [b] + back;
    HasKept(bs, cs, fbl, X);
    assert forall k :: 0 <= k < CLASSES && b.ptr in fbl[k] ==> Has(bs, b.ptr);
    forall c | c in cs ensures OnItsFbl(c, fbl, X + {b.ptr}) {
      if c in bs { assert OnItsFbl(c, fbl, X); assert c.ptr != b.ptr; }
    }
  }

  lemma InsertUsedPtrs(front: seq<Blk>, b: Blk, back: seq<Blk>, X: set<Ptr>)
    requires !Has(front + back, b.ptr)
    ensures UsedPtrs(front + [b] + back, X + {b.ptr}) == UsedPtrs(front + back, X)
  {
    UsedMiddle(front, b, back, X + {b.ptr});
    UsedConcat(front, back, X);
    assert forall c :: c in front || c in back ==> c in front + back;
    UsedSame(front, X, X + {b.ptr});
    UsedSame(back, X, X + {b.ptr});
  }

  lemma CutBlksListed(t: Table, X: set<Ptr>, i: nat, j: nat)
    requires Listed(t, X) && i < j <= |t.blocks|
    requires forall k :: i < k < j ==> t.blocks[k].ptr in X
    ensures Listed(CutBlks(t, i, j), X)
  {
    Unfold(t, X);
    var front, cut, back := t.blocks[..i + 1], t.blocks[i + 1..j], t.blocks[j..];
    assert t.blocks == front + cut + back;
    assert forall c :: c in cut ==> c.ptr in X;
    CutUsedPtrs(front, cut, back, X);
    CutDistinct(front, cut, back);
    HasKept(t.blocks, front + back, t.fbl, X);
  }

  lemma CutDistinct(front: seq<Blk>, cut: seq<Blk>, back: seq<Blk>)
    requires Distinct(front + cut + back)
    ensures Distinct(front + back)
  {
    var bs, cs := front + cut + back, front + back;
    assert forall l :: 0 <= l < |cs| ==> cs[l] == bs[if l < |front| then l else l + |cut|];
  }

  lemma CutUsedPtrs(front: seq<Blk>, cut: seq<Blk>, back: seq<Blk>, X: set<Ptr>)
    requires forall c :: c in cut ==> c.ptr in X
    ensures UsedPtrs(front + back, X) == UsedPtrs(front + cut + back, X)
  {
    UsedConcat(front + cut, back, X);
    UsedConcat(front, cut, X);
    UsedConcat(front, back, X);
    UsedNone(cut, X);
  }
}
