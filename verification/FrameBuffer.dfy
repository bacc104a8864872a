/**
 The page buffer as the kernel keeps it: two stacks of free frames, a table with the usage
 counter and owner of every frame, and the share table, whose entries are linked into a free
 list and into one owner list for every frame that is used more than once.  The link of the
 last entry of an owner list is whatever was left there; only the usage counter ends the list.
 */
module FrameBuffer {
  import opened BlockLists
  import opened Frames

  // ---------------------------------------------------------------- zone stacks

  /** A stack of free frames that grows downwards in a table. */
  class FrameStack {
    const table: array<nat>
    var ptr: nat
    var count: nat

    ghost predicate Valid()
      reads this
    {
      ptr + count == table.Length
    }

    ghost function Contents(): seq<nat>
      reads this, table
    {
      if ptr <= table.Length then table[ptr..] else []
    }

    constructor (capacity: nat, frames: seq<nat>)
      requires |frames| <= capacity
      ensures Valid() && fresh(table) && Contents() == frames && table.Length == capacity
    {
      var free := capacity - |frames|;
      table := new nat[capacity](i requires 0 <= i < capacity => if i < free then 0 else frames[i - free]);
      ptr, count := free, |frames|;
    }

    method Pop() returns (f: nat)
      requires Valid() && count > 0
      modifies this
      ensures Valid() && old(Contents()) == [f] + Contents() && count == old(count) - 1
    {
      f := table[ptr];
      ptr := ptr + 1;
      count := count - 1;
    }

    method Push(f: nat)
      requires Valid() && ptr > 0
      modifies this, table
      ensures Valid() && Contents() == [f] + old(Contents()) && count == old(count) + 1
    {
      count := count + 1;
      ptr := ptr - 1;
      table[ptr] := f;
    }
  }

  // ---------------------------------------------------------------- the share table

  datatype Node = Node(user: User, nxt: Ptr)

  type Pst = map<Ptr, Node>

  ghost predicate LinkAt(pst: Pst, s: seq<Ptr>, i: int)
    requires 0 <= i < |s| - 1
  {
    s[i] in pst && pst[s[i]].nxt == s[i + 1]
  }

  ghost predicate Chain(pst: Pst, s: seq<Ptr>) {
    && (forall i {:trigger LinkAt(pst, s, i)} :: 0 <= i < |s| - 1 ==> LinkAt(pst, s, i))
    && (forall p :: p in s ==> p in pst)
    && NoDup(s)
  }

  /** s is the list of free entries that begins at head. */
  ghost predicate FreeList(pst: Pst, head: Ptr, s: seq<Ptr>) {
    Chain(pst, s) && head == At(s, 0) && (s != [] ==> pst[s[|s| - 1]].nxt == NULL)
  }

  ghost predicate UserAt(pst: Pst, s: seq<Ptr>, us: seq<User>, i: int)
    requires 0 <= i < |s| == |us|
  {
    s[i] in pst && pst[s[i]].user == us[i]
  }

  /** s holds the owners us, two or more; the last link leads to some entry. */
  ghost predicate OwnerList(pst: Pst, s: seq<Ptr>, us: seq<User>) {
    && |s| == |us| >= 2 && Chain(pst, s) && pst[s[|s| - 1]].nxt in pst
    && forall i {:trigger UserAt(pst, s, us, i)} :: 0 <= i < |s| ==> UserAt(pst, s, us, i)
  }

  /** Every entry is on exactly one list. */
  ghost predicate Partition(pst: Pst, free: seq<Ptr>, lists: map<nat, seq<Ptr>>) {
    && (forall f, p :: f in lists && p in lists[f] ==> p !in free)
    && (forall f, g, p :: f in lists && g in lists && f != g && p in lists[f] ==> p !in lists[g])
    && (forall p :: p in pst ==> p in free || exists f :: f in lists && p in lists[f])
  }

  lemma ChainKept(pst: Pst, pst': Pst, s: seq<Ptr>)
    requires Chain(pst, s) && forall p :: p in s ==> p in pst' && pst'[p].nxt == pst[p].nxt
    ensures Chain(pst', s)
  {
    forall i | 0 <= i < |s| - 1 ensures LinkAt(pst', s, i) {
      assert LinkAt(pst, s, i) && s[i] in s;
    }
  }

  lemma OwnerListKept(pst: Pst, pst': Pst, s: seq<Ptr>, us: seq<User>)
    requires OwnerList(pst, s, us) && pst.Keys == pst'.Keys && forall p :: p in s ==> pst'[p] == pst[p]
    ensures OwnerList(pst', s, us)
  {
    ChainKept(pst, pst', s);
    forall i | 0 <= i < |s| ensures UserAt(pst', s, us, i) {
      assert UserAt(pst, s, us, i) && s[i] in s;
    }
    assert s[|s| - 1] in s;
  }

  /** The first free entry taken off. */
  lemma PopFree(pst: Pst, head: Ptr, s: seq<Ptr>)
    requires FreeList(pst, head, s) && s != [] && NULL !in pst
    ensures head in pst && FreeList(pst, pst[head].nxt, s[1..]) && head !in s[1..]
    ensures forall p :: p in s <==> p == head || p in s[1..]
    ensures |s| > 1 <==> pst[head].nxt != NULL
  {
    var t := s[1..];
    assert s == [s[0]] + t && s[0] in s;
    forall i | 0 <= i < |t| - 1 ensures LinkAt(pst, t, i) {
      assert LinkAt(pst, s, i + 1) && t[i] == s[i + 1] && t[i + 1] == s[i + 2];
    }
    if t != [] { assert LinkAt(pst, s, 0) && s[1] in s; }
  }

  lemma FreeListKept(pst: Pst, pst': Pst, head: Ptr, s: seq<Ptr>)
    requires FreeList(pst, head, s) && forall p :: p in s ==> p in pst' && pst'[p].nxt == pst[p].nxt
    ensures FreeList(pst', head, s)
  {
    ChainKept(pst, pst', s);
    if s != [] { assert s[|s| - 1] in s; }
  }

  /** An entry goes behind the first free one. */
  lemma InsertFree(pst: Pst, pst': Pst, head: Ptr, s: seq<Ptr>, p: Ptr)
    requires FreeList(pst, head, s) && s != [] && p in pst && p !in s
    requires pst' == pst[p := pst[p].(nxt := pst[head].nxt)][head := pst[head].(nxt := p)]
    ensures FreeList(pst', head, [head, p] + s[1..])
    ensures forall q :: q in [head, p] + s[1..] <==> q in s || q == p
  {
    var t := [head, p] + s[1..];
    assert s == [head] + s[1..] && head in s;
    forall i | 0 <= i < |t| - 1 ensures LinkAt(pst', t, i) {
      if i == 1 { assert t[2] == s[1] && LinkAt(pst, s, 0); }
      if i > 1 { assert LinkAt(pst, s, i - 1) && t[i] == s[i - 1] && t[i + 1] == s[i] && s[i - 1] in s; }
    }
    assert |s| > 1 ==> t[|t| - 1] == s[|s| - 1] && s[|s| - 1] in s;
    forall i, j | 0 <= i < j < |t| ensures t[i] != t[j] {
      assert i != 1 ==> t[i] == s[if i == 0 then 0 else i - 1] && t[i] in s;
      assert j != 1 ==> t[j] == s[j - 1] && t[j] in s;
    }
  }

  /** A new entry in front of an owner list. */
  lemma PrependOwner(pst: Pst, pst': Pst, s: seq<Ptr>, us: seq<User>, p: Ptr, u: User)
    requires OwnerList(pst, s, us) && p in pst && p !in s && pst' == pst[p := Node(u, s[0])]
    ensures OwnerList(pst', [p] + s, [u] + us)
  {
    var t, vs := [p] + s, [u] + us;
    forall i | 0 <= i < |t| - 1 ensures LinkAt(pst', t, i) {
      if i > 0 { assert LinkAt(pst, s, i - 1) && s[i - 1] in s; }
    }
    forall i | 0 <= i < |t| ensures UserAt(pst', t, vs, i) {
      if i > 0 { assert UserAt(pst, s, us, i - 1) && s[i - 1] in s; }
    }
    assert s[|s| - 1] in s;
  }

  /** s without its entry j. */
  function Cut<T>(s: seq<T>, j: nat): seq<T>
    requires j < |s|
  {
    s[..j] + s[j + 1..]
  }

  /** Entry j unlinked from an owner list of three or more. */
  lemma UnlinkOwner(pst: Pst, pst': Pst, s: seq<Ptr>, us: seq<User>, j: nat)
    requires OwnerList(pst, s, us) && j < |s| && |s| >= 3
    requires pst' == if j > 0 then pst[s[j - 1] := pst[s[j - 1]].(nxt := pst[s[j]].nxt)] else pst
    ensures OwnerList(pst', Cut(s, j), Cut(us, j))
  {
    var t, vs := Cut(s, j), Cut(us, j);
    assert forall i :: 0 <= i < |s| ==> s[i] in s;
    forall i | 0 <= i < |t| - 1 ensures LinkAt(pst', t, i) {
      if i < j - 1 { assert LinkAt(pst, s, i); }
      if i == j - 1 { assert LinkAt(pst, s, j); }
      if i >= j { assert LinkAt(pst, s, i + 1); }
    }
    forall i | 0 <= i < |t| ensures UserAt(pst', t, vs, i) {
      assert UserAt(pst, s, us, if i < j then i else i + 1);
    }
    forall a, b | 0 <= a < b < |t| ensures t[a] != t[b] {
      assert t[a] == s[if a < j then a else a + 1] && t[b] == s[if b < j then b else b + 1];
    }
  }

  lemma CutMembers(s: seq<Ptr>, j: nat)
    requires j < |s| && NoDup(s)
    ensures s[j] !in Cut(s, j) && forall p :: p in s <==> p == s[j] || p in Cut(s, j)
  {
    assert s == s[..j] + [s[j]] + s[j + 1..];
  }

  /** Dropping the first occurrence of u cuts it out. */
  lemma {:induction false} DropCuts(us: seq<User>, u: User, j: nat)
    requires j < |us| && us[j] == u && forall i :: 0 <= i < j ==> us[i] != u
    ensures Drop(us, u) == Cut(us, j)
  {
    if j > 0 {
      DropCuts(us[1..], u, j - 1);
      assert [us[0]] + Cut(us[1..], j - 1) == Cut(us, j);
    }
  }

  // ---------------------------------------------------------------- the page buffer table

  datatype Owner = Single(user: User) | Multi(head: Ptr)

  datatype Pbt = Pbt(usage: nat, owner: Owner)

  /** The table entry of frame f: a single owner, or a list of as many owners as usage says. */
  ghost predicate PbtAt(pbt: map<nat, Pbt>, pst: Pst, lists: map<nat, seq<Ptr>>, own: map<nat, seq<User>>, f: nat) {
    if f !in own || own[f] == [] then f !in lists && (f in pbt ==> pbt[f].usage == 0)
    else if |own[f]| == 1 then f !in lists && f in pbt && pbt[f] == Pbt(1, Single(own[f][0]))
    else f in lists && f in pbt && OwnerList(pst, lists[f], own[f]) && pbt[f] == Pbt(|own[f]|, Multi(lists[f][0]))
  }

  ghost predicate Sharing(pbt: map<nat, Pbt>, pst: Pst, head: Ptr, free: seq<Ptr>, lists: map<nat, seq<Ptr>>, own: map<nat, seq<User>>) {
    && NULL !in pst && FreeList(pst, head, free) && Partition(pst, free, lists)
    && forall f {:trigger PbtAt(pbt, pst, lists, own, f)} :: PbtAt(pbt, pst, lists, own, f)
  }

  /** Sharing kept folded, as Listed is. */
  ghost predicate Shared(pbt: map<nat, Pbt>, pst: Pst, head: Ptr, free: seq<Ptr>, lists: map<nat, seq<Ptr>>, own: map<nat, seq<User>>) {
    forall k: Key {:trigger Turned(k)} :: Turned(k) ==> Sharing(pbt, pst, head, free, lists, own)
  }

  lemma Unshare(pbt: map<nat, Pbt>, pst: Pst, head: Ptr, free: seq<Ptr>, lists: map<nat, seq<Ptr>>, own: map<nat, seq<User>>)
    requires Shared(pbt, pst, head, free, lists, own)
    ensures Sharing(pbt, pst, head, free, lists, own)
  {
    assert Turned(Key);
  }

  /** Entries change only off the owner lists, and only frame g gets other values. */
  lemma OthersKept(pbt: map<nat, Pbt>, pbt': map<nat, Pbt>, pst: Pst, pst': Pst, lists: map<nat, seq<Ptr>>, lists': map<nat, seq<Ptr>>,
                   own: map<nat, seq<User>>, own': map<nat, seq<User>>, g: nat, f: nat)
    requires PbtAt(pbt, pst, lists, own, f) && f != g && pst'.Keys == pst.Keys
    requires f in lists ==> f in lists' && lists'[f] == lists[f] && forall p :: p in lists[f] ==> p in pst && pst'[p] == pst[p]
    requires f !in lists ==> f !in lists'
    requires f in own ==> f in own' && own'[f] == own[f]
    requires f !in own ==> f !in own'
    requires f in pbt ==> f in pbt' && pbt'[f] == pbt[f]
    requires f !in pbt ==> f !in pbt'
    ensures PbtAt(pbt', pst', lists', own', f)
  {
    if f in own && |own[f]| >= 2 { OwnerListKept(pst, pst', lists[f], own[f]); }
  }

  /** A frame that is not shared gets another single owner, or none. */
  lemma SetSingle(pbt: map<nat, Pbt>, pst: Pst, head: Ptr, free: seq<Ptr>, lists: map<nat, seq<Ptr>>, own: map<nat, seq<User>>,
                  g: nat, us: seq<User>, e: Pbt)
    requires Shared(pbt, pst, head, free, lists, own) && (g in own ==> |own[g]| <= 1) && |us| <= 1
    requires if us == [] then e.usage == 0 else e == Pbt(1, Single(us[0]))
    ensures Shared(pbt[g := e], pst, head, free, lists, if us == [] then own - {g} else own[g := us])
  {
    Unshare(pbt, pst, head, free, lists, own);
    var pbt', own' := pbt[g := e], if us == [] then own - {g} else own[g := us];
    forall f ensures PbtAt(pbt', pst, lists, own', f) {
      assert PbtAt(pbt, pst, lists, own, f);
      if f in own && |own[f]| >= 2 { ListMembers(pst, lists[f]); }
      if f != g { OthersKept(pbt, pbt', pst, pst, lists, lists, own, own', g, f); }
    }
  }

  /** Only frame g gets other values, and entries on the lists of the others stay as they are. */
  lemma AllOthers(pbt: map<nat, Pbt>, e: Pbt, pst: Pst, pst': Pst, lists: map<nat, seq<Ptr>>, lists': map<nat, seq<Ptr>>,
                  own: map<nat, seq<User>>, us: seq<User>, g: nat)
    requires forall f {:trigger PbtAt(pbt, pst, lists, own, f)} :: PbtAt(pbt, pst, lists, own, f)
    requires pst'.Keys == pst.Keys && (forall f :: f != g ==> (f in lists' <==> f in lists) && (f in lists ==> lists'[f] == lists[f]))
    requires forall f, p :: f in lists && f != g && p in lists[f] && p in pst ==> pst'[p] == pst[p]
    ensures forall f {:trigger PbtAt(pbt[g := e], pst', lists', own[g := us], f)} :: f != g ==> PbtAt(pbt[g := e], pst', lists', own[g := us], f)
  {
    var pbt', own' := pbt[g := e], own[g := us];
    forall f | f != g ensures PbtAt(pbt', pst', lists', own', f) {
      assert PbtAt(pbt, pst, lists, own, f);
      if f in lists { ListMembers(pst, lists[f]); }
      OthersKept(pbt, pbt', pst, pst', lists, lists', own, own', g, f);
    }
  }

  lemma ListMembers(pst: Pst, s: seq<Ptr>)
    requires Chain(pst, s)
    ensures forall p :: p in s ==> p in pst
  {
  }

  /** The first free entry goes in front of the owner list of a shared frame. */
  lemma AddToList(pbt: map<nat, Pbt>, pst: Pst, head: Ptr, free: seq<Ptr>, lists: map<nat, seq<Ptr>>, own: map<nat, seq<User>>, g: nat, u: User)
    requires Shared(pbt, pst, head, free, lists, own) && g in own && |own[g]| >= 2 && free != []
    ensures head in pst && g in lists && g in pbt && lists[g] != []
    ensures Shared(pbt[g := Pbt(|own[g]| + 1, Multi(head))], pst[head := Node(u, lists[g][0])], pst[head].nxt, free[1..],
                   lists[g := [head] + lists[g]], own[g := [u] + own[g]])
  {
    Unshare(pbt, pst, head, free, lists, own);
    assert PbtAt(pbt, pst, lists, own, g);
    PopFree(pst, head, free);
    var pst', lists', own' := pst[head := Node(u, lists[g][0])], lists[g := [head] + lists[g]], own[g := [u] + own[g]];
    FreeListKept(pst, pst', pst[head].nxt, free[1..]);
    PrependOwner(pst, pst', lists[g], own[g], head, u);
    var pbt' := pbt[g := Pbt(|own[g]| + 1, Multi(head))];
    AllOthers(pbt, pbt'[g], pst, pst', lists, lists', own, own'[g], g);
    forall p | p in pst' ensures p in free[1..] || exists f :: f in lists' && p in lists'[f] {
      if p == head {
        assert p in lists'[g];
      } else if p !in free {
        var f :| f in lists && p in lists[f];
        assert p in lists'[f];
      }
    }
  }

  /** The first two free entries become the owner list of a frame that had one owner. */
  lemma MakeList(pbt: map<nat, Pbt>, pst: Pst, head: Ptr, free: seq<Ptr>, lists: map<nat, seq<Ptr>>, own: map<nat, seq<User>>, g: nat, u: User, snd: Ptr)
    requires Shared(pbt, pst, head, free, lists, own) && g in own && |own[g]| == 1 && |free| >= 2 && head in pst && snd == pst[head].nxt
    ensures snd in pst && snd != head
    ensures Shared(pbt[g := Pbt(2, Multi(head))], pst[snd := Node(own[g][0], head)][head := Node(u, snd)], pst[snd].nxt, free[2..],
                   lists[g := [head, snd]], own[g := [u] + own[g]])
  {
    Unshare(pbt, pst, head, free, lists, own);
    assert PbtAt(pbt, pst, lists, own, g);
    PopFree(pst, head, free);
    PopFree(pst, snd, free[1..]);
    assert free[1..][1..] == free[2..];
    var pst', lists', own' := pst[snd := Node(own[g][0], head)][head := Node(u, snd)], lists[g := [head, snd]], own[g := [u] + own[g]];
    FreeListKept(pst, pst', pst[snd].nxt, free[2..]);
    var pbt' := pbt[g := Pbt(2, Multi(head))];
    AllOthers(pbt, pbt'[g], pst, pst', lists, lists', own, own'[g], g);
    assert LinkAt(pst', [head, snd], 0) && UserAt(pst', [head, snd], own'[g], 0) && UserAt(pst', [head, snd], own'[g], 1);
    forall p | p in pst' ensures p in free[2..] || exists f :: f in lists' && p in lists'[f] {
      if p == head || p == snd {
        assert p in lists'[g];
      } else if p !in free {
        var f :| f in lists && p in lists[f];
        assert p in lists'[f];
      }
    }
  }

  /** The owner list of g without entry j. */
  function Shorter(pst: Pst, s: seq<Ptr>, j: nat): Pst
    requires j < |s| && forall p :: p in s ==> p in pst
  {
    if j > 0 then pst[s[j - 1] := pst[s[j - 1]].(nxt := pst[s[j]].nxt)] else pst
  }

  /** p behind the first free entry. */
  function Freed(pst: Pst, head: Ptr, p: Ptr): Pst
    requires head in pst && p in pst
  {
    pst[p := pst[p].(nxt := pst[head].nxt)][head := pst[head].(nxt := p)]
  }

  /** The free list t after p has been freed. */
  lemma FreedEntry(pst: Pst, head: Ptr, free: seq<Ptr>, p: Ptr, t: seq<Ptr>)
    requires FreeList(pst, head, free) && free != [] && p in pst && p !in free && t == [head, p] + free[1..]
    ensures head in pst && head in free && FreeList(Freed(pst, head, p), head, t)
    ensures forall q :: q in t <==> q in free || q == p
    ensures forall q :: q in pst && q != p && q != head ==> Freed(pst, head, p)[q] == pst[q]
  {
    assert head in free;
    InsertFree(pst, Freed(pst, head, p), head, free, p);
  }

  /** The share table after entry j of list s has been unlinked and freed. */
  lemma Unlinked(pst: Pst, head: Ptr, free: seq<Ptr>, s: seq<Ptr>, us: seq<User>, j: nat)
    requires FreeList(pst, head, free) && free != [] && OwnerList(pst, s, us) && j < |s|
    requires forall p :: p in s ==> p !in free
    ensures head in pst && s[j] in pst
    ensures FreeList(Freed(Shorter(pst, s, j), head, s[j]), head, [head, s[j]] + free[1..])
    ensures forall q :: q in [head, s[j]] + free[1..] <==> q in free || q == s[j]
    ensures |s| >= 3 ==> OwnerList(Freed(Shorter(pst, s, j), head, s[j]), Cut(s, j), Cut(us, j))
    ensures |s| == 2 ==> Freed(Shorter(pst, s, j), head, s[j])[s[1 - j]].user == us[1 - j]
    ensures forall q :: q in pst && q !in s && q !in free ==> Freed(Shorter(pst, s, j), head, s[j])[q] == pst[q]
  {
    var pst1 := Shorter(pst, s, j);
    assert forall i :: 0 <= i < |s| ==> s[i] in s;
    FreeListKept(pst, pst1, head, free);
    FreedEntry(pst1, head, free, s[j], [head, s[j]] + free[1..]);
    CutMembers(s, j);
    if |s| >= 3 {
      UnlinkOwner(pst, pst1, s, us, j);
      OwnerListKept(pst1, Freed(pst1, head, s[j]), Cut(s, j), Cut(us, j));
    } else {
      assert UserAt(pst, s, us, 1 - j);
    }
  }

  lemma UnlinkedPair(pst: Pst, head: Ptr, free: seq<Ptr>, s: seq<Ptr>, us: seq<User>, j: nat)
    requires FreeList(pst, head, free) && free != [] && OwnerList(pst, s, us) && j < |s| == 2
    requires forall p :: p in s ==> p !in free
    ensures head in pst && s[j] in pst && (forall p :: p in s ==> p in pst)
    ensures var pst1 := Freed(Shorter(pst, s, j), head, s[j]);
            && s[1 - j] in pst1 && pst1[s[1 - j]].user == us[1 - j] && Freed(pst1, head, s[1 - j]).Keys == pst.Keys
            && FreeList(Freed(pst1, head, s[1 - j]), head, [head, s[1 - j], s[j]] + free[1..])
            && (forall q :: q in [head, s[1 - j], s[j]] + free[1..] <==> q in free || q in s)
            && (forall q :: q in pst && q !in s && q !in free ==> Freed(pst1, head, s[1 - j])[q] == pst[q])
  {
    Unlinked(pst, head, free, s, us, j);
    var pst1, free1 := Freed(Shorter(pst, s, j), head, s[j]), [head, s[j]] + free[1..];
    PairMembers(s, j);
    TwoFreed(head, s[j], s[1 - j], free[1..]);
    FreedEntry(pst1, head, free1, s[1 - j], [head, s[1 - j], s[j]] + free[1..]);
  }

  lemma TwoFreed(a: Ptr, b: Ptr, c: Ptr, t: seq<Ptr>)
    ensures [a, c, b] + t == [a, c] + ([a, b] + t)[1..]
  {
  }

  lemma PairMembers(s: seq<Ptr>, j: nat)
    requires |s| == 2 && j < 2
    ensures forall p :: p in s <==> p == s[j] || p == s[1 - j]
  {
    assert s[0] in s && s[1] in s;
  }

  /** Owner j of three or more removed. */
  lemma RemoveFromList(pbt: map<nat, Pbt>, pst: Pst, head: Ptr, free: seq<Ptr>, lists: map<nat, seq<Ptr>>, own: map<nat, seq<User>>,
                       g: nat, s: seq<Ptr>, j: nat)
    requires Shared(pbt, pst, head, free, lists, own) && g in own && j < |own[g]| && |own[g]| >= 3 && free != []
    requires g in lists && s == lists[g]
    ensures |s| == |own[g]| && (forall p :: p in s ==> p in pst) && head in pst && s[j] in Shorter(pst, s, j)
    ensures Shared(pbt[g := Pbt(|own[g]| - 1, Multi(Cut(s, j)[0]))], Freed(Shorter(pst, s, j), head, s[j]), head,
                   [head, s[j]] + free[1..], lists[g := Cut(s, j)], own[g := Cut(own[g], j)])
  {
    Unshare(pbt, pst, head, free, lists, own);
    assert PbtAt(pbt, pst, lists, own, g);
    Unlinked(pst, head, free, s, own[g], j);
    Shortened(pbt, pst, Freed(Shorter(pst, s, j), head, s[j]), head, free, [head, s[j]] + free[1..], lists, own, g, j);
  }

  /** Frame g with a shorter owner list, and the entry it has lost among the free ones. */
  lemma Shortened(pbt: map<nat, Pbt>, pst: Pst, pst': Pst, head: Ptr, free: seq<Ptr>, free': seq<Ptr>, lists: map<nat, seq<Ptr>>,
                  own: map<nat, seq<User>>, g: nat, j: nat)
    requires Sharing(pbt, pst, head, free, lists, own) && g in own && g in lists && j < |lists[g]| == |own[g]| && |own[g]| >= 3
    requires pst'.Keys == pst.Keys && FreeList(pst', head, free') && OwnerList(pst', Cut(lists[g], j), Cut(own[g], j)) && NoDup(lists[g])
    requires forall q :: q in free' <==> q in free || q == lists[g][j]
    requires forall q :: q in pst && q !in lists[g] && q !in free ==> pst'[q] == pst[q]
    ensures Shared(pbt[g := Pbt(|own[g]| - 1, Multi(Cut(lists[g], j)[0]))], pst', head, free', lists[g := Cut(lists[g], j)], own[g := Cut(own[g], j)])
  {
    var e, lists' := Pbt(|own[g]| - 1, Multi(Cut(lists[g], j)[0])), lists[g := Cut(lists[g], j)];
    AllOthers(pbt, e, pst, pst', lists, lists', own, Cut(own[g], j), g);
    PartitionCut(pst, free, lists, free', lists', g, j);
    PartitionMoved(pst, pst', free', lists');
  }

  lemma PartitionMoved(pst: Pst, pst': Pst, free: seq<Ptr>, lists: map<nat, seq<Ptr>>)
    requires Partition(pst, free, lists) && pst'.Keys == pst.Keys
    ensures Partition(pst', free, lists)
  {
  }

  lemma PartitionCut(pst: Pst, free: seq<Ptr>, lists: map<nat, seq<Ptr>>, free': seq<Ptr>, lists': map<nat, seq<Ptr>>, g: nat, j: nat)
    requires Partition(pst, free, lists) && g in lists && j < |lists[g]| && NoDup(lists[g]) && lists' == lists[g := Cut(lists[g], j)]
    requires forall q :: q in free' <==> q in free || q == lists[g][j]
    ensures Partition(pst, free', lists')
  {
    CutMembers(lists[g], j);
    forall p | p in pst ensures p in free' || exists f :: f in lists' && p in lists'[f] {
      if p !in free' {
        var f :| f in lists && p in lists[f];
        assert p in lists'[f];
      }
    }
  }

  /** Owner j of two removed: the other one becomes the single owner, and its entry is freed too. */
  lemma RemoveFromPair(pbt: map<nat, Pbt>, pst: Pst, head: Ptr, free: seq<Ptr>, lists: map<nat, seq<Ptr>>, own: map<nat, seq<User>>,
                       g: nat, s: seq<Ptr>, j: nat)
    requires Shared(pbt, pst, head, free, lists, own) && g in own && |own[g]| == 2 && j < 2 && free != []
    requires g in lists && s == lists[g]
    ensures |s| == 2 && (forall p :: p in s ==> p in pst) && head in pst && s[j] in Shorter(pst, s, j)
    ensures var pst1 := Freed(Shorter(pst, s, j), head, s[j]);
            && s[1 - j] in pst1 && pst1[s[1 - j]].user == own[g][1 - j]
            && Shared(pbt[g := Pbt(1, Single(own[g][1 - j]))], Freed(pst1, head, s[1 - j]), head,
                      [head, s[1 - j], s[j]] + free[1..], lists - {g}, own[g := [own[g][1 - j]]])
  {
    Unshare(pbt, pst, head, free, lists, own);
    assert PbtAt(pbt, pst, lists, own, g);
    UnlinkedPair(pst, head, free, s, own[g], j);
    var pst1 := Freed(Shorter(pst, s, j), head, s[j]);
    var pbt', pst', free' := pbt[g := Pbt(1, Single(own[g][1 - j]))], Freed(pst1, head, s[1 - j]), [head, s[1 - j], s[j]] + free[1..];
    var lists', own' := lists - {g}, own[g := [own[g][1 - j]]];
    AllOthers(pbt, pbt'[g], pst, pst', lists, lists', own, own'[g], g);
    forall p | p in pst' ensures p in free' || exists f :: f in lists' && p in lists'[f] {
      if p !in free' {
        var f :| f in lists && p in lists[f];
        assert p in lists'[f];
      }
    }
  }

  // ---------------------------------------------------------------- a usage counter taken down twice

  /** From one head the links lead through the same entries. */
  lemma {:induction false} SameWalk(pst: Pst, s: seq<Ptr>, t: seq<Ptr>, i: nat)
    requires Chain(pst, s) && Chain(pst, t) && s != [] && t != [] && s[0] == t[0] && i < |s| && i < |t|
    ensures s[i] == t[i]
  {
    if i > 0 {
      SameWalk(pst, s, t, i - 1);
      assert LinkAt(pst, s, i - 1) && LinkAt(pst, t, i - 1);
    }
  }

  lemma SameList(pst: Pst, s: seq<Ptr>, t: seq<Ptr>)
    requires Chain(pst, s) && Chain(pst, t) && s != [] && t != [] && s[0] == t[0] && |t| <= |s|
    ensures t == s[..|t|]
  {
    forall i | 0 <= i < |t| ensures t[i] == s[i] { SameWalk(pst, s, t, i); }
  }

  /** The free entries are told by the head of their list. */
  lemma SameFree(pst: Pst, head: Ptr, s: seq<Ptr>, t: seq<Ptr>)
    requires FreeList(pst, head, s) && FreeList(pst, head, t) && NULL !in pst
    ensures s == t
  {
    if s != [] { assert s[0] in s; }
    if t != [] { assert t[0] in t; }
    if s != [] && t != [] {
      if |s| < |t| { FreeNotLonger(pst, head, s, t); } else if |t| < |s| { FreeNotLonger(pst, head, t, s); }
      SameList(pst, s, t);
    }
  }

  lemma FreeNotLonger(pst: Pst, head: Ptr, s: seq<Ptr>, t: seq<Ptr>)
    requires FreeList(pst, head, s) && FreeList(pst, head, t) && NULL !in pst && s != []
    ensures |t| <= |s|
  {
    if |t| > |s| {
      SameWalk(pst, s, t, |s| - 1);
      NextIn(pst, t, |s| - 1);
    }
  }

  lemma NextIn(pst: Pst, s: seq<Ptr>, i: nat)
    requires Chain(pst, s) && i + 1 < |s|
    ensures s[i] in pst && pst[s[i]].nxt in pst
  {
    assert LinkAt(pst, s, i) && s[i + 1] in s;
  }

  /** The list of frame g under another reading of the same tables. */
  lemma OtherReading(pbt: map<nat, Pbt>, pbt': map<nat, Pbt>, pst: Pst, lists: map<nat, seq<Ptr>>, lists': map<nat, seq<Ptr>>,
                     own: map<nat, seq<User>>, own': map<nat, seq<User>>, f: nat, g: nat, p: Ptr)
    requires PbtAt(pbt, pst, lists, own, f) && PbtAt(pbt, pst, lists, own, g) && PbtAt(pbt', pst, lists', own', g)
    requires f in own && |own[f]| >= 2 && f in lists && f in pbt && pbt' == pbt[f := pbt[f].(usage := pbt[f].usage - 1)]
    requires g in lists' && p in lists'[g]
    ensures g in lists && p in lists[g] && (g == f ==> p != lists[f][|lists[f]| - 1])
  {
    var s, t := if g in lists then lists[g] else [], lists'[g];
    SameList(pst, s, t);
    assert t == s[..|t|];
    assert forall i :: 0 <= i < |t| ==> s[i] in s;
  }

  /**
   kmem_do_copy_on_write takes one from the usage counter of a shared frame before it calls
   kmem_free_user_pageframe.  Whatever owners the frame is said to have then, no way of reading
   counters and links gives every share-table entry to one list: the last entry of the list of
   the frame is on none.
   */
  lemma CopyMiscounts(pbt: map<nat, Pbt>, pst: Pst, head: Ptr, free: seq<Ptr>, lists: map<nat, seq<Ptr>>, own: map<nat, seq<User>>, f: nat,
                      free': seq<Ptr>, lists': map<nat, seq<Ptr>>, own': map<nat, seq<User>>)
    requires Shared(pbt, pst, head, free, lists, own) && f in own && |own[f]| >= 2 && f in pbt && pbt[f].usage > 0
    ensures !Shared(pbt[f := pbt[f].(usage := pbt[f].usage - 1)], pst, head, free', lists', own')
  {
    var pbt' := pbt[f := pbt[f].(usage := pbt[f].usage - 1)];
    Unshare(pbt, pst, head, free, lists, own);
    assert PbtAt(pbt, pst, lists, own, f);
    var p := lists[f][|lists[f]| - 1];
    assert p in lists[f];
    if Shared(pbt', pst, head, free', lists', own') {
      Unshare(pbt', pst, head, free', lists', own');
      SameFree(pst, head, free, free');
      var g :| g in lists' && p in lists'[g];
      assert PbtAt(pbt, pst, lists, own, g) && PbtAt(pbt', pst, lists', own', g);
      OtherReading(pbt, pbt', pst, lists, lists', own, own', f, g, p);
    }
  }
}
