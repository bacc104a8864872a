/**
 The page buffer functions of the kernel, proved to compute the functions of Frames.
 */
module PageBuffers {
  import opened BlockLists
  import opened Frames
  import opened FrameBuffer

  class PageBuffer {
    const start: nat
    const size: nat
    const normalZone: FrameStack
    const highZone: FrameStack
    var pbt: map<nat, Pbt>
    var pst: Pst
    var free: Ptr

    ghost var own: map<nat, seq<User>>
    ghost var lists: map<nat, seq<Ptr>>
    ghost var freeList: seq<Ptr>

    ghost function Value(): Buffer
      reads this, normalZone, normalZone.table, highZone, highZone.table
    {
      Buffer(start, size, own, |freeList|, normalZone.Contents(), highZone.Contents())
    }

    /** Both stacks have room for all the frames of their zone. */
    ghost predicate Roomy() {
      forall k: Key {:trigger Locked(k)} :: Locked(k) ==> Spacious()
    }

    ghost predicate Spacious() {
      && (forall all {:trigger ZoneFrames(start, size, all, true)} :: ZoneFrames(start, size, all, true) ==> |all| <= highZone.table.Length)
      && (forall all {:trigger ZoneFrames(start, size, all, false)} :: ZoneFrames(start, size, all, false) ==> |all| <= normalZone.table.Length)
    }

    ghost predicate Valid()
      reads this, normalZone, normalZone.table, highZone, highZone.table
    {
      && normalZone.Valid() && highZone.Valid() && normalZone != highZone && normalZone.table != highZone.table
      && start > 0 && InZones(Value()) && Shared(pbt, pst, free, freeList, lists, own)
      && (forall f :: f % PAGE == 0 && start <= f <= start + size ==> f in pbt)
      && Roomy()
    }

    /**
     kmem_init_tables, from the point where the tables have their places: the share table has
     one entry less than it could hold, and the frames go onto the stacks in address order.
     */
    constructor (bufferStart: nat, normalCount: nat, highCount: nat, table: Ptr, tableCount: nat)
      requires bufferStart > 0 && bufferStart % PAGE == 0 && table > 0 && tableCount >= 2
      requires bufferStart + normalCount * PAGE <= NORMAL_END
      requires highCount > 0 ==> bufferStart + normalCount * PAGE == NORMAL_END
      ensures Valid() && fresh(normalZone) && fresh(highZone) && fresh(normalZone.table) && fresh(highZone.table)
      ensures Value() == Buffer(bufferStart, (normalCount + highCount) * PAGE, map[], tableCount - 1,
                                Descending(bufferStart, normalCount), Descending(bufferStart + normalCount * PAGE, highCount))
    {
      start, size := bufferStart, (normalCount + highCount) * PAGE;
      normalZone := new FrameStack(normalCount, []);
      highZone := new FrameStack(highCount, []);
      new;
      own, lists, pst := map[], map[], map[];
      pbt := EmptyTable(start, size);
      free, freeList := table, Entries(table, tableCount - 1);
      InitShareTable(table, tableCount);
      FillZones(normalCount, highCount);
    }

    method FillZones(normalCount: nat, highCount: nat)
      requires start > 0 && start % PAGE == 0 && size == (normalCount + highCount) * PAGE && own == map[]
      requires start + normalCount * PAGE <= NORMAL_END && (highCount > 0 ==> start + normalCount * PAGE == NORMAL_END)
      requires normalZone.Valid() && normalZone.Contents() == [] && normalZone.table.Length == normalCount
      requires highZone.Valid() && highZone.Contents() == [] && highZone.table.Length == highCount
      requires {normalZone, normalZone.table} !! {highZone, highZone.table}
      modifies normalZone, normalZone.table, highZone, highZone.table
      ensures normalZone.Valid() && normalZone.Contents() == Descending(start, normalCount)
      ensures highZone.Valid() && highZone.Contents() == Descending(start + normalCount * PAGE, highCount)
      ensures InZones(Value()) && Roomy()
    {
      FillStack(normalZone, start, normalCount);
      FillStack(highZone, start + normalCount * PAGE, highCount);
      InitialZoned(Value(), normalCount, highCount);
    }

    method InitShareTable(table: Ptr, tableCount: nat)
      requires table > 0 && tableCount >= 2 && lists == map[] && own == map[] && free == table && freeList == Entries(table, tableCount - 1)
      requires pst == map[] && forall f :: f in pbt ==> pbt[f].usage == 0
      modifies this`pst
      ensures Shared(pbt, pst, free, freeList, lists, own)
    {
      ghost var s := freeList;
      EntriesDiffer(table, tableCount - 1, s);
      var n := 0;
      while n < tableCount - 1
        invariant 0 <= n <= |s| == tableCount - 1
        invariant forall p :: p in pst <==> p in s[..n]
        invariant forall i {:trigger LinkAt(pst, s, i)} :: 0 <= i < n && i < |s| - 1 ==> LinkAt(pst, s, i)
      {
        ghost var before := pst;
        assert s[..n + 1] == s[..n] + [s[n]];
        pst := pst[EntryAt(table, n) := Node(User(0, 0), EntryAt(table, n + 1))];
        LinksKept(before, pst, s, n, s[n]);
        n := n + 1;
      }
      ghost var before := pst;
      pst := pst[EntryAt(table, n - 1) := pst[EntryAt(table, n - 1)].(nxt := NULL)];
      assert s[..n] == s;
      LinksKept(before, pst, s, n - 1, s[n - 1]);
      InitialShared(pbt, pst, table, s);
    }

    /** kmem_alloc_kernel_pageframe; 0 stands for NULL. */
    method AllocKernelFrame() returns (page: nat)
      requires Valid()
      modifies this, normalZone
      ensures Valid()
      ensures match AllocKernel(old(Value()))
              case None => page == 0 && Value() == old(Value())
              case Some((b, f)) => page == f != 0 && Value() == b
    {
      ghost var b0 := Value();
      OpenZones(b0);
      if normalZone.count == 0 { return 0; }
      AllocKernelZoned(b0);
      page := normalZone.Pop();
      assert b0.normal[1..] == normalZone.Contents();
      SetOwner(page, User(KERNEL, page + VAS_KERNEL_START));
    }

    /** kmem_alloc_user_pageframe. */
    method AllocUserFrame(u: User) returns (page: nat)
      requires Valid()
      modifies this, normalZone, highZone
      ensures Valid()
      ensures match AllocUser(old(Value()), u)
              case None => page == 0 && Value() == old(Value())
              case Some((b, f)) => page == f != 0 && Value() == b
    {
      ghost var b0 := Value();
      OpenZones(b0);
      if highZone.count != 0 {
        AllocUserZoned(b0, u);
        page := highZone.Pop();
        assert b0.high[1..] == highZone.Contents();
        SetOwner(page, u);
      } else if normalZone.count != 0 {
        AllocUserZoned(b0, u);
        page := normalZone.Pop();
        assert b0.normal[1..] == normalZone.Contents();
        SetOwner(page, u);
      } else {
        page := 0;
      }
    }

    /** The table entry of a frame that has just been allocated. */
    method SetOwner(f: nat, u: User)
      requires Shared(pbt, pst, free, freeList, lists, own) && f !in own
      modifies this`pbt, this`own
      ensures own == old(own)[f := [u]] && pbt == old(pbt)[f := Pbt(1, Single(u))]
      ensures Shared(pbt, pst, free, freeList, lists, own)
    {
      SetSingle(pbt, pst, free, freeList, lists, own, f, [u], Pbt(1, Single(u)));
      pbt := pbt[f := Pbt(1, Single(u))];
      own := own[f := [u]];
    }

    /** kmem_free_kernel_pageframe, for a frame with one owner or an address out of range. */
    method FreeKernelFrame(page: nat)
      requires Valid() && (start <= page <= start + size ==> page in own && |own[page]| == 1)
      modifies this, normalZone, normalZone.table, highZone, highZone.table
      ensures Valid() && Value() == FreeKernel(old(Value()), page)
    {
      if page < start || page > start + size { return; }
      ghost var b0 := Value();
      OpenZones(b0);
      FreeKernelZoned(b0, page);
      StackRoom(b0, page);
      SetSingle(pbt, pst, free, freeList, lists, own, page, [], Pbt(0, Single(User(0, 0))));
      pbt := pbt[page := Pbt(0, Single(User(0, 0)))];
      own := own - {page};
      if page >= NORMAL_END { highZone.Push(page); } else { normalZone.Push(page); }
    }

    /**
     The part of sysc_map that adds an owner to a frame in use; failed tells that the share
     table has no entry left.  The usage counter has 16 bits.
     */
    method AddFrameOwner(f: nat, u: User) returns (failed: bool)
      requires Valid() && f in own
      modifies this
      ensures match AddOwner(old(Value()), f, u)
              case Added(b) => !failed && Valid() && Value() == b
              case NoEntries => failed && Valid() && Value() == old(Value())
              case Wrapped => !failed && f in pbt && pbt[f].usage == 0
    {
      UsedFrame(Value(), f);
      AddOwnerKeeps(Value(), f, u);
      AddRoom(f, u);
      ghost var p, pbt0, pst0 := free, pbt, pst;
      failed := LinkOwner(f, u);
      if failed { return; }
      if |own[f]| + 1 < 0x1_0000 { AddDone(pbt0, pst0, p, freeList, lists, own, f, u, pbt, pst, free); }
      freeList, lists, own := freeList[EntriesFor(|own[f]| + 1) - EntriesFor(|own[f]|)..],
                              lists[f := OwnersAfter(pst0, p, lists, own, f)], own[f := [u] + own[f]];
    }

    /** There are enough free entries exactly if LinkOwner does not fail. */
    lemma AddRoom(f: nat, u: User)
      requires Shared(pbt, pst, free, freeList, lists, own) && f in own && own[f] != []
      ensures f in pbt && Linkable(f) && pbt[f].usage == |own[f]|
      ensures free == NULL || (pbt[f].usage == 1 && pst[free].nxt == NULL) <==> |freeList| < EntriesFor(|own[f]| + 1) - EntriesFor(|own[f]|)
    {
      Unshare(pbt, pst, free, freeList, lists, own);
      assert PbtAt(pbt, pst, lists, own, f);
      if freeList != [] {
        PopFree(pst, free, freeList);
        if |freeList| > 1 { PopFree(pst, pst[free].nxt, freeList[1..]); }
      }
    }

    /** The links and marks on which LinkOwner relies. */
    ghost predicate Linkable(f: nat)
      reads this
    {
      && NULL !in pst && f in pbt && pbt[f].usage > 0 && (pbt[f].usage == 1 <==> pbt[f].owner.Single?)
      && (free != NULL ==> free in pst && (pst[free].nxt != NULL ==> pst[free].nxt in pst && pst[free].nxt != free))
    }

    method LinkOwner(f: nat, u: User) returns (failed: bool)
      requires Linkable(f)
      modifies this`pbt, this`pst, this`free
      ensures failed <==> old(free == NULL || (pbt[f].usage == 1 && pst[free].nxt == NULL))
      ensures failed ==> pbt == old(pbt) && pst == old(pst) && free == old(free)
      ensures !failed ==> Linking(old(pbt), old(pst), old(free), f, u, pbt, pst, free)
    {
      var p := free;
      if p == NULL { return true; }
      free := pst[p].nxt;
      if pbt[f].usage == 1 {
        var q := free;
        if q == NULL {
          free := p;
          return true;
        }
        free := pst[q].nxt;
        pst := pst[q := Node(pbt[f].owner.user, p)];
        pbt := pbt[f := pbt[f].(owner := Multi(q))];
      }
      pst := pst[p := Node(u, pbt[f].owner.head)];
      pbt := pbt[f := pbt[f].(owner := Multi(p))];
      pbt := pbt[f := pbt[f].(usage := (pbt[f].usage + 1) % 0x1_0000)];
      failed := false;
    }

    /**
     kmem_free_user_pageframe.  The walk over the owner list is bounded by the usage counter;
     crashed tells that the list of free entries is empty where the code dereferences its head.
     */
    method FreeUserFrame(adr: nat, u: User) returns (crashed: bool)
      requires Valid()
      modifies this, normalZone, normalZone.table, highZone, highZone.table
      ensures match FreeUser(old(Value()), adr - adr % PAGE, u)
              case Done(b) => !crashed && Valid() && Value() == b
              case Crashed => crashed
    {
      var page := adr - adr % PAGE;
      if page < start || page > start + size { return false; }
      Unshare(pbt, pst, free, freeList, lists, own);
      assert PbtAt(pbt, pst, lists, own, page);
      if pbt[page].usage == 1 {
        if pbt[page].owner.user == u { FreeKernelFrame(page); }
        return false;
      }
      if pbt[page].usage == 0 { return false; }
      var last, cur, found, j := FindOwner(page, u);
      if !found { return false; }
      crashed := RemoveOwner(page, last, cur, u, j);
    }

    /** The owner list from its head; last is the entry in front of cur. */
    method FindOwner(page: nat, u: User) returns (last: Ptr, cur: Ptr, found: bool, ghost j: nat)
      requires Shared(pbt, pst, free, freeList, lists, own) && page in own && |own[page]| >= 2
      ensures found <==> u in own[page]
      ensures found ==> page in lists && FoundAt(j, page, last, cur, u)
    {
      Unshare(pbt, pst, free, freeList, lists, own);
      assert PbtAt(pbt, pst, lists, own, page);
      ghost var s, us := lists[page], own[page];
      assert forall i :: 0 <= i < |s| ==> s[i] in s;
      var n := pbt[page].usage;
      last, cur := NULL, pbt[page].owner.head;
      j := 0;
      while n != 0
        invariant 0 <= j <= |s| && n == |s| - j && last == At(s, j - 1) && cur in pst && (j < |s| ==> cur == s[j])
        invariant forall i :: 0 <= i < j ==> us[i] != u
      {
        n := n - 1;
        assert UserAt(pst, s, us, j);
        if pst[cur].user == u {
          found := true;
          return;
        }
        last := cur;
        cur := pst[cur].nxt;
        if j < |s| - 1 { assert LinkAt(pst, s, j); }
        if j < |s| - 2 { assert LinkAt(pst, s, j + 1); }
        j := j + 1;
        if pst[cur].nxt == NULL { break; }
      }
      found := false;
    }

    /** u is owner j of the page, in entry cur behind entry last. */
    ghost predicate FoundAt(j: int, page: nat, last: Ptr, cur: Ptr, u: User)
      requires page in lists && page in own
      reads this
    {
      && 0 <= j < |own[page]| == |lists[page]| && last == At(lists[page], j - 1) && cur == lists[page][j] && own[page][j] == u
      && forall i :: 0 <= i < j ==> own[page][i] != u
    }

    /** The entry found is unlinked and freed; with one owner left the list is given up. */
    method RemoveOwner(page: nat, last: Ptr, cur: Ptr, u: User, ghost j: nat) returns (crashed: bool)
      requires Valid() && page in own && |own[page]| >= 2 && page in lists && FoundAt(j, page, last, cur, u)
      modifies this
      ensures match FreeUser(old(Value()), page, u)
              case Done(b) => !crashed && Valid() && Value() == b
              case Crashed => crashed
    {
      ghost var s, us, pbt0, pst0 := lists[page], own[page], pbt, pst;
      UsedFrame(Value(), page);
      FreeUserKeeps(Value(), page, u);
      RemoveRoom(page, j, u);
      crashed := UnlinkEntry(page, last, cur, s, j);
      if crashed { return; }
      RemoveDone(pbt0, pst0, free, freeList, lists, own, page, s, j, pbt, pst);
      freeList, lists, own := FreeAfter(free, freeList, s, j), ListsAfter(lists, page, s, j), own[page := Cut(us, j)];
    }

    /** The links and marks on which UnlinkEntry relies. */
    lemma RemoveRoom(page: nat, j: nat, u: User)
      requires Shared(pbt, pst, free, freeList, lists, own) && page in own && |own[page]| >= 2 && page in lists && j < |own[page]|
      requires own[page][j] == u && forall i :: 0 <= i < j ==> own[page][i] != u
      ensures var s, us := lists[page], own[page];
              && |s| == |us| && (forall p :: p in s ==> p in pst) && page in pbt && pbt[page] == Pbt(|us|, Multi(s[0]))
              && Drop(us, u) == Cut(us, j) && NULL !in pst && (free == NULL <==> freeList == []) && (free != NULL ==> free in pst)
              && free !in s && NoDup(s) && (j == 0 ==> pst[s[0]].nxt == s[1])
    {
      Unshare(pbt, pst, free, freeList, lists, own);
      assert PbtAt(pbt, pst, lists, own, page);
      var s := lists[page];
      DropCuts(own[page], u, j);
      assert LinkAt(pst, s, 0);
      if freeList != [] { PopFree(pst, free, freeList); }
    }

    method UnlinkEntry(page: nat, last: Ptr, cur: Ptr, ghost s: seq<Ptr>, ghost j: nat) returns (crashed: bool)
      requires NULL !in pst && page in pbt && |s| >= 2 && pbt[page] == Pbt(|s|, Multi(s[0])) && (forall p :: p in s ==> p in pst)
      requires j < |s| && cur == s[j] && last == At(s, j - 1) && NoDup(s) && free !in s && (free != NULL ==> free in pst)
      requires j == 0 ==> pst[s[0]].nxt == s[1]
      modifies this`pbt, this`pst
      ensures crashed <==> free == NULL
      ensures !crashed ==> Unlinking(old(pbt), old(pst), free, page, s, j, pbt, pst)
    {
      assert s[j] in s && s[0] in s && s[1] in s && (j > 0 ==> s[j - 1] in s);
      if last != NULL {
        pst := pst[last := pst[last].(nxt := pst[cur].nxt)];
      } else {
        pbt := pbt[page := pbt[page].(owner := Multi(pst[cur].nxt))];
      }
      if free == NULL { return true; }
      pst := pst[cur := pst[cur].(nxt := pst[free].nxt)];
      pst := pst[free := pst[free].(nxt := cur)];
      pbt := pbt[page := pbt[page].(usage := pbt[page].usage - 1)];
      if pbt[page].usage == 1 {
        var rest := pbt[page].owner.head;
        pbt := pbt[page := pbt[page].(owner := Single(pst[rest].user))];
        pst := pst[rest := pst[rest].(nxt := pst[free].nxt)];
        pst := pst[free := pst[free].(nxt := rest)];
      }
      crashed := false;
    }

    /** A frame in use leaves room on its stack. */
    lemma StackRoom(b: Buffer, f: nat)
      requires Zoned(b) && f in b.own && Roomy() && b.start == start && b.size == size && |b.normal| <= normalZone.table.Length && |b.high| <= highZone.table.Length
      ensures if f >= NORMAL_END then |b.high| < highZone.table.Length else |b.normal| < normalZone.table.Length
    {
      assert Locked(Key);
      var all := ZoneSet(b, f >= NORMAL_END);
      var s := if f >= NORMAL_END then b.high else b.normal;
      assert ZoneFrames(b.start, b.size, all, f >= NORMAL_END);
      SetOfSize(s);
      SubsetSize(Elems(s) + {f}, all);
    }
  }

  /** The first free entry, or the first two, linked as owners of frame f. */
  ghost predicate Linking(pbt: map<nat, Pbt>, pst: Pst, p: Ptr, f: nat, u: User, pbt': map<nat, Pbt>, pst': Pst, free': Ptr) {
    && f in pbt && p in pst && pbt' == pbt[f := Pbt((pbt[f].usage + 1) % 0x1_0000, Multi(p))]
    && if pbt[f].usage == 1 then
         var q := pst[p].nxt;
         && q in pst && pbt[f].owner.Single?
         && pst' == pst[q := Node(pbt[f].owner.user, p)][p := Node(u, q)] && free' == pst[q].nxt
       else pbt[f].owner.Multi? && pst' == pst[p := Node(u, pbt[f].owner.head)] && free' == pst[p].nxt
  }

  ghost function OwnersAfter(pst: Pst, p: Ptr, lists: map<nat, seq<Ptr>>, own: map<nat, seq<User>>, f: nat): seq<Ptr>
    requires f in own && p in pst
  {
    if |own[f]| == 1 then [p, pst[p].nxt] else if f in lists then [p] + lists[f] else []
  }

  lemma AddDone(pbt: map<nat, Pbt>, pst: Pst, p: Ptr, freeList: seq<Ptr>, lists: map<nat, seq<Ptr>>, own: map<nat, seq<User>>,
                f: nat, u: User, pbt': map<nat, Pbt>, pst': Pst, free': Ptr)
    requires Shared(pbt, pst, p, freeList, lists, own) && f in own && own[f] != [] && Linking(pbt, pst, p, f, u, pbt', pst', free')
    requires |freeList| >= EntriesFor(|own[f]| + 1) - EntriesFor(|own[f]|) && |own[f]| + 1 < 0x1_0000
    ensures Shared(pbt', pst', free', freeList[EntriesFor(|own[f]| + 1) - EntriesFor(|own[f]|)..],
                   lists[f := OwnersAfter(pst, p, lists, own, f)], own[f := [u] + own[f]])
  {
    Unshare(pbt, pst, p, freeList, lists, own);
    assert PbtAt(pbt, pst, lists, own, f);
    if |own[f]| == 1 {
      MakeList(pbt, pst, p, freeList, lists, own, f, u, pst[p].nxt);
    } else {
      AddToList(pbt, pst, p, freeList, lists, own, f, u);
    }
  }

  /** Entry j of the owner list s of a page unlinked and freed; from two entries both are freed. */
  ghost predicate Unlinking(pbt: map<nat, Pbt>, pst: Pst, free: Ptr, page: nat, s: seq<Ptr>, j: nat, pbt': map<nat, Pbt>, pst': Pst) {
    && j < |s| && |s| >= 2 && (forall p :: p in s ==> p in pst) && free in pst && s[j] in Shorter(pst, s, j)
    && var pst1 := Freed(Shorter(pst, s, j), free, s[j]);
       if |s| == 2 then
         && s[1 - j] in pst1
         && pbt' == pbt[page := Pbt(1, Single(pst1[s[1 - j]].user))] && pst' == Freed(pst1, free, s[1 - j])
       else pbt' == pbt[page := Pbt(|s| - 1, Multi(Cut(s, j)[0]))] && pst' == pst1
  }

  ghost function FreeAfter(free: Ptr, freeList: seq<Ptr>, s: seq<Ptr>, j: nat): seq<Ptr>
    requires j < |s| && freeList != []
  {
    if |s| == 2 then [free, s[1 - j], s[j]] + freeList[1..] else [free, s[j]] + freeList[1..]
  }

  ghost function ListsAfter(lists: map<nat, seq<Ptr>>, page: nat, s: seq<Ptr>, j: nat): map<nat, seq<Ptr>>
    requires j < |s|
  {
    if |s| == 2 then lists - {page} else lists[page := Cut(s, j)]
  }

  lemma RemoveDone(pbt: map<nat, Pbt>, pst: Pst, free: Ptr, freeList: seq<Ptr>, lists: map<nat, seq<Ptr>>, own: map<nat, seq<User>>,
                   page: nat, s: seq<Ptr>, j: nat, pbt': map<nat, Pbt>, pst': Pst)
    requires Shared(pbt, pst, free, freeList, lists, own) && page in own && |own[page]| >= 2 && page in lists && s == lists[page]
    requires |s| == |own[page]| && freeList != [] && Unlinking(pbt, pst, free, page, s, j, pbt', pst')
    ensures Shared(pbt', pst', free, FreeAfter(free, freeList, s, j), ListsAfter(lists, page, s, j), own[page := Cut(own[page], j)])
  {
    if |s| == 2 {
      assert Cut(own[page], j) == [own[page][1 - j]];
      RemoveFromPair(pbt, pst, free, freeList, lists, own, page, s, j);
    } else {
      RemoveFromList(pbt, pst, free, freeList, lists, own, page, s, j);
    }
  }

  /** all holds exactly the frames of one zone. */
  ghost predicate ZoneFrames(start: nat, size: nat, all: set<nat>, high: bool) {
    forall f :: f in all <==> f % PAGE == 0 && start <= f < start + size && (f >= NORMAL_END) == high
  }

  ghost function ZoneSet(b: Buffer, high: bool): (all: set<nat>)
    ensures ZoneFrames(b.start, b.size, all, high)
  {
    set f | 0 <= f < b.start + b.size && IsFrame(b, f) && (f >= NORMAL_END) == high
  }

  lemma SubsetSize(a: set<nat>, c: set<nat>)
    requires a <= c
    ensures |a| <= |c|
  {
    assert c == a + (c - a);
    UnionSize(a, c - a);
  }

  // ---------------------------------------------------------------- initial values

  /** The address of entry i of the share table; an entry takes twelve bytes. */
  function EntryAt(table: Ptr, i: nat): Ptr {
    table + 12 * i
  }

  function Entries(table: Ptr, n: nat): (s: seq<Ptr>)
    ensures |s| == n && forall i :: 0 <= i < n ==> s[i] == EntryAt(table, i)
  {
    seq(n, i requires 0 <= i => EntryAt(table, i))
  }

  /** The page buffer table of unused frames. */
  function EmptyTable(start: nat, size: nat): (t: map<nat, Pbt>)
    ensures forall f :: f in t <==> f % PAGE == 0 && start <= f <= start + size
    ensures forall f :: f in t ==> t[f].usage == 0
  {
    map f | start <= f <= start + size && f % PAGE == 0 :: Pbt(0, Single(User(0, 0)))
  }

  /** n frames from address a on, the last one first. */
  function Descending(a: nat, n: nat): seq<nat> {
    if n == 0 then [] else [a + (n - 1) * PAGE] + Descending(a, n - 1)
  }

  lemma {:induction false} DescendingMembers(a: nat, n: nat)
    requires a % PAGE == 0
    ensures |Descending(a, n)| == n && NoDup(Descending(a, n))
    ensures forall f :: f in Descending(a, n) <==> a <= f < a + n * PAGE && f % PAGE == 0
  {
    if n > 0 {
      DescendingMembers(a, n - 1);
      var s, t := Descending(a, n), Descending(a, n - 1);
      forall i, j | 0 <= i < j < |s| ensures s[i] != s[j] {
        assert s[j] == t[j - 1] && t[j - 1] in t;
        if i > 0 { assert s[i] == t[i - 1]; }
      }
    }
  }

  method FillStack(zone: FrameStack, a: nat, n: nat)
    requires zone.Valid() && zone.Contents() == [] && zone.table.Length == n
    modifies zone, zone.table
    ensures zone.Valid() && zone.Contents() == Descending(a, n)
  {
    var left, adr := n, a;
    while left != 0
      invariant 0 <= left <= n && zone.Valid() && zone.Contents() == Descending(a, n - left) && zone.ptr == left
      invariant adr == a + (n - left) * PAGE
    {
      left := left - 1;
      zone.Push(adr);
      adr := adr + PAGE;
    }
  }

  lemma InitialZoned(b: Buffer, n: nat, h: nat)
    requires b.start > 0 && b.start % PAGE == 0 && b.size == (n + h) * PAGE && b.own == map[]
    requires b.start + n * PAGE <= NORMAL_END && (h > 0 ==> b.start + n * PAGE == NORMAL_END)
    requires b.normal == Descending(b.start, n) && b.high == Descending(b.start + n * PAGE, h)
    ensures Zoned(b)
    ensures forall all {:trigger ZoneFrames(b.start, b.size, all, true)} :: ZoneFrames(b.start, b.size, all, true) ==> |all| <= h
    ensures forall all {:trigger ZoneFrames(b.start, b.size, all, false)} :: ZoneFrames(b.start, b.size, all, false) ==> |all| <= n
  {
    DescendingMembers(b.start, n);
    DescendingMembers(b.start + n * PAGE, h);
    SetOfSize(b.normal);
    SetOfSize(b.high);
    forall all | ZoneFrames(b.start, b.size, all, true) ensures |all| <= h {
      SubsetSize(all, Elems(b.high));
    }
    forall all | ZoneFrames(b.start, b.size, all, false) ensures |all| <= n {
      SubsetSize(all, Elems(b.normal));
    }
  }

  /** The links in front of entry n stay when entry n is written. */
  lemma LinksKept(pst: Pst, pst': Pst, s: seq<Ptr>, n: nat, p: Ptr)
    requires n < |s| && NoDup(s) && p == s[n] && forall q :: q in pst && q != p ==> q in pst' && pst'[q] == pst[q]
    requires forall i {:trigger LinkAt(pst, s, i)} :: 0 <= i < n && i < |s| - 1 ==> LinkAt(pst, s, i)
    ensures forall i {:trigger LinkAt(pst', s, i)} :: 0 <= i < n && i < |s| - 1 ==> LinkAt(pst', s, i)
  {
    forall i | 0 <= i < n && i < |s| - 1 ensures LinkAt(pst', s, i) {
      assert LinkAt(pst, s, i);
    }
  }

  lemma EntriesDiffer(table: Ptr, n: nat, s: seq<Ptr>)
    requires s == Entries(table, n) && table > 0
    ensures NoDup(s) && NULL !in s
  {
    forall i, j | 0 <= i < j < |s| ensures s[i] != s[j] {
      assert s[i] == EntryAt(table, i) && s[j] == EntryAt(table, j);
    }
  }

  lemma InitialShared(pbt: map<nat, Pbt>, pst: Pst, table: Ptr, s: seq<Ptr>)
    requires s != [] && NoDup(s) && NULL !in s && s[0] == table && forall f :: f in pbt ==> pbt[f].usage == 0
    requires forall p :: p in pst <==> p in s
    requires forall i {:trigger LinkAt(pst, s, i)} :: 0 <= i < |s| - 1 ==> LinkAt(pst, s, i)
    requires s[|s| - 1] in pst && pst[s[|s| - 1]].nxt == NULL
    ensures Shared(pbt, pst, table, s, map[], map[])
  {
    forall f ensures PbtAt(pbt, pst, map[], map[], f) {
    }
  }
}
