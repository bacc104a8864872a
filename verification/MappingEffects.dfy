/**
 What the calls that change address spaces give and take, right by right: the entry that every
 page of a range has after sysc_map, sysc_unmap, sysc_move and sysc_alloc_pages, and which page
 tables go.  Nothing here names the functions that compute an entry.
 */
module MappingEffects {
  import opened BlockLists
  import opened Frames
  import opened Mapping
  import opened MappingInv
  import opened MappingMoves

  // ---------------------------------------------------------------- mapping one page

  /**
   What page e gives to a page t that is mapped to it: each right that e has, or that root adds,
   if it is asked for.  A page marked for copy-on-write is made writable before it is shared
   without the mark.
   */
  predicate Gives(e: Entry, t: Entry, fl: Flags, root: bool) {
    && t.frame == e.frame
    && (t.present <==> e.present || root)
    && (t.user <==> e.user || root)
    && (t.writable <==> (e.writable || e.cow || root) && fl.write && !fl.cow)
    && (t.paged <==> (e.paged || root) && fl.paged)
    && (t.cow <==> fl.cow)
  }

  /** What page e becomes when it is mapped to a page that becomes t. */
  predicate Becomes(e: Entry, e': Entry, t: Entry, fl: Flags) {
    if fl.cow then e' == t
    else if e.cow then e' == Entry(e.frame, e.present, true, e.user, false, e.paged)
    else e' == e
  }

  /** The entries of a source and its target when the one is mapped to the other. */
  ghost predicate Shared(k: Space, k': Space, s: User, d: User, fl: Flags, root: bool) {
    if Copies(k, s, d) then
      && Gives(EntryOf(k, s), EntryOf(k', d), fl, root)
      && Becomes(EntryOf(k, s), EntryOf(k', s), EntryOf(k', d), fl)
    else Untouched(k, k', s) && Untouched(k, k', d)
  }

  ghost predicate Untouched(k: Space, k': Space, u: User) {
    EntryOf(k', u) == EntryOf(k, u)
  }

  /** What CopyEntry writes, whether or not the new page becomes an owner. */
  lemma CopyWrites(k: Space, s: User, d: User, fl: Flags, root: bool, cur: nat) returns (b: Buffer)
    requires CopyEntry(k, s, d, fl, root, cur).Mapped?
    ensures CopyEntry(k, s, d, fl, root, cur).k == WriteEntries(k.(b := b), s, d, Granted(EntryOf(k, s), fl, root), fl)
    ensures b.normal == k.b.normal && b.high == k.b.high && b.start == k.b.start && b.size == k.b.size
    ensures var e := EntryOf(k, s);
            if (e.present || root) && 0x10_0000 < e.frame < k.b.start + k.b.size
            then e.frame in k.b.own && b.own == k.b.own[e.frame := [User(cur, d.adr)] + k.b.own[e.frame]]
            else b == k.b
  {
    var r := CopyEntry(k, s, d, fl, root, cur);
    b := r.k.b;
  }

  lemma WriteGives(k: Space, s: User, d: User, fl: Flags, root: bool)
    requires Copies(k, s, d) && (EntryOf(k, s).cow ==> fl.cow)
    ensures var k' := WriteEntries(k, s, d, Granted(EntryOf(k, s), fl, root), fl);
            Shared(k, k', s, d, fl, root) && k'.tabs == k.tabs && forall u :: u != s && u != d ==> Untouched(k, k', u)
  {
  }

  /** A mapping that copies: the source is unshared if it has to be, and then its entry is written. */
  lemma Copied(k: Space, s: User, d: User, fl: Flags, root: bool, cur: nat) returns (k2: Space)
    requires Copies(k, s, d) && MapPage(k, s, d, fl, root, cur).Mapped?
    ensures GetTable(k, SlotOf(d)).Some?
    ensures var k1 := GetTable(k, SlotOf(d)).value; k1.ent == k.ent && k2.tabs == k1.tabs && k2.b == k1.b && k2.cnt == k1.cnt
    ensures MapPage(k, s, d, fl, root, cur) == CopyEntry(k2, s, d, fl, root, cur)
    ensures var e := EntryOf(k, s);
            k2.ent == if e.cow && !fl.cow then Put(k.ent, s, Entry(e.frame, e.present, true, e.user, false, e.paged)) else k.ent
  {
    var k1 := GetTable(k, SlotOf(d)).value;
    k2 := if MustCopy(k1, s, fl) then CopyPage(k1, s, cur).k else k1;
  }

  /** Entries of other pages stay, and so do page tables. */
  lemma MapPageGives(k: Space, s: User, d: User, fl: Flags, root: bool, cur: nat)
    requires MapPage(k, s, d, fl, root, cur).Mapped?
    ensures var k' := MapPage(k, s, d, fl, root, cur).k;
            && Shared(k, k', s, d, fl, root)
            && (forall u :: u != s && u != d ==> Untouched(k, k', u))
            && (forall t :: t in k.tabs ==> t in k'.tabs && k'.tabs[t] == k.tabs[t])
  {
    if Copies(k, s, d) {
      var k2 := Copied(k, s, d, fl, root, cur);
      var b := CopyWrites(k2, s, d, fl, root, cur);
      var k3 := k2.(b := b);
      var k' := WriteEntries(k3, s, d, Granted(EntryOf(k3, s), fl, root), fl);
      WriteGives(k3, s, d, fl, root);
      forall u | u != s && u != d ensures Untouched(k, k', u) { assert Untouched(k3, k', u); }
    } else {
      NothingCopied(k, s, d, fl, root, cur);
    }
  }

  lemma NothingCopied(k: Space, s: User, d: User, fl: Flags, root: bool, cur: nat)
    requires !Copies(k, s, d) && MapPage(k, s, d, fl, root, cur).Mapped?
    ensures var r := MapPage(k, s, d, fl, root, cur);
            if GetTable(k, SlotOf(d)).Some? then r.k == GetTable(k, SlotOf(d)).value else r.k == k
    ensures var k' := MapPage(k, s, d, fl, root, cur).k;
            k'.ent == k.ent && forall t :: t in k.tabs ==> t in k'.tabs && k'.tabs[t] == k.tabs[t]
  {
  }

  /** The owner that a page mapped to frame f gets entered. */
  ghost function Entered(k: Space, s: User, d: User, root: bool, cur: nat, f: nat): seq<User> {
    var e := EntryOf(k, s);
    if Copies(k, s, d) && f == e.frame && (e.present || root) && 0x10_0000 < f < k.b.start + k.b.size then [User(cur, d.adr)] else []
  }

  /** The owners and the counters after a mapping; k1 is the state in which the target has its table. */
  lemma MapPageEnters(k: Space, s: User, d: User, fl: Flags, root: bool, cur: nat, k1: Space)
    requires GetTable(k, SlotOf(d)) == Some(k1) && MapPage(k, s, d, fl, root, cur).Mapped?
    ensures var (e, k') := (EntryOf(k, s), MapPage(k, s, d, fl, root, cur).k);
            && k'.tabs == k1.tabs && k'.b.normal == k1.b.normal && k'.b.high == k1.b.high
            && (forall f :: Owners(k'.b, f) == Entered(k1, s, d, root, cur, f) + Owners(k1.b, f))
            && (forall t :: Cnt(k', t) == Cnt(k, t) + if Copies(k, s, d) && (e.present || root) && t == SlotOf(d) then 1 else 0)
  {
    if Copies(k, s, d) {
      var k2 := Copied(k, s, d, fl, root, cur);
      var b := CopyWrites(k2, s, d, fl, root, cur);
      assert EntryOf(k2, s).present == EntryOf(k, s).present && EntryOf(k2, s).frame == EntryOf(k, s).frame;
    } else {
      NothingCopied(k, s, d, fl, root, cur);
    }
  }

  /** A page need not be shared as it is: it is marked for copy-on-write and the mark is not asked for. */
  predicate Unshares(e: Entry, fl: Flags) {
    e.cow && !fl.cow
  }

  /** The page that gets the entry becomes an owner of its frame. */
  predicate Owns(b: Buffer, e: Entry, root: bool) {
    (e.present || root) && 0x10_0000 < e.frame < b.start + b.size
  }

  /**
   Why a mapping does not come to its end; k1 is the state in which the target has its table, and
   n the usage of the frame.  A page with other users that must be copied first either finds no
   frame or loses a user too much; a second owner takes two share-table entries and any further
   one takes one; a frame not in use, or with 65535 users, breaks the page buffer.
   */
  lemma MapPageEnds(k: Space, s: User, d: User, fl: Flags, root: bool, cur: nat, k1: Space)
    requires GetTable(k, SlotOf(d)) == Some(k1) && Copies(k, s, d)
    ensures var (e, r) := (EntryOf(k, s), MapPage(k, s, d, fl, root, cur));
            var n := |Owners(k1.b, e.frame)|;
            && (r.Miscounts? <==> Unshares(e, fl) && n != 1 && (k1.b.high != [] || k1.b.normal != []))
            && (r.Failed? <==> || (Unshares(e, fl) && n != 1 && k1.b.high == [] && k1.b.normal == [])
                               || ((Unshares(e, fl) ==> n == 1) && Owns(k1.b, e, root) && n > 0 && k1.b.entries < if n == 1 then 2 else 1))
            && (r.Broken? <==> (Unshares(e, fl) ==> n == 1) && Owns(k1.b, e, root) && (n == 0 || (n == 0xFFFF && k1.b.entries > 0)))
  {
    var e, n := EntryOf(k, s), |Owners(k1.b, EntryOf(k, s).frame)|;
    if Unshares(e, fl) {
      if n == 1 {
        var k2 := k1.(ent := Put(k1.ent, s, e.(cow := false, writable := true)));
        assert MapPage(k, s, d, fl, root, cur) == CopyEntry(k2, s, d, fl, root, cur);
        CopyEnds(k2, s, d, fl, root, cur);
      }
    } else {
      CopyEnds(k1, s, d, fl, root, cur);
    }
  }

  lemma CopyEnds(k: Space, s: User, d: User, fl: Flags, root: bool, cur: nat)
    ensures var (e, r) := (EntryOf(k, s), CopyEntry(k, s, d, fl, root, cur));
            var n := |Owners(k.b, e.frame)|;
            && !r.Miscounts?
            && (r.Failed? <==> Owns(k.b, e, root) && n > 0 && k.b.entries < if n == 1 then 2 else 1)
            && (r.Broken? <==> Owns(k.b, e, root) && (n == 0 || (n == 0xFFFF && k.b.entries > 0)))
  {
  }

  /** Without a frame for the page table of the target only an empty page is passed over. */
  lemma MapPageTableless(k: Space, s: User, d: User, fl: Flags, root: bool, cur: nat)
    ensures GetTable(k, SlotOf(d)).None? <==> SlotOf(d) !in k.tabs && k.b.normal == []
    ensures GetTable(k, SlotOf(d)).None? ==> MapPage(k, s, d, fl, root, cur) == if EntryOf(k, s) == ZERO then Mapped(k) else Broken
    ensures GetTable(k, SlotOf(d)).Some? && !Copies(k, s, d) ==> MapPage(k, s, d, fl, root, cur).Mapped?
  {
  }

  // ---------------------------------------------------------------- mapping a range

  ghost predicate TableAt(k: Space, s: User, i: nat) {
    SlotOf(Next(s, i)) in k.tabs
  }

  /** The pages lo, ..., hi - 1 behind s have page tables. */
  ghost predicate Tables(k: Space, s: User, lo: nat, hi: nat) {
    forall i: nat {:trigger TableAt(k, s, i)} :: lo <= i < hi ==> TableAt(k, s, i)
  }

  ghost predicate SharedAt(k: Space, k': Space, s: User, d: User, fl: Flags, root: bool, i: nat) {
    Shared(k, k', Next(s, i), Next(d, i), fl, root)
  }

  /** Pages lo, ..., hi - 1 are shared as requested, and every page that is neither one of them nor mapped to one is untouched. */
  ghost predicate RangeShared(k: Space, k': Space, s: User, d: User, fl: Flags, root: bool, n: nat) {
    && (forall i: nat {:trigger SharedAt(k, k', s, d, fl, root, i)} :: i < n ==> SharedAt(k, k', s, d, fl, root, i))
    && (forall u {:trigger Untouched(k, k', u)} :: OutOf(u, s, n) && OutOf(u, d, n) ==> Untouched(k, k', u))
    && (forall t :: t in k.tabs ==> t in k'.tabs && k'.tabs[t] == k.tabs[t])
  }

  lemma RangeFirst(k: Space, k1: Space, k': Space, s: User, d: User, fl: Flags, root: bool, n: nat)
    requires n > 0 && Apart(s, d, n) && RangeShared(k1, k', Next(s, 1), Next(d, 1), fl, root, n - 1)
    requires Shared(k, k1, s, d, fl, root) && (forall u :: u != s && u != d ==> Untouched(k, k1, u))
    requires forall t :: t in k.tabs ==> t in k1.tabs && k1.tabs[t] == k.tabs[t]
    ensures RangeShared(k, k', s, d, fl, root, n)
  {
    ApartTail(s, d, n);
    FirstOutOf(s, n);
    FirstOutOf(d, n);
    assert Untouched(k1, k', s) && Untouched(k1, k', d);
    forall i: nat | i < n ensures SharedAt(k, k', s, d, fl, root, i) {
      if i == 0 {
        assert Next(s, 0) == s && Next(d, 0) == d;
      } else {
        NextNext(s, 1, i - 1);
        NextNext(d, 1, i - 1);
        assert SharedAt(k1, k', Next(s, 1), Next(d, 1), fl, root, i - 1);
        assert NotPage(s, Next(d, 1), i - 1) && NotPage(d, Next(s, 1), i - 1);
        assert Next(s, i) != s && Next(d, i) != d;
        assert Untouched(k, k1, Next(s, i)) && Untouched(k, k1, Next(d, i));
      }
    }
    forall u | OutOf(u, s, n) && OutOf(u, d, n) ensures Untouched(k, k', u) {
      OutOfTail(u, s, n);
      OutOfTail(u, d, n);
      assert Untouched(k, k1, u) && Untouched(k1, k', u);
    }
  }

  /** sysc_map of a range whose sources all have page tables: every page gives what is asked of it, and no other page is touched. */
  lemma {:induction false} MapLoopGives(k: Space, s: User, d: User, n: nat, fl: Flags, root: bool, cur: nat)
    requires Apart(s, d, n) && Tables(k, s, 0, n) && MapLoop(k, s, d, n, fl, root, cur).Mapped?
    ensures RangeShared(k, MapLoop(k, s, d, n, fl, root, cur).k, s, d, fl, root, n)
    decreases n
  {
    if n > 0 {
      assert TableAt(k, s, 0) && Next(s, 0) == s;
      var k1 := MapPage(k, s, d, fl, root, cur).k;
      MapPageGives(k, s, d, fl, root, cur);
      ApartTail(s, d, n);
      forall i: nat | i < n - 1 ensures TableAt(k1, Next(s, 1), i) {
        NextNext(s, 1, i);
        assert TableAt(k, s, i + 1);
      }
      MapLoopGives(k1, Next(s, 1), Next(d, 1), n - 1, fl, root, cur);
      RangeFirst(k, k1, MapLoop(k, s, d, n, fl, root, cur).k, s, d, fl, root, n);
    }
  }

  lemma ApartFrom(s: User, d: User, n: nat, m: nat, l: nat)
    requires m + l <= n && Apart(s, d, n)
    ensures Apart(Next(s, m), Next(d, m), l)
  {
    forall i: nat | i < l ensures NotTarget(Next(s, m), i, Next(d, m), l) {
      assert NotTarget(s, m + i, d, n);
      NextNext(s, m, i);
      forall j: nat | j < l ensures NotPage(Next(Next(s, m), i), Next(d, m), j) {
        assert NotPage(Next(s, m + i), d, m + j);
        NextNext(d, m, j);
      }
    }
  }

  /**
   A missing page table under the first page makes sysc_map jump by 1024 pages, also from the
   middle of the table, and count 1025: the 1024 pages are not mapped, and neither is the last
   page of the range.
   */
  lemma MapLoopSkips(k: Space, s: User, d: User, n: nat, fl: Flags, root: bool, cur: nat)
    requires n > 0 && SlotOf(s) !in k.tabs && Apart(s, d, n) && Tables(k, s, 1024, n - 1)
    requires MapLoop(k, s, d, n, fl, root, cur).Mapped?
    ensures var k' := MapLoop(k, s, d, n, fl, root, cur).k;
            && (forall i: nat {:trigger SharedAt(k, k', s, d, fl, root, i)} :: 1024 <= i < n - 1 ==> SharedAt(k, k', s, d, fl, root, i))
            && (forall i: nat {:trigger UntouchedAt(k, k', s, d, i)} :: i < n && (i < 1024 || i == n - 1) ==> UntouchedAt(k, k', s, d, i))
  {
    var k' := MapLoop(k, s, d, n, fl, root, cur).k;
    if n > 1024 {
      var s1, d1, m := Next(s, 1024), Next(d, 1024), n - 1025;
      ApartFrom(s, d, n, 1024, m);
      forall i: nat | i < m ensures TableAt(k, s1, i) {
        NextNext(s, 1024, i);
        assert TableAt(k, s, 1024 + i);
      }
      MapLoopGives(k, s1, d1, m, fl, root, cur);
      forall i: nat | 1024 <= i < n - 1 ensures SharedAt(k, k', s, d, fl, root, i) {
        NextNext(s, 1024, i - 1024);
        NextNext(d, 1024, i - 1024);
        assert SharedAt(k, k', s1, d1, fl, root, i - 1024);
      }
      forall i: nat | i < n && (i < 1024 || i == n - 1) ensures UntouchedAt(k, k', s, d, i) {
        SkippedOut(s, d, n, i);
        assert Untouched(k, k', Next(s, i)) && Untouched(k, k', Next(d, i));
      }
    }
  }

  /** Source and target i keep their entries. */
  ghost predicate UntouchedAt(k: Space, k': Space, s: User, d: User, i: nat) {
    Untouched(k, k', Next(s, i)) && Untouched(k, k', Next(d, i))
  }

  lemma SkippedOut(s: User, d: User, n: nat, i: nat)
    requires 1024 < n && Apart(s, d, n) && i < n && (i < 1024 || i == n - 1)
    ensures var (s1, d1, m) := (Next(s, 1024), Next(d, 1024), n - 1025);
            OutOf(Next(s, i), s1, m) && OutOf(Next(s, i), d1, m) && OutOf(Next(d, i), s1, m) && OutOf(Next(d, i), d1, m)
  {
    var s1, d1, m := Next(s, 1024), Next(d, 1024), n - 1025;
    TargetOut(s, d, n, i);
    assert NotTarget(s, i, d, n);
    forall j: nat | j < m
      ensures NotPage(Next(s, i), s1, j) && NotPage(Next(s, i), d1, j) && NotPage(Next(d, i), s1, j) && NotPage(Next(d, i), d1, j)
    {
      NextNext(s, 1024, j);
      NextNext(d, 1024, j);
      assert NotPage(Next(s, i), d, 1024 + j) && NotPage(Next(d, i), s, 1024 + j);
    }
  }

  // ---------------------------------------------------------------- unmapping

  /** The entry that unmapping leaves of e in a table that stays. */
  function Remains(e: Entry, flag: UnmapFlag): Entry {
    match flag
    case Complete => Entry(0, false, false, false, false, false)
    case Available => Entry(e.frame, false, e.writable, e.user, e.cow, e.paged)
    case Write => Entry(e.frame, e.present, false, e.user, e.cow, e.paged)
  }

  /** Unmapping the n pages from d on takes the last present entry from table t. */
  ghost predicate Drops(k: Space, t: Slot, d: User, n: nat, flag: UnmapFlag) {
    && !flag.Write? && t in k.tabs && PresentIn(k.ent, t) != {}
    && forall v :: v in PresentIn(k.ent, t) ==> !OutOf(v, d, n)
  }

  ghost predicate Unmaps(k: Space, k': Space, d: User, n: nat, flag: UnmapFlag, u: User) {
    EntryOf(k', u) == if Drops(k, SlotOf(u), d, n, flag) then ZERO
                      else if OutOf(u, d, n) then EntryOf(k, u)
                      else Remains(EntryOf(k, u), flag)
  }

  ghost predicate Keeps(k: Space, k': Space, d: User, n: nat, flag: UnmapFlag, t: Slot) {
    t in k'.tabs <==> t in k.tabs && !Drops(k, t, d, n, flag)
  }

  /**
   All entries and tables after n pages from d on have been unmapped: the pages of the range lose
   what they are to lose, others keep their entries, and a table goes, with what is left in it,
   exactly when its last present entry has gone.
   */
  ghost predicate RangeUnmapped(k: Space, k': Space, d: User, n: nat, flag: UnmapFlag) {
    && (forall u {:trigger Unmaps(k, k', d, n, flag, u)} :: Unmaps(k, k', d, n, flag, u))
    && (forall t {:trigger Keeps(k, k', d, n, flag, t)} :: Keeps(k, k', d, n, flag, t))
  }

  lemma OnePage(u: User, d: User)
    ensures OutOf(u, d, 1) <==> u != d
  {
    assert NotPage(u, d, 0) <==> u != d;
  }

  lemma UnmapPageTakes(k: Space, d: User, flag: UnmapFlag, free: bool)
    requires Books(k) && d.pid != KERNEL && UnmapPage(k, d, flag, free).Unmapped?
    ensures RangeUnmapped(k, UnmapPage(k, d, flag, free).k, d, 1, flag)
  {
    var k' := UnmapPage(k, d, flag, free).k;
    DropsOne(k, d, flag);
    forall u ensures OutOf(u, d, 1) <==> u != d { OnePage(u, d); }
    if flag.Write? || !EntryOf(k, d).present {
      MaskedTakes(k, d, flag);
    } else {
      var b := FreeUser(k.b, EntryOf(k, d).frame, d).b;
      AbsentTakes(k, b, d, flag);
    }
  }

  /** One page takes the last present entry from a table if it is the only one. */
  lemma DropsOne(k: Space, d: User, flag: UnmapFlag)
    requires Books(k)
    ensures forall t {:trigger Drops(k, t, d, 1, flag)} :: Drops(k, t, d, 1, flag) <==> !flag.Write? && PresentIn(k.ent, t) == {d}
  {
    forall t ensures Drops(k, t, d, 1, flag) <==> !flag.Write? && PresentIn(k.ent, t) == {d} {
      var p := PresentIn(k.ent, t);
      forall v ensures OutOf(v, d, 1) <==> v != d { OnePage(v, d); }
      if p == {d} { assert d in p; }
    }
  }

  lemma MaskedTakes(k: Space, d: User, flag: UnmapFlag)
    requires Books(k) && (flag.Write? || !EntryOf(k, d).present)
    ensures var k' := Masked(k, d, flag);
            && k'.tabs == k.tabs && EntryOf(k', d) == Remains(EntryOf(k, d), flag)
            && (forall u :: u != d ==> EntryOf(k', u) == EntryOf(k, u))
            && (flag.Write? || forall t :: PresentIn(k.ent, t) != {d})
  {
    if !flag.Write? {
      forall t ensures PresentIn(k.ent, t) != {d} { assert d !in PresentIn(k.ent, t); }
    }
  }

  lemma AbsentTakes(k: Space, b: Buffer, d: User, flag: UnmapFlag)
    requires Books(k) && EntryOf(k, d).present && !flag.Write?
    ensures var (k', last) := (Masked(Absent(k.(b := b), d, flag), d, flag), PresentIn(k.ent, SlotOf(d)) == {d});
            && k'.tabs == (if last then k.tabs - {SlotOf(d)} else k.tabs)
            && (forall u :: EntryOf(k', u) == if last && SlotOf(u) == SlotOf(d) then ZERO
                                              else if u == d then Remains(EntryOf(k, d), flag) else EntryOf(k, u))
  {
    var t := SlotOf(d);
    var p := PresentIn(k.ent, t);
    assert TableOk(k, t) && d in p;
    assert |p| == 1 <==> p == {d} by {
      assert p == {d} + (p - {d});
      assert p - {d} == {} <==> |p - {d}| == 0;
    }
  }

  lemma OutOfSplit(u: User, d: User, n: nat)
    requires n > 0
    ensures OutOf(u, d, n) <==> u != d && OutOf(u, Next(d, 1), n - 1)
  {
    if u != d && OutOf(u, Next(d, 1), n - 1) {
      forall i: nat | i < n ensures NotPage(u, d, i) {
        if i == 0 {
          assert Next(d, 0) == d;
        } else {
          NextNext(d, 1, i - 1);
          assert NotPage(u, Next(d, 1), i - 1);
        }
      }
    } else if OutOf(u, d, n) {
      OutOfTail(u, d, n);
    }
  }

  /** The present entries of a table after page d has been unmapped. */
  lemma PresentLeft(k: Space, k1: Space, d: User, flag: UnmapFlag, t: Slot)
    requires RangeUnmapped(k, k1, d, 1, flag)
    ensures !Drops(k, t, d, 1, flag) ==> PresentIn(k1.ent, t) == if flag.Write? then PresentIn(k.ent, t) else PresentIn(k.ent, t) - {d}
    ensures Drops(k, t, d, 1, flag) ==> PresentIn(k1.ent, t) == {} && t !in k1.tabs
  {
    assert Keeps(k, k1, d, 1, flag, t);
    forall u | SlotOf(u) == t
      ensures u in PresentIn(k1.ent, t) <==> u in PresentIn(k.ent, t) && (flag.Write? || u != d) && !Drops(k, t, d, 1, flag)
    {
      OnePage(u, d);
      assert Unmaps(k, k1, d, 1, flag, u);
    }
  }

  /** A table goes with the first page or with one of the others. */
  lemma DropsSplit(k: Space, k1: Space, d: User, n: nat, flag: UnmapFlag, t: Slot)
    requires n > 0 && Books(k) && RangeUnmapped(k, k1, d, 1, flag)
    ensures Drops(k, t, d, n, flag) <==> Drops(k, t, d, 1, flag) || Drops(k1, t, Next(d, 1), n - 1, flag)
  {
    var p := PresentIn(k.ent, t);
    DropsOne(k, d, flag);
    PresentLeft(k, k1, d, flag, t);
    assert Keeps(k, k1, d, 1, flag, t);
    forall v ensures OutOf(v, d, n) <==> v != d && OutOf(v, Next(d, 1), n - 1) { OutOfSplit(v, d, n); }
    if !flag.Write? && p == {d} {
      assert d in p;
      assert Drops(k, t, d, n, flag);
    } else if !flag.Write? && t in k.tabs {
      var p1 := p - {d};
      assert p1 != {} || p == {} by {
        if p1 == {} { assert p <= {d}; }
      }
      if forall v :: v in p1 ==> !OutOf(v, Next(d, 1), n - 1) {
        forall v | v in p ensures !OutOf(v, d, n) { assert v == d || v in p1; }
      } else {
        var v :| v in p1 && OutOf(v, Next(d, 1), n - 1);
        assert v in p && OutOf(v, d, n);
      }
    }
  }

  lemma UnmapsOn(k: Space, k1: Space, k': Space, d: User, n: nat, flag: UnmapFlag, u: User)
    requires n > 0 && Books(k) && RangeUnmapped(k, k1, d, 1, flag) && Unmaps(k1, k', Next(d, 1), n - 1, flag, u)
    ensures Unmaps(k, k', d, n, flag, u)
  {
    DropsSplit(k, k1, d, n, flag, SlotOf(u));
    OutOfSplit(u, d, n);
    OnePage(u, d);
    FirstOutOf(d, n);
    assert Unmaps(k, k1, d, 1, flag, u);
    if u != d && !Drops(k, SlotOf(u), d, 1, flag) {
      assert EntryOf(k1, u) == EntryOf(k, u);
    }
  }

  lemma UnmappedOn(k: Space, k1: Space, k': Space, d: User, n: nat, flag: UnmapFlag)
    requires n > 0 && Books(k) && RangeUnmapped(k, k1, d, 1, flag) && RangeUnmapped(k1, k', Next(d, 1), n - 1, flag)
    ensures RangeUnmapped(k, k', d, n, flag)
  {
    forall u ensures Unmaps(k, k', d, n, flag, u) {
      assert Unmaps(k1, k', Next(d, 1), n - 1, flag, u);
      UnmapsOn(k, k1, k', d, n, flag, u);
    }
    forall t ensures Keeps(k, k', d, n, flag, t) {
      DropsSplit(k, k1, d, n, flag, t);
      assert Keeps(k, k1, d, 1, flag, t) && Keeps(k1, k', Next(d, 1), n - 1, flag, t);
    }
  }

  lemma NoneUnmapped(k: Space, d: User, flag: UnmapFlag)
    ensures RangeUnmapped(k, k, d, 0, flag)
  {
    forall t ensures !Drops(k, t, d, 0, flag) {
      forall v ensures OutOf(v, d, 0) { }
      if v :| v in PresentIn(k.ent, t) { assert OutOf(v, d, 0); }
    }
  }

  ghost predicate AtHand(k: Space, d: User, at: int, i: nat) {
    SlotOf(Next(d, i)) in k.tabs || SlotOf(Next(d, i)).n == at
  }

  /** Every page of the range has a table, or is in the one at hand. */
  ghost predicate AllAtHand(k: Space, d: User, n: nat, at: int) {
    forall i: nat {:trigger AtHand(k, d, at, i)} :: i < n ==> AtHand(k, d, at, i)
  }

  lemma SlotsAscend(d: User, i: nat)
    ensures SlotOf(d).n <= SlotOf(Next(d, i)).n
  {
  }

  lemma RestAtHand(k: Space, k1: Space, d: User, n: nat, flag: UnmapFlag, at: int)
    requires n > 0 && Books(k) && AllAtHand(k, d, n, at) && at <= SlotOf(d).n && RangeUnmapped(k, k1, d, 1, flag)
    ensures AllAtHand(k1, Next(d, 1), n - 1, SlotOf(d).n)
  {
    DropsOne(k, d, flag);
    forall i: nat | i < n - 1 ensures AtHand(k1, Next(d, 1), SlotOf(d).n, i) {
      NextNext(d, 1, i);
      var t := SlotOf(Next(d, i + 1));
      assert AtHand(k, d, at, i + 1) && AtHand(k, d, at, 0) && Next(d, 0) == d;
      assert Keeps(k, k1, d, 1, flag, t);
      if Drops(k, t, d, 1, flag) { assert d in PresentIn(k.ent, t); }
      SlotsAscend(d, i + 1);
    }
  }

  /**
   sysc_unmap of a range with page tables: what becomes of every entry and every table.  Where the
   paging daemon refuses the loss of a page it protects, the pages in front of it are unmapped.
   */
  lemma {:induction false} UnmapLoopTakes(k: Space, d: User, n: nat, flag: UnmapFlag, free: bool, at: int) returns (m: nat)
    requires Books(k) && d.pid != KERNEL && AllAtHand(k, d, n, at) && at <= SlotOf(d).n && !UnmapLoop(k, d, n, flag, free, at).Dead?
    ensures var r := UnmapLoop(k, d, n, flag, free, at);
            && m <= n && RangeUnmapped(k, r.k, d, m, flag) && Books(r.k)
            && (r.Finished? <==> m == n)
            && (r.Stopped? ==> flag.Complete? && !free && EntryOf(r.k, Next(d, m)).present && EntryOf(r.k, Next(d, m)).paged)
    decreases n
  {
    m := 0;
    if n == 0 {
      NoneUnmapped(k, d, flag);
    } else {
      assert AtHand(k, d, at, 0) && Next(d, 0) == d;
      match UnmapPage(k, d, flag, free) {
        case Unmapped(k1) =>
          UnmapPageTakes(k, d, flag, free);
          UnmapPageBooks(k, d, flag, free);
          RestAtHand(k, k1, d, n, flag, at);
          assert SlotOf(d).n <= SlotOf(Next(d, 1)).n by { SlotsAscend(d, 1); }
          m := UnmapLoopTakes(k1, Next(d, 1), n - 1, flag, free, SlotOf(d).n);
          UnmappedOn(k, k1, UnmapLoop(k, d, n, flag, free, at).k, d, m + 1, flag);
          NextNext(d, 1, m);
          m := m + 1;
        case PagerError =>
          NoneUnmapped(k, d, flag);
        case Crash =>
      }
    }
  }

  /** Where the first page has no page table the unmapping jumps as the mapping does, and misses the last page. */
  lemma UnmapLoopSkips(k: Space, d: User, n: nat, flag: UnmapFlag, free: bool, at: int)
    requires Books(k) && d.pid != KERNEL && n > 0 && SlotOf(d) !in k.tabs && at < SlotOf(d).n && Tables(k, d, 1024, n - 1)
    ensures n <= 1025 ==> UnmapLoop(k, d, n, flag, free, at) == Finished(k)
    ensures n > 1025 && UnmapLoop(k, d, n, flag, free, at).Finished? ==>
              RangeUnmapped(k, UnmapLoop(k, d, n, flag, free, at).k, Next(d, 1024), n - 1025, flag)
  {
    if n > 1025 && UnmapLoop(k, d, n, flag, free, at).Finished? {
      var d1 := Next(d, 1024);
      forall i: nat | i < n - 1025 ensures AtHand(k, d1, SlotOf(d).n, i) {
        NextNext(d, 1024, i);
        assert TableAt(k, d, 1024 + i);
      }
      SlotsAscend(d, 1024);
      var m := UnmapLoopTakes(k, d1, n - 1025, flag, free, SlotOf(d).n);
    }
  }

  // ---------------------------------------------------------------- moving

  /** Source and target after a move: the source is empty, and the target has what it was given. */
  ghost predicate Moved(k: Space, k': Space, s: User, d: User, fl: Flags, root: bool) {
    && EntryOf(k', s) == ZERO
    && (Copies(k, s, d) ==> Gives(EntryOf(k, s), EntryOf(k', d), fl, root) || WentAlong(k, k', s, d, root))
    && (!Copies(k, s, d) ==> Untouched(k, k', d) || (!EntryOf(k, d).present && EntryOf(k', d) == ZERO && SlotOf(d) !in k'.tabs))
  }

  /** The target was not present, and its page table went with the last of the sources. */
  ghost predicate WentAlong(k: Space, k': Space, s: User, d: User, root: bool) {
    !EntryOf(k, s).present && !root && EntryOf(k', d) == ZERO && SlotOf(d) !in k'.tabs
  }

  lemma MoveGives(k: Space, adr: nat, d: User, n: nat, fl: Flags, root: bool, cur: nat, free: bool, i: nat)
    requires cur != KERNEL && Apart(User(cur, adr), d, n) && Tables(k, User(cur, adr), 0, n) && i < n
    requires Move(k, adr, d, n, fl, root, cur, free).Finished? && Books(MapLoop(k, User(cur, adr), d, n, fl, root, cur).k)
    ensures Moved(k, Move(k, adr, d, n, fl, root, cur, free).k, Next(User(cur, adr), i), Next(d, i), fl, root)
  {
    var s := User(cur, adr);
    var k1, k' := MapLoop(k, s, d, n, fl, root, cur).k, Move(k, adr, d, n, fl, root, cur, free).k;
    MapLoopGives(k, s, d, n, fl, root, cur);
    assert SharedAt(k, k1, s, d, fl, root, i);
    forall j: nat | j < n ensures AtHand(k1, s, -1, j) { assert TableAt(k, s, j); }
    var m := UnmapLoopTakes(k1, s, n, Complete, free, -1);
    var si, di := Next(s, i), Next(d, i);
    assert Unmaps(k1, k', s, n, Complete, si) && Unmaps(k1, k', s, n, Complete, di);
    assert Keeps(k1, k', s, n, Complete, SlotOf(di));
    assert !NotPage(si, s, i);
    TargetOut(s, d, n, i);
    if EntryOf(k1, di).present { assert di in PresentIn(k1.ent, SlotOf(di)); }
  }

  // ---------------------------------------------------------------- allocating

  /**
   One turn of sysc_alloc_pages: a page that is present stays, with everything else; any other gets
   a frame that nobody used, present, writable and for the user, neither shared nor protected.
   */
  lemma AllocPageGives(k: Space, d: User)
    requires Zoned(k.b) && AllocPage(k, d).Mapped? && (EntryOf(k, d).present ==> SlotOf(d) in k.tabs)
    ensures var k' := AllocPage(k, d).k;
            && (forall u :: u != d ==> Untouched(k, k', u))
            && (forall t :: t in k'.tabs <==> t in k.tabs || t == SlotOf(d))
            && (if EntryOf(k, d).present then k' == k else FreshPage(k, k', d))
            && (forall f :: f in k.b.own ==> f in k'.b.own)
  {
    var (b, f) := AllocUser(k.b, d).value;
    AllocUserZoned(k.b, d);
    if EntryOf(k, d).present {
      GivenBack(k.b, d);
    } else {
      var k1 := GetTable(k.(b := b), SlotOf(d)).value;
      if SlotOf(d) !in k.tabs { AllocKernelZoned(b); }
    }
  }

  /** Page d has a frame of its own that was not in use. */
  ghost predicate FreshPage(k: Space, k': Space, d: User) {
    var e := EntryOf(k', d);
    && e.present && e.writable && e.user && !e.cow && !e.paged
    && e.frame !in k.b.own && Owners(k'.b, e.frame) == [d]
    && (k.b.high != [] ==> e.frame == k.b.high[0]) && (k.b.high == [] ==> k.b.normal != [] && e.frame == k.b.normal[0])
  }

  /** A frame taken and given back at once is the next one again. */
  lemma GivenBack(b: Buffer, u: User)
    requires Zoned(b) && AllocUser(b, u).Some?
    ensures var (b', f) := AllocUser(b, u).value; FreeKernel(b', f) == b
  {
    FreeUndoesAllocUser(b, u);
    AllocUserZoned(b, u);
  }

  /** Page d is present as it was, or has a frame that was not in use. */
  ghost predicate Allocated(k: Space, k': Space, d: User) {
    var e := EntryOf(k', d);
    if EntryOf(k, d).present then Untouched(k, k', d)
    else e.present && e.writable && e.user && !e.cow && !e.paged && e.frame !in k.b.own
  }

  ghost predicate AllocatedAt(k: Space, k': Space, d: User, i: nat) {
    Allocated(k, k', Next(d, i))
  }

  ghost predicate RangeAllocated(k: Space, k': Space, d: User, n: nat) {
    && (forall i: nat {:trigger AllocatedAt(k, k', d, i)} :: i < n ==> AllocatedAt(k, k', d, i))
    && (forall u {:trigger Untouched(k, k', u)} :: OutOf(u, d, n) ==> Untouched(k, k', u))
  }

  ghost predicate OneAllocated(k: Space, k1: Space, d: User) {
    && Allocated(k, k1, d) && (forall u :: u != d ==> Untouched(k, k1, u))
    && (forall f :: f in k.b.own ==> f in k1.b.own)
  }

  lemma AllocTurn(k: Space, d: User)
    requires Acc(k) && d.pid != KERNEL
    ensures var r := AllocPage(k, d);
            (r.Mapped? ==> Acc(r.k) && OneAllocated(k, r.k, d)) && (r.Mapped? || r.Failed?) && (r.Failed? ==> r.k.ent == k.ent)
  {
    AllocPageAcc(k, d);
    assert EntryOk(k, d);
    if AllocPage(k, d).Mapped? { AllocPageGives(k, d); }
  }

  lemma NoneAllocated(k: Space, k': Space, d: User)
    requires k'.ent == k.ent
    ensures RangeAllocated(k, k', d, 0)
  {
  }

  lemma AllocatedOn(k: Space, k1: Space, k': Space, d: User, n: nat)
    requires n > 0 && RangeAllocated(k1, k', Next(d, 1), n - 1) && OneAllocated(k, k1, d)
    ensures RangeAllocated(k, k', d, n)
  {
    FirstOutOf(d, n);
    assert Untouched(k1, k', d);
    forall i: nat | i < n ensures AllocatedAt(k, k', d, i) {
      if i == 0 {
        assert Next(d, 0) == d;
      } else {
        NextNext(d, 1, i - 1);
        assert AllocatedAt(k1, k', Next(d, 1), i - 1);
        assert Next(d, i) != d && Untouched(k, k1, Next(d, i));
      }
    }
    forall u | OutOf(u, d, n) ensures Untouched(k, k', u) {
      OutOfTail(u, d, n);
      assert Untouched(k, k1, u) && Untouched(k1, k', u);
    }
  }

  /** sysc_alloc_pages over its range: all pages are there at the end, or the first m where frames run out. */
  lemma {:induction false} AllocLoopGives(k: Space, d: User, n: nat) returns (m: nat)
    requires Acc(k) && d.pid != KERNEL
    ensures var r := AllocLoop(k, d, n);
            && (r.Mapped? || r.Failed?) && m <= n && (r.Mapped? <==> m == n)
            && RangeAllocated(k, r.k, d, m)
    decreases n
  {
    m := 0;
    if n == 0 {
      NoneAllocated(k, k, d);
    } else {
      AllocTurn(k, d);
      match AllocPage(k, d) {
        case Mapped(k1) =>
          m := AllocLoopGives(k1, Next(d, 1), n - 1);
          AllocatedOn(k, k1, AllocLoop(k, d, n).k, d, m + 1);
          m := m + 1;
        case Failed(k1) =>
          NoneAllocated(k, k1, d);
      }
    }
  }
}
