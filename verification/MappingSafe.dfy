/**
 What holds of page tables, counters and page frames whatever is mapped where: every present
 entry names a frame in use that is no page table, with at least as many owners as entries, and
 every counter is right.  Mappings into other processes and lost frames take nothing of it away.
 */
module MappingSafe {
  import opened BlockLists
  import opened Frames
  import opened Mapping
  import opened MappingInv
  import opened MappingRuns
  import opened MappingMoves

  /** Every present entry names a frame in use that is no page table. */
  ghost predicate Framed(k: Space) {
    Books(k) && forall u :: u in k.ent && k.ent[u].present ==> UserFrame(k, k.ent[u].frame)
  }

  /** No frame has fewer owners than present entries that name it. */
  ghost predicate EnoughOwners(k: Space) {
    forall f {:trigger Naming(k, f)} :: |Naming(k, f)| <= |Owners(k.b, f)|
  }

  /** Framed, and with enough owners where they are to be counted. */
  ghost predicate Orderly(k: Space, n: bool) {
    Framed(k) && (n ==> EnoughOwners(k))
  }

  ghost predicate Safe(k: Space) {
    Orderly(k, true)
  }

  lemma AccFramed(k: Space)
    requires Acc(k)
    ensures Framed(k)
  {
    AccBooks(k);
    forall u | u in k.ent && k.ent[u].present ensures UserFrame(k, k.ent[u].frame) {
      assert EntryOk(k, u) && TableOk(k, SlotOf(u));
      NotTable(k, k.ent[u].frame, u);
    }
  }

  /** An accounted state is safe. */
  lemma AccSafe(k: Space)
    requires Acc(k)
    ensures Safe(k)
  {
    AccFramed(k);
    forall f ensures |Naming(k, f)| <= |Owners(k.b, f)| {
      forall u | u in Naming(k, f) ensures u in Owners(k.b, f) { assert EntryOk(k, u); }
      ElemsSize(Owners(k.b, f));
      SubsetSmaller(Naming(k, f), Elems(Owners(k.b, f)));
    }
  }

  lemma {:induction false} ElemsSize(s: seq<User>)
    ensures |Elems(s)| <= |s|
  {
    if s == [] {
      assert Elems(s) == {};
    } else {
      ElemsSize(s[1..]);
      assert s == [s[0]] + s[1..];
      assert Elems(s) == Elems(s[1..]) + {s[0]};
    }
  }

  lemma SubsetSmaller(a: set<User>, b: set<User>)
    requires a <= b
    ensures |a| <= |b|
  {
    assert a + (b - a) == b;
  }

  // ---------------------------------------------------------------- who names a frame

  /** Present entries that stay present on their frames. */
  ghost predicate SameNames(ent: map<User, Entry>, ent': map<User, Entry>) {
    forall u :: (u in ent && ent[u].present) || (u in ent' && ent'[u].present) ==>
      u in ent && u in ent' && ent[u].present && ent'[u].present && ent'[u].frame == ent[u].frame
  }

  lemma SameNaming(k: Space, k': Space)
    requires SameNames(k.ent, k'.ent)
    ensures forall f :: Naming(k', f) == Naming(k, f)
  {
  }

  /** Page d, which was not present, names frame e.frame. */
  lemma MoreNaming(k: Space, k': Space, d: User, e: Entry, f: nat)
    requires !EntryOf(k, d).present && e.present && k'.ent == k.ent[d := e]
    ensures |Naming(k', f)| == |Naming(k, f)| + if f == e.frame then 1 else 0
  {
    assert Naming(k', f) == if f == e.frame then Naming(k, f) + {d} else Naming(k, f);
  }

  /** Page d, which was present, does not name its frame any more. */
  lemma LessNaming(k: Space, k': Space, d: User, e: Entry, f: nat)
    requires d in k.ent && k.ent[d].present && !e.present && k'.ent == Put(k.ent, d, e)
    ensures |Naming(k', f)| == |Naming(k, f)| - if f == k.ent[d].frame then 1 else 0
  {
    assert Naming(k', f) == if f == k.ent[d].frame then Naming(k, f) - {d} else Naming(k, f);
  }

  // ---------------------------------------------------------------- mapping

  lemma TableSafe(k: Space, s: Slot, n: bool)
    requires Orderly(k, n) && s.pid != KERNEL && GetTable(k, s).Some?
    ensures Orderly(GetTable(k, s).value, n)
  {
    var k1 := GetTable(k, s).value;
    TableBooks(k, s);
    forall u | u in k1.ent && k1.ent[u].present ensures UserFrame(k1, k1.ent[u].frame) { TableUserFrame(k, s, k1, k1.ent[u].frame); }
    SameNaming(k, k1);
    forall f | n ensures |Naming(k1, f)| <= |Owners(k1.b, f)| { assert |Naming(k, f)| <= |Owners(k.b, f)|; }
  }

  /** An entry changes its rights; it stays with its frame. */
  lemma RightsSafe(k: Space, u: User, e: Entry, n: bool)
    requires Orderly(k, n) && SlotOf(u) in k.tabs && (EntryOf(k, u).present <==> e.present) && (e.present ==> e.frame == EntryOf(k, u).frame)
    ensures Orderly(k.(ent := Put(k.ent, u, e)), n)
  {
    var k1 := k.(ent := Put(k.ent, u, e));
    RightsBooks(k, u, e);
    SameNaming(k, k1);
    forall f | n ensures |Naming(k1, f)| <= |Owners(k1.b, f)| { assert |Naming(k, f)| <= |Owners(k.b, f)|; }
  }

  /** An entry that root makes present names a frame in use that is no page table, and the source does not become present with it. */
  ghost predicate Fits(k: Space, s: User, d: User, fl: Flags, root: bool) {
    var e := EntryOf(k, s);
    Copies(k, s, d) && root && !e.present ==> !fl.cow && UserFrame(k, e.frame)
  }

  /** Page d becomes present on a frame that gets an owner more. */
  lemma PresentSafe(k: Space, b: Buffer, d: User, e: Entry, n: bool)
    requires Orderly(k, n) && SlotOf(d) in k.tabs && !EntryOf(k, d).present && e.present && UserFrame(k, e.frame)
    requires Zoned(b) && b.start == k.b.start && SameTables(k, b) && b.own.Keys == k.b.own.Keys
    requires forall f :: |Owners(b, f)| == |Owners(k.b, f)| + if f == e.frame then 1 else 0
    ensures Orderly(Count(k.(b := b), SlotOf(d), 1).(ent := k.ent[d := e]), n)
  {
    var k' := Count(k.(b := b), SlotOf(d), 1).(ent := k.ent[d := e]);
    PresentBooks(k, b, d, e);
    forall u | u in k'.ent && k'.ent[u].present ensures UserFrame(k', k'.ent[u].frame) {
      assert UserFrame(k, k'.ent[u].frame);
    }
    forall f | n ensures |Naming(k', f)| <= |Owners(k'.b, f)| {
      MoreNaming(k, k', d, e, f);
      assert |Naming(k, f)| <= |Owners(k.b, f)|;
    }
  }

  lemma WriteSafe(k: Space, b: Buffer, s: User, d: User, e: Entry, fl: Flags, n: bool)
    requires Orderly(k, n) && SlotOf(d) in k.tabs && s != d && EntryOf(k, d) == ZERO && e.present && UserFrame(k, e.frame)
    requires fl.cow ==> EntryOf(k, s).present && EntryOf(k, s).frame == e.frame
    requires Zoned(b) && b.start == k.b.start && SameTables(k, b) && b.own.Keys == k.b.own.Keys
    requires forall f :: |Owners(b, f)| == |Owners(k.b, f)| + if f == e.frame then 1 else 0
    ensures Orderly(WriteEntries(k.(b := b), s, d, e, fl), n)
  {
    var e' := if fl.cow then e.(cow := true, writable := false) else e;
    var k1 := if fl.cow then k.(ent := Put(k.ent, s, e')) else k;
    if fl.cow { RightsSafe(k, s, e', n); }
    PresentSafe(k1, b, d, e', n);
    assert WriteEntries(k.(b := b), s, d, e, fl) == Count(k1.(b := b), SlotOf(d), 1).(ent := k1.ent[d := e']);
  }

  lemma SafeFrame(k: Space, f: nat)
    requires Books(k) && UserFrame(k, f)
    ensures Counted(k.b, f) && forall t :: t in k.tabs ==> k.tabs[t] in k.b.own
  {
    forall t | t in k.tabs ensures k.tabs[t] in k.b.own { assert TableOk(k, t); }
  }

  lemma CopyEntrySafe(k: Space, s: User, d: User, fl: Flags, root: bool, cur: nat, n: bool)
    requires Orderly(k, n) && SlotOf(d) in k.tabs && Copies(k, s, d) && Fits(k, s, d, fl, root)
    ensures var r := CopyEntry(k, s, d, fl, root, cur); r.Mapped? || r.Failed? ==> Orderly(r.k, n)
  {
    var e, r := Granted(EntryOf(k, s), fl, root), CopyEntry(k, s, d, fl, root, cur);
    if r.Mapped? && e.present {
      assert UserFrame(k, e.frame);
      SafeFrame(k, e.frame);
      var b := AddOwner(k.b, e.frame, User(cur, d.adr)).b;
      AddOwnerZoned(k.b, e.frame, User(cur, d.adr));
      WriteSafe(k, b, s, d, e, fl, n);
    } else if r.Mapped? {
      var e' := if fl.cow then e.(cow := true, writable := false) else e;
      var k1 := if fl.cow then k.(ent := Put(k.ent, s, e')) else k;
      if fl.cow { RightsSafe(k, s, e', n); }
      RightsSafe(k1, d, e', n);
    }
  }

  /** The state in which the entry is copied. */
  lemma SafeBefore(k: Space, s: User, d: User, fl: Flags, root: bool, cur: nat, n: bool) returns (k2: Space)
    requires Orderly(k, n) && d.pid != KERNEL && Copies(k, s, d) && GetTable(k, SlotOf(d)).Some?
    requires MustCopy(k, s, fl) ==> CopyPage(GetTable(k, SlotOf(d)).value, s, cur).Mapped?
    ensures Orderly(k2, n) && SlotOf(d) in k2.tabs && Copies(k2, s, d) && (Fits(k2, s, d, fl, root) <==> Fits(k, s, d, fl, root))
    ensures MapPage(k, s, d, fl, root, cur) == CopyEntry(k2, s, d, fl, root, cur)
  {
    TableSafe(k, SlotOf(d), n);
    TableBooks(k, SlotOf(d));
    var k1 := GetTable(k, SlotOf(d)).value;
    FrameBefore(k, SlotOf(d), k1, EntryOf(k, s).frame);
    k2 := k1;
    if MustCopy(k, s, fl) {
      k2 := CopyPage(k1, s, cur).k;
      RightsSafe(k1, s, Unshared(EntryOf(k1, s)), n);
      FrameAlike(k1, k2, EntryOf(k, s).frame);
    }
  }

  lemma FrameAlike(k: Space, k': Space, f: nat)
    requires k'.tabs == k.tabs && k'.b == k.b
    ensures UserFrame(k', f) <==> UserFrame(k, f)
  {
  }

  /** A new page table takes a frame that was not in use. */
  lemma FrameBefore(k: Space, s: Slot, k1: Space, f: nat)
    requires Zoned(k.b) && GetTable(k, s) == Some(k1)
    ensures UserFrame(k1, f) <==> UserFrame(k, f)
  {
    if s !in k.tabs {
      AllocKernelZoned(k.b);
      assert s in k1.tabs && forall t :: t in k.tabs ==> t in k1.tabs && k1.tabs[t] == k.tabs[t];
    }
  }

  lemma MapPageSafe(k: Space, s: User, d: User, fl: Flags, root: bool, cur: nat, n: bool)
    requires Orderly(k, n) && d.pid != KERNEL && Fits(k, s, d, fl, root)
    ensures var r := MapPage(k, s, d, fl, root, cur); r.Mapped? || r.Failed? ==> Orderly(r.k, n)
  {
    if GetTable(k, SlotOf(d)).Some? {
      var k1 := GetTable(k, SlotOf(d)).value;
      TableSafe(k, SlotOf(d), n);
      TableBooks(k, SlotOf(d));
      if Copies(k, s, d) && (MustCopy(k, s, fl) ==> CopyPage(k1, s, cur).Mapped?) {
        var k2 := SafeBefore(k, s, d, fl, root, cur, n);
        CopyEntrySafe(k2, s, d, fl, root, cur, n);
      }
    }
  }

  /** A mapping that does not fit leaves an entry that names no frame in use, or a counter that is too low. */
  lemma CopyEntryUnsafe(k: Space, s: User, d: User, fl: Flags, root: bool, cur: nat)
    requires Safe(k) && SlotOf(d) in k.tabs && Copies(k, s, d) && !Fits(k, s, d, fl, root) && CopyEntry(k, s, d, fl, root, cur).Mapped?
    ensures !Safe(CopyEntry(k, s, d, fl, root, cur).k)
  {
    var e, k' := Granted(EntryOf(k, s), fl, root), CopyEntry(k, s, d, fl, root, cur).k;
    CopyEntryLeaves(k, s, d, fl, root, cur);
    if fl.cow {
      Uncounted(k, k', s, d);
    } else {
      assert !UserFrame(k', e.frame);
    }
  }

  /** What a mapping by root that makes its entry present leaves. */
  lemma CopyEntryLeaves(k: Space, s: User, d: User, fl: Flags, root: bool, cur: nat)
    requires Copies(k, s, d) && root && CopyEntry(k, s, d, fl, root, cur).Mapped?
    ensures var (e, k') := (EntryOf(k, s), CopyEntry(k, s, d, fl, root, cur).k);
            && s != d && k'.tabs == k.tabs && (UserFrame(k', e.frame) ==> UserFrame(k, e.frame))
            && d in k'.ent && k'.ent[d].present && k'.ent[d].frame == e.frame
            && k'.cnt == k.cnt[SlotOf(d) := Cnt(k, SlotOf(d)) + 1]
            && (fl.cow ==> s in k'.ent && k'.ent[s].present && forall u :: u != s && u != d ==> EntryOf(k', u) == EntryOf(k, u))
  {
  }

  /** Two pages have become present, and one has been counted. */
  lemma Uncounted(k: Space, k': Space, s: User, d: User)
    requires Books(k) && s != d && !EntryOf(k, s).present && EntryOf(k, d) == ZERO
    requires s in k'.ent && k'.ent[s].present && d in k'.ent && k'.ent[d].present
    requires forall u :: u != s && u != d ==> EntryOf(k', u) == EntryOf(k, u)
    requires k'.cnt == k.cnt[SlotOf(d) := Cnt(k, SlotOf(d)) + 1]
    ensures !TableOk(k', SlotOf(s))
  {
    var t := SlotOf(s);
    assert TableOk(k, t);
    forall u | u != s && u != d ensures u in PresentIn(k'.ent, t) <==> u in PresentIn(k.ent, t) {
      assert EntryOf(k', u) == EntryOf(k, u);
    }
    assert PresentIn(k'.ent, t) == PresentIn(k.ent, t) + (if t == SlotOf(d) then {s, d} else {s});
  }

  /** A mapping, by whatever caller and into whatever process, leaves a safe state if and only if it fits. */
  lemma MapPageSafeIff(k: Space, s: User, d: User, fl: Flags, root: bool, cur: nat)
    requires Safe(k) && d.pid != KERNEL && MapPage(k, s, d, fl, root, cur).Mapped?
    ensures Safe(MapPage(k, s, d, fl, root, cur).k) <==> Fits(k, s, d, fl, root)
  {
    if Fits(k, s, d, fl, root) {
      MapPageSafe(k, s, d, fl, root, cur, true);
    } else {
      var k2 := SafeBefore(k, s, d, fl, root, cur, true);
      CopyEntryUnsafe(k2, s, d, fl, root, cur);
    }
  }

  /** Every page that the loop of sysc_map maps fits. */
  ghost predicate MapFits(k: Space, s: User, d: User, pages: nat, fl: Flags, root: bool, cur: nat)
    decreases pages
  {
    pages > 0 ==>
      if SlotOf(s) !in k.tabs then pages - 1 >= 1024 ==> MapFits(k, Next(s, 1024), Next(d, 1024), pages - 1 - 1024, fl, root, cur)
      else match MapPage(k, s, d, fl, root, cur)
           case Mapped(k1) => Fits(k, s, d, fl, root) && MapFits(k1, Next(s, 1), Next(d, 1), pages - 1, fl, root, cur)
           case _ => true
  }

  /** What a process other than root maps always fits. */
  lemma {:induction false} UserFits(k: Space, s: User, d: User, pages: nat, fl: Flags, cur: nat)
    ensures MapFits(k, s, d, pages, fl, false, cur)
    decreases pages
  {
    if pages > 0 {
      if SlotOf(s) !in k.tabs {
        if pages - 1 >= 1024 { UserFits(k, Next(s, 1024), Next(d, 1024), pages - 1 - 1024, fl, cur); }
      } else {
        match MapPage(k, s, d, fl, false, cur) {
          case Mapped(k1) => UserFits(k1, Next(s, 1), Next(d, 1), pages - 1, fl, cur);
          case _ =>
        }
      }
    }
  }

  lemma {:induction false} MapLoopSafe(k: Space, s: User, d: User, pages: nat, fl: Flags, root: bool, cur: nat, n: bool)
    requires Orderly(k, n) && d.pid != KERNEL && MapFits(k, s, d, pages, fl, root, cur)
    ensures var r := MapLoop(k, s, d, pages, fl, root, cur); r.Mapped? || r.Failed? ==> Orderly(r.k, n)
    decreases pages
  {
    if pages > 0 {
      if SlotOf(s) !in k.tabs {
        if pages - 1 >= 1024 { MapLoopSafe(k, Next(s, 1024), Next(d, 1024), pages - 1 - 1024, fl, root, cur, n); }
      } else {
        match MapPage(k, s, d, fl, root, cur) {
          case Mapped(k1) =>
            MapPageSafe(k, s, d, fl, root, cur, n);
            MapLoopSafe(k1, Next(s, 1), Next(d, 1), pages - 1, fl, root, cur, n);
          case Failed(k1) => MapFailSafe(k, s, d, fl, root, cur, n);
          case _ =>
        }
      }
    }
  }

  /** Framed alone is kept too, where owners may be missing. */
  lemma MapLoopFramed(k: Space, s: User, d: User, pages: nat, fl: Flags, root: bool, cur: nat)
    requires Framed(k) && d.pid != KERNEL && MapFits(k, s, d, pages, fl, root, cur)
    ensures var r := MapLoop(k, s, d, pages, fl, root, cur); r.Mapped? || r.Failed? ==> Framed(r.k)
  {
    MapLoopSafe(k, s, d, pages, fl, root, cur, false);
  }

  /** A mapping that fails leaves a safe state, whether or not it would have fitted. */
  lemma MapFailSafe(k: Space, s: User, d: User, fl: Flags, root: bool, cur: nat, n: bool)
    requires Orderly(k, n) && d.pid != KERNEL && MapPage(k, s, d, fl, root, cur).Failed?
    ensures Orderly(MapPage(k, s, d, fl, root, cur).k, n)
  {
    TableSafe(k, SlotOf(d), n);
    TableBooks(k, SlotOf(d));
    var k1 := GetTable(k, SlotOf(d)).value;
    if MustCopy(k, s, fl) && CopyPage(k1, s, cur).Mapped? { var k2 := SafeBefore(k, s, d, fl, root, cur, n); }
  }

  // ---------------------------------------------------------------- unmapping

  /** The owners that a frame has after page d has given up frame f. */
  lemma FreedSizes(k: Space, f: nat, d: User)
    requires Books(k) && d.pid != KERNEL && FreeUser(k.b, f, d).Done?
    ensures var b := FreeUser(k.b, f, d).b;
            && (forall g :: g != f ==> Owners(b, g) == Owners(k.b, g) && (g in b.own <==> g in k.b.own))
            && |Owners(b, f)| >= |Owners(k.b, f)| - 1 && (|Owners(k.b, f)| >= 2 ==> f in b.own)
  {
  }

  /** Page d ceases to be present. */
  lemma AbsentSafe(k: Space, d: User, e: Entry)
    requires Safe(k) && d in k.ent && k.ent[d].present && !e.present && d.pid != KERNEL
    requires FreeUser(k.b, k.ent[d].frame, d).Done?
    ensures Safe(Count(k.(b := FreeUser(k.b, k.ent[d].frame, d).b, ent := Put(k.ent, d, e)), SlotOf(d), -1))
  {
    var f := k.ent[d].frame;
    var k' := Count(k.(b := FreeUser(k.b, f, d).b, ent := Put(k.ent, d, e)), SlotOf(d), -1);
    AbsentBooks(k, d, e);
    FreedSizes(k, f, d);
    forall u | u in k'.ent && k'.ent[u].present ensures UserFrame(k', k'.ent[u].frame) {
      assert UserFrame(k, k.ent[u].frame);
      if k.ent[u].frame == f { TwoNaming(k, f, u, d); }
    }
    forall g ensures |Naming(k', g)| <= |Owners(k'.b, g)| {
      LessNaming(k, k', d, e, g);
      assert |Naming(k, g)| <= |Owners(k.b, g)|;
    }
  }

  lemma TwoNaming(k: Space, f: nat, u: User, d: User)
    requires EnoughOwners(k) && u in Naming(k, f) && d in Naming(k, f) && u != d
    ensures |Owners(k.b, f)| >= 2
  {
    SubsetSmaller({u, d}, Naming(k, f));
  }

  /** A table without present entries can go. */
  lemma DropTableSafe(k: Space, s: Slot)
    requires Safe(k) && Cnt(k, s) == 0
    ensures Safe(DropTable(k, s))
  {
    if s in k.tabs {
      var k' := DropTable(k, s);
      DropTableBooks(k, s);
      assert TableOk(k, s) && PresentIn(k.ent, s) == {};
      FreeKernelZoned(k.b, k.tabs[s]);
      DropNames(k, s);
      SameNaming(k, k');
      forall u | u in k'.ent && k'.ent[u].present ensures UserFrame(k', k'.ent[u].frame) {
        assert UserFrame(k, k.ent[u].frame);
      }
      forall f ensures |Naming(k', f)| <= |Owners(k'.b, f)| {
        assert |Naming(k, f)| <= |Owners(k.b, f)|;
        if f == k.tabs[s] { TableUnnamed(k, s); }
      }
    }
  }

  lemma DropNames(k: Space, s: Slot)
    requires PresentIn(k.ent, s) == {}
    ensures SameNames(k.ent, DropTable(k, s).ent)
  {
    forall u | u in k.ent && k.ent[u].present ensures SlotOf(u) != s {
      assert u in PresentIn(k.ent, SlotOf(u));
    }
  }

  /** No entry names the frame of a page table. */
  lemma TableUnnamed(k: Space, s: Slot)
    requires Framed(k) && s in k.tabs
    ensures Naming(k, k.tabs[s]) == {}
  {
    forall u | u in k.ent && k.ent[u].present ensures k.ent[u].frame != k.tabs[s] { assert UserFrame(k, k.ent[u].frame); }
  }

  lemma MaskedSafe(k: Space, d: User, flag: UnmapFlag)
    requires Safe(k) && (flag.Complete? ==> !EntryOf(k, d).present)
    ensures Safe(Masked(k, d, flag))
  {
    if SlotOf(d) in k.tabs && !flag.Available? {
      RightsSafe(k, d, if flag.Complete? then ZERO else EntryOf(k, d).(writable := false), true);
    }
  }

  lemma UnmapPageSafe(k: Space, d: User, flag: UnmapFlag, free: bool)
    requires Safe(k) && d.pid != KERNEL
    ensures var r := UnmapPage(k, d, flag, free); r.Unmapped? ==> Safe(r.k)
  {
    var e := EntryOf(k, d);
    if flag.Write? || !e.present {
      MaskedSafe(k, d, flag);
    } else if UnmapPage(k, d, flag, free).Unmapped? {
      var e' := if flag.Complete? then ZERO else e.(present := false);
      var k2 := Count(k.(b := FreeUser(k.b, e.frame, d).b, ent := Put(k.ent, d, e')), SlotOf(d), -1);
      AbsentSafe(k, d, e');
      if Cnt(k2, SlotOf(d)) == 0 { DropTableSafe(k2, SlotOf(d)); }
      MaskedSafe(Absent(k.(b := FreeUser(k.b, e.frame, d).b), d, flag), d, flag);
    }
  }

  lemma {:induction false} UnmapLoopSafe(k: Space, d: User, pages: nat, flag: UnmapFlag, free: bool, at: int)
    requires Safe(k) && d.pid != KERNEL
    ensures var r := UnmapLoop(k, d, pages, flag, free, at); !r.Dead? ==> Safe(r.k)
    decreases pages
  {
    if pages > 0 {
      if SlotOf(d).n != at && SlotOf(d) !in k.tabs {
        if pages - 1 >= 1024 { UnmapLoopSafe(k, Next(d, 1024), pages - 1 - 1024, flag, free, SlotOf(d).n); }
      } else {
        UnmapPageSafe(k, d, flag, free);
        match UnmapPage(k, d, flag, free) {
          case Unmapped(k1) => UnmapLoopSafe(k1, Next(d, 1), pages - 1, flag, free, SlotOf(d).n);
          case _ =>
        }
      }
    }
  }

  // ---------------------------------------------------------------- allocating

  /** Other owners of frames that no entry names and that are no page tables. */
  lemma BufferSafe(k: Space, b: Buffer, f: nat)
    requires Safe(k) && Zoned(b) && b.start == k.b.start && Naming(k, f) == {} && NotTab(k, f)
    requires forall g :: g != f ==> (g in b.own <==> g in k.b.own) && Owners(b, g) == Owners(k.b, g)
    ensures Safe(k.(b := b))
  {
    var k' := k.(b := b);
    forall t ensures TableOk(k', t) {
      assert TableOk(k, t);
      if t in k.tabs { assert Owners(b, k.tabs[t]) == Owners(k.b, k.tabs[t]); }
    }
    SameNaming(k, k');
    forall u | u in k'.ent && k'.ent[u].present ensures UserFrame(k', k'.ent[u].frame) {
      assert UserFrame(k, k'.ent[u].frame);
      assert u in Naming(k, k'.ent[u].frame);
    }
    forall g ensures |Naming(k', g)| <= |Owners(k'.b, g)| { assert |Naming(k, g)| <= |Owners(k.b, g)|; }
  }

  /** A frame not in use is named by no entry and by no table. */
  lemma FreshUnnamed(k: Space, f: nat)
    requires Safe(k) && f !in k.b.own
    ensures Naming(k, f) == {} && NotTab(k, f)
  {
    assert |Naming(k, f)| <= |Owners(k.b, f)|;
    forall t | t in k.tabs ensures k.tabs[t] != f { assert TableOk(k, t); }
  }

  /** sysc_alloc_pages leaves a safe state, also where it loses a frame. */
  lemma AllocPageSafe(k: Space, d: User)
    requires Safe(k) && d.pid != KERNEL
    ensures var r := AllocPage(k, d); (r.Mapped? || r.Failed?) && Safe(r.k)
  {
    if AllocUser(k.b, d).Some? {
      var (b, f) := AllocUser(k.b, d).value;
      AllocUserZoned(k.b, d);
      FreshUnnamed(k, f);
      BufferSafe(k, b, f);
      if GetTable(k.(b := b), SlotOf(d)).Some? { TakenSafe(k.(b := b), d, f); }
    }
  }

  /** The frame that has been taken for page d gets its entry, or goes back. */
  lemma TakenSafe(k: Space, d: User, f: nat)
    requires Safe(k) && d.pid != KERNEL && GetTable(k, SlotOf(d)).Some? && Naming(k, f) == {} && NotTab(k, f) && f in k.b.own && k.b.own[f] == [d]
    ensures var k1 := GetTable(k, SlotOf(d)).value;
            Safe(if EntryOf(k1, d).present then k1.(b := FreeKernel(k1.b, f))
                 else Count(k1, SlotOf(d), 1).(ent := k1.ent[d := Entry(f, true, true, true, false, false)]))
  {
    var k1 := GetTable(k, SlotOf(d)).value;
    TableSafe(k, SlotOf(d), true);
    TableBooks(k, SlotOf(d));
    TableUserFrame(k, SlotOf(d), k1, f);
    SameNaming(k, k1);
    if EntryOf(k1, d).present {
      FreeKernelZoned(k1.b, f);
      BufferSafe(k1, FreeKernel(k1.b, f), f);
    } else {
      var e := Entry(f, true, true, true, false, false);
      var k2 := Count(k1, SlotOf(d), 1).(ent := k1.ent[d := e]);
      SafeFrame(k1, f);
      PresentBooks(k1, k1.b, d, e);
      forall u | u in k2.ent && k2.ent[u].present ensures UserFrame(k2, k2.ent[u].frame) {
        assert UserFrame(k1, k2.ent[u].frame);
      }
      forall g ensures |Naming(k2, g)| <= |Owners(k2.b, g)| {
        MoreNaming(k1, k2, d, e, g);
        assert |Naming(k1, g)| <= |Owners(k1.b, g)|;
      }
    }
  }

  lemma {:induction false} AllocLoopSafe(k: Space, d: User, pages: nat)
    requires Safe(k) && d.pid != KERNEL
    ensures var r := AllocLoop(k, d, pages); (r.Mapped? || r.Failed?) && Safe(r.k)
    decreases pages
  {
    if pages > 0 {
      AllocPageSafe(k, d);
      match AllocPage(k, d) {
        case Mapped(k1) => AllocLoopSafe(k1, Next(d, 1), pages - 1);
        case _ =>
      }
    }
  }

  // ---------------------------------------------------------------- calls and runs

  /** Every page that the call maps fits. */
  ghost predicate CallFits(k: Space, c: Call, who: Caller) {
    && (c.MapCall? ==> MapFits(k, c.s, c.d, c.pages, c.fl, who.root, who.pid))
    && (c.MoveCall? ==> MapFits(k, User(who.pid, c.adr), c.d, c.pages, c.fl, who.root, who.pid))
  }

  /** Calls of processes other than root always fit. */
  lemma UserCallFits(k: Space, c: Call, who: Caller)
    requires !who.root
    ensures CallFits(k, c, who)
  {
    if c.MapCall? { UserFits(k, c.s, c.d, c.pages, c.fl, who.pid); }
    if c.MoveCall? { UserFits(k, User(who.pid, c.adr), c.d, c.pages, c.fl, who.pid); }
  }

  lemma StepSafe(k: Space, c: Call, who: Caller)
    requires Safe(k) && ForUsers(c, who) && CallFits(k, c, who) && Do(k, c, who).Some?
    ensures Safe(Do(k, c, who).value)
  {
    match c {
      case MapCall(s, d, pages, fl) => MapLoopSafe(k, s, d, pages, fl, who.root, who.pid, true);
      case UnmapCall(d, pages, flag, free) => UnmapLoopSafe(k, d, pages, flag, free, -1);
      case MoveCall(adr, d, pages, fl, free) =>
        var s := User(who.pid, adr);
        MapLoopSafe(k, s, d, pages, fl, who.root, who.pid, true);
        match MapLoop(k, s, d, pages, fl, who.root, who.pid) {
          case Mapped(k1) => UnmapLoopSafe(k1, s, pages, Complete, free, -1);
          case _ =>
        }
      case AllocCall(d, pages) => AllocLoopSafe(k, d, pages);
    }
  }

  /** Every call of the run fits. */
  ghost predicate AllFit(k: Space, cs: seq<(Call, Caller)>)
    decreases |cs|
  {
    cs == [] ||
    (CallFits(k, cs[0].0, cs[0].1) && var r := Do(k, cs[0].0, cs[0].1); r.Some? ==> AllFit(r.value, cs[1..]))
  }

  lemma {:induction false} UsersFit(k: Space, cs: seq<(Call, Caller)>)
    requires forall c :: c in cs ==> !c.1.root
    ensures AllFit(k, cs)
    decreases |cs|
  {
    if cs != [] {
      assert cs[0] in cs;
      UserCallFits(k, cs[0].0, cs[0].1);
      if Do(k, cs[0].0, cs[0].1).Some? { UsersFit(Do(k, cs[0].0, cs[0].1).value, cs[1..]); }
    }
  }

  lemma {:induction false} RunSafe(k: Space, cs: seq<(Call, Caller)>, k': Space)
    requires Safe(k) && Reaches(k, cs, k') && AllFit(k, cs) && forall c :: c in cs ==> ForUsers(c.0, c.1)
    ensures Safe(k')
    decreases |cs|
  {
    if cs != [] {
      assert cs[0] in cs;
      StepSafe(k, cs[0].0, cs[0].1);
      RunSafe(Do(k, cs[0].0, cs[0].1).value, cs[1..], k');
    }
  }

  /**
   Over every run from a safe state of calls between whatever processes, mappings of present pages into another
   process and allocations that lose a frame included: every counter is the number of present
   entries of its table, a frame is in use exactly when it is on no stack, and every present entry
   names a frame in use that is no page table, with at least as many owners as entries name it.
   */
  lemma RunCounts(k: Space, cs: seq<(Call, Caller)>, k': Space, s: Slot, f: nat, u: User)
    requires Safe(k) && Reaches(k, cs, k') && AllFit(k, cs) && forall c :: c in cs ==> ForUsers(c.0, c.1)
    ensures Cnt(k', s) == |PresentIn(k'.ent, s)|
    ensures IsFrame(k'.b, f) ==> (f in k'.b.own <==> f !in k'.b.normal && f !in k'.b.high)
    ensures |Naming(k', f)| <= |Owners(k'.b, f)|
    ensures EntryOf(k', u).present ==>
              var g := EntryOf(k', u).frame;
              && g in k'.b.own && g !in k'.b.normal && g !in k'.b.high
              && (forall t :: t in k'.tabs ==> k'.tabs[t] != g)
              && 0 < |Naming(k', g)| <= |Owners(k'.b, g)|
  {
    RunSafe(k, cs, k');
    assert TableOk(k', s);
    if EntryOf(k', u).present {
      var g := EntryOf(k', u).frame;
      assert UserFrame(k', g) && u in Naming(k', g);
    }
  }

  /** The same for the runs of processes other than root, of which nothing more is asked. */
  lemma UserRunCounts(k: Space, cs: seq<(Call, Caller)>, k': Space)
    requires Safe(k) && Reaches(k, cs, k') && forall c :: c in cs ==> ForUsers(c.0, c.1) && !c.1.root
    ensures Safe(k') && forall s :: Cnt(k', s) == |PresentIn(k'.ent, s)|
  {
    UsersFit(k, cs);
    RunSafe(k, cs, k');
    forall s ensures Cnt(k', s) == |PresentIn(k'.ent, s)| { assert TableOk(k', s); }
  }

  /** After every such run pages can be unmapped and moved: what the loops rely on holds. */
  lemma MoveCallable(k: Space, s: User, d: User, pages: nat, fl: Flags, root: bool, cur: nat)
    requires Framed(k) && d.pid != KERNEL && MapFits(k, s, d, pages, fl, root, cur)
    ensures Books(k)
    ensures MapLoop(k, s, d, pages, fl, root, cur).Mapped? ==> Books(MapLoop(k, s, d, pages, fl, root, cur).k)
  {
    MapLoopFramed(k, s, d, pages, fl, root, cur);
  }
}
