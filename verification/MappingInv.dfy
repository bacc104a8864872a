/**
 The accounting invariant of the page tables and what each step of the mapping functions does
 to it: allocating and unmapping always keep it, and mapping keeps it exactly when the owner
 that is entered is the process that gets the entry.
 */
module MappingInv {
  import opened BlockLists
  import opened Frames
  import opened Mapping

  // ---------------------------------------------------------------- elementary changes

  /** A new, empty page table. */
  lemma NewTableAcc(k: Space, s: Slot)
    requires Acc(k) && s.pid != KERNEL && GetTable(k, s).Some?
    ensures var k1 := GetTable(k, s).value;
            && Acc(k1) && s in k1.tabs && k1.ent == k.ent && k1.cnt == k.cnt && k1.b.start == k.b.start && k1.b.size == k.b.size
            && (forall f :: f in k.b.own ==> f in k1.b.own && k1.b.own[f] == k.b.own[f])
            && (forall t :: t in k.tabs ==> t in k1.tabs && k1.tabs[t] == k.tabs[t])
  {
    if s !in k.tabs {
      AllocKernelZoned(k.b);
      TableAcc(k, GetTable(k, s).value, s, AllocKernel(k.b).value.1);
    }
  }

  lemma TableAcc(k: Space, k1: Space, s: Slot, f: nat)
    requires Acc(k) && s.pid != KERNEL && s !in k.tabs && f !in k.b.own
    requires Zoned(k1.b) && k1.b.start == k.b.start && k1.b.own == k.b.own[f := [User(KERNEL, f + VAS_KERNEL_START)]]
    requires k1.tabs == k.tabs[s := f] && k1.ent == k.ent && k1.cnt == k.cnt
    ensures Acc(k1)
  {
    forall u ensures EntryOk(k1, u) { assert EntryOk(k, u); }
    forall g ensures OwnerOk(k1, g) { assert OwnerOk(k, g); }
    forall t ensures TableOk(k1, t) { assert TableOk(k, t); }
    forall t, t' | t in k1.tabs && t' in k1.tabs && t != t' ensures k1.tabs[t] != k1.tabs[t'] {
      assert TableOk(k, t) && TableOk(k, t');
    }
  }

  lemma BufferAcc(k: Space, b: Buffer)
    requires Acc(k) && Zoned(b) && b.start == k.b.start && b.own == k.b.own
    ensures Acc(k.(b := b))
  {
    var k1 := k.(b := b);
    forall u ensures EntryOk(k1, u) { assert EntryOk(k, u); }
    forall g ensures OwnerOk(k1, g) { assert OwnerOk(k, g); }
    forall t ensures TableOk(k1, t) { assert TableOk(k, t); }
  }

  /** An entry changes its rights, or is not present before and after. */
  lemma RightsAcc(k: Space, u: User, e: Entry)
    requires Acc(k) && SlotOf(u) in k.tabs
    requires if EntryOf(k, u).present then e.present && e.frame == EntryOf(k, u).frame else !e.present
    ensures Acc(k.(ent := Put(k.ent, u, e)))
  {
    var k' := k.(ent := Put(k.ent, u, e));
    forall v ensures EntryOk(k', v) { assert EntryOk(k, v) && EntryOk(k, u); }
    forall f ensures OwnerOk(k', f) { assert OwnerOk(k, f); }
    forall t ensures TableOk(k', t) {
      assert TableOk(k, t);
      assert PresentIn(k'.ent, t) == PresentIn(k.ent, t);
    }
  }

  lemma NotTable(k: Space, f: nat, u: User)
    requires Acc(k) && f in k.b.own && u in k.b.own[f] && u.pid != KERNEL
    ensures forall s :: s in k.tabs ==> k.tabs[s] != f
  {
    forall s | s in k.tabs ensures k.tabs[s] != f {
      assert TableOk(k, s);
    }
  }

  /** Page d becomes present, and an owner of the frame its entry names. */
  lemma PresentAcc(k: Space, b: Buffer, d: User, e: Entry)
    requires Acc(k) && SlotOf(d) in k.tabs && d.pid != KERNEL && !EntryOf(k, d).present && e.present
    requires Zoned(b) && b.start == k.b.start && b.own == k.b.own[e.frame := [d] + Owners(k.b, e.frame)]
    requires forall s :: s in k.tabs ==> k.tabs[s] != e.frame
    ensures Acc(Count(k.(b := b), SlotOf(d), 1).(ent := k.ent[d := e]))
  {
    var k' := Count(k.(b := b), SlotOf(d), 1).(ent := k.ent[d := e]);
    assert OwnerOk(k, e.frame) && EntryOk(k, d);
    assert d !in Owners(k.b, e.frame);
    forall u ensures EntryOk(k', u) { assert EntryOk(k, u); }
    PresentOwners(k, k', d, e);
    forall t ensures TableOk(k', t) {
      assert TableOk(k, t);
      PresentMore(k.ent, d, e, t);
    }
  }

  lemma PresentOwners(k: Space, k': Space, d: User, e: Entry)
    requires (forall f :: OwnerOk(k, f)) && !EntryOf(k, d).present && e.present && d !in Owners(k.b, e.frame)
    requires k'.ent == k.ent[d := e] && k'.b.own == k.b.own[e.frame := [d] + Owners(k.b, e.frame)]
    ensures forall f :: OwnerOk(k', f)
  {
    forall f ensures OwnerOk(k', f) { assert OwnerOk(k, f); }
  }

  lemma PresentMore(ent: map<User, Entry>, d: User, e: Entry, t: Slot)
    requires e.present && (d in ent ==> !ent[d].present)
    ensures |PresentIn(ent[d := e], t)| == |PresentIn(ent, t)| + if t == SlotOf(d) then 1 else 0
  {
    assert PresentIn(ent[d := e], t) == if t == SlotOf(d) then PresentIn(ent, t) + {d} else PresentIn(ent, t);
  }

  lemma {:induction false} DropMembers(s: seq<User>, u: User)
    requires NoDup(s)
    ensures NoDup(Drop(s, u)) && forall v :: v in Drop(s, u) <==> v in s && v != u
  {
    if s != [] {
      assert s == [s[0]] + s[1..];
      DropMembers(s[1..], u);
      if s[0] != u {
        var t := Drop(s[1..], u);
        assert s[0] !in t;
        forall i, j | 0 <= i < j < |Drop(s, u)| ensures Drop(s, u)[i] != Drop(s, u)[j] {
          assert Drop(s, u)[j] == t[j - 1] && t[j - 1] in t;
        }
      }
    }
  }

  /** The owners after u has given up frame f. */
  lemma FreedOwners(k: Space, f: nat, u: User)
    requires Acc(k) && f in k.b.own && u in k.b.own[f] && FreeUser(k.b, f, u).Done?
    ensures var b := FreeUser(k.b, f, u).b;
            && Zoned(b) && b.start == k.b.start && b.size == k.b.size
            && (forall g :: g != f ==> (g in b.own <==> g in k.b.own) && (g in b.own ==> b.own[g] == k.b.own[g]))
            && (f in b.own <==> |k.b.own[f]| > 1)
            && (f in b.own ==> NoDup(b.own[f]) && forall v :: v in b.own[f] <==> v in k.b.own[f] && v != u)
  {
    assert OwnerOk(k, f);
    FreeUserZoned(k.b, f, u);
    DropMembers(k.b.own[f], u);
  }

  /** Page d ceases to be present and an owner; its table is still there. */
  lemma AbsentAcc(k: Space, d: User, e: Entry)
    requires Acc(k) && d in k.ent && k.ent[d].present && !e.present && d.pid != KERNEL
    requires FreeUser(k.b, k.ent[d].frame, d).Done?
    ensures Acc(Count(k.(b := FreeUser(k.b, k.ent[d].frame, d).b, ent := Put(k.ent, d, e)), SlotOf(d), -1))
  {
    var f := k.ent[d].frame;
    assert EntryOk(k, d);
    FreedOwners(k, f, d);
    var k' := Count(k.(b := FreeUser(k.b, f, d).b, ent := Put(k.ent, d, e)), SlotOf(d), -1);
    assert OwnerOk(k, f);
    forall u ensures EntryOk(k', u) {
      assert EntryOk(k, u);
      if u in k'.ent && u != d && k.ent[u].present && k.ent[u].frame == f { TwoOwners(k.b.own[f], u, d); }
    }
    forall g ensures OwnerOk(k', g) { assert OwnerOk(k, g); }
    NotTable(k, f, d);
    forall t ensures TableOk(k', t) {
      assert TableOk(k, t);
      assert PresentIn(k'.ent, t) == if t == SlotOf(d) then PresentIn(k.ent, t) - {d} else PresentIn(k.ent, t);
    }
  }

  lemma TwoOwners(s: seq<User>, u: User, v: User)
    requires u in s && v in s && u != v
    ensures |s| > 1
  {
  }

  lemma EntryNotTable(k: Space, u: User, s: Slot)
    requires Acc(k) && u in k.ent && s in k.tabs
    ensures k.ent[u].present ==> k.ent[u].frame != k.tabs[s]
  {
    assert EntryOk(k, u) && TableOk(k, SlotOf(u)) && TableOk(k, s);
  }

  /** A table without present entries can go. */
  lemma DropTableAcc(k: Space, s: Slot)
    requires Acc(k) && Cnt(k, s) == 0
    ensures Acc(DropTable(k, s)) && s !in DropTable(k, s).tabs
  {
    if s in k.tabs {
      var k' := DropTable(k, s);
      assert TableOk(k, s) && PresentIn(k.ent, s) == {};
      FreeKernelZoned(k.b, k.tabs[s]);
      forall u ensures EntryOk(k', u) {
        assert EntryOk(k, u);
        if u in k.ent { EntryNotTable(k, u, s); }
      }
      forall f ensures OwnerOk(k', f) {
        assert OwnerOk(k, f);
        if f in k'.b.own {
          forall u | u in k.b.own[f] && u.pid != KERNEL ensures u in k'.ent {
            assert u in k.ent && (SlotOf(u) == s ==> u in PresentIn(k.ent, s));
          }
        }
      }
      forall t ensures TableOk(k', t) {
        assert TableOk(k, t);
        assert PresentIn(k'.ent, t) == if t == s then {} else PresentIn(k.ent, t);
      }
    }
  }

  // ---------------------------------------------------------------- mapping

  /** Page s has an entry and page d has none: the entry is copied. */
  ghost predicate Copies(k: Space, s: User, d: User) {
    EntryOf(k, s) != ZERO && EntryOf(k, d) == ZERO
  }

  /** A frame in use that is no page table. */
  ghost predicate UserFrame(k: Space, f: nat) {
    f in k.b.own && forall t :: t in k.tabs ==> k.tabs[t] != f
  }

  /**
   The owner entered for the new entry is the one that has it.  An entry that root makes present
   names a frame in use, and the source does not become present with it.
   */
  ghost predicate Accounted(k: Space, s: User, d: User, fl: Flags, root: bool, cur: nat) {
    var e := EntryOf(k, s);
    Copies(k, s, d) && (e.present || root) ==> d.pid == cur && (e.present || (!fl.cow && UserFrame(k, e.frame)))
  }

  /** The entry names a frame that does not list its page as an owner. */
  ghost predicate Torn(k: Space, u: User) {
    u in k.ent && k.ent[u].present && u.pid != KERNEL && u !in Owners(k.b, k.ent[u].frame)
  }

  /** The frame of a page table has got another owner. */
  ghost predicate TornTable(k: Space, t: Slot) {
    Zoned(k.b) && t in k.tabs && |Owners(k.b, k.tabs[t])| >= 2
  }

  /** Damage to the accounting that no mapping to process pid by process cur repairs. */
  ghost predicate Damaged(k: Space, pid: nat, cur: nat) {
    (exists u :: Torn(k, u) && (pid == cur || u.pid != cur)) || (pid == cur && exists t :: TornTable(k, t))
  }

  lemma DamagedBreaks(k: Space, pid: nat, cur: nat)
    requires Damaged(k, pid, cur)
    ensures !Acc(k)
  {
    if u :| Torn(k, u) {
      assert !EntryOk(k, u);
    } else {
      var t :| TornTable(k, t);
      assert !TableOk(k, t);
    }
  }

  lemma WriteAcc(k: Space, b: Buffer, s: User, d: User, e: Entry, fl: Flags)
    requires Acc(k) && SlotOf(s) in k.tabs && SlotOf(d) in k.tabs && s != d && d.pid != KERNEL && !EntryOf(k, d).present
    requires fl.cow ==> EntryOf(k, s).present == e.present && EntryOf(k, s).frame == e.frame
    requires if e.present then
               && Zoned(b) && b.start == k.b.start && b.own == k.b.own[e.frame := [d] + Owners(k.b, e.frame)]
               && (forall t :: t in k.tabs ==> k.tabs[t] != e.frame)
             else b == k.b
    ensures Acc(WriteEntries(k.(b := b), s, d, e, fl))
  {
    var e' := if fl.cow then e.(cow := true, writable := false) else e;
    var k1 := if fl.cow then k.(ent := Put(k.ent, s, e')) else k;
    if fl.cow { RightsAcc(k, s, e'); }
    if e.present { PresentAcc(k1, b, d, e'); } else { RightsAcc(k1, d, e'); }
    assert WriteEntries(k.(b := b), s, d, e, fl) ==
           (if e.present then Count(k1.(b := b), SlotOf(d), 1).(ent := k1.ent[d := e']) else k1.(ent := Put(k1.ent, d, e')));
  }

  /** What CopyEntry writes. */
  lemma CopyEntryWrites(k: Space, s: User, d: User, fl: Flags, root: bool, cur: nat)
    requires Acc(k) && SlotOf(d) in k.tabs && Copies(k, s, d) && CopyEntry(k, s, d, fl, root, cur).Mapped?
    ensures var (e, k') := (Granted(EntryOf(k, s), fl, root), CopyEntry(k, s, d, fl, root, cur).k);
            if e.present && e.frame in k.b.own then
              AddOwner(k.b, e.frame, User(cur, d.adr)).Added?
              && k' == WriteEntries(k.(b := AddOwner(k.b, e.frame, User(cur, d.adr)).b), s, d, e, fl)
            else k' == WriteEntries(k, s, d, e, fl)
    ensures SlotOf(s) in k.tabs && s.pid != KERNEL && s != d
    ensures EntryOf(k, s).present ==> EntryOf(k, s).frame in k.b.own && s in k.b.own[EntryOf(k, s).frame] && UserFrame(k, EntryOf(k, s).frame)
  {
    var f := EntryOf(k, s).frame;
    assert EntryOk(k, s) && TableOk(k, SlotOf(s));
    if EntryOf(k, s).present { NotTable(k, f, s); }
  }

  /** After an accounted mapping the accounting is right. */
  lemma CopyEntryKeeps(k: Space, s: User, d: User, fl: Flags, root: bool, cur: nat)
    requires Acc(k) && d.pid != KERNEL && SlotOf(d) in k.tabs && Copies(k, s, d) && CopyEntry(k, s, d, fl, root, cur).Mapped?
    requires Accounted(k, s, d, fl, root, cur)
    ensures Acc(CopyEntry(k, s, d, fl, root, cur).k)
  {
    var e := Granted(EntryOf(k, s), fl, root);
    CopyEntryWrites(k, s, d, fl, root, cur);
    if e.present {
      AddOwnerZoned(k.b, e.frame, d);
      WriteAcc(k, AddOwner(k.b, e.frame, d).b, s, d, e, fl);
    } else {
      WriteAcc(k, k.b, s, d, e, fl);
    }
  }

  /** Any other mapping does damage. */
  lemma CopyEntryBreaks(k: Space, s: User, d: User, fl: Flags, root: bool, cur: nat)
    requires Acc(k) && d.pid != KERNEL && SlotOf(d) in k.tabs && Copies(k, s, d) && CopyEntry(k, s, d, fl, root, cur).Mapped?
    requires !Accounted(k, s, d, fl, root, cur)
    ensures Damaged(CopyEntry(k, s, d, fl, root, cur).k, d.pid, cur)
  {
    var e, k' := Granted(EntryOf(k, s), fl, root), CopyEntry(k, s, d, fl, root, cur).k;
    var f := e.frame;
    CopyEntryWrites(k, s, d, fl, root, cur);
    assert OwnerOk(k, f);
    assert d !in Owners(k.b, f);
    assert d in k'.ent && k'.ent[d].present && k'.ent[d].frame == f;
    if d.pid != cur || f !in k.b.own {
      assert Torn(k', d);
    } else if fl.cow {
      assert s !in Owners(k.b, f);
      assert Torn(k', s);
    } else {
      var t :| t in k.tabs && k.tabs[t] == f;
      AddOwnerZoned(k.b, f, d);
      assert TableOk(k, t);
      assert TornTable(k', t);
    }
  }

  /** The state in which an entry is copied: the target has a table, and the source need not be copied first. */
  lemma BeforeCopy(k: Space, s: User, d: User, fl: Flags, root: bool, cur: nat) returns (k2: Space)
    requires Acc(k) && d.pid != KERNEL && Copies(k, s, d)
    requires MapPage(k, s, d, fl, root, cur).Mapped? || MapPage(k, s, d, fl, root, cur).Failed?
    ensures Acc(k2) && SlotOf(d) in k2.tabs && Copies(k2, s, d)
    ensures EntryOf(k2, s) == (if MustCopy(k, s, fl) && k2.ent != k.ent then Unshared(EntryOf(k, s)) else EntryOf(k, s))
    ensures k2.ent == k.ent || k2.ent == k.ent[s := Unshared(EntryOf(k, s))]
    ensures MapPage(k, s, d, fl, root, cur) == CopyEntry(k2, s, d, fl, root, cur) || MapPage(k, s, d, fl, root, cur) == Failed(k2)
    ensures Accounted(k2, s, d, fl, root, cur) <==> Accounted(k, s, d, fl, root, cur)
    ensures MustCopy(k, s, fl) && MapPage(k, s, d, fl, root, cur).Mapped? ==> k2.ent == k.ent[s := Unshared(EntryOf(k, s))]
    ensures !MustCopy(k, s, fl) ==> k2.ent == k.ent
  {
    NewTableAcc(k, SlotOf(d));
    var k1 := GetTable(k, SlotOf(d)).value;
    k2 := k1;
    assert EntryOk(k, s);
    NewTableFrames(k, SlotOf(d), EntryOf(k, s).frame);
    if MustCopy(k, s, fl) && CopyPage(k1, s, cur).Mapped? {
      RightsAcc(k1, s, Unshared(EntryOf(k, s)));
      k2 := CopyPage(k1, s, cur).k;
    }
  }

  lemma NewTableFrames(k: Space, s: Slot, f: nat)
    requires Acc(k) && s.pid != KERNEL && GetTable(k, s).Some?
    ensures UserFrame(GetTable(k, s).value, f) <==> UserFrame(k, f)
  {
    if s !in k.tabs {
      AllocKernelZoned(k.b);
      var k1 := GetTable(k, s).value;
      assert s in k1.tabs && forall t :: t in k.tabs ==> t in k1.tabs && k1.tabs[t] == k.tabs[t];
    }
  }

  lemma MapPageKeeps(k: Space, s: User, d: User, fl: Flags, root: bool, cur: nat)
    requires Acc(k) && d.pid != KERNEL && MapPage(k, s, d, fl, root, cur).Mapped? && Accounted(k, s, d, fl, root, cur)
    ensures Acc(MapPage(k, s, d, fl, root, cur).k)
  {
    if Copies(k, s, d) {
      var k2 := BeforeCopy(k, s, d, fl, root, cur);
      if CopyEntry(k2, s, d, fl, root, cur).Mapped? { CopyEntryKeeps(k2, s, d, fl, root, cur); }
    } else if GetTable(k, SlotOf(d)).Some? {
      NewTableAcc(k, SlotOf(d));
    }
  }

  lemma MapPageBreaks(k: Space, s: User, d: User, fl: Flags, root: bool, cur: nat)
    requires Acc(k) && d.pid != KERNEL && MapPage(k, s, d, fl, root, cur).Mapped? && !Accounted(k, s, d, fl, root, cur)
    ensures Damaged(MapPage(k, s, d, fl, root, cur).k, d.pid, cur)
  {
    var k2 := BeforeCopy(k, s, d, fl, root, cur);
    CopyEntryBreaks(k2, s, d, fl, root, cur);
  }

  /**
   sysc_map enters the calling process as the owner of the new entry.  So it keeps the
   accounting exactly when that is the process that gets the entry (always for a reverse mapping
   and for a mapping within a process, and otherwise only when nothing present is copied) and
   root does not make an entry present that names no frame in use.
   */
  lemma MapPageAccounting(k: Space, s: User, d: User, fl: Flags, root: bool, cur: nat)
    requires Acc(k) && d.pid != KERNEL && MapPage(k, s, d, fl, root, cur).Mapped?
    ensures Acc(MapPage(k, s, d, fl, root, cur).k) <==> Accounted(k, s, d, fl, root, cur)
  {
    if Accounted(k, s, d, fl, root, cur) {
      MapPageKeeps(k, s, d, fl, root, cur);
    } else {
      MapPageBreaks(k, s, d, fl, root, cur);
      DamagedBreaks(MapPage(k, s, d, fl, root, cur).k, d.pid, cur);
    }
  }

  /**
   A mapping that fails has at most added an empty page table and taken the copy-on-write mark
   from a page that nobody shares.
   */
  lemma MapPageFails(k: Space, s: User, d: User, fl: Flags, root: bool, cur: nat)
    requires Acc(k) && d.pid != KERNEL && MapPage(k, s, d, fl, root, cur).Failed?
    ensures var k' := MapPage(k, s, d, fl, root, cur).k;
            && Acc(k') && (k'.ent == k.ent || (MustCopy(k, s, fl) && k'.ent == k.ent[s := Unshared(EntryOf(k, s))]))
            && (k'.b.entries <= 1 || (MustCopy(k, s, fl) && k'.b.normal == [] && k'.b.high == []))
  {
    if Copies(k, s, d) {
      var k2 := BeforeCopy(k, s, d, fl, root, cur);
      FailedFor(k, s, d, fl, root, cur);
    } else {
      NewTableAcc(k, SlotOf(d));
    }
  }

  /** Why a mapping fails. */
  lemma FailedFor(k: Space, s: User, d: User, fl: Flags, root: bool, cur: nat)
    requires MapPage(k, s, d, fl, root, cur).Failed?
    ensures var k' := MapPage(k, s, d, fl, root, cur).k;
            k'.b.entries <= 1 || (MustCopy(k, s, fl) && k'.b.normal == [] && k'.b.high == [])
  {
  }

  // ---------------------------------------------------------------- damage stays

  /** A torn entry stays torn when another page is mapped. */
  lemma MapPageTorn(k: Space, s: User, d: User, fl: Flags, root: bool, cur: nat, u: User)
    requires Torn(k, u) && (d.pid == cur || u.pid != cur)
    ensures var r := MapPage(k, s, d, fl, root, cur); r.Mapped? || r.Failed? ==> Torn(r.k, u)
  {
    var r := MapPage(k, s, d, fl, root, cur);
    if GetTable(k, SlotOf(d)).Some? {
      var k1 := GetTable(k, SlotOf(d)).value;
      assert Torn(k1, u);
      if Copies(k1, s, d) && (r.Mapped? || r.Failed?) {
        if MustCopy(k1, s, fl) {
          if CopyPage(k1, s, cur).Mapped? {
            assert Torn(CopyPage(k1, s, cur).k, u);
            CopyEntryTorn(CopyPage(k1, s, cur).k, s, d, fl, root, cur, u);
          }
        } else {
          CopyEntryTorn(k1, s, d, fl, root, cur, u);
        }
      }
    }
  }

  lemma CopyEntryTorn(k: Space, s: User, d: User, fl: Flags, root: bool, cur: nat, u: User)
    requires Torn(k, u) && (d.pid == cur || u.pid != cur) && Copies(k, s, d)
    ensures var r := CopyEntry(k, s, d, fl, root, cur); r.Mapped? || r.Failed? ==> Torn(r.k, u)
  {
  }

  /** A page table with a second owner keeps it when a page is mapped. */
  lemma MapPageTornTable(k: Space, s: User, d: User, fl: Flags, root: bool, cur: nat, t: Slot)
    requires TornTable(k, t)
    ensures var r := MapPage(k, s, d, fl, root, cur); r.Mapped? || r.Failed? ==> TornTable(r.k, t)
  {
    var r := MapPage(k, s, d, fl, root, cur);
    if GetTable(k, SlotOf(d)).Some? {
      var k1 := GetTable(k, SlotOf(d)).value;
      if SlotOf(d) !in k.tabs { AllocKernelZoned(k.b); }
      assert TornTable(k1, t);
      if Copies(k1, s, d) && (r.Mapped? || r.Failed?) {
        if MustCopy(k1, s, fl) {
          if CopyPage(k1, s, cur).Mapped? { CopyEntryTornTable(CopyPage(k1, s, cur).k, s, d, fl, root, cur, t); }
        } else {
          CopyEntryTornTable(k1, s, d, fl, root, cur, t);
        }
      }
    }
  }

  lemma CopyEntryTornTable(k: Space, s: User, d: User, fl: Flags, root: bool, cur: nat, t: Slot)
    requires TornTable(k, t)
    ensures var r := CopyEntry(k, s, d, fl, root, cur); r.Mapped? || r.Failed? ==> TornTable(r.k, t)
  {
    var f := EntryOf(k, s).frame;
    if f in k.b.own && AddOwner(k.b, f, User(cur, d.adr)).Added? { AddOwnerZoned(k.b, f, User(cur, d.adr)); }
  }

  lemma MapPageDamaged(k: Space, s: User, d: User, fl: Flags, root: bool, cur: nat)
    requires Damaged(k, d.pid, cur)
    ensures var r := MapPage(k, s, d, fl, root, cur); r.Mapped? || r.Failed? ==> Damaged(r.k, d.pid, cur)
  {
    if u :| Torn(k, u) && (d.pid == cur || u.pid != cur) {
      MapPageTorn(k, s, d, fl, root, cur, u);
    } else {
      var t :| TornTable(k, t);
      MapPageTornTable(k, s, d, fl, root, cur, t);
    }
  }

  /** Unmapping pages of another process does not repair a torn entry. */
  lemma UnmapPageTorn(k: Space, d: User, flag: UnmapFlag, free: bool, u: User)
    requires Torn(k, u) && u.pid != d.pid
    ensures var r := UnmapPage(k, d, flag, free); r.Unmapped? ==> Torn(r.k, u)
  {
    var e := EntryOf(k, d);
    if !flag.Write? && e.present && UnmapPage(k, d, flag, free).Unmapped? {
      var b := FreeUser(k.b, e.frame, d).b;
      OwnersShrink(k.b, e.frame, d, k.ent[u].frame, u);
      AbsentTorn(k.(b := b), d, flag, u);
    }
  }

  lemma AbsentTorn(k: Space, d: User, flag: UnmapFlag, u: User)
    requires Torn(k, u) && u.pid != d.pid
    ensures Torn(Absent(k, d, flag), u)
  {
  }

  lemma OwnersShrink(b: Buffer, f: nat, d: User, g: nat, u: User)
    requires u !in Owners(b, g) && FreeUser(b, f, d).Done?
    ensures u !in Owners(FreeUser(b, f, d).b, g)
  {
    DropWithin(Owners(b, f), d);
  }

  lemma {:induction false} DropWithin(s: seq<User>, u: User)
    ensures forall v :: v in Drop(s, u) ==> v in s
  {
    if s != [] {
      assert s == [s[0]] + s[1..];
      DropWithin(s[1..], u);
    }
  }

  // ---------------------------------------------------------------- unmapping

  lemma MaskedAcc(k: Space, d: User, flag: UnmapFlag)
    requires Acc(k) && (flag.Complete? ==> !EntryOf(k, d).present)
    ensures Acc(Masked(k, d, flag))
  {
    if SlotOf(d) in k.tabs {
      match flag {
        case Complete => RightsAcc(k, d, ZERO);
        case Available =>
        case Write => RightsAcc(k, d, EntryOf(k, d).(writable := false));
      }
    }
  }

  /**
   Unmapping always keeps the accounting.  It crashes exactly when the frame is shared and no
   share-table entry is free, and it gives the page table back exactly when the last present
   entry goes.
   */
  lemma UnmapPageAcc(k: Space, d: User, flag: UnmapFlag, free: bool)
    requires Acc(k) && d.pid != KERNEL && SlotOf(d) in k.tabs
    ensures var (e, r) := (EntryOf(k, d), UnmapPage(k, d, flag, free));
            && (r.PagerError? <==> e.present && flag.Complete? && e.paged && !free)
            && (r.Crash? <==> e.present && !flag.Write? && !r.PagerError? && |Owners(k.b, e.frame)| >= 2 && k.b.entries == 0)
            && (r.Unmapped? ==> Acc(r.k) && (SlotOf(d) !in r.k.tabs <==> !flag.Write? && PresentIn(k.ent, SlotOf(d)) == {d}))
  {
    var e := EntryOf(k, d);
    assert EntryOk(k, d) && TableOk(k, SlotOf(d));
    if flag.Write? || !e.present {
      assert d !in PresentIn(k.ent, SlotOf(d)) || flag.Write?;
      MaskedAcc(k, d, flag);
    } else if UnmapPage(k, d, flag, free).Unmapped? {
      AbsentStep(k, d, flag);
    }
  }

  lemma AbsentStep(k: Space, d: User, flag: UnmapFlag)
    requires Acc(k) && d.pid != KERNEL && SlotOf(d) in k.tabs && EntryOf(k, d).present && !flag.Write?
    requires FreeUser(k.b, EntryOf(k, d).frame, d).Done?
    ensures var k' := Masked(Absent(k.(b := FreeUser(k.b, EntryOf(k, d).frame, d).b), d, flag), d, flag);
            Acc(k') && (SlotOf(d) !in k'.tabs <==> PresentIn(k.ent, SlotOf(d)) == {d})
  {
    var s, e := SlotOf(d), if flag.Complete? then ZERO else EntryOf(k, d).(present := false);
    var b := FreeUser(k.b, EntryOf(k, d).frame, d).b;
    var k2 := Count(k.(b := b, ent := Put(k.ent, d, e)), s, -1);
    AbsentAcc(k, d, e);
    assert Absent(k.(b := b), d, flag) == if Cnt(k2, s) == 0 then DropTable(k2, s) else k2;
    assert TableOk(k, s) && TableOk(k2, s);
    assert PresentIn(k2.ent, s) == PresentIn(k.ent, s) - {d};
    if Cnt(k2, s) == 0 {
      DropTableAcc(k2, s);
      assert PresentIn(k2.ent, s) == {};
      assert PresentIn(k.ent, s) == {d};
    } else {
      assert PresentIn(k.ent, s) != {d};
      MaskedAcc(k2, d, flag);
    }
  }

  // ---------------------------------------------------------------- unmapping where the owners are wrong

  /** A user page owns no page table, so giving up its frame leaves the tables alone. */
  lemma FreedTables(k: Space, f: nat, d: User)
    requires Books(k) && d.pid != KERNEL && FreeUser(k.b, f, d).Done?
    ensures var b := FreeUser(k.b, f, d).b;
            && Zoned(b) && b.start == k.b.start
            && forall t :: t in k.tabs ==> k.tabs[t] in b.own && b.own[k.tabs[t]] == k.b.own[k.tabs[t]]
  {
    FreeUserZoned(k.b, f, d);
    forall t | t in k.tabs ensures k.tabs[t] in k.b.own && d !in k.b.own[k.tabs[t]] { assert TableOk(k, t); }
  }

  /** Page d ceases to be present, whoever the owners of its frame are. */
  lemma AbsentBooks(k: Space, d: User, e: Entry)
    requires Books(k) && d in k.ent && k.ent[d].present && !e.present && d.pid != KERNEL
    requires FreeUser(k.b, k.ent[d].frame, d).Done?
    ensures Books(Count(k.(b := FreeUser(k.b, k.ent[d].frame, d).b, ent := Put(k.ent, d, e)), SlotOf(d), -1))
  {
    var k' := Count(k.(b := FreeUser(k.b, k.ent[d].frame, d).b, ent := Put(k.ent, d, e)), SlotOf(d), -1);
    FreedTables(k, k.ent[d].frame, d);
    forall t ensures TableOk(k', t) {
      assert TableOk(k, t);
      PresentLess(k.ent, d, e, t);
    }
  }

  lemma PresentLess(ent: map<User, Entry>, d: User, e: Entry, t: Slot)
    requires !e.present && d in ent && ent[d].present
    ensures |PresentIn(Put(ent, d, e), t)| == |PresentIn(ent, t)| - if t == SlotOf(d) then 1 else 0
  {
    assert PresentIn(Put(ent, d, e), t) == if t == SlotOf(d) then PresentIn(ent, t) - {d} else PresentIn(ent, t);
  }

  lemma DropTableBooks(k: Space, s: Slot)
    requires Books(k) && Cnt(k, s) == 0
    ensures Books(DropTable(k, s))
  {
    if s in k.tabs {
      var k' := DropTable(k, s);
      assert TableOk(k, s) && PresentIn(k.ent, s) == {};
      FreeKernelZoned(k.b, k.tabs[s]);
      forall t ensures TableOk(k', t) {
        assert TableOk(k, t);
        assert PresentIn(k'.ent, t) == if t == s then {} else PresentIn(k.ent, t);
      }
    }
  }

  lemma MaskedBooks(k: Space, d: User, flag: UnmapFlag)
    requires Books(k) && (flag.Complete? ==> !EntryOf(k, d).present)
    ensures Books(Masked(k, d, flag))
  {
    if SlotOf(d) in k.tabs && !flag.Available? {
      var k' := Masked(k, d, flag);
      forall t ensures TableOk(k', t) {
        assert TableOk(k, t);
        assert PresentIn(k'.ent, t) == PresentIn(k.ent, t);
      }
    }
  }

  /** Unmapping keeps the books also where the owners of frames are not those that the entries tell. */
  lemma UnmapPageBooks(k: Space, d: User, flag: UnmapFlag, free: bool)
    requires Books(k) && d.pid != KERNEL
    ensures var r := UnmapPage(k, d, flag, free); r.Unmapped? ==> Books(r.k)
  {
    var e := EntryOf(k, d);
    if flag.Write? || !e.present {
      MaskedBooks(k, d, flag);
    } else if UnmapPage(k, d, flag, free).Unmapped? {
      var e' := if flag.Complete? then ZERO else e.(present := false);
      var k2 := Count(k.(b := FreeUser(k.b, e.frame, d).b, ent := Put(k.ent, d, e')), SlotOf(d), -1);
      AbsentBooks(k, d, e');
      if Cnt(k2, SlotOf(d)) == 0 { DropTableBooks(k2, SlotOf(d)); }
      MaskedBooks(Absent(k.(b := FreeUser(k.b, e.frame, d).b), d, flag), d, flag);
    }
  }

  /**
   Unmapping where nothing is known of the owners.  It crashes exactly when the page is one of
   several owners of its frame and no share-table entry is free, and it gives the page table back
   exactly when the last present entry goes.
   */
  lemma UnmapPageExact(k: Space, d: User, flag: UnmapFlag, free: bool)
    requires Books(k) && d.pid != KERNEL && SlotOf(d) in k.tabs
    ensures var (e, r) := (EntryOf(k, d), UnmapPage(k, d, flag, free));
            && (r.PagerError? <==> e.present && flag.Complete? && e.paged && !free)
            && (r.Crash? <==> e.present && !flag.Write? && !r.PagerError? && InRange(k.b, e.frame)
                              && d in Owners(k.b, e.frame) && |Owners(k.b, e.frame)| >= 2 && k.b.entries == 0)
            && (r.Unmapped? ==> Books(r.k) && (SlotOf(d) !in r.k.tabs <==> !flag.Write? && PresentIn(k.ent, SlotOf(d)) == {d}))
  {
    var e, t := EntryOf(k, d), SlotOf(d);
    UnmapPageBooks(k, d, flag, free);
    if flag.Write? || !e.present {
      assert d !in PresentIn(k.ent, t) || flag.Write?;
    } else if UnmapPage(k, d, flag, free).Unmapped? {
      LastPresent(k, d, flag);
    }
  }

  /** The table goes with its last present entry. */
  lemma LastPresent(k: Space, d: User, flag: UnmapFlag)
    requires Books(k) && SlotOf(d) in k.tabs && EntryOf(k, d).present && !flag.Write? && FreeUser(k.b, EntryOf(k, d).frame, d).Done?
    ensures var k0 := k.(b := FreeUser(k.b, EntryOf(k, d).frame, d).b);
            SlotOf(d) !in Masked(Absent(k0, d, flag), d, flag).tabs <==> PresentIn(k.ent, SlotOf(d)) == {d}
  {
    var p := PresentIn(k.ent, SlotOf(d));
    assert TableOk(k, SlotOf(d)) && d in p;
    assert |p| == 1 <==> p == {d} by {
      assert p == {d} + (p - {d});
      assert p - {d} == {} <==> |p - {d}| == 0;
    }
  }

  // ---------------------------------------------------------------- allocating

  /**
   A turn of sysc_alloc_pages keeps the accounting unless a page table is needed and there is
   no frame for it any more: then the frame of the page stays in use without an entry.
   */
  lemma AllocPageAcc(k: Space, d: User)
    requires Acc(k) && d.pid != KERNEL
    ensures var r := AllocPage(k, d);
            && (r.Mapped? ==> Acc(r.k)) && (r.Mapped? || r.Failed?)
            && (r.Failed? ==> (Acc(r.k) <==> AllocUser(k.b, d).None?))
            && (r.Failed? && AllocUser(k.b, d).Some? <==>
                 AllocUser(k.b, d).Some? && SlotOf(d) !in k.tabs && AllocUser(k.b, d).value.0.normal == [])
  {
    if AllocUser(k.b, d).Some? {
      var (b, f) := AllocUser(k.b, d).value;
      AllocUserZoned(k.b, d);
      if GetTable(k.(b := b), SlotOf(d)).None? {
        assert f in b.own && b.own[f] == [d] && d in b.own[f];
        assert EntryOk(k, d) && OwnerOk(k, f);
        assert !OwnerOk(k.(b := b), f);
      } else {
        AllocTables(k, d, b, f);
      }
    }
  }

  lemma AllocTables(k: Space, d: User, b: Buffer, f: nat)
    requires Acc(k) && d.pid != KERNEL && AllocUser(k.b, d) == Some((b, f)) && GetTable(k.(b := b), SlotOf(d)).Some?
    ensures AllocPage(k, d).Mapped? && Acc(AllocPage(k, d).k)
  {
    var k1 := GetTable(k.(b := b), SlotOf(d)).value;
    var k0 := AllocTaken(k, d, b, f, k1);
    if !EntryOf(k1, d).present {
      FreshNoTable(k0, f);
      OwnAgain(k0.b, k1.b, d, f);
      PresentAcc(k0, k1.b, d, Entry(f, true, true, true, false, false));
    }
    AllocPageIs(k, d, b, f, k1);
  }

  lemma FreshNoTable(k: Space, f: nat)
    requires Acc(k) && f !in k.b.own
    ensures forall t :: t in k.tabs ==> k.tabs[t] != f
  {
    forall t | t in k.tabs ensures k.tabs[t] != f { assert TableOk(k, t); }
  }

  lemma OwnAgain(b0: Buffer, b1: Buffer, d: User, f: nat)
    requires f in b1.own && b1.own[f] == [d] && b0.own == b1.own - {f}
    ensures b1.own == b0.own[f := [d] + Owners(b0, f)]
  {
    assert [d] + Owners(b0, f) == [d];
  }

  lemma AllocPageIs(k: Space, d: User, b: Buffer, f: nat, k1: Space)
    requires AllocUser(k.b, d) == Some((b, f)) && GetTable(k.(b := b), SlotOf(d)) == Some(k1)
    ensures AllocPage(k, d) == Mapped(if EntryOf(k1, d).present then k1.(b := FreeKernel(k1.b, f))
                                      else Count(k1, SlotOf(d), 1).(ent := k1.ent[d := Entry(f, true, true, true, false, false)]))
  {
  }

  /** With the frame given back the table allows for the same entries as before. */
  lemma AllocTaken(k: Space, d: User, b: Buffer, f: nat, k1: Space) returns (k0: Space)
    requires Acc(k) && d.pid != KERNEL && AllocUser(k.b, d) == Some((b, f)) && GetTable(k.(b := b), SlotOf(d)) == Some(k1)
    ensures k0 == k1.(b := FreeKernel(k1.b, f)) && Acc(k0) && Zoned(k1.b) && k1.b.start == k.b.start && SlotOf(d) in k1.tabs
    ensures f in k1.b.own && k1.b.own[f] == [d] && k0.b.own == k1.b.own - {f} && k0.b.start == k1.b.start
  {
    var s := SlotOf(d);
    AllocBuffers(k.b, d, b, f, s in k.tabs, k1.b);
    k0 := k1.(b := FreeKernel(k1.b, f));
    if s in k.tabs { BufferAcc(k, k0.b); } else { TableAcc(k, k0, s, k1.tabs[s]); }
  }

  /** The buffer after a user frame, perhaps a frame for a table, and the return of the user frame. */
  lemma AllocBuffers(b0: Buffer, d: User, b: Buffer, f: nat, found: bool, b1: Buffer)
    requires Zoned(b0) && AllocUser(b0, d) == Some((b, f))
    requires if found then b1 == b else AllocKernel(b).Some? && AllocKernel(b).value.0 == b1
    ensures Zoned(b1) && b1.start == b0.start && f in b1.own && b1.own[f] == [d]
    ensures var b2 := FreeKernel(b1, f);
            && Zoned(b2) && b2.start == b0.start && b2.own == b1.own - {f}
            && if found then b2.own == b0.own
               else var g := AllocKernel(b).value.1; g !in b0.own && b2.own == b0.own[g := [User(KERNEL, g + VAS_KERNEL_START)]]
  {
    AllocUserZoned(b0, d);
    if !found {
      AllocKernelZoned(b);
      var g := AllocKernel(b).value.1;
      OwnWithout(b0.own, f, [d], g, [User(KERNEL, g + VAS_KERNEL_START)], b1.own);
    } else {
      assert b.own - {f} == b0.own;
    }
    FreeKernelZoned(b1, f);
  }

  lemma OwnWithout(own: map<nat, seq<User>>, f: nat, us: seq<User>, g: nat, vs: seq<User>, own': map<nat, seq<User>>)
    requires f !in own && f != g && own' == own[f := us][g := vs]
    ensures own' - {f} == own[g := vs]
  {
  }
}
