/**
 sysc_move over a range of pages, to the calling process or to another one: what becomes of the
 entries of source and target and of the owners of every frame, and when the move dies half way.
 */
module MappingMoves {
  import opened BlockLists
  import opened Frames
  import opened Mapping
  import opened MappingInv
  import opened MappingRuns

  // ---------------------------------------------------------------- ranges of pages

  /** A present page that owns its frame and need not be copied first. */
  ghost predicate SourceOk(k: Space, u: User, fl: Flags) {
    && EntryOf(k, u).present && !MustCopy(k, u, fl)
    && EntryOf(k, u).frame in k.b.own && u in k.b.own[EntryOf(k, u).frame]
  }

  ghost predicate SourceAt(k: Space, s: User, i: nat, fl: Flags) {
    SourceOk(k, Next(s, i), fl)
  }

  ghost predicate SourcesOk(k: Space, s: User, n: nat, fl: Flags) {
    forall i: nat {:trigger SourceAt(k, s, i, fl)} :: i < n ==> SourceAt(k, s, i, fl)
  }

  predicate NotPage(u: User, s: User, i: nat) {
    u != Next(s, i)
  }

  /** u is none of the n pages from s on. */
  ghost predicate OutOf(u: User, s: User, n: nat) {
    forall i: nat {:trigger NotPage(u, s, i)} :: i < n ==> NotPage(u, s, i)
  }

  ghost predicate NotTarget(s: User, i: nat, d: User, n: nat) {
    OutOf(Next(s, i), d, n)
  }

  /** No page of the source is a page of the target. */
  ghost predicate Apart(s: User, d: User, n: nat) {
    forall i: nat {:trigger NotTarget(s, i, d, n)} :: i < n ==> NotTarget(s, i, d, n)
  }

  /** None of the target pages has an entry. */
  ghost predicate Vacant(k: Space, d: User, n: nat) {
    forall i: nat {:trigger Next(d, i)} :: i < n ==> EntryOf(k, Next(d, i)) == ZERO
  }

  ghost predicate Movable(k: Space, s: User, d: User, n: nat, fl: Flags) {
    Books(k) && s.pid != KERNEL && d.pid != KERNEL && SourcesOk(k, s, n, fl) && Apart(s, d, n)
  }

  lemma NextNext(u: User, i: nat, j: nat)
    ensures Next(Next(u, i), j) == Next(u, i + j)
  {
  }

  lemma OutOfTail(u: User, s: User, n: nat)
    requires n > 0 && OutOf(u, s, n)
    ensures OutOf(u, Next(s, 1), n - 1) && u != s
  {
    assert NotPage(u, s, 0) && Next(s, 0) == s;
    forall i: nat | i < n - 1 ensures NotPage(u, Next(s, 1), i) {
      assert NotPage(u, s, i + 1);
      NextNext(s, 1, i);
    }
  }

  lemma FirstOutOf(s: User, n: nat)
    requires n > 0
    ensures OutOf(s, Next(s, 1), n - 1)
  {
    forall i: nat | i < n - 1 ensures NotPage(s, Next(s, 1), i) { }
  }

  lemma ApartAt(s: User, d: User, n: nat, i: nat)
    requires i + 1 < n && Apart(s, d, n)
    ensures NotTarget(Next(s, 1), i, Next(d, 1), n - 1) && NotPage(d, Next(s, 1), i)
  {
    NextNext(s, 1, i);
    assert NotTarget(s, i + 1, d, n);
    OutOfTail(Next(s, i + 1), d, n);
  }

  lemma ApartTail(s: User, d: User, n: nat)
    requires n > 0 && Apart(s, d, n)
    ensures Apart(Next(s, 1), Next(d, 1), n - 1)
    ensures OutOf(s, Next(d, 1), n - 1) && s != d
    ensures OutOf(d, Next(s, 1), n - 1)
  {
    assert Next(s, 0) == s;
    assert NotTarget(s, 0, d, n);
    OutOfTail(s, d, n);
    var s1, d1, m := Next(s, 1), Next(d, 1), n - 1;
    forall i: nat | i < m ensures NotPage(d, s1, i) { ApartAt(s, d, n, i); }
    forall i: nat | i < m ensures NotTarget(s1, i, d1, m) { ApartAt(s, d, n, i); }
  }

  /** The entry that the target of a moved page gets. */
  function Written(e: Entry, fl: Flags, root: bool): Entry {
    var g := Granted(e, fl, root);
    if fl.cow then g.(cow := true, writable := false) else g
  }

  // ---------------------------------------------------------------- mapping one page of the range

  lemma TableBooks(k: Space, s: Slot)
    requires Books(k) && s.pid != KERNEL && GetTable(k, s).Some?
    ensures var k1 := GetTable(k, s).value;
            && Books(k1) && s in k1.tabs && k1.ent == k.ent && k1.b.entries == k.b.entries && k1.b.start == k.b.start && k1.b.size == k.b.size
            && (forall f :: f in k.b.own ==> f in k1.b.own && k1.b.own[f] == k.b.own[f])
  {
    if s !in k.tabs {
      var k1 := GetTable(k, s).value;
      AllocKernelZoned(k.b);
      forall t ensures TableOk(k1, t) { assert TableOk(k, t); }
      forall t, t' | t in k1.tabs && t' in k1.tabs && t != t' ensures k1.tabs[t] != k1.tabs[t'] {
        assert TableOk(k, t) && TableOk(k, t');
      }
    }
  }

  /** A frame that a user page owns is no page table. */
  lemma NoTable(k: Space, f: nat, u: User)
    requires Books(k) && f in k.b.own && u in k.b.own[f] && u.pid != KERNEL
    ensures UserFrame(k, f) && Counted(k.b, f)
  {
    forall t | t in k.tabs ensures k.tabs[t] != f { assert TableOk(k, t); }
  }

  ghost predicate SameTables(k: Space, b: Buffer) {
    forall t :: t in k.tabs ==> k.tabs[t] in k.b.own && k.tabs[t] in b.own && b.own[k.tabs[t]] == k.b.own[k.tabs[t]]
  }

  /** An entry changes, but not in being present. */
  lemma RightsBooks(k: Space, u: User, e: Entry)
    requires Books(k) && SlotOf(u) in k.tabs && (EntryOf(k, u).present <==> e.present)
    ensures Books(k.(ent := Put(k.ent, u, e)))
  {
    var k' := k.(ent := Put(k.ent, u, e));
    forall t ensures TableOk(k', t) {
      assert TableOk(k, t);
      assert PresentIn(k'.ent, t) == PresentIn(k.ent, t);
    }
  }

  /** An entry becomes present. */
  lemma PresentBooks(k: Space, b: Buffer, d: User, e: Entry)
    requires Books(k) && SlotOf(d) in k.tabs && !EntryOf(k, d).present && e.present
    requires Zoned(b) && b.start == k.b.start && SameTables(k, b)
    ensures Books(Count(k.(b := b), SlotOf(d), 1).(ent := k.ent[d := e]))
  {
    var k' := Count(k.(b := b), SlotOf(d), 1).(ent := k.ent[d := e]);
    forall t ensures TableOk(k', t) {
      assert TableOk(k, t);
      PresentMore(k.ent, d, e, t);
    }
  }

  lemma WriteBooks(k: Space, b: Buffer, s: User, d: User, e: Entry, fl: Flags)
    requires Books(k) && SlotOf(d) in k.tabs && s != d && EntryOf(k, d) == ZERO && (fl.cow ==> EntryOf(k, s).present) && e.present
    requires Zoned(b) && b.start == k.b.start && SameTables(k, b)
    ensures Books(WriteEntries(k.(b := b), s, d, e, fl))
  {
    var e' := if fl.cow then e.(cow := true, writable := false) else e;
    var k1 := if fl.cow then k.(ent := Put(k.ent, s, e')) else k;
    if fl.cow { RightsBooks(k, s, e'); }
    PresentBooks(k1, b, d, e');
    assert WriteEntries(k.(b := b), s, d, e, fl) == Count(k1.(b := b), SlotOf(d), 1).(ent := k1.ent[d := e']);
  }

  /** The owners that a frame gets from mapping page s to page d. */
  ghost function Added(k: Space, s: User, d: User, cur: nat, f: nat): seq<User> {
    if EntryOf(k, s).frame == f && EntryOf(k, d) == ZERO then [User(cur, d.adr)] else []
  }

  /** The entries after page s has been mapped to page d. */
  ghost predicate EntriesAfter(k: Space, k1: Space, s: User, d: User, fl: Flags, root: bool) {
    && (forall u {:trigger EntryOf(k1, u)} :: u != s && u != d ==> EntryOf(k1, u) == EntryOf(k, u))
    && EntryOf(k1, d) == (if EntryOf(k, d) == ZERO then Written(EntryOf(k, s), fl, root) else EntryOf(k, d))
    && EntryOf(k1, s) == (if fl.cow && EntryOf(k, d) == ZERO then Written(EntryOf(k, s), fl, root) else EntryOf(k, s))
  }

  lemma WriteEffect(k: Space, b: Buffer, s: User, d: User, fl: Flags, root: bool)
    requires s != d && EntryOf(k, d) == ZERO && EntryOf(k, s).present
    ensures EntriesAfter(k, WriteEntries(k.(b := b), s, d, Granted(EntryOf(k, s), fl, root), fl), s, d, fl, root)
  {
  }

  lemma MapTurn(k: Space, s: User, d: User, fl: Flags, root: bool, cur: nat, k1: Space)
    requires Books(k) && s.pid != KERNEL && d.pid != KERNEL && s != d && SourceOk(k, s, fl)
    requires MapPage(k, s, d, fl, root, cur) == Mapped(k1)
    ensures Books(k1) && EntriesAfter(k, k1, s, d, fl, root)
    ensures forall f {:trigger f in k1.b.own} :: f in k.b.own ==> f in k1.b.own && k1.b.own[f] == Added(k, s, d, cur, f) + k.b.own[f]
  {
    TableBooks(k, SlotOf(d));
    var k0 := GetTable(k, SlotOf(d)).value;
    if EntryOf(k, d) == ZERO {
      var f := EntryOf(k, s).frame;
      NoTable(k0, f, s);
      MapTurnIs(k, s, d, fl, root, cur, k0);
      MapTurnOwners(k0, s, d, fl, root, cur);
      WriteEffect(k0, AddOwner(k0.b, f, User(cur, d.adr)).b, s, d, fl, root);
      SameEntries(k, k0, k1, s, d, fl, root);
    } else {
      assert forall f :: Added(k, s, d, cur, f) == [];
    }
  }

  lemma SameEntries(k: Space, k0: Space, k1: Space, s: User, d: User, fl: Flags, root: bool)
    requires k0.ent == k.ent && EntriesAfter(k0, k1, s, d, fl, root)
    ensures EntriesAfter(k, k1, s, d, fl, root)
  {
    forall u | u != s && u != d ensures EntryOf(k1, u) == EntryOf(k, u) {
      assert EntryOf(k1, u) == EntryOf(k0, u);
    }
  }

  lemma MapTurnOwners(k0: Space, s: User, d: User, fl: Flags, root: bool, cur: nat)
    requires Books(k0) && SlotOf(d) in k0.tabs && s != d && EntryOf(k0, d) == ZERO && EntryOf(k0, s).present
    requires UserFrame(k0, EntryOf(k0, s).frame) && AddOwner(k0.b, EntryOf(k0, s).frame, User(cur, d.adr)).Added?
    ensures var f := EntryOf(k0, s).frame;
            var b := AddOwner(k0.b, f, User(cur, d.adr)).b;
            && b.own == k0.b.own[f := [User(cur, d.adr)] + k0.b.own[f]]
            && Books(WriteEntries(k0.(b := b), s, d, Granted(EntryOf(k0, s), fl, root), fl))
  {
    var f := EntryOf(k0, s).frame;
    var b := AddOwner(k0.b, f, User(cur, d.adr)).b;
    AddOwnerZoned(k0.b, f, User(cur, d.adr));
    forall t | t in k0.tabs ensures k0.tabs[t] in k0.b.own { assert TableOk(k0, t); }
    WriteBooks(k0, b, s, d, Granted(EntryOf(k0, s), fl, root), fl);
  }

  lemma MapTurnIs(k: Space, s: User, d: User, fl: Flags, root: bool, cur: nat, k0: Space)
    requires MapPage(k, s, d, fl, root, cur).Mapped? && GetTable(k, SlotOf(d)) == Some(k0) && EntryOf(k0, s) == EntryOf(k, s)
    requires EntryOf(k0, d) == ZERO && !MustCopy(k0, s, fl) && EntryOf(k, s).present && Counted(k0.b, EntryOf(k, s).frame)
    requires EntryOf(k, s).frame in k0.b.own
    ensures var f := EntryOf(k, s).frame;
            && AddOwner(k0.b, f, User(cur, d.adr)).Added?
            && MapPage(k, s, d, fl, root, cur)
               == Mapped(WriteEntries(k0.(b := AddOwner(k0.b, f, User(cur, d.adr)).b), s, d, Granted(EntryOf(k, s), fl, root), fl))
  {
  }

  // ---------------------------------------------------------------- mapping the range

  /** The pages that become owners of frame f. */
  ghost function Come(k: Space, s: User, d: User, n: nat, cur: nat, f: nat): multiset<User>
    decreases n
  {
    if n == 0 then multiset{} else multiset(Added(k, s, d, cur, f)) + Come(k, Next(s, 1), Next(d, 1), n - 1, cur, f)
  }

  /** The pages that give up frame f. */
  ghost function Gone(k: Space, s: User, n: nat, f: nat): multiset<User>
    decreases n
  {
    if n == 0 then multiset{} else (if EntryOf(k, s).frame == f then multiset{s} else multiset{}) + Gone(k, Next(s, 1), n - 1, f)
  }

  ghost predicate AlikeAt(k: Space, k1: Space, s: User, d: User, i: nat) {
    EntryOf(k1, Next(s, i)).frame == EntryOf(k, Next(s, i)).frame && (EntryOf(k1, Next(d, i)) == ZERO <==> EntryOf(k, Next(d, i)) == ZERO)
  }

  /** k and k1 agree on the frames of the sources and on which targets are vacant. */
  ghost predicate Alike(k: Space, k1: Space, s: User, d: User, n: nat) {
    forall i: nat {:trigger AlikeAt(k, k1, s, d, i)} :: i < n ==> AlikeAt(k, k1, s, d, i)
  }

  lemma {:induction false} AlikeCome(k: Space, k1: Space, s: User, d: User, n: nat, cur: nat, f: nat)
    requires Alike(k, k1, s, d, n)
    ensures Come(k1, s, d, n, cur, f) == Come(k, s, d, n, cur, f) && Gone(k1, s, n, f) == Gone(k, s, n, f)
    decreases n
  {
    if n > 0 {
      assert AlikeAt(k, k1, s, d, 0) && Next(s, 0) == s && Next(d, 0) == d;
      forall i: nat | i < n - 1 ensures AlikeAt(k, k1, Next(s, 1), Next(d, 1), i) {
        assert AlikeAt(k, k1, s, d, i + 1);
        NextNext(s, 1, i);
        NextNext(d, 1, i);
      }
      AlikeCome(k, k1, Next(s, 1), Next(d, 1), n - 1, cur, f);
    }
  }

  /** Page i of the range, seen from the second page on; the mapping of the first one does not touch it. */
  lemma TurnLater(k: Space, k1: Space, s: User, d: User, n: nat, fl: Flags, root: bool, i: nat)
    requires i + 1 < n && Apart(s, d, n) && EntriesAfter(k, k1, s, d, fl, root)
    ensures Next(s, i + 1) == Next(Next(s, 1), i) && Next(d, i + 1) == Next(Next(d, 1), i)
    ensures EntryOf(k1, Next(s, i + 1)) == EntryOf(k, Next(s, i + 1)) && EntryOf(k1, Next(d, i + 1)) == EntryOf(k, Next(d, i + 1))
  {
    ApartTail(s, d, n);
    NextNext(s, 1, i);
    NextNext(d, 1, i);
    assert NotPage(s, Next(d, 1), i) && NotPage(d, Next(s, 1), i);
  }

  /** What is left to do after the first page has been mapped is as it was. */
  lemma RestMovable(k: Space, k1: Space, s: User, d: User, n: nat, fl: Flags, root: bool, cur: nat)
    requires n > 0 && Movable(k, s, d, n, fl) && MapPage(k, s, d, fl, root, cur) == Mapped(k1)
    ensures Movable(k1, Next(s, 1), Next(d, 1), n - 1, fl) && Alike(k, k1, Next(s, 1), Next(d, 1), n - 1)
    ensures EntriesAfter(k, k1, s, d, fl, root)
    ensures forall f {:trigger f in k1.b.own} :: f in k.b.own ==> f in k1.b.own && k1.b.own[f] == Added(k, s, d, cur, f) + k.b.own[f]
  {
    ApartTail(s, d, n);
    assert SourceAt(k, s, 0, fl) && Next(s, 0) == s;
    MapTurn(k, s, d, fl, root, cur, k1);
    forall i: nat | i < n - 1 ensures SourceAt(k1, Next(s, 1), i, fl) && AlikeAt(k, k1, Next(s, 1), Next(d, 1), i) {
      TurnLater(k, k1, s, d, n, fl, root, i);
      assert SourceAt(k, s, i + 1, fl);
      OwnersGrow(k, k1, EntryOf(k, Next(s, i + 1)).frame, s, d, cur, Next(s, i + 1));
    }
  }

  lemma OwnersGrow(k: Space, k1: Space, f: nat, s: User, d: User, cur: nat, u: User)
    requires f in k.b.own && u in k.b.own[f] && f in k1.b.own && k1.b.own[f] == Added(k, s, d, cur, f) + k.b.own[f]
    ensures u in k1.b.own[f]
  {
  }

  /** No page table is missing under a present page, so the loop does not jump. */
  lemma MapLoopFirst(k: Space, s: User, d: User, n: nat, fl: Flags, root: bool, cur: nat)
    requires n > 0 && Movable(k, s, d, n, fl) && MapLoop(k, s, d, n, fl, root, cur).Mapped?
    ensures MapPage(k, s, d, fl, root, cur).Mapped?
    ensures MapLoop(k, s, d, n, fl, root, cur) == MapLoop(MapPage(k, s, d, fl, root, cur).k, Next(s, 1), Next(d, 1), n - 1, fl, root, cur)
  {
    assert SourceAt(k, s, 0, fl) && Next(s, 0) == s;
  }

  lemma FirstTurn(k: Space, s: User, d: User, n: nat, fl: Flags, root: bool, cur: nat) returns (k1: Space)
    requires n > 0 && Movable(k, s, d, n, fl) && MapLoop(k, s, d, n, fl, root, cur).Mapped?
    ensures MapPage(k, s, d, fl, root, cur) == Mapped(k1) && Movable(k1, Next(s, 1), Next(d, 1), n - 1, fl)
    ensures MapLoop(k, s, d, n, fl, root, cur) == MapLoop(k1, Next(s, 1), Next(d, 1), n - 1, fl, root, cur)
    ensures EntriesAfter(k, k1, s, d, fl, root)
    ensures Alike(k, k1, Next(s, 1), Next(d, 1), n - 1)
  {
    MapLoopFirst(k, s, d, n, fl, root, cur);
    k1 := MapPage(k, s, d, fl, root, cur).k;
    RestMovable(k, k1, s, d, n, fl, root, cur);
  }

  lemma {:induction false} MapLoopBooks(k: Space, s: User, d: User, n: nat, fl: Flags, root: bool, cur: nat)
    requires Movable(k, s, d, n, fl) && MapLoop(k, s, d, n, fl, root, cur).Mapped?
    ensures Books(MapLoop(k, s, d, n, fl, root, cur).k)
    decreases n
  {
    if n > 0 {
      var k1 := FirstTurn(k, s, d, n, fl, root, cur);
      MapLoopBooks(k1, Next(s, 1), Next(d, 1), n - 1, fl, root, cur);
    }
  }

  /** A page outside of both ranges keeps its entry. */
  lemma {:induction false} MapLoopOther(k: Space, s: User, d: User, n: nat, fl: Flags, root: bool, cur: nat, u: User)
    requires Movable(k, s, d, n, fl) && MapLoop(k, s, d, n, fl, root, cur).Mapped? && OutOf(u, s, n) && OutOf(u, d, n)
    ensures EntryOf(MapLoop(k, s, d, n, fl, root, cur).k, u) == EntryOf(k, u)
    decreases n
  {
    if n > 0 {
      var k1 := FirstTurn(k, s, d, n, fl, root, cur);
      OutOfTail(u, s, n);
      OutOfTail(u, d, n);
      assert EntryOf(k1, u) == EntryOf(k, u);
      MapLoopOther(k1, Next(s, 1), Next(d, 1), n - 1, fl, root, cur, u);
    }
  }

  /** The entries of a source and its target after the mapping. */
  ghost predicate EntriesAt(k: Space, k1: Space, s: User, d: User, fl: Flags, root: bool) {
    && EntryOf(k1, d) == (if EntryOf(k, d) == ZERO then Written(EntryOf(k, s), fl, root) else EntryOf(k, d))
    && EntryOf(k1, s) == (if fl.cow && EntryOf(k, d) == ZERO then Written(EntryOf(k, s), fl, root) else EntryOf(k, s))
  }

  /** The first source and the first target are not touched after their mapping. */
  lemma MapLoopAtFirst(k: Space, s: User, d: User, n: nat, fl: Flags, root: bool, cur: nat)
    requires n > 0 && Movable(k, s, d, n, fl) && MapLoop(k, s, d, n, fl, root, cur).Mapped?
    ensures EntriesAt(k, MapLoop(k, s, d, n, fl, root, cur).k, s, d, fl, root)
  {
    var k1 := FirstTurn(k, s, d, n, fl, root, cur);
    ApartTail(s, d, n);
    FirstOutOf(s, n);
    FirstOutOf(d, n);
    MapLoopOther(k1, Next(s, 1), Next(d, 1), n - 1, fl, root, cur, s);
    MapLoopOther(k1, Next(s, 1), Next(d, 1), n - 1, fl, root, cur, d);
  }

  lemma EntriesFrom(k: Space, k1: Space, k': Space, s: User, d: User, fl: Flags, root: bool)
    requires EntryOf(k1, s) == EntryOf(k, s) && EntryOf(k1, d) == EntryOf(k, d) && EntriesAt(k1, k', s, d, fl, root)
    ensures EntriesAt(k, k', s, d, fl, root)
  {
  }

  /** Source and target i after the mapping of the whole range. */
  lemma {:induction false} MapLoopAt(k: Space, s: User, d: User, n: nat, fl: Flags, root: bool, cur: nat, i: nat)
    requires Movable(k, s, d, n, fl) && MapLoop(k, s, d, n, fl, root, cur).Mapped? && i < n
    ensures EntriesAt(k, MapLoop(k, s, d, n, fl, root, cur).k, Next(s, i), Next(d, i), fl, root)
    decreases n
  {
    if i == 0 {
      MapLoopAtFirst(k, s, d, n, fl, root, cur);
      assert Next(s, 0) == s && Next(d, 0) == d;
    } else {
      var k1 := FirstTurn(k, s, d, n, fl, root, cur);
      TurnLater(k, k1, s, d, n, fl, root, i - 1);
      MapLoopAt(k1, Next(s, 1), Next(d, 1), n - 1, fl, root, cur, i - 1);
      EntriesFrom(k, k1, MapLoop(k, s, d, n, fl, root, cur).k, Next(s, i), Next(d, i), fl, root);
    }
  }

  /** The owners of a frame in use after the mapping of the whole range. */
  lemma {:induction false} MapLoopOwners(k: Space, s: User, d: User, n: nat, fl: Flags, root: bool, cur: nat, f: nat)
    requires Movable(k, s, d, n, fl) && MapLoop(k, s, d, n, fl, root, cur).Mapped? && f in k.b.own
    ensures var k' := MapLoop(k, s, d, n, fl, root, cur).k;
            f in k'.b.own && multiset(k'.b.own[f]) == multiset(k.b.own[f]) + Come(k, s, d, n, cur, f)
    decreases n
  {
    if n > 0 {
      var k1 := FirstTurn(k, s, d, n, fl, root, cur);
      RestMovable(k, k1, s, d, n, fl, root, cur);
      AlikeCome(k, k1, Next(s, 1), Next(d, 1), n - 1, cur, f);
      assert f in k1.b.own;
      MapLoopOwners(k1, Next(s, 1), Next(d, 1), n - 1, fl, root, cur, f);
    }
  }

  // ---------------------------------------------------------------- unmapping one page of the range

  ghost predicate NotTab(k: Space, f: nat) {
    forall t :: t in k.tabs ==> k.tabs[t] != f
  }

  /** A present page that owns its frame. */
  ghost predicate Owned(k: Space, u: User) {
    EntryOf(k, u).present && EntryOf(k, u).frame in k.b.own && u in k.b.own[EntryOf(k, u).frame]
  }

  lemma {:induction false} DropOnce(s: seq<User>, u: User)
    requires u in s
    ensures multiset(Drop(s, u)) == multiset(s) - multiset{u}
  {
    assert s == [s[0]] + s[1..];
    if s[0] != u { DropOnce(s[1..], u); }
  }

  /** The owners and the free entries after page u has given up frame f. */
  lemma FreedOnce(b: Buffer, f: nat, u: User)
    requires Zoned(b) && f in b.own && u in b.own[f] && FreeUser(b, f, u).Done?
    ensures var b' := FreeUser(b, f, u).b;
            && multiset(Owners(b', f)) == multiset(b.own[f]) - multiset{u} && |Owners(b', f)| == |b.own[f]| - 1
            && (forall g :: g != f ==> Owners(b', g) == Owners(b, g))
            && b'.entries >= b.entries && (|b.own[f]| >= 2 ==> b'.entries > b.entries)
  {
    DropOnce(b.own[f], u);
    if |b.own[f]| == 1 { assert b.own[f] == [u]; }
  }

  /** The entries after page s has been unmapped; others that were not present can have gone with the table. */
  ghost predicate EntriesWithout(k: Space, k1: Space, s: User) {
    && EntryOf(k1, s) == ZERO
    && (forall u {:trigger EntryOf(k1, u)} ::
          u != s && (EntryOf(k, u).present || EntryOf(k, u) == ZERO || u.pid != s.pid) ==> EntryOf(k1, u) == EntryOf(k, u))
  }

  lemma UnmapEntries(k: Space, s: User, free: bool, k1: Space)
    requires Books(k) && s.pid != KERNEL && EntryOf(k, s).present && UnmapPage(k, s, Complete, free) == Unmapped(k1)
    ensures EntriesWithout(k, k1, s)
  {
    var b := FreeUser(k.b, EntryOf(k, s).frame, s).b;
    var k2 := Count(k.(b := b, ent := Put(k.ent, s, ZERO)), SlotOf(s), -1);
    assert TableOk(k, SlotOf(s));
    assert PresentIn(k2.ent, SlotOf(s)) == PresentIn(k.ent, SlotOf(s)) - {s};
    assert s in PresentIn(k.ent, SlotOf(s)) && Cnt(k2, SlotOf(s)) == |PresentIn(k2.ent, SlotOf(s))|;
    forall u | u != s && EntryOf(k, u).present && SlotOf(u) == SlotOf(s) ensures Cnt(k2, SlotOf(s)) != 0 {
      assert u in PresentIn(k2.ent, SlotOf(s));
    }
    assert k1 == Masked(if Cnt(k2, SlotOf(s)) == 0 then DropTable(k2, SlotOf(s)) else k2, s, Complete);
  }

  lemma UnmapOwners(k: Space, s: User, free: bool, k1: Space, f: nat)
    requires Books(k) && s.pid != KERNEL && Owned(k, s) && UnmapPage(k, s, Complete, free) == Unmapped(k1) && NotTab(k, f)
    ensures NotTab(k1, f)
    ensures Left(Owners(k.b, f), Owners(k1.b, f), if EntryOf(k, s).frame == f then multiset{s} else multiset{})
    ensures k1.b.entries >= k.b.entries && (|Owners(k.b, EntryOf(k, s).frame)| >= 2 ==> k1.b.entries > k.b.entries)
  {
    FreedOnce(k.b, EntryOf(k, s).frame, s);
    var k0 := k.(b := FreeUser(k.b, EntryOf(k, s).frame, s).b);
    AbsentOwners(k0, s, f);
    assert k1.b == Absent(k0, s, Complete).b;
  }

  /** Giving a page table back touches no owner of another frame. */
  lemma AbsentOwners(k: Space, s: User, f: nat)
    requires NotTab(k, f)
    ensures var k1 := Absent(k, s, Complete); NotTab(k1, f) && Owners(k1.b, f) == Owners(k.b, f) && k1.b.entries == k.b.entries
  {
  }

  // ---------------------------------------------------------------- unmapping the range

  ghost predicate OwnedAt(k: Space, s: User, i: nat) {
    Owned(k, Next(s, i))
  }

  ghost predicate Leaving(k: Space, s: User, n: nat) {
    Books(k) && s.pid != KERNEL && forall i: nat {:trigger OwnedAt(k, s, i)} :: i < n ==> OwnedAt(k, s, i)
  }

  /** Another page of the range is still there after the first one has been unmapped. */
  lemma StillOwned(k: Space, k1: Space, s: User, free: bool, u: User)
    requires Books(k) && s.pid != KERNEL && Owned(k, s) && UnmapPage(k, s, Complete, free) == Unmapped(k1)
    requires u != s && Owned(k, u) && u.pid != KERNEL
    ensures Owned(k1, u) && EntryOf(k1, u) == EntryOf(k, u)
  {
    var f := EntryOf(k, u).frame;
    UnmapEntries(k, s, free, k1);
    NoTable(k, f, u);
    UnmapOwners(k, s, free, k1, f);
    assert EntryOf(k1, u) == EntryOf(k, u);
    assert u in multiset(Owners(k1.b, f));
  }

  lemma FirstUnmap(k: Space, s: User, n: nat, free: bool, at: int) returns (k1: Space)
    requires n > 0 && Leaving(k, s, n) && UnmapLoop(k, s, n, Complete, free, at).Finished?
    ensures UnmapPage(k, s, Complete, free) == Unmapped(k1) && Owned(k, s) && Leaving(k1, Next(s, 1), n - 1)
    ensures UnmapLoop(k, s, n, Complete, free, at) == UnmapLoop(k1, Next(s, 1), n - 1, Complete, free, SlotOf(s).n)
    ensures Alike(k, k1, Next(s, 1), Next(s, 1), n - 1)
  {
    assert OwnedAt(k, s, 0) && Next(s, 0) == s;
    k1 := UnmapPage(k, s, Complete, free).k;
    UnmapPageBooks(k, s, Complete, free);
    forall i: nat | i < n - 1 ensures OwnedAt(k1, Next(s, 1), i) && AlikeAt(k, k1, Next(s, 1), Next(s, 1), i) {
      NextNext(s, 1, i);
      assert OwnedAt(k, s, i + 1);
      StillOwned(k, k1, s, free, Next(s, i + 1));
    }
  }

  /** An empty entry stays empty, and one outside of the range that is present, or of another process, stays. */
  lemma {:induction false} UnmapLoopOther(k: Space, s: User, n: nat, free: bool, at: int, u: User)
    requires Leaving(k, s, n) && UnmapLoop(k, s, n, Complete, free, at).Finished?
    requires EntryOf(k, u) == ZERO || (OutOf(u, s, n) && (EntryOf(k, u).present || u.pid != s.pid))
    ensures EntryOf(UnmapLoop(k, s, n, Complete, free, at).k, u) == EntryOf(k, u)
    decreases n
  {
    if n > 0 {
      var k1 := FirstUnmap(k, s, n, free, at);
      UnmapEntries(k, s, free, k1);
      if EntryOf(k, u) != ZERO { OutOfTail(u, s, n); }
      assert EntryOf(k1, u) == EntryOf(k, u);
      UnmapLoopOther(k1, Next(s, 1), n - 1, free, SlotOf(s).n, u);
    }
  }

  lemma {:induction false} UnmapLoopAt(k: Space, s: User, n: nat, free: bool, at: int, i: nat)
    requires Leaving(k, s, n) && UnmapLoop(k, s, n, Complete, free, at).Finished? && i < n
    ensures EntryOf(UnmapLoop(k, s, n, Complete, free, at).k, Next(s, i)) == ZERO
    decreases n
  {
    var k1 := FirstUnmap(k, s, n, free, at);
    if i == 0 {
      UnmapEntries(k, s, free, k1);
      UnmapLoopOther(k1, Next(s, 1), n - 1, free, SlotOf(s).n, s);
      assert Next(s, 0) == s;
    } else {
      NextNext(s, 1, i - 1);
      UnmapLoopAt(k1, Next(s, 1), n - 1, free, SlotOf(s).n, i - 1);
    }
  }

  lemma {:induction false} UnmapLoopOwners(k: Space, s: User, n: nat, free: bool, at: int, f: nat)
    requires Leaving(k, s, n) && UnmapLoop(k, s, n, Complete, free, at).Finished? && NotTab(k, f)
    ensures Left(Owners(k.b, f), Owners(UnmapLoop(k, s, n, Complete, free, at).k.b, f), Gone(k, s, n, f))
    decreases n
  {
    if n > 0 {
      var k1 := FirstUnmap(k, s, n, free, at);
      UnmapOwners(k, s, free, k1, f);
      UnmapLoopOwners(k1, Next(s, 1), n - 1, free, SlotOf(s).n, f);
      AlikeCome(k, k1, Next(s, 1), Next(s, 1), n - 1, 0, f);
      LeftTrans(Owners(k.b, f), Owners(k1.b, f), Owners(UnmapLoop(k, s, n, Complete, free, at).k.b, f),
                if EntryOf(k, s).frame == f then multiset{s} else multiset{}, Gone(k, Next(s, 1), n - 1, f));
    }
  }

  /** b is what is left of a when the members of m have left it, each of them once. */
  ghost predicate Left(a: seq<User>, b: seq<User>, m: multiset<User>) {
    multiset(b) == multiset(a) - m && |b| == |a| - |m|
  }

  lemma LeftTrans(a: seq<User>, b: seq<User>, c: seq<User>, m: multiset<User>, m': multiset<User>)
    requires Left(a, b, m) && Left(b, c, m')
    ensures Left(a, c, m + m')
  {
  }

  // ---------------------------------------------------------------- the move

  /** In an accounted state nothing more than presence is asked of the sources. */
  lemma AccMovable(k: Space, s: User, d: User, n: nat, fl: Flags)
    requires Acc(k) && s.pid != KERNEL && d.pid != KERNEL && Apart(s, d, n)
    requires forall i: nat {:trigger Next(s, i)} :: i < n ==> EntryOf(k, Next(s, i)).present && !MustCopy(k, Next(s, i), fl)
    ensures Movable(k, s, d, n, fl)
  {
    AccBooks(k);
    forall i: nat | i < n ensures SourceAt(k, s, i, fl) {
      assert EntryOf(k, Next(s, i)).present;
      assert EntryOk(k, Next(s, i));
    }
  }

  lemma {:induction false} ComeHas(k: Space, s: User, d: User, n: nat, cur: nat, f: nat, v: User)
    requires v in Come(k, s, d, n, cur, f)
    ensures v.pid == cur
    decreases n
  {
    if n > 0 && v in Come(k, Next(s, 1), Next(d, 1), n - 1, cur, f) { ComeHas(k, Next(s, 1), Next(d, 1), n - 1, cur, f, v); }
  }

  lemma {:induction false} ComeOf(k: Space, s: User, d: User, n: nat, cur: nat, i: nat)
    requires i < n && EntryOf(k, Next(d, i)) == ZERO
    ensures User(cur, Next(d, i).adr) in Come(k, s, d, n, cur, EntryOf(k, Next(s, i)).frame)
    decreases n
  {
    if i == 0 {
      assert Next(s, 0) == s && Next(d, 0) == d;
    } else {
      NextNext(s, 1, i - 1);
      NextNext(d, 1, i - 1);
      ComeOf(k, Next(s, 1), Next(d, 1), n - 1, cur, i - 1);
    }
  }

  lemma {:induction false} GoneOnly(k: Space, s: User, n: nat, f: nat, v: User)
    requires OutOf(v, s, n)
    ensures v !in Gone(k, s, n, f)
    decreases n
  {
    if n > 0 {
      OutOfTail(v, s, n);
      GoneOnly(k, Next(s, 1), n - 1, f, v);
    }
  }

  /** As many pages come as go where all targets are vacant, and none comes where all are occupied. */
  lemma {:induction false} ComeGone(k: Space, s: User, d: User, n: nat, cur: nat, f: nat)
    ensures Vacant(k, d, n) ==> |Come(k, s, d, n, cur, f)| == |Gone(k, s, n, f)|
    ensures Occupied(k, d, n) ==> Come(k, s, d, n, cur, f) == multiset{}
    decreases n
  {
    if n > 0 {
      assert Next(d, 0) == d;
      assert forall i: nat {:trigger Next(Next(d, 1), i)} :: Next(Next(d, 1), i) == Next(d, i + 1);
      ComeGone(k, Next(s, 1), Next(d, 1), n - 1, cur, f);
    }
  }

  /** Every target page has an entry. */
  ghost predicate Occupied(k: Space, d: User, n: nat) {
    forall i: nat {:trigger Next(d, i)} :: i < n ==> EntryOf(k, Next(d, i)) != ZERO
  }

  /** The two halves of a move that comes to its end. */
  lemma Halves(k: Space, adr: nat, d: User, n: nat, fl: Flags, root: bool, cur: nat, free: bool) returns (k1: Space)
    requires Movable(k, User(cur, adr), d, n, fl) && Move(k, adr, d, n, fl, root, cur, free).Finished?
    ensures MapLoop(k, User(cur, adr), d, n, fl, root, cur) == Mapped(k1) && Leaving(k1, User(cur, adr), n)
    ensures UnmapLoop(k1, User(cur, adr), n, Complete, free, -1) == Move(k, adr, d, n, fl, root, cur, free)
  {
    var s := User(cur, adr);
    k1 := MapLoop(k, s, d, n, fl, root, cur).k;
    MapLoopBooks(k, s, d, n, fl, root, cur);
    forall i: nat | i < n ensures OwnedAt(k1, s, i) { MappedOwned(k, s, d, n, fl, root, cur, i); }
  }

  /** Source i is still a present page that owns its frame after the mapping. */
  lemma MappedOwned(k: Space, s: User, d: User, n: nat, fl: Flags, root: bool, cur: nat, i: nat)
    requires Movable(k, s, d, n, fl) && MapLoop(k, s, d, n, fl, root, cur).Mapped? && i < n
    ensures var k1 := MapLoop(k, s, d, n, fl, root, cur).k;
            OwnedAt(k1, s, i) && EntryOf(k1, Next(s, i)).frame == EntryOf(k, Next(s, i)).frame
  {
    assert SourceAt(k, s, i, fl);
    var f := EntryOf(k, Next(s, i)).frame;
    var k1 := MapLoop(k, s, d, n, fl, root, cur).k;
    MapLoopAt(k, s, d, n, fl, root, cur, i);
    MapLoopOwners(k, s, d, n, fl, root, cur, f);
    assert Next(s, i) in multiset(k1.b.own[f]);
  }

  /** The entries of source and target i after a move. */
  lemma MoveEntries(k: Space, adr: nat, d: User, n: nat, fl: Flags, root: bool, cur: nat, free: bool, i: nat)
    requires Movable(k, User(cur, adr), d, n, fl) && Move(k, adr, d, n, fl, root, cur, free).Finished? && i < n
    ensures var (k', si, di) := (Move(k, adr, d, n, fl, root, cur, free).k, Next(User(cur, adr), i), Next(d, i));
            && EntryOf(k', si) == ZERO
            && (EntryOf(k, di) == ZERO ==> EntryOf(k', di) == Written(EntryOf(k, si), fl, root))
            && (EntryOf(k, di).present || d.pid != cur ==> EntryOf(k, di) != ZERO ==> EntryOf(k', di) == EntryOf(k, di))
  {
    var s := User(cur, adr);
    var k1 := Halves(k, adr, d, n, fl, root, cur, free);
    MapLoopAt(k, s, d, n, fl, root, cur, i);
    UnmapLoopAt(k1, s, n, free, -1, i);
    TargetOut(s, d, n, i);
    if EntryOf(k, Next(d, i)) == ZERO {
      assert SourceAt(k, s, i, fl);
      UnmapLoopOther(k1, s, n, free, -1, Next(d, i));
    } else if EntryOf(k, Next(d, i)).present || d.pid != cur {
      UnmapLoopOther(k1, s, n, free, -1, Next(d, i));
    }
  }

  lemma TargetOut(s: User, d: User, n: nat, i: nat)
    requires Apart(s, d, n) && i < n
    ensures OutOf(Next(d, i), s, n)
  {
    forall j: nat | j < n ensures NotPage(Next(d, i), s, j) {
      assert NotTarget(s, j, d, n);
      assert NotPage(Next(s, j), d, i);
    }
  }

  /** A frame in use that is no page table stays so when a page is mapped. */
  lemma TurnUserFrame(k: Space, s: User, d: User, fl: Flags, root: bool, cur: nat, k1: Space, f: nat)
    requires Zoned(k.b) && UserFrame(k, f) && MapPage(k, s, d, fl, root, cur) == Mapped(k1)
    ensures UserFrame(k1, f)
  {
    if GetTable(k, SlotOf(d)).Some? {
      var k0 := GetTable(k, SlotOf(d)).value;
      TableUserFrame(k, SlotOf(d), k0, f);
      if Copies(k0, s, d) {
        var k2 := if MustCopy(k0, s, fl) then CopyPage(k0, s, cur).k else k0;
        CopyUserFrame(k2, s, d, fl, root, cur, f);
      }
    }
  }

  lemma TableUserFrame(k: Space, s: Slot, k0: Space, f: nat)
    requires Zoned(k.b) && UserFrame(k, f) && GetTable(k, s) == Some(k0)
    ensures UserFrame(k0, f)
  {
    if s !in k.tabs { AllocKernelZoned(k.b); }
  }

  lemma CopyUserFrame(k: Space, s: User, d: User, fl: Flags, root: bool, cur: nat, f: nat)
    requires UserFrame(k, f) && CopyEntry(k, s, d, fl, root, cur).Mapped?
    ensures UserFrame(CopyEntry(k, s, d, fl, root, cur).k, f)
  {
  }

  lemma {:induction false} MapLoopUserFrame(k: Space, s: User, d: User, n: nat, fl: Flags, root: bool, cur: nat, f: nat)
    requires Movable(k, s, d, n, fl) && MapLoop(k, s, d, n, fl, root, cur).Mapped? && UserFrame(k, f)
    ensures UserFrame(MapLoop(k, s, d, n, fl, root, cur).k, f)
    decreases n
  {
    if n > 0 {
      var k1 := FirstTurn(k, s, d, n, fl, root, cur);
      TurnUserFrame(k, s, d, fl, root, cur, k1, f);
      MapLoopUserFrame(k1, Next(s, 1), Next(d, 1), n - 1, fl, root, cur, f);
    }
  }

  /** The owners b' of frame f after the move: the targets that were vacant come, the sources go. */
  ghost predicate OwnersMoved(k: Space, b': Buffer, s: User, d: User, n: nat, cur: nat, f: nat) {
    && multiset(Owners(b', f)) == multiset(Owners(k.b, f)) + Come(k, s, d, n, cur, f) - Gone(k, s, n, f)
    && |Owners(b', f)| == |Owners(k.b, f)| + |Come(k, s, d, n, cur, f)| - |Gone(k, s, n, f)|
  }

  /** The owners of every frame in use that is no page table, after a move. */
  lemma MoveOwners(k: Space, adr: nat, d: User, n: nat, fl: Flags, root: bool, cur: nat, free: bool, f: nat)
    requires Movable(k, User(cur, adr), d, n, fl) && Move(k, adr, d, n, fl, root, cur, free).Finished? && UserFrame(k, f)
    ensures OwnersMoved(k, Move(k, adr, d, n, fl, root, cur, free).k.b, User(cur, adr), d, n, cur, f)
  {
    var s := User(cur, adr);
    var k1 := Halves(k, adr, d, n, fl, root, cur, free);
    MapLoopOwners(k, s, d, n, fl, root, cur, f);
    MapLoopUserFrame(k, s, d, n, fl, root, cur, f);
    UnmapLoopOwners(k1, s, n, free, -1, f);
    GoneAlike(k, s, d, n, fl, root, cur, f);
    SameSize(k.b.own[f], k1.b.own[f], Come(k, s, d, n, cur, f));
  }

  /** The frame of a source is in use and no page table. */
  lemma SourceFrame(k: Space, s: User, d: User, n: nat, fl: Flags, i: nat)
    requires Movable(k, s, d, n, fl) && i < n
    ensures UserFrame(k, EntryOf(k, Next(s, i)).frame)
  {
    assert SourceAt(k, s, i, fl);
    NoTable(k, EntryOf(k, Next(s, i)).frame, Next(s, i));
  }

  lemma SameSize(a: seq<User>, b: seq<User>, m: multiset<User>)
    requires multiset(b) == multiset(a) + m
    ensures |b| == |a| + |m|
  {
    assert |multiset(b)| == |b| && |multiset(a)| == |a|;
  }

  lemma GoneAlike(k: Space, s: User, d: User, n: nat, fl: Flags, root: bool, cur: nat, f: nat)
    requires Movable(k, s, d, n, fl) && MapLoop(k, s, d, n, fl, root, cur).Mapped?
    ensures Gone(MapLoop(k, s, d, n, fl, root, cur).k, s, n, f) == Gone(k, s, n, f)
  {
    var k1 := MapLoop(k, s, d, n, fl, root, cur).k;
    forall i: nat | i < n ensures AlikeAt(k, k1, s, s, i) {
      MapLoopAt(k, s, d, n, fl, root, cur, i);
      assert SourceAt(k, s, i, fl);
    }
    AlikeCome(k, k1, s, s, n, cur, f);
  }

  /**
   sysc_move of a range of pages to vacant targets, in whatever process: every source is empty
   and every target has its entry within the request; the usage of every frame that is no page
   table is unchanged, and the pages of the calling process at the target addresses replace the
   sources among its owners.  This asks nothing of other frames, so it holds behind a mapping into
   another process too.  From an accounted state the targets become owners, and the accounting is
   kept, exactly if they belong to the calling process.
   */
  lemma MoveReplaces(k: Space, adr: nat, d: User, n: nat, fl: Flags, root: bool, cur: nat, free: bool, i: nat)
    requires Movable(k, User(cur, adr), d, n, fl) && Vacant(k, d, n)
    requires Move(k, adr, d, n, fl, root, cur, free).Finished? && i < n
    ensures var (k', s, si, di) := (Move(k, adr, d, n, fl, root, cur, free).k, User(cur, adr), Next(User(cur, adr), i), Next(d, i));
            var f := EntryOf(k, si).frame;
            && EntryOf(k', si) == ZERO && EntryOf(k', di) == Written(EntryOf(k, si), fl, root)
            && UserFrame(k, f)
            && (forall g :: UserFrame(k, g) ==> |Owners(k'.b, g)| == |Owners(k.b, g)| && OwnersMoved(k, k'.b, s, d, n, cur, g))
            && (Acc(k) ==> (di in Owners(k'.b, f) <==> d.pid == cur) && (Acc(k') <==> d.pid == cur))
  {
    var s, di := User(cur, adr), Next(d, i);
    var k', f := Move(k, adr, d, n, fl, root, cur, free).k, EntryOf(k, Next(s, i)).frame;
    assert EntryOf(k, di) == ZERO;
    MoveEntries(k, adr, d, n, fl, root, cur, free, i);
    SourceFrame(k, s, d, n, fl, i);
    forall g | UserFrame(k, g) ensures |Owners(k'.b, g)| == |Owners(k.b, g)| && OwnersMoved(k, k'.b, s, d, n, cur, g) {
      MoveOwners(k, adr, d, n, fl, root, cur, free, g);
      ComeGone(k, s, d, n, cur, g);
    }
    assert SourceAt(k, s, i, fl);
    if Acc(k) {
      TargetOwns(k, k', s, d, n, fl, cur, i);
      if d.pid == cur { MoveAccounted(k, adr, d, n, fl, root, cur, free); }
    }
    if Acc(k) && d.pid != cur {
      assert EntryOf(k', di).present && EntryOf(k', di).frame == f && di !in Owners(k'.b, f);
      assert !EntryOk(k', di);
    }
  }

  lemma TargetOwns(k: Space, k': Space, s: User, d: User, n: nat, fl: Flags, cur: nat, i: nat)
    requires Acc(k) && Movable(k, s, d, n, fl) && i < n && EntryOf(k, Next(d, i)) == ZERO
    requires OwnersMoved(k, k'.b, s, d, n, cur, EntryOf(k, Next(s, i)).frame)
    ensures Next(d, i) in Owners(k'.b, EntryOf(k, Next(s, i)).frame) <==> d.pid == cur
  {
    var f, di := EntryOf(k, Next(s, i)).frame, Next(d, i);
    assert OwnerOk(k, f);
    assert di !in Owners(k.b, f);
    TargetOut(s, d, n, i);
    GoneOnly(k, s, n, f, di);
    if d.pid == cur {
      ComeOf(k, s, d, n, cur, i);
    } else if di in Come(k, s, d, n, cur, f) {
      ComeHas(k, s, d, n, cur, f, di);
    }
    assert di in Owners(k'.b, f) <==> di in multiset(Owners(k'.b, f));
  }

  /** What a process maps into itself from present pages is accounted. */
  lemma {:induction false} PresentKeeps(k: Space, s: User, d: User, n: nat, fl: Flags, root: bool, cur: nat)
    requires Movable(k, s, d, n, fl) && d.pid == cur && MapLoop(k, s, d, n, fl, root, cur).Mapped?
    ensures MapKeeps(k, s, d, n, fl, root, cur)
    decreases n
  {
    if n > 0 {
      assert SourceAt(k, s, 0, fl) && Next(s, 0) == s;
      var k1 := FirstTurn(k, s, d, n, fl, root, cur);
      PresentKeeps(k1, Next(s, 1), Next(d, 1), n - 1, fl, root, cur);
    }
  }

  lemma MoveAccounted(k: Space, adr: nat, d: User, n: nat, fl: Flags, root: bool, cur: nat, free: bool)
    requires Acc(k) && Movable(k, User(cur, adr), d, n, fl) && d.pid == cur && Move(k, adr, d, n, fl, root, cur, free).Finished?
    ensures Acc(Move(k, adr, d, n, fl, root, cur, free).k)
  {
    var s := User(cur, adr);
    var k1 := Halves(k, adr, d, n, fl, root, cur, free);
    PresentKeeps(k, s, d, n, fl, root, cur);
    MoveAccounting(k, adr, d, n, fl, Caller(cur, root), free);
  }

  /**
   Where the targets have entries the pages are lost: the sources go, each from the owners of
   its frame, and nothing takes their place.
   */
  lemma MoveLoses(k: Space, adr: nat, d: User, n: nat, fl: Flags, root: bool, cur: nat, free: bool, i: nat)
    requires Movable(k, User(cur, adr), d, n, fl) && Occupied(k, d, n)
    requires Move(k, adr, d, n, fl, root, cur, free).Finished? && i < n
    ensures var (k', s, si, di) := (Move(k, adr, d, n, fl, root, cur, free).k, User(cur, adr), Next(User(cur, adr), i), Next(d, i));
            && (Acc(k) ==> Acc(k')) && EntryOf(k', si) == ZERO && (EntryOf(k, di).present ==> EntryOf(k', di) == EntryOf(k, di))
            && forall g :: UserFrame(k, g) ==> Left(Owners(k.b, g), Owners(k'.b, g), Gone(k, s, n, g))
  {
    var s, k' := User(cur, adr), Move(k, adr, d, n, fl, root, cur, free).k;
    MoveEntries(k, adr, d, n, fl, root, cur, free, i);
    forall g | UserFrame(k, g) ensures Left(Owners(k.b, g), Owners(k'.b, g), Gone(k, s, n, g)) {
      MoveOwners(k, adr, d, n, fl, root, cur, free, g);
      ComeGone(k, s, d, n, cur, g);
    }
    var k1 := Halves(k, adr, d, n, fl, root, cur, free);
    OccupiedKeeps(k, s, d, n, fl, root, cur);
    if Acc(k) { MoveAccounting(k, adr, d, n, fl, Caller(cur, root), free); }
  }

  lemma {:induction false} OccupiedKeeps(k: Space, s: User, d: User, n: nat, fl: Flags, root: bool, cur: nat)
    requires Movable(k, s, d, n, fl) && Occupied(k, d, n) && MapLoop(k, s, d, n, fl, root, cur).Mapped?
    ensures MapKeeps(k, s, d, n, fl, root, cur)
    decreases n
  {
    if n > 0 {
      assert SourceAt(k, s, 0, fl) && Next(s, 0) == s && Next(d, 0) == d;
      var k1 := FirstTurn(k, s, d, n, fl, root, cur);
      forall i: nat | i < n - 1 ensures EntryOf(k1, Next(Next(d, 1), i)) != ZERO {
        TurnLater(k, k1, s, d, n, fl, root, i);
      }
      OccupiedKeeps(k1, Next(s, 1), Next(d, 1), n - 1, fl, root, cur);
    }
  }

  // ---------------------------------------------------------------- when the move dies

  /** The share-table entries that one more owner of frame f takes. */
  function NeedFor(b: Buffer, f: nat): nat {
    EntriesFor(|Owners(b, f)| + 1) - EntriesFor(|Owners(b, f)|)
  }

  /** The same for one more owner of each frame of a sequence. */
  function Needed(b: Buffer, fs: seq<nat>): nat
    decreases |fs|
  {
    if fs == [] then 0
    else NeedFor(b, fs[0]) + Needed(b.(own := b.own[fs[0] := [User(0, 0)] + Owners(b, fs[0])]), fs[1..])
  }

  ghost function FramesOf(k: Space, s: User, n: nat): seq<nat>
    decreases n
  {
    if n == 0 then [] else [EntryOf(k, s).frame] + FramesOf(k, Next(s, 1), n - 1)
  }

  ghost predicate SameUsage(b: Buffer, b': Buffer, fs: seq<nat>) {
    forall f :: f in fs ==> |Owners(b', f)| == |Owners(b, f)|
  }

  lemma {:induction false} NeededSame(b: Buffer, b': Buffer, fs: seq<nat>)
    requires SameUsage(b, b', fs)
    ensures Needed(b', fs) == Needed(b, fs)
    decreases |fs|
  {
    if fs != [] {
      var c, c' := b.(own := b.own[fs[0] := [User(0, 0)] + Owners(b, fs[0])]), b'.(own := b'.own[fs[0] := [User(0, 0)] + Owners(b', fs[0])]);
      forall f | f in fs[1..] ensures |Owners(c', f)| == |Owners(c, f)| { assert f in fs; }
      NeededSame(c, c', fs[1..]);
    }
  }

  lemma {:induction false} FramesAlike(k: Space, k1: Space, s: User, d: User, n: nat)
    requires Alike(k, k1, s, d, n)
    ensures FramesOf(k1, s, n) == FramesOf(k, s, n)
    decreases n
  {
    if n > 0 {
      assert AlikeAt(k, k1, s, d, 0) && Next(s, 0) == s;
      forall i: nat | i < n - 1 ensures AlikeAt(k, k1, Next(s, 1), Next(d, 1), i) {
        assert AlikeAt(k, k1, s, d, i + 1);
        NextNext(s, 1, i);
        NextNext(d, 1, i);
      }
      FramesAlike(k, k1, Next(s, 1), Next(d, 1), n - 1);
    }
  }

  lemma {:induction false} FramesUsed(k: Space, s: User, n: nat, fl: Flags)
    requires SourcesOk(k, s, n, fl)
    ensures forall f :: f in FramesOf(k, s, n) ==> f in k.b.own
    decreases n
  {
    if n > 0 {
      assert SourceAt(k, s, 0, fl) && Next(s, 0) == s;
      forall i: nat | i < n - 1 ensures SourceAt(k, Next(s, 1), i, fl) {
        assert SourceAt(k, s, i + 1, fl);
        NextNext(s, 1, i);
      }
      FramesUsed(k, Next(s, 1), n - 1, fl);
    }
  }

  /** The entries that mapping page s to a vacant page takes. */
  lemma TurnNeeds(k: Space, s: User, d: User, fl: Flags, root: bool, cur: nat, k1: Space)
    requires Books(k) && s.pid != KERNEL && d.pid != KERNEL && s != d && SourceOk(k, s, fl) && EntryOf(k, d) == ZERO
    requires MapPage(k, s, d, fl, root, cur) == Mapped(k1)
    ensures k1.b.entries == k.b.entries - NeedFor(k.b, EntryOf(k, s).frame)
  {
    TableBooks(k, SlotOf(d));
    var k0 := GetTable(k, SlotOf(d)).value;
    NoTable(k0, EntryOf(k, s).frame, s);
    MapTurnIs(k, s, d, fl, root, cur, k0);
  }

  lemma {:induction false} MapLoopNeeds(k: Space, s: User, d: User, n: nat, fl: Flags, root: bool, cur: nat)
    requires Movable(k, s, d, n, fl) && Vacant(k, d, n) && MapLoop(k, s, d, n, fl, root, cur).Mapped?
    ensures MapLoop(k, s, d, n, fl, root, cur).k.b.entries == k.b.entries - Needed(k.b, FramesOf(k, s, n))
    decreases n
  {
    if n > 0 {
      var f := EntryOf(k, s).frame;
      var k1 := FirstTurn(k, s, d, n, fl, root, cur);
      ApartTail(s, d, n);
      assert SourceAt(k, s, 0, fl) && Next(s, 0) == s && Next(d, 0) == d;
      TurnNeeds(k, s, d, fl, root, cur, k1);
      VacantTail(k, k1, s, d, n, fl, root);
      MapLoopNeeds(k1, Next(s, 1), Next(d, 1), n - 1, fl, root, cur);
      FramesAlike(k, k1, Next(s, 1), Next(d, 1), n - 1);
      TurnUsage(k, k1, s, d, n, fl, root, cur);
      NeededSame(k.b.(own := k.b.own[f := [User(0, 0)] + Owners(k.b, f)]), k1.b, FramesOf(k, Next(s, 1), n - 1));
      assert FramesOf(k, s, n)[1..] == FramesOf(k, Next(s, 1), n - 1);
    }
  }

  lemma TurnUsage(k: Space, k1: Space, s: User, d: User, n: nat, fl: Flags, root: bool, cur: nat)
    requires n > 0 && Movable(k, s, d, n, fl) && EntryOf(k, d) == ZERO && MapPage(k, s, d, fl, root, cur) == Mapped(k1)
    ensures var f := EntryOf(k, s).frame;
            SameUsage(k.b.(own := k.b.own[f := [User(0, 0)] + Owners(k.b, f)]), k1.b, FramesOf(k, Next(s, 1), n - 1))
  {
    FramesUsed(k, s, n, fl);
    RestMovable(k, k1, s, d, n, fl, root, cur);
    forall g | g in FramesOf(k, Next(s, 1), n - 1) ensures g in k1.b.own && k1.b.own[g] == Added(k, s, d, cur, g) + k.b.own[g] {
      assert g in FramesOf(k, s, n);
    }
  }

  lemma VacantTail(k: Space, k1: Space, s: User, d: User, n: nat, fl: Flags, root: bool)
    requires n > 0 && Apart(s, d, n) && Vacant(k, d, n) && EntriesAfter(k, k1, s, d, fl, root)
    ensures Vacant(k1, Next(d, 1), n - 1)
  {
    forall i: nat | i < n - 1 ensures EntryOf(k1, Next(Next(d, 1), i)) == ZERO {
      TurnLater(k, k1, s, d, n, fl, root, i);
      assert EntryOf(k, Next(d, i + 1)) == ZERO;
    }
  }

  /** With a free share-table entry the unmapping of owned pages does not die. */
  lemma {:induction false} UnmapLoopLives(k: Space, s: User, n: nat, free: bool, at: int)
    requires Leaving(k, s, n) && k.b.entries > 0
    ensures !UnmapLoop(k, s, n, Complete, free, at).Dead?
    decreases n
  {
    if n > 0 {
      assert OwnedAt(k, s, 0) && Next(s, 0) == s;
      match UnmapPage(k, s, Complete, free) {
        case Unmapped(k1) =>
          UnmapRest(k, s, n, free, k1);
          UnmapLoopLives(k1, Next(s, 1), n - 1, free, SlotOf(s).n);
        case _ =>
      }
    }
  }

  lemma UnmapRest(k: Space, s: User, n: nat, free: bool, k1: Space)
    requires n > 0 && Leaving(k, s, n) && UnmapPage(k, s, Complete, free) == Unmapped(k1)
    ensures Leaving(k1, Next(s, 1), n - 1)
    ensures k1.b.entries >= k.b.entries && (|Owners(k.b, EntryOf(k, s).frame)| >= 2 ==> k1.b.entries > k.b.entries)
  {
    assert OwnedAt(k, s, 0) && Next(s, 0) == s;
    UnmapPageBooks(k, s, Complete, free);
    NoTable(k, EntryOf(k, s).frame, s);
    UnmapOwners(k, s, free, k1, EntryOf(k, s).frame);
    forall i: nat | i < n - 1 ensures OwnedAt(k1, Next(s, 1), i) {
      NextNext(s, 1, i);
      assert OwnedAt(k, s, i + 1);
      StillOwned(k, k1, s, free, Next(s, i + 1));
    }
  }

  /**
   A move to vacant targets dies half way, after the mapping, exactly when the mapping has taken
   the last share-table entries: the unmapping of the first page then dereferences the empty list.
   */
  lemma MoveDies(k: Space, adr: nat, d: User, n: nat, fl: Flags, root: bool, cur: nat, free: bool)
    requires Movable(k, User(cur, adr), d, n, fl) && Vacant(k, d, n) && n > 0
    requires MapLoop(k, User(cur, adr), d, n, fl, root, cur).Mapped?
    ensures var (s, e) := (User(cur, adr), EntryOf(k, User(cur, adr)));
            Move(k, adr, d, n, fl, root, cur, free).Dead? <==>
            && k.b.entries == Needed(k.b, FramesOf(k, s, n))
            && ((if fl.cow then Written(e, fl, root) else e).paged ==> free)
  {
    var s := User(cur, adr);
    var k1 := MapLoop(k, s, d, n, fl, root, cur).k;
    MapLoopNeeds(k, s, d, n, fl, root, cur);
    MapLoopBooks(k, s, d, n, fl, root, cur);
    forall i: nat | i < n ensures OwnedAt(k1, s, i) { MappedOwned(k, s, d, n, fl, root, cur, i); }
    if k1.b.entries > 0 {
      UnmapLoopLives(k1, s, n, free, -1);
    } else {
      MapLoopAt(k, s, d, n, fl, root, cur, 0);
      assert Next(s, 0) == s && Next(d, 0) == d;
      SharedAfter(k, s, d, n, fl, root, cur);
      DiesFirst(k1, s, n, free);
    }
  }

  /** The frame of the first source has a second owner after the mapping. */
  lemma SharedAfter(k: Space, s: User, d: User, n: nat, fl: Flags, root: bool, cur: nat)
    requires n > 0 && Movable(k, s, d, n, fl) && Vacant(k, d, n) && MapLoop(k, s, d, n, fl, root, cur).Mapped?
    ensures |Owners(MapLoop(k, s, d, n, fl, root, cur).k.b, EntryOf(k, s).frame)| >= 2
  {
    var f := EntryOf(k, s).frame;
    assert SourceAt(k, s, 0, fl) && Next(s, 0) == s && Next(d, 0) == d;
    MapLoopOwners(k, s, d, n, fl, root, cur, f);
    SameSize(k.b.own[f], MapLoop(k, s, d, n, fl, root, cur).k.b.own[f], Come(k, s, d, n, cur, f));
    ComeOf(k, s, d, n, cur, 0);
    assert |Come(k, s, d, n, cur, f)| >= 1;
  }

  lemma DiesFirst(k: Space, s: User, n: nat, free: bool)
    requires n > 0 && Leaving(k, s, n) && k.b.entries == 0 && |Owners(k.b, EntryOf(k, s).frame)| >= 2
    ensures UnmapLoop(k, s, n, Complete, free, -1).Dead? <==> (EntryOf(k, s).paged ==> free)
  {
    assert OwnedAt(k, s, 0) && Next(s, 0) == s;
    var f := EntryOf(k, s).frame;
    assert InRange(k.b, f);
  }
}
