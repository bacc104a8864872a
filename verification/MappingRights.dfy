/**
 Rights never grow: what mapping, unmapping and moving do to the rights of pages, in one step,
 over a whole range and over every run of calls.  None of it depends on the accounting, so it
 also holds behind a mapping into another process.
 */
module MappingRights {
  import opened BlockLists
  import opened Frames
  import opened Mapping
  import opened MappingInv
  import opened MappingRuns

  // ---------------------------------------------------------------- one page

  /** e names the frame of e0 with no right that e0 lacks. */
  predicate Leq(e: Entry, e0: Entry) {
    && e.frame == e0.frame && (e.present ==> e0.present) && (e.writable ==> e0.writable)
    && (e.user ==> e0.user) && (e.paged ==> e0.paged)
  }

  /** No right beyond the request. */
  predicate Requested(e: Entry, fl: Flags) {
    (e.writable ==> fl.write && !fl.cow) && (e.paged ==> fl.paged)
  }

  /** The entry of the source when it is copied: a page that had to be copied first is not shared any more. */
  function Source(k: Space, s: User, fl: Flags): Entry {
    if MustCopy(k, s, fl) then Unshared(EntryOf(k, s)) else EntryOf(k, s)
  }

  /**
   A mapping by a process other than root, into whatever process, gives the target the rights of
   the source within the request, overwrites no entry, and after copy-on-write neither page is
   writable.
   */
  lemma MapPageRights(k: Space, s: User, d: User, fl: Flags, cur: nat)
    requires MapPage(k, s, d, fl, false, cur).Mapped?
    ensures var k' := MapPage(k, s, d, fl, false, cur).k;
            && (forall u :: u != s && u != d ==> EntryOf(k', u) == EntryOf(k, u))
            && (!Copies(k, s, d) ==> EntryOf(k', s) == EntryOf(k, s) && EntryOf(k', d) == EntryOf(k, d))
            && (Copies(k, s, d) ==>
                 && Leq(EntryOf(k', d), Source(k, s, fl)) && Requested(EntryOf(k', d), fl)
                 && (if fl.cow then EntryOf(k', s) == EntryOf(k', d) && EntryOf(k', s).cow && !EntryOf(k', s).writable
                     else EntryOf(k', s) == Source(k, s, fl)))
  {
    var k' := MapPage(k, s, d, fl, false, cur).k;
    if Copies(k, s, d) {
      MapPageEntries(k, s, d, fl, cur);
      assert Leq(Granted(Source(k, s, fl), fl, false), Source(k, s, fl));
    } else {
      assert k'.ent == k.ent;
    }
  }

  /** The entries after a mapping that copies. */
  lemma MapPageEntries(k: Space, s: User, d: User, fl: Flags, cur: nat)
    requires MapPage(k, s, d, fl, false, cur).Mapped? && Copies(k, s, d)
    ensures var e := Granted(Source(k, s, fl), fl, false);
            var e' := if fl.cow then e.(cow := true, writable := false) else e;
            MapPage(k, s, d, fl, false, cur).k.ent == Put(if fl.cow then Put(k.ent, s, e') else Put(k.ent, s, Source(k, s, fl)), d, e')
  {
    assert Put(k.ent, s, EntryOf(k, s)) == k.ent;
  }

  /** A mapping that fails has changed no entry, but may have taken the copy-on-write mark from its source. */
  lemma MapPageFailedEntries(k: Space, s: User, d: User, fl: Flags, cur: nat)
    requires MapPage(k, s, d, fl, false, cur).Failed?
    ensures var k' := MapPage(k, s, d, fl, false, cur).k; k'.ent == k.ent || (Copying(k, s, d, fl) && k'.ent == Put(k.ent, s, Source(k, s, fl)))
  {
  }

  // ---------------------------------------------------------------- a range of pages

  /** Every entry has the frame and at most the rights of some entry there was. */
  ghost predicate Within(k: Space, k': Space) {
    forall u {:trigger EntryOf(k', u)} :: EntryOf(k', u) != ZERO ==> HasSource(k, EntryOf(k', u))
  }

  ghost predicate HasSource(k: Space, e: Entry) {
    exists v :: EntryOf(k, v) != ZERO && Leq(e, EntryOf(k, v))
  }

  lemma WithinTrans(k: Space, k1: Space, k2: Space)
    requires Within(k, k1) && Within(k1, k2)
    ensures Within(k, k2)
  {
    forall u | EntryOf(k2, u) != ZERO ensures HasSource(k, EntryOf(k2, u)) {
      var v :| EntryOf(k1, v) != ZERO && Leq(EntryOf(k2, u), EntryOf(k1, v));
      var w :| EntryOf(k, w) != ZERO && Leq(EntryOf(k1, v), EntryOf(k, w));
      assert Leq(EntryOf(k2, u), EntryOf(k, w));
    }
  }

  ghost predicate Kept(k: Space, k': Space, u: User, fl: Flags) {
    Leq(EntryOf(k', u), EntryOf(k, u)) && (!fl.cow ==> EntryOf(k', u) == EntryOf(k, u))
  }

  /** What was there stays, with no more rights; what is new is within the request. */
  ghost predicate Respects(k: Space, k': Space, fl: Flags) {
    && (forall u {:trigger EntryOf(k', u)} :: EntryOf(k, u) != ZERO ==> EntryOf(k', u) != ZERO && Kept(k, k', u, fl))
    && (forall u {:trigger EntryOf(k', u)} :: EntryOf(k, u) == ZERO && EntryOf(k', u) != ZERO ==> Requested(EntryOf(k', u), fl))
  }

  /** The mapping of s to d would share a page that is marked for copy-on-write without the mark. */
  ghost predicate Copying(k: Space, s: User, d: User, fl: Flags) {
    Copies(k, s, d) && MustCopy(k, s, fl)
  }

  lemma MapPageWithin(k: Space, s: User, d: User, fl: Flags, cur: nat)
    requires MapPage(k, s, d, fl, false, cur).Mapped? && !Copying(k, s, d, fl)
    ensures var k' := MapPage(k, s, d, fl, false, cur).k; Within(k, k') && Respects(k, k', fl)
  {
    var k' := MapPage(k, s, d, fl, false, cur).k;
    MapPageRights(k, s, d, fl, cur);
    forall u | EntryOf(k', u) != ZERO ensures HasSource(k, EntryOf(k', u)) {
      assert Leq(EntryOf(k', u), EntryOf(k, if Copies(k, s, d) && u == d then s else u));
    }
  }

  lemma UnmapPageWithin(k: Space, d: User, flag: UnmapFlag, free: bool)
    requires UnmapPage(k, d, flag, free).Unmapped?
    ensures Within(k, UnmapPage(k, d, flag, free).k)
  {
    var k' := UnmapPage(k, d, flag, free).k;
    forall u | EntryOf(k', u) != ZERO ensures HasSource(k, EntryOf(k', u)) {
      assert Leq(EntryOf(k', u), EntryOf(k, u));
    }
  }

  lemma WithinSelf(k: Space, k': Space)
    requires k'.ent == k.ent
    ensures Within(k, k')
  {
    forall u | EntryOf(k', u) != ZERO ensures HasSource(k, EntryOf(k', u)) {
      assert Leq(EntryOf(k', u), EntryOf(k, u));
    }
  }

  /** No turn of the loop of sysc_map copies a page that is marked for copy-on-write. */
  ghost predicate CopyFree(k: Space, s: User, d: User, pages: nat, fl: Flags, cur: nat)
    decreases pages
  {
    pages > 0 ==>
      if SlotOf(s) !in k.tabs then pages - 1 >= 1024 ==> CopyFree(k, Next(s, 1024), Next(d, 1024), pages - 1 - 1024, fl, cur)
      else !Copying(k, s, d, fl)
           && (MapPage(k, s, d, fl, false, cur).Mapped? ==> CopyFree(MapPage(k, s, d, fl, false, cur).k, Next(s, 1), Next(d, 1), pages - 1, fl, cur))
  }

  /** The entry is marked for copy-on-write and not writable. */
  ghost predicate Marked(k: Space, u: User) {
    EntryOf(k, u) != ZERO && EntryOf(k, u).cow && !EntryOf(k, u).writable
  }

  /** Every page that the loop of sysc_map copies, and its copy, are marked in k'. */
  ghost predicate AllMarked(k: Space, s: User, d: User, pages: nat, fl: Flags, root: bool, cur: nat, k': Space)
    decreases pages
  {
    pages > 0 ==>
      if SlotOf(s) !in k.tabs then pages - 1 >= 1024 ==> AllMarked(k, Next(s, 1024), Next(d, 1024), pages - 1 - 1024, fl, root, cur, k')
      else match MapPage(k, s, d, fl, root, cur)
           case Mapped(k1) =>
             && (Copies(k, s, d) ==> Marked(k', s) && Marked(k', d))
             && AllMarked(k1, Next(s, 1), Next(d, 1), pages - 1, fl, root, cur, k')
           case _ => true
  }

  /** A mapping with copy-on-write marks source and target, and takes no mark away. */
  lemma MapPageMarks(k: Space, s: User, d: User, fl: Flags, root: bool, cur: nat)
    requires fl.cow && MapPage(k, s, d, fl, root, cur).Mapped?
    ensures var k1 := MapPage(k, s, d, fl, root, cur).k;
            && (Copies(k, s, d) ==> Marked(k1, s) && Marked(k1, d))
            && forall u :: Marked(k, u) ==> Marked(k1, u)
  {
    var k1 := MapPage(k, s, d, fl, root, cur).k;
    if Copies(k, s, d) {
      var e := Granted(EntryOf(k, s), fl, root).(cow := true, writable := false);
      CowEntries(k, s, d, fl, root, cur);
      assert EntryOf(k1, s) == EntryOf(k1, d) == e;
      assert forall u :: u != s && u != d ==> EntryOf(k1, u) == EntryOf(k, u);
    } else {
      assert k1.ent == k.ent;
    }
  }

  lemma CowEntries(k: Space, s: User, d: User, fl: Flags, root: bool, cur: nat)
    requires fl.cow && MapPage(k, s, d, fl, root, cur).Mapped? && Copies(k, s, d)
    ensures var e := Granted(EntryOf(k, s), fl, root).(cow := true, writable := false);
            MapPage(k, s, d, fl, root, cur).k.ent == k.ent[s := e][d := e]
  {
  }

  lemma {:induction false} MarkedStays(k: Space, s: User, d: User, pages: nat, fl: Flags, root: bool, cur: nat, u: User)
    requires fl.cow && Marked(k, u)
    ensures var r := MapLoop(k, s, d, pages, fl, root, cur); r.Mapped? || r.Failed? ==> Marked(r.k, u)
    decreases pages
  {
    if pages > 0 {
      if SlotOf(s) !in k.tabs {
        if pages - 1 >= 1024 { MarkedStays(k, Next(s, 1024), Next(d, 1024), pages - 1 - 1024, fl, root, cur, u); }
      } else {
        match MapPage(k, s, d, fl, root, cur) {
          case Mapped(k1) =>
            MapPageMarks(k, s, d, fl, root, cur);
            MarkedStays(k1, Next(s, 1), Next(d, 1), pages - 1, fl, root, cur, u);
          case Failed(k1) => FailedUnmarked(k, s, d, fl, root, cur);
          case _ =>
        }
      }
    }
  }

  /** With copy-on-write requested a mapping that fails changes no entry. */
  lemma FailedUnmarked(k: Space, s: User, d: User, fl: Flags, root: bool, cur: nat)
    requires fl.cow && MapPage(k, s, d, fl, root, cur).Failed?
    ensures MapPage(k, s, d, fl, root, cur).k.ent == k.ent
  {
  }

  /** Copy-on-write over a whole range, by whatever caller: no page copied is writable afterwards, nor is its copy. */
  lemma {:induction false} MapLoopMarks(k: Space, s: User, d: User, pages: nat, fl: Flags, root: bool, cur: nat)
    requires fl.cow
    ensures var r := MapLoop(k, s, d, pages, fl, root, cur);
            r.Mapped? || r.Failed? ==> AllMarked(k, s, d, pages, fl, root, cur, r.k)
    decreases pages
  {
    if pages > 0 {
      if SlotOf(s) !in k.tabs {
        if pages - 1 >= 1024 { MapLoopMarks(k, Next(s, 1024), Next(d, 1024), pages - 1 - 1024, fl, root, cur); }
      } else {
        match MapPage(k, s, d, fl, root, cur) {
          case Mapped(k1) =>
            MapPageMarks(k, s, d, fl, root, cur);
            MapLoopMarks(k1, Next(s, 1), Next(d, 1), pages - 1, fl, root, cur);
            if Copies(k, s, d) {
              MarkedStays(k1, Next(s, 1), Next(d, 1), pages - 1, fl, root, cur, s);
              MarkedStays(k1, Next(s, 1), Next(d, 1), pages - 1, fl, root, cur, d);
            }
          case _ =>
        }
      }
    }
  }

  /** sysc_map by a process other than root, over its whole range. */
  lemma {:induction false} MapLoopRights(k: Space, s: User, d: User, pages: nat, fl: Flags, cur: nat)
    requires CopyFree(k, s, d, pages, fl, cur)
    ensures var r := MapLoop(k, s, d, pages, fl, false, cur);
            r.Mapped? || r.Failed? ==>
              Within(k, r.k) && Respects(k, r.k, fl) && (fl.cow ==> AllMarked(k, s, d, pages, fl, false, cur, r.k))
    decreases pages
  {
    WithinSelf(k, k);
    RespectsSelf(k, k, fl);
    if fl.cow { MapLoopMarks(k, s, d, pages, fl, false, cur); }
    if pages > 0 {
      if SlotOf(s) !in k.tabs {
        if pages - 1 >= 1024 { MapLoopRights(k, Next(s, 1024), Next(d, 1024), pages - 1 - 1024, fl, cur); }
      } else {
        match MapPage(k, s, d, fl, false, cur) {
          case Mapped(k1) =>
            MapPageWithin(k, s, d, fl, cur);
            MapLoopRights(k1, Next(s, 1), Next(d, 1), pages - 1, fl, cur);
            var r := MapLoop(k1, Next(s, 1), Next(d, 1), pages - 1, fl, false, cur);
            if r.Mapped? || r.Failed? {
              WithinTrans(k, k1, r.k);
              RespectsTrans(k, k1, r.k, fl);
            }
          case Failed(k1) =>
            MapPageFailedEntries(k, s, d, fl, cur);
            WithinSelf(k, k1);
            RespectsSelf(k, k1, fl);
          case _ =>
        }
      }
    }
  }

  lemma RespectsSelf(k: Space, k': Space, fl: Flags)
    requires k'.ent == k.ent
    ensures Respects(k, k', fl)
  {
    forall u ensures EntryOf(k', u) == EntryOf(k, u) && Kept(k, k', u, fl) {
    }
  }

  lemma RespectsTrans(k: Space, k1: Space, k2: Space, fl: Flags)
    requires Respects(k, k1, fl) && Respects(k1, k2, fl)
    ensures Respects(k, k2, fl)
  {
    forall u ensures EntryOf(k, u) != ZERO ==> EntryOf(k2, u) != ZERO && Kept(k, k2, u, fl)
      ensures EntryOf(k, u) == ZERO && EntryOf(k2, u) != ZERO ==> Requested(EntryOf(k2, u), fl)
    {
      assert EntryOf(k, u) == ZERO || EntryOf(k1, u) != ZERO;
      assert EntryOf(k1, u) == ZERO || EntryOf(k2, u) != ZERO;
      if EntryOf(k, u) == ZERO && EntryOf(k1, u) != ZERO {
        assert Kept(k1, k2, u, fl) && Requested(EntryOf(k1, u), fl);
      }
    }
  }

  lemma {:induction false} UnmapLoopWithin(k: Space, d: User, pages: nat, flag: UnmapFlag, free: bool, at: int)
    ensures var r := UnmapLoop(k, d, pages, flag, free, at); !r.Dead? ==> Within(k, r.k)
    decreases pages
  {
    WithinSelf(k, k);
    if pages > 0 {
      if SlotOf(d).n != at && SlotOf(d) !in k.tabs {
        if pages - 1 >= 1024 { UnmapLoopWithin(k, Next(d, 1024), pages - 1 - 1024, flag, free, SlotOf(d).n); }
      } else {
        match UnmapPage(k, d, flag, free) {
          case Unmapped(k1) =>
            UnmapPageWithin(k, d, flag, free);
            UnmapLoopWithin(k1, Next(d, 1), pages - 1, flag, free, SlotOf(d).n);
            var r := UnmapLoop(k1, Next(d, 1), pages - 1, flag, free, SlotOf(d).n);
            if !r.Dead? { WithinTrans(k, k1, r.k); }
          case _ =>
        }
      }
    }
  }

  // ---------------------------------------------------------------- runs

  /** The call is by a process other than root, allocates nothing, and copies no page marked for copy-on-write. */
  ghost predicate Plain(k: Space, c: Call, who: Caller) {
    && !who.root && !c.AllocCall?
    && (c.MapCall? ==> CopyFree(k, c.s, c.d, c.pages, c.fl, who.pid))
    && (c.MoveCall? ==> CopyFree(k, User(who.pid, c.adr), c.d, c.pages, c.fl, who.pid))
  }

  lemma DoWithin(k: Space, c: Call, who: Caller)
    requires Plain(k, c, who) && Do(k, c, who).Some?
    ensures Within(k, Do(k, c, who).value)
  {
    match c {
      case MapCall(s, d, pages, fl) => MapLoopRights(k, s, d, pages, fl, who.pid);
      case UnmapCall(d, pages, flag, free) => UnmapLoopWithin(k, d, pages, flag, free, -1);
      case MoveCall(adr, d, pages, fl, free) =>
        var s := User(who.pid, adr);
        MapLoopRights(k, s, d, pages, fl, who.pid);
        match MapLoop(k, s, d, pages, fl, false, who.pid) {
          case Mapped(k1) =>
            UnmapLoopWithin(k1, s, pages, Complete, free, -1);
            WithinTrans(k, k1, UnmapLoop(k1, s, pages, Complete, free, -1).k);
          case _ =>
        }
    }
  }

  ghost predicate AllPlain(k: Space, cs: seq<(Call, Caller)>)
    decreases |cs|
  {
    cs == [] ||
    (Plain(k, cs[0].0, cs[0].1) && var r := Do(k, cs[0].0, cs[0].1); r.Some? ==> AllPlain(r.value, cs[1..]))
  }

  /**
   Rights never grow: over every run of map, unmap and move by processes other than root, between
   whatever processes, that copies no page marked for copy-on-write, each entry at the end names
   the frame of an entry at the beginning, with at most its rights.
   */
  lemma {:induction false} RunWithin(k: Space, cs: seq<(Call, Caller)>, k': Space)
    requires Reaches(k, cs, k') && AllPlain(k, cs)
    ensures Within(k, k')
    decreases |cs|
  {
    if cs == [] {
      WithinSelf(k, k);
    } else {
      DoWithin(k, cs[0].0, cs[0].1);
      var k1 := Do(k, cs[0].0, cs[0].1).value;
      RunWithin(k1, cs[1..], k');
      WithinTrans(k, k1, k');
    }
  }
}
