/**
 The loops of sysc_map, sysc_unmap, sysc_alloc_pages and sysc_move over the page tables and
 the page buffer of the kernel, proved to compute the functions of Mapping.
 */
module MappingClass {
  import opened BlockLists
  import opened Frames
  import opened FrameBuffer
  import opened PageBuffers
  import opened Mapping
  import opened MappingInv
  import opened MappingRuns
  import opened MappingMoves
  import opened MappingSafe

  class AddressSpaces {
    const pb: PageBuffer
    var tabs: map<Slot, nat>
    var ent: map<User, Entry>
    var cnt: map<Slot, int>

    ghost function Footprint(): set<object>
    {
      {this, pb, pb.normalZone, pb.normalZone.table, pb.highZone, pb.highZone.table}
    }

    ghost function Value(): Space
      reads this, pb, pb.normalZone, pb.normalZone.table, pb.highZone, pb.highZone.table
    {
      Space(pb.Value(), tabs, ent, cnt)
    }

    /** The page buffer is in order and every entry names a page frame; kept folded. */
    ghost predicate Valid()
      reads Footprint()
    {
      && (forall k: Key {:trigger Turned(k)} :: Turned(k) ==> pb.Valid())
      && (forall u :: u in ent ==> ent[u].frame % PAGE == 0)
    }

    lemma Open()
      requires Valid()
      ensures pb.Valid()
    {
      assert Turned(Key);
    }

    constructor (buffer: PageBuffer)
      requires buffer.Valid()
      ensures Valid() && pb == buffer && Value() == Space(buffer.Value(), map[], map[], map[])
    {
      pb := buffer;
      tabs, ent, cnt := map[], map[], map[];
    }

    /** kmem_get_table; failed: no frame for a new table. */
    method GetTableOf(s: Slot) returns (failed: bool)
      requires Valid()
      modifies Footprint()
      ensures Valid() && ent == old(ent)
      ensures forall f :: f in old(pb.own) ==> f in pb.own && pb.own[f] == old(pb.own)[f]
      ensures match GetTable(old(Value()), s)
              case None => failed && Value() == old(Value())
              case Some(k) => !failed && Value() == k
    {
      failed := false;
      if s !in tabs {
        Open();
        OpenZones(pb.Value());
        if AllocKernel(pb.Value()).Some? { AllocKernelZoned(pb.Value()); }
        var f := pb.AllocKernelFrame();
        if f == 0 { return true; }
        tabs := tabs[s := f];
      }
    }

    /** kmem_alloc_user_pageframe. */
    method TakeUserFrame(u: User) returns (f: nat)
      requires Valid()
      modifies pb, pb.normalZone, pb.highZone
      ensures Valid() && f % PAGE == 0
      ensures match AllocUser(old(pb.Value()), u)
              case None => f == 0 && pb.Value() == old(pb.Value())
              case Some((b, g)) => f == g != 0 && pb.Value() == b && g !in old(pb.own) && pb.own == old(pb.own)[g := [u]]
    {
      Open();
      ghost var b := pb.Value();
      OpenZones(b);
      if AllocUser(b, u).Some? { AllocUserZoned(b, u); }
      f := pb.AllocUserFrame(u);
    }

    /** kmem_free_kernel_pageframe, for a frame with one owner. */
    method GiveBackFrame(f: nat)
      requires Valid() && f in pb.own && |pb.own[f]| == 1
      modifies pb, pb.normalZone, pb.normalZone.table, pb.highZone, pb.highZone.table
      ensures Valid() && pb.Value() == FreeKernel(old(pb.Value()), f)
    {
      Open();
      pb.FreeKernelFrame(f);
    }

    /** kmem_free_user_pageframe. */
    method DropOwner(f: nat, u: User) returns (crashed: bool)
      requires Valid() && f % PAGE == 0
      modifies pb, pb.normalZone, pb.normalZone.table, pb.highZone, pb.highZone.table
      ensures match FreeUser(old(pb.Value()), f, u)
              case Done(b) => !crashed && Valid() && pb.Value() == b
              case Crashed => crashed
    {
      Open();
      crashed := pb.FreeUserFrame(f, u);
    }

    method CountPage(s: Slot, n: int)
      requires Valid()
      modifies this`cnt
      ensures Valid() && Value() == Count(old(Value()), s, n)
    {
      cnt := cnt[s := (if s in cnt then cnt[s] else 0) + n];
    }

    method PutEntry(u: User, e: Entry)
      requires Valid() && e.frame % PAGE == 0
      modifies this`ent
      ensures Valid() && Value() == old(Value()).(ent := Put(old(ent), u, e))
    {
      ent := if e == ZERO then ent - {u} else ent[u := e];
    }

    // -------------------------------------------------------------- sysc_map

    /** The body of the loop of sysc_map, with both page tables at hand. */
    method MapOne(s: User, d: User, fl: Flags, root: bool, cur: nat) returns (end: Ending)
      requires Valid() && SlotOf(d) in tabs
      modifies Footprint()
      ensures Did(MapPage(old(Value()), s, d, fl, root, cur), end)
      ensures end.Completed? || end.Short? ==> tabs == old(tabs)
    {
      MapPageCases(Value(), s, d, fl, root, cur);
      var e0 := if s in ent then ent[s] else ZERO;
      if e0 == ZERO || (d in ent && ent[d] != ZERO) { return Completed; }
      if e0.cow && !fl.cow {
        end := CopyOnWrite(s, cur);
        if !end.Completed? { return; }
      }
      end := CopyOne(s, d, fl, root, cur);
    }

    /** kmem_do_copy_on_write, up to the point where it takes the usage counter down a first time. */
    method CopyOnWrite(s: User, cur: nat) returns (end: Ending)
      requires Valid()
      modifies Footprint()
      ensures Did(CopyPage(old(Value()), s, cur), end)
      ensures end.Completed? || end.Short? ==> tabs == old(tabs)
    {
      var e := if s in ent then ent[s] else ZERO;
      var n := UsageOf(e.frame);
      if n == 1 {
        PutEntry(s, e.(cow := false, writable := true));
        return Completed;
      }
      var f := TakeUserFrame(User(cur, s.adr));
      end := if f == 0 then Short else Miscounted;
    }

    /** The usage counter of a frame; other addresses have no entry in the page buffer table. */
    method UsageOf(f: nat) returns (n: nat)
      requires Valid()
      ensures n == |Owners(pb.Value(), f)|
    {
      Open();
      Usage(f);
      n := if f in pb.pbt then pb.pbt[f].usage else 0;
    }

    /** The entry of page s within the request; root gets all of the request. */
    method MaskedSource(s: User, fl: Flags, root: bool) returns (e: Entry)
      ensures e == Granted(if s in ent then ent[s] else ZERO, fl, root)
    {
      var e0 := if s in ent then ent[s] else ZERO;
      e := Entry(e0.frame, e0.present, e0.writable && fl.write, e0.user, false, e0.paged && fl.paged);
      if root { e := Entry(e.frame, true, e.writable || fl.write, true, false, e.paged || fl.paged); }
    }

    /** The entry of page s is copied to page d. */
    method CopyOne(s: User, d: User, fl: Flags, root: bool, cur: nat) returns (end: Ending)
      requires Valid()
      modifies Footprint()
      ensures Did(CopyEntry(old(Value()), s, d, fl, root, cur), end)
      ensures tabs == old(tabs)
    {
      var e := MaskedSource(s, fl, root);
      if e.present && 0x10_0000 < e.frame < pb.start + pb.size {
        end := AddOwnerOf(e.frame, User(cur, d.adr));
        if !end.Completed? { return; }
      }
      Write(s, d, e, fl);
      end := Completed;
    }

    /** The new owner of a frame; the kernel does not test whether the frame is in use. */
    method AddOwnerOf(f: nat, u: User) returns (end: Ending)
      requires Valid()
      modifies pb
      ensures var b := old(pb.Value());
              if f !in b.own || b.own[f] == [] then end.Fatal?
              else match AddOwner(b, f, u)
                   case Added(b') => end.Completed? && Valid() && pb.Value() == b'
                   case NoEntries => end.Short? && Valid() && pb.Value() == b
                   case Wrapped => end.Fatal?
    {
      Open();
      Usage(f);
      if f !in pb.pbt || pb.pbt[f].usage == 0 { return Fatal; }
      ghost var b := pb.Value();
      var failed := pb.AddFrameOwner(f, u);
      if AddOwner(b, f, u).Added? { Usage(f); }
      end := if failed then Short else if pb.pbt[f].usage == 0 then Fatal else Completed;
    }

    lemma Usage(f: nat)
      requires pb.Valid()
      ensures (if f in pb.pbt then pb.pbt[f].usage else 0) == |Owners(pb.Value(), f)|
    {
      Unshare(pb.pbt, pb.pst, pb.free, pb.freeList, pb.lists, pb.own);
      assert PbtAt(pb.pbt, pb.pst, pb.lists, pb.own, f);
    }

    method Write(s: User, d: User, e: Entry, fl: Flags)
      requires Valid() && e.frame % PAGE == 0
      modifies this`ent, this`cnt
      ensures Valid() && Value() == WriteEntries(old(Value()), s, d, e, fl)
    {
      var e' := e;
      if e.present { CountPage(SlotOf(d), 1); }
      if fl.cow {
        e' := e.(cow := true, writable := false);
        PutEntry(s, e');
      }
      PutEntry(d, e');
    }

    /** The loop of sysc_map. */
    method MapRange(s0: User, d0: User, pages0: nat, fl: Flags, root: bool, cur: nat) returns (end: Ending)
      requires Valid()
      modifies Footprint()
      ensures Did(MapLoop(old(Value()), s0, d0, pages0, fl, root, cur), end)
    {
      var s, d, pages := s0, d0, pages0;
      var pdS: int, pdD: int, missing := -1, -1, true;
      while pages != 0
        invariant Valid() && s.pid == s0.pid && d.pid == d0.pid
        invariant pdS == SlotOf(s).n ==> SlotOf(s) in tabs
        invariant pdD <= SlotOf(d).n && (pdD == SlotOf(d).n ==> if missing then GetTable(Value(), SlotOf(d)).None? else SlotOf(d) in tabs)
        invariant MapLoop(old(Value()), s0, d0, pages0, fl, root, cur) == MapLoop(Value(), s, d, pages, fl, root, cur)
        decreases pages
      {
        pages := pages - 1;
        if SlotOf(s).n != pdS {
          pdS := SlotOf(s).n;
          if SlotOf(s) !in tabs {
            if pages < 1024 { break; }
            pages, s, d := pages - 1024, Next(s, 1024), Next(d, 1024);
            continue;
          }
        }
        ghost var k := Value();
        if SlotOf(d).n != pdD {
          pdD := SlotOf(d).n;
          missing := GetTableOf(SlotOf(d));
        }
        if missing {
          if s in ent && ent[s] != ZERO { return Fatal; }
        } else {
          TableAtHand(k, Value(), s, d, fl, root, cur);
          end := MapOne(s, d, fl, root, cur);
          if !end.Completed? { return; }
        }
        s, d := Next(s, 1), Next(d, 1);
      }
      end := Completed;
    }

    // -------------------------------------------------------------- sysc_unmap

    /** The body of the loop of sysc_unmap; stale: its table has been given back, though it is still at hand. */
    method UnmapOne(d: User, flag: UnmapFlag, free: bool) returns (end: Ending)
      requires Valid() && Books(Value()) && d.pid != KERNEL
      modifies Footprint()
      ensures match UnmapPage(old(Value()), d, flag, free)
              case Unmapped(k) => end.Completed? && Valid() && Value() == k && Books(k)
              case PagerError => end.Refused? && Valid() && Value() == old(Value())
              case Crash => end.Fatal?
    {
      UnmapPageBooks(Value(), d, flag, free);
      var e := if d in ent then ent[d] else ZERO;
      if !flag.Write? && e.present {
        if flag.Complete? && e.paged && !free { return Refused; }
        ghost var k := Value();
        var crashed := DropOwner(e.frame, d);
        if crashed { return Fatal; }
        AbsentBooks(k, d, if flag.Complete? then ZERO else e.(present := false));
        ClearPresent(d, flag);
      }
      Mask(d, flag);
      end := Completed;
    }

    /** The entry ceases to be present; with the last one its table goes. */
    method ClearPresent(d: User, flag: UnmapFlag)
      requires Valid() && d in ent
      requires Books(Count(Value().(ent := Put(ent, d, if flag.Complete? then ZERO else ent[d].(present := false))), SlotOf(d), -1))
      modifies Footprint()
      ensures Valid() && Value() == Absent(old(Value()), d, flag)
    {
      var s := SlotOf(d);
      PutEntry(d, if flag.Complete? then ZERO else ent[d].(present := false));
      CountPage(s, -1);
      if cnt[s] == 0 && s in tabs { GiveBackTable(s); }
    }

    method GiveBackTable(s: Slot)
      requires Valid() && Books(Value()) && s in tabs
      modifies Footprint()
      ensures Valid() && Value() == DropTable(old(Value()), s)
    {
      assert TableOk(Value(), s);
      GiveBackFrame(tabs[s]);
      tabs := tabs - {s};
      ent := map u | u in ent && SlotOf(u) != s :: ent[u];
    }

    method Mask(d: User, flag: UnmapFlag)
      requires Valid()
      modifies this`ent
      ensures Valid() && Value() == Masked(old(Value()), d, flag)
    {
      if SlotOf(d) in tabs {
        match flag {
          case Complete => PutEntry(d, ZERO);
          case Available =>
          case Write => PutEntry(d, (if d in ent then ent[d] else ZERO).(writable := false));
        }
      }
    }

    /** The loop of sysc_unmap. */
    method UnmapRange(d0: User, pages0: nat, flag: UnmapFlag, free: bool) returns (end: Ending)
      requires Valid() && Books(Value()) && d0.pid != KERNEL
      modifies Footprint()
      ensures match UnmapLoop(old(Value()), d0, pages0, flag, free, -1)
              case Finished(k) => end.Completed? && Valid() && Value() == k
              case Stopped(k) => end.Refused? && Valid() && Value() == k
              case Dead => end.Fatal?
    {
      var d, pages := d0, pages0;
      var pd: int := -1;
      while pages != 0
        invariant Valid() && Books(Value()) && d.pid == d0.pid
        invariant UnmapLoop(old(Value()), d0, pages0, flag, free, -1) == UnmapLoop(Value(), d, pages, flag, free, pd)
        decreases pages
      {
        pages := pages - 1;
        if SlotOf(d).n != pd {
          pd := SlotOf(d).n;
          if SlotOf(d) !in tabs {
            if pages < 1024 { break; }
            pages, d := pages - 1024, Next(d, 1024);
            continue;
          }
        }
        end := UnmapOne(d, flag, free);
        if !end.Completed? { return; }
        d := Next(d, 1);
      }
      end := Completed;
    }

    // -------------------------------------------------------------- sysc_alloc_pages

    /** The body of the loop of sysc_alloc_pages. */
    method AllocOne(d: User) returns (end: Ending)
      requires Valid()
      modifies Footprint()
      ensures Did(AllocPage(old(Value()), d), end)
    {
      var f := TakeUserFrame(d);
      if f == 0 { return Short; }
      var failed := GetTableOf(SlotOf(d));
      if failed { return Short; }
      if d in ent && ent[d].present {
        GiveBackFrame(f);
      } else {
        CountPage(SlotOf(d), 1);
        PutEntry(d, Entry(f, true, true, true, false, false));
      }
      end := Completed;
    }

    /** The loop of sysc_alloc_pages. */
    method AllocRange(d0: User, pages0: nat) returns (end: Ending)
      requires Valid()
      modifies Footprint()
      ensures Did(AllocLoop(old(Value()), d0, pages0), end)
    {
      var d, pages := d0, pages0;
      ghost var goal := AllocLoop(Value(), d, pages);
      while pages != 0
        invariant Valid() && goal == AllocLoop(Value(), d, pages)
        decreases pages
      {
        end := AllocStep(d, pages);
        pages := pages - 1;
        if !end.Completed? { return; }
        d := Next(d, 1);
      }
      end := Completed;
    }

    /** One turn of the loop, of which pages are left. */
    method AllocStep(d: User, ghost pages: nat) returns (end: Ending)
      requires Valid() && pages > 0
      modifies Footprint()
      ensures if end.Completed? then Valid() && AllocLoop(old(Value()), d, pages) == AllocLoop(Value(), Next(d, 1), pages - 1)
              else Did(AllocLoop(old(Value()), d, pages), end)
    {
      AllocTurn(Value(), d, pages);
      end := AllocOne(d);
    }

    // -------------------------------------------------------------- sysc_move

    /**
     sysc_move, to whatever process.  The mapping must not make a page an owner of a page table;
     MoveCallable shows that from a safe state it does not unless root makes entries present that
     name no frame of their own.
     */
    method MoveRange(adr: nat, d: User, pages: nat, fl: Flags, root: bool, cur: nat, free: bool) returns (end: Ending)
      requires Valid() && cur != KERNEL
      requires MapLoop(Value(), User(cur, adr), d, pages, fl, root, cur).Mapped? ==>
                 Books(MapLoop(Value(), User(cur, adr), d, pages, fl, root, cur).k)
      modifies Footprint()
      ensures match Move(old(Value()), adr, d, pages, fl, root, cur, free)
              case Finished(k) => end.Completed? && Valid() && Value() == k
              case Stopped(k) => (end.Refused? || end.Short?) && Valid() && Value() == k
              case Dead => end.Fatal? || end.Miscounted?
    {
      end := MapRange(User(cur, adr), d, pages, fl, root, cur);
      if !end.Completed? { return; }
      end := UnmapRange(User(cur, adr), pages, Complete, free);
    }

    /** The end of a loop of sysc_map or sysc_alloc_pages. */
    ghost predicate Did(r: MapResult, end: Ending)
      reads Footprint()
    {
      match r
      case Mapped(k) => end.Completed? && Valid() && Value() == k
      case Failed(k) => end.Short? && Valid() && Value() == k
      case Miscounts => end.Miscounted?
      case Broken => end.Fatal?
    }
  }

  /** How a loop ends; Short: frames or share-table entries; Fatal: the kernel dereferences NULL or corrupts its tables. */
  datatype Ending = Completed | Short | Miscounted | Refused | Fatal

  lemma MapPageCases(k: Space, s: User, d: User, fl: Flags, root: bool, cur: nat)
    requires SlotOf(d) in k.tabs
    ensures MapPage(k, s, d, fl, root, cur)
            == if EntryOf(k, s) == ZERO || EntryOf(k, d) != ZERO then Mapped(k)
               else if !MustCopy(k, s, fl) then CopyEntry(k, s, d, fl, root, cur)
               else match CopyPage(k, s, cur)
                    case Mapped(k2) => CopyEntry(k2, s, d, fl, root, cur)
                    case r => r
  {
  }

  lemma AllocTurn(k: Space, d: User, pages: nat)
    requires pages > 0
    ensures AllocLoop(k, d, pages) == match AllocPage(k, d)
                                      case Mapped(k1) => AllocLoop(k1, Next(d, 1), pages - 1)
                                      case r => r
  {
  }

  lemma TableAtHand(k: Space, k1: Space, s: User, d: User, fl: Flags, root: bool, cur: nat)
    requires GetTable(k, SlotOf(d)) == Some(k1)
    ensures MapPage(k, s, d, fl, root, cur) == MapPage(k1, s, d, fl, root, cur)
  {
  }
}
