/**
 Whole calls and whole runs of the mapping functions: which calls keep the accounting of
 frames, owners and counters, and what it says after every run.
 */
module MappingRuns {
  import opened BlockLists
  import opened Frames
  import opened Mapping
  import opened MappingInv

  // ---------------------------------------------------------------- accounting over calls

  /** Every page that the loop of sysc_map maps is accounted. */
  ghost predicate MapKeeps(k: Space, s: User, d: User, pages: nat, fl: Flags, root: bool, cur: nat)
    decreases pages
  {
    pages > 0 ==>
      if SlotOf(s) !in k.tabs then pages - 1 >= 1024 ==> MapKeeps(k, Next(s, 1024), Next(d, 1024), pages - 1 - 1024, fl, root, cur)
      else match MapPage(k, s, d, fl, root, cur)
           case Mapped(k1) => Accounted(k, s, d, fl, root, cur) && MapKeeps(k1, Next(s, 1), Next(d, 1), pages - 1, fl, root, cur)
           case _ => true
  }

  /** However the loop of sysc_map ends, the accounting is right exactly when every page mapped was accounted. */
  lemma {:induction false} MapLoopAccounting(k: Space, s: User, d: User, pages: nat, fl: Flags, root: bool, cur: nat)
    requires Acc(k) && d.pid != KERNEL
    ensures var r := MapLoop(k, s, d, pages, fl, root, cur);
            r.Mapped? || r.Failed? ==>
              if MapKeeps(k, s, d, pages, fl, root, cur) then Acc(r.k) else Damaged(r.k, d.pid, cur)
    decreases pages
  {
    if pages > 0 {
      if SlotOf(s) !in k.tabs {
        if pages - 1 >= 1024 { MapLoopAccounting(k, Next(s, 1024), Next(d, 1024), pages - 1 - 1024, fl, root, cur); }
      } else {
        match MapPage(k, s, d, fl, root, cur) {
          case Mapped(k1) =>
            if Accounted(k, s, d, fl, root, cur) {
              MapPageKeeps(k, s, d, fl, root, cur);
              MapLoopAccounting(k1, Next(s, 1), Next(d, 1), pages - 1, fl, root, cur);
            } else {
              MapPageBreaks(k, s, d, fl, root, cur);
              MapLoopDamaged(k1, Next(s, 1), Next(d, 1), pages - 1, fl, root, cur);
            }
          case Failed(_) => MapPageFails(k, s, d, fl, root, cur);
          case _ =>
        }
      }
    }
  }

  lemma {:induction false} MapLoopDamaged(k: Space, s: User, d: User, pages: nat, fl: Flags, root: bool, cur: nat)
    requires Damaged(k, d.pid, cur)
    ensures var r := MapLoop(k, s, d, pages, fl, root, cur); r.Mapped? || r.Failed? ==> Damaged(r.k, d.pid, cur)
    decreases pages
  {
    if pages > 0 {
      if SlotOf(s) !in k.tabs {
        if pages - 1 >= 1024 { MapLoopDamaged(k, Next(s, 1024), Next(d, 1024), pages - 1 - 1024, fl, root, cur); }
      } else {
        MapPageDamaged(k, s, d, fl, root, cur);
        match MapPage(k, s, d, fl, root, cur) {
          case Mapped(k1) => MapLoopDamaged(k1, Next(s, 1), Next(d, 1), pages - 1, fl, root, cur);
          case _ =>
        }
      }
    }
  }

  lemma {:induction false} UnmapLoopAcc(k: Space, d: User, pages: nat, flag: UnmapFlag, free: bool, at: int)
    requires Acc(k) && d.pid != KERNEL
    ensures var r := UnmapLoop(k, d, pages, flag, free, at); r.Finished? || r.Stopped? ==> Acc(r.k)
    decreases pages
  {
    if pages > 0 {
      if SlotOf(d) !in k.tabs {
        if SlotOf(d).n != at {
          if pages - 1 >= 1024 { UnmapLoopAcc(k, Next(d, 1024), pages - 1 - 1024, flag, free, SlotOf(d).n); }
        } else {
          StaleTable(k, d, flag, free);
          UnmapLoopAcc(k, Next(d, 1), pages - 1, flag, free, at);
        }
      } else {
        UnmapPageAcc(k, d, flag, free);
        match UnmapPage(k, d, flag, free) {
          case Unmapped(k1) => UnmapLoopAcc(k1, Next(d, 1), pages - 1, flag, free, SlotOf(d).n);
          case _ =>
        }
      }
    }
  }

  /** In a table that has just been given back no entry is present, so nothing is done. */
  lemma StaleTable(k: Space, d: User, flag: UnmapFlag, free: bool)
    requires Acc(k) && SlotOf(d) !in k.tabs
    ensures UnmapPage(k, d, flag, free) == Unmapped(k)
  {
    assert EntryOk(k, d);
  }

  lemma {:induction false} UnmapLoopTorn(k: Space, d: User, pages: nat, flag: UnmapFlag, free: bool, at: int, u: User)
    requires Torn(k, u) && u.pid != d.pid
    ensures var r := UnmapLoop(k, d, pages, flag, free, at); !r.Dead? ==> Torn(r.k, u)
    decreases pages
  {
    if pages > 0 {
      if SlotOf(d).n != at && SlotOf(d) !in k.tabs {
        if pages - 1 >= 1024 { UnmapLoopTorn(k, Next(d, 1024), pages - 1 - 1024, flag, free, SlotOf(d).n, u); }
      } else {
        UnmapPageTorn(k, d, flag, free, u);
        match UnmapPage(k, d, flag, free) {
          case Unmapped(k1) => UnmapLoopTorn(k1, Next(d, 1), pages - 1, flag, free, SlotOf(d).n, u);
          case _ =>
        }
      }
    }
  }

  /** A frame has been taken for the page, and there is none left for the page table. */
  ghost predicate LosesFrame(k: Space, d: User) {
    AllocUser(k.b, d).Some? && SlotOf(d) !in k.tabs && AllocUser(k.b, d).value.0.normal == []
  }

  /** No turn of the loop of sysc_alloc_pages loses a frame. */
  ghost predicate AllocKeeps(k: Space, d: User, pages: nat)
    decreases pages
  {
    pages > 0 ==> !LosesFrame(k, d) && (AllocPage(k, d).Mapped? ==> AllocKeeps(AllocPage(k, d).k, Next(d, 1), pages - 1))
  }

  lemma {:induction false} AllocLoopAcc(k: Space, d: User, pages: nat)
    requires Acc(k) && d.pid != KERNEL
    ensures var r := AllocLoop(k, d, pages);
            (r.Mapped? || r.Failed?) && (Acc(r.k) <==> AllocKeeps(k, d, pages))
    decreases pages
  {
    if pages > 0 {
      AllocPageAcc(k, d);
      match AllocPage(k, d) {
        case Mapped(k1) => AllocLoopAcc(k1, Next(d, 1), pages - 1);
        case _ =>
      }
    }
  }

  // ---------------------------------------------------------------- calls

  datatype Call =
    | MapCall(s: User, d: User, pages: nat, fl: Flags)
    | UnmapCall(d: User, pages: nat, flag: UnmapFlag, free: bool)
    | MoveCall(adr: nat, d: User, pages: nat, fl: Flags, free: bool)
    | AllocCall(d: User, pages: nat)

  /** The process that makes a call. */
  datatype Caller = Caller(pid: nat, root: bool)

  /** One system call; None when the kernel does not survive it or gets a usage counter wrong. */
  function Do(k: Space, c: Call, who: Caller): Option<Space> {
    match c
    case MapCall(s, d, pages, fl) =>
      var r := MapLoop(k, s, d, pages, fl, who.root, who.pid);
      if r.Mapped? || r.Failed? then Some(r.k) else None
    case UnmapCall(d, pages, flag, free) =>
      var r := UnmapLoop(k, d, pages, flag, free, -1);
      if r.Dead? then None else Some(r.k)
    case MoveCall(adr, d, pages, fl, free) =>
      var r := Move(k, adr, d, pages, fl, who.root, who.pid, free);
      if r.Dead? then None else Some(r.k)
    case AllocCall(d, pages) =>
      var r := AllocLoop(k, d, pages);
      if r.Mapped? || r.Failed? then Some(r.k) else None
  }

  /** Nothing of the kernel is named. */
  predicate ForUsers(c: Call, who: Caller) {
    who.pid != KERNEL && c.d.pid != KERNEL
  }

  /** What a call must do to keep the accounting, told from the state before it. */
  ghost predicate Keeps(k: Space, c: Call, who: Caller) {
    match c
    case MapCall(s, d, pages, fl) => MapKeeps(k, s, d, pages, fl, who.root, who.pid)
    case UnmapCall(_, _, _, _) => true
    case MoveCall(adr, d, pages, fl, _) => MapKeeps(k, User(who.pid, adr), d, pages, fl, who.root, who.pid)
    case AllocCall(d, pages) => AllocKeeps(k, d, pages)
  }

  /** A move by root within its own process, whose second half can unmap pages that the first half got wrong. */
  predicate Retracts(c: Call, who: Caller) {
    c.MoveCall? && who.root && c.d.pid == who.pid
  }

  /**
   A call keeps the accounting if and only if every page it maps is accounted, which for callers
   other than root means that it maps nothing present into another process, and no frame is lost
   for want of a page table.
   */
  lemma StepAccounting(k: Space, c: Call, who: Caller)
    requires Acc(k) && ForUsers(c, who) && Do(k, c, who).Some?
    ensures Keeps(k, c, who) ==> Acc(Do(k, c, who).value)
    ensures Acc(Do(k, c, who).value) && !Retracts(c, who) ==> Keeps(k, c, who)
  {
    match c {
      case MapCall(s, d, pages, fl) =>
        MapLoopAccounting(k, s, d, pages, fl, who.root, who.pid);
        if !Keeps(k, c, who) { DamagedBreaks(Do(k, c, who).value, d.pid, who.pid); }
      case UnmapCall(d, pages, flag, free) => UnmapLoopAcc(k, d, pages, flag, free, -1);
      case MoveCall(adr, d, pages, fl, free) => MoveAccounting(k, adr, d, pages, fl, who, free);
      case AllocCall(d, pages) => AllocLoopAcc(k, d, pages);
    }
  }

  lemma MoveAccounting(k: Space, adr: nat, d: User, pages: nat, fl: Flags, who: Caller, free: bool)
    requires Acc(k) && d.pid != KERNEL && who.pid != KERNEL && !Move(k, adr, d, pages, fl, who.root, who.pid, free).Dead?
    ensures var (k', s) := (Move(k, adr, d, pages, fl, who.root, who.pid, free).k, User(who.pid, adr));
            && (MapKeeps(k, s, d, pages, fl, who.root, who.pid) ==> Acc(k'))
            && (Acc(k') && !(who.root && d.pid == who.pid) ==> MapKeeps(k, s, d, pages, fl, who.root, who.pid))
  {
    var s, k' := User(who.pid, adr), Move(k, adr, d, pages, fl, who.root, who.pid, free).k;
    MapLoopAccounting(k, s, d, pages, fl, who.root, who.pid);
    if MapKeeps(k, s, d, pages, fl, who.root, who.pid) {
      match MapLoop(k, s, d, pages, fl, who.root, who.pid) {
        case Mapped(k1) => UnmapLoopAcc(k1, s, pages, Complete, free, -1);
        case _ =>
      }
    } else if d.pid != who.pid {
      var u :| Torn(MapLoop(k, s, d, pages, fl, who.root, who.pid).k, u) && u.pid != who.pid;
      match MapLoop(k, s, d, pages, fl, who.root, who.pid) {
        case Mapped(k1) => UnmapLoopTorn(k1, s, pages, Complete, free, -1, u);
        case _ =>
      }
      assert Torn(k', u);
      DamagedBreaks(k', d.pid, who.pid);
    } else if !who.root {
      WithinKeeps(k, s, d, pages, fl, who.pid);
    }
  }

  /** What a process other than root maps into itself is accounted. */
  lemma {:induction false} WithinKeeps(k: Space, s: User, d: User, pages: nat, fl: Flags, cur: nat)
    requires d.pid == cur
    ensures MapKeeps(k, s, d, pages, fl, false, cur)
    decreases pages
  {
    if pages > 0 {
      if SlotOf(s) !in k.tabs {
        if pages - 1 >= 1024 { WithinKeeps(k, Next(s, 1024), Next(d, 1024), pages - 1 - 1024, fl, cur); }
      } else {
        match MapPage(k, s, d, fl, false, cur) {
          case Mapped(k1) => WithinKeeps(k1, Next(s, 1), Next(d, 1), pages - 1, fl, cur);
          case _ =>
        }
      }
    }
  }

  // ---------------------------------------------------------------- runs

  /** k' is reached from k by the calls cs, each with its caller. */
  predicate Reaches(k: Space, cs: seq<(Call, Caller)>, k': Space)
    decreases |cs|
  {
    if cs == [] then k == k'
    else
      var r := Do(k, cs[0].0, cs[0].1);
      r.Some? && Reaches(r.value, cs[1..], k')
  }

  /** Every call of the run keeps the accounting. */
  ghost predicate AllKeep(k: Space, cs: seq<(Call, Caller)>)
    decreases |cs|
  {
    cs == [] ||
    (Keeps(k, cs[0].0, cs[0].1) && var r := Do(k, cs[0].0, cs[0].1); r.Some? ==> AllKeep(r.value, cs[1..]))
  }

  lemma {:induction false} RunAcc(k: Space, cs: seq<(Call, Caller)>, k': Space)
    requires Acc(k) && Reaches(k, cs, k') && AllKeep(k, cs) && forall c :: c in cs ==> ForUsers(c.0, c.1)
    ensures Acc(k')
    decreases |cs|
  {
    if cs != [] {
      assert cs[0] in cs;
      StepAccounting(k, cs[0].0, cs[0].1);
      RunAcc(Do(k, cs[0].0, cs[0].1).value, cs[1..], k');
    }
  }

  /** A kernel without user memory is accounted. */
  lemma InitialAcc(b: Buffer)
    requires Zoned(b) && b.own == map[] && b.start > 0x10_0000
    ensures Acc(Space(b, map[], map[], map[]))
  {
    var k := Space(b, map[], map[], map[]);
    forall s ensures TableOk(k, s) { assert PresentIn(k.ent, s) == {}; }
  }

  // ---------------------------------------------------------------- what the accounting says

  /** The pages whose present entry names frame f. */
  ghost function Naming(k: Space, f: nat): set<User> {
    set u | u in k.ent && k.ent[u].present && k.ent[u].frame == f
  }

  /** The usage of a frame of user memory is the number of present entries that name it. */
  lemma UsageCounts(k: Space, f: nat)
    requires Acc(k) && f in k.b.own && forall u :: u in k.b.own[f] ==> u.pid != KERNEL
    ensures |k.b.own[f]| == |Naming(k, f)| && Elems(k.b.own[f]) == Naming(k, f)
  {
    assert OwnerOk(k, f);
    SetOfSize(k.b.own[f]);
    forall u | u in Naming(k, f) ensures u in k.b.own[f] { assert EntryOk(k, u); }
    assert Elems(k.b.own[f]) == Naming(k, f);
  }

  /** After every run of calls that keep the accounting usage, owners, counters and free frames agree with the page tables. */
  lemma RunTheorem(k: Space, cs: seq<(Call, Caller)>, k': Space, f: nat, s: Slot)
    requires Acc(k) && Reaches(k, cs, k') && AllKeep(k, cs) && forall c :: c in cs ==> ForUsers(c.0, c.1)
    ensures f in k'.b.own && (forall u :: u in k'.b.own[f] ==> u.pid != KERNEL) ==>
              |k'.b.own[f]| == |Naming(k', f)| && Elems(k'.b.own[f]) == Naming(k', f)
    ensures Cnt(k', s) == |PresentIn(k'.ent, s)|
    ensures IsFrame(k'.b, f) ==> (f in k'.b.own <==> f !in k'.b.normal && f !in k'.b.high)
  {
    RunAcc(k, cs, k');
    assert TableOk(k', s);
    if f in k'.b.own && forall u :: u in k'.b.own[f] ==> u.pid != KERNEL { UsageCounts(k', f); }
  }

  // ---------------------------------------------------------------- a mapping into another process

  /** A page buffer of four frames, all free. */
  function SmallBuffer(): Buffer {
    Buffer(0x20_0000, 4 * PAGE, map[], 10, [0x20_0000, 0x20_1000, 0x20_2000, 0x20_3000], [])
  }

  lemma SmallZoned()
    ensures Zoned(SmallBuffer())
  {
    var b := SmallBuffer();
    forall f: nat | IsFrame(b, f) ensures f in b.normal {
      var q := (f - 0x20_0000) / PAGE;
      assert f == 0x20_0000 + q * PAGE && 0 <= q < 4;
      assert b.normal[q] == f;
    }
  }

  /**
   Process 5 allocates a page and maps it into process 7: process 5 is entered as the owner of
   a page that process 7 has, and the accounting is lost.
   */
  lemma ForeignMapExample()
    ensures var k := AllocPage(Space(SmallBuffer(), map[], map[], map[]), User(5, 0x40_0000)).k;
            var r := MapPage(k, User(5, 0x40_0000), User(7, 0x40_0000), Flags(true, false, false), false, 5);
            Acc(k) && r.Mapped? && !Acc(r.k)
  {
    var k0, s, d := Space(SmallBuffer(), map[], map[], map[]), User(5, 0x40_0000), User(7, 0x40_0000);
    SmallZoned();
    InitialAcc(SmallBuffer());
    AllocPageAcc(k0, s);
    SmallAlloc();
    ForeignMapped(AllocPage(k0, s).k);
    MapPageAccounting(AllocPage(k0, s).k, s, d, Flags(true, false, false), false, 5);
  }

  lemma SmallAlloc()
    ensures var r := AllocPage(Space(SmallBuffer(), map[], map[], map[]), User(5, 0x40_0000));
            && r.Mapped? && EntryOf(r.k, User(5, 0x40_0000)) == Entry(0x20_0000, true, true, true, false, false)
            && EntryOf(r.k, User(7, 0x40_0000)) == ZERO && r.k.b.start == 0x20_0000 && r.k.b.size == 4 * PAGE
            && Owners(r.k.b, 0x20_0000) == [User(5, 0x40_0000)] && r.k.b.normal == [0x20_2000, 0x20_3000] && r.k.b.entries == 10
  {
  }

  lemma ForeignMapped(k: Space)
    requires EntryOf(k, User(5, 0x40_0000)) == Entry(0x20_0000, true, true, true, false, false)
    requires EntryOf(k, User(7, 0x40_0000)) == ZERO && k.b.start == 0x20_0000 && k.b.size == 4 * PAGE
    requires Owners(k.b, 0x20_0000) == [User(5, 0x40_0000)] && k.b.normal == [0x20_2000, 0x20_3000] && k.b.entries == 10
    ensures MapPage(k, User(5, 0x40_0000), User(7, 0x40_0000), Flags(true, false, false), false, 5).Mapped?
  {
  }

  // ---------------------------------------------------------------- a move that takes back what it got wrong

  const PageA: User := User(5, 0x40_0000)
  const PageB: User := User(5, 0x40_1000)
  const PageC: User := User(5, 0x40_2000)

  /** Root has two entries that are not present and name no frame in use. */
  function RetractSpace(): Space {
    var e := Entry(0, false, true, true, false, false);
    GetTable(Space(SmallBuffer(), map[], map[], map[]), SlotOf(PageA)).value.(ent := map[PageA := e, PageC := e])
  }

  lemma RetractAcc()
    ensures Acc(RetractSpace())
  {
    var k0, e := Space(SmallBuffer(), map[], map[], map[]), Entry(0, false, true, true, false, false);
    SmallZoned();
    InitialAcc(SmallBuffer());
    NewTableAcc(k0, SlotOf(PageA));
    var k1 := GetTable(k0, SlotOf(PageA)).value;
    RightsAcc(k1, PageA, e);
    RightsAcc(k1.(ent := Put(k1.ent, PageA, e)), PageC, e);
  }

  /**
   Root moves two pages up by one page.  The first mapping makes the second page present without
   a frame; the second mapping finds its target occupied; then both sources are unmapped, and the
   accounting is right again though a page was mapped that is not accounted.
   */
  lemma RetractExample()
    ensures var (k, c, who) := (RetractSpace(), MoveCall(PageA.adr, PageB, 2, Flags(true, false, false), true), Caller(5, true));
            && Acc(k) && ForUsers(c, who) && Do(k, c, who).Some? && !Keeps(k, c, who) && Acc(Do(k, c, who).value)
  {
    var k, fl := RetractSpace(), Flags(true, false, false);
    RetractAcc();
    var k1 := MapPage(k, PageA, PageB, fl, true, 5).k;
    assert Next(PageA, 1) == PageB && Next(PageB, 1) == PageC;
    RetractMaps();
    assert MapLoop(k1, PageB, PageC, 1, fl, true, 5) == MapLoop(k1, Next(PageB, 1), Next(PageC, 1), 0, fl, true, 5);
    assert MapLoop(k, PageA, PageB, 2, fl, true, 5) == Mapped(k1);
    RetractUnmaps(k1);
  }

  lemma RetractMaps()
    ensures var (k, fl) := (RetractSpace(), Flags(true, false, false));
            var r := MapPage(k, PageA, PageB, fl, true, 5);
            && r == Mapped(k.(ent := k.ent[PageB := Entry(0, true, true, true, false, false)], cnt := map[SlotOf(PageA) := 1]))
            && MapPage(r.k, PageB, PageC, fl, true, 5) == Mapped(r.k)
            && !Accounted(k, PageA, PageB, fl, true, 5)
  {
  }

  lemma RetractUnmaps(k1: Space)
    requires var k := RetractSpace(); k1 == k.(ent := k.ent[PageB := Entry(0, true, true, true, false, false)], cnt := map[SlotOf(PageA) := 1])
    ensures var r := UnmapLoop(k1, PageA, 2, Complete, true, -1); r.Finished? && Acc(r.k)
  {
    var k2 := k1.(ent := k1.ent - {PageA});
    assert UnmapPage(k1, PageA, Complete, true) == Unmapped(k2);
    var k3 := Space(SmallBuffer(), map[], map[], map[SlotOf(PageA) := 0]);
    assert UnmapPage(k2, PageB, Complete, true) == Unmapped(k3) by { RetractLast(k2, k3); }
    assert Next(PageA, 1) == PageB;
    assert UnmapLoop(k2, PageB, 1, Complete, true, 1) == UnmapLoop(k3, Next(PageB, 1), 0, Complete, true, 1);
    assert UnmapLoop(k1, PageA, 2, Complete, true, -1) == Finished(k3);
    SmallZoned();
    forall s ensures TableOk(k3, s) { assert PresentIn(k3.ent, s) == {}; }
  }

  lemma RetractLast(k2: Space, k3: Space)
    requires var k := RetractSpace();
             k2 == k.(ent := k.ent[PageB := Entry(0, true, true, true, false, false)] - {PageA}, cnt := map[SlotOf(PageA) := 1])
    requires k3 == Space(SmallBuffer(), map[], map[], map[SlotOf(PageA) := 0])
    ensures UnmapPage(k2, PageB, Complete, true) == Unmapped(k3)
  {
    var k4 := Absent(k2, PageB, Complete);
    assert k4.ent == map[] && k4.tabs == map[] && k4.cnt == k3.cnt;
    assert k4.b.own == map[];
    assert k4.b.normal == SmallBuffer().normal;
  }
}
