/**
 Page tables: what one turn of the loops of sysc_map, sysc_unmap and sysc_alloc_pages does
 to the page-table entries, to the per-table counters and to the page buffer, and what the
 loops do to a whole range.
 */
module Mapping {
  import opened BlockLists
  import opened Frames

  const SPAN: nat := 4096 * 1024   // bytes under one page table

  /** frame 0 and no flag: an empty entry.  cow: marked for copy-on-write; paged: protected by the paging daemon. */
  datatype Entry = Entry(frame: nat, present: bool, writable: bool, user: bool, cow: bool, paged: bool)

  const ZERO: Entry := Entry(0, false, false, false, false, false)

  /** A slot of the page directory of a process. */
  datatype Slot = Slot(pid: nat, n: nat)

  /** tabs: the page tables; ent: their entries that are not empty; cnt: the page status counters. */
  datatype Space = Space(b: Buffer, tabs: map<Slot, nat>, ent: map<User, Entry>, cnt: map<Slot, int>)

  function SlotOf(u: User): Slot {
    Slot(u.pid, u.adr / SPAN)
  }

  function EntryOf(k: Space, u: User): Entry {
    if u in k.ent then k.ent[u] else ZERO
  }

  function Put(ent: map<User, Entry>, u: User, e: Entry): map<User, Entry> {
    if e == ZERO then ent - {u} else ent[u := e]
  }

  function Cnt(k: Space, s: Slot): int {
    if s in k.cnt then k.cnt[s] else 0
  }

  function Count(k: Space, s: Slot, d: int): Space {
    k.(cnt := k.cnt[s := Cnt(k, s) + d])
  }

  /** kmem_get_table with permission to allocate a table. */
  function GetTable(k: Space, s: Slot): Option<Space> {
    if s in k.tabs then Some(k)
    else match AllocKernel(k.b)
         case None => None
         case Some((b, f)) => Some(k.(b := b, tabs := k.tabs[s := f]))
  }

  // ---------------------------------------------------------------- mapping one page

  datatype Flags = Flags(write: bool, paged: bool, cow: bool)

  /**
   Failed: an error is reported; Miscounts: a shared page is copied and its usage counter gets
   out of step with its owners; Broken: the code dereferences NULL, the usage counter runs over,
   or a frame that is not in use gets an owner.
   */
  datatype MapResult = Mapped(k: Space) | Failed(k: Space) | Miscounts | Broken

  /** The entry that is written: the rights of the source within the request; root gets all of the request. */
  function Granted(e: Entry, fl: Flags, root: bool): Entry {
    Entry(e.frame, e.present || root, (e.writable && fl.write) || (root && fl.write), e.user || root, false,
          (e.paged && fl.paged) || (root && fl.paged))
  }

  /** Frames whose owners are counted. */
  predicate Counted(b: Buffer, f: nat) {
    0x10_0000 < f < b.start + b.size
  }

  /** The entry of a page that need not be copied any more. */
  function Unshared(e: Entry): Entry {
    e.(cow := false, writable := true)
  }

  /**
   kmem_do_copy_on_write for page s, on behalf of process cur: a frame with one user is not
   copied.  For any other a frame is allocated; then the code takes one from the usage counter
   before it calls kmem_free_user_pageframe.  If that leaves one, the call takes the list of the
   frame for its single owner; if it leaves more, the call takes another one from the counter.
   Either way counter and owners disagree.
   */
  function CopyPage(k: Space, s: User, cur: nat): MapResult {
    var e := EntryOf(k, s);
    if |Owners(k.b, e.frame)| == 1 then Mapped(k.(ent := Put(k.ent, s, Unshared(e))))
    else if AllocUser(k.b, User(cur, s.adr)).None? then Failed(k)
    else Miscounts
  }

  /** Page s is marked for copy-on-write and may not be shared. */
  predicate MustCopy(k: Space, s: User, fl: Flags) {
    EntryOf(k, s).cow && !fl.cow
  }

  /** Page s is mapped to page d; cur is the process that calls.  An empty source needs no table for the target. */
  function MapPage(k: Space, s: User, d: User, fl: Flags, root: bool, cur: nat): MapResult {
    match GetTable(k, SlotOf(d))
    case None => if EntryOf(k, s) == ZERO then Mapped(k) else Broken
    case Some(k1) =>
      if EntryOf(k1, s) == ZERO || EntryOf(k1, d) != ZERO then Mapped(k1)
      else if MustCopy(k1, s, fl) then
        match CopyPage(k1, s, cur)
        case Mapped(k2) => CopyEntry(k2, s, d, fl, root, cur)
        case r => r
      else CopyEntry(k1, s, d, fl, root, cur)
  }

  /** The entry of page s is copied to page d, whose table exists; process cur is entered as an owner. */
  function CopyEntry(k: Space, s: User, d: User, fl: Flags, root: bool, cur: nat): MapResult {
    var e := Granted(EntryOf(k, s), fl, root);
    if e.present && Counted(k.b, e.frame) then
      if e.frame !in k.b.own || k.b.own[e.frame] == [] then Broken
      else match AddOwner(k.b, e.frame, User(cur, d.adr))
           case NoEntries => Failed(k)
           case Wrapped => Broken
           case Added(b) => Mapped(WriteEntries(k.(b := b), s, d, e, fl))
    else Mapped(WriteEntries(k, s, d, e, fl))
  }

  /** Copy-on-write marks both entries and takes the right to write from both. */
  function WriteEntries(k: Space, s: User, d: User, e: Entry, fl: Flags): Space {
    var k1 := if e.present then Count(k, SlotOf(d), 1) else k;
    if fl.cow then
      var e' := e.(cow := true, writable := false);
      k1.(ent := Put(Put(k1.ent, s, e'), d, e'))
    else k1.(ent := Put(k1.ent, d, e))
  }

  // ---------------------------------------------------------------- unmapping one page

  datatype UnmapFlag = Complete | Available | Write

  datatype UnmapResult = Unmapped(k: Space) | PagerError | Crash

  /** The page table of a slot is given back, with what is left in it. */
  function DropTable(k: Space, s: Slot): Space {
    if s in k.tabs then
      k.(b := FreeKernel(k.b, k.tabs[s]), tabs := k.tabs - {s}, ent := map u | u in k.ent && SlotOf(u) != s :: k.ent[u])
    else k
  }

  /** The entry of page d ceases to be present. */
  function Absent(k: Space, d: User, flag: UnmapFlag): Space {
    var k1 := k.(ent := Put(k.ent, d, if flag.Complete? then ZERO else EntryOf(k, d).(present := false)));
    var k2 := Count(k1, SlotOf(d), -1);
    if Cnt(k2, SlotOf(d)) == 0 then DropTable(k2, SlotOf(d)) else k2
  }

  function Masked(k: Space, d: User, flag: UnmapFlag): Space {
    if SlotOf(d) !in k.tabs then k
    else match flag
         case Complete => k.(ent := Put(k.ent, d, ZERO))
         case Available => k
         case Write => k.(ent := Put(k.ent, d, EntryOf(k, d).(writable := false)))
  }

  /** free: the paging daemon itself calls, or it agrees to the loss of a page it protects. */
  function UnmapPage(k: Space, d: User, flag: UnmapFlag, free: bool): UnmapResult {
    var e := EntryOf(k, d);
    if flag.Write? || !e.present then Unmapped(Masked(k, d, flag))
    else if flag.Complete? && e.paged && !free then PagerError
    else match FreeUser(k.b, e.frame, d)
         case Crashed => Crash
         case Done(b) => Unmapped(Masked(Absent(k.(b := b), d, flag), d, flag))
  }

  // ---------------------------------------------------------------- allocating one page

  /** One turn of sysc_alloc_pages: a frame is taken and given back if the page is already present. */
  function AllocPage(k: Space, d: User): MapResult {
    match AllocUser(k.b, d)
    case None => Failed(k)
    case Some((b, f)) =>
      match GetTable(k.(b := b), SlotOf(d))
      case None => Failed(k.(b := b))
      case Some(k1) =>
        if EntryOf(k1, d).present then Mapped(k1.(b := FreeKernel(k1.b, f)))
        else Mapped(Count(k1, SlotOf(d), 1).(ent := k1.ent[d := Entry(f, true, true, true, false, false)]))
  }

  // ---------------------------------------------------------------- ranges

  function Next(u: User, n: nat): User {
    u.(adr := u.adr + n * PAGE)
  }

  /**
   The loop of sysc_map.  Where the source has no page table the loop jumps ahead by the size
   of a table, from wherever it stands, and counts one page more than it jumps.
   */
  function MapLoop(k: Space, s: User, d: User, pages: nat, fl: Flags, root: bool, cur: nat): MapResult
    decreases pages
  {
    if pages == 0 then Mapped(k)
    else if SlotOf(s) !in k.tabs then
      if pages - 1 < 1024 then Mapped(k) else MapLoop(k, Next(s, 1024), Next(d, 1024), pages - 1 - 1024, fl, root, cur)
    else match MapPage(k, s, d, fl, root, cur)
         case Mapped(k1) => MapLoop(k1, Next(s, 1), Next(d, 1), pages - 1, fl, root, cur)
         case r => r
  }

  datatype CallResult = Finished(k: Space) | Stopped(k: Space) | Dead

  /** The loop of sysc_unmap; at: the directory slot whose table is at hand, -1 for none. */
  function UnmapLoop(k: Space, d: User, pages: nat, flag: UnmapFlag, free: bool, at: int): CallResult
    decreases pages
  {
    if pages == 0 then Finished(k)
    else if SlotOf(d).n != at && SlotOf(d) !in k.tabs then
      if pages - 1 < 1024 then Finished(k) else UnmapLoop(k, Next(d, 1024), pages - 1 - 1024, flag, free, SlotOf(d).n)
    else match UnmapPage(k, d, flag, free)
         case PagerError => Stopped(k)
         case Crash => Dead
         case Unmapped(k1) => UnmapLoop(k1, Next(d, 1), pages - 1, flag, free, SlotOf(d).n)
  }

  function AllocLoop(k: Space, d: User, pages: nat): MapResult
    decreases pages
  {
    if pages == 0 then Mapped(k)
    else match AllocPage(k, d)
         case Mapped(k1) => AllocLoop(k1, Next(d, 1), pages - 1)
         case r => r
  }

  /** sysc_move from address adr of process cur: map, and if that reports no error, unmap the source completely. */
  function Move(k: Space, adr: nat, d: User, pages: nat, fl: Flags, root: bool, cur: nat, free: bool): CallResult {
    match MapLoop(k, User(cur, adr), d, pages, fl, root, cur)
    case Mapped(k1) => UnmapLoop(k1, User(cur, adr), pages, Complete, free, -1)
    case Failed(k1) => Stopped(k1)
    case _ => Dead
  }

  // ---------------------------------------------------------------- the accounting invariant

  ghost function PresentIn(ent: map<User, Entry>, s: Slot): set<User> {
    set u | u in ent && SlotOf(u) == s && ent[u].present
  }

  /** An entry of a table: never empty, and a present one names a frame that it owns. */
  ghost predicate EntryOk(k: Space, u: User) {
    u in k.ent ==>
      && k.ent[u] != ZERO && SlotOf(u) in k.tabs
      && (k.ent[u].present ==> k.ent[u].frame in k.b.own && u in k.b.own[k.ent[u].frame])
  }

  /** An owner of a frame is listed once, and a user owner has a present entry for it. */
  ghost predicate OwnerOk(k: Space, f: nat) {
    f in k.b.own ==>
      && NoDup(k.b.own[f])
      && forall u :: u in k.b.own[f] && u.pid != KERNEL ==> u in k.ent && k.ent[u].present && k.ent[u].frame == f
  }

  /** A table has its own frame, and its counter is the number of its present entries. */
  ghost predicate TableOk(k: Space, s: Slot) {
    && Cnt(k, s) == |PresentIn(k.ent, s)|
    && (s in k.tabs ==> s.pid != KERNEL && k.tabs[s] in k.b.own && k.b.own[k.tabs[s]] == [User(KERNEL, k.tabs[s] + VAS_KERNEL_START)])
  }

  /** The usage of every frame is the number of present entries that name it, and the counters are right. */
  ghost predicate Acc(k: Space) {
    && Zoned(k.b) && k.b.start > 0x10_0000
    && (forall u :: EntryOk(k, u))
    && (forall f :: OwnerOk(k, f))
    && (forall s :: TableOk(k, s))
    && (forall s, t :: s in k.tabs && t in k.tabs && s != t ==> k.tabs[s] != k.tabs[t])
  }

  /** The part of the accounting that does not speak of owners: entries lie in tables, and counters and tables are right. */
  ghost predicate Books(k: Space) {
    && Zoned(k.b) && k.b.start > 0x10_0000
    && (forall u :: u in k.ent ==> k.ent[u] != ZERO && SlotOf(u) in k.tabs)
    && (forall s :: TableOk(k, s))
    && (forall s, t :: s in k.tabs && t in k.tabs && s != t ==> k.tabs[s] != k.tabs[t])
  }

  lemma AccBooks(k: Space)
    requires Acc(k)
    ensures Books(k)
  {
    forall u | u in k.ent ensures k.ent[u] != ZERO && SlotOf(u) in k.tabs { assert EntryOk(k, u); }
  }
}
