/**
 The heap allocator on abstract values: what mem_alloc, mem_free and mem_realloc do to the
 block table, to the heap size, to the set of resident pages and to the bytes in memory.
 Every function follows the branches of the code it models, including those that break
 the table.
 */
module HeapSpec {
  import opened BlockLists
  import opened BlockSteps
  import opened BestFit

  const HDR: nat := 36      // size of a block descriptor
  const PAGE: nat := 4096

  /**
   base, limit: address and page count of the heap region; usable: pages in use;
   res: numbers of the resident pages; ram: the bytes known to hold user data.
   */
  datatype Heap = Heap(t: Table, base: nat, limit: nat, usable: nat, res: set<nat>, ram: map<nat, int>)

  function DataOf(b: Blk): nat {
    b.start + HDR
  }

  function EndOf(b: Blk): nat {
    b.start + HDR + b.size
  }

  function HeapEnd(h: Heap): nat {
    h.base + h.usable * PAGE
  }

  function Pages(n: nat): nat {
    n / PAGE + if n % PAGE != 0 then 1 else 0
  }

  function RoundUp(a: nat): nat {
    if a % PAGE != 0 then a - a % PAGE + PAGE else a
  }

  // ---------------------------------------------------------------- pages and bytes

  /** The bytes of ram outside [lo, hi). */
  function Outside(ram: map<nat, int>, lo: nat, hi: nat): map<nat, int> {
    map x | x in ram && !(lo <= x < hi) :: ram[x]
  }

  /** The n numbers from q on. */
  function Span(q: nat, n: nat): (s: set<nat>)
    ensures forall x :: x in s <==> q <= x < q + n
  {
    if n == 0 then {} else Span(q, n - 1) + {q + n - 1}
  }

  /** alloc_pages: n pages from the page of address a become resident. */
  function MapPages(h: Heap, a: nat, n: nat): Heap {
    h.(res := h.res + Span(a / PAGE, n))
  }

  /** unmap: n pages from the page of address a disappear with their bytes. */
  function UnmapPages(h: Heap, a: nat, n: nat): Heap {
    var q := a / PAGE;
    h.(res := h.res - Span(q, n), ram := Outside(h.ram, q * PAGE, (q + n) * PAGE))
  }

  // ---------------------------------------------------------------- descriptors

  /** A new free block at position i of the GBL and at the head of its free list. */
  function CreateTable(t: Table, i: nat, start: nat, sz: nat, status: Status): Table
    requires i <= |t.blocks|
  {
    NewFree(t, i, Blk(start, start, sz, status, ClassOf(sz)))
  }

  /** lib_create_free_entry: the header of the new block overwrites the bytes there. */
  function CreateFree(h: Heap, i: nat, start: nat, sz: nat, status: Status): Heap
    requires i <= |h.t.blocks|
  {
    h.(t := CreateTable(h.t, i, start, sz, status), ram := Outside(h.ram, start, start + HDR))
  }

  ghost function TakeBlk(h: Heap, i: nat, size: nat, fbl: int): Heap
    requires i < |h.t.blocks|
  {
    h.(t := TakeTable(h.t, i, size, fbl))
  }

  /** lib_split_free_entry; ok tells whether page frames could be allocated. */
  ghost function Split(h: Heap, i: nat, sz: nat, ok: bool): Option<Heap>
    requires i < |h.t.blocks|
  {
    var b := h.t.blocks[i];
    if b.status.FreeEmpty? && !ok then None
    else if b.size <= sz + HDR then
      var h1 := if b.status.FreeEmpty? then MapPages(h, DataOf(b), Pages(sz)) else h;
      Some(TakeBlk(h1, i, b.size, b.fbl))
    else
      var h1 := if b.status.FreeEmpty? then MapPages(h, RoundUp(DataOf(b)), Pages(sz + HDR)) else h;
      var h2 := TakeBlk(h1, i, sz, ClassOf(sz));
      Some(CreateFree(h2, i + 1, DataOf(b) + sz, b.size - sz - HDR, b.status))
  }

  /** lib_grow_heap: a new free block of whole pages behind the heap. */
  function Grow(h: Heap, n: nat, ok: bool): Option<Heap> {
    var pages := Pages(n);
    if pages == 0 || h.usable + pages > h.limit - 1 || !ok then None
    else
      var h1 := MapPages(h, HeapEnd(h), pages).(usable := h.usable + pages);
      Some(CreateFree(h1, |h.t.blocks|, HeapEnd(h), pages * PAGE - HDR, Free))
  }

  /** mem_heap_dec. */
  function HeapDec(h: Heap, pages: nat): Heap {
    if h.usable < pages then h
    else UnmapPages(h, HeapEnd(h) - pages * PAGE, pages).(usable := h.usable - pages)
  }

  /** Block i gets rest more bytes and, when free, moves to the list of its new size. */
  function Extend(t: Table, i: nat, rest: nat): Table
    requires i < |t.blocks|
  {
    var b := t.blocks[i];
    var f := ClassOf(b.size + rest);
    if !b.status.Used? && b.fbl != f then
      AddFbl(SetBlk(RemFbl(t, i), i, b.size + rest, b.status, f), i)
    else
      SetBlk(t, i, b.size + rest, b.status, f)
  }

  /** What the predecessor of an unaligned last block gets: the bytes up to the page boundary. */
  function LastRest(bs: seq<Blk>): nat {
    var n := |bs|;
    if n > 1 && bs[n - 1].start % PAGE != 0 then PAGE - bs[n - 1].start % PAGE else 0
  }

  /** The last block off its list and out of the GBL. */
  function DropTail(t: Table): Table
    requires |t.blocks| > 0
  {
    var n := |t.blocks| - 1;
    var u := if t.blocks[n].status.Used? then RemUbl(t, n) else RemFbl(t, n);
    u.(blocks := u.blocks[..n])
  }

  /** The predecessor of the last block gets the bytes up to the page boundary. */
  function ExtendPrev(t: Table): (t': Table)
    ensures |t'.blocks| == |t.blocks|
  {
    if LastRest(t.blocks) > 0 then Extend(t, |t.blocks| - 2, LastRest(t.blocks)) else t
  }

  /** The table without its last block. */
  function ShrinkTable(t: Table): Table
    requires |t.blocks| > 0
  {
    DropTail(ExtendPrev(t))
  }

  /** lib_shrink_heap: the last block goes if it holds a whole page. */
  function Shrink(h: Heap): Heap {
    var n := |h.t.blocks|;
    if n == 0 then h
    else
      var pages := (h.t.blocks[n - 1].size + HDR) / PAGE;
      if pages == 0 then h else HeapDec(h.(t := ShrinkTable(h.t)), pages)
  }

  /** The pages lib_clean_free_entry removes: first address and number. */
  function CleanSpan(b: Blk): (nat, nat) {
    var start := RoundUp(DataOf(b));
    var p0 := b.size / PAGE;
    var p1 := if DataOf(b) % PAGE != 0 && p0 > 0 then p0 - 1 else p0;
    (start, if (start + b.size) % PAGE != 0 && p1 > 0 then p1 - 1 else p1)
  }

  /** lib_clean_free_entry. */
  function Clean(h: Heap, i: nat): Heap
    requires i < |h.t.blocks|
  {
    var b := h.t.blocks[i];
    var (start, pages) := CleanSpan(b);
    var h1 := if pages > 0 then UnmapPages(h, start, pages) else h;
    h1.(t := SetBlk(h.t, i, b.size, FreeEmpty, b.fbl))
  }

  function MergedStatus(a: Status, b: Status): Status {
    if a.FreeEmpty? || b.FreeEmpty? then FreeEmpty else Free
  }

  /** The block that free block i and its free neighbours become. */
  function MergedBlk(bs: seq<Blk>, i: nat): Blk
    requires i < |bs|
  {
    var (p, n) := (IsFreeAt(bs, i - 1), IsFreeAt(bs, i + 1));
    var sz1 := if p then bs[i].size + bs[i - 1].size + HDR else bs[i].size;
    var sz := if n then sz1 + bs[i + 1].size + HDR else sz1;
    var st1 := if p then MergedStatus(bs[i].status, bs[i - 1].status) else bs[i].status;
    var st := if n then MergedStatus(st1, bs[i + 1].status) else st1;
    bs[MergeLo(bs, i)].(size := sz, status := st, fbl := ClassOf(sz))
  }

  /** The table after free block i has been merged with its free neighbours. */
  function Merge(t: Table, i: nat): Table
    requires i < |t.blocks|
  {
    Joined(t, i, MergedBlk(t.blocks, i))
  }

  /** lib_unify_free_entry. */
  function Unify(h: Heap, i: nat): Heap
    requires i < |h.t.blocks|
  {
    if !IsFreeAt(h.t.blocks, i - 1) && !IsFreeAt(h.t.blocks, i + 1) then h
    else
      var lo := MergeLo(h.t.blocks, i);
      var h1 := h.(t := Merge(h.t, i));
      if lo + 1 == |h1.t.blocks| then Shrink(h1) else Clean(h1, lo)
  }

  // ---------------------------------------------------------------- mem_alloc

  datatype Found = Taken(h: Heap, i: nat) | NoFit | BadSize | NoPages | Twice(i: nat)

  /** lib_find_free_block_within. */
  ghost function FindFreeWithin(h: Heap, sz: nat, ok: bool): Found
    requires |h.t.fbl| == CLASSES
  {
    if ClassOf(sz) == -1 then BadSize
    else
      var (retval, bestfit) := Search(h.t, sz);
      var i := IdxOf(h.t.blocks, Chosen((retval, bestfit)));
      if i == |h.t.blocks| then NoFit
      else if retval == NULL then
        var r := Split(h, i, sz, ok);
        if r.Some? then Taken(r.value, i) else NoPages
      else if bestfit == NULL then
        var b := h.t.blocks[i];
        if b.status.FreeEmpty? && !ok then NoPages
        else
          var h1 := if b.status.FreeEmpty? then MapPages(h, RoundUp(DataOf(b)), Pages(sz)) else h;
          Taken(TakeBlk(h1, i, b.size, b.fbl), i)
      else Twice(i)
  }

  /** Corrupted: the block handed out is still on its free list and not on the UBL. */
  datatype AllocResult = Got(h: Heap, adr: nat) | Refused(h: Heap) | Corrupted(h: Heap, adr: nat)

  ghost function MemAlloc(h: Heap, sz: nat, ok: bool): AllocResult
    requires |h.t.fbl| == CLASSES
  {
    match FindFreeWithin(h, sz, ok)
    case Taken(h1, i) => if i < |h1.t.blocks| then Got(h1, DataOf(h1.t.blocks[i])) else Refused(h)
    case BadSize => Refused(h)
    case NoPages => Refused(h)
    case Twice(i) =>
      if i < |h.t.blocks| then
        var b := h.t.blocks[i];
        Corrupted(h.(t := SetBlk(h.t, i, b.size, Used, b.fbl)), DataOf(b))
      else Refused(h)
    case NoFit =>
      var g := Grow(h, sz + HDR, ok);
      if g.None? || |g.value.t.blocks| != |h.t.blocks| + 1 then Refused(h)
      else
        var r := Split(g.value, |h.t.blocks|, sz, ok);
        if r.Some? then Got(r.value, HeapEnd(h) + HDR) else Refused(h)
  }

  // ---------------------------------------------------------------- mem_free

  /** The index of the used block whose payload begins at adr, |bs| when there is none. */
  function FindUsed(bs: seq<Blk>, adr: nat): (i: nat)
    ensures i <= |bs| && (i < |bs| ==> bs[i].status.Used? && DataOf(bs[i]) == adr)
    ensures i == |bs| ==> forall j :: 0 <= j < |bs| && bs[j].status.Used? ==> DataOf(bs[j]) != adr
  {
    FindStart(bs, HDR, adr)
  }

  function FreeAt(h: Heap, i: nat): Heap
    requires i < |h.t.blocks|
  {
    var h1 := h.(t := Release(h.t, i));
    if i + 1 == |h.t.blocks| then Shrink(h1) else Unify(h1, i)
  }

  /** mem_free; an address that is not the start of a live payload changes nothing. */
  function MemFree(h: Heap, adr: nat): Heap {
    var i := FindUsed(h.t.blocks, adr);
    if adr == 0 || i == |h.t.blocks| then h else FreeAt(h, i)
  }

  // ---------------------------------------------------------------- mem_realloc

  /** buf_copy: n bytes from src to dst. */
  function CopyBytes(ram: map<nat, int>, dst: nat, src: nat, n: nat): map<nat, int> {
    Outside(ram, dst, dst + n) + map x | x in Span(dst, n) && (x - dst + src) in ram :: ram[x - dst + src]
  }

  /**
   Moved: the block now begins at adr (perhaps where it was); Lost: no new block was found and
   the old one was freed; StaleHeader: a descriptor was used after it had left the table;
   Broken: the inner mem_alloc corrupted the table.
   */
  datatype ReallocResult = Moved(h: Heap, adr: nat) | Lost(h: Heap) | Rejected(h: Heap) | StaleHeader(h: Heap) | Broken(h: Heap)

  /** A used block is cut down to nsz bytes and the rest becomes a free block. */
  function ShrinkBlk(h: Heap, i: nat, nsz: nat): ReallocResult
    requires i < |h.t.blocks| && nsz <= h.t.blocks[i].size
  {
    var b := h.t.blocks[i];
    if b.size - nsz <= HDR then Moved(h, DataOf(b))
    else
      var h1 := h.(t := SetBlk(h.t, i, nsz, b.status, ClassOf(nsz)));
      var h2 := CreateFree(h1, i + 1, DataOf(b) + nsz, b.size - nsz - HDR, Free);
      var h3 := Unify(h2, i + 1);
      if i + 1 >= |h3.t.blocks| then StaleHeader(h3) else Moved(LeaveRest(h3, i + 1), DataOf(b))
  }

  /** Free block i, the rest of a block that was cut down, is given up when it ends the heap, and cleaned otherwise. */
  function LeaveRest(h: Heap, i: nat): Heap
    requires i < |h.t.blocks|
  {
    if i + 1 == |h.t.blocks| then Shrink(h) else Clean(h, i)
  }

  /** Used block i grows to nsz bytes; its successor leaves its list and the GBL. */
  function AbsorbTable(t: Table, i: nat, nsz: nat): Table
    requires i + 1 < |t.blocks|
  {
    var u := if t.blocks[i + 1].status.Used? then RemUbl(t, i + 1) else RemFbl(t, i + 1);
    SetBlk(CutBlks(u, i, i + 2), i, nsz, Used, ClassOf(nsz))
  }

  function Absorb(h: Heap, i: nat, nsz: nat): Heap
    requires i + 1 < |h.t.blocks|
  {
    h.(t := AbsorbTable(h.t, i, nsz))
  }

  /** The old payload is copied to a new block and the old block is freed. */
  ghost function MoveBlk(h: Heap, adr: nat, osz: nat, nsz: nat, ok: bool): ReallocResult
    requires |h.t.fbl| == CLASSES
  {
    match MemAlloc(h, nsz, ok)
    case Corrupted(h1, _) => Broken(h1)
    case Refused(h1) => Lost(MemFree(h1, adr))
    case Got(h1, dst) =>
      Moved(MemFree(h1.(ram := CopyBytes(h1.ram, dst, adr, osz)), adr), dst)
  }

  /** The same after an error is already pending: the block found is not returned. */
  ghost function MoveAfterError(h: Heap, adr: nat, nsz: nat): ReallocResult
    requires |h.t.fbl| == CLASSES
  {
    match FindFreeWithin(h, nsz, false)
    case Taken(h1, _) => Lost(MemFree(h1, adr))
    case _ => Lost(MemFree(h, adr))
  }

  /** Used block i grows into the front of its successor, of which s is the split. */
  ghost function ExpandInto(h: Heap, i: nat, nsz: nat, s: Option<Heap>): ReallocResult
    requires |h.t.fbl| == CLASSES && i < |h.t.blocks|
  {
    if s.Some? && i + 1 < |s.value.t.blocks| then Moved(Absorb(s.value, i, nsz), DataOf(h.t.blocks[i]))
    else MoveAfterError(h, DataOf(h.t.blocks[i]), nsz)
  }

  ghost function Expand(h: Heap, i: nat, nsz: nat, ok: bool): ReallocResult
    requires |h.t.fbl| == CLASSES && i < |h.t.blocks| && h.t.blocks[i].size < nsz
  {
    var bs := h.t.blocks;
    var more := nsz - bs[i].size;
    if IsFreeAt(bs, i + 1) && bs[i + 1].size + HDR == more then
      Moved(Absorb(h, i, nsz), DataOf(bs[i]))
    else if IsFreeAt(bs, i + 1) && bs[i + 1].size > more then
      ExpandInto(h, i, nsz, Split(h, i + 1, more, ok))
    else MoveBlk(h, DataOf(bs[i]), bs[i].size, nsz, ok)
  }

  ghost function MemRealloc(h: Heap, adr: nat, nsz: nat, ok: bool): ReallocResult
    requires |h.t.fbl| == CLASSES
  {
    if adr == 0 && nsz == 0 then Rejected(h)
    else if adr == 0 then
      match MemAlloc(h, nsz, ok)
      case Got(h1, a) => Moved(h1, a)
      case Refused(h1) => Rejected(h1)
      case Corrupted(h1, _) => Broken(h1)
    else if nsz == 0 then Rejected(MemFree(h, adr))
    else
      var i := FindUsed(h.t.blocks, adr);
      if i == |h.t.blocks| then Rejected(h)
      else if h.t.blocks[i].size == nsz then Moved(h, adr)
      else if h.t.blocks[i].size > nsz then ShrinkBlk(h, i, nsz)
      else Expand(h, i, nsz, ok)
  }
}
